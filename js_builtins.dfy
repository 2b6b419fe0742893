/** The few JavaScript built-ins the ranking code leans on, with the
    semantics the code relies on: `toLowerCase`, `includes`, `slice(0, end)`. */
module JsBuiltins {

  datatype Option<T> = None | Some(value: T)

  /** `toLowerCase` on one character, for the ASCII letters. */
  function LowerChar(c: char): char
  {
    if 'A' <= c <= 'Z' then (c as int + 32) as char else c
  }

  /** `String.prototype.toLowerCase`, character by character. */
  function ToLower(s: string): (r: string)
    ensures |r| == |s|
  {
    seq(|s|, i requires 0 <= i < |s| => LowerChar(s[i]))
  }

  /** Lower-casing twice is lower-casing once. */
  lemma ToLowerIdempotent(s: string)
    ensures ToLower(ToLower(s)) == ToLower(s)
  {
    assert forall i :: 0 <= i < |s| ==> ToLower(ToLower(s))[i] == ToLower(s)[i];
  }

  /** `sub` occurs in `s` starting at index `i`. */
  predicate OccursAt(s: string, sub: string, i: int)
  {
    0 <= i && i + |sub| <= |s| && s[i..i + |sub|] == sub
  }

  /** `String.prototype.includes`: scan `s` from the left for `sub`. */
  predicate Includes(s: string, sub: string)
    decreases |s|
  {
    (|sub| <= |s| && s[..|sub|] == sub) || (|s| > 0 && Includes(s[1..], sub))
  }

  /** The scan answers exactly "does `sub` occur somewhere in `s`". */
  lemma IncludesIffOccurs(s: string, sub: string)
    ensures Includes(s, sub) <==> exists i :: OccursAt(s, sub, i)
  {
    if Includes(s, sub) {
      IncludesFinds(s, sub);
    }
    if i :| OccursAt(s, sub, i) {
      OccurrenceFound(s, sub, i);
    }
  }

  /** A successful scan has found an occurrence. */
  lemma {:induction false} IncludesFinds(s: string, sub: string)
    requires Includes(s, sub)
    ensures exists i :: OccursAt(s, sub, i)
    decreases |s|
  {
    if |sub| <= |s| && s[..|sub|] == sub {
      assert s[0..|sub|] == s[..|sub|];
      assert OccursAt(s, sub, 0);
    } else {
      IncludesFinds(s[1..], sub);
      var i :| OccursAt(s[1..], sub, i);
      assert s[i + 1..i + 1 + |sub|] == s[1..][i..i + |sub|];
      assert OccursAt(s, sub, i + 1);
    }
  }

  /** The scan reaches every occurrence. */
  lemma {:induction false} OccurrenceFound(s: string, sub: string, i: int)
    requires OccursAt(s, sub, i)
    ensures Includes(s, sub)
    decreases i
  {
    if i == 0 {
      assert s[..|sub|] == s[0..|sub|];
    } else {
      assert s[1..][i - 1..i - 1 + |sub|] == s[i..i + |sub|];
      OccurrenceFound(s[1..], sub, i - 1);
    }
  }

  /** Every string includes the empty string, so an empty query matches everything. */
  lemma IncludesEmpty(s: string)
    ensures Includes(s, "")
  {
  }

  /** The length `slice(0, end)` keeps: a negative `end` counts back from the end. */
  function SliceLength(n: nat, end: int): (k: nat)
    ensures k <= n
  {
    if end >= 0 then (if end < n then end else n)
    else if n + end > 0 then n + end else 0
  }

  /** `Array.prototype.slice(0, end)`. */
  function SliceTo<T>(s: seq<T>, end: int): seq<T>
  {
    s[..SliceLength(|s|, end)]
  }

  /** `slice(0, end)` keeps a prefix: all of `s` when `end` reaches past its
      end, exactly `end` elements for a smaller non-negative `end`, and for a
      negative `end` everything but the last `-end` elements (nothing when
      there are fewer). */
  lemma SliceToSpec<T>(s: seq<T>, end: int)
    ensures var r := SliceTo(s, end);
            && r == s[..|r|]
            && (end >= |s| ==> r == s)
            && (0 <= end < |s| ==> |r| == end)
            && (end < 0 && -end <= |s| ==> r + s[|s| + end..] == s)
            && (end < 0 && -end > |s| ==> r == [])
  {
    var r := SliceTo(s, end);
    if end < 0 && -end <= |s| {
      assert r == s[..|s| + end];
    }
  }
}
