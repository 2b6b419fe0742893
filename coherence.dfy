/** Step 5 of `/api/search`, "LLM Coherence Scoring", minus the chat call:
    the model's free-text reply becomes a score by taking the first match of
    `/(\d+(\.\d+)?)(\/10)?/`, reading its first group with `parseFloat` and
    dividing by 10. A reply without a numeral, or a call that throws, yields
    the fallback 0.5. Nothing clamps the result to [0, 1]. */
module Coherence {
  import opened JsBuiltins

  /** The score recorded when the reply has no numeral or the call fails. */
  const Fallback: real := 0.5

  predicate IsDigit(c: char)
  {
    '0' <= c <= '9'
  }

  predicate AllDigits(s: string)
  {
    forall i :: 0 <= i < |s| ==> IsDigit(s[i])
  }

  function DigitValue(c: char): nat
    requires IsDigit(c)
  {
    c as int - '0' as int
  }

  /** The length of the run of digits `s` starts with (a greedy `\d*`). */
  function DigitRun(s: string): (n: nat)
    ensures n <= |s| && AllDigits(s[..n])
    ensures n < |s| ==> !IsDigit(s[n])
  {
    if s != [] && IsDigit(s[0]) then
      var n := 1 + DigitRun(s[1..]);
      assert forall i :: 1 <= i < n ==> s[..n][i] == s[1..][..n - 1][i - 1];
      n
    else 0
  }

  /** Where the leftmost match starts: the first digit of the reply, if any. */
  function FirstDigit(s: string): (r: Option<nat>)
    ensures r.None? ==> forall i :: 0 <= i < |s| ==> !IsDigit(s[i])
    ensures r.Some? ==> r.value < |s| && IsDigit(s[r.value]) && forall i :: 0 <= i < r.value ==> !IsDigit(s[i])
  {
    if s == [] then None
    else if IsDigit(s[0]) then Some(0)
    else match FirstDigit(s[1..])
      case None => None
      case Some(i) => Some(i + 1)
  }

  /** The value of a string of decimal digits, most significant first. */
  function NaturalValue(ds: string): nat
    requires AllDigits(ds)
  {
    if ds == [] then 0 else NaturalValue(ds[..|ds| - 1]) * 10 + DigitValue(ds[|ds| - 1])
  }

  /** The value of the digits after a decimal point, `0.d1d2...`. */
  function FractionValue(ds: string): real
    requires AllDigits(ds)
  {
    if ds == [] then 0.0 else (DigitValue(ds[0]) as real + FractionValue(ds[1..])) / 10.0
  }

  /** The first capture group of the regex: the digits before the point and
      the digits after it (empty when there is no fraction). */
  datatype Numeral = Numeral(whole: string, fraction: string)
  {
    ghost predicate Valid()
    {
      whole != [] && AllDigits(whole) && AllDigits(fraction)
    }

    /** What `parseFloat` reads from the group. */
    function Value(): real
      requires Valid()
    {
      NaturalValue(whole) as real + FractionValue(fraction)
    }
  }

  /** The text `(\d+(\.\d+)?)` matches at the start of `s`, which starts with a
      digit: a greedy run of digits, then a point and a greedy run of digits
      when a digit follows the point. */
  function MatchNumeral(s: string): (n: Numeral)
    requires s != [] && IsDigit(s[0])
    ensures n.Valid()
    // the whole part is the longest run of digits `s` starts with
    ensures |n.whole| <= |s| && s[..|n.whole|] == n.whole
    ensures |n.whole| < |s| ==> !IsDigit(s[|n.whole|])
    // the fraction is taken exactly when a point and a digit follow, and is
    // then the longest run of digits after the point
    ensures var w := |n.whole|;
            if w + 1 < |s| && s[w] == '.' && IsDigit(s[w + 1]) then
              w + 1 + |n.fraction| <= |s| && s[w + 1..w + 1 + |n.fraction|] == n.fraction &&
              (w + 1 + |n.fraction| < |s| ==> !IsDigit(s[w + 1 + |n.fraction|]))
            else n.fraction == []
  {
    var w := DigitRun(s);
    var rest := s[w..];
    if |rest| >= 2 && rest[0] == '.' && IsDigit(rest[1]) then
      var f := DigitRun(rest[1..]);
      Numeral(s[..w], rest[1..][..f])
    else
      Numeral(s[..w], "")
  }

  /** `scoreMatch ? parseFloat(scoreMatch[1]) / 10 : 0.5` */
  function ScoreFromText(reply: string): (r: real)
    ensures r >= 0.0
    ensures (forall i :: 0 <= i < |reply| ==> !IsDigit(reply[i])) ==> r == Fallback
  {
    match FirstDigit(reply)
    case None => Fallback
    case Some(i) =>
      var n := MatchNumeral(reply[i..]);
      FractionNonNegative(n.fraction);
      n.Value() / 10.0
  }

  /** What the chat call produced: the reply text, or an exception (a failed
      request, or a reply without content, on which `.match` throws). */
  datatype Reply = Answered(content: string) | CallFailed

  /** The `llm_coherence` recorded for one candidate: the `try` path parses
      the reply, the `catch` path records the fallback. */
  function CoherenceScore(reply: Reply): (r: real)
    ensures r >= 0.0
    ensures reply.CallFailed? ==> r == Fallback
  {
    match reply
    case Answered(text) => ScoreFromText(text)
    case CallFailed => Fallback
  }

  /** A reply without any digit, and a failed call, both score exactly 0.5;
      any score is at least 0. */
  lemma FallbackScore(reply: Reply)
    ensures reply.CallFailed? ==> CoherenceScore(reply) == 0.5
    ensures reply.Answered? && (forall i :: 0 <= i < |reply.content| ==> !IsDigit(reply.content[i])) ==>
              CoherenceScore(reply) == 0.5
    ensures CoherenceScore(reply) >= 0.0
  {
    if reply.Answered? && FirstDigit(reply.content).Some? {
      var i := FirstDigit(reply.content).value;
      FractionNonNegative(MatchNumeral(reply.content[i..]).fraction);
    }
  }

  lemma {:induction false} FractionNonNegative(ds: string)
    requires AllDigits(ds)
    ensures 0.0 <= FractionValue(ds) < 1.0
  {
    if ds != [] {
      FractionNonNegative(ds[1..]);
    }
  }

  /** The decimal text of a natural number. */
  function NatText(n: nat): (s: string)
    ensures s != [] && AllDigits(s)
  {
    var d := "0123456789"[n % 10];
    if n < 10 then [d] else NatText(n / 10) + [d]
  }

  /** Reading back the text of `n` gives `n`. */
  lemma {:induction false} NatTextValue(n: nat)
    ensures NaturalValue(NatText(n)) == n
  {
    if n >= 10 {
      NatTextValue(n / 10);
      var s := NatText(n);
      assert s[..|s| - 1] == NatText(n / 10);
    }
  }

  /** Text before the first digit does not change the score. */
  lemma ScoreSkipsPrefix(prefix: string, s: string)
    requires forall i :: 0 <= i < |prefix| ==> !IsDigit(prefix[i])
    ensures ScoreFromText(prefix + s) == ScoreFromText(s)
  {
    var t := prefix + s;
    match FirstDigit(s)
    case None =>
      forall i | |prefix| <= i < |t|
        ensures !IsDigit(t[i])
      {
        assert t[i] == s[i - |prefix|];
      }
    case Some(i) =>
      assert t[|prefix| + i] == s[i];
      var v := FirstDigit(t).value;
      assert v == |prefix| + i by {
        if v > |prefix| + i {
        } else if v >= |prefix| {
          assert s[v - |prefix|] == t[v];
        }
      }
      assert t[v..] == s[i..];
  }

  /** A run of digits followed by a non-digit is matched whole. */
  lemma {:induction false} DigitRunOf(ds: string, rest: string)
    requires AllDigits(ds)
    requires rest == [] || !IsDigit(rest[0])
    ensures DigitRun(ds + rest) == |ds|
    decreases |ds|
  {
    if ds == [] {
      assert ds + rest == rest;
    } else {
      assert (ds + rest)[1..] == ds[1..] + rest;
      DigitRunOf(ds[1..], rest);
    }
  }

  /** The score of a reply whose first numeral is the whole number written
      `whole` (leading zeros allowed): the text before it has no digit, the
      text after it does not continue the numeral (for instance "/10 ..."). */
  lemma ScoreOfWholeNumber(prefix: string, whole: string, suffix: string)
    requires forall i :: 0 <= i < |prefix| ==> !IsDigit(prefix[i])
    requires whole != [] && AllDigits(whole)
    requires suffix == [] || !IsDigit(suffix[0])
    requires |suffix| >= 2 && suffix[0] == '.' ==> !IsDigit(suffix[1])
    ensures ScoreFromText(prefix + whole + suffix) == NaturalValue(whole) as real / 10.0
  {
    assert prefix + whole + suffix == prefix + (whole + suffix);
    ScoreSkipsPrefix(prefix, whole + suffix);
    DigitRunOf(whole, suffix);
    assert (whole + suffix)[..|whole|] == whole;
    assert (whole + suffix)[|whole|..] == suffix;
  }

  /** `whole.fraction` followed by a non-digit is matched as that numeral. */
  lemma MatchDecimal(whole: string, fraction: string, suffix: string)
    requires whole != [] && fraction != [] && AllDigits(whole) && AllDigits(fraction)
    requires suffix == [] || !IsDigit(suffix[0])
    ensures MatchNumeral(whole + ("." + fraction + suffix)) == Numeral(whole, fraction)
  {
    var tail := "." + fraction + suffix;
    var t := whole + tail;
    DigitRunOf(whole, tail);
    assert t[..|whole|] == whole;
    assert t[|whole|..] == tail;
    assert tail[1..] == fraction + suffix;
    DigitRunOf(fraction, suffix);
    assert (fraction + suffix)[..|fraction|] == fraction;
  }

  /** The score of a reply whose first numeral is `whole.fraction`. */
  lemma ScoreOfDecimal(prefix: string, whole: string, fraction: string, suffix: string)
    requires forall i :: 0 <= i < |prefix| ==> !IsDigit(prefix[i])
    requires whole != [] && fraction != [] && AllDigits(whole) && AllDigits(fraction)
    requires suffix == [] || !IsDigit(suffix[0])
    ensures ScoreFromText(prefix + whole + "." + fraction + suffix) ==
            (NaturalValue(whole) as real + FractionValue(fraction)) / 10.0
  {
    var t := whole + ("." + fraction + suffix);
    assert prefix + whole + "." + fraction + suffix == prefix + t;
    ScoreSkipsPrefix(prefix, t);
    MatchDecimal(whole, fraction, suffix);
    assert FirstDigit(t) == Some(0);
  }

  /** Nothing clamps the score: a reply of "85" records 8.5. */
  lemma ScoreIsNotClamped()
    ensures ScoreFromText("85") == 8.5
  {
    ScoreOfWholeNumber("", "85", "");
    assert "85"[..1] == "8";
    assert "" + "85" + "" == "85";
  }

  /** Only the first numeral counts: a reply "1 8/10" records 0.1. */
  lemma FirstNumeralWins()
    ensures ScoreFromText("1 8/10") == 0.1
  {
    ScoreOfWholeNumber("", "1", " 8/10");
    assert "1"[..0] == "";
    assert "" + "1" + " 8/10" == "1 8/10";
  }

  /** Leading zeros are read as `parseFloat` reads them: "07/10" records 0.7. */
  lemma LeadingZeroIgnored()
    ensures ScoreFromText("07/10") == 0.7
  {
    ScoreOfWholeNumber("", "07", "/10");
    assert "07"[..1] == "0";
    assert "" + "07" + "/10" == "07/10";
  }
}
