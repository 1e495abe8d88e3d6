/**
 * The small numeric helpers: `weighted_wer`, the weighted mean of per-file
 * word error rates; `change_to_seconds`, a "minutes:seconds" text read with
 * `datetime.strptime(x, "%M:%S")`; and `compare_words`, the split of two word
 * lists into common, missing and extra words.
 */
module Metrics {
  import opened Results
  import opened Text

  // ------------------------------------------------------------ weighted_wer

  /** `sum(weights)`. */
  function Sum(ws: seq<int>): int {
    if ws == [] then 0 else ws[0] + Sum(ws[1..])
  }

  /** `sum(weight * wer for weight, wer in zip(weights, wers))`: `zip` stops at
      the end of the shorter list. */
  function Dot(ws: seq<int>, rs: seq<real>): real {
    if ws == [] || rs == [] then 0.0 else ws[0] as real * rs[0] + Dot(ws[1..], rs[1..])
  }

  /** The only error `weighted_wer` raises: `ZeroDivisionError` on a zero weight sum. */
  datatype ArithError = ZeroDivision

  /** `weighted_wer` before its final rounding to two decimals. */
  function WeightedWer(ws: seq<int>, rs: seq<real>): (r: Result<real, ArithError>)
    ensures r.Err? <==> Sum(ws) == 0
    ensures r.Ok? ==> r.value * Sum(ws) as real == Dot(ws, rs)
  {
    if Sum(ws) == 0 then Err(ZeroDivision) else Ok(Dot(ws, rs) / Sum(ws) as real)
  }

  /** Only the common prefix of the two lists enters the weighted sum. */
  lemma {:induction false} DotTruncates(ws: seq<int>, rs: seq<real>)
    ensures var n := if |ws| < |rs| then |ws| else |rs|;
      Dot(ws, rs) == Dot(ws[..n], rs[..n])
  {
    if ws != [] && rs != [] {
      DotTruncates(ws[1..], rs[1..]);
      var n := if |ws| < |rs| then |ws| else |rs|;
      assert ws[..n][1..] == ws[1..][..n - 1];
      assert rs[..n][1..] == rs[1..][..n - 1];
    }
  }

  /** With non-negative weights, rates in `[lo, hi]` give a weighted sum
      between `lo` and `hi` times the weight sum. */
  lemma {:induction false} DotBounds(ws: seq<int>, rs: seq<real>, lo: real, hi: real)
    requires |ws| == |rs|
    requires forall k | 0 <= k < |ws| :: ws[k] >= 0 && lo <= rs[k] <= hi
    ensures lo * Sum(ws) as real <= Dot(ws, rs) <= hi * Sum(ws) as real
  {
    if ws != [] {
      DotBounds(ws[1..], rs[1..], lo, hi);
      var w := ws[0] as real;
      assert w * lo <= w * rs[0] <= w * hi by {
        assert w >= 0.0;
        assert w * (rs[0] - lo) >= 0.0;
        assert w * (hi - rs[0]) >= 0.0;
      }
      assert Sum(ws) as real == w + Sum(ws[1..]) as real;
    }
  }

  /** For equal-length lists, non-negative weights and a positive weight sum,
      the weighted rate lies between the smallest and the largest rate. */
  lemma WeightedWerBounds(ws: seq<int>, rs: seq<real>, lo: real, hi: real)
    requires |ws| == |rs|
    requires forall k | 0 <= k < |ws| :: ws[k] >= 0 && lo <= rs[k] <= hi
    requires Sum(ws) > 0
    ensures WeightedWer(ws, rs).Ok?
    ensures lo <= WeightedWer(ws, rs).value <= hi
  {
    var d, s := Dot(ws, rs), Sum(ws) as real;
    assert WeightedWer(ws, rs) == Ok(d / s);
    DotBounds(ws, rs, lo, hi);
    QuotientBounds(d, s, lo, hi);
  }

  lemma QuotientBounds(d: real, s: real, lo: real, hi: real)
    requires s > 0.0 && lo * s <= d <= hi * s
    ensures lo <= d / s <= hi
  {
    var q := d / s;
    assert q * s == d;
    assert (q - lo) * s >= 0.0;
    assert (hi - q) * s >= 0.0;
  }

  /** When every rate is `r`, so is the weighted rate. */
  lemma WeightedWerConstant(ws: seq<int>, rs: seq<real>, r: real)
    requires |ws| == |rs|
    requires forall k | 0 <= k < |ws| :: ws[k] >= 0 && rs[k] == r
    requires Sum(ws) > 0
    ensures WeightedWer(ws, rs) == Ok(r)
  {
    WeightedWerBounds(ws, rs, r, r);
  }

  /** A missing rate is not an error: `weighted_wer([1, 1], [50])` divides the
      one product by both weights. */
  lemma WeightedWerTruncates()
    ensures WeightedWer([1, 1], [50.0]) == Ok(25.0)
    ensures WeightedWer([3, 1], [0.0, 100.0]) == Ok(25.0)
    ensures WeightedWer([], []) == Err(ZeroDivision)
    ensures WeightedWer([1, -1], [10.0, 20.0]) == Err(ZeroDivision)
  {
    assert Dot([1, 1], [50.0]) == 50.0 by {
      assert [1, 1][1..] == [1];
      assert [50.0][1..] == [];
    }
    assert Sum([1, 1]) == 2 by {
      assert [1, 1][1..] == [1];
    }
    assert Dot([3, 1], [0.0, 100.0]) == 100.0 by {
      assert [3, 1][1..] == [1];
      assert [0.0, 100.0][1..] == [100.0];
    }
    assert Sum([3, 1]) == 4 by {
      assert [3, 1][1..] == [1];
    }
    assert Sum([1, -1]) == 0 by {
      assert [1, -1][1..] == [-1];
    }
  }

  // ------------------------------------------------------------ change_to_seconds

  /** The `ValueError`s `datetime.strptime(x, "%M:%S")` raises. */
  datatype TimeError =
    | NoMatch           // the text does not match the format
    | UnconvertedData   // text is left over after the match
    | SecondOutOfRange  // a second of 60 or 61, which `datetime` refuses

  function Digit(c: char): nat
    requires IsDigit(c)
  {
    c as int - '0' as int
  }

  /** The `%M` directive, `[0-5]\d|\d`, followed by the `:` of the format,
      matched at the start of `x`: the minute and the index after the colon. */
  function MatchMinute(x: string): (r: Option<(nat, nat)>)
    ensures r.Some? ==> r.value.0 < 60 && 2 <= r.value.1 <= 3 && r.value.1 <= |x|
    ensures r.Some? ==> x[r.value.1 - 1] == ':'
  {
    if |x| >= 3 && '0' <= x[0] <= '5' && IsDigit(x[1]) && x[2] == ':' then
      Some((10 * Digit(x[0]) + Digit(x[1]), 3))
    else if |x| >= 2 && IsDigit(x[0]) && x[1] == ':' then
      Some((Digit(x[0]), 2))
    else None
  }

  /** The `%S` directive, `6[0-1]|[0-5]\d|\d`, matched at index `p` of `x`:
      the first alternative that matches wins. */
  function MatchSecond(x: string, p: nat): (r: Option<(nat, nat)>)
    ensures r.Some? ==> r.value.0 <= 61 && p < r.value.1 <= |x|
  {
    if p + 2 <= |x| && x[p] == '6' && '0' <= x[p + 1] <= '1' then
      Some((60 + Digit(x[p + 1]), p + 2))
    else if p + 2 <= |x| && '0' <= x[p] <= '5' && IsDigit(x[p + 1]) then
      Some((10 * Digit(x[p]) + Digit(x[p + 1]), p + 2))
    else if p < |x| && IsDigit(x[p]) then
      Some((Digit(x[p]), p + 1))
    else None
  }

  /** `datetime.strptime(x, "%M:%S")`, as the minute and the second. */
  function StrpTime(x: string): (r: Result<(nat, nat), TimeError>)
    ensures r.Ok? ==> r.value.0 < 60 && r.value.1 < 60
  {
    match MatchMinute(x)
    case None => Err(NoMatch)
    case Some((m, p)) =>
      match MatchSecond(x, p)
      case None => Err(NoMatch)
      case Some((s, e)) =>
        if e != |x| then Err(UnconvertedData)
        else if s > 59 then Err(SecondOutOfRange)
        else Ok((m, s))
  }

  /** `change_to_seconds`: a missing value comes back unchanged, a time text
      becomes its number of seconds, anything else raises. */
  function ChangeToSeconds(x: Option<string>): (r: Result<Option<int>, TimeError>)
    ensures x.None? ==> r == Ok(None)
    ensures r.Ok? && r.value.Some? ==> 0 <= r.value.value <= 3599
  {
    match x
    case None => Ok(None)
    case Some(t) =>
      match StrpTime(t)
      case Err(e) => Err(e)
      case Ok((m, s)) => Ok(Some(60 * m + s))
  }

  /** One field of an accepted time: one digit, or two digits the first of which is 0 to 5. */
  predicate Field(t: string) {
    || (|t| == 1 && IsDigit(t[0]))
    || (|t| == 2 && '0' <= t[0] <= '5' && IsDigit(t[1]))
  }

  function FieldValue(t: string): (n: nat)
    requires Field(t)
    ensures n < 60
  {
    if |t| == 1 then Digit(t[0]) else 10 * Digit(t[0]) + Digit(t[1])
  }

  /** Every "M:S" with both fields in 0..59, written with one or two digits, is
      read as `60 * M + S`. */
  lemma ChangeToSecondsAccepts(a: string, b: string)
    requires Field(a) && Field(b)
    ensures ChangeToSeconds(Some(a + ":" + b)) == Ok(Some(60 * FieldValue(a) + FieldValue(b)))
  {
    var t := a + ":" + b;
    assert t[|a|] == ':';
    assert t[|a| + 1..] == b;
    if |a| == 2 {
      assert t[0] == a[0] && t[1] == a[1];
    } else {
      assert t[0] == a[0];
    }
    assert MatchMinute(t) == Some((FieldValue(a), |a| + 1));
    assert t[|a| + 1] == b[0];
    if |b| == 2 {
      assert t[|a| + 2] == b[1];
    }
  }

  /** And nothing else is: a string that is read is a colon between two such fields. */
  lemma ChangeToSecondsOnly(t: string)
    requires ChangeToSeconds(Some(t)).Ok?
    ensures exists i | 0 <= i < |t| ::
      && t[i] == ':' && Field(t[..i]) && Field(t[i + 1..])
      && ChangeToSeconds(Some(t)) == Ok(Some(60 * FieldValue(t[..i]) + FieldValue(t[i + 1..])))
  {
    var p := MatchMinute(t).value.1;
    var i := p - 1;
    assert t[i] == ':';
    assert Field(t[..i]);
    assert Field(t[i + 1..]);
  }

  /** Seconds of 60 and 61 get past the pattern and are refused afterwards;
      a second field of 7 to 9 followed by a digit leaves that digit unread. */
  lemma ChangeToSecondsRejects()
    ensures ChangeToSeconds(Some("1:60")) == Err(SecondOutOfRange)
    ensures ChangeToSeconds(Some("1:75")) == Err(UnconvertedData)
    ensures ChangeToSeconds(Some("60:00")) == Err(NoMatch)
    ensures ChangeToSeconds(Some("")) == Err(NoMatch)
  {
  }

  // ------------------------------------------------------------ compare_words

  function Elements(ws: seq<string>): (s: set<string>)
    ensures forall w :: w in s <==> w in ws
  {
    set w | w in ws
  }

  /** `compare_words`: the words of both lists, those only in the reference,
      and those only in the hypothesis. */
  function CompareWords(reference: seq<string>, hypothesis: seq<string>): (r: (set<string>, set<string>, set<string>))
    ensures forall w :: w in r.0 <==> w in reference && w in hypothesis
    ensures forall w :: w in r.1 <==> w in reference && w !in hypothesis
    ensures forall w :: w in r.2 <==> w in hypothesis && w !in reference
  {
    var common := Elements(reference) * Elements(hypothesis);
    (common, Elements(reference) - common, Elements(hypothesis) - common)
  }

  /** The common and the missing words split the reference's words, the common
      and the extra words split the hypothesis's words. */
  lemma CompareWordsPartition(reference: seq<string>, hypothesis: seq<string>)
    ensures var (common, missing, extra) := CompareWords(reference, hypothesis);
      && common + missing == Elements(reference) && common !! missing
      && common + extra == Elements(hypothesis) && common !! extra
      && missing !! extra
  {
  }
}
