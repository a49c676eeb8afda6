/**
 What the page loop reports after each source page: a progress-bar value
 and a status line.
 */
module Progress {
  import opened Optional
  import opened Decimal

  /**
   The progress value after source page `i` (0-based) of `total`:
   `int(((i + 1) / total) * 100)`, computed over exact reals. The value is
   never negative, so truncation toward zero is the floor.
   */
  function Percent(i: nat, total: nat): (p: int)
    requires i < total
    ensures 0 <= p <= 100
    ensures i + 1 == total ==> p == 100
  {
    var fraction := (i + 1) as real / total as real;
    assert fraction * total as real == (i + 1) as real <= total as real;
    assert i + 1 == total ==> fraction == 1.0;
    (fraction * 100.0).Floor
  }

  /** The floor of an exact quotient of naturals is their integer quotient. */
  lemma FloorOfQuotient(n: nat, t: nat)
    requires t > 0
    ensures (n as real / t as real).Floor == n / t
  {
    var q := n / t;
    var x := n as real / t as real;
    var tr := t as real;
    assert x * tr == n as real;
    assert q * t <= n < q * t + t;
    assert (q * t) as real == q as real * tr;
    assert ((q + 1) * t) as real == (q as real + 1.0) * tr;
    if x < q as real {
      ScaleStrict(x, q as real, tr);
    }
    if x >= q as real + 1.0 {
      ScaleWeak(q as real + 1.0, x, tr);
    }
    assert q as real <= x < q as real + 1.0;
    assert x.Floor as real <= x < x.Floor as real + 1.0;
  }

  lemma ScaleStrict(a: real, b: real, c: real)
    requires a < b && c > 0.0
    ensures a * c < b * c
  {
    assert (b - a) * c > 0.0;
  }

  lemma ScaleWeak(a: real, b: real, c: real)
    requires a <= b && c > 0.0
    ensures a * c <= b * c
  {
    assert (b - a) * c >= 0.0;
  }

  /** The real-valued percent agrees with the integer quotient `(i + 1) * 100 / total`. */
  lemma PercentIsQuotient(i: nat, total: nat)
    requires i < total
    ensures Percent(i, total) == (i + 1) * 100 / total
  {
    var n := (i + 1) * 100;
    assert ((i + 1) as real / total as real) * 100.0 == n as real / total as real;
    FloorOfQuotient(n, total);
  }

  /** The progress value never decreases from one page to a later one. */
  lemma PercentMonotone(i: nat, j: nat, total: nat)
    requires i <= j < total
    ensures Percent(i, total) <= Percent(j, total)
  {
    var a := (i + 1) as real / total as real;
    var b := (j + 1) as real / total as real;
    assert a <= b;
    assert a * 100.0 <= b * 100.0;
  }

  const StatusPrefix := "Processing: "
  const StatusMiddle := " / "
  const StatusSuffix := " pages"

  /** The status line after source page `i` (0-based) of `total`. */
  function StatusText(i: nat, total: nat): string {
    StatusPrefix + NatToString(i + 1) + StatusMiddle + NatToString(total) + StatusSuffix
  }

  /** The length of the run of digits at the start of `s`. */
  function DigitSpan(s: string): (k: nat)
    ensures k <= |s|
    ensures AllDigits(s[..k])
    ensures k == |s| || !IsDigit(s[k])
    decreases |s|
  {
    if s == [] || !IsDigit(s[0]) then 0
    else
      var k := 1 + DigitSpan(s[1..]);
      assert s[..k] == [s[0]] + s[1..][..k - 1];
      k
  }

  /**
   Reads a status line back into the pair (pages done, total pages); None
   for text that is not a status line.
   */
  function ParseStatus(s: string): Option<(nat, nat)> {
    if |s| < |StatusPrefix| || s[..|StatusPrefix|] != StatusPrefix then None
    else
      var rest := s[|StatusPrefix|..];
      var k := DigitSpan(rest);
      var rest' := rest[k..];
      if k == 0 || |rest'| < |StatusMiddle| || rest'[..|StatusMiddle|] != StatusMiddle then None
      else
        var rest'' := rest'[|StatusMiddle|..];
        var m := DigitSpan(rest'');
        if m == 0 || rest''[m..] != StatusSuffix then None
        else Some((ParseNat(rest[..k]), ParseNat(rest''[..m])))
  }

  /** The digit run of a numeral followed by a non-digit is exactly the numeral. */
  lemma DigitSpanOfNumeral(d: string, t: string)
    requires AllDigits(d) && t != [] && !IsDigit(t[0])
    ensures DigitSpan(d + t) == |d|
    ensures (d + t)[..|d|] == d && (d + t)[|d|..] == t
  {
  }

  /** The status line names the page just finished and the page count, and nothing else. */
  lemma {:induction false} StatusRoundTrip(i: nat, total: nat)
    ensures ParseStatus(StatusText(i, total)) == Some((i + 1, total))
  {
    var a := NatToString(i + 1);
    var b := NatToString(total);
    var s := StatusText(i, total);
    assert s[..|StatusPrefix|] == StatusPrefix;
    var rest := s[|StatusPrefix|..];
    assert rest == a + (StatusMiddle + b + StatusSuffix);
    DigitSpanOfNumeral(a, StatusMiddle + b + StatusSuffix);
    var rest' := rest[|a|..];
    assert rest'[..|StatusMiddle|] == StatusMiddle;
    var rest'' := rest'[|StatusMiddle|..];
    assert rest'' == b + StatusSuffix;
    DigitSpanOfNumeral(b, StatusSuffix);
    ParseNatToString(i + 1);
    ParseNatToString(total);
  }

  /** Different (page, total) pairs never produce the same status line. */
  lemma StatusTextInjective(i: nat, total: nat, i': nat, total': nat)
    requires StatusText(i, total) == StatusText(i', total')
    ensures i == i' && total == total'
  {
    StatusRoundTrip(i, total);
    StatusRoundTrip(i', total');
  }

  /** One progress report: the bar value and the status line. */
  datatype Report = Report(percent: int, status: string)

  function ProgressReport(i: nat, total: nat): Report
    requires i < total
  {
    Report(Percent(i, total), StatusText(i, total))
  }
}
