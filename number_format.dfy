/**
 * Rendering of tableau cells and reading them back: `format_number`,
 * `parse_fraction_string` and `format_reciprocal_display` of project/app.py.
 *
 * Every cell of a tableau is stored as text and read back before any further
 * arithmetic, so what arithmetic sees of a value `v` is `Round(v)`: the
 * closest fraction with denominator at most 10. Values are exact reals here.
 */
module NumberFormat {
  import opened Wrappers
  import opened Text

  /** The bound given to `Fraction.limit_denominator`. */
  const MaxDenominator: int := 10

  function Abs(x: real): real { if x < 0.0 then -x else x }

  function Dist(a: real, b: real): real { Abs(a - b) }

  predicate IsIntegral(v: real) { v.Floor as real == v }

  /** The value of the fraction n/d. */
  function Ratio(n: int, d: int): real
    requires d != 0
  {
    n as real / d as real
  }

  /** `q` can be written as a fraction whose denominator is `d`. */
  predicate HasDenominator(q: real, d: int) { IsIntegral(q * d as real) }

  /** `q` can be written as a fraction with denominator at most 10. */
  ghost predicate Representable(q: real) {
    exists d :: 1 <= d <= MaxDenominator && HasDenominator(q, d)
  }

  lemma RatioHasDenominator(n: int, d: int)
    requires 1 <= d
    ensures Ratio(n, d) * d as real == n as real
    ensures HasDenominator(Ratio(n, d), d) && (Ratio(n, d) * d as real).Floor == n
  {
  }

  /** A value with denominator `d` is the fraction (v*d)/d. */
  lemma HasDenominatorRatio(q: real, d: int)
    requires 1 <= d && HasDenominator(q, d)
    ensures q == Ratio((q * d as real).Floor, d)
  {
  }

  /** The distance from v to m/d is the distance from v*d to m, divided by d. */
  lemma ScaledDist(v: real, w: real, m: int, d: int)
    requires 1 <= d && w == v * d as real
    ensures Dist(v, Ratio(m, d)) == Abs(w - m as real) / d as real
  {
    var dd := d as real;
    assert (v - Ratio(m, d)) * dd == w - m as real;
    if v - Ratio(m, d) < 0.0 {
      assert Abs(v - Ratio(m, d)) * dd == -((v - Ratio(m, d)) * dd);
    }
    assert Dist(v, Ratio(m, d)) * dd == Abs(w - m as real);
  }

  lemma DivideMonotone(a: real, b: real, d: real)
    requires a <= b && d > 0.0
    ensures a / d <= b / d
  {
  }

  /** The integer nearest to w, the lower one on a tie. */
  function NearestInteger(w: real): int {
    var f := w.Floor;
    if w - f as real <= (f + 1) as real - w then f else f + 1
  }

  lemma NearestIntegerIsNearest(w: real, m: int)
    ensures Abs(w - NearestInteger(w) as real) <= Abs(w - m as real)
  {
    var f := w.Floor;
    if m <= f {
      assert m as real <= f as real <= w;
    } else {
      assert m as real >= (f + 1) as real > w;
    }
  }

  /** Numerator of the multiple of 1/d nearest to v (the lower one on a tie). */
  function NearestNumerator(v: real, d: int): int
    requires 1 <= d
  {
    NearestInteger(v * d as real)
  }

  /** No fraction with denominator d is closer to v than NearestNumerator(v, d)/d. */
  lemma NearestNumeratorIsNearest(v: real, d: int, m: int)
    requires 1 <= d
    ensures Dist(v, Ratio(NearestNumerator(v, d), d)) <= Dist(v, Ratio(m, d))
  {
    var w := v * d as real;
    var n := NearestInteger(w);
    assert n == NearestNumerator(v, d);
    NearestIntegerIsNearest(w, m);
    ScaledDist(v, w, n, d);
    ScaledDist(v, w, m, d);
    DivideMonotone(Abs(w - n as real), Abs(w - m as real), d as real);
  }

  /** The closest fraction to v whose denominator lies in 1..d. */
  function BestUpTo(v: real, d: int): (q: real)
    requires 1 <= d <= MaxDenominator
    ensures Representable(q)
    decreases d
  {
    var cand := Ratio(NearestNumerator(v, d), d);
    RatioHasDenominator(NearestNumerator(v, d), d);
    if d == 1 then cand
    else
      var prev := BestUpTo(v, d - 1);
      if Dist(v, cand) < Dist(v, prev) then cand else prev
  }

  /** No fraction with denominator in 1..d is closer to v than BestUpTo(v, d). */
  lemma {:induction false} BestUpToNearest(v: real, d: int)
    requires 1 <= d <= MaxDenominator
    ensures forall m: int, e: int :: 1 <= e <= d ==> Dist(v, BestUpTo(v, d)) <= Dist(v, Ratio(m, e))
    decreases d
  {
    var cand := Ratio(NearestNumerator(v, d), d);
    var q := BestUpTo(v, d);
    if d == 1 {
      assert q == cand;
      forall m: int, e: int | 1 <= e <= d
        ensures Dist(v, q) <= Dist(v, Ratio(m, e))
      {
        NearestNumeratorIsNearest(v, d, m);
      }
    } else {
      var prev := BestUpTo(v, d - 1);
      BestUpToNearest(v, d - 1);
      assert Dist(v, q) <= Dist(v, cand) && Dist(v, q) <= Dist(v, prev);
      forall m: int, e: int | 1 <= e <= d
        ensures Dist(v, q) <= Dist(v, Ratio(m, e))
      {
        if e == d {
          NearestNumeratorIsNearest(v, d, m);
        }
      }
    }
  }

  /**
   * What is read back from a cell after `v` is written to it: `v` itself when
   * integral, otherwise the closest fraction with denominator at most 10.
   */
  function Round(v: real): (r: real)
    ensures Representable(r)
  {
    if IsIntegral(v) then
      assert HasDenominator(v, 1);
      v
    else BestUpTo(v, MaxDenominator)
  }

  /** What is read back is the closest value a cell can hold. */
  lemma RoundNearest(v: real)
    ensures forall m: int, e: int :: 1 <= e <= MaxDenominator ==> Dist(v, Round(v)) <= Dist(v, Ratio(m, e))
  {
    if !IsIntegral(v) {
      BestUpToNearest(v, MaxDenominator);
    }
  }

  /** An integral value survives the write and read unchanged. */
  lemma RoundIntegral(v: real)
    requires IsIntegral(v)
    ensures Round(v) == v
  {
  }

  /** A fraction with denominator at most 10 survives the write and read unchanged. */
  lemma RoundExact(n: int, d: int)
    requires 1 <= d <= MaxDenominator
    ensures Round(Ratio(n, d)) == Ratio(n, d)
  {
    var v := Ratio(n, d);
    RoundNearest(v);
    assert Dist(v, Round(v)) <= Dist(v, Ratio(n, d));
  }

  /** Writing and reading a cell twice is the same as doing it once. */
  lemma RoundIdempotent(v: real)
    ensures Round(Round(v)) == Round(v)
  {
    var q := Round(v);
    var d :| 1 <= d <= MaxDenominator && HasDenominator(q, d);
    HasDenominatorRatio(q, d);
    RoundExact((q * d as real).Floor, d);
  }

  /** The smallest denominator in d..10 with which q can be written. */
  function LowestDenominatorFrom(q: real, d: int): (r: int)
    requires 1 <= d <= MaxDenominator
    requires exists e :: d <= e <= MaxDenominator && HasDenominator(q, e)
    ensures d <= r <= MaxDenominator && HasDenominator(q, r)
    ensures forall e :: d <= e < r ==> !HasDenominator(q, e)
    decreases MaxDenominator - d
  {
    if HasDenominator(q, d) then d else LowestDenominatorFrom(q, d + 1)
  }

  /** The denominator of q in lowest terms. */
  function LowestDenominator(q: real): (r: int)
    requires Representable(q)
    ensures 1 <= r <= MaxDenominator && HasDenominator(q, r)
    ensures forall e :: 1 <= e < r ==> !HasDenominator(q, e)
  {
    LowestDenominatorFrom(q, 1)
  }

  /** The numerator of q in lowest terms. */
  function LowestNumerator(q: real): int
    requires Representable(q)
  {
    (q * LowestDenominator(q) as real).Floor
  }

  /** A value written in lowest terms: "n" when the denominator is 1, "n/d" otherwise. */
  function Render(q: real): (s: string)
    requires Representable(q)
    ensures '/' in s <==> !IsIntegral(q)
  {
    var d := LowestDenominator(q);
    var n := LowestNumerator(q);
    LowestTerms(q);
    IntToStringNoSlash(n);
    IntToStringNoSlash(d);
    if d == 1 then IntToString(n)
    else
      assert (IntToString(n) + "/" + IntToString(d))[|IntToString(n)|] == '/';
      IntToString(n) + "/" + IntToString(d)
  }

  /**
   * `format_number(num)`: an integral value as its integer; otherwise
   * `Fraction(num).limit_denominator(10)`, as "n/d" or, when that fraction
   * has denominator 1, as "n". The source's 2-decimal fallback is taken only
   * when `Fraction` raises, which it cannot on a finite value.
   */
  function FormatNumber(v: real): (s: string)
    ensures s == Render(Round(v))
    ensures IsIntegral(v) ==> s == IntToString(v.Floor)
    ensures '/' in s <==> !IsIntegral(Round(v))
  {
    if IsIntegral(v) then
      assert HasDenominator(v, 1);
      IntToString(v.Floor)
    else Render(BestUpTo(v, MaxDenominator))
  }

  function Pow10(n: nat): (r: nat)
    ensures r > 0
  {
    if n == 0 then 1 else 10 * Pow10(n - 1)
  }

  /** Python's `float()` on an unsigned decimal: `12`, `12.5`, `12.` or `.5`. */
  function ParseUnsigned(s: string): (r: Option<real>)
    ensures r.Some? ==> 0.0 <= r.value && forall i :: 0 <= i < |s| ==> IsDigit(s[i]) || s[i] == '.'
  {
    var k := LeadingDigits(s);
    DecimalChars(s, k);
    var whole := DigitsValue(s[..k]) as real;
    if k == |s| then
      if k > 0 then Some(whole) else None
    else if s[k] == '.' && AllDigits(s[k + 1..]) && (k > 0 || k + 1 < |s|) then
      Some(whole + DigitsValue(s[k + 1..]) as real / Pow10(|s| - k - 1) as real)
    else None
  }

  /** Digits, a point, then digits hold nothing but digits and that point. */
  lemma DecimalChars(s: string, k: nat)
    requires k <= |s| && AllDigits(s[..k])
    ensures k == |s| ==> forall i :: 0 <= i < |s| ==> IsDigit(s[i])
    ensures k < |s| && s[k] == '.' && AllDigits(s[k + 1..]) ==> forall i :: 0 <= i < |s| ==> IsDigit(s[i]) || s[i] == '.'
  {
    forall i | 0 <= i < k
      ensures IsDigit(s[i])
    {
      assert s[..k][i] == s[i];
    }
    if k < |s| {
      forall i | k < i < |s|
        ensures AllDigits(s[k + 1..]) ==> IsDigit(s[i])
      {
        assert s[k + 1..][i - k - 1] == s[i];
      }
    }
  }

  /** Python's `float()` on a decimal with an optional sign; `None` where it raises. */
  function ParseNumber(s: string): (r: Option<real>)
    ensures r.Some? ==> forall i :: 0 <= i < |s| ==> IsDigit(s[i]) || s[i] == '.' || (i == 0 && IsSign(s[i]))
    ensures r.Some? ==> |s| > 0 && (r.value < 0.0 ==> s[0] == '-')
  {
    if |s| > 0 && IsSign(s[0]) then
      match ParseUnsigned(s[1..])
      case Some(x) => Some(if s[0] == '-' then -x else x)
      case None => None
    else ParseUnsigned(s)
  }

  /** An integer's rendering reads back as that integer. */
  lemma ParseIntToString(n: int)
    ensures ParseNumber(IntToString(n)) == Some(n as real)
  {
    var m: nat := if n < 0 then -n else n;
    var digits := NatToString(m);
    NatToStringValue(m);
    assert LeadingDigits(digits) == |digits|;
    assert digits[..|digits|] == digits;
    if n < 0 {
      assert IntToString(n)[1..] == digits;
    }
  }

  /**
   * `parse_fraction_string(value)` on a string: "a/b" is float(a)/float(b),
   * any other text is float(text), or 0.0 when float() raises. `None` marks
   * the inputs on which the source raises: a '/' with anything but two
   * numeric parts around it, or a zero denominator.
   */
  function ParseFraction(s: string): (r: Option<real>)
    ensures r.None? ==> '/' in s
    ensures '/' !in s && ParseNumber(s).None? ==> r == Some(0.0)
  {
    if '/' in s then
      var parts := Split(s, '/');
      if |parts| == 2 then
        match (ParseNumber(parts[0]), ParseNumber(parts[1]))
        case (Some(n), Some(d)) => if d != 0.0 then Some(n / d) else None
        case _ => None
      else None
    else
      match ParseNumber(s)
      case Some(x) => Some(x)
      case None => Some(0.0)
  }

  lemma IntToStringNoSlash(n: int)
    ensures '/' !in IntToString(n)
  {
  }

  /** Lowest terms: the numerator and denominator give back q. */
  lemma LowestTerms(q: real)
    requires Representable(q)
    ensures q == Ratio(LowestNumerator(q), LowestDenominator(q))
    ensures LowestDenominator(q) == 1 <==> IsIntegral(q)
  {
    var d := LowestDenominator(q);
    var n := (q * d as real).Floor;
    assert LowestNumerator(q) == n;
    assert q == Ratio(n, d) by {
      HasDenominatorRatio(q, d);
    }
    assert d == 1 <==> IsIntegral(q) by {
      assert q * 1.0 == q;
      if IsIntegral(q) {
        assert HasDenominator(q, 1);
      }
    }
  }

  /** A value rendered in lowest terms reads back as itself. */
  lemma ParseRender(q: real)
    requires Representable(q)
    ensures ParseFraction(Render(q)) == Some(q)
  {
    var d := LowestDenominator(q);
    var n := LowestNumerator(q);
    LowestTerms(q);
    if d == 1 {
      ParseIntToString(n);
      IntToStringNoSlash(n);
      assert Render(q) == IntToString(n);
    } else {
      assert Render(q) == IntToString(n) + "/" + IntToString(d);
      ParseSlashed(n, d);
    }
  }

  /** Reading back a written value gives exactly Round of it. */
  lemma ParseFormat(v: real)
    ensures ParseFraction(FormatNumber(v)) == Some(Round(v))
  {
    ParseRender(Round(v));
  }

  /** An integer or a fraction with denominator at most 10 is read back exactly. */
  lemma ParseFormatExact(n: int, d: int)
    requires 1 <= d <= MaxDenominator
    ensures ParseFraction(FormatNumber(Ratio(n, d))) == Some(Ratio(n, d))
  {
    ParseFormat(Ratio(n, d));
    RoundExact(n, d);
  }

  /** format, then parse, then format again renders the same text as the first format. */
  lemma FormatParseFormat(v: real)
    ensures ParseFraction(FormatNumber(v)).Some?
    ensures FormatNumber(ParseFraction(FormatNumber(v)).value) == FormatNumber(v)
  {
    ParseFormat(v);
    RoundIdempotent(v);
  }

  /**
   * `format_reciprocal_display(k)`: "1/k = 1/<k>", followed by " or d/n" when
   * k renders as the fraction "n/d".
   */
  function ReciprocalDisplay(k: real): (r: string)
    ensures "1/k = 1/" + FormatNumber(k) <= r
    ensures IsIntegral(Round(k)) ==> r == "1/k = 1/" + FormatNumber(k)
  {
    ReciprocalText(FormatNumber(k))
  }

  /** The display built from the rendering `ks` of k. */
  function ReciprocalText(ks: string): (r: string)
    ensures "1/k = 1/" + ks <= r
    ensures '/' !in ks ==> r == "1/k = 1/" + ks
  {
    if '/' in ks then
      var parts := Split(ks, '/');
      if |parts| == 2 then "1/k = 1/" + ks + " or " + parts[1] + "/" + parts[0]
      else "1/k = 1/" + ks
    else "1/k = 1/" + ks
  }

  /** When k reads back as a whole number the display has no "or" part. */
  lemma ReciprocalDisplayWhole(k: real)
    requires IsIntegral(Round(k))
    ensures ReciprocalDisplay(k) == "1/k = 1/" + IntToString(Round(k).Floor)
  {
    var q := Round(k);
    LowestTerms(q);
    assert (q * 1.0).Floor == q.Floor;
    assert FormatNumber(k) == IntToString(q.Floor);
    IntToStringNoSlash(q.Floor);
  }

  /** "n/d" with a non-zero d reads back as n/d. */
  lemma ParseSlashed(n: int, d: int)
    requires d != 0
    ensures ParseFraction(IntToString(n) + "/" + IntToString(d)) == Some(Ratio(n, d))
  {
    var a, b := IntToString(n), IntToString(d);
    IntToStringNoSlash(n);
    IntToStringNoSlash(d);
    ParseIntToString(n);
    ParseIntToString(d);
    SplitTwo(a, '/', b);
    assert (a + ['/'] + b)[|a|] == '/';
  }

  /** A representable value is its own Round. */
  lemma RoundRepresentable(q: real)
    requires Representable(q)
    ensures Round(q) == q
  {
    var d := LowestDenominator(q);
    HasDenominatorRatio(q, d);
    RoundExact((q * d as real).Floor, d);
  }

  /** The rendering of a value whose Round is not integral. */
  lemma FormatFractionOfRound(k: real)
    requires !IsIntegral(Round(k))
    ensures var q := Round(k);
      FormatNumber(k) == IntToString(LowestNumerator(q)) + "/" + IntToString(LowestDenominator(q))
  {
    var q := Round(k);
    LowestTerms(q);
    assert FormatNumber(k) == Render(q);
  }

  /** A value that is not integral has a non-zero numerator and a denominator above 1. */
  lemma FractionParts(q: real)
    requires Representable(q) && !IsIntegral(q)
    ensures LowestNumerator(q) != 0 && LowestDenominator(q) > 1
  {
    LowestTerms(q);
  }

  /** The display for a k rendered as "a/b". */
  lemma ReciprocalTextFraction(a: string, b: string)
    requires '/' !in a && '/' !in b
    ensures ReciprocalText(a + "/" + b) == "1/k = 1/" + a + "/" + b + " or " + b + "/" + a
  {
    assert (a + ['/'] + b)[|a|] == '/';
    SplitTwo(a, '/', b);
  }

  /** The flipped rendering d/n of a non-integral n/d reads back as its reciprocal. */
  lemma FlippedFraction(q: real)
    requires Representable(q) && !IsIntegral(q)
    ensures ParseFraction(IntToString(LowestDenominator(q)) + "/" + IntToString(LowestNumerator(q))) == Some(1.0 / q)
  {
    var n, d := LowestNumerator(q), LowestDenominator(q);
    FractionParts(q);
    ParseFlipped(n, d);
    LowestTerms(q);
  }

  lemma ParseFlipped(n: int, d: int)
    requires n != 0 && d != 0
    ensures ParseFraction(IntToString(d) + "/" + IntToString(n)) == Some(1.0 / Ratio(n, d))
  {
    ParseSlashed(d, n);
    ReciprocalRatio(n, d);
  }

  lemma ReciprocalRatio(n: int, d: int)
    requires n != 0 && d != 0
    ensures Ratio(d, n) == 1.0 / Ratio(n, d)
  {
  }

  /**
   * When k reads back as the fraction n/d, the display shows it and its flipped
   * form d/n, and d/n reads back as 1/k.
   */
  lemma ReciprocalDisplayFraction(k: real)
    requires !IsIntegral(Round(k))
    ensures var q := Round(k);
      var a, b := IntToString(LowestNumerator(q)), IntToString(LowestDenominator(q));
      && ReciprocalDisplay(k) == "1/k = 1/" + a + "/" + b + " or " + b + "/" + a
      && ParseFraction(b + "/" + a) == Some(1.0 / q)
  {
    var q := Round(k);
    var n, d := LowestNumerator(q), LowestDenominator(q);
    FormatFractionOfRound(k);
    IntToStringNoSlash(n);
    IntToStringNoSlash(d);
    ReciprocalTextFraction(IntToString(n), IntToString(d));
    FlippedFraction(q);
  }
}
