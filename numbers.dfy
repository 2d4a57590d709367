/**
 * Numeric text as the transformation stage handles it: removing thousands
 * separators, reading a decimal number, and rescaling millions to billions
 * rounded to two decimal places. Numbers are exact decimals, not floats.
 */
module Numbers {
  import opened Wrappers

  /** The exact decimal `units / 10^scale`. */
  datatype Decimal = Decimal(units: int, scale: nat)

  /** The thousands separator removed before parsing. */
  const Separator: char := ','

  function Pow10(k: nat): (p: nat)
    ensures p >= 1
  {
    if k == 0 then 1 else 10 * Pow10(k - 1)
  }

  // ---------------------------------------------------------------------
  // Separator stripping
  // ---------------------------------------------------------------------

  /** Every separator removed; every other character kept, as often as it occurs. */
  function StripSeparators(s: string): (r: string)
    ensures Separator !in r
    ensures |r| <= |s|
  {
    if s == [] then []
    else (if s[0] == Separator then [] else [s[0]]) + StripSeparators(s[1..])
  }

  /** Every other character is kept as often as it occurs, and the length drops by the separators. */
  lemma {:induction false} StripSeparatorsCounts(s: string)
    ensures forall c :: c != Separator ==> multiset(StripSeparators(s))[c] == multiset(s)[c]
    ensures |StripSeparators(s)| == |s| - multiset(s)[Separator]
  {
    if s != [] {
      assert s == [s[0]] + s[1..];
      StripSeparatorsCounts(s[1..]);
    }
  }

  /** Stripping works character by character, so it keeps the order of what it keeps. */
  lemma {:induction false} StripSeparatorsConcat(a: string, b: string)
    ensures StripSeparators(a + b) == StripSeparators(a) + StripSeparators(b)
  {
    if a == [] {
      assert a + b == b;
    } else {
      assert (a + b)[1..] == a[1..] + b;
      StripSeparatorsConcat(a[1..], b);
    }
  }

  /** Text without separators is left exactly as it is. */
  lemma {:induction false} StripSeparatorsKeeps(s: string)
    requires Separator !in s
    ensures StripSeparators(s) == s
  {
    if s != [] {
      assert s == [s[0]] + s[1..];
      StripSeparatorsKeeps(s[1..]);
    }
  }

  /** Stripping twice is stripping once. */
  lemma StripSeparatorsIdempotent(s: string)
    ensures StripSeparators(StripSeparators(s)) == StripSeparators(s)
  {
    StripSeparatorsKeeps(StripSeparators(s));
  }

  // ---------------------------------------------------------------------
  // Digit strings
  // ---------------------------------------------------------------------

  predicate IsDigit(c: char) {
    '0' <= c <= '9'
  }

  predicate AllDigits(s: string) {
    forall i :: 0 <= i < |s| ==> IsDigit(s[i])
  }

  function DigitValue(c: char): (d: nat)
    requires IsDigit(c)
    ensures d < 10
  {
    c as int - '0' as int
  }

  function DigitChar(d: nat): (c: char)
    requires d < 10
    ensures IsDigit(c) && DigitValue(c) == d
  {
    ('0' as int + d) as char
  }

  /** The number a string of decimal digits denotes, most significant digit first. */
  function Value(s: string): nat
    requires AllDigits(s)
  {
    if s == [] then 0 else Value(s[..|s| - 1]) * 10 + DigitValue(s[|s| - 1])
  }

  /** Digits after more digits scale the leading part by a power of ten. */
  lemma {:induction false} ValueConcat(a: string, b: string)
    requires AllDigits(a) && AllDigits(b)
    ensures AllDigits(a + b)
    ensures Value(a + b) == Value(a) * Pow10(|b|) + Value(b)
  {
    if b == [] {
      assert a + b == a;
    } else {
      var b' := b[..|b| - 1];
      var d := DigitValue(b[|b| - 1]);
      assert (a + b)[..|a + b| - 1] == a + b';
      assert (a + b)[|a + b| - 1] == b[|b| - 1];
      ValueConcat(a, b');
      Shift(Value(a), Value(b'), Pow10(|b'|), d);
    }
  }

  lemma Shift(va: int, vb: int, p: int, d: int)
    ensures (va * p + vb) * 10 + d == va * (10 * p) + (vb * 10 + d)
  {
  }

  /** The plain decimal rendering of `n`, without separators. */
  function Digits(n: nat): (r: string)
    ensures |r| > 0 && AllDigits(r)
    ensures Value(r) == n
  {
    if n < 10 then [DigitChar(n)]
    else
      var r := Digits(n / 10) + [DigitChar(n % 10)];
      assert r[..|r| - 1] == Digits(n / 10);
      r
  }

  /** The three digits of `m`, zero-padded. */
  function Pad3(m: nat): string
    requires m < 1000
  {
    [DigitChar(m / 100), DigitChar(m / 10 % 10), DigitChar(m % 10)]
  }

  /** `n` written with a separator before every group of three digits, as "1,234,567". */
  function Grouped(n: nat): string
  {
    if n < 1000 then Digits(n) else Grouped(n / 1000) + [Separator] + Pad3(n % 1000)
  }

  /** The last three decimal places of `n` are those of `n % 1000`. */
  lemma LastThreePlaces(n: nat)
    ensures n / 10 / 10 == n / 100 && n / 100 / 10 == n / 1000
    ensures n % 1000 / 100 == n / 100 % 10
    ensures n % 1000 / 10 % 10 == n / 10 % 10
    ensures n % 1000 % 10 == n % 10
  {
  }

  lemma DigitsSplit(n: nat)
    requires n >= 1000
    ensures Digits(n) == Digits(n / 1000) + Pad3(n % 1000)
  {
    var n1, n2, n3 := n / 10, n / 100, n / 1000;
    LastThreePlaces(n);
    assert Digits(n2) == Digits(n3) + [DigitChar(n2 % 10)];
    assert Digits(n1) == Digits(n2) + [DigitChar(n1 % 10)];
    assert Digits(n) == Digits(n1) + [DigitChar(n % 10)];
  }

  /** Digit strings hold no separator, so stripping leaves them alone. */
  lemma DigitsKeep(s: string)
    requires AllDigits(s)
    ensures StripSeparators(s) == s
  {
    StripSeparatorsKeeps(s);
  }

  /** Stripping a separator followed by a digit group leaves the group. */
  lemma StripGroup(g: string, p: string)
    requires AllDigits(p)
    ensures StripSeparators(g + [Separator] + p) == StripSeparators(g) + p
  {
    var gs := g + [Separator];
    StripSeparatorsConcat(gs, p);
    StripSeparatorsConcat(g, [Separator]);
    assert StripSeparators([Separator]) == [] by {
      assert [Separator][1..] == [];
    }
    assert StripSeparators(gs) == StripSeparators(g);
    DigitsKeep(p);
  }

  /** Stripping the separators of a grouped rendering leaves the plain digits. */
  lemma {:induction false} StripGrouped(n: nat)
    ensures StripSeparators(Grouped(n)) == Digits(n)
  {
    if n < 1000 {
      DigitsKeep(Digits(n));
    } else {
      StripGrouped(n / 1000);
      StripGroup(Grouped(n / 1000), Pad3(n % 1000));
      DigitsSplit(n);
    }
  }

  // ---------------------------------------------------------------------
  // Parsing
  // ---------------------------------------------------------------------

  predicate IsSign(c: char) {
    c == '-' || c == '+'
  }

  /** The position of the first decimal point, or `|s|` when there is none. */
  function PointIndex(s: string): (i: nat)
    ensures i <= |s|
    ensures i < |s| ==> s[i] == '.'
    ensures forall j :: 0 <= j < i ==> s[j] != '.'
  {
    if s == [] then 0
    else if s[0] == '.' then 0
    else 1 + PointIndex(s[1..])
  }

  /**
   * An unsigned decimal: digits, optionally a point and more digits, with at
   * least one digit in all ("12", "12.5", "12.", ".5").
   */
  function ParseUnsigned(s: string): (r: Option<Decimal>)
    ensures r.Some? ==> |s| > 0 && r.value.units >= 0
    ensures r.Some? ==> forall i :: 0 <= i < |s| ==> IsDigit(s[i]) || s[i] == '.'
    ensures r.Some? ==> multiset(s)['.'] <= 1
    ensures r.Some? ==> exists i :: 0 <= i < |s| && IsDigit(s[i])
  {
    var p := PointIndex(s);
    var whole := s[..p];
    var fraction := if p < |s| then s[p + 1..] else [];
    if AllDigits(whole) && AllDigits(fraction) && |whole| + |fraction| > 0 then
      assert forall i :: 0 <= i < p ==> s[i] == whole[i];
      assert forall i :: p < i < |s| ==> s[i] == fraction[i - p - 1];
      OnePoint(s, p);
      assert if |whole| > 0 then IsDigit(s[0]) else IsDigit(s[p + 1]);
      ValueConcat(whole, fraction);
      Some(Decimal(Value(whole + fraction), |fraction|))
    else
      None
  }

  lemma NoPoint(s: string)
    requires AllDigits(s)
    ensures multiset(s)['.'] == 0
  {
    assert '.' !in s;
  }

  /** Digits, then at most one point at `p`, then digits: the text has at most one point. */
  lemma OnePoint(s: string, p: nat)
    requires p <= |s| && AllDigits(s[..p])
    requires p < |s| ==> s[p] == '.' && AllDigits(s[p + 1..])
    ensures multiset(s)['.'] <= 1
  {
    NoPoint(s[..p]);
    if p < |s| {
      NoPoint(s[p + 1..]);
      assert s == s[..p] + [s[p]] + s[p + 1..];
    } else {
      assert s == s[..p];
    }
  }

  /**
   * A decimal number with an optional leading sign, or None when the text is
   * not one: the conversion of the estimate text to a number.
   */
  function ParseDecimal(s: string): (r: Option<Decimal>)
    ensures r.Some? ==> |s| > 0
    ensures r.Some? && r.value.units < 0 ==> s[0] == '-'
    ensures r.Some? ==> forall i :: 0 <= i < |s| ==> IsDigit(s[i]) || s[i] == '.' || (i == 0 && IsSign(s[i]))
    ensures r.Some? ==> multiset(s)['.'] <= 1
    ensures r.Some? ==> exists i :: 0 <= i < |s| && IsDigit(s[i])
  {
    if |s| > 0 && IsSign(s[0]) then
      var rest := s[1..];
      assert forall i :: 1 <= i < |s| ==> s[i] == rest[i - 1];
      assert s == [s[0]] + rest;
      match ParseUnsigned(rest)
      case None => None
      case Some(d) => Some(if s[0] == '-' then Decimal(-d.units, d.scale) else d)
    else
      ParseUnsigned(s)
  }

  /** A non-empty digit string, leading zeros and all, reads as its value with no decimal places. */
  lemma ParseWhole(s: string)
    requires |s| > 0 && AllDigits(s)
    ensures ParseDecimal(s) == Some(Decimal(Value(s), 0))
  {
    assert !IsSign(s[0]);
    assert PointIndex(s) == |s| by {
      assert forall j :: 0 <= j < |s| ==> s[j] != '.';
    }
    assert s[..|s|] == s;
    assert s + [] == s;
  }

  /** A digit string reads back as the number it renders. */
  lemma ParseDigits(n: nat)
    ensures ParseDecimal(Digits(n)) == Some(Decimal(n, 0))
  {
    ParseWhole(Digits(n));
  }

  /** A bare sign or point is not a number. */
  lemma ParseBareSymbols()
    ensures ParseDecimal("-") == None && ParseDecimal("+") == None && ParseDecimal(".") == None
  {
  }

  /** Leading zeros are read through: "007" is 7. */
  lemma ParseLeadingZeros()
    ensures ParseDecimal("007") == Some(Decimal(7, 0))
  {
    ParseWhole("007");
    assert Value("007") == 7 by {
      assert "007"[..2] == "00" && "00"[..1] == "0";
    }
  }

  /** A leading minus negates the unsigned reading; a leading plus keeps it. */
  lemma ParseSigned(t: string, d: Decimal)
    requires ParseUnsigned(t) == Some(d)
    ensures ParseDecimal(['-'] + t) == Some(Decimal(-d.units, d.scale))
    ensures ParseDecimal(['+'] + t) == Some(d)
  {
    assert (['-'] + t)[1..] == t;
    assert (['+'] + t)[1..] == t;
  }

  lemma PointIndexAt(s: string, k: nat)
    requires k < |s| && s[k] == '.'
    requires forall j :: 0 <= j < k ==> s[j] != '.'
    ensures PointIndex(s) == k
  {
  }

  /**
   * A whole part, a point and a fraction read as the digits without the point,
   * scaled down by the length of the fraction (see ValueConcat for the value).
   */
  lemma ParseFraction(whole: string, fraction: string)
    requires AllDigits(whole) && AllDigits(fraction)
    requires |whole| + |fraction| > 0
    ensures AllDigits(whole + fraction)
    ensures ParseDecimal(whole + ['.'] + fraction) == Some(Decimal(Value(whole + fraction), |fraction|))
  {
    var s := whole + ['.'] + fraction;
    var k := |whole|;
    assert forall j :: 0 <= j < k ==> s[j] == whole[j];
    PointIndexAt(s, k);
    assert s[..k] == whole;
    assert s[k + 1..] == fraction;
    assert !IsSign(s[0]);
    ValueConcat(whole, fraction);
  }


  // ---------------------------------------------------------------------
  // Rescaling
  // ---------------------------------------------------------------------

  /** `n / q` rounded to the nearest integer, halves rounded up. */
  function RoundDiv(n: int, q: int): (r: int)
    requires q > 0
    ensures -q <= 2 * n - 2 * q * r < q
    ensures n >= 0 ==> r >= 0
  {
    var m := 2 * q;
    var x := 2 * n + q;
    var r := x / m;
    assert x == m * r + x % m;
    assert 0 <= x % m < m;
    r
  }

  /**
   * `d` millions as billions, rounded to two decimal places: a hundredths
   * count whose value lies within half a hundredth of d / 1000.
   */
  function ToBillions(d: Decimal): (b: Decimal)
    ensures b.scale == 2
    ensures -10 * Pow10(d.scale) <= 2 * d.units - 20 * Pow10(d.scale) * b.units < 10 * Pow10(d.scale)
    ensures d.units >= 0 ==> b.units >= 0
  {
    Decimal(RoundDiv(d.units, 10 * Pow10(d.scale)), 2)
  }

  /** The rounding bound admits one hundredths count only, so it determines the result. */
  lemma RoundingIsUnique(n: int, q: int, r1: int, r2: int)
    requires q > 0
    requires -q <= 2 * n - 2 * q * r1 < q
    requires -q <= 2 * n - 2 * q * r2 < q
    ensures r1 == r2
  {
    var m := 2 * q;
    var d := r2 - r1;
    assert m * r2 == m * r1 + m * d;
    assert -m < m * d < m;
    if d >= 1 {
      AtLeastFactor(m, d);
    } else if d <= -1 {
      AtLeastFactor(m, -d);
    }
  }

  lemma AtLeastFactor(m: int, d: int)
    requires m > 0 && d >= 1
    ensures m * d >= m
  {
    assert m * d == m + m * (d - 1);
  }
}
