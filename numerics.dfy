/** Text <-> number conversions the calculator relies on.
    Swift's `Int(String)`, `Double(String)`, `"\(int)"` and `"\(double)"` are
    modelled over exact integers and reals: a parsed number is the exact value of
    its decimal text, and a described number is written with at most
    `FractionDigits` digits after the point. */
module Numerics {

  datatype Option<T> = None | Some(value: T)

  /** Largest value of Swift's 64-bit `Int`. */
  const IntMax: int := 0x7fff_ffff_ffff_ffff

  /** Number of fraction digits `Describe` writes, and the matching power of ten. */
  const FractionDigits: nat := 16
  const Scale: nat := 10_000_000_000_000_000

  predicate IsDigit(c: char) {
    '0' <= c <= '9'
  }

  predicate AllDigits(s: string) {
    forall i :: 0 <= i < |s| ==> IsDigit(s[i])
  }

  function DigitChar(d: nat): (c: char)
    requires d < 10
    ensures IsDigit(c) && DigitValue(c) == d
  {
    (48 + d) as char
  }

  function DigitValue(c: char): nat
    requires IsDigit(c)
  {
    c as int - 48
  }

  function Pow10(n: nat): (p: nat)
    ensures p >= 1
  {
    if n == 0 then 1 else 10 * Pow10(n - 1)
  }

  /** The value of a string of decimal digits, most significant digit first. */
  function DigitsValue(s: string): nat
    requires AllDigits(s)
  {
    if s == [] then 0 else 10 * DigitsValue(s[..|s| - 1]) + DigitValue(s[|s| - 1])
  }

  /** Swift's `"\(n)"` for a non-negative integer. */
  function NatToString(n: nat): (r: string)
    ensures |r| >= 1 && AllDigits(r)
  {
    if n < 10 then [DigitChar(n)] else NatToString(n / 10) + [DigitChar(n % 10)]
  }

  /** Swift's `"\(i)"` for an `Int`. */
  function IntToString(i: int): (r: string)
    ensures |r| >= 1
    ensures i < 0 <==> r[0] == '-'
  {
    if i < 0 then "-" + NatToString(-i) else NatToString(i)
  }

  /** Swift's `Int(String)`: an optional sign followed by at least one digit,
      and the value must fit in 64 bits. */
  function ParseInt(s: string): (r: Option<int>)
    ensures r.Some? ==> -IntMax - 1 <= r.value <= IntMax
    ensures r.Some? ==> exists i :: 0 <= i < |s| && IsDigit(s[i])
  {
    if |s| > 0 && (s[0] == '-' || s[0] == '+') then
      var digits := s[1..];
      if |digits| > 0 && AllDigits(digits) then
        var m: int := if s[0] == '-' then -(DigitsValue(digits) as int) else DigitsValue(digits);
        if -IntMax - 1 <= m <= IntMax then
          assert IsDigit(s[1]);
          Some(m)
        else None
      else None
    else if |s| > 0 && AllDigits(s) && DigitsValue(s) <= IntMax then
      assert IsDigit(s[0]);
      Some(DigitsValue(s))
    else None
  }

  /** The position of the first `c` in `s`, or `|s|` when there is none. */
  function IndexOf(s: string, c: char): (i: nat)
    ensures i <= |s|
    ensures i < |s| ==> s[i] == c
    ensures forall j :: 0 <= j < i ==> s[j] != c
  {
    if s == [] then 0 else if s[0] == c then 0 else 1 + IndexOf(s[1..], c)
  }

  /** An unsigned decimal: digits, optionally a point and more digits, with at
      least one digit in all. */
  function ParseUnsigned(s: string): (r: Option<real>)
    ensures r.Some? ==> r.value >= 0.0
  {
    var point := IndexOf(s, '.');
    var whole := s[..point];
    var fraction := if point < |s| then s[point + 1..] else "";
    if AllDigits(whole) && AllDigits(fraction) && |whole| + |fraction| > 0 then
      Some(DecimalValue(whole, fraction))
    else None
  }

  /** The worth of `whole.fraction`. */
  function DecimalValue(whole: string, fraction: string): real
    requires AllDigits(whole) && AllDigits(fraction)
  {
    DigitsValue(whole) as real + DigitsValue(fraction) as real / Pow10(|fraction|) as real
  }

  /** Swift's `Double(String)` on decimal text: an optional sign, then an
      unsigned decimal. */
  function ParseDouble(s: string): (r: Option<real>)
    ensures r.Some? ==> |s| > 0
  {
    if |s| > 0 && (s[0] == '-' || s[0] == '+') then
      match ParseUnsigned(s[1..])
      case None => None
      case Some(a) => Some(if s[0] == '-' then -a else a)
    else ParseUnsigned(s)
  }

  /** `s` with '0' characters added in front until it is `n` long. */
  function PadLeft(s: string, n: nat): (r: string)
    decreases n - |s|
  {
    if |s| >= n then s else PadLeft(['0'] + s, n)
  }

  function StripTrailingZeros(s: string): (r: string)
  {
    if |s| > 0 && s[|s| - 1] == '0' then StripTrailingZeros(s[..|s| - 1]) else s
  }

  /** The digits after the point for a fraction worth `f / Scale`. */
  function FractionText(f: nat): string
    requires f < Scale
  {
    var t := StripTrailingZeros(PadLeft(NatToString(f), FractionDigits));
    if t == "" then "0" else t
  }

  /** Swift's `"\(x)"` / `String(x)` for a `Double`: a sign for negative values,
      then the magnitude. */
  function Describe(x: real): (r: string)
    ensures |r| > 0 && (r[0] == '-' <==> x < 0.0)
  {
    (if x < 0.0 then "-" else "") + DescribeMagnitude(if x < 0.0 then -x else x)
  }

  /** The integral part, a point, and the fraction digits without trailing
      zeros (always at least one, so 56 is written "56.0"). */
  function DescribeMagnitude(a: real): (r: string)
    requires a >= 0.0
    ensures |r| > 0 && IsDigit(r[0])
  {
    ScaledText((a * Scale as real).Floor)
  }

  /** The text of `m / Scale`. */
  function ScaledText(m: nat): (r: string)
    ensures |r| > 0 && IsDigit(r[0])
  {
    NatToString(m / Scale) + "." + FractionText(m % Scale)
  }

  /** Conversion toward zero, as Swift's `Int(x)` for a `Double`. */
  function Trunc(x: real): (r: int)
    ensures x >= 0.0 ==> r as real <= x < r as real + 1.0
    ensures x < 0.0 ==> r as real - 1.0 < x <= r as real
  {
    if x >= 0.0 then x.Floor else -((-x).Floor)
  }

  /** Swift's `x.truncatingRemainder(dividingBy: 1) == 0`. */
  predicate IsInteger(x: real)
    ensures IsInteger(x) <==> x == x.Floor as real
  {
    if x < 0.0 then
      assert x == x.Floor as real ==> (-x).Floor == -(x.Floor);
      assert x - Trunc(x) as real == 0.0 ==> x.Floor == -((-x).Floor);
      x - Trunc(x) as real == 0.0
    else
      x - Trunc(x) as real == 0.0
  }

  /** How the calculator shows a result: integral values as an `Int`, others as
      a `Double`. */
  function FormatResult(x: real): (r: string)
    ensures |r| > 0 && (r[0] == '-' <==> x < 0.0)
  {
    if IsInteger(x) then IntToString(Trunc(x)) else Describe(x)
  }

  /** A number whose decimal expansion ends within `FractionDigits` digits. */
  predicate ExactlyDescribable(x: real)
  {
    IsInteger(x * Scale as real)
  }

  // ---------------------------------------------------------------------------
  // Lemmas

  /** Integral results are shown without a point, all others with one. */
  lemma FormatResultPoint(x: real)
    ensures IsInteger(x) <==> '.' !in FormatResult(x)
  {
  }

  lemma ScaleIsPow10()
    ensures Scale == Pow10(FractionDigits)
  {
    assert Pow10(4) == 10_000;
    Pow10Add(4, 4);
    Pow10Add(8, 8);
  }

  lemma Pow10Add(a: nat, b: nat)
    ensures Pow10(a + b) == Pow10(a) * Pow10(b)
  {
    if a > 0 {
      Pow10Add(a - 1, b);
    }
  }

  lemma {:induction false} NatToStringValue(n: nat)
    ensures DigitsValue(NatToString(n)) == n
  {
    if n >= 10 {
      var t := NatToString(n / 10);
      var s := t + [DigitChar(n % 10)];
      assert s[..|s| - 1] == t;
      NatToStringValue(n / 10);
    }
  }

  /** `Int(String)` reads back what `"\(i)"` writes. */
  lemma IntToStringRoundTrip(i: int)
    requires -IntMax - 1 <= i <= IntMax
    ensures ParseInt(IntToString(i)) == Some(i)
  {
    var s := IntToString(i);
    if i < 0 {
      var t := NatToString(-i);
      NatToStringValue(-i);
      assert s[1..] == t;
      assert s[0] == '-';
      assert -(DigitsValue(t) as int) == i;
    } else {
      NatToStringValue(i);
      assert IsDigit(s[0]);
      assert DigitsValue(s) == i;
    }
  }

  /** `Double(String)` reads back what `"\(i)"` writes. */
  lemma ParseIntToString(i: int)
    ensures ParseDouble(IntToString(i)) == Some(i as real)
  {
    if i < 0 {
      var t := NatToString(-i);
      assert IntToString(i)[1..] == t;
      ParseDigits(t);
      NatToStringValue(-i);
    } else {
      ParseDigits(NatToString(i));
      NatToStringValue(i);
    }
  }

  lemma ParseDigits(t: string)
    requires |t| > 0 && AllDigits(t)
    ensures ParseUnsigned(t) == Some(DigitsValue(t) as real)
    ensures ParseDouble(t) == Some(DigitsValue(t) as real)
  {
    var point := IndexOf(t, '.');
    assert point == |t|;
    assert t[..point] == t;
    assert ParseUnsigned(t) == Some(DigitsValue(t) as real + 0 as real / 1 as real);
    assert IsDigit(t[0]);
  }

  /** A single digit parses as its own value. */
  lemma ParseSingleDigit(c: char)
    requires IsDigit(c)
    ensures ParseInt([c]) == Some(DigitValue(c) as int)
  {
    assert [c][..0] == [];
    assert AllDigits([c]);
    assert DigitsValue([c]) == DigitValue(c);
  }

  lemma {:induction false} NatToStringLength(n: nat, k: nat)
    requires k >= 1 && n < Pow10(k)
    ensures |NatToString(n)| <= k
  {
    if n >= 10 {
      NatToStringLength(n / 10, k - 1);
    }
  }

  lemma {:induction false} PadLeftValue(s: string, n: nat)
    requires AllDigits(s)
    ensures AllDigits(PadLeft(s, n))
    ensures |PadLeft(s, n)| == if |s| >= n then |s| else n
    ensures DigitsValue(PadLeft(s, n)) == DigitsValue(s)
    decreases n - |s|
  {
    if |s| < n {
      LeadingZeroValue(s);
      PadLeftValue(['0'] + s, n);
    }
  }

  lemma {:induction false} LeadingZeroValue(s: string)
    requires AllDigits(s)
    ensures AllDigits(['0'] + s)
    ensures DigitsValue(['0'] + s) == DigitsValue(s)
  {
    var z := ['0'] + s;
    if s != [] {
      assert z[..|z| - 1] == ['0'] + s[..|s| - 1];
      LeadingZeroValue(s[..|s| - 1]);
    }
  }

  lemma {:induction false} StripValue(s: string)
    requires AllDigits(s)
    ensures AllDigits(StripTrailingZeros(s))
    ensures |StripTrailingZeros(s)| <= |s|
    ensures DigitsValue(s)
            == DigitsValue(StripTrailingZeros(s)) * Pow10(|s| - |StripTrailingZeros(s)|)
  {
    if |s| > 0 && s[|s| - 1] == '0' {
      var p := s[..|s| - 1];
      var t := StripTrailingZeros(p);
      StripValue(p);
      var k := |p| - |t|;
      calc {
        DigitsValue(s);
        10 * DigitsValue(p);
        10 * (DigitsValue(t) * Pow10(k));
        DigitsValue(t) * (10 * Pow10(k));
        DigitsValue(t) * Pow10(|s| - |t|);
      }
    }
  }

  lemma RatioScale(d: nat, p: nat, q: nat)
    requires p > 0 && q > 0
    ensures d as real / p as real == (d * q) as real / (p * q) as real
  {
    assert (d * q) as real == d as real * q as real;
    assert (p * q) as real == p as real * q as real;
  }

  /** Padding `k` digits and stripping trailing zeros keeps the worth of the
      fraction `f / 10^k`. */
  lemma StrippedFractionValue(f: nat, k: nat)
    requires k >= 1 && f < Pow10(k)
    ensures AllDigits(StripTrailingZeros(PadLeft(NatToString(f), k)))
    ensures var t := StripTrailingZeros(PadLeft(NatToString(f), k));
            (t == "" ==> f == 0) &&
            DigitsValue(t) as real / Pow10(|t|) as real == f as real / Pow10(k) as real
  {
    var p := PadLeft(NatToString(f), k);
    PaddedDigits(f, k);
    var t := StripTrailingZeros(p);
    StripValue(p);
    var j := k - |t|;
    var d := DigitsValue(t);
    assert f == d * Pow10(j);
    Pow10Add(|t|, j);
    RatioScale(d, Pow10(|t|), Pow10(j));
  }

  lemma PaddedDigits(f: nat, k: nat)
    requires k >= 1 && f < Pow10(k)
    ensures AllDigits(PadLeft(NatToString(f), k))
    ensures |PadLeft(NatToString(f), k)| == k
    ensures DigitsValue(PadLeft(NatToString(f), k)) == f
  {
    NatToStringValue(f);
    NatToStringLength(f, k);
    PadLeftValue(NatToString(f), k);
  }

  /** The fraction digits written by `FractionText` are worth `f / Scale`. */
  lemma FractionTextValue(f: nat)
    requires f < Scale
    ensures AllDigits(FractionText(f)) && |FractionText(f)| > 0
    ensures DigitsValue(FractionText(f)) as real / Pow10(|FractionText(f)|) as real
            == f as real / Scale as real
  {
    ScaleIsPow10();
    StrippedFractionValue(f, FractionDigits);
    var t := StripTrailingZeros(PadLeft(NatToString(f), FractionDigits));
    if t == "" {
      assert FractionText(f) == "0";
      assert DigitsValue("0") == 0 by {
        assert "0"[..0] == "";
      }
    }
  }

  lemma {:induction false} IndexOfPoint(w: string, rest: string)
    requires AllDigits(w)
    ensures IndexOf(w + "." + rest, '.') == |w|
  {
    if w != [] {
      assert (w + "." + rest)[1..] == w[1..] + "." + rest;
      IndexOfPoint(w[1..], rest);
    }
  }

  /** Digits, a point and digits read back as the integral part plus the
      fraction. */
  lemma ParsePointed(w: string, f: string)
    requires |w| > 0 && AllDigits(w) && AllDigits(f)
    ensures ParseUnsigned(w + "." + f) == Some(DecimalValue(w, f))
  {
    var u := w + "." + f;
    IndexOfPoint(w, f);
    var point := IndexOf(u, '.');
    assert u[..point] == w;
    assert u[point + 1..] == f;
  }

  /** A point followed by digits parses as the fraction those digits write. */
  lemma ParseFraction(f: string)
    requires |f| > 0 && AllDigits(f)
    ensures ParseUnsigned("." + f) == Some(DigitsValue(f) as real / Pow10(|f|) as real)
  {
    var u := "." + f;
    assert IndexOf(u, '.') == 0;
    assert u[..0] == "" && u[1..] == f;
  }

  /** A leading sign is read off before the unsigned part: "-" negates it,
      "+" keeps it, and text without a sign is read unsigned. */
  lemma ParseSigned(t: string)
    ensures ParseDouble("-" + t) == if ParseUnsigned(t).Some? then Some(-ParseUnsigned(t).value) else None
    ensures ParseDouble("+" + t) == ParseUnsigned(t)
    ensures |t| > 0 && t[0] != '-' && t[0] != '+' ==> ParseDouble(t) == ParseUnsigned(t)
  {
    assert ("-" + t)[1..] == t;
    assert ("+" + t)[1..] == t;
  }

  /** The texts the engine meets that are not numbers: "Error", a lone point,
      a lone sign and the empty text. */
  lemma ParseRejects()
    ensures ParseDouble("Error") == None && ParseDouble(".") == None
    ensures ParseDouble("-") == None && ParseDouble("") == None
  {
    assert "Error"[..5] == "Error";
    assert !IsDigit('E');
    assert "."[..0] == "" && "."[1..] == "";
    assert "-"[1..] == "";
  }

  lemma QuotientPlusRemainder(m: nat, s: nat)
    requires s > 0
    ensures (m / s) as real + (m % s) as real / s as real == m as real / s as real
  {
    assert m == (m / s) * s + m % s;
    assert ((m / s) * s) as real == (m / s) as real * s as real;
  }

  lemma Unscale(a: real, m: real)
    requires m == a * Scale as real
    ensures m / Scale as real == a
  {
    assert Scale as real == 10_000_000_000_000_000.0;
  }

  /** The integral digits and the fraction digits of `ScaledText(m)` together
      are worth `m / Scale`. */
  lemma ScaledTextValue(q: nat, r: nat)
    requires r < Scale
    ensures AllDigits(FractionText(r))
    ensures DecimalValue(NatToString(q), FractionText(r)) == q as real + r as real / Scale as real
  {
    FractionTextValue(r);
    NatToStringValue(q);
  }

  lemma ParseScaledText(m: nat)
    ensures ParseUnsigned(ScaledText(m)) == Some(m as real / Scale as real)
  {
    var q, r := m / Scale, m % Scale;
    var w := NatToString(q);
    var f := FractionText(r);
    assert ScaledText(m) == w + "." + f;
    ScaledTextValue(q, r);
    ParsePointed(w, f);
    QuotientPlusRemainder(m, Scale);
  }

  lemma ParseDescribeMagnitude(a: real)
    requires a >= 0.0 && ExactlyDescribable(a)
    ensures ParseUnsigned(DescribeMagnitude(a)) == Some(a)
  {
    var m: nat := (a * Scale as real).Floor;
    assert m as real == a * Scale as real;
    ParseScaledText(m);
    Unscale(a, m as real);
  }

  /** `Double(String)` reads back what `"\(x)"` writes, for every value whose
      decimal expansion fits in the digits written. */
  lemma ParseDescribe(x: real)
    requires ExactlyDescribable(x)
    ensures ParseDouble(Describe(x)) == Some(x)
  {
    var a := if x < 0.0 then -x else x;
    var u := DescribeMagnitude(a);
    if x < 0.0 {
      NegateDescribable(x);
      ParseDescribeMagnitude(a);
      assert Describe(x) == "-" + u;
      assert ("-" + u)[1..] == u;
    } else {
      ParseDescribeMagnitude(a);
      assert Describe(x) == u;
      assert IsDigit(u[0]);
    }
  }

  lemma NegateDescribable(x: real)
    requires ExactlyDescribable(x)
    ensures ExactlyDescribable(-x)
  {
    assert -x * Scale as real == -(x * Scale as real);
    assert (-x * Scale as real).Floor == -((x * Scale as real).Floor);
  }

  /** `Double(String)` reads back the displayed form of every exactly
      describable result, integral or not. */
  lemma ParseFormatResult(x: real)
    requires ExactlyDescribable(x)
    ensures ParseDouble(FormatResult(x)) == Some(x)
  {
    if IsInteger(x) {
      ParseIntToString(Trunc(x));
    } else {
      ParseDescribe(x);
    }
  }

  // ---------------------------------------------------------------------------
  // The shape of the fraction digits

  /** `k` zero digits. */
  function Zeros(k: nat): (r: string)
    ensures |r| == k
  {
    if k == 0 then "" else Zeros(k - 1) + "0"
  }

  /** Stripping ends at a digit other than '0', or empties the text. */
  lemma {:induction false} StripEnds(s: string)
    ensures var t := StripTrailingZeros(s); t == "" || t[|t| - 1] != '0'
    decreases |s|
  {
    if |s| > 0 && s[|s| - 1] == '0' {
      StripEnds(s[..|s| - 1]);
    }
  }

  /** Stripping a digit string empties it exactly when it is worth zero. */
  lemma StripShape(p: string)
    requires AllDigits(p)
    ensures var t := StripTrailingZeros(p);
            (t == "" <==> DigitsValue(p) == 0) && (t != "" ==> t[|t| - 1] != '0')
  {
    var t := StripTrailingZeros(p);
    StripValue(p);
    StripEnds(p);
    if t != "" {
      assert DigitsValue(t) >= DigitValue(t[|t| - 1]);
    }
    ZeroProduct(DigitsValue(t), Pow10(|p| - |t|));
  }

  lemma ZeroProduct(d: nat, q: nat)
    requires q >= 1
    ensures d * q == 0 <==> d == 0
  {
    if d >= 1 {
      assert d * q >= 1 * q;
    }
  }

  /** `"\(double)"` writes at least one fraction digit; that digit is the lone
      "0" exactly for a whole number, and otherwise the last one is not '0'. */
  lemma FractionTextShape(f: nat)
    requires f < Scale
    ensures var t := FractionText(f);
            |t| > 0 && (t == "0" <==> f == 0) && (f != 0 ==> t[|t| - 1] != '0')
  {
    ScaleIsPow10();
    var p := PadLeft(NatToString(f), FractionDigits);
    PaddedDigits(f, FractionDigits);
    StripShape(p);
  }

  /** A digit string followed by zeros is the number times a power of ten. */
  lemma {:induction false} NatToStringShift(n: nat, k: nat)
    requires n > 0
    ensures NatToString(n * Pow10(k)) == NatToString(n) + Zeros(k)
  {
    if k == 0 {
      assert NatToString(n) + Zeros(0) == NatToString(n);
    } else {
      NatToStringShift(n, k - 1);
      var m := ShiftStep(n, k);
      TimesTen(m);
      assert NatToString(n) + Zeros(k - 1) + "0" == NatToString(n) + Zeros(k);
    }
  }

  lemma ShiftStep(n: nat, k: nat) returns (m: nat)
    requires n > 0 && k > 0
    ensures m == n * Pow10(k - 1) && m > 0 && n * Pow10(k) == 10 * m
  {
    var p := Pow10(k - 1);
    m := n * p;
    assert n * (10 * p) == 10 * (n * p);
    assert n * p >= 1 * p;
  }

  lemma TimesTen(m: nat)
    requires m > 0
    ensures NatToString(10 * m) == NatToString(m) + "0"
  {
    assert (10 * m) / 10 == m && (10 * m) % 10 == 0;
  }

  /** Stripping removes exactly the zeros appended to a text that does not end
      in '0'. */
  lemma {:induction false} StripZeros(s: string, k: nat)
    requires |s| > 0 && s[|s| - 1] != '0'
    ensures StripTrailingZeros(s + Zeros(k)) == s
  {
    if k > 0 {
      var u := s + Zeros(k);
      assert u[..|u| - 1] == s + Zeros(k - 1);
      StripZeros(s, k - 1);
    } else {
      assert s + Zeros(0) == s;
    }
  }

  /** Sixteen fraction digits made of the digits of `n` and `k` zeros are
      written as the digits of `n` alone. */
  lemma FractionTextShift(n: nat, k: nat)
    requires n % 10 != 0 && |NatToString(n)| + k == FractionDigits
    requires n * Pow10(k) < Scale
    ensures FractionText(n * Pow10(k)) == NatToString(n)
  {
    var w := NatToString(n);
    NatToStringShift(n, k);
    assert w[|w| - 1] == DigitChar(n % 10);
    StripZeros(w, k);
    assert PadLeft(w + Zeros(k), FractionDigits) == w + Zeros(k);
  }

  /** A value `m / Scale` below one is written "0." and its fraction digits. */
  lemma DescribeBelowOne(m: nat)
    requires m < Scale
    ensures Describe(m as real / Scale as real) == "0." + FractionText(m)
  {
    var x := m as real / Scale as real;
    assert (x * Scale as real).Floor == m;
    assert NatToString(0) == "0";
  }

  /** A value below one whose sixteen fraction digits are those of `n`
      followed by `k` zeros is written "0." and the digits of `n`: the zeros
      are dropped. */
  lemma ShowsDecimal(n: nat, k: nat)
    requires n % 10 != 0 && |NatToString(n)| + k == FractionDigits
    requires n * Pow10(k) < Scale
    ensures Describe((n * Pow10(k)) as real / Scale as real) == "0." + NatToString(n)
  {
    DescribeBelowOne(n * Pow10(k));
    FractionTextShift(n, k);
  }
}
