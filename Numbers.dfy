/**
 * Numbers in a status line and in the CSV output. Values are exact reals:
 * `ParseNum` reads the longest decimal prefix of a token the way `std::stof`
 * does for plain decimal text, `Contribution` applies the `m` (mega) suffix,
 * and `FormatFixed` renders a value in fixed notation with a given number of
 * decimals, rounding half to even as `printf("%.*f")` does on an exact value.
 */
module Numbers {
  import opened Wrappers
  import opened Text

  /** The characters `isspace` accepts; `stof` skips these before the number. */
  predicate IsSpace(c: char) {
    c == ' ' || c == '\t' || c == '\n' || c == '\U{B}' || c == '\U{C}' || c == '\r'
  }

  function SpaceRun(s: string): (n: nat)
    ensures n <= |s|
    ensures forall i :: 0 <= i < n ==> IsSpace(s[i])
    ensures n < |s| ==> !IsSpace(s[n])
  {
    if s == [] || !IsSpace(s[0]) then 0 else 1 + SpaceRun(s[1..])
  }

  function DigitRun(s: string): (n: nat)
    ensures n <= |s|
    ensures forall i :: 0 <= i < n ==> IsDigit(s[i])
    ensures n < |s| ==> !IsDigit(s[n])
  {
    if s == [] || !IsDigit(s[0]) then 0 else 1 + DigitRun(s[1..])
  }

  /** The digits after a leading point, if `rest` starts with one. */
  function FractionDigits(rest: string): (f: string)
    ensures AllDigits(f)
  {
    if rest != [] && rest[0] == '.' then rest[1..][..DigitRun(rest[1..])] else ""
  }

  /** `x * 10^k`, one factor of ten at a time. */
  function MulPow10(x: real, k: nat): (r: real)
    ensures x >= 0.0 ==> r >= 0.0
  {
    if k == 0 then x else 10.0 * MulPow10(x, k - 1)
  }

  /** `x / 10^k`, one division by ten at a time. */
  function DivPow10(x: real, k: nat): real
    decreases k
  {
    if k == 0 then x else DivPow10(x / 10.0, k - 1)
  }

  /** The value of the decimal `whole.frac`. */
  function Decimal(whole: string, frac: string): real
    requires AllDigits(whole) && AllDigits(frac)
  {
    DigitsValue(whole) as real + DivPow10(DigitsValue(frac) as real, |frac|)
  }

  /** An unsigned decimal at the start of `body`: digits, then optionally a point and more digits. */
  function Unsigned(body: string): (r: Option<real>) {
    var k := DigitRun(body);
    var frac := FractionDigits(body[k..]);
    if k + |frac| == 0 then None else Some(Decimal(body[..k], frac))
  }

  /**
   * The value of the decimal number at the start of `tok`, after optional
   * white space and an optional sign, with at least one digit in all.
   * Anything after the number is ignored. `None` when no digit is found,
   * where `stof` throws.
   */
  function ParseNum(tok: string): (r: Option<real>)
  {
    var s := tok[SpaceRun(tok)..];
    if s != [] && (s[0] == '-' || s[0] == '+') then
      match Unsigned(s[1..])
      case None => None
      case Some(m) => Some(if s[0] == '-' then -m else m)
    else Unsigned(s)
  }

  /** The multiplier for a token: 1024 when its last character is `m`, else 1. */
  function UnitScale(tok: string): (k: real)
    requires tok != []
  {
    if tok[|tok| - 1] == 'm' then 1024.0 else 1.0
  }

  /** What a metric token adds to a total: its value, scaled by its unit suffix. */
  function Contribution(tok: string): (r: Option<real>)
    requires tok != []
    ensures r.Some? <==> ParseNum(tok).Some?
  {
    match ParseNum(tok)
    case None => None
    case Some(v) => Some(v * UnitScale(tok))
  }

  lemma DigitRunOfNat(n: nat, suffix: string)
    requires suffix == [] || !IsDigit(suffix[0])
    ensures DigitRun(NatToString(n) + suffix) == |NatToString(n)|
  {
    var d := NatToString(n);
    var tok := d + suffix;
    assert forall i :: 0 <= i < |d| ==> tok[..|d|][i] == d[i];
    assert forall i :: 0 <= i < |d| ==> tok[i] == d[i];
    assert suffix != [] ==> tok[|d|] == suffix[0];
  }

  /** A natural number written in decimal, followed by anything that cannot continue a plain decimal (a digit or a point), reads back as itself. */
  lemma ParseNatPrefix(n: nat, suffix: string)
    requires suffix == [] || (!IsDigit(suffix[0]) && suffix[0] != '.')
    ensures ParseNum(NatToString(n) + suffix) == Some(n as real)
  {
    var d := NatToString(n);
    var tok := d + suffix;
    assert tok[0] == d[0];
    assert SpaceRun(tok) == 0;
    assert tok[0..] == tok;
    DigitRunOfNat(n, suffix);
    assert tok[..|d|] == d;
    assert tok[|d|..] == suffix;
    assert FractionDigits(suffix) == "";
    NatToStringRoundTrip(n);
    assert Unsigned(tok) == Some(n as real);
  }

  /** The `m` suffix scales by 1024; a token without it contributes its plain value. */
  lemma MegaSuffix(n: nat)
    ensures Contribution(NatToString(n) + "m") == Some((n * 1024) as real)
    ensures Contribution(NatToString(n)) == Some(n as real)
  {
    assert Contribution(NatToString(n) + "m") == Some((n * 1024) as real) by {
      var t := NatToString(n) + "m";
      ParseNatPrefix(n, "m");
      assert t[|t| - 1] == 'm';
    }
    assert Contribution(NatToString(n)) == Some(n as real) by {
      var u := NatToString(n);
      ParseNatPrefix(n, "");
      assert u + "" == u;
      assert u[|u| - 1] != 'm';
    }
  }

  function Abs(v: real): (a: real)
    ensures a >= 0.0 && (a == v || a == -v)
  {
    if v < 0.0 then -v else v
  }

  /** The nearest natural number to `x`; a tie goes to the even neighbour. */
  function RoundHalfEven(x: real): (n: nat)
    requires x >= 0.0
    ensures x - 0.5 <= n as real <= x + 0.5
    ensures (n as real == x - 0.5 || n as real == x + 0.5) ==> n % 2 == 0
  {
    var f := x.Floor;
    var d := x - f as real;
    if d > 0.5 || (d == 0.5 && f % 2 == 1) then (f + 1) as nat else f as nat
  }

  function Zeros(k: nat): (s: string)
    ensures |s| == k && AllDigits(s)
  {
    if k == 0 then "" else Zeros(k - 1) + "0"
  }

  predicate NumberChar(c: char) {
    c == '-' || c == '.' || IsDigit(c)
  }

  /** `|v|` scaled by `10^precision` and rounded: the digits `FormatFixed` prints, without the point. */
  function Scaled(v: real, precision: nat): nat {
    RoundHalfEven(Magnified(v, precision))
  }

  /** `|v| * 10^precision`, the exact value whose rounding gives the printed digits. */
  function Magnified(v: real, precision: nat): (x: real)
    ensures x >= 0.0
  {
    MulPow10(Abs(v), precision)
  }

  /** Places a point before the last `precision` digits, padding with leading zeros so the integer part has a digit. */
  function PlacePoint(digits: string, precision: nat): (s: string)
    requires digits != [] && AllDigits(digits)
    ensures s != [] && IsDigit(s[0])
    ensures forall i :: 0 <= i < |s| ==> NumberChar(s[i])
    ensures precision == 0 ==> s == digits
    ensures HasDecimals(s, precision)
  {
    if precision == 0 then digits
    else
      var padded := Padded(digits, precision);
      padded[..|padded| - precision] + "." + padded[|padded| - precision..]
  }

  /** `digits` with leading zeros added until it is longer than `precision`. */
  function Padded(digits: string, precision: nat): (s: string)
    requires AllDigits(digits)
    ensures AllDigits(s) && |s| > precision && |s| >= |digits|
  {
    if |digits| <= precision then Zeros(precision + 1 - |digits|) + digits else digits
  }

  /** A number printed with exactly `precision` decimals: no point at all for 0. */
  predicate HasDecimals(s: string, precision: nat) {
    && (precision == 0 ==> forall i :: 0 <= i < |s| ==> s[i] != '.')
    && (precision > 0 ==> |s| >= precision + 2 && s[|s| - precision - 1] == '.' && AllDigits(s[|s| - precision..]))
  }

  /**
   * `v` in fixed notation with `precision` decimals: a minus sign exactly
   * when `v` is negative, then the digits, with a point before the last
   * `precision` of them when `precision > 0`.
   */
  function FormatFixed(v: real, precision: nat): (s: string)
    ensures s != [] && ((v < 0.0) <==> (s[0] == '-'))
  {
    var body := PlacePoint(NatToString(Scaled(v, precision)), precision);
    if v < 0.0 then "-" + body else body
  }

  /** A printed number is made of digits, a point and a sign only, and has exactly `precision` decimals. */
  lemma FormatFixedShape(v: real, precision: nat)
    ensures var s := FormatFixed(v, precision);
            && (forall i :: 0 <= i < |s| ==> NumberChar(s[i]))
            && HasDecimals(s, precision)
  {
    var body := PlacePoint(NatToString(Scaled(v, precision)), precision);
    if v < 0.0 {
      assert FormatFixed(v, precision) == "-" + body;
      SignedShape(body, precision);
    } else {
      assert FormatFixed(v, precision) == body;
    }
  }

  lemma SignedShape(body: string, precision: nat)
    requires forall i :: 0 <= i < |body| ==> NumberChar(body[i])
    requires HasDecimals(body, precision)
    ensures var s := "-" + body;
            && (forall i :: 0 <= i < |s| ==> NumberChar(s[i]))
            && HasDecimals(s, precision)
  {
    var s := "-" + body;
    assert forall i :: 1 <= i < |s| ==> s[i] == body[i - 1];
    if precision > 0 {
      assert s[|s| - precision..] == body[|body| - precision..];
    }
  }

  lemma RoundWhole(m: nat)
    ensures RoundHalfEven(m as real) == m
  {
    assert (m as real).Floor == m;
  }

  lemma ScaledWhole(n: nat, precision: nat)
    ensures Scaled(n as real, precision) == n * Pow10(precision)
  {
    var m := n * Pow10(precision);
    assert Magnified(n as real, precision) == m as real by {
      MagnifiedWhole(n, precision);
    }
    RoundWhole(m);
  }

  /** A whole number prints without a point at precision 0. */
  lemma FormatWholeAtZero(n: nat)
    ensures FormatFixed(n as real, 0) == NatToString(n)
  {
    assert Scaled(n as real, 0) == n by {
      ScaledWhole(n, 0);
      assert Pow10(0) == 1;
    }
    assert !(n as real < 0.0);
  }

  lemma NatToStringTimesTen(n: nat)
    requires n > 0
    ensures NatToString(10 * n) == NatToString(n) + "0"
  {
    assert (10 * n) / 10 == n && (10 * n) % 10 == 0;
  }

  lemma PlacePointTens(n: nat)
    ensures PlacePoint(NatToString(10 * n), 1) == NatToString(n) + ".0"
  {
    var d := NatToString(10 * n);
    if n == 0 {
      assert d == "0";
      assert Zeros(1) + d == "00";
    } else {
      NatToStringTimesTen(n);
      assert d[..|d| - 1] == NatToString(n);
      assert d[|d| - 1..] == "0";
    }
  }

  /** A whole number prints with `.0` at precision 1: `3` prints as `3.0`. */
  lemma FormatWholeAtOne(n: nat)
    ensures FormatFixed(n as real, 1) == NatToString(n) + ".0"
  {
    ScaledWhole(n, 1);
    assert Pow10(1) == 10;
    assert Scaled(n as real, 1) == 10 * n;
    assert !(n as real < 0.0);
    assert FormatFixed(n as real, 1) == PlacePoint(NatToString(10 * n), 1);
    PlacePointTens(n);
  }

  lemma {:induction false} ZerosValue(k: nat)
    ensures DigitsValue(Zeros(k)) == 0
  {
    if k > 0 {
      assert Zeros(k)[..k - 1] == Zeros(k - 1);
      ZerosValue(k - 1);
    }
  }

  lemma {:induction false} DigitRunAll(s: string)
    requires AllDigits(s)
    ensures DigitRun(s) == |s|
  {
    if s != [] {
      DigitRunAll(s[1..]);
    }
  }

  /** The digit run of `a + [c] + b` stops at `c` when `a` is all digits and `c` is not one. */
  lemma DigitRunStops(a: string, c: char, b: string)
    requires AllDigits(a) && !IsDigit(c)
    ensures DigitRun(a + [c] + b) == |a|
  {
    var s := a + [c] + b;
    assert forall i :: 0 <= i < |a| ==> s[i] == a[i];
    assert s[|a|] == c;
  }

  lemma TimesTen(n: nat, p: nat)
    ensures n * (10 * p) == 10 * (n * p)
  {
  }

  /** Scaling a whole number by powers of ten stays whole. */
  lemma {:induction false} MulPow10Whole(n: nat, k: nat)
    ensures MulPow10(n as real, k) == (n * Pow10(k)) as real
    decreases k
  {
    if k > 0 {
      MulPow10Whole(n, k - 1);
      TimesTen(n, Pow10(k - 1));
    }
  }

  lemma MagnifiedWhole(n: nat, precision: nat)
    ensures Magnified(n as real, precision) == (n * Pow10(precision)) as real
  {
    assert Abs(n as real) == n as real;
    MulPow10Whole(n, precision);
  }

  lemma {:induction false} DivPow10Add(a: real, b: real, k: nat)
    ensures DivPow10(a + b, k) == DivPow10(a, k) + DivPow10(b, k)
    decreases k
  {
    if k > 0 {
      assert (a + b) / 10.0 == a / 10.0 + b / 10.0;
      DivPow10Add(a / 10.0, b / 10.0, k - 1);
    }
  }

  lemma {:induction false} DivPow10Monotone(a: real, b: real, k: nat)
    requires a <= b
    ensures DivPow10(a, k) <= DivPow10(b, k)
    decreases k
  {
    if k > 0 {
      DivPow10Monotone(a / 10.0, b / 10.0, k - 1);
    }
  }

  lemma {:induction false} DivPow10Negate(a: real, k: nat)
    ensures DivPow10(-a, k) == -DivPow10(a, k)
    decreases k
  {
    if k > 0 {
      assert -a / 10.0 == -(a / 10.0);
      DivPow10Negate(a / 10.0, k - 1);
    }
  }

  /** Dividing by `10^k` undoes multiplying by it. */
  lemma {:induction false} DivMulPow10(x: real, k: nat)
    ensures DivPow10(MulPow10(x, k), k) == x
    decreases k
  {
    if k > 0 {
      assert MulPow10(x, k) / 10.0 == MulPow10(x, k - 1);
      DivMulPow10(x, k - 1);
    }
  }

  lemma SplitFraction(a: nat, b: nat, k: nat)
    ensures a as real + DivPow10(b as real, k) == DivPow10((a * Pow10(k) + b) as real, k)
  {
    MulPow10Whole(a, k);
    assert (a * Pow10(k) + b) as real == MulPow10(a as real, k) + b as real;
    DivPow10Add(MulPow10(a as real, k), b as real, k);
    DivMulPow10(a as real, k);
  }

  lemma PaddedValue(k: nat, d: string)
    requires AllDigits(d)
    ensures AllDigits(Zeros(k) + d) && DigitsValue(Zeros(k) + d) == DigitsValue(d)
  {
    DigitsValueAppend(Zeros(k), d);
    ZerosValue(k);
    assert 0 * Pow10(|d|) == 0;
  }

  lemma FractionAll(frac: string)
    requires AllDigits(frac)
    ensures FractionDigits("." + frac) == frac
  {
    var rest := "." + frac;
    assert rest[1..] == frac;
    DigitRunAll(frac);
    assert frac[..|frac|] == frac;
  }

  lemma PointedDigits(whole: string, frac: string)
    requires AllDigits(whole) && AllDigits(frac) && frac != []
    ensures Unsigned(whole + "." + frac) == Some(Decimal(whole, frac))
  {
    var body := whole + "." + frac;
    DigitRunStops(whole, '.', frac);
    assert body[..|whole|] == whole;
    assert body[|whole|..] == "." + frac;
    FractionAll(frac);
  }

  /** `whole.frac` reads back as `whole` and `frac` put together, divided by `10^|frac|`. */
  lemma PointedValue(whole: string, frac: string)
    requires AllDigits(whole) && AllDigits(frac) && frac != []
    ensures AllDigits(whole + frac)
    ensures Unsigned(whole + "." + frac) == Some(DivPow10(DigitsValue(whole + frac) as real, |frac|))
  {
    DecimalOfDigits(whole, frac);
    PointedDigits(whole, frac);
  }

  /** `Decimal(whole, frac)` is the digits of `whole` and `frac` together, divided by `10^|frac|`. */
  lemma DecimalOfDigits(whole: string, frac: string)
    requires AllDigits(whole) && AllDigits(frac)
    ensures AllDigits(whole + frac)
    ensures Decimal(whole, frac) == DivPow10(DigitsValue(whole + frac) as real, |frac|)
  {
    DigitsValueAppend(whole, frac);
    SplitFraction(DigitsValue(whole), DigitsValue(frac), |frac|);
  }

  lemma IntegerValue(n: nat)
    ensures Unsigned(NatToString(n)) == Some(n as real)
  {
    var d := NatToString(n);
    NatToStringRoundTrip(n);
    DigitRunAll(d);
    assert d[|d|..] == "";
    assert d[..|d|] == d;
    assert Decimal(d, "") == n as real;
  }

  lemma SplitPointValue(padded: string, precision: nat)
    requires AllDigits(padded) && |padded| > precision > 0
    ensures Unsigned(padded[..|padded| - precision] + "." + padded[|padded| - precision..]) ==
              Some(DivPow10(DigitsValue(padded) as real, precision))
  {
    var whole := padded[..|padded| - precision];
    var frac := padded[|padded| - precision..];
    assert padded == whole + frac;
    PointedValue(whole, frac);
  }

  lemma PaddedNat(n: nat, precision: nat)
    ensures DigitsValue(Padded(NatToString(n), precision)) == n
  {
    var d := NatToString(n);
    NatToStringRoundTrip(n);
    if |d| <= precision {
      PaddedValue(precision + 1 - |d|, d);
    }
  }

  lemma FractionalValue(n: nat, precision: nat)
    requires precision > 0
    ensures Unsigned(PlacePoint(NatToString(n), precision)) == Some(DivPow10(n as real, precision))
  {
    PlacePointOfDigits(NatToString(n), precision);
    PaddedNat(n, precision);
  }

  lemma PlacePointOfDigits(digits: string, precision: nat)
    requires digits != [] && AllDigits(digits) && precision > 0
    ensures Unsigned(PlacePoint(digits, precision)) ==
              Some(DivPow10(DigitsValue(Padded(digits, precision)) as real, precision))
  {
    var padded := Padded(digits, precision);
    var s := padded[..|padded| - precision] + "." + padded[|padded| - precision..];
    assert PlacePoint(digits, precision) == s;
    SplitPointValue(padded, precision);
  }

  /** The digits and point `PlacePoint` writes read back as the scaled-down number. */
  lemma PlacePointValue(n: nat, precision: nat)
    ensures Unsigned(PlacePoint(NatToString(n), precision)) == Some(DivPow10(n as real, precision))
  {
    if precision == 0 {
      IntegerValue(n);
    } else {
      FractionalValue(n, precision);
    }
  }

  /** A number starting with a digit reads as itself, and with a minus sign before it as its negation. */
  lemma SignedValue(body: string, m: real)
    requires body != [] && IsDigit(body[0]) && Unsigned(body) == Some(m)
    ensures ParseNum(body) == Some(m)
    ensures ParseNum("-" + body) == Some(-m)
  {
    PlainValue(body, m);
    NegatedValue(body, m);
  }

  lemma PlainValue(body: string, m: real)
    requires body != [] && IsDigit(body[0]) && Unsigned(body) == Some(m)
    ensures ParseNum(body) == Some(m)
  {
    assert SpaceRun(body) == 0 && body[0..] == body;
  }

  lemma NegatedValue(body: string, m: real)
    requires body != [] && IsDigit(body[0]) && Unsigned(body) == Some(m)
    ensures ParseNum("-" + body) == Some(-m)
  {
    var s := "-" + body;
    assert SpaceRun(s) == 0 && s[0..] == s;
    assert s[1..] == body;
  }

  /**
   * The digits of a printed number, after its sign if it has one, read back
   * as its rounded magnitude.
   */
  lemma FormatFixedValue(v: real, precision: nat)
    ensures var s := FormatFixed(v, precision);
            ParseNum(if v < 0.0 then s[1..] else s) == Some(DivPow10(Scaled(v, precision) as real, precision))
  {
    var n := Scaled(v, precision);
    var body := PlacePoint(NatToString(n), precision);
    var y := DivPow10(n as real, precision);
    assert ParseNum(body) == Some(y) by {
      assert Unsigned(body) == Some(y) by {
        PlacePointValue(n, precision);
      }
      SignedValue(body, y);
    }
    var s := FormatFixed(v, precision);
    assert (if v < 0.0 then s[1..] else s) == body;
  }

  /** The rounded magnitude is within half of the last digit of `|v|`. */
  lemma ScaledNear(v: real, precision: nat)
    ensures var y := DivPow10(Scaled(v, precision) as real, precision);
            Abs(v) - DivPow10(0.5, precision) <= y <= Abs(v) + DivPow10(0.5, precision)
  {
    var m := Magnified(v, precision);
    var d := Scaled(v, precision) as real - m;
    assert -0.5 <= d <= 0.5;
    DivPow10Add(m, d, precision);
    DivMulPow10(Abs(v), precision);
    DivPow10Monotone(d, 0.5, precision);
    DivPow10Monotone(-0.5, d, precision);
    DivPow10Negate(0.5, precision);
  }

  /**
   * Reading a printed number back gives the number to within half of the
   * last printed digit, `0.5 / 10^precision`: the digits after the sign read
   * back as `|v|` within that bound, and the sign is there exactly when `v`
   * is negative (by `SignedValue`, a leading minus negates what follows).
   */
  lemma FormatFixedReadsBack(v: real, precision: nat)
    ensures var s := FormatFixed(v, precision);
            var w := ParseNum(if v < 0.0 then s[1..] else s);
            && (s[0] == '-' <==> v < 0.0)
            && w.Some?
            && Abs(w.value - Abs(v)) <= DivPow10(0.5, precision)
  {
    var y := DivPow10(Scaled(v, precision) as real, precision);
    var half := DivPow10(0.5, precision);
    FormatFixedValue(v, precision);
    ScaledNear(v, precision);
    assert Abs(v) - half <= y <= Abs(v) + half;
  }
}
