/** Exact decimal arithmetic (`decimal-arith.ts`): numbers as text, correctly rounded division, exact
    remainder. */
module Decimals {
  import opened DigitText
  import opened Options
  import opened I32Arith

  /** The value is `unscaled` divided by ten to the power `scale`. */
  datatype Dec = Dec(unscaled: int, scale: nat)

  datatype DecResult = Decimal(text: Text) | MalformedDecimal | DivideByZero

  datatype RoundMode = HalfEven | HalfUp | HalfDown | Up | Down | Ceiling | Floor

  const PLUS: Unit := 0x2b
  const POINT: Unit := 0x2e

  function Pow10(n: nat): (p: int)
    ensures p > 0
  {
    if n == 0 then 1 else 10 * Pow10(n - 1)
  }

  // ----- Reading and writing -----

  predicate IsSpace(u: Unit) {
    || 9 <= u <= 13 || u == 0x20 || u == 0xa0 || u == 0x1680 || 0x2000 <= u <= 0x200a
    || u == 0x2028 || u == 0x2029 || u == 0x202f || u == 0x205f || u == 0x3000 || u == 0xfeff
  }

  function Trim(t: Text): Text {
    if t == [] then t
    else if IsSpace(t[0]) then Trim(t[1..])
    else if IsSpace(t[|t| - 1]) then Trim(t[..|t| - 1])
    else t
  }

  function ParseDecimal(t: Text): Option<Dec> {
    var s := Trim(t);
    if s != [] && s[0] == MINUS then ParseUnsigned(s[1..], true)
    else if s != [] && s[0] == PLUS then ParseUnsigned(s[1..], false)
    else ParseUnsigned(s, false)
  }

  /** Digits, and perhaps a point and more digits; at least one digit in all. */
  function ParseUnsigned(s: Text, negative: bool): Option<Dec> {
    var k := DigitRun(s);
    if k == |s| then FromParts(s, [], negative)
    else if s[k] != POINT || DigitRun(s[k + 1..]) != |s| - k - 1 then None
    else FromParts(s[..k], s[k + 1..], negative)
  }

  predicate AllDigits(t: Text) {
    forall i :: 0 <= i < |t| ==> IsDigit(t[i])
  }

  function FromParts(whole: Text, fraction: Text, negative: bool): Option<Dec>
    requires AllDigits(whole) && AllDigits(fraction)
  {
    if whole == [] && fraction == [] then None
    else
      var digits := whole + fraction;
      var n: int := DigitsValue(digits);
      Some(Dec(if negative then -n else n, |fraction|))
  }

  function Zeros(n: nat): Text {
    if n == 0 then [] else [ZERO] + Zeros(n - 1)
  }

  /** The digits, with zeros in front until there are more than `scale`. */
  function Padded(n: nat, scale: nat): (t: Text)
    ensures |t| > scale
  {
    var d := Digits(n);
    if |d| > scale then d else ZeroCount(scale + 1 - |d|); Zeros(scale + 1 - |d|) + d
  }

  lemma {:induction false} ZeroCount(n: nat)
    ensures |Zeros(n)| == n && AllDigits(Zeros(n))
  {
    if n > 0 { ZeroCount(n - 1); }
  }

  /** A number without its sign. */
  function Body(n: nat, scale: nat): Text {
    if scale == 0 then Digits(n) else WithPoint(Padded(n, scale), scale)
  }

  function WithPoint(digits: Text, scale: nat): Text
    requires scale <= |digits|
  {
    digits[..|digits| - scale] + [POINT] + digits[|digits| - scale..]
  }

  function FormatDecimal(unscaled: int, scale: nat): Text {
    if unscaled < 0 then [MINUS] + Body(-unscaled, scale) else Body(unscaled, scale)
  }

  lemma OneMoreZero(k: nat, d: Text)
    ensures [ZERO] + (Zeros(k) + d) == Zeros(k + 1) + d
  {}

  /** Put zeros in front one at a time. */
  method Pad(n: nat, scale: nat) returns (digits: Text)
    ensures digits == Padded(n, scale)
  {
    digits := Digits(n);
    ghost var zeros: nat := 0;
    while |digits| <= scale
      invariant digits == Zeros(zeros) + Digits(n) && |digits| == zeros + |Digits(n)|
      invariant zeros > 0 ==> |digits| <= scale + 1
      decreases scale + 1 - |digits|
    {
      OneMoreZero(zeros, Digits(n));
      digits := [ZERO] + digits;
      zeros := zeros + 1;
    }
  }

  method FormatText(unscaled: int, scale: nat) returns (text: Text)
    ensures text == FormatDecimal(unscaled, scale)
  {
    var n: nat := if unscaled < 0 then -unscaled else unscaled;
    if scale == 0 {
      text := Digits(n);
    } else {
      var digits := Pad(n, scale);
      var cut := |digits| - scale;
      text := digits[..cut] + [POINT] + digits[cut..];
    }
    if unscaled < 0 { text := [MINUS] + text; }
  }

  lemma {:induction false} ZerosAddNothing(n: nat, d: Text)
    requires AllDigits(d)
    ensures AllDigits(Zeros(n) + d) && DigitsValue(Zeros(n) + d) == DigitsValue(d)
    decreases n, |d|
  {
    ZeroCount(n);
    if n == 0 {
      assert Zeros(n) + d == d;
    } else if d == [] {
      ZerosAddNothing(n - 1, [ZERO]);
      assert Zeros(n) + d == Zeros(n - 1) + [ZERO] by { ZerosCommute(n - 1); }
      assert [ZERO][..0] == [];
      assert DigitsValue([ZERO]) == 0;
    } else {
      var k := |d| - 1;
      ZerosAddNothing(n, d[..k]);
      assert (Zeros(n) + d)[..|Zeros(n) + d| - 1] == Zeros(n) + d[..k];
    }
  }

  lemma {:induction false} ZerosCommute(n: nat)
    ensures [ZERO] + Zeros(n) == Zeros(n) + [ZERO]
  {
    if n > 0 { ZerosCommute(n - 1); }
  }

  lemma PaddedIsSame(n: nat, scale: nat)
    ensures AllDigits(Padded(n, scale)) && DigitsValue(Padded(n, scale)) == n
  {
    DigitsRoundTrip(n);
    var d := Digits(n);
    if |d| <= scale {
      var k := scale + 1 - |d|;
      assert Padded(n, scale) == Zeros(k) + d;
      ZerosAddNothing(k, d);
    } else {
      assert Padded(n, scale) == d;
    }
  }

  lemma ParseParts(whole: Text, fraction: Text, negative: bool)
    requires AllDigits(whole) && AllDigits(fraction) && whole != []
    ensures fraction == [] ==> ParseUnsigned(whole, negative) == FromParts(whole, [], negative)
    ensures ParseUnsigned(whole + [POINT] + fraction, negative) == FromParts(whole, fraction, negative)
  {
    RunOfDigits(whole, []);
    assert whole + [] == whole;
    var s := whole + [POINT] + fraction;
    RunOfDigits(whole, [POINT] + fraction);
    assert s == whole + ([POINT] + fraction);
    RunOfDigits(fraction, []);
    assert s[|whole| + 1..] == fraction && fraction + [] == fraction && s[..|whole|] == whole;
  }

  function Signed(n: int, negative: bool): int {
    if negative then -n else n
  }

  lemma JoinedParts(whole: Text, fraction: Text, digits: Text, negative: bool)
    requires AllDigits(whole) && AllDigits(fraction) && fraction != [] && AllDigits(digits) && whole + fraction == digits
    ensures FromParts(whole, fraction, negative) == Some(Dec(Signed(DigitsValue(digits), negative), |fraction|))
  {}

  lemma SplitDigits(digits: Text, cut: nat)
    requires AllDigits(digits) && cut <= |digits|
    ensures AllDigits(digits[..cut]) && AllDigits(digits[cut..]) && digits[..cut] + digits[cut..] == digits
  {}

  lemma PointParses(digits: Text, scale: nat, negative: bool)
    requires 0 < scale < |digits| && AllDigits(digits)
    ensures ParseUnsigned(WithPoint(digits, scale), negative) == Some(Dec(Signed(DigitsValue(digits), negative), scale))
  {
    var cut := |digits| - scale;
    var whole, fraction := digits[..cut], digits[cut..];
    SplitDigits(digits, cut);
    ParseParts(whole, fraction, negative);
    JoinedParts(whole, fraction, digits, negative);
  }

  lemma BodyParses(n: nat, scale: nat, negative: bool)
    ensures ParseUnsigned(Body(n, scale), negative) == Some(Dec(Signed(n, negative), scale))
  {
    if scale == 0 {
      DigitsRoundTrip(n);
      ParseParts(Digits(n), [], negative);
      assert Digits(n) + [] == Digits(n);
    } else {
      PaddedIsSame(n, scale);
      PointParses(Padded(n, scale), scale, negative);
    }
  }

  lemma BodyEnds(n: nat, scale: nat)
    ensures var b := Body(n, scale); b != [] && IsDigit(b[0]) && IsDigit(b[|b| - 1])
  {
    DigitsRoundTrip(n);
    PaddedIsSame(n, scale);
    var digits := Padded(n, scale);
    if scale > 0 {
      assert Body(n, scale)[0] == digits[0];
      assert Body(n, scale)[|Body(n, scale)| - 1] == digits[|digits| - 1];
    }
  }

  lemma TrimNothing(t: Text)
    requires t != [] && !IsSpace(t[0]) && !IsSpace(t[|t| - 1])
    ensures Trim(t) == t
  {}

  /** Reading back what was written. */
  lemma FormatRoundTrip(unscaled: int, scale: nat)
    ensures ParseDecimal(FormatDecimal(unscaled, scale)) == Some(Dec(unscaled, scale))
  {
    var n: nat := if unscaled < 0 then -unscaled else unscaled;
    var body, text := Body(n, scale), FormatDecimal(unscaled, scale);
    BodyParses(n, scale, unscaled < 0);
    BodyEnds(n, scale);
    if unscaled < 0 {
      assert text == [MINUS] + body && text[|text| - 1] == body[|body| - 1] && text[1..] == body;
    }
    TrimNothing(text);
  }

  // ----- Comparing by value -----

  lemma {:induction false} Pow10Sum(a: nat, b: nat)
    ensures Pow10(a + b) == Pow10(a) * Pow10(b)
  {
    if a > 0 { Pow10Sum(a - 1, b); }
  }

  function MaxScale(a: Dec, b: Dec): nat {
    if a.scale >= b.scale then a.scale else b.scale
  }

  /** The unscaled value at a larger scale. */
  function At(a: Dec, scale: nat): int
    requires a.scale <= scale
  {
    a.unscaled * Pow10(scale - a.scale)
  }

  /** `a` and `b` denote the same number. */
  ghost predicate SameValue(a: Dec, b: Dec) {
    a.unscaled * Pow10(b.scale) == b.unscaled * Pow10(a.scale)
  }

  ghost predicate Less(a: Dec, b: Dec) {
    a.unscaled * Pow10(b.scale) < b.unscaled * Pow10(a.scale)
  }

  datatype Comparison = Ordered(sign: int) | Malformed

  function DecCompare(a: Text, b: Text): Comparison {
    match (ParseDecimal(a), ParseDecimal(b))
    case (Some(x), Some(y)) =>
      var s := MaxScale(x, y);
      Ordered(if At(x, s) < At(y, s) then -1 else if At(x, s) > At(y, s) then 1 else 0)
    case (None, _) => Malformed
    case (_, None) => Malformed
  }

  function MinScale(a: Dec, b: Dec): nat {
    if a.scale <= b.scale then a.scale else b.scale
  }

  /** Aligning scales both numbers by the same positive factor. */
  lemma AlignScales(x: Dec, y: Dec)
    ensures At(x, MaxScale(x, y)) * Pow10(MinScale(x, y)) == x.unscaled * Pow10(y.scale)
    ensures At(y, MaxScale(x, y)) * Pow10(MinScale(x, y)) == y.unscaled * Pow10(x.scale)
  {
    Pow10Sum(MaxScale(x, y) - x.scale, MinScale(x, y));
    Pow10Sum(MaxScale(x, y) - y.scale, MinScale(x, y));
    Associates(x.unscaled, Pow10(MaxScale(x, y) - x.scale), Pow10(MinScale(x, y)));
    Associates(y.unscaled, Pow10(MaxScale(x, y) - y.scale), Pow10(MinScale(x, y)));
  }

  lemma Associates(a: int, b: int, c: int)
    ensures a * b * c == a * (b * c)
  {}

  lemma SameFactor(a: int, b: int, k: int)
    requires k > 0
    ensures (a < b <==> a * k < b * k) && (a == b <==> a * k == b * k)
  {}

  /** Comparison is by value: trailing zeros do not matter. */
  lemma CompareIsByValue(a: Text, b: Text, x: Dec, y: Dec)
    requires ParseDecimal(a) == Some(x) && ParseDecimal(b) == Some(y)
    ensures DecCompare(a, b) == Ordered(if Less(x, y) then -1 else if SameValue(x, y) then 0 else 1)
  {
    var s := MaxScale(x, y);
    AlignScales(x, y);
    SameFactor(At(x, s), At(y, s), Pow10(MinScale(x, y)));
  }

  // ----- Sums and products -----

  function Plus(x: Dec, y: Dec): Dec {
    var s := MaxScale(x, y);
    Dec(At(x, s) + At(y, s), s)
  }

  function Times(x: Dec, y: Dec): Dec {
    Dec(x.unscaled * y.unscaled, x.scale + y.scale)
  }

  function DecAdd(a: Text, b: Text): DecResult {
    match (ParseDecimal(a), ParseDecimal(b))
    case (Some(x), Some(y)) => Decimal(FormatDecimal(Plus(x, y).unscaled, Plus(x, y).scale))
    case (None, _) => MalformedDecimal
    case (_, None) => MalformedDecimal
  }

  function DecSub(a: Text, b: Text): DecResult {
    match (ParseDecimal(a), ParseDecimal(b))
    case (Some(x), Some(y)) =>
      var s := MaxScale(x, y);
      Decimal(FormatDecimal(At(x, s) - At(y, s), s))
    case (None, _) => MalformedDecimal
    case (_, None) => MalformedDecimal
  }

  function DecMul(a: Text, b: Text): DecResult {
    match (ParseDecimal(a), ParseDecimal(b))
    case (Some(x), Some(y)) => Decimal(FormatDecimal(Times(x, y).unscaled, Times(x, y).scale))
    case (None, _) => MalformedDecimal
    case (_, None) => MalformedDecimal
  }

  // ----- Rounding -----

  /** `q` is `n / d` rounded to an integer in the given mode. */
  ghost predicate IsRounded(mode: RoundMode, n: int, d: int, q: int) {
    match mode
    case Down => if n >= 0 then q * d <= n < q * d + d else q * d - d < n <= q * d
    case Up => if n >= 0 then q * d - d < n <= q * d else q * d <= n < q * d + d
    case Floor => q * d <= n < q * d + d
    case Ceiling => q * d - d < n <= q * d
    case HalfUp => Nearest(n, d, q) && (Tie(n, d, q) ==> if n > 0 then q * d > n else q * d < n)
    case HalfDown => Nearest(n, d, q) && (Tie(n, d, q) ==> if n > 0 then q * d < n else q * d > n)
    case HalfEven => Nearest(n, d, q) && (Tie(n, d, q) ==> q % 2 == 0)
  }

  /** Within half a unit. */
  ghost predicate Nearest(n: int, d: int, q: int) {
    -d <= 2 * (n - q * d) <= d
  }

  ghost predicate Tie(n: int, d: int, q: int) {
    2 * (n - q * d) == d || 2 * (n - q * d) == -d
  }

  function RoundDiv(n: int, d: int, mode: RoundMode): int
    requires d > 0
  {
    var q := TruncQuotient(n, d);
    var r := n - q * d;
    if r == 0 then q
    else
      var neg := n < 0;
      var twice := (if r < 0 then -r else r) * 2;
      var away := match mode
        case Down => false
        case Up => true
        case Floor => neg
        case Ceiling => !neg
        case HalfUp => twice >= d
        case HalfDown => twice > d
        case HalfEven => twice > d || (twice == d && q % 2 != 0);
      if away then (if neg then q - 1 else q + 1) else q
  }

  lemma TruncLaw(n: int, d: int)
    requires d > 0
    ensures var r := n - TruncQuotient(n, d) * d; -d < r < d && (n >= 0 ==> r >= 0) && (n <= 0 ==> r <= 0)
  {}

  lemma NextMultiple(q: int, d: int)
    ensures (q + 1) * d == q * d + d && (q - 1) * d == q * d - d
  {}

  /** Every mode rounds as it says. */
  lemma RoundsCorrectly(n: int, d: int, mode: RoundMode)
    requires d > 0
    ensures IsRounded(mode, n, d, RoundDiv(n, d, mode))
  {
    TruncLaw(n, d);
    NextMultiple(TruncQuotient(n, d), d);
  }

  lemma Multiples(p: int, q: int, d: int)
    requires d > 0 && p < q
    ensures p * d + d <= q * d && (q == p + 1 ==> q * d == p * d + d) && (q >= p + 2 ==> p * d + 2 * d <= q * d)
  {
    MultiplesApart(q - p, d);
    assert q * d == p * d + (q - p) * d;
  }

  lemma MultiplesApart(k: int, d: int)
    requires d > 0 && k >= 1
    ensures k * d >= d && (k >= 2 ==> k * d >= 2 * d)
  {}

  /** There is only one way to round. */
  lemma RoundingIsUnique(mode: RoundMode, n: int, d: int, p: int, q: int)
    requires d > 0 && IsRounded(mode, n, d, p) && IsRounded(mode, n, d, q)
    ensures p == q
  {
    if p < q { OnlyOne(mode, n, d, p, q); }
    if q < p { OnlyOne(mode, n, d, q, p); }
  }

  lemma OnlyOne(mode: RoundMode, n: int, d: int, p: int, q: int)
    requires d > 0 && p < q && IsRounded(mode, n, d, p)
    ensures !IsRounded(mode, n, d, q)
  {
    Multiples(p, q, d);
  }

  // ----- Division -----

  /** The quotient of `x` by `y`, moved `scale` places, as a fraction with a positive denominator. */
  function Fraction(x: Dec, y: Dec, scale: nat): (f: (int, int))
    requires y.unscaled != 0
    ensures f.1 > 0
  {
    var num := if scale + y.scale >= x.scale then x.unscaled * Pow10(scale + y.scale - x.scale) else x.unscaled;
    var den := if scale + y.scale >= x.scale then y.unscaled else y.unscaled * Pow10(x.scale - scale - y.scale);
    ProductSign(y.unscaled, Pow10(if scale + y.scale >= x.scale then 0 else x.scale - scale - y.scale));
    if den < 0 then (-num, -den) else (num, den)
  }

  lemma ProductSign(a: int, p: int)
    requires p > 0
    ensures (a < 0 ==> a * p < 0) && (a > 0 ==> a * p > 0)
  {}

  function DecDiv(a: Text, b: Text, scale: int, mode: RoundMode): DecResult {
    if scale < 0 || scale > 100 then MalformedDecimal
    else
      match (ParseDecimal(a), ParseDecimal(b))
      case (Some(x), Some(y)) =>
        if y.unscaled == 0 then DivideByZero
        else
          var f := Fraction(x, y, scale);
          Decimal(FormatDecimal(RoundDiv(f.0, f.1, mode), scale))
      case (None, _) => MalformedDecimal
      case (_, None) => MalformedDecimal
  }

  /** The fraction is the quotient: `f.0 / f.1 == (x / y) * 10^scale`, multiplied out. */
  lemma FractionIsQuotient(x: Dec, y: Dec, scale: nat)
    requires y.unscaled != 0
    ensures var f := Fraction(x, y, scale);
      f.0 * (y.unscaled * Pow10(x.scale)) == f.1 * (x.unscaled * Pow10(scale + y.scale))
  {
    if scale + y.scale >= x.scale {
      var e := scale + y.scale - x.scale;
      Pow10Sum(e, x.scale);
      Shuffle(x.unscaled, Pow10(e), y.unscaled, Pow10(x.scale));
    } else {
      var e := x.scale - scale - y.scale;
      Pow10Sum(e, scale + y.scale);
      Shuffle(y.unscaled, Pow10(e), x.unscaled, Pow10(scale + y.scale));
    }
  }

  lemma Shuffle(a: int, p: int, b: int, r: int)
    ensures (a * p) * (b * r) == b * (a * (p * r))
    ensures (-(a * p)) * (b * r) == (-b) * (a * (p * r))
    ensures a * (b * (p * r)) == (b * p) * (a * r)
  {}

  /** Division yields the one decimal with `scale` places that is the exact quotient rounded in the mode. */
  lemma DivIsRoundedQuotient(a: Text, b: Text, scale: nat, mode: RoundMode, x: Dec, y: Dec)
    requires ParseDecimal(a) == Some(x) && ParseDecimal(b) == Some(y) && y.unscaled != 0 && scale <= 100
    ensures var f := Fraction(x, y, scale); exists q ::
      && IsRounded(mode, f.0, f.1, q)
      && DecDiv(a, b, scale, mode) == Decimal(FormatDecimal(q, scale))
      && ParseDecimal(DecDiv(a, b, scale, mode).text) == Some(Dec(q, scale))
  {
    var f := Fraction(x, y, scale);
    RoundsCorrectly(f.0, f.1, mode);
    FormatRoundTrip(RoundDiv(f.0, f.1, mode), scale);
  }

  // ----- Remainder -----

  function DecRem(a: Text, b: Text): DecResult {
    match (ParseDecimal(a), ParseDecimal(b))
    case (Some(x), Some(y)) =>
      if y.unscaled == 0 then DivideByZero
      else
        AlignedNotZero(y, MaxScale(x, y));
        var s := MaxScale(x, y);
        Decimal(FormatDecimal(At(x, s) - TruncQuotient(At(x, s), At(y, s)) * At(y, s), s))
    case (None, _) => MalformedDecimal
    case (_, None) => MalformedDecimal
  }

  lemma AlignedNotZero(y: Dec, s: nat)
    requires y.unscaled != 0 && y.scale <= s
    ensures At(y, s) != 0
  {
    ProductSign(y.unscaled, Pow10(s - y.scale));
  }

  /** Without places the fraction is the aligned pair, up to sign. */
  lemma WholeFraction(x: Dec, y: Dec)
    requires y.unscaled != 0
    ensures var s := MaxScale(x, y); var f := Fraction(x, y, 0);
      f == (At(x, s), At(y, s)) || f == (-At(x, s), -At(y, s))
  {}

  lemma TruncOfNegated(n: int, d: int)
    requires d != 0
    ensures TruncQuotient(-n, -d) == TruncQuotient(n, d)
  {
    assert Abs(-n) == Abs(n) && Abs(-d) == Abs(d);
    if n == 0 { assert Abs(n) / Abs(d) == 0; }
  }

  lemma DownIsTrunc(n: int, d: int)
    requires d > 0
    ensures RoundDiv(n, d, Down) == TruncQuotient(n, d)
  {}

  /** What the whole quotient is, in numbers. */
  lemma WholeQuotient(x: Dec, y: Dec)
    requires y.unscaled != 0
    ensures At(y, MaxScale(x, y)) != 0
    ensures RoundDiv(Fraction(x, y, 0).0, Fraction(x, y, 0).1, Down) == TruncQuotient(At(x, MaxScale(x, y)), At(y, MaxScale(x, y)))
  {
    var s := MaxScale(x, y);
    AlignedNotZero(y, s);
    WholeFraction(x, y);
    TruncOfNegated(At(x, s), At(y, s));
    DownIsTrunc(Fraction(x, y, 0).0, Fraction(x, y, 0).1);
  }

  /** Adding the remainder to the product gives the dividend at the larger scale. */
  lemma ProductPlusRemainder(x: Dec, y: Dec, q: int)
    ensures var s := MaxScale(x, y);
      Plus(Dec(q * y.unscaled, y.scale), Dec(At(x, s) - q * At(y, s), s)) == Dec(At(x, s), s)
  {
    Associates(q, y.unscaled, Pow10(MaxScale(x, y) - y.scale));
  }

  lemma AlignedIsSame(x: Dec, s: nat)
    requires x.scale <= s
    ensures SameValue(x, Dec(At(x, s), s))
  {
    Pow10Sum(s - x.scale, x.scale);
    Associates(x.unscaled, Pow10(s - x.scale), Pow10(x.scale));
  }

  /** The whole quotient times the divisor plus the remainder is the dividend, by value. */
  lemma DivRemLaw(a: Text, b: Text, x: Dec, y: Dec)
    requires ParseDecimal(a) == Some(x) && ParseDecimal(b) == Some(y) && y.unscaled != 0
    ensures var quotient, remainder := DecDiv(a, b, 0, Down), DecRem(a, b);
      quotient.Decimal? && remainder.Decimal? && SumsTo(DecMul(quotient.text, b), remainder, a)
  {
    var s := MaxScale(x, y);
    WholeQuotient(x, y);
    var q := TruncQuotient(At(x, s), At(y, s));
    var rem := At(x, s) - q * At(y, s);
    var quotient, remainder := DecDiv(a, b, 0, Down), DecRem(a, b);
    assert quotient == Decimal(FormatDecimal(q, 0)) && remainder == Decimal(FormatDecimal(rem, s));
    FormatRoundTrip(q, 0);
    ProductText(quotient.text, b, q, y);
    FormatRoundTrip(rem, s);
    ProductPlusRemainder(x, y, q);
    SumText(DecMul(quotient.text, b), remainder, a, Dec(q * y.unscaled, y.scale), Dec(rem, s), x);
  }

  /** Both are decimals and their sum equals `a` by value. */
  ghost predicate SumsTo(p: DecResult, r: DecResult, a: Text) {
    p.Decimal? && r.Decimal? && DecAdd(p.text, r.text).Decimal? && DecCompare(a, DecAdd(p.text, r.text).text) == Ordered(0)
  }

  lemma ProductText(t: Text, b: Text, q: int, y: Dec)
    requires ParseDecimal(t) == Some(Dec(q, 0)) && ParseDecimal(b) == Some(y)
    ensures DecMul(t, b).Decimal? && ParseDecimal(DecMul(t, b).text) == Some(Dec(q * y.unscaled, y.scale))
  {
    FormatRoundTrip(q * y.unscaled, y.scale);
  }

  lemma SumText(p: DecResult, r: DecResult, a: Text, product: Dec, rem: Dec, x: Dec)
    requires p.Decimal? && r.Decimal? && ParseDecimal(p.text) == Some(product) && ParseDecimal(r.text) == Some(rem)
    requires ParseDecimal(a) == Some(x) && x.scale <= rem.scale && Plus(product, rem) == Dec(At(x, rem.scale), rem.scale)
    ensures SumsTo(p, r, a)
  {
    var sum := Plus(product, rem);
    FormatRoundTrip(sum.unscaled, sum.scale);
    AlignedIsSame(x, rem.scale);
    CompareIsByValue(a, DecAdd(p.text, r.text).text, x, sum);
  }

  lemma DifferenceAddsUp(x: Dec, y: Dec, s: nat)
    requires s == MaxScale(x, y)
    ensures Plus(y, Dec(At(x, s) - At(y, s), s)) == Dec(At(x, s), s)
  {
    assert Pow10(0) == 1;
  }

  /** Adding back what was subtracted gives the number one started from, by value. */
  lemma AddUndoesSub(a: Text, b: Text, x: Dec, y: Dec)
    requires ParseDecimal(a) == Some(x) && ParseDecimal(b) == Some(y)
    ensures DecSub(a, b).Decimal? && SumsTo(Decimal(b), DecSub(a, b), a)
  {
    var s := MaxScale(x, y);
    var d := Dec(At(x, s) - At(y, s), s);
    assert DecSub(a, b) == Decimal(FormatDecimal(d.unscaled, s));
    FormatRoundTrip(d.unscaled, s);
    DifferenceAddsUp(x, y, s);
    SumText(Decimal(b), DecSub(a, b), a, y, d, x);
  }
}
