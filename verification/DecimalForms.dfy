/** Which texts are decimal numbers and which numbers they are, which text a number is written as, and
    what sums and products are worth (`decimal-arith.ts`). */
module DecimalForms {
  import opened DigitText
  import opened Options
  import opened Decimals

  // ----- Reading -----

  ghost predicate Blank(t: Text) {
    forall i :: 0 <= i < |t| ==> IsSpace(t[i])
  }

  ghost predicate DigitsOnly(t: Text) {
    forall i :: 0 <= i < |t| ==> 0x30 <= t[i] <= 0x39
  }

  /** Perhaps a sign, digits, perhaps a point and digits; at least one digit in all. */
  ghost predicate Spelled(core: Text, sign: Text, whole: Text, point: Text, fraction: Text, x: Dec) {
    && core == sign + whole + point + fraction
    && (sign == [] || sign == [0x2b] || sign == [0x2d])
    && (point == [0x2e] || (point == [] && fraction == []))
    && DigitsOnly(whole) && DigitsOnly(fraction) && whole + fraction != []
    && x.unscaled == (if sign == [0x2d] then -Value(whole + fraction) else Value(whole + fraction)) && x.scale == |fraction|
  }

  ghost function Value(t: Text): int {
    if t == [] then 0 else 10 * Value(t[..|t| - 1]) + (t[|t| - 1] as int - 0x30)
  }

  lemma {:induction false} ValueIs(t: Text)
    requires DigitsOnly(t)
    ensures AllDigits(t) && DigitsValue(t) == Value(t)
  {
    if t != [] { ValueIs(t[..|t| - 1]); }
  }

  /** The powers of ten: what a one and that many zeros are worth. */
  lemma {:induction false} PowerIsOneAndZeros(t: Text)
    requires t != [] && t[0] == 0x31 && forall i :: 1 <= i < |t| ==> t[i] == 0x30
    ensures Pow10(|t| - 1) == Value(t)
  {
    if |t| > 1 {
      var k := |t| - 1;
      PowerIsOneAndZeros(t[..k]);
    } else {
      assert t[..0] == [];
    }
  }

  /** White space around a number is ignored. */
  ghost predicate IsNumber(t: Text, x: Dec) {
    exists a, core, b :: Framed(t, a, core, b) && IsCore(core, x)
  }

  ghost predicate Framed(t: Text, a: Text, core: Text, b: Text) {
    t == a + core + b && Blank(a) && Blank(b)
  }

  ghost predicate IsCore(core: Text, x: Dec) {
    exists sign, whole, point, fraction :: Spelled(core, sign, whole, point, fraction, x)
  }

  lemma FrameFront(u: Unit, t: Text, a: Text, core: Text, b: Text)
    requires IsSpace(u) && Framed(t, a, core, b)
    ensures Framed([u] + t, [u] + a, core, b)
  {
    assert [u] + t == [u] + a + core + b;
  }

  lemma FrameBack(u: Unit, t: Text, a: Text, core: Text, b: Text)
    requires IsSpace(u) && Framed(t, a, core, b)
    ensures Framed(t + [u], a, core, b + [u])
  {
    assert t + [u] == a + core + (b + [u]);
  }

  ghost predicate Bare(t: Text) {
    t == [] || (!IsSpace(t[0]) && !IsSpace(t[|t| - 1]))
  }

  lemma {:induction false} TrimFrames(t: Text) returns (a: Text, b: Text)
    ensures Framed(t, a, Trim(t), b) && Bare(Trim(t))
    decreases |t|
  {
    a, b := [], [];
    if t != [] && IsSpace(t[0]) {
      a, b := TrimFrames(t[1..]);
      FrameFront(t[0], t[1..], a, Trim(t), b);
      assert t == [t[0]] + t[1..];
      a := [t[0]] + a;
    } else if t != [] && IsSpace(t[|t| - 1]) {
      var k := |t| - 1;
      a, b := TrimFrames(t[..k]);
      FrameBack(t[k], t[..k], a, Trim(t), b);
      assert t == t[..k] + [t[k]];
      b := b + [t[k]];
    } else {
      assert t == [] + t + [];
    }
  }

  lemma {:induction false} TrimOfFrame(a: Text, core: Text, b: Text)
    requires Blank(a) && Blank(b) && core != [] && !IsSpace(core[0]) && !IsSpace(core[|core| - 1])
    ensures Trim(a + core + b) == core
    decreases |a| + |b|
  {
    var t := a + core + b;
    if a != [] {
      assert t[0] == a[0] && t[1..] == a[1..] + core + b;
      TrimOfFrame(a[1..], core, b);
    } else if b != [] {
      assert t[0] == core[0] && t[|t| - 1] == b[|b| - 1] && t[..|t| - 1] == [] + core + b[..|b| - 1];
      TrimOfFrame([], core, b[..|b| - 1]);
    } else {
      assert t == core;
    }
  }

  lemma WholeReads(whole: Text, negative: bool)
    requires AllDigits(whole)
    ensures ParseUnsigned(whole, negative) == FromParts(whole, [], negative)
  {
    RunOfDigits(whole, []);
    assert whole + [] == whole;
  }

  lemma PointReads(whole: Text, fraction: Text, negative: bool)
    requires AllDigits(whole) && AllDigits(fraction)
    ensures ParseUnsigned(whole + [POINT] + fraction, negative) == FromParts(whole, fraction, negative)
  {
    var s := whole + [POINT] + fraction;
    assert s == whole + ([POINT] + fraction);
    RunOfDigits(whole, [POINT] + fraction);
    RunOfDigits(fraction, []);
    assert s[|whole| + 1..] == fraction && fraction + [] == fraction && s[..|whole|] == whole;
  }

  lemma SplitIsDigits(whole: Text, fraction: Text, digits: Text)
    requires DigitsOnly(digits) && whole + fraction == digits
    ensures AllDigits(whole) && AllDigits(fraction) && DigitsOnly(whole) && DigitsOnly(fraction)
  {
    assert forall i :: 0 <= i < |whole| ==> whole[i] == digits[i];
    assert forall i :: 0 <= i < |fraction| ==> fraction[i] == digits[|whole| + i];
  }

  lemma FromPartsIs(whole: Text, fraction: Text, digits: Text, n: int, negative: bool)
    requires AllDigits(whole) && AllDigits(fraction) && AllDigits(digits) && whole + fraction == digits != [] && n == DigitsValue(digits)
    ensures FromParts(whole, fraction, negative) == Some(Dec(Signed(n, negative), |fraction|))
  {}

  lemma UnsignedReads(body: Text, whole: Text, point: Text, fraction: Text, digits: Text, n: int, negative: bool)
    requires body == whole + point + fraction && (point == [0x2e] || (point == [] && fraction == []))
    requires DigitsOnly(digits) && whole + fraction == digits != []
    requires n == Value(digits)
    ensures ParseUnsigned(body, negative) == Some(Dec(Signed(n, negative), |fraction|))
  {
    ValueIs(digits);
    SplitIsDigits(whole, fraction, digits);
    FromPartsIs(whole, fraction, digits, n, negative);
    if point == [] {
      assert body == whole;
      WholeReads(whole, negative);
    } else {
      PointReads(whole, fraction, negative);
    }
  }

  /** What is read behind the sign, if there is one. */
  function Unsigned(core: Text): Text {
    if core != [] && (core[0] == MINUS || core[0] == PLUS) then core[1..] else core
  }

  lemma BodyIsBare(body: Text, whole: Text, point: Text, fraction: Text)
    requires body == whole + point + fraction && (point == [0x2e] || (point == [] && fraction == []))
    requires DigitsOnly(whole) && DigitsOnly(fraction) && whole + fraction != []
    ensures body != [] && Bare(body) && body[0] != MINUS && body[0] != PLUS
  {
    var k := |body| - 1;
    assert body[0] == (if whole != [] then whole[0] else 0x2e);
    assert body[k] == (if fraction != [] then fraction[|fraction| - 1] else if point != [] then 0x2e else whole[|whole| - 1]);
  }

  lemma SignedBody(core: Text, sign: Text, body: Text)
    requires core == sign + body && (sign == [] || sign == [0x2b] || sign == [0x2d])
    requires body != [] && Bare(body) && body[0] != MINUS && body[0] != PLUS
    ensures core != [] && Bare(core) && Unsigned(core) == body && (core[0] == MINUS <==> sign == [0x2d])
  {
    assert core[|core| - 1] == body[|body| - 1];
    assert sign == [] ==> core == body;
    assert sign != [] ==> core[0] == sign[0] && core[1..] == body;
  }

  lemma SpelledIsRead(core: Text, sign: Text, whole: Text, point: Text, fraction: Text, x: Dec)
    requires Spelled(core, sign, whole, point, fraction, x)
    ensures core != [] && Bare(core) && ParseUnsigned(Unsigned(core), core[0] == MINUS) == Some(x)
  {
    var digits := whole + fraction;
    CoreReads(core, sign, whole + point + fraction, whole, point, fraction, digits, Value(digits));
  }

  lemma CoreReads(core: Text, sign: Text, body: Text, whole: Text, point: Text, fraction: Text, digits: Text, n: int)
    requires core == sign + whole + point + fraction && body == whole + point + fraction && digits == whole + fraction && n == Value(digits)
    requires (sign == [] || sign == [0x2b] || sign == [0x2d]) && (point == [0x2e] || (point == [] && fraction == []))
    requires DigitsOnly(whole) && DigitsOnly(fraction) && digits != []
    ensures core != [] && Bare(core) && ParseUnsigned(Unsigned(core), core[0] == MINUS) == Some(Dec(Signed(n, sign == [0x2d]), |fraction|))
  {
    BodyIsBare(body, whole, point, fraction);
    Associates(sign, whole, point, fraction);
    SignedBody(core, sign, body);
    UnsignedReads(body, whole, point, fraction, digits, n, sign == [0x2d]);
  }

  lemma ReadsUnsigned(t: Text)
    ensures var s := Trim(t); ParseDecimal(t) == ParseUnsigned(Unsigned(s), s != [] && s[0] == MINUS)
  {}

  lemma UnsignedSplits(s: Text, negative: bool) returns (whole: Text, point: Text, fraction: Text)
    requires ParseUnsigned(s, negative).Some?
    ensures s == whole + point + fraction && DigitsOnly(whole) && DigitsOnly(fraction) && whole + fraction != []
    ensures point == [0x2e] || (point == [] && fraction == [])
  {
    var k := DigitRun(s);
    if k == |s| {
      whole, point, fraction := s, [], [];
    } else {
      whole, point, fraction := s[..k], [s[k]], s[k + 1..];
      assert forall i :: 0 <= i < |fraction| ==> IsDigit(fraction[i]);
    }
    assert s == whole + point + fraction;
  }

  /** A text is read as a number if and only if it is one of its spellings. */
  lemma ReadExactly(t: Text, x: Dec)
    ensures ParseDecimal(t) == Some(x) <==> IsNumber(t, x)
  {
    if IsNumber(t, x) { NumberIsRead(t, x); }
    if ParseDecimal(t) == Some(x) { ReadIsNumber(t, x); }
  }

  lemma NumberIsRead(t: Text, x: Dec)
    requires IsNumber(t, x)
    ensures ParseDecimal(t) == Some(x)
  {
    var a, core, b :| Framed(t, a, core, b) && IsCore(core, x);
    var sign, whole, point, fraction :| Spelled(core, sign, whole, point, fraction, x);
    SpelledIsRead(core, sign, whole, point, fraction, x);
    TrimOfFrame(a, core, b);
    ReadsUnsigned(t);
  }

  lemma ReadIsNumber(t: Text, x: Dec)
    requires ParseDecimal(t) == Some(x)
    ensures IsNumber(t, x)
  {
    var s := Trim(t);
    var a, b := TrimFrames(t);
    ReadsUnsigned(t);
    var negative := s != [] && s[0] == MINUS;
    var whole, point, fraction := UnsignedSplits(Unsigned(s), negative);
    CoreIsSpelled(s, whole, point, fraction, x);
  }

  lemma CoreIsSpelled(s: Text, whole: Text, point: Text, fraction: Text, x: Dec)
    requires Unsigned(s) == whole + point + fraction && DigitsOnly(whole) && DigitsOnly(fraction) && whole + fraction != []
    requires point == [0x2e] || (point == [] && fraction == [])
    requires ParseUnsigned(Unsigned(s), s != [] && s[0] == MINUS) == Some(x)
    ensures IsCore(s, x)
  {
    var sign := if s != [] && (s[0] == MINUS || s[0] == PLUS) then s[..1] else [];
    var digits := whole + fraction;
    UnsignedReads(Unsigned(s), whole, point, fraction, digits, Value(digits), s != [] && s[0] == MINUS);
    SignSplits(s, sign, whole, point, fraction);
    assert Spelled(s, sign, whole, point, fraction, x);
  }

  lemma SignSplits(s: Text, sign: Text, whole: Text, point: Text, fraction: Text)
    requires Unsigned(s) == whole + point + fraction && sign == if s != [] && (s[0] == MINUS || s[0] == PLUS) then s[..1] else []
    ensures s == sign + whole + point + fraction && (sign == [] || sign == [0x2b] || sign == [0x2d])
    ensures sign == [0x2d] <==> s != [] && s[0] == MINUS
  {
    assert s == sign + Unsigned(s);
    assert sign + (whole + point + fraction) == sign + whole + point + fraction;
  }

  // ----- Writing -----

  /** A minus sign for negative numbers only, whole digits without needless zeros, and `scale` digits behind
      a point if `scale` is not zero. */
  ghost predicate Written(unscaled: int, scale: nat, t: Text, sign: Text, whole: Text, fraction: Text) {
    && t == sign + whole + (if scale == 0 then [] else [0x2e]) + fraction
    && sign == (if unscaled < 0 then [0x2d] else [])
    && DigitsOnly(whole) && whole != [] && (whole[0] == 0x30 ==> |whole| == 1)
    && DigitsOnly(fraction) && |fraction| == scale
    && Value(whole + fraction) == if unscaled < 0 then -unscaled else unscaled
  }

  lemma FormatForm(unscaled: int, scale: nat) returns (sign: Text, whole: Text, fraction: Text)
    ensures Written(unscaled, scale, FormatDecimal(unscaled, scale), sign, whole, fraction)
  {
    var n: nat := if unscaled < 0 then -unscaled else unscaled;
    sign := if unscaled < 0 then [0x2d] else [];
    whole, fraction := BodyForm(n, scale);
    SignInFront(unscaled, scale, n, sign);
    Associates(sign, whole, if scale == 0 then [] else [0x2e], fraction);
  }

  lemma SignInFront(unscaled: int, scale: nat, n: nat, sign: Text)
    requires n == (if unscaled < 0 then -unscaled else unscaled) && sign == if unscaled < 0 then [0x2d] else []
    ensures FormatDecimal(unscaled, scale) == sign + Body(n, scale)
  {
    EmptyFront(Body(n, scale));
  }

  lemma EmptyFront(t: Text)
    ensures [] + t == t
  {}

  lemma Associates(a: Text, b: Text, c: Text, d: Text)
    ensures a + (b + c + d) == a + b + c + d
  {}

  lemma BodyForm(n: nat, scale: nat) returns (whole: Text, fraction: Text)
    ensures Body(n, scale) == whole + (if scale == 0 then [] else [0x2e]) + fraction
    ensures DigitsOnly(whole) && whole != [] && (whole[0] == 0x30 ==> |whole| == 1)
    ensures DigitsOnly(fraction) && |fraction| == scale && Value(whole + fraction) == n
  {
    LeadingZero(n);
    DigitsRoundTrip(n);
    if scale == 0 {
      whole, fraction := Digits(n), [];
      assert whole + [] == whole && whole + [] + [] == whole;
      ValueIs(whole);
    } else {
      var digits := Padded(n, scale);
      var cut := |digits| - scale;
      PaddedIsSame(n, scale);
      PaddedStarts(n, scale);
      whole, fraction := digits[..cut], digits[cut..];
      SplitDigits(digits, cut);
      ValueIs(digits);
    }
  }

  /** Only zero itself starts with a zero. */
  lemma LeadingZero(n: nat)
    ensures Digits(n)[0] == ZERO ==> |Digits(n)| == 1
  {
    DigitsRoundTrip(n);
  }

  /** Zeros are put in front only until one digit stands before the point. */
  lemma PaddedStarts(n: nat, scale: nat)
    ensures var d := Padded(n, scale); d[0] == ZERO ==> |d| == scale + 1
  {
    LeadingZero(n);
    if |Digits(n)| <= scale { ZeroCount(scale + 1 - |Digits(n)|); }
  }

  // ----- Sums and products -----

  /** The same value with more digits behind the point. */
  ghost predicate Aligned(x: Dec, scale: nat, unscaled: int) {
    x.scale <= scale && unscaled == x.unscaled * Pow10(scale - x.scale)
  }

  /** Sums keep the larger scale and are exact; ... */
  lemma SumIsExact(a: Text, b: Text, x: Dec, y: Dec) returns (s: nat, m: int, n: int)
    requires ParseDecimal(a) == Some(x) && ParseDecimal(b) == Some(y)
    ensures (s == x.scale || s == y.scale) && Aligned(x, s, m) && Aligned(y, s, n)
    ensures DecAdd(a, b).Decimal? && ParseDecimal(DecAdd(a, b).text) == Some(Dec(m + n, s))
  {
    s := MaxScale(x, y);
    m, n := At(x, s), At(y, s);
    FormatReads(DecAdd(a, b), Dec(m + n, s));
  }

  /** ... so do differences; ... */
  lemma DifferenceIsExact(a: Text, b: Text, x: Dec, y: Dec) returns (s: nat, m: int, n: int)
    requires ParseDecimal(a) == Some(x) && ParseDecimal(b) == Some(y)
    ensures (s == x.scale || s == y.scale) && Aligned(x, s, m) && Aligned(y, s, n)
    ensures DecSub(a, b).Decimal? && ParseDecimal(DecSub(a, b).text) == Some(Dec(m - n, s))
  {
    s := MaxScale(x, y);
    m, n := At(x, s), At(y, s);
    FormatReads(DecSub(a, b), Dec(m - n, s));
  }

  /** ... products add the scales. */
  lemma ProductIsExact(a: Text, b: Text, x: Dec, y: Dec) returns (p: Dec)
    requires ParseDecimal(a) == Some(x) && ParseDecimal(b) == Some(y)
    ensures p.unscaled == x.unscaled * y.unscaled && p.scale == x.scale + y.scale
    ensures DecMul(a, b).Decimal? && ParseDecimal(DecMul(a, b).text) == Some(p)
  {
    p := Times(x, y);
    FormatReads(DecMul(a, b), p);
  }

  lemma FormatReads(r: DecResult, x: Dec)
    requires r == Decimal(FormatDecimal(x.unscaled, x.scale))
    ensures r.Decimal? && ParseDecimal(r.text) == Some(x)
  {
    FormatRoundTrip(x.unscaled, x.scale);
  }

  /** Sums, differences and products refuse exactly what is no number; ... */
  lemma SumsRefuse(a: Text, b: Text)
    ensures (DecAdd(a, b) == MalformedDecimal || DecSub(a, b) == MalformedDecimal || DecMul(a, b) == MalformedDecimal)
      <==> ParseDecimal(a).None? || ParseDecimal(b).None?
    ensures (ParseDecimal(a).None? || ParseDecimal(b).None?) ==> DecAdd(a, b) == DecSub(a, b) == DecMul(a, b) == MalformedDecimal
  {}

  /** ... division refuses that and a scale outside 0 to 100, and after that a zero divisor; ... */
  lemma DivisionRefuses(a: Text, b: Text, scale: int, mode: RoundMode)
    ensures DecDiv(a, b, scale, mode) == MalformedDecimal <==> scale < 0 || scale > 100 || ParseDecimal(a).None? || ParseDecimal(b).None?
    ensures DecDiv(a, b, scale, mode) == DivideByZero <==>
      0 <= scale <= 100 && ParseDecimal(a).Some? && ParseDecimal(b).Some? && ParseDecimal(b).value.unscaled == 0
  {}

  /** ... and so does the remainder, which has no scale. */
  lemma RemainderRefuses(a: Text, b: Text)
    ensures DecRem(a, b) == MalformedDecimal <==> ParseDecimal(a).None? || ParseDecimal(b).None?
    ensures DecRem(a, b) == DivideByZero <==> ParseDecimal(a).Some? && ParseDecimal(b).Some? && ParseDecimal(b).value.unscaled == 0
  {}
}
