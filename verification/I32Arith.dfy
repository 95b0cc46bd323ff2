/** Strict-trapping 32-bit integer arithmetic (`i32-arith.ts`).
    Operands are i32; a result that leaves the i32 range is a trap, never a wrapped value. */
module I32Arith {

  const I32_MIN := -0x8000_0000
  const I32_MAX := 0x7fff_ffff

  type Int32 = x: int | I32_MIN <= x <= I32_MAX

  datatype TrapKind = IntegerOverflow | DivisionByZero

  datatype I32Result = Value(v: Int32) | Trap(kind: TrapKind)

  /** JavaScript's `x | 0` on an exact integer: reduction modulo 2^32 into the signed range. */
  function ToInt32(x: int): (r: Int32)
    ensures I32_MIN <= x <= I32_MAX ==> r == x
    ensures exists k: int :: x == r + k * 0x1_0000_0000
  {
    var r := (x + 0x8000_0000) % 0x1_0000_0000 - 0x8000_0000;
    assert x == r + ((x + 0x8000_0000) / 0x1_0000_0000) * 0x1_0000_0000;
    r
  }

  /** What every operation is meant to return: the mathematical result, or the overflow trap. */
  function Exact(x: int): I32Result {
    if I32_MIN <= x <= I32_MAX then Value(x) else Trap(IntegerOverflow)
  }

  /** Integer division rounding toward zero, on the whole numbers. */
  function TruncQuotient(a: int, b: int): int
    requires b != 0
  {
    if (a >= 0) == (b > 0) then Abs(a) / Abs(b) else -(Abs(a) / Abs(b))
  }

  function Abs(x: int): nat {
    if x < 0 then -x else x
  }

  /** JavaScript's `Math.trunc` on a real. */
  function TruncReal(x: real): int {
    if x >= 0.0 then x.Floor else -((-x).Floor)
  }

  /** JavaScript's `%`: the remainder takes the sign of the dividend. */
  function RemainderJs(a: int, b: int): int
    requires b != 0
  {
    if a >= 0 then a % Abs(b) else -((-a) % Abs(b))
  }

  function AddChecked(a: Int32, b: Int32): (r: I32Result)
    ensures r == Exact(a + b)
  {
    var x := a + b;
    if x < I32_MIN || x > I32_MAX then Trap(IntegerOverflow) else Value(ToInt32(x))
  }

  function SubChecked(a: Int32, b: Int32): (r: I32Result)
    ensures r == Exact(a - b)
  {
    var x := a - b;
    if x < I32_MIN || x > I32_MAX then Trap(IntegerOverflow) else Value(ToInt32(x))
  }

  /** The fast path skips the range check: it agrees with the exact product all the same. */
  function MulChecked(a: Int32, b: Int32): (r: I32Result)
    ensures r == Exact(a * b)
  {
    if a >= -46340 && a <= 46340 && b >= -46340 && b <= 46340 then
      SmallProduct(a, b);
      Value(ToInt32(a * b))
    else
      var p := a * b;
      if p < I32_MIN || p > I32_MAX then Trap(IntegerOverflow) else Value(ToInt32(p))
  }

  lemma SmallProduct(a: int, b: int)
    requires -46340 <= a <= 46340 && -46340 <= b <= 46340
    ensures I32_MIN <= a * b <= I32_MAX
  {
    assert Abs(a) * Abs(b) <= 46340 * 46340 by {
      MulLe(Abs(a), Abs(b), 46340);
    }
    assert a * b == Abs(a) * Abs(b) || a * b == -(Abs(a) * Abs(b));
  }

  lemma MulLe(x: nat, y: nat, n: nat)
    requires x <= n && y <= n
    ensures x * y <= n * n
  {
    assert x * y <= n * y;
    assert n * y <= n * n;
  }

  function DivChecked(a: Int32, b: Int32): (r: I32Result)
    ensures b == 0 ==> r == Trap(DivisionByZero)
    ensures b != 0 ==> r == Exact(TruncQuotient(a, b))
  {
    if b == 0 then Trap(DivisionByZero)
    else if a == I32_MIN && b == -1 then Trap(IntegerOverflow)
    else
      QuotientBound(a, b);
      TruncRealIsQuotient(a, b);
      Value(ToInt32(TruncReal(a as real / b as real)))
  }

  function ModChecked(a: Int32, b: Int32): (r: I32Result)
    ensures b == 0 ==> r == Trap(DivisionByZero)
    ensures b != 0 ==> r == Value(RemainderJs(a, b))
  {
    if b == 0 then Trap(DivisionByZero) else Value(ToInt32(RemainderJs(a, b)))
  }

  function NegChecked(a: Int32): (r: I32Result)
    ensures r == Exact(0 - a)
  {
    SubChecked(0, a)
  }

  /** Truncating the real quotient is the whole-number quotient toward zero. */
  lemma TruncRealIsQuotient(a: int, b: int)
    requires b != 0
    ensures TruncReal(a as real / b as real) == TruncQuotient(a, b)
  {
    var n, d := Abs(a), Abs(b);
    FloorOfQuotient(n, d);
    var x := a as real / b as real;
    var y := n as real / d as real;
    if (a >= 0) == (b > 0) {
      assert x == y by { if b < 0 { NegateBoth(a as real, b as real); } }
      assert y >= 0.0;
    } else {
      assert x == -y by {
        if b < 0 { NegateDivisor(a as real, b as real); } else { NegateDividend(a as real, b as real); }
      }
    }
  }

  lemma NegateBoth(x: real, y: real)
    requires y != 0.0
    ensures x / y == (-x) / (-y)
  {}

  lemma NegateDivisor(x: real, y: real)
    requires y != 0.0
    ensures x / y == -(x / (-y))
  {}

  lemma NegateDividend(x: real, y: real)
    requires y != 0.0
    ensures x / y == -((-x) / y)
  {}

  lemma FloorOfQuotient(n: nat, d: nat)
    requires d > 0
    ensures n as real / d as real >= 0.0
    ensures (n as real / d as real).Floor == n / d
  {
    var q, m := n / d, n % d;
    assert n == q * d + m;
    var x := n as real / d as real;
    var f := m as real / d as real;
    assert (q * d) as real == q as real * d as real;
    assert n as real == q as real * d as real + m as real;
    assert x == q as real + f;
    FractionBelowOne(m as real, d as real);
    assert n as real / d as real == (q as real * d as real) / d as real + f;
  }

  lemma FractionBelowOne(m: real, d: real)
    requires 0.0 <= m < d
    ensures 0.0 <= m / d < 1.0
  {
    assert m == (m / d) * d;
    if m / d >= 1.0 { MulMonotone(1.0, m / d, d); }
  }

  lemma MulMonotone(x: real, y: real, d: real)
    requires x <= y && d > 0.0
    ensures x * d <= y * d
  {}

  lemma QuotientBound(a: int, b: int)
    requires b != 0
    ensures Abs(TruncQuotient(a, b)) <= Abs(a)
    ensures b != -1 && b != 1 ==> 2 * Abs(TruncQuotient(a, b)) <= Abs(a)
    ensures b == -1 ==> TruncQuotient(a, b) == -a
    ensures b == 1 ==> TruncQuotient(a, b) == a
  {
    var n, d := Abs(a), Abs(b);
    assert n == (n / d) * d + n % d;
    if d >= 2 {
      assert (n / d) * d >= (n / d) * 2;
    }
  }

  /** Division and remainder belong together: the dividend is rebuilt exactly, the remainder is
      smaller than the divisor and never has the opposite sign to the dividend. */
  lemma DivModLaw(a: Int32, b: Int32)
    requires DivChecked(a, b).Value?
    ensures ModChecked(a, b).Value?
    ensures a == DivChecked(a, b).v * b + ModChecked(a, b).v
    ensures Abs(ModChecked(a, b).v) < Abs(b)
    ensures a * ModChecked(a, b).v >= 0
  {
    QuotientTimesDivisor(a, b);
    var m: int := Abs(a) % Abs(b);
    assert RemainderJs(a, b) == if a >= 0 then m else -m;
    SameSign(a, m);
  }

  lemma QuotientTimesDivisor(a: int, b: int)
    requires b != 0
    ensures a == TruncQuotient(a, b) * b + RemainderJs(a, b)
  {
    var n: int, d: int := Abs(a), Abs(b);
    var k: int := n / d;
    SignedProduct(k, d, b, a >= 0);
    assert TruncQuotient(a, b) == if (a >= 0) == (b > 0) then k else -k;
    assert n == k * d + n % d;
  }

  lemma SignedProduct(k: int, d: int, b: int, positive: bool)
    requires d >= 0
    requires b == d || b == -d
    requires b != 0
    ensures (if positive == (b > 0) then k else -k) * b == if positive then k * d else -(k * d)
  {}

  lemma SameSign(a: int, m: int)
    requires m >= 0
    ensures a >= 0 ==> a * m >= 0
    ensures a < 0 ==> a * (-m) >= 0
  {}
}
