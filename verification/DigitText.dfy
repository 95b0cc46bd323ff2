/** Text as a sequence of UTF-16 code units, and numbers written in decimal digits. */
module DigitText {

  type Unit = u: int | 0 <= u < 0x10000

  type Text = seq<Unit>

  const MINUS: Unit := 0x2d
  const ZERO: Unit := 0x30

  predicate IsDigit(u: Unit) {
    0x30 <= u <= 0x39
  }

  function Digits(n: nat): (t: Text)
    ensures t != []
  {
    if n < 10 then [ZERO + n] else Digits(n / 10) + [ZERO + n % 10]
  }

  function NumberText(n: int): Text {
    if n < 0 then [MINUS] + Digits(-n) else Digits(n)
  }

  /** How many digits the text starts with. */
  function DigitRun(t: Text): (k: nat)
    ensures k <= |t| && forall i :: 0 <= i < k ==> IsDigit(t[i])
    ensures k < |t| ==> !IsDigit(t[k])
  {
    if t == [] || !IsDigit(t[0]) then 0 else 1 + DigitRun(t[1..])
  }

  function DigitsValue(t: Text): nat
    requires forall i :: 0 <= i < |t| ==> IsDigit(t[i])
  {
    if t == [] then 0
    else
      assert IsDigit(t[|t| - 1]);
      DigitsValue(t[..|t| - 1]) * 10 + (t[|t| - 1] - ZERO)
  }

  lemma {:induction false} DigitsRoundTrip(n: nat)
    ensures forall i :: 0 <= i < |Digits(n)| ==> IsDigit(Digits(n)[i])
    ensures DigitsValue(Digits(n)) == n && (Digits(n)[0] == ZERO <==> n == 0)
  {
    if n >= 10 {
      DigitsRoundTrip(n / 10);
      assert Digits(n)[..|Digits(n)| - 1] == Digits(n / 10);
    }
  }

  lemma {:induction false} RunOfDigits(d: Text, post: Text)
    requires (forall i :: 0 <= i < |d| ==> IsDigit(d[i])) && (post != [] ==> !IsDigit(post[0]))
    ensures DigitRun(d + post) == |d|
  {
    if d == [] { assert d + post == post; } else {
      RunOfDigits(d[1..], post);
      assert (d + post)[1..] == d[1..] + post;
    }
  }

  // ----- Numbers inside names -----

  function Ascii(t: Text): string {
    seq(|t|, i requires 0 <= i < |t| => if t[i] < 128 then t[i] as char else '?')
  }

  function NatName(n: nat): string {
    Ascii(Digits(n))
  }

  lemma NatNameInjective(m: nat, n: nat)
    requires NatName(m) == NatName(n)
    ensures m == n
  {
    DigitsRoundTrip(m);
    DigitsRoundTrip(n);
    var a, b := Digits(m), Digits(n);
    assert |a| == |NatName(m)| == |NatName(n)| == |b|;
    forall i | 0 <= i < |a| ensures a[i] == b[i] {
      assert IsDigit(a[i]) && IsDigit(b[i]);
      assert NatName(m)[i] == a[i] as char && NatName(n)[i] == b[i] as char;
      assert (a[i] as char) as int == (b[i] as char) as int;
    }
    assert a == b;
  }

  // ----- Decimal strings -----

  /** Digits without a leading zero that add up to `n`. */
  ghost predicate IsDecimal(t: string, n: nat) {
    t != "" && (t[0] == '0' ==> |t| == 1) && AllDecimal(t) && DecimalValue(t) == n
  }

  ghost predicate AllDecimal(t: string) {
    forall i :: 0 <= i < |t| ==> '0' <= t[i] <= '9'
  }

  ghost function DecimalValue(t: string): int {
    if t == "" then 0 else 10 * DecimalValue(t[..|t| - 1]) + (t[|t| - 1] as int - '0' as int)
  }

  lemma {:induction false} AsciiDecimal(t: Text)
    requires forall i :: 0 <= i < |t| ==> IsDigit(t[i])
    ensures AllDecimal(Ascii(t)) && DecimalValue(Ascii(t)) == DigitsValue(t)
  {
    if t != [] {
      assert IsDigit(t[|t| - 1]);
      AsciiDecimal(t[..|t| - 1]);
      assert Ascii(t)[..|t| - 1] == Ascii(t[..|t| - 1]);
    }
  }

  /** A number inside a name is written in decimal. */
  lemma NatNameIsDecimal(n: nat)
    ensures IsDecimal(NatName(n), n)
  {
    DigitsRoundTrip(n);
    AsciiDecimal(Digits(n));
  }
}
