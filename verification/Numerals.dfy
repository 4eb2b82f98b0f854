/** Digits and the numbers they stand for, and printing numbers (`ntoa`). */
module Numerals {
  import opened Basics

  /** How many values `unsigned long` has: 2^32 or 2^64. */
  const SPAN_32 := 0x1_0000_0000
  const SPAN_64 := 0x1_0000_0000_0000_0000

  type Span = n: nat | n == SPAN_32 || n == SPAN_64 witness SPAN_32

  const MAX_NUMBER_LEN := 22
  const END := '\0'

  type Digits = seq<nat>

  /** The number that digits stand for, the most significant first. */
  function Value(ds: Digits, b: nat): nat {
    if ds == [] then 0 else Value(ds[..|ds| - 1], b) * b + ds[|ds| - 1]
  }

  lemma ValueOfMore(ds: Digits, d: nat, b: nat)
    ensures Value(ds + [d], b) == Value(ds, b) * b + d
  {
    assert (ds + [d])[..|ds|] == ds;
  }

  /** Reading more digits never makes the number smaller. */
  lemma {:induction false} ValueGrows(ds: Digits, n: nat, b: nat)
    requires n <= |ds| && 1 <= b
    ensures Value(ds[..n], b) <= Value(ds, b)
    decreases |ds|
  {
    if n < |ds| {
      var rest := ds[..|ds| - 1];
      ValueGrows(rest, n, b);
      assert rest[..n] == ds[..n];
      ProductsGrow(Value(rest, b), Value(rest, b), 1, b);
    } else {
      assert ds[..n] == ds;
    }
  }

  ghost predicate DigitsOf(ds: Digits, b: nat) { forall d | d in ds :: d < b }

  /** What `ntoa` is to print: digits of the base without leading zeros. */
  ghost predicate Numeral(ds: Digits, b: nat) {
    ds != [] && DigitsOf(ds, b) && (ds[0] == 0 ==> |ds| == 1)
  }

  function CharOf(d: nat, upcase: bool): char
    requires d < 36
  {
    if d < 10 then ('0' as int + d) as char else ('0' as int + d + 7 + (if upcase then 0 else 0x20)) as char
  }

  ghost function Text(ds: Digits, upcase: bool): (t: string)
    requires DigitsOf(ds, 36)
    ensures |t| == |ds| && forall i | 0 <= i < |t| :: ds[i] < 36 && t[i] == CharOf(ds[i], upcase)
  {
    assert forall i | 0 <= i < |ds| :: ds[i] in ds;
    seq(|ds|, i requires 0 <= i < |ds| && ds[i] < 36 => CharOf(ds[i], upcase))
  }

  // ---------- powers ----------

  function Pow(b: nat, e: nat): nat {
    if e == 0 then 1 else b * Pow(b, e - 1)
  }

  lemma {:induction false} PowGrows(b: nat, c: nat, e: nat)
    requires 1 <= b <= c
    ensures 1 <= Pow(b, e) <= Pow(c, e)
  {
    if e > 0 {
      PowGrows(b, c, e - 1);
      ProductsGrow(b, c, Pow(b, e - 1), Pow(c, e - 1));
    }
  }

  lemma {:induction false} PowLess(b: nat, d: nat, e: nat)
    requires 1 <= b && d <= e
    ensures Pow(b, d) <= Pow(b, e)
    decreases e
  {
    if d < e {
      PowLess(b, d, e - 1);
      PowGrows(b, b, e - 1);
      ProductsGrow(1, b, Pow(b, e - 1), Pow(b, e - 1));
    }
  }

  /** 22 digits are enough from base 8 on. */
  lemma ExponentBound(b: nat, e: nat)
    requires 2 <= b && Pow(b, e) < SPAN_64
    ensures e < MaxDigits(b)
  {
    if 64 <= e {
      PowLess(b, 64, e);
      PowGrows(2, b, 64);
    }
    if 8 <= b && 22 <= e {
      PowLess(b, 22, e);
      PowGrows(8, b, 22);
    }
    TwoTo64();
    EightTo22();
  }

  function MaxDigits(b: nat): nat { if b < 8 then 64 else MAX_NUMBER_LEN }

  lemma TwoTo64()
    ensures Pow(2, 64) == SPAN_64
  {
    var p := e => Pow(2, e);
    assert p(8) == 256;
    assert p(16) == 256 * p(8);
    assert p(24) == 256 * p(16);
    assert p(32) == 256 * p(24);
    assert p(40) == 256 * p(32);
    assert p(48) == 256 * p(40);
    assert p(56) == 256 * p(48);
  }

  lemma EightTo22()
    ensures Pow(8, 22) == 4 * SPAN_64
  {
    var p := e => Pow(8, e);
    assert p(4) == 4096;
    assert p(8) == 4096 * p(4);
    assert p(12) == 4096 * p(8);
    assert p(16) == 4096 * p(12);
    assert p(20) == 4096 * p(16);
  }

  // ---------- printing ----------

  lemma DivideAgain(n: nat, d: nat, b: nat)
    requires 0 < d && n / d >= b
    ensures d * b <= n
  {
    var q := n / d;
    assert n == d * q + n % d;
    ProductsGrow(d, d, b, q);
  }

  /** One more digit: what is left of the number after taking q at divisor d. */
  lemma TakeDigit(n: nat, v: nat, d: nat, b: nat, r: nat)
    requires 0 < d && n == v * (d * b) + r && r < d * b
    ensures r / d < b
    ensures n == (v * b + r / d) * d + r % d && r % d < d
  {
    var q := r / d;
    assert r == d * q + r % d;
    if q >= b {
      ProductsGrow(d, d, b, q);
      assert false;
    }
    assert v * (d * b) == v * b * d;
  }

  lemma DivisorStep(b: nat, e: nat)
    requires 2 <= b
    ensures e == 0 ==> Pow(b, e) / b == 0
    ensures e > 0 ==> Pow(b, e) / b == Pow(b, e - 1) && Pow(b, e) == Pow(b, e - 1) * b
  {
    if e > 0 {
      Exact(b, Pow(b, e - 1));
    }
  }

  lemma Exact(b: nat, x: nat)
    requires 0 < b
    ensures b * x / b == x
  {
    assert x * b == b * x;
    Quotient(b * x, b, x);
  }

  /** The largest power of the base that is not above the number. No product overflows. */
  method Divisor(span: Span, number: nat, base: nat) returns (divisor: nat, ghost e: nat)
    requires number < span && 2 <= base <= 36
    ensures divisor == Pow(base, e) && 0 < divisor < span && number / divisor < base
    ensures e > 0 ==> divisor <= number
  {
    divisor, e := 1, 0;
    while number / divisor >= base
      invariant divisor == Pow(base, e) && 0 < divisor < span
      invariant e > 0 ==> divisor <= number
      decreases number - divisor
    {
      DivideAgain(number, divisor, base);
      ProductsGrow(divisor, divisor, 2, base);
      divisor := divisor * base;
      e := e + 1;
    }
  }

  /** The digits already printed and what is left of the number. */
  ghost predicate Split(number: nat, ds: Digits, b: nat, e: nat, divisor: nat, rest: nat) {
    && divisor == Pow(b, e) && 0 < divisor && DigitsOf(ds, b)
    && number == Value(ds, b) * (divisor * b) + rest && rest < divisor * b
  }

  lemma SplitStep(number: nat, ds: Digits, b: nat, e: nat, divisor: nat, rest: nat)
    requires 2 <= b && Split(number, ds, b, e, divisor, rest)
    ensures 0 <= rest / divisor < b && 0 <= rest % divisor && 0 <= divisor / b && DigitsOf(ds + [rest / divisor], b)
    ensures e > 0 ==> divisor / b > 0 && Split(number, ds + [rest / divisor], b, e - 1, divisor / b, rest % divisor)
    ensures e == 0 ==> divisor / b == 0 && Value(ds + [rest / divisor], b) == number
  {
    TakeDigit(number, Value(ds, b), divisor, b, rest);
    ValueOfMore(ds, rest / divisor, b);
    DivisorStep(b, e);
    PowGrows(b, b, if e > 0 then e - 1 else 0);
  }

  /** Prints a number into a buffer; at most 22 digits from base 8 on. */
  method Ntoa(span: Span, dest: array<char>, number: nat, base: nat, upcase: bool) returns (ghost ds: Digits)
    requires number < span && 2 <= base <= 36
    requires dest.Length > MaxDigits(base)
    modifies dest
    ensures Numeral(ds, base) && Value(ds, base) == number && |ds| <= MaxDigits(base)
    ensures dest[..|ds|] == Text(ds, upcase) && dest[|ds|] == '\0'
    ensures forall i | |ds| < i < dest.Length :: dest[i] == old(dest[i])
  {
    hide Pow, Value, DigitsOf, CharOf;
    ghost var e: nat;
    var divisor: nat;
    divisor, e := Divisor(span, number, base);
    FirstSplit(number, base, e, divisor);
    var digit := number / divisor;
    var rest: nat, p: nat := number, 0;
    ds := [];
    ghost var length := e + 1;
    while true
      invariant e + p + 1 == length && p == |ds| && length <= MaxDigits(base)
      invariant Split(number, ds, base, e, divisor, rest) && digit == rest / divisor
      invariant DigitsOf(ds, 36) && dest[..p] == Text(ds, upcase)
      invariant forall i | p <= i < dest.Length :: dest[i] == old(dest[i])
      invariant if ds == [] then rest == number && (e > 0 ==> 0 < digit) else ds[0] == 0 ==> length == 1
      decreases e
    {
      SplitStep(number, ds, base, e, divisor, rest);
      DigitsOfMore(ds, digit, base);
      rest := rest % divisor;
      dest[p] := CharOf(digit, upcase);
      p := p + 1;
      ds := ds + [digit];
      divisor := divisor / base;
      if divisor == 0 {
        break;
      }
      e := e - 1;
      digit := rest / divisor;
    }
    dest[p] := END;
  }

  lemma FirstSplit(number: nat, b: nat, e: nat, divisor: nat)
    requires 2 <= b && divisor == Pow(b, e) && 0 < divisor < SPAN_64 && number / divisor < b
             && (e > 0 ==> divisor <= number)
    ensures Split(number, [], b, e, divisor, number) && e < MaxDigits(b)
    ensures e > 0 ==> 0 < number / divisor
    ensures DigitsOf([], 36)
  {
    ExponentBound(b, e);
    QuotientBounds(number, divisor);
    ProductsGrow(divisor, divisor, number / divisor + 1, b);
    assert Value([], b) * (divisor * b) == 0;
  }

  lemma QuotientBounds(n: nat, d: nat)
    requires 0 < d
    ensures n < d * (n / d + 1)
    ensures d <= n ==> 0 < n / d
  {
    var q := n / d;
    assert n == d * q + n % d;
    assert d * (q + 1) == d * q + d;
    assert q == 0 ==> d * q == 0;
  }

  lemma DigitsOfMore(ds: Digits, d: nat, b: nat)
    requires d < b <= 36 && DigitsOf(ds, b)
    ensures DigitsOf(ds + [d], b) && DigitsOf(ds + [d], 36)
  {
  }
}
