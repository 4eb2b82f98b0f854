/** Small things that several modules use. */
module Basics {
  datatype Option<T> = None | Some(value: T)

  /** Object pointers of the Smalltalk object memory. */
  type Oop = int
  const NIL: Oop := 2

  /** Machine addresses. */
  type Address = nat
  const NULL: Address := 0

  type Byte = b: int | 0 <= b < 256

  ghost predicate Distinct<T>(s: seq<T>) {
    forall i, j | 0 <= i < j < |s| :: s[i] != s[j]
  }

  // ---------- products and quotients ----------

  lemma ProductGrows(a: int, b: int, c: nat)
    requires a <= b
    ensures a * c <= b * c
  {
  }

  lemma ProductsGrow(a: nat, b: nat, x: nat, y: nat)
    requires a <= b && x <= y
    ensures a * x <= b * y
    ensures 1 <= a && 1 <= x ==> 1 <= a * x
  {
    assert a * x <= b * x;
    assert b * x <= b * y;
  }

  lemma Quotient(a: int, d: int, q: int)
    requires 0 < d && q * d <= a < q * d + d
    ensures a / d == q
  {
    var p := a / d;
    assert a == p * d + a % d;
    assert p < q ==> (p + 1) * d <= q * d;
    assert q < p ==> (q + 1) * d <= p * d;
  }

  lemma Division(a: nat, d: nat)
    requires 0 < d
    ensures a == a / d * d + a % d && 0 <= a % d < d
  {
  }

  lemma Remainder(a: nat, d: nat, q: nat, r: nat)
    requires a == q * d + r && r < d
    ensures a / d == q && a % d == r
  {
    Quotient(a, d, q);
    Division(a, d);
  }

  lemma QuotientGrows(a: nat, b: nat, d: nat)
    requires a <= b && 0 < d
    ensures a / d <= b / d
  {
    var p, q := a / d, b / d;
    assert a == p * d + a % d && b == q * d + b % d;
    assert q < p ==> (q + 1) * d <= p * d;
  }
}
