/** The masks `x & (n - 1)` of the drivers, and when they are remainders. */
module Masks {
  import opened Words

  /** Bitwise and. */
  function And(a: nat, b: nat): (r: nat)
    ensures r <= b
  {
    if a == 0 || b == 0 then 0 else 2 * And(a / 2, b / 2) + (if a % 2 == 1 && b % 2 == 1 then 1 else 0)
  }

  /** Bitwise or. */
  function Or(a: nat, b: nat): nat {
    if a == 0 && b == 0 then 0
    else 2 * Or(a / 2, b / 2) + (if a % 2 == 1 || b % 2 == 1 then 1 else 0)
  }

  lemma {:induction false} OrZero(b: nat)
    ensures Or(0, b) == b
  {
    if b != 0 {
      OrZero(b / 2);
    }
  }

  /** Bit k of a number. */
  predicate Bit(x: nat, k: nat) { x / Pow2(k) % 2 == 1 }

  lemma BitStep(x: nat, k: nat)
    ensures Bit(x, 0) <==> x % 2 == 1
    ensures Bit(x, k + 1) <==> Bit(x / 2, k)
  {
    var p, h, b := Pow2(k), x / 2, x % 2;
    var q, r := h / p, h % p;
    assert h == q * p + r && Pow2(k + 1) == 2 * p;
    TwiceProduct(q, p);
    DivUnique(x, 2 * p, q, 2 * r + b);
  }

  lemma Doubled(x: nat, b: nat)
    requires b < 2
    ensures (2 * x + b) / 2 == x && (2 * x + b) % 2 == b
  {
  }

  /** Both work bit by bit. */
  lemma {:induction false} AndBits(a: nat, b: nat, k: nat)
    ensures Bit(And(a, b), k) <==> Bit(a, k) && Bit(b, k)
    decreases k
  {
    AndStep(a, b);
    hide And, Bit;
    BitStep(a, if k == 0 then 0 else k - 1);
    BitStep(b, if k == 0 then 0 else k - 1);
    BitStep(And(a, b), if k == 0 then 0 else k - 1);
    if k > 0 {
      AndBits(a / 2, b / 2, k - 1);
    }
  }

  lemma AndStep(a: nat, b: nat)
    ensures And(a, b) / 2 == And(a / 2, b / 2)
    ensures And(a, b) % 2 == if a % 2 == 1 && b % 2 == 1 then 1 else 0
  {
    Doubled(And(a / 2, b / 2), if a % 2 == 1 && b % 2 == 1 then 1 else 0);
  }

  lemma {:induction false} OrBits(a: nat, b: nat, k: nat)
    ensures Bit(Or(a, b), k) <==> Bit(a, k) || Bit(b, k)
    decreases k
  {
    OrStep(a, b);
    hide Or, Bit;
    BitStep(a, if k == 0 then 0 else k - 1);
    BitStep(b, if k == 0 then 0 else k - 1);
    BitStep(Or(a, b), if k == 0 then 0 else k - 1);
    if k > 0 {
      OrBits(a / 2, b / 2, k - 1);
    }
  }

  lemma OrStep(a: nat, b: nat)
    ensures Or(a, b) / 2 == Or(a / 2, b / 2)
    ensures Or(a, b) % 2 == if a % 2 == 1 || b % 2 == 1 then 1 else 0
  {
    Doubled(Or(a / 2, b / 2), if a % 2 == 1 || b % 2 == 1 then 1 else 0);
  }

  function Rem(x: nat, m: nat): nat
    requires m > 0
  {
    x % m
  }

  function Pow2(n: nat): (p: nat)
    ensures p > 0
  {
    if n == 0 then 1 else 2 * Pow2(n - 1)
  }

  /** Below a power of two the mask is the remainder. */
  lemma {:induction false} MaskIsRemainder(x: nat, n: nat)
    ensures And(x, Pow2(n) - 1) == Rem(x, Pow2(n))
    decreases n
  {
    hide And, Rem;
    if n == 0 {
      MaskOfNothing(x);
    } else {
      var p := Pow2(n - 1);
      MaskIsRemainder(x / 2, n - 1);
      MaskStep(x, p);
      RemainderStep(x, p);
    }
  }

  lemma MaskOfNothing(x: nat)
    ensures And(x, 0) == Rem(x, 1)
  {
  }

  lemma MaskStep(x: nat, p: nat)
    requires p > 0
    ensures And(x, 2 * p - 1) == 2 * And(x / 2, p - 1) + x % 2
  {
    assert (2 * p - 1) / 2 == p - 1 && (2 * p - 1) % 2 == 1;
  }

  lemma RemainderStep(x: nat, p: nat)
    requires p > 0
    ensures Rem(x, 2 * p) == 2 * Rem(x / 2, p) + x % 2
  {
    var h, b := x / 2, x % 2;
    var q, r := h / p, h % p;
    assert h == q * p + r;
    TwiceProduct(q, p);
    DivUnique(x, 2 * p, q, 2 * r + b);
  }

  lemma TwiceProduct(q: nat, p: nat)
    ensures q * (2 * p) == 2 * (q * p)
  {
  }
}
