/** Machine words of the drivers: 32- and 64-bit unsigned integers, the way a
    64-bit bus address is stored as two 32-bit halves, and rounding up. */
module Words {

  datatype Option<T> = None | Some(value: T)

  const TWO32: int := 0x1_0000_0000
  const TWO64: int := 0x1_0000_0000_0000_0000

  type u32 = x: int | 0 <= x < 0x1_0000_0000
  type u64 = x: int | 0 <= x < 0x1_0000_0000_0000_0000

  function Wrap32(x: int): u32 { x % 0x1_0000_0000 }

  function Wrap64(x: int): u64 { x % 0x1_0000_0000_0000_0000 }

  /** PCI_DMA_L, PCI_DMA_H and the address the hardware reads back from the two halves. */
  function Lo(a: u64): u32 { a % 0x1_0000_0000 }

  function Hi(a: u64): u32 { a / 0x1_0000_0000 }

  function Join(lo: u32, hi: u32): u64 { hi * 0x1_0000_0000 + lo }

  lemma JoinHalves(a: u64)
    ensures Join(Lo(a), Hi(a)) == a
  {
  }

  lemma WrapAdd(x: int, k: int)
    ensures Wrap64(Wrap64(x) + k) == Wrap64(x + k)
  {
  }

  function Min(a: int, b: int): int { if a <= b then a else b }

  function CeilDiv(a: nat, b: nat): nat
    requires b > 0
  {
    (a + b - 1) / b
  }

  /** Removing one full unit removes one from the rounded-up quotient. */
  lemma CeilDivStep(a: nat, b: nat)
    requires b > 0
    ensures a > b ==> CeilDiv(a, b) == 1 + CeilDiv(a - b, b)
    ensures 0 < a <= b ==> CeilDiv(a, b) == 1
    ensures a == 0 ==> CeilDiv(a, b) == 0
  {
    if a > b {
      var q := CeilDiv(a - b, b);
      var r := (a - b + b - 1) % b;
      assert a + b - 1 == (q + 1) * b + r;
      DivUnique(a + b - 1, b, q + 1, r);
    } else if 0 < a {
      DivUnique(a + b - 1, b, 1, a - 1);
    } else {
      DivUnique(b - 1, b, 0, b - 1);
    }
  }

  lemma DivUnique(x: int, b: int, q: int, r: int)
    requires b > 0 && 0 <= r < b && x == q * b + r
    ensures x / b == q && x % b == r
  {
    var q', r' := x / b, x % b;
    var d := q - q';
    assert d * b == r' - r by {
      assert x == q' * b + r';
    }
    MulAtLeast(d, b);
    MulAtLeast(-d, b);
  }

  lemma MulAtLeast(d: int, b: int)
    requires b > 0
    ensures d >= 1 ==> d * b >= b
    ensures (-d) * b == -(d * b)
  {
  }
}
