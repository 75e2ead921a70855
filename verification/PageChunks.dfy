/** struct page_chunk and its bytes in the escape buffer: three little-endian 64-bit words. */
module PageChunks {
  import opened Words

  type byte = x: int | 0 <= x < 256

  /** addr holds a guest pfn on the way in and a host address after translation. */
  datatype PageChunk = PageChunk(addr: u64, offset: u64, nbytes: u64)

  function LeBytes(x: nat, n: nat): (bs: seq<byte>)
    ensures |bs| == n
    decreases n
  {
    if n == 0 then [] else [x % 256] + LeBytes(x / 256, n - 1)
  }

  function LeValue(bs: seq<byte>): nat {
    if bs == [] then 0 else bs[0] + 256 * LeValue(bs[1..])
  }

  function Pow256(n: nat): (p: nat)
    ensures p > 0
  {
    if n == 0 then 1 else 256 * Pow256(n - 1)
  }

  lemma {:induction false} LeRoundTrip(x: nat, n: nat)
    requires x < Pow256(n)
    ensures LeValue(LeBytes(x, n)) == x
    decreases n
  {
    if n > 0 {
      LeRoundTrip(x / 256, n - 1);
      assert LeBytes(x, n)[1..] == LeBytes(x / 256, n - 1);
    }
  }

  lemma {:induction false} LeBounded(bs: seq<byte>)
    ensures LeValue(bs) < Pow256(|bs|)
  {
    if bs != [] {
      LeBounded(bs[1..]);
    }
  }

  lemma {:induction false} LeByte(x: nat, n: nat, j: nat)
    requires j < n
    ensures LeBytes(x, n)[j] == x / Pow256(j) % 256
    decreases j
  {
    if j > 0 {
      LeByte(x / 256, n - 1, j - 1);
      NestedQuotient(x, Pow256(j - 1));
    }
  }

  lemma NestedQuotient(x: nat, p: nat)
    requires p > 0
    ensures x / 256 / p == x / (256 * p)
  {
    var h, b := x / 256, x % 256;
    var q, r := h / p, h % p;
    assert h == q * p + r;
    assert q * (256 * p) == 256 * (q * p);
    DivUnique(x, 256 * p, q, 256 * r + b);
  }

  lemma Pow256Of8()
    ensures Pow256(8) == 0x1_0000_0000_0000_0000
  {
  }

  function Word8(bs: seq<byte>): u64
    requires |bs| == 8
  {
    LeBounded(bs);
    Pow256Of8();
    LeValue(bs)
  }

  function EncodeChunk(c: PageChunk): (bs: seq<byte>)
    ensures |bs| == 24
  {
    LeBytes(c.addr, 8) + LeBytes(c.offset, 8) + LeBytes(c.nbytes, 8)
  }

  function DecodeChunk(bs: seq<byte>): PageChunk
    requires |bs| == 24
  {
    PageChunk(Word8(bs[..8]), Word8(bs[8..16]), Word8(bs[16..]))
  }

  lemma ChunkRoundTrip(c: PageChunk)
    ensures DecodeChunk(EncodeChunk(c)) == c
  {
    Pow256Of8();
    LeRoundTrip(c.addr, 8);
    LeRoundTrip(c.offset, 8);
    LeRoundTrip(c.nbytes, 8);
    var a, b, d := LeBytes(c.addr, 8), LeBytes(c.offset, 8), LeBytes(c.nbytes, 8);
    hide LeBytes, LeValue, Pow256;
    var bs := a + b + d;
    assert bs[..8] == a && bs[8..16] == b && bs[16..] == d;
  }

  /** The bytes of an array of chunks, and reading n of them back. */
  function EncodeAll(cs: seq<PageChunk>): (bs: seq<byte>)
    ensures |bs| == 24 * |cs|
  {
    if cs == [] then [] else EncodeChunk(cs[0]) + EncodeAll(cs[1..])
  }

  function DecodeAll(bs: seq<byte>, n: nat): (cs: seq<PageChunk>)
    requires 24 * n <= |bs|
    ensures |cs| == n
    decreases n
  {
    if n == 0 then [] else [DecodeChunk(bs[..24])] + DecodeAll(bs[24..], n - 1)
  }

  /** The layout: byte j of the three fields of chunk i lies at 24 i + j, 24 i + 8 + j and
      24 i + 16 + j. */
  lemma {:induction false} ChunkLayout(cs: seq<PageChunk>, i: nat, j: nat)
    requires i < |cs| && j < 8
    ensures var bs := EncodeAll(cs);
            && bs[24 * i + j] == cs[i].addr / Pow256(j) % 256
            && bs[24 * i + 8 + j] == cs[i].offset / Pow256(j) % 256
            && bs[24 * i + 16 + j] == cs[i].nbytes / Pow256(j) % 256
    decreases i
  {
    hide Pow256, LeBytes;
    if i == 0 {
      LeByte(cs[0].addr, 8, j);
      LeByte(cs[0].offset, 8, j);
      LeByte(cs[0].nbytes, 8, j);
    } else {
      ChunkLayout(cs[1..], i - 1, j);
    }
  }

  lemma DecodeStep(a: seq<byte>, b: seq<byte>, n: nat)
    requires |a| == 24 && 24 * n <= |b|
    ensures DecodeAll(a + b, n + 1) == [DecodeChunk(a)] + DecodeAll(b, n)
  {
    hide DecodeChunk;
    assert (a + b)[..24] == a && (a + b)[24..] == b;
  }

  lemma EncodeStep(cs: seq<PageChunk>)
    requires cs != []
    ensures EncodeAll(cs) == EncodeChunk(cs[0]) + EncodeAll(cs[1..])
  {
  }

  lemma {:induction false} ChunksRoundTrip(cs: seq<PageChunk>)
    ensures DecodeAll(EncodeAll(cs), |cs|) == cs
  {
    hide *;
    if cs != [] {
      EncodeStep(cs);
      ChunkRoundTrip(cs[0]);
      ChunksRoundTrip(cs[1..]);
      DecodeStep(EncodeChunk(cs[0]), EncodeAll(cs[1..]), |cs| - 1);
      assert [cs[0]] + cs[1..] == cs;
    }
  }
}
