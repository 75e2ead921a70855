/** xdma_init_request: a mapped scatter list is cut into software descriptors of at
    most desc_blen_max bytes. */
module Requests {
  import opened Words
  import opened Dma

  /** The pieces of one scatter-list entry. */
  function Split(e: Extent, blenMax: u32): seq<Extent>
    requires blenMax > 0
    decreases e.len
  {
    if e.len == 0 then []
    else if e.len > blenMax then
      [Extent(e.addr, blenMax)] + Split(Extent(Wrap64(e.addr + blenMax), e.len - blenMax), blenMax)
    else [e]
  }

  function SplitAll(sgl: seq<Extent>, blenMax: u32): seq<Extent>
    requires blenMax > 0
  {
    if sgl == [] then [] else Split(sgl[0], blenMax) + SplitAll(sgl[1..], blenMax)
  }

  /** The driver's estimate of the additional descriptors, in 32-bit arithmetic. */
  function Extra(sgl: seq<Extent>, blenMax: u32): nat
    requires blenMax > 0
  {
    if sgl == [] then 0
    else ExtraOf(sgl[0].len, blenMax) + Extra(sgl[1..], blenMax)
  }

  function ExtraOf(len: u32, blenMax: u32): nat
    requires blenMax > 0
  {
    if len > blenMax then Wrap32(len + blenMax - 1) / blenMax else 0
  }

  /** Splitting keeps the bytes and their order, and yields the rounded-up number of
      non-empty pieces. */
  lemma {:induction false} SplitKeepsBytes(e: Extent, blenMax: u32)
    requires blenMax > 0
    ensures Bytes(Split(e, blenMax)) == ExtentBytes(e)
    ensures |Split(e, blenMax)| == CeilDiv(e.len, blenMax)
    ensures forall p :: p in Split(e, blenMax) ==> 0 < p.len <= blenMax
    decreases e.len
  {
    hide *;
    CeilDivStep(e.len, blenMax);
    SplitStep(e, blenMax);
    if e.len > blenMax {
      var head, rest := Extent(e.addr, blenMax), Extent(Wrap64(e.addr + blenMax), e.len - blenMax);
      SplitKeepsBytes(rest, blenMax);
      BytesOfCons(head, Split(rest, blenMax));
      ExtentBytesCut(e, blenMax);
    } else if e.len > 0 {
      BytesOfOne(e);
    } else {
      BytesOfNone(e);
    }
  }

  lemma SplitStep(e: Extent, blenMax: u32)
    requires blenMax > 0
    ensures e.len == 0 ==> Split(e, blenMax) == []
    ensures 0 < e.len <= blenMax ==> Split(e, blenMax) == [e]
    ensures e.len > blenMax ==>
              Split(e, blenMax)
              == [Extent(e.addr, blenMax)] + Split(Extent(Wrap64(e.addr + blenMax), e.len - blenMax), blenMax)
  {
    hide Wrap64;
  }

  lemma BytesOfCons(e: Extent, es: seq<Extent>)
    ensures Bytes([e] + es) == ExtentBytes(e) + Bytes(es)
  {
    assert ([e] + es)[1..] == es;
  }

  lemma BytesOfOne(e: Extent)
    ensures Bytes([e]) == ExtentBytes(e)
  {
    hide ExtentBytes;
    assert [e][1..] == [] && ExtentBytes(e) + [] == ExtentBytes(e);
  }

  lemma BytesOfNone(e: Extent)
    requires e.len == 0
    ensures Bytes([]) == ExtentBytes(e)
  {
  }

  lemma {:induction false} SplitAllKeepsBytes(sgl: seq<Extent>, blenMax: u32)
    requires blenMax > 0
    ensures Bytes(SplitAll(sgl, blenMax)) == Bytes(sgl)
    ensures forall p :: p in SplitAll(sgl, blenMax) ==> 0 < p.len <= blenMax
  {
    hide Split, ExtentBytes;
    if sgl != [] {
      SplitKeepsBytes(sgl[0], blenMax);
      SplitAllKeepsBytes(sgl[1..], blenMax);
      BytesAppend(Split(sgl[0], blenMax), SplitAll(sgl[1..], blenMax));
    }
  }

  lemma {:induction false} SplitAllAppend(a: seq<Extent>, b: seq<Extent>, blenMax: u32)
    requires blenMax > 0
    ensures SplitAll(a + b, blenMax) == SplitAll(a, blenMax) + SplitAll(b, blenMax)
    ensures Extra(a + b, blenMax) == Extra(a, blenMax) + Extra(b, blenMax)
  {
    hide Split, ExtraOf;
    if a == [] {
      assert a + b == b;
    } else {
      SplitAllAppend(a[1..], b, blenMax);
      assert (a + b)[1..] == a[1..] + b && (a + b)[0] == a[0];
      var x := Split(a[0], blenMax);
      assert x + (SplitAll(a[1..], blenMax) + SplitAll(b, blenMax)) == x + SplitAll(a[1..], blenMax) + SplitAll(b, blenMax);
    }
  }

  lemma NothingSplit(blenMax: u32)
    requires blenMax > 0
    ensures SplitAll([], blenMax) == [] && Wrap32(TotalLen([])) == 0
  {
  }

  lemma SplitAllSnoc(a: seq<Extent>, e: Extent, blenMax: u32)
    requires blenMax > 0
    ensures SplitAll(a + [e], blenMax) == SplitAll(a, blenMax) + Split(e, blenMax)
    ensures Extra(a + [e], blenMax) == Extra(a, blenMax) + ExtraOf(e.len, blenMax)
    ensures TotalLen(a + [e]) == TotalLen(a) + e.len
    ensures Wrap32(TotalLen(a + [e])) == Wrap32(Wrap32(TotalLen(a)) + e.len)
  {
    hide Split, ExtraOf, ExtentBytes, Bytes;
    SplitAllAppend(a, [e], blenMax);
    BytesAppend(a, [e]);
    assert [e][1..] == [];
    assert SplitAll([e], blenMax) == Split(e, blenMax) + [];
  }

  /** By how many descriptors the estimate for one entry, with the one every entry has
      anyway, falls short of its pieces. */
  function ShortOf(len: u32, blenMax: u32): int
    requires blenMax > 0
  {
    if len == 0 then -1
    else if len <= blenMax then 0
    else if len + blenMax - 1 < TWO32 then -1
    else CeilDiv(len, blenMax) - 1
  }

  function Shortfall(sgl: seq<Extent>, blenMax: u32): int
    requires blenMax > 0
  {
    if sgl == [] then 0 else ShortOf(sgl[0].len, blenMax) + Shortfall(sgl[1..], blenMax)
  }

  lemma ShortOfIs(len: u32, blenMax: u32)
    requires blenMax > 0
    ensures ShortOf(len, blenMax) == CeilDiv(len, blenMax) - 1 - ExtraOf(len, blenMax)
  {
    CeilDivStep(len, blenMax);
    var x := len + blenMax - 1;
    if len > blenMax && x >= TWO32 {
      DivUnique(x, TWO32, 1, x - TWO32);
      DivUnique(x - TWO32, blenMax, 0, x - TWO32);
    } else if len > blenMax {
      DivUnique(x, TWO32, 0, x);
    }
  }

  /** For one entry the estimate is enough exactly when its 32-bit sum does not wrap (or
      the entry is not split at all). */
  lemma EntryEstimateIff(len: u32, blenMax: u32)
    requires blenMax > 0
    ensures CeilDiv(len, blenMax) <= 1 + ExtraOf(len, blenMax) <==> len <= blenMax || len + blenMax - 1 < TWO32
  {
    ShortOfIs(len, blenMax);
    CeilDivStep(len, blenMax);
    if len > blenMax {
      CeilDivStep(len - blenMax, blenMax);
    }
    hide CeilDiv, ExtraOf;
  }

  /** For a list it falls short by exactly the sum over its entries: the surplus of entries
      that are empty or split without wrapping can make up for others. */
  lemma {:induction false} ShortfallExact(sgl: seq<Extent>, blenMax: u32)
    requires blenMax > 0
    ensures |SplitAll(sgl, blenMax)| - |sgl| - Extra(sgl, blenMax) == Shortfall(sgl, blenMax)
  {
    hide Split, ExtraOf, CeilDiv, ExtentBytes, Bytes, ShortOf;
    if sgl != [] {
      SplitKeepsBytes(sgl[0], blenMax);
      ShortOfIs(sgl[0].len, blenMax);
      ShortfallExact(sgl[1..], blenMax);
    }
  }

  /** No shortfall when no entry makes the 32-bit sum wrap. */
  lemma {:induction false} EstimateSuffices(sgl: seq<Extent>, blenMax: u32)
    requires blenMax > 0
    requires forall e :: e in sgl ==> e.len <= blenMax || e.len + blenMax - 1 < TWO32
    ensures Shortfall(sgl, blenMax) <= 0
  {
    if sgl != [] {
      EstimateSuffices(sgl[1..], blenMax);
    }
  }

  /** With the default desc_blen_max a single entry of the largest 32-bit length needs 17
      descriptors, but the wrapped estimate is 1. */
  lemma EstimateWraps(addr: u64)
    ensures var sgl := [Extent(addr, 0xFFFF_FFFF)];
            |SplitAll(sgl, 0x0FFF_FFFF)| == 17 && |sgl| + Extra(sgl, 0x0FFF_FFFF) == 1
  {
    hide *;
    var e := Extent(addr, 0xFFFF_FFFF);
    SplitKeepsBytes(e, 0x0FFF_FFFF);
    SeventeenPieces();
    OnlyEntry(e, 0x0FFF_FFFF);
  }

  lemma SeventeenPieces()
    ensures CeilDiv(0xFFFF_FFFF, 0x0FFF_FFFF) == 17 && ExtraOf(0xFFFF_FFFF, 0x0FFF_FFFF) == 0
  {
  }

  lemma OnlyEntry(e: Extent, blenMax: u32)
    requires blenMax > 0
    ensures SplitAll([e], blenMax) == Split(e, blenMax) && Extra([e], blenMax) == ExtraOf(e.len, blenMax)
  {
    hide Split, ExtraOf;
    assert [e][1..] == [] && Split(e, blenMax) + [] == Split(e, blenMax);
  }

  /** struct xdma_request_cb. */
  class Request {
    const sdesc: seq<Extent>
    const totalLen: u32
    var epAddr: u64
    var swDescIdx: nat

    constructor (sdesc: seq<Extent>, totalLen: u32, ep: u64)
      ensures this.sdesc == sdesc && this.totalLen == totalLen && epAddr == ep && swDescIdx == 0
    {
      this.sdesc, this.totalLen, epAddr, swDescIdx := sdesc, totalLen, ep, 0;
    }
  }

  /** The counting loop of xdma_init_request. */
  method CountExtra(sgl: seq<Extent>, blenMax: u32) returns (extra: nat)
    requires blenMax > 0
    ensures extra == Extra(sgl, blenMax)
  {
    extra := 0;
    for i := 0 to |sgl|
      invariant extra == Extra(sgl[..i], blenMax)
    {
      assert sgl[..i + 1] == sgl[..i] + [sgl[i]];
      SplitAllSnoc(sgl[..i], sgl[i], blenMax);
      if sgl[i].len > blenMax {
        extra := extra + Wrap32(sgl[i].len + blenMax - 1) / blenMax;
      }
    }
    assert sgl[..|sgl|] == sgl;
  }

  /** The inner loop of xdma_init_request: the pieces of one entry are appended. */
  method AppendPieces(e: Extent, blenMax: u32, before: seq<Extent>) returns (sdesc: seq<Extent>)
    requires blenMax > 0
    ensures sdesc == before + Split(e, blenMax)
  {
    sdesc := before;
    var addr, tlen := e.addr, e.len;
    while tlen != 0
      invariant 0 <= tlen < TWO32 && 0 <= addr < TWO64
      invariant before + Split(e, blenMax) == sdesc + Split(Extent(addr, tlen), blenMax)
      decreases tlen
    {
      ghost var rest := Split(Extent(addr, tlen), blenMax);
      if tlen > blenMax {
        ghost var sd := sdesc;
        sdesc := sdesc + [Extent(addr, blenMax)];
        addr := Wrap64(addr + blenMax);
        tlen := tlen - blenMax;
        assert sd + rest == sdesc + Split(Extent(addr, tlen), blenMax);
      } else {
        sdesc := sdesc + [Extent(addr, tlen)];
        tlen := 0;
      }
    }
  }

  /** xdma_init_request; `memory` says whether xdma_request_alloc succeeds. The check against
      the allocated size comes after the loop: when the estimate falls short, `past` software
      descriptors have by then been written behind the allocation. */
  method InitRequest(sgl: seq<Extent>, ep: u64, blenMax: u32, memory: bool) returns (r: Option<Request>, past: nat)
    requires blenMax > 0
    ensures r.None? <==> !memory || Shortfall(sgl, blenMax) > 0
    ensures past == if memory && Shortfall(sgl, blenMax) > 0 then Shortfall(sgl, blenMax) else 0
    ensures r.Some? ==>
              && fresh(r.value)
              && r.value.sdesc == SplitAll(sgl, blenMax) && r.value.totalLen == Wrap32(TotalLen(sgl))
              && r.value.epAddr == ep && r.value.swDescIdx == 0
  {
    hide Split, SplitAll, Extra, TotalLen, Wrap32, Shortfall;
    ShortfallExact(sgl, blenMax);
    past := 0;
    var extra := CountExtra(sgl, blenMax);
    var max := |sgl| + extra;
    if !memory {
      return None, 0;
    }
    var sdesc: seq<Extent> := [];
    var totalLen: u32 := 0;
    NothingSplit(blenMax);
    for i := 0 to |sgl|
      invariant sdesc == SplitAll(sgl[..i], blenMax)
      invariant totalLen == Wrap32(TotalLen(sgl[..i]))
    {
      assert sgl[..i + 1] == sgl[..i] + [sgl[i]];
      SplitAllSnoc(sgl[..i], sgl[i], blenMax);
      totalLen := Wrap32(totalLen + sgl[i].len);
      sdesc := AppendPieces(sgl[i], blenMax, sdesc);
    }
    assert sgl[..|sgl|] == sgl;
    if |sdesc| > max {
      return None, |sdesc| - max;
    }
    var req := new Request(sdesc, totalLen, ep);
    r := Some(req);
  }
}
