/** The host driver's side of a remote DMA (xdma cdev_sgdma.c): the translated chunks become
    a scatter list, which is submitted to the engine. */
module RemoteSgl {
  import opened Codes
  import opened Words
  import opened Masks
  import opened Dma
  import opened PageChunks
  import opened PinnedPages
  import opened Requests
  import opened Rings
  import opened Submit

  /** What get_user_pages_remote answers for one page: the page (as the bus address it has
      after the identity pci_map_sg), its error code, or 0 when it returns without a page. */
  type NoPageCode = c: int | -4095 <= c <= 0

  datatype PageAnswer = Page(bus: u64) | NoPage(code: NoPageCode)

  type PageTableOf = u64 -> PageAnswer

  function BusOf(pages: PageTableOf, vaddr: u64): u64 {
    if pages(vaddr).Page? then pages(vaddr).bus else 0
  }

  predicate AllPresent(pages: PageTableOf, cs: seq<PageChunk>) {
    forall i :: 0 <= i < |cs| ==> pages(cs[i].addr).Page?
  }

  /** The code of the first page that is not there, or 1. */
  function MissingCode(pages: PageTableOf, cs: seq<PageChunk>): (code: int)
    ensures -4095 <= code <= 1 && (code == 1 <==> AllPresent(pages, cs))
  {
    if cs == [] then 1
    else if pages(cs[0].addr).NoPage? then pages(cs[0].addr).code
    else
      assert forall i :: 0 < i < |cs| ==> cs[i] == cs[1..][i - 1];
      MissingCode(pages, cs[1..])
  }

  /** A scatter list as sg_alloc_table leaves it. */
  function Blank(n: nat): seq<Extent> { seq(n, _ => Extent(0, 0)) }

  function BusPages(pages: PageTableOf, cs: seq<PageChunk>): seq<u64> {
    seq<u64>(|cs|, i requires 0 <= i < |cs| => BusOf(pages, cs[i].addr))
  }

  /** sg_set_page: offset and length go through unsigned int. */
  function Entry(pages: PageTableOf, c: PageChunk): Extent {
    Extent(Wrap64(BusOf(pages, c.addr) + Wrap32(c.offset)), Wrap32(c.nbytes))
  }

  function SglOf(pages: PageTableOf, cs: seq<PageChunk>): (sgl: seq<Extent>)
    ensures |sgl| == |cs|
  {
    if cs == [] then [] else [Entry(pages, cs[0])] + SglOf(pages, cs[1..])
  }

  /** The host bytes behind a list of page bytes. */
  function HostBytes(pages: PageTableOf, bs: seq<PageByte>): seq<u64> {
    seq<u64>(|bs|, k requires 0 <= k < |bs| => Wrap64(BusOf(pages, bs[k].page) + bs[k].offset))
  }

  ghost predicate Small(cs: seq<PageChunk>) {
    forall i :: 0 <= i < |cs| ==> cs[i].offset < 4096 && cs[i].nbytes <= 4096
  }

  /** The scatter list names the same bytes as the chunks, in the same order. */
  lemma {:induction false} SglBytes(pages: PageTableOf, cs: seq<PageChunk>)
    requires Small(cs)
    ensures Bytes(SglOf(pages, cs)) == HostBytes(pages, ChunkBytes(cs))
    ensures forall e :: e in SglOf(pages, cs) ==> e.len <= 4096
  {
    hide ExtentBytes, HostBytes;
    if cs == [] {
      NoHostBytes(pages);
    } else {
      SglBytes(pages, cs[1..]);
      EntryBytes(pages, cs[0]);
      var first := seq(cs[0].nbytes, j requires 0 <= j < cs[0].nbytes => PageByte(cs[0].addr, cs[0].offset + j));
      HostBytesAppend(pages, first, ChunkBytes(cs[1..]));
      assert SglOf(pages, cs)[1..] == SglOf(pages, cs[1..]);
    }
  }

  lemma NoHostBytes(pages: PageTableOf)
    ensures HostBytes(pages, []) == []
  {
  }

  lemma HostBytesAppend(pages: PageTableOf, a: seq<PageByte>, b: seq<PageByte>)
    ensures HostBytes(pages, a + b) == HostBytes(pages, a) + HostBytes(pages, b)
  {
  }

  lemma EntryBytes(pages: PageTableOf, c: PageChunk)
    requires c.offset < 4096 && c.nbytes <= 4096
    ensures ExtentBytes(Entry(pages, c))
         == HostBytes(pages, seq(c.nbytes, j requires 0 <= j < c.nbytes => PageByte(c.addr, c.offset + j)))
    ensures Entry(pages, c).len == c.nbytes
  {
    hide BusOf, Wrap64;
    var bus := BusOf(pages, c.addr);
    forall j | 0 <= j < c.nbytes
      ensures ExtentBytes(Entry(pages, c))[j] == Wrap64(bus + (c.offset + j))
    {
      WrapAdd(bus + c.offset, j);
    }
  }

  function SumBytes(cs: seq<PageChunk>): nat {
    if cs == [] then 0 else Wrap32(cs[0].nbytes) + SumBytes(cs[1..])
  }

  lemma {:induction false} SumIsTotal(pages: PageTableOf, cs: seq<PageChunk>)
    ensures SumBytes(cs) == TotalLen(SglOf(pages, cs))
  {
    if cs != [] {
      SumIsTotal(pages, cs[1..]);
      assert SglOf(pages, cs)[1..] == SglOf(pages, cs[1..]);
    }
  }

  /** map_remote_pages_to_sgl: EINVAL without chunks or when their lengths do not add up
      to len (in 64-bit arithmetic), ENOMEM, the lookup's own code for a missing page,
      EFAULT for two neighbouring chunks on one page. A lookup that returns 0 without a
      page ends the function with 0 as well, with nothing in the scatter list. */
  method MapRemotePages(chunks: seq<PageChunk>, len0: u64, pages: PageTableOf, hasMemory: bool)
    returns (ret: int, sgl: seq<Extent>)
    requires |chunks| < 0x1_0000_0000
    ensures chunks == [] ==> ret == -EINVAL
    ensures chunks != [] && !hasMemory ==> ret == -ENOMEM
    ensures chunks != [] && hasMemory && !AllPresent(pages, chunks) ==>
              ret == MissingCode(pages, chunks) && (ret == 0 ==> sgl == Blank(|chunks|))
    ensures chunks != [] && hasMemory && AllPresent(pages, chunks) ==>
              && ret == (if HasTwins(BusPages(pages, chunks)) then -EFAULT
                         else if Wrap64(len0 - SumBytes(chunks)) != 0 then -EINVAL else 0)
              && (ret == 0 ==> sgl == SglOf(pages, chunks))
    ensures -4095 <= ret <= 0
  {
    hide SumBytes, SglOf, Wrap64, HasTwins;
    sgl := Blank(|chunks|);
    if chunks == [] {
      return -EINVAL, sgl;
    }
    if !hasMemory {
      return -ENOMEM, sgl;
    }
    var got: int, cbPages: seq<u64> := GetPages(chunks, pages);
    if got != 1 {
      return got, sgl;
    }
    var twins: bool := FindTwins(cbPages);
    if twins {
      return -EFAULT, sgl;
    }
    var len: u64;
    sgl, len := FillSgl(chunks, len0, pages, cbPages);
    ret := if len != 0 then -EINVAL else 0;
  }

  method GetPages(chunks: seq<PageChunk>, pages: PageTableOf) returns (got: int, cbPages: seq<u64>)
    ensures got == MissingCode(pages, chunks)
    ensures got == 1 ==> cbPages == BusPages(pages, chunks)
  {
    cbPages := [];
    assert chunks[0..] == chunks;
    for i := 0 to |chunks|
      invariant MissingCode(pages, chunks) == MissingCode(pages, chunks[i..])
      invariant cbPages == BusPages(pages, chunks[..i])
    {
      var page := pages(chunks[i].addr);
      if page.NoPage? {
        return page.code, [];
      }
      assert chunks[i..][1..] == chunks[i + 1..];
      assert chunks[..i + 1] == chunks[..i] + [chunks[i]];
      cbPages := cbPages + [page.bus];
    }
    assert chunks[..|chunks|] == chunks;
    got := 1;
  }

  /** Where the sg loop stands after `done` entries, with len to go. */
  ghost predicate SglSoFar(pages: PageTableOf, chunks: seq<PageChunk>, done: seq<Extent>, rest: seq<PageChunk>,
                           len0: u64, len: u64)
  {
    && SglOf(pages, chunks) == done + SglOf(pages, rest)
    && Wrap64(len0 - SumBytes(chunks)) == Wrap64(len - SumBytes(rest))
  }

  lemma SglStep(pages: PageTableOf, chunks: seq<PageChunk>, done: seq<Extent>, rest: seq<PageChunk>, len0: u64, len: u64)
    requires rest != [] && SglSoFar(pages, chunks, done, rest, len0, len)
    ensures SglSoFar(pages, chunks, done + [Entry(pages, rest[0])], rest[1..], len0, Wrap64(len - Wrap32(rest[0].nbytes)))
  {
    hide Entry, Wrap32;
    assert done + ([Entry(pages, rest[0])] + SglOf(pages, rest[1..])) == (done + [Entry(pages, rest[0])]) + SglOf(pages, rest[1..]);
    WrapAdd(len - Wrap32(rest[0].nbytes), 0 - SumBytes(rest[1..]));
  }

  lemma SglEnds(pages: PageTableOf, chunks: seq<PageChunk>, done: seq<Extent>, len0: u64, len: u64)
    requires SglSoFar(pages, chunks, done, [], len0, len)
    ensures done == SglOf(pages, chunks) && len == Wrap64(len0 - SumBytes(chunks))
  {
    assert done + [] == done;
  }

  lemma SglStarts(pages: PageTableOf, chunks: seq<PageChunk>, len: u64)
    ensures SglSoFar(pages, chunks, [], chunks, len, len)
  {
    assert [] + SglOf(pages, chunks) == SglOf(pages, chunks);
  }

  method FillSgl(chunks: seq<PageChunk>, len0: u64, ghost pages: PageTableOf, cbPages: seq<u64>)
    returns (sgl: seq<Extent>, len: u64)
    requires cbPages == BusPages(pages, chunks)
    ensures sgl == SglOf(pages, chunks) && len == Wrap64(len0 - SumBytes(chunks))
  {
    hide SglSoFar, SglOf, SumBytes, Wrap64, Wrap32;
    sgl, len := [], len0;
    SglStarts(pages, chunks, len);
    assert chunks[0..] == chunks;
    for i := 0 to |chunks|
      invariant SglSoFar(pages, chunks, sgl, chunks[i..], len0, len)
    {
      SglStep(pages, chunks, sgl, chunks[i..], len0, len);
      var offset: u32 := Wrap32(chunks[i].offset);
      var nbytes: u32 := Wrap32(chunks[i].nbytes);
      sgl := sgl + [Extent(Wrap64(cbPages[i] + offset), nbytes)];
      len := Wrap64(len - nbytes);
      assert chunks[i..][1..] == chunks[i + 1..];
    }
    assert chunks[|chunks|..] == [];
    SglEnds(pages, chunks, sgl, len0, len);
  }

  lemma {:induction false} BlankBytes(n: nat)
    ensures Bytes(Blank(n)) == []
    decreases n
  {
    if n > 0 {
      BlankBytes(n - 1);
      assert Blank(n)[1..] == Blank(n - 1);
    }
  }

  lemma OneMoveEach(dir: Direction, rc: seq<u64>, ep: nat)
    ensures |Meaning(dir, rc, ep)| == |rc|
  {
  }

  lemma NoMoves(dir: Direction, ep: nat)
    ensures Meaning(dir, [], ep) == []
  {
  }

  /** check_transfer_align. */
  predicate AlignOk(nonIncr: bool, align: nat, granularity: nat, buf: u64, count: u64, pos: u64)
    requires align > 0 && granularity > 0
  {
    if nonIncr then And(buf, align - 1) == 0 && And(pos, align - 1) == 0 && And(count, granularity - 1) == 0
    else And(buf, align - 1) == And(pos, align - 1)
  }

  /** With an alignment of 2^n and a granularity of 2^g these are remainders. */
  lemma AlignMeans(nonIncr: bool, n: nat, g: nat, buf: u64, count: u64, pos: u64)
    ensures AlignOk(nonIncr, Pow2(n), Pow2(g), buf, count, pos)
            <==> if nonIncr then Rem(buf, Pow2(n)) == 0 && Rem(pos, Pow2(n)) == 0 && Rem(count, Pow2(g)) == 0
                 else Rem(buf, Pow2(n)) == Rem(pos, Pow2(n))
  {
    hide And, Rem, Pow2;
    MaskIsRemainder(buf, n);
    MaskIsRemainder(pos, n);
    MaskIsRemainder(count, g);
  }

  lemma AlignIs(nonIncr: bool, align: nat, granularity: nat, buf: u64, count: u64, pos: u64)
    requires align > 0 && granularity > 0
    ensures !nonIncr && And(buf, align - 1) != And(pos, align - 1) ==> !AlignOk(nonIncr, align, granularity, buf, count, pos)
    ensures nonIncr && (And(buf, align - 1) != 0 || And(pos, align - 1) != 0 || And(count, granularity - 1) != 0) ==>
              !AlignOk(nonIncr, align, granularity, buf, count, pos)
  {
    hide And;
  }

  /** What the driver's environment decides: the emulator's page tables, the engine's
      alignment, desc_blen_max, memory for the page list and for the request, and how the
      device and each transfer fare. */
  datatype Driver = Driver(pages: PageTableOf, align: nat, granularity: nat, blenMax: u32,
                           hasMemory: bool, requestMemory: bool, offline: bool, verdict: nat -> Verdict)
  {
    ghost predicate Sane() { align > 0 && granularity > 0 && blenMax > 0 }
  }

  /** Nothing stops this request before it reaches the engine. */
  ghost predicate Accepted(d: Driver, ring: Ring, write: bool, buf: u64, count: u64, ep: u64, chunks: seq<PageChunk>)
    requires d.Sane()
  {
    && !d.offline && d.hasMemory && d.requestMemory && write == (ring.dir == ToDevice)
    && AlignOk(ring.nonIncr, d.align, d.granularity, buf, count, ep)
    && chunks != [] && AllPresent(d.pages, chunks) && !HasTwins(BusPages(d.pages, chunks))
    && Wrap64(count - SumBytes(chunks)) == 0
  }

  /** char_sgdma_read_write_remote: whatever happens to its transfers, an accepted request
      copies the first of the bytes its chunks name, each to or from its own device address,
      at least as many as it reports and all of them if every transfer completes. */
  method ReadWriteRemote(d: Driver, ring: Ring, write: bool, buf: u64, count: u64, ep: u64, chunks: seq<PageChunk>)
    returns (ret: int, ghost moves: seq<Move>)
    requires d.Sane() && ring.Valid() && |chunks| < 0x1_0000_0000
    modifies ring, ring.desc
    ensures ring.Valid() && -4095 <= ret
    // the checks in front of everything else
    ensures write != (ring.dir == ToDevice) ==> ret == -EINVAL && moves == []
    ensures !ring.nonIncr && And(buf, d.align - 1) != And(ep, d.align - 1) ==> ret == -EINVAL && moves == []
    ensures ring.nonIncr && (And(buf, d.align - 1) != 0 || And(ep, d.align - 1) != 0 || And(count, d.granularity - 1) != 0) ==>
              ret == -EINVAL && moves == []
    ensures write == (ring.dir == ToDevice) && AlignOk(ring.nonIncr, d.align, d.granularity, buf, count, ep) ==>
              && (chunks == [] ==> ret == -EINVAL)
              && (chunks != [] && !d.hasMemory ==> ret == -ENOMEM)
              && (chunks != [] && d.hasMemory && AllPresent(d.pages, chunks) ==>
                    && (HasTwins(BusPages(d.pages, chunks)) ==> ret == -EFAULT)
                    && (!HasTwins(BusPages(d.pages, chunks)) && Wrap64(count - SumBytes(chunks)) != 0 ==> ret == -EINVAL)
                    && (!HasTwins(BusPages(d.pages, chunks)) && Wrap64(count - SumBytes(chunks)) == 0 ==>
                          && (d.offline ==> ret == -EBUSY)
                          && (!d.offline && !d.requestMemory ==> ret == -ENOMEM)))
    ensures !Accepted(d, ring, write, buf, count, ep, chunks) && !ring.nonIncr ==> ret <= 0 && moves == []
    ensures Accepted(d, ring, write, buf, count, ep, chunks) && !ring.nonIncr && Small(chunks) ==>
              var all := Meaning(ring.dir, HostBytes(d.pages, ChunkBytes(chunks)), ep);
              && |all| == SumBytes(chunks) && moves <= all && ret <= |moves|
              && ((forall i :: d.verdict(i) == Completed) ==>
                    moves == all && (SumBytes(chunks) < 0x1_0000_0000 ==> ret == |all|))
  {
    hide Bytes, HostBytes, ChunkBytes, Meaning, SumBytes, SglOf, SplitAll, Shortfall, SubmitFrom, TotalLen, Wrap64, HasTwins,
         BusPages, AllPresent, AlignOk, And, ReturnValue, Blank, MissingCode;
    moves := [];
    if write != (ring.dir == ToDevice) {
      return -EINVAL, [];
    }
    AlignIs(ring.nonIncr, d.align, d.granularity, buf, count, ep);
    var aligned := AlignOk(ring.nonIncr, d.align, d.granularity, buf, count, ep);
    if !aligned {
      return -EINVAL, [];
    }
    var sgl: seq<Extent>;
    ret, sgl := MapRemotePages(chunks, count, d.pages, d.hasMemory);
    if ret < 0 {
      return ret, [];
    }
    ret, moves := XferSubmit(ring, write, ep, sgl, d.blenMax, d.offline, d.requestMemory, d.verdict);
    SumIsTotal(d.pages, chunks);
    BlankBytes(|chunks|);
    NoMoves(ring.dir, ep);
    if Small(chunks) {
      BytesLength(SglOf(d.pages, chunks));
      OneMoveEach(ring.dir, HostBytes(d.pages, ChunkBytes(chunks)), ep);
      SglBytes(d.pages, chunks);
      EstimateSuffices(SglOf(d.pages, chunks), d.blenMax);
    }
  }
}
