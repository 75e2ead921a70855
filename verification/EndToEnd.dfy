/** A read or write of the guest's stub driver, all the way to the device: pin the buffer,
    upload its chunks over the escape page, translate them on the host, build the scatter
    list, compile and run the descriptors. */
module EndToEnd {
  import opened Codes
  import opened Words
  import opened Masks
  import opened Dma
  import opened PageChunks
  import opened AddrMaps
  import opened EscapeHost
  import opened EscapePages
  import opened PinnedPages
  import opened Rings
  import opened Submit
  import opened RemoteSgl

  /** Every frame has a host address. */
  ghost predicate Mapped(m: AddrMap, pfns: seq<u64>) {
    forall i :: 0 <= i < |pfns| ==> Lookup(m, pfns[i]) != 0
  }

  /** The bus address of the host page behind a guest frame. */
  function Backing(m: AddrMap, pages: PageTableOf, pfn: u64): u64 { BusOf(pages, Lookup(m, pfn)) }

  function Backings(m: AddrMap, pages: PageTableOf, pfns: seq<u64>): seq<u64> {
    seq<u64>(|pfns|, i requires 0 <= i < |pfns| => Backing(m, pages, pfns[i]))
  }

  /** The reference: byte k of the user buffer is byte (offset + k) % 4096 of the host page
      behind its ((offset + k) / 4096)-th frame. */
  function BackedBytes(m: AddrMap, pages: PageTableOf, buf: u64, len: nat, pfns: seq<u64>): (bs: seq<u64>)
    requires Covers(buf, len, |pfns|)
    ensures |bs| == len
  {
    seq<u64>(len, k requires 0 <= k < len =>
      PageOf(buf % 4096 + k, |pfns|);
      Wrap64(Backing(m, pages, pfns[(buf % 4096 + k) / 4096]) + (buf % 4096 + k) % 4096))
  }

  // ----- pinned chunks -----

  lemma {:induction false} PinnedShape(buf: u64, len: u64, pfns: seq<u64>)
    ensures var cs := Pin(buf, len, pfns).chunks;
            Small(cs) && forall i :: 0 <= i < |pfns| ==> cs[i].addr == pfns[i]
    decreases |pfns|
  {
    hide Wrap64;
    if pfns != [] {
      var n := Nbytes(buf, len);
      PinnedShape(Wrap64(buf + n), len - n, pfns[1..]);
      var rest := Pin(Wrap64(buf + n), len - n, pfns[1..]).chunks;
      var cs := Pin(buf, len, pfns).chunks;
      hide Pin;
      assert cs == [PageChunk(pfns[0], buf % 4096, n)] + rest;
      forall i | 0 <= i < |cs|
        ensures cs[i].addr == pfns[i] && cs[i].offset < 4096 && cs[i].nbytes <= 4096
      {
        if i > 0 {
          assert cs[i] == rest[i - 1] && pfns[i] == pfns[1..][i - 1];
        }
      }
    }
  }

  // ----- translation -----

  /** Translation succeeds exactly when every frame is mapped, and changes only the address. */
  lemma {:induction false} TranslateAll(m: AddrMap, cs: seq<PageChunk>)
    ensures Translate(m, cs).Some? <==> forall i :: 0 <= i < |cs| ==> Lookup(m, cs[i].addr) != 0
    ensures Translate(m, cs).Some? ==>
              var ts := Translate(m, cs).value;
              |ts| == |cs| && forall i :: 0 <= i < |cs| ==> ts[i] == cs[i].(addr := Lookup(m, cs[i].addr))
  {
    hide Lookup;
    if cs != [] {
      TranslateAll(m, cs[1..]);
      forall i | 0 < i < |cs|
        ensures cs[i] == cs[1..][i - 1]
      {
      }
      if Translate(m, cs[1..]).None? {
        var j :| 0 <= j < |cs[1..]| && Lookup(m, cs[1..][j].addr) == 0;
        assert Lookup(m, cs[j + 1].addr) == 0;
      }
    }
  }

  function WithPages(m: AddrMap, bs: seq<PageByte>): seq<PageByte> {
    seq(|bs|, k requires 0 <= k < |bs| => bs[k].(page := Lookup(m, bs[k].page)))
  }

  lemma {:induction false} TranslatedBytes(m: AddrMap, cs: seq<PageChunk>)
    requires Translate(m, cs).Some?
    ensures ChunkBytes(Translate(m, cs).value) == WithPages(m, ChunkBytes(cs))
    ensures SumBytes(Translate(m, cs).value) == SumBytes(cs)
  {
    hide Lookup, Wrap32;
    if cs != [] {
      var c, t := cs[0], cs[0].(addr := Lookup(m, cs[0].addr));
      var rest := Translate(m, cs[1..]).value;
      assert Translate(m, cs).value == [t] + rest && ([t] + rest)[1..] == rest;
      TranslatedBytes(m, cs[1..]);
      var mine := seq(c.nbytes, j requires 0 <= j < c.nbytes => PageByte(c.addr, c.offset + j));
      WithPagesAppend(m, mine, ChunkBytes(cs[1..]));
      assert WithPages(m, mine) == seq(t.nbytes, j requires 0 <= j < t.nbytes => PageByte(t.addr, t.offset + j));
    }
  }

  lemma WithPagesAppend(m: AddrMap, a: seq<PageByte>, b: seq<PageByte>)
    ensures WithPages(m, a + b) == WithPages(m, a) + WithPages(m, b)
  {
    hide Lookup;
  }

  lemma BackedBytesAre(m: AddrMap, pages: PageTableOf, buf: u64, len: nat, pfns: seq<u64>)
    requires Covers(buf, len, |pfns|)
    ensures HostBytes(pages, WithPages(m, BufferBytes(buf, len, pfns))) == BackedBytes(m, pages, buf, len, pfns)
  {
    hide *;
    var bytes := BufferBytes(buf, len, pfns);
    var a, b := HostBytes(pages, WithPages(m, bytes)), BackedBytes(m, pages, buf, len, pfns);
    WithPagesAt(m, bytes, pages);
    forall k | 0 <= k < len
      ensures a[k] == b[k]
    {
      BackedByteAt(m, pages, buf, len, pfns, k);
    }
  }

  lemma WithPagesAt(m: AddrMap, bs: seq<PageByte>, pages: PageTableOf)
    ensures var a := HostBytes(pages, WithPages(m, bs));
            |a| == |bs| && forall k :: 0 <= k < |bs| ==> a[k] == Wrap64(Backing(m, pages, bs[k].page) + bs[k].offset)
  {
    hide Lookup, BusOf, Wrap64;
  }

  lemma BackedByteAt(m: AddrMap, pages: PageTableOf, buf: u64, len: nat, pfns: seq<u64>, k: nat)
    requires Covers(buf, len, |pfns|) && k < len
    ensures var b := BufferBytes(buf, len, pfns)[k];
            BackedBytes(m, pages, buf, len, pfns)[k] == Wrap64(Backing(m, pages, b.page) + b.offset)
  {
    hide *;
    PageOfByte(buf, len, pfns, k);
    BufferByteAt(buf, len, pfns, k);
    BackedAt(m, pages, buf, len, pfns, k);
  }

  lemma PageOfByte(buf: u64, len: nat, pfns: seq<u64>, k: nat)
    requires Covers(buf, len, |pfns|) && k < len
    ensures 0 <= (buf % 4096 + k) / 4096 < |pfns|
  {
    PageOf(buf % 4096 + k, |pfns|);
  }

  lemma BufferByteAt(buf: u64, len: nat, pfns: seq<u64>, k: nat)
    requires Covers(buf, len, |pfns|) && k < len && 0 <= (buf % 4096 + k) / 4096 < |pfns|
    ensures BufferBytes(buf, len, pfns)[k] == PageByte(pfns[(buf % 4096 + k) / 4096], (buf % 4096 + k) % 4096)
  {
  }

  lemma BackedAt(m: AddrMap, pages: PageTableOf, buf: u64, len: nat, pfns: seq<u64>, k: nat)
    requires Covers(buf, len, |pfns|) && k < len && 0 <= (buf % 4096 + k) / 4096 < |pfns|
    ensures BackedBytes(m, pages, buf, len, pfns)[k]
         == Wrap64(Backing(m, pages, pfns[(buf % 4096 + k) / 4096]) + (buf % 4096 + k) % 4096)
  {
    hide Backing, Wrap64;
  }

  // ----- the host's half, for a buffer that was pinned -----

  /** The translated chunks of a pinned buffer: the bytes they name are the buffer's, their
      lengths add up to the buffer's, and their pages are the backing pages. */
  lemma UploadedChunks(m: AddrMap, pages: PageTableOf, buf: u64, count: u64, pfns: seq<u64>)
    requires count < 0x1_0000_0000 && Covers(buf, count, |pfns|) && Mapped(m, pfns)
    ensures var cs := Pin(buf, count, pfns).chunks;
            && Translate(m, cs).Some?
            && var ts := Translate(m, cs).value;
               && |ts| == |pfns| && Small(ts) && SumBytes(ts) == count
               && HostBytes(pages, ChunkBytes(ts)) == BackedBytes(m, pages, buf, count, pfns)
               && BusPages(pages, ts) == Backings(m, pages, pfns)
               && (AllPresent(pages, ts) <==> forall i :: 0 <= i < |pfns| ==> pages(Lookup(m, pfns[i])).Page?)
  {
    hide Lookup, Pin, Translate, ChunkBytes, BufferBytes, BackedBytes, HostBytes, WithPages, SumBytes, BusOf, Covers;
    var cs := Pin(buf, count, pfns).chunks;
    PinnedShape(buf, count, pfns);
    TranslateAll(m, cs);
    var ts := Translate(m, cs).value;
    TranslatedBytes(m, cs);
    PinnedBytes(buf, count, pfns);
    BackedBytesAre(m, pages, buf, count, pfns);
    SumIsLength(cs);
    forall i | 0 <= i < |pfns|
      ensures ts[i].addr == Lookup(m, pfns[i]) && BusPages(pages, ts)[i] == Backings(m, pages, pfns)[i]
    {
    }
  }

  lemma {:induction false} SumIsLength(cs: seq<PageChunk>)
    requires Small(cs)
    ensures SumBytes(cs) == |ChunkBytes(cs)|
  {
    if cs != [] {
      SumIsLength(cs[1..]);
    }
  }

  /** A long result in an int, as in fh_handle_dma. */
  function ToInt(x: int): int {
    var w := Wrap32(x);
    if w < 0x8000_0000 then w else w - 0x1_0000_0000
  }

  /** The guest's DMA request with the device driver behind the ioctl: the chunks that do_dma
      hands over decide the driver's result, and the host answers with it. */
  method PostDma(host: Host, page: EscapePage, d: Driver, ring: Ring) returns (ret: int, ghost moves: seq<Move>)
    requires host.Valid() && host.listening && host.infoCtx == ACTION_DMA && host.data != null && 24 * page.dma.pagesNr <= host.size
    requires page.area.Length >= 12 && page.area != host.data
    requires d.Sane() && ring.Valid() && page.dma.pagesNr < 0x1_0000_0000
    modifies host, host.data, page, page.area, ring, ring.desc
    ensures host.Valid() && ring.Valid() && host.View() == NO_UPLOAD
    ensures page.dma == old(page.dma)
    ensures var cs := Translate(host.addrs, DecodeAll(old(host.data[..]), old(page.dma.pagesNr)));
            && (cs.None? ==> page.ret == -1 && moves == [])
            && (cs.Some? ==> Ran(d, ring, page.dma, cs.value, page.ret, moves))
    ensures ret == if page.ret < 0 then -ENXIO else 0
    ensures host.listening <==> ret == 0
  {
    hide DecodeAll, Translate, Ran;
    moves := [];
    var p := host.PrepareDma(page);
    var r := -1;
    if p.Ready? {
      TranslateLength(host.addrs, DecodeAll(host.data[..], page.dma.pagesNr));
      var res: int;
      res, moves := ReadWriteRemote(d, ring, page.dma.doWrite, page.dma.userBuf, page.dma.len, page.dma.phyAddr, p.chunks);
      r := ToInt(res);
      RanAs(d, ring, page.dma, p.chunks, res, moves);
    }
    ghost var msg: Message;
    ret, msg := DoFaulthook(host, page, ACTION_DMA, true, r);
  }

  lemma TranslateLength(m: AddrMap, cs: seq<PageChunk>)
    ensures Translate(m, cs).Some? ==> |Translate(m, cs).value| == |cs|
  {
    TranslateAll(m, cs);
  }

  /** What the contract of ReadWriteRemote says about a request and its result as an int. */
  ghost predicate Ran(d: Driver, ring: Ring, dma: DmaArgs, cs: seq<PageChunk>, r: int, moves: seq<Move>)
    requires d.Sane()
  {
    if Accepted(d, ring, dma.doWrite, dma.userBuf, dma.len, dma.phyAddr, cs) then
      !ring.nonIncr && Small(cs) && SumBytes(cs) < 0x1_0000_0000 ==>
        var all := Meaning(ring.dir, HostBytes(d.pages, ChunkBytes(cs)), dma.phyAddr);
        && moves <= all
        && r <= |moves|
        && ((forall i :: d.verdict(i) == Completed) ==> moves == all && r == ToInt(|all|))
    else !ring.nonIncr ==> r <= 0 && moves == []
  }

  lemma RanAs(d: Driver, ring: Ring, dma: DmaArgs, cs: seq<PageChunk>, res: int, moves: seq<Move>)
    requires d.Sane() && -4095 <= res
    requires !Accepted(d, ring, dma.doWrite, dma.userBuf, dma.len, dma.phyAddr, cs) && !ring.nonIncr ==> res <= 0 && moves == []
    ensures (Accepted(d, ring, dma.doWrite, dma.userBuf, dma.len, dma.phyAddr, cs) && !ring.nonIncr && Small(cs) ==>
               var all := Meaning(ring.dir, HostBytes(d.pages, ChunkBytes(cs)), dma.phyAddr);
               && |all| == SumBytes(cs) && moves <= all && res <= |moves|
               && ((forall i :: d.verdict(i) == Completed) ==>
                     moves == all && (SumBytes(cs) < 0x1_0000_0000 ==> res == |all|)))
            ==> Ran(d, ring, dma, cs, ToInt(res), moves)
  {
    hide Accepted, Small, HostBytes, ChunkBytes, Meaning, SumBytes, ToInt;
    if res < 0x1_0000_0000 {
      ToIntBelow(res);
    }
  }

  lemma ToIntBelow(res: int)
    requires -4095 <= res < 0x1_0000_0000
    ensures ToInt(res) <= res
  {
  }

  /** A request of the guest: the buffer, the device address, the frames get_user_pages_fast
      pins for the buffer, and whether the guest finds memory. */
  datatype Io = Io(buf: u64, count: u64, phyAddr: u64, write: bool, pfns: seq<u64>, pinMemory: bool)

  /** fh_pin_pages accepts the buffer. */
  ghost predicate Pinnable(io: Io) {
    && PageCount(io.buf, io.count) > 0 && io.pinMemory && |io.pfns| == PageCount(io.buf, io.count)
    && !HasTwins(io.pfns) && io.count < 0x1_0000_0000
  }

  /** Nothing on the host's side stands in the way. */
  ghost predicate HostReady(m: AddrMap, d: Driver, dir: Direction, io: Io)
    requires d.Sane()
  {
    && (forall i :: 0 <= i < |io.pfns| ==> d.pages(Lookup(m, io.pfns[i])).Page?)
    && !HasTwins(Backings(m, d.pages, io.pfns))
    && !d.offline && d.hasMemory && d.requestMemory && io.write == (dir == ToDevice)
    && AlignOk(false, d.align, d.granularity, io.buf, io.count, io.phyAddr)
  }

  lemma PinnableCovers(io: Io)
    requires Pinnable(io)
    ensures Covers(io.buf, io.count, |io.pfns|) && 0 < |io.pfns| < 0x20_0000
  {
    PageCountCovers(io.buf, io.count);
  }

  lemma NotReady(m: AddrMap, d: Driver, dir: Direction, io: Io)
    requires d.Sane()
    ensures And(io.buf, d.align - 1) != And(io.phyAddr, d.align - 1) || io.write != (dir == ToDevice) ==>
              !HostReady(m, d, dir, io)
  {
    AlignIs(false, d.align, d.granularity, io.buf, io.count, io.phyAddr);
    hide AlignOk, And;
  }

  function ArgsOf(io: Io): DmaArgs { DmaArgs(io.phyAddr, io.write, io.buf, io.count, |io.pfns|) }

  /** The host's answer to an uploaded buffer. */
  lemma AnswerIsRight(m: AddrMap, d: Driver, ring: Ring, io: Io, r: int, moves: seq<Move>)
    requires d.Sane() && io.count < 0x1_0000_0000 && Mapped(m, io.pfns) && Covers(io.buf, io.count, |io.pfns|)
    ensures var cs := Translate(m, Pin(io.buf, io.count, io.pfns).chunks);
            cs.Some? && |io.pfns| > 0 && !ring.nonIncr && HostReady(m, d, ring.dir, io)
            && Ran(d, ring, ArgsOf(io), cs.value, r, moves) ==>
              var all := Meaning(ring.dir, BackedBytes(m, d.pages, io.buf, io.count, io.pfns), io.phyAddr);
              && moves <= all
              && r <= |moves|
              && ((forall i :: d.verdict(i) == Completed) ==> moves == all && r == ToInt(io.count))
    ensures var cs := Translate(m, Pin(io.buf, io.count, io.pfns).chunks);
            cs.Some? && !ring.nonIncr && !HostReady(m, d, ring.dir, io) && Ran(d, ring, ArgsOf(io), cs.value, r, moves) ==>
              r <= 0 && moves == []
  {
    hide Lookup, Pin, Translate, ChunkBytes, BackedBytes, HostBytes, SumBytes, BusPages, Backings, HasTwins, Meaning, AllPresent,
         AlignOk, PageCount, ToInt, Mapped, Covers;
    UploadedChunks(m, d.pages, io.buf, io.count, io.pfns);
    var cs := Translate(m, Pin(io.buf, io.count, io.pfns).chunks).value;
    if |io.pfns| > 0 && !ring.nonIncr && HostReady(m, d, ring.dir, io) {
      LengthAddsUp(io.count);
      OneMoveEach(ring.dir, BackedBytes(m, d.pages, io.buf, io.count, io.pfns), io.phyAddr);
      assert Accepted(d, ring, io.write, io.buf, io.count, io.phyAddr, cs);
    }
  }

  lemma LengthAddsUp(count: u64)
    ensures Wrap64(count - count) == 0
  {
  }

  /** char_sgdma_read_write of the guest stub against the host. For every buffer below 2^32
      bytes whose frames are mapped, byte k of the guest buffer is copied to or from device
      address phy_addr + k; whatever happens to the transfers, the bytes copied are the first
      of these and no fewer than reported. With a frame or a host page missing nothing is
      copied. */
  method ReadWrite(io: Io, host: Host, page: EscapePage, escapeSize: nat, hostMemory: bool, extra: nat -> nat,
                   d: Driver, ring: Ring)
    returns (ret: int, ghost moves: seq<Move>)
    requires host.Valid() && page.area.Length >= 12 && page.area != host.data && page.turn == TURN_GUEST
    requires Wrap32(page.area.Length - 12) > 0
    requires d.Sane() && ring.Valid() && !ring.nonIncr
    modifies host, host.data, page, page.area, ring, ring.desc
    ensures host.Valid() && ring.Valid()
    ensures !Pinnable(io) || !Mapped(host.addrs, io.pfns) ==> ret < 0 && moves == []
    ensures 56 + 24 * |io.pfns| > escapeSize || !old(host.listening) || !hostMemory ==> ret < 0 && moves == []
    ensures Pinnable(io) ==>
              && (56 + 24 * |io.pfns| > escapeSize ==> ret == -ENOMEM)
              && (56 + 24 * |io.pfns| <= escapeSize ==>
                    !old(host.listening) || !hostMemory || !Mapped(host.addrs, io.pfns) ==> ret == -ENXIO)
    ensures !HostReady(host.addrs, d, ring.dir, io) ==> ret <= 0 && moves == []
    ensures And(io.buf, d.align - 1) != And(io.phyAddr, d.align - 1) || io.write != (ring.dir == ToDevice) ==>
              ret <= 0 && moves == []
    ensures Pinnable(io) && 56 + 24 * |io.pfns| <= escapeSize && old(host.listening) && hostMemory
            && Mapped(host.addrs, io.pfns) && HostReady(host.addrs, d, ring.dir, io) ==>
              && Covers(io.buf, io.count, |io.pfns|)
              && var all := Meaning(ring.dir, BackedBytes(host.addrs, d.pages, io.buf, io.count, io.pfns), io.phyAddr);
                 && moves <= all
                 && ret <= |moves|
                 && ((forall i :: d.verdict(i) == Completed) ==>
                       moves == all && ret == if io.count < 0x8000_0000 then io.count else -ENXIO)
  {
    hide Pin, PageCount, HasTwins, BackedBytes, Meaning, HostReady, And, EncodeAll, DecodeAll, Translate, Ran, Wrap32, CeilDiv, Covers,
         ChunkBytes, BufferBytes;
    moves := [];
    NotReady(host.addrs, d, ring.dir, io);
    var chunks: seq<PageChunk>;
    ret, chunks := PinPages(io.buf, io.count, io.pinMemory, 0, io.pfns);
    if ret != 0 {
      return ret, [];
    }
    if 56 + 24 * |chunks| > escapeSize {
      return -ENOMEM, [];
    }
    PinnableCovers(io);
    var rounds: nat;
    ret, rounds := TransferChunkToHost(host, page, EncodeAll(chunks), ACTION_DMA, hostMemory, extra);
    if ret < 0 {
      return ret, [];
    }
    page.dma := ArgsOf(io);
    ghost var uploaded := host.data[..];
    ret, moves := PostDma(host, page, d, ring);
    ChunksRoundTrip(chunks);
    TranslatedIffMapped(host.addrs, io);
    if Mapped(host.addrs, io.pfns) {
      AnswerIsRight(host.addrs, d, ring, io, page.ret, moves);
      WholeBuffer(io.count);
    }
    if ret < 0 {
      return;
    }
    ret := page.ret;
  }

  lemma TranslatedIffMapped(m: AddrMap, io: Io)
    ensures Translate(m, Pin(io.buf, io.count, io.pfns).chunks).Some? <==> Mapped(m, io.pfns)
  {
    hide Translate, Pin, Lookup;
    PinnedShape(io.buf, io.count, io.pfns);
    TranslateAll(m, Pin(io.buf, io.count, io.pfns).chunks);
  }

  lemma WholeBuffer(count: u64)
    requires count < 0x1_0000_0000
    ensures ToInt(count) == if count < 0x8000_0000 then count else count - 0x1_0000_0000
  {
  }

  /** The write at memory level: afterwards device byte phy_addr + k is byte k of the guest
      buffer, read from its backing page, and every other device byte is as it was. */
  lemma BufferOnDevice<B>(m: AddrMap, pages: PageTableOf, io: Io, host: u64 -> B, dev: u64 -> B, x: u64)
    requires Covers(io.buf, io.count, |io.pfns|)
    ensures var rc := BackedBytes(m, pages, io.buf, io.count, io.pfns);
            var k := Wrap64(x - io.phyAddr);
            After(Meaning(ToDevice, rc, io.phyAddr), host, dev, x) == if k < io.count then host(rc[k]) else dev(x)
  {
    hide BackedBytes, Meaning, After;
    DeviceAfterWrite(BackedBytes(m, pages, io.buf, io.count, io.pfns), io.phyAddr, host, dev, x);
  }

  /** The read at memory level: byte k of the guest buffer holds device byte phy_addr + k in
      the end, unless a later byte of the buffer is backed by the same host byte. Host bytes
      outside the buffer's backing are as they were. */
  lemma DeviceInBuffer<B>(m: AddrMap, pages: PageTableOf, io: Io, host: u64 -> B, dev: u64 -> B, h: u64)
    requires Covers(io.buf, io.count, |io.pfns|)
    ensures var rc := BackedBytes(m, pages, io.buf, io.count, io.pfns);
            var after := After(Meaning(FromDevice, rc, io.phyAddr), dev, host, h);
            var k := LastIndex(rc, h);
            after == if k >= 0 then dev(Wrap64(io.phyAddr + k)) else host(h)
  {
    hide BackedBytes, Meaning, After, Wrap64;
    HostAfterRead(BackedBytes(m, pages, io.buf, io.count, io.pfns), io.phyAddr, host, dev, h);
  }

  /** Distinct backing pages share no byte, so then every byte of the buffer is its own. */
  lemma DistinctPagesDistinctBytes(m: AddrMap, pages: PageTableOf, io: Io, j: nat, k: nat)
    requires Covers(io.buf, io.count, |io.pfns|) && j < k < io.count
    requires forall a, b :: 0 <= a < b < |io.pfns| ==> Backing(m, pages, io.pfns[a]) != Backing(m, pages, io.pfns[b])
    requires forall a :: 0 <= a < |io.pfns| ==> Backing(m, pages, io.pfns[a]) % 4096 == 0
    ensures var rc := BackedBytes(m, pages, io.buf, io.count, io.pfns); rc[j] != rc[k]
  {
    hide *;
    var o := io.buf % 4096;
    PageOfByte(io.buf, io.count, io.pfns, j);
    PageOfByte(io.buf, io.count, io.pfns, k);
    BackedAt(m, pages, io.buf, io.count, io.pfns, j);
    BackedAt(m, pages, io.buf, io.count, io.pfns, k);
    var a, b := (o + j) / 4096, (o + k) / 4096;
    LaterPage(o + j, o + k);
    BytesApart(Backing(m, pages, io.pfns[a]), Backing(m, pages, io.pfns[b]), o + j, o + k);
  }

  lemma LaterPage(x: nat, y: nat)
    requires x < y
    ensures x / 4096 <= y / 4096
  {
  }

  lemma BytesApart(p: u64, q: u64, x: nat, y: nat)
    requires p % 4096 == 0 && q % 4096 == 0 && x < y && (p == q ==> x / 4096 == y / 4096)
    ensures Wrap64(p + x % 4096) != Wrap64(q + y % 4096)
  {
    InPage(p, x % 4096);
    InPage(q, y % 4096);
    hide Wrap64;
  }

  lemma InPage(page: u64, offset: nat)
    requires page % 4096 == 0 && offset < 4096
    ensures Wrap64(page + offset) == page + offset && (page + offset) / 4096 == page / 4096
  {
  }
}
