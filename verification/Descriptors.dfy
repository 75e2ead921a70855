/** The hardware descriptors of the XDMA engine: their layout, the control word,
    adjacency announcements, the chain that the driver builds for one transfer, and
    two hardware interpreters of such a chain. */
module Descriptors {
  import opened Words
  import opened Masks
  import opened Dma

  const DESC_MAGIC: u32 := 0xAD4B_0000

  // Literal sizes below: sizeof(struct xdma_desc) is 32, XDMA_MAX_ADJ_BLOCK_SIZE is 64
  // and XDMA_PAGE_SIZE is 4096.

  /** struct xdma_desc. */
  datatype Desc = Desc(control: u32, bytes: u32, srcLo: u32, srcHi: u32, dstLo: u32, dstHi: u32,
                       nextLo: u32, nextHi: u32)

  const ZERO_DESC := Desc(0, 0, 0, 0, 0, 0, 0, 0)

  // ----- control word -----
  // Masks are written as arithmetic on the fields they select: bits 31..16 hold the
  // magic, bits 7..0 the control flags, bits 13..8 the adjacent count.

  /** xdma_desc_control_set on a field that fits the low byte: (control & ~0xFF) | field. */
  function SetControl(control: u32, field: nat): u32
    requires field < 256
  {
    control - control % 256 + field
  }

  /** xdma_desc_adjacent: (control & 0xF0FF) | DESC_MAGIC | (adj << 8). The kept bits
      15..12 meet the two high bits of the count. */
  function PackAdjacent(control: u32, adj: nat): nat
    requires adj < 64
  {
    0xAD4B_0000 + 4096 * Or(control / 4096 % 16, adj / 16) + 256 * (adj % 16) + control % 256
  }

  /** How the hardware reads the fields back. */
  function AdjacentOf(control: u32): nat { control / 256 % 64 }

  predicate MagicOk(control: u32) { control / 65536 == 0xAD4B }

  predicate Stops(control: u32) { control % 2 == 1 }

  /** STOPPED 0x01, COMPLETED 0x02 and EOP 0x10. */
  const STOP_FLAGS: nat := 0x13

  /** The control word that transfer_init leaves in a descriptor. */
  function ControlWord(last: bool, adj: nat): u32
    requires adj < 64
  {
    var control: u32 := if last then SetControl(DESC_MAGIC, STOP_FLAGS) else DESC_MAGIC;
    PackedValue(control, if last then 0x13 else 0, adj);
    PackAdjacent(control, adj)
  }

  lemma PackedValue(control: u32, flags: nat, adj: nat)
    requires adj < 64 && flags < 256 && control == 0xAD4B_0000 + flags
    ensures PackAdjacent(control, adj) == 0xAD4B_0000 + 256 * adj + flags
  {
  }

  lemma ControlWordValue(last: bool, adj: nat)
    requires adj < 64
    ensures ControlWord(last, adj) == 0xAD4B_0000 + 256 * adj + (if last then 0x13 else 0)
  {
    PackedValue(if last then SetControl(DESC_MAGIC, STOP_FLAGS) else DESC_MAGIC, if last then 0x13 else 0, adj);
  }

  lemma FieldsOf(c: u32, adj: nat, flags: nat)
    requires adj < 64 && flags < 256 && c == 0xAD4B_0000 + 256 * adj + flags
    ensures MagicOk(c) && AdjacentOf(c) == adj && c % 256 == flags && (Stops(c) <==> flags % 2 == 1)
  {
  }

  /** Packing the adjacent count damages neither the magic nor the control flags,
      and the count is read back unchanged. */
  lemma ControlWordFields(last: bool, adj: nat)
    requires adj < 64
    ensures var c := ControlWord(last, adj);
            && MagicOk(c)
            && AdjacentOf(c) == adj
            && c % 256 == (if last then STOP_FLAGS else 0)
            && (Stops(c) <==> last)
  {
    hide ControlWord, MagicOk, AdjacentOf, Stops;
    ControlWordValue(last, adj);
    FieldsOf(ControlWord(last, adj), adj, if last then 0x13 else 0);
  }

  // ----- adjacency -----

  /** xdma_get_next_adj. */
  function NextAdj(remaining: nat, nextLo: u32): nat {
    if remaining <= 1 then 0
    else
      var nextIndex := ((nextLo % 4096) / 32) % 64;
      Min(64 - nextIndex - 1, remaining - 1)
  }

  /** XDMA_PAGE_SIZE pages of bus addresses. */
  function PageOf(a: nat): nat { a / 4096 }

  /** The aligned block of 64 descriptors that holds a bus address. */
  function AdjBlock(a: nat): nat { a / (32 * 64) }

  /** The announced count is sound and maximal: starting at a descriptor address with
      `remaining` descriptors of the transfer from there on, the block of 1 + NextAdj
      descriptors stays within the transfer and within one aligned block of 64 (so within
      one page), and no longer block does. */
  lemma NextAdjMaximal(remaining: nat, next: u64)
    requires remaining >= 1 && next % 32 == 0
    ensures var a := NextAdj(remaining, Lo(next));
            && a < 64
            && a + 1 <= remaining
            && AdjBlock(next + 32 * a) == AdjBlock(next)
            && PageOf(next + 32 * a) == PageOf(next)
            && (a + 1 == remaining || AdjBlock(next + 32 * (a + 1)) == AdjBlock(next) + 1)
  {
    hide NextAdj, AdjBlock, PageOf, Lo;
    var b, x := PlaceOf(next);
    NextAdjAt(remaining, next, b, x);
    var a := NextAdj(remaining, Lo(next));
    BlockAt(b, x, 0);
    BlockAt(b, x, a);
    BlockAt(b, x, a + 1);
  }

  lemma PlaceOf(next: u64) returns (b: nat, x: nat)
    requires next % 32 == 0
    ensures next == 2048 * b + 32 * x && x < 64
  {
    b, x := next / 2048, next % 2048 / 32;
  }

  lemma NextAdjAt(remaining: nat, next: u64, b: nat, x: nat)
    requires next == 2048 * b + 32 * x && x < 64 && remaining >= 1
    ensures NextAdj(remaining, Lo(next)) == Min(63 - x, remaining - 1)
  {
    IndexInBlock(next, b, x);
  }

  /** Blocks and pages of the descriptors around slot x of block b. */
  lemma BlockAt(b: nat, x: nat, k: nat)
    requires x + k <= 64
    ensures AdjBlock(2048 * b + 32 * x + 32 * k) == if x + k < 64 then b else b + 1
    ensures x + k < 64 ==> PageOf(2048 * b + 32 * x + 32 * k) == b / 2
  {
  }

  lemma IndexInBlock(next: u64, b: nat, x: nat)
    requires next == 2048 * b + 32 * x && x < 64
    ensures ((Lo(next) % 4096) / 32) % 64 == x
  {
    var h := b % 2;
    LoInPage(next);
    DivUnique(next, 4096, b / 2, 2048 * h + 32 * x);
    DivUnique(2048 * h + 32 * x, 32, 64 * h + x, 0);
    DivUnique(64 * h + x, 64, h, x);
  }

  lemma LoInPage(a: u64)
    ensures Lo(a) % 4096 == a % 4096
  {
  }

  // ----- the chain of one transfer -----

  /** One descriptor's work: a contiguous run of host bytes and the device address of the
      first of them. */
  datatype Hop = Hop(ext: Extent, ep: u64)

  /** What the hops of a chain mean, one after the other. */
  function HopsMeaning(dir: Direction, hops: seq<Hop>): seq<Move> {
    if hops == [] then []
    else Meaning(dir, ExtentBytes(hops[0].ext), hops[0].ep) + HopsMeaning(dir, hops[1..])
  }

  /** The device address of descriptor i: req->ep_addr advances unless the engine runs in
      non-incremental mode. */
  function EpAt(nonIncr: bool, sds: seq<Extent>, ep: nat, i: nat): nat
    requires i <= |sds|
  {
    if nonIncr then ep else ep + TotalLen(sds[..i])
  }

  /** xdma_desc_set. */
  function SetTransfer(d: Desc, hop: Hop, dir: Direction): Desc {
    var src := if dir == ToDevice then hop.ext.addr else hop.ep;
    var dst := if dir == ToDevice then hop.ep else hop.ext.addr;
    d.(bytes := hop.ext.len, srcLo := Lo(src), srcHi := Hi(src), dstLo := Lo(dst), dstHi := Hi(dst))
  }

  function SetNext(d: Desc, next: u64): Desc {
    d.(nextLo := Lo(next), nextHi := Hi(next))
  }

  /** Bus address of slot i of a ring at bus address `base`. */
  function SlotBus(base: nat, i: nat): nat { base + 32 * i }

  predicate RingBusOk(base: nat, size: nat) {
    base % 32 == 0 && SlotBus(base, size) <= TWO64
  }

  lemma SubRing(base: nat, size: nat, s: nat, n: nat)
    requires RingBusOk(base, size) && s + n <= size
    ensures RingBusOk(SlotBus(base, s), n) && SlotBus(base, s) % 32 == 0
  {
  }

  /** The count that slot i of a chain announces for the descriptors after its successor. */
  function AdjOfSlot(n: nat, bus: nat, i: nat): (a: nat)
    requires i < n && RingBusOk(bus, n)
    ensures a < 64
  {
    NextAdj(n - i - 1, Lo(NextOfSlot(n, bus, i)))
  }

  function NextOfSlot(n: nat, bus: nat, i: nat): u64
    requires i < n && RingBusOk(bus, n)
  {
    if i + 1 < n then SlotBus(bus, i + 1) else 0
  }

  /** Descriptor i of a finished chain of |hops| descriptors whose first lies at `bus`. */
  function ChainDesc(dir: Direction, hops: seq<Hop>, bus: nat, i: nat): Desc
    requires i < |hops| && RingBusOk(bus, |hops|)
  {
    var n := |hops|;
    var d := ZERO_DESC.(control := ControlWord(i + 1 == n, AdjOfSlot(n, bus, i)));
    SetTransfer(SetNext(d, NextOfSlot(n, bus, i)), hops[i], dir)
  }

  /** Slots s, s+1, ... of the ring hold the finished chain for the hops. */
  ghost predicate HoldsChain(ring: seq<Desc>, base: nat, s: nat, dir: Direction, hops: seq<Hop>)
  {
    && s + |hops| <= |ring| && RingBusOk(base, |ring|)
    && RingBusOk(SlotBus(base, s), |hops|)
    && forall j :: s <= j < s + |hops| ==> ring[j] == ChainDesc(dir, hops, SlotBus(base, s), j - s)
  }

  lemma SubRingOfChain(ring: seq<Desc>, base: nat, s: nat, dir: Direction, hops: seq<Hop>)
    requires HoldsChain(ring, base, s, dir, hops)
    ensures s + |hops| <= |ring| && RingBusOk(SlotBus(base, s), |hops|)
    ensures SlotBus(base, s) % 32 == 0 && SlotBus(base, s + |hops|) <= TWO64
  {
    hide ChainDesc;
    SubRing(base, |ring|, s, |hops|);
  }

  // ----- the hardware -----

  /** How a run of the engine ends: on a descriptor with the STOPPED flag, on a descriptor
      it cannot fetch or whose magic is wrong, on a prefetch that leaves its page, or not
      within the given number of descriptors. */
  datatype Outcome = Halted(moves: seq<Move>) | BadFetch | BadMagic | BadPrefetch | StillRunning

  function Then(moves: seq<Move>, o: Outcome): Outcome {
    if o.Halted? then Halted(moves + o.moves) else o
  }

  /** The ring slot at a bus address, or -1. */
  function SlotAt(base: nat, size: nat, addr: nat): (i: int)
    ensures i == -1 || 0 <= i < size
  {
    if addr >= base && (addr - base) % 32 == 0 && (addr - base) / 32 < size then (addr - base) / 32 else -1
  }

  lemma SlotAtBus(base: nat, size: nat, i: nat)
    requires i < size
    ensures SlotAt(base, size, SlotBus(base, i)) == i
  {
  }

  function Execute(d: Desc): seq<Move> {
    Copy(Join(d.srcLo, d.srcHi), Join(d.dstLo, d.dstHi), d.bytes)
  }

  /** The engine that follows the next pointer of every descriptor. */
  function Run(ring: seq<Desc>, base: nat, addr: nat, fuel: nat): Outcome
    decreases fuel
  {
    if fuel == 0 then StillRunning
    else if SlotAt(base, |ring|, addr) < 0 then BadFetch
    else
      var d := ring[SlotAt(base, |ring|, addr)];
      if !MagicOk(d.control) then BadMagic
      else if Stops(d.control) then Halted(Execute(d))
      else Then(Execute(d), Run(ring, base, Join(d.nextLo, d.nextHi), fuel - 1))
  }

  /** The engine that trusts the adjacent counts: it fetches `extra` descriptors behind the
      one at addr in the same burst, reading a next pointer only at the end of a burst. A
      burst that leaves a page is an error. */
  function RunPrefetching(ring: seq<Desc>, base: nat, addr: nat, extra: nat, fuel: nat): Outcome
    decreases fuel
  {
    if fuel == 0 then StillRunning
    else if SlotAt(base, |ring|, addr) < 0 then BadFetch
    else
      var d := ring[SlotAt(base, |ring|, addr)];
      if !MagicOk(d.control) then BadMagic
      else if Stops(d.control) then Halted(Execute(d))
      else if extra == 0 then
        Then(Execute(d), RunPrefetching(ring, base, Join(d.nextLo, d.nextHi), AdjacentOf(d.control), fuel - 1))
      else if PageOf(addr + 32) != PageOf(addr) then BadPrefetch
      else Then(Execute(d), RunPrefetching(ring, base, addr + 32, extra - 1, fuel - 1))
  }

  /** What the hardware sees in descriptor i of a chain at `bus`. */
  lemma ChainDescFields(dir: Direction, hops: seq<Hop>, bus: nat, i: nat)
    requires RingBusOk(bus, |hops|) && i < |hops|
    ensures var d := ChainDesc(dir, hops, bus, i);
            && MagicOk(d.control) && (Stops(d.control) <==> i + 1 == |hops|)
            && AdjacentOf(d.control) == AdjOfSlot(|hops|, bus, i)
            && Join(d.nextLo, d.nextHi) == NextOfSlot(|hops|, bus, i)
            && Execute(d) == Meaning(dir, ExtentBytes(hops[i].ext), hops[i].ep)
  {
    hide MagicOk, Stops, AdjacentOf, ControlWord, NextAdj, NextOfSlot, AdjOfSlot, RingBusOk, EpAt, Lo, Hi, Join, Wrap64,
      Copy, Meaning, ExtentBytes;
    ControlWordFields(i + 1 == |hops|, AdjOfSlot(|hops|, bus, i));
    JoinHalves(hops[i].ep);
    JoinHalves(hops[i].ext.addr);
    JoinHalves(NextOfSlot(|hops|, bus, i));
    CopyMeaning(dir, hops[i].ext, hops[i].ep);
  }

  /** The same facts about slot s + i of a ring that holds the chain from slot s on. */
  lemma ChainSlot(ring: seq<Desc>, base: nat, s: nat, dir: Direction, hops: seq<Hop>, i: nat)
    requires HoldsChain(ring, base, s, dir, hops) && i < |hops|
    ensures SlotAt(base, |ring|, SlotBus(base, s + i)) == s + i
    ensures RingBusOk(SlotBus(base, s), |hops|)
    ensures var d := ring[s + i];
            && MagicOk(d.control) && (Stops(d.control) <==> i + 1 == |hops|)
            && AdjacentOf(d.control) == AdjOfSlot(|hops|, SlotBus(base, s), i)
            && (i + 1 < |hops| ==> Join(d.nextLo, d.nextHi) == SlotBus(base, s + i + 1))
            && Execute(d) == Meaning(dir, ExtentBytes(hops[i].ext), hops[i].ep)
  {
    hide RingBusOk, ChainDesc, SlotAt, MagicOk, Stops, AdjacentOf, Execute, AdjOfSlot, Join, Meaning, ExtentBytes, EpAt, Wrap64;
    SubRing(base, |ring|, s, |hops|);
    SlotAtBus(base, |ring|, s + i);
    ChainDescFields(dir, hops, SlotBus(base, s), i);
  }

  /** Running a chain from any of its descriptors on does the work of the remaining hops,
      in order, and stops. */
  lemma {:induction false} ChainSuffixRuns(ring: seq<Desc>, base: nat, s: nat, dir: Direction,
                                           hops: seq<Hop>, i: nat, fuel: nat)
    requires HoldsChain(ring, base, s, dir, hops)
    requires i < |hops| && fuel >= |hops| - i
    ensures Run(ring, base, SlotBus(base, s + i), fuel) == Halted(HopsMeaning(dir, hops[i..]))
    decreases |hops| - i
  {
    hide AdjacentOf, MagicOk, Stops, NextAdj, Execute, SlotAt, PageOf, AdjBlock, Lo, Join, HoldsChain, RingBusOk, Meaning,
      ExtentBytes;
    SubRingOfChain(ring, base, s, dir, hops);
    ChainSlot(ring, base, s, dir, hops, i);
    assert hops[i..][1..] == hops[i + 1..];
    if i + 1 < |hops| {
      ChainSuffixRuns(ring, base, s, dir, hops, i + 1, fuel - 1);
    }
  }

  /** The compiled chain means what its hops mean: from the first descriptor the hardware
      does the work of every hop, in order, and stops. */
  lemma ChainRuns(ring: seq<Desc>, base: nat, s: nat, dir: Direction, hops: seq<Hop>, fuel: nat)
    requires HoldsChain(ring, base, s, dir, hops)
    requires 0 < |hops| <= fuel
    ensures Run(ring, base, SlotBus(base, s), fuel) == Halted(HopsMeaning(dir, hops))
  {
    hide Run, HoldsChain, HopsMeaning;
    ChainSuffixRuns(ring, base, s, dir, hops, 0, fuel);
    assert hops[0..] == hops;
  }

  // ----- the hops of transfer_build -----

  /** transfer_build gives descriptor i the i-th software descriptor and the device address
      the request has reached. */
  function Hops(nonIncr: bool, sds: seq<Extent>, ep: nat): seq<Hop> {
    seq(|sds|, i requires 0 <= i < |sds| => Hop(sds[i], Wrap64(EpAt(nonIncr, sds, ep, i))))
  }

  lemma MeaningStep(dir: Direction, sds: seq<Extent>, ep: nat, i: nat)
    requires i < |sds|
    ensures EpAt(false, sds, ep, i + 1) == EpAt(false, sds, ep, i) + sds[i].len
    ensures Meaning(dir, Bytes(sds[i..]), EpAt(false, sds, ep, i))
         == Meaning(dir, ExtentBytes(sds[i]), Wrap64(EpAt(false, sds, ep, i)))
          + Meaning(dir, Bytes(sds[i + 1..]), EpAt(false, sds, ep, i + 1))
    ensures i + 1 == |sds| ==> Bytes(sds[i + 1..]) == []
  {
    assert sds[..i + 1] == sds[..i] + [sds[i]];
    BytesAppend(sds[..i], [sds[i]]);
    assert sds[i..][1..] == sds[i + 1..];
    var e := EpAt(false, sds, ep, i);
    MeaningAppend(dir, ExtentBytes(sds[i]), Bytes(sds[i + 1..]), e);
    MeaningWrap(dir, ExtentBytes(sds[i]), e);
  }

  lemma {:induction false} HopsSuffixMeaning(dir: Direction, sds: seq<Extent>, ep: nat, i: nat)
    requires i <= |sds|
    ensures HopsMeaning(dir, Hops(false, sds, ep)[i..]) == Meaning(dir, Bytes(sds[i..]), EpAt(false, sds, ep, i))
    decreases |sds| - i
  {
    var hops := Hops(false, sds, ep);
    if i < |sds| {
      assert hops[i..][1..] == hops[i + 1..] && hops[i..][0] == Hop(sds[i], Wrap64(EpAt(false, sds, ep, i)));
      HopsSuffixMeaning(dir, sds, ep, i + 1);
      MeaningStep(dir, sds, ep, i);
      hide Hops, EpAt, Meaning, Bytes, ExtentBytes, Wrap64;
    }
  }

  /** In incremental mode the hops of a transfer copy byte k of its software descriptors to
      or from ep + k. */
  lemma IncrementalHops(dir: Direction, sds: seq<Extent>, ep: nat)
    ensures HopsMeaning(dir, Hops(false, sds, ep)) == Meaning(dir, Bytes(sds), ep)
  {
    HopsSuffixMeaning(dir, sds, ep, 0);
    assert sds[0..] == sds && Hops(false, sds, ep)[0..] == Hops(false, sds, ep) && sds[..0] == [];
  }

  // ----- prefetching -----

  lemma SamePage(a: nat, b: nat, c: nat)
    requires a <= b <= c && PageOf(a) == PageOf(c)
    ensures PageOf(b) == PageOf(a)
  {
  }

  /** Prefetching by the announced counts never fetches a descriptor that the next
      pointers would not reach, and so gives the same run. */
  lemma {:induction false} PrefetchSuffix(ring: seq<Desc>, base: nat, s: nat, dir: Direction, hops: seq<Hop>,
                                          i: nat, extra: nat, fuel: nat)
    requires HoldsChain(ring, base, s, dir, hops)
    requires i + extra < |hops|
    requires PageOf(SlotBus(base, s + i + extra)) == PageOf(SlotBus(base, s + i))
    ensures RunPrefetching(ring, base, SlotBus(base, s + i), extra, fuel) == Run(ring, base, SlotBus(base, s + i), fuel)
    decreases |hops| - i
  {
    hide AdjacentOf, MagicOk, Stops, NextAdj, Execute, SlotAt, PageOf, AdjBlock, Lo, Join, HoldsChain, RingBusOk;
    SubRingOfChain(ring, base, s, dir, hops);
    ChainSlot(ring, base, s, dir, hops, i);
    if fuel > 0 && i + 1 < |hops| {
      var n, bus := |hops|, SlotBus(base, s);
      var here, next := SlotBus(base, s + i), SlotBus(base, s + i + 1);
      if extra == 0 {
        assert NextOfSlot(n, bus, i) == next;
        NextAdjMaximal(n - i - 1, next);
        PrefetchSuffix(ring, base, s, dir, hops, i + 1, AdjOfSlot(n, bus, i), fuel - 1);
      } else {
        SamePage(here, next, SlotBus(base, s + i + extra));
        PrefetchSuffix(ring, base, s, dir, hops, i + 1, extra - 1, fuel - 1);
      }
    }
  }

  /** engine_start announces first_desc_adjacent for the first descriptor; from there the
      prefetching engine does what the pointer-following engine does. */
  lemma PrefetchRefinesRun(ring: seq<Desc>, base: nat, s: nat, dir: Direction, hops: seq<Hop>, fuel: nat)
    requires HoldsChain(ring, base, s, dir, hops) && |hops| > 0
    ensures var first: u64 := SlotBus(base, s);
            RunPrefetching(ring, base, first, NextAdj(|hops|, Lo(first)), fuel) == Run(ring, base, first, fuel)
  {
    hide Run, RunPrefetching, HoldsChain, NextAdj, PageOf, AdjBlock, Lo, RingBusOk;
    SubRingOfChain(ring, base, s, dir, hops);
    var first: u64 := SlotBus(base, s);
    NextAdjMaximal(|hops|, first);
    PrefetchSuffix(ring, base, s, dir, hops, 0, NextAdj(|hops|, Lo(first)), fuel);
  }

  /** Every descriptor of a chain announces, in the control word the hardware reads, the
      longest block behind its successor that stays in the transfer and in one aligned
      block of 64 descriptors. */
  lemma AdjacencySoundAndMaximal(ring: seq<Desc>, base: nat, s: nat, dir: Direction, hops: seq<Hop>, i: nat)
    requires HoldsChain(ring, base, s, dir, hops) && i + 1 < |hops|
    ensures var a := AdjacentOf(ring[s + i].control);
            var next := SlotBus(base, s + i + 1);
            && i + 1 + a < |hops|
            && AdjBlock(SlotBus(base, s + i + 1 + a)) == AdjBlock(next)
            && PageOf(SlotBus(base, s + i + 1 + a)) == PageOf(next)
            && (i + 1 + a == |hops| - 1 || AdjBlock(SlotBus(base, s + i + 2 + a)) != AdjBlock(next))
  {
    hide AdjacentOf, MagicOk, Stops, NextAdj, Execute, SlotAt, PageOf, AdjBlock, Lo, Join, HoldsChain, RingBusOk;
    SubRingOfChain(ring, base, s, dir, hops);
    ChainSlot(ring, base, s, dir, hops, i);
    NextAdjMaximal(|hops| - i - 1, SlotBus(base, s + i + 1));
  }
}
