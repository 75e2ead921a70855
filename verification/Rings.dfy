/** The descriptor ring of an engine and transfer_init: the next part of a request is
    compiled into a chain that occupies consecutive ring slots and never wraps. */
module Rings {
  import opened Words
  import opened Dma
  import opened Descriptors
  import opened Requests

  /** The number of descriptors transfer_init takes from a request with `remaining` left,
      in a ring of `size` slots whose next slot is `s`. */
  function TransferSize(remaining: nat, size: nat, s: nat): (n: nat)
    requires s < size
    ensures n == Min(remaining, size - s)
    ensures s + n <= size && n <= remaining && (remaining > 0 ==> n > 0)
  {
    var descMax := Min(remaining, size);
    if s + descMax >= size then size - s else descMax
  }

  /** The next ring index after n descriptors at s. */
  function Advance(size: nat, s: nat, n: nat): (r: nat)
    requires s + n <= size && size > 0
    ensures r < size
    ensures r == if s + n == size then 0 else s + n
  {
    NextIndex(size, s + n);
    (s + n) % size
  }

  lemma NextIndex(size: nat, x: nat)
    requires 0 < size && x <= size
    ensures x % size == if x == size then 0 else x
  {
    DivUnique(x, size, if x == size then 1 else 0, if x == size then 0 else x);
  }

  // ----- how many transfers a request takes -----

  function Passes(cnt: nat, size: nat, s: nat): nat
    requires s < size
    decreases cnt
  {
    if cnt == 0 then 0
    else
      var n := TransferSize(cnt, size, s);
      1 + Passes(cnt - n, size, Advance(size, s, n))
  }

  lemma {:induction false} PassesFromStart(cnt: nat, size: nat)
    requires size > 0
    ensures Passes(cnt, size, 0) == CeilDiv(cnt, size)
    decreases cnt
  {
    CeilDivStep(cnt, size);
    hide CeilDiv;
    if cnt > size {
      PassesFromStart(cnt - size, size);
    }
  }

  /** One transfer when the request fits behind the current index, otherwise one more than
      the rounded-up number of full rings for the rest; at most two when the request fits
      the ring at all. */
  lemma PassCount(cnt: nat, size: nat, s: nat)
    requires s < size && cnt > 0
    ensures cnt <= size - s ==> Passes(cnt, size, s) == 1
    ensures cnt > size - s ==> Passes(cnt, size, s) == 1 + CeilDiv(cnt - (size - s), size)
    ensures cnt <= size ==> Passes(cnt, size, s) <= 2
  {
    if cnt > size - s {
      PassesFromStart(cnt - (size - s), size);
      CeilDivStep(cnt - (size - s), size);
    }
    hide CeilDiv;
  }

  // ----- the ring -----

  /** struct xdma_transfer as transfer_init fills it in: the slots it occupies and its
      32-bit byte count. */
  datatype Transfer = Transfer(descIndex: nat, descBus: nat, descNum: nat, len: u32)

  /** The software descriptors of the next n. */
  function Taken(sdesc: seq<Extent>, from: nat, n: nat): seq<Extent>
    requires from + n <= |sdesc|
  {
    sdesc[from..from + n]
  }

  /** The part of struct xdma_engine that transfer_init works on. */
  class Ring {
    const desc: array<Desc>
    const bus: nat
    const dir: Direction
    const nonIncr: bool
    var descIdx: nat
    var descUsed: int

    ghost predicate Valid()
      reads this
    {
      descIdx < desc.Length && RingBusOk(bus, desc.Length)
    }

    /** transfer_desc_init: chain n slots by bus address and terminate the last. */
    method DescInit(s: nat, n: nat)
      requires Valid() && n > 0 && s + n <= desc.Length && RingBusOk(SlotBus(bus, s), n)
      modifies desc
      ensures OnlySlots(old(desc[..]), desc[..], s, n)
      ensures LinkedUpTo(desc[..], s, n, SlotBus(bus, s), s + n) && PlainUpTo(desc[..], s, s + n)
    {
      hide Lo, Hi;
      var descBus := SlotBus(bus, s);
      var j := s;
      while j < s + n - 1
        invariant s <= j <= s + n - 1
        invariant descBus == SlotBus(bus, j)
        invariant OnlySlots(old(desc[..]), desc[..], s, n)
        invariant LinkedUpTo(desc[..], s, n, SlotBus(bus, s), j) && PlainUpTo(desc[..], s, j)
      {
        descBus := descBus + 32;
        desc[j] := SetNext(desc[j], descBus).(bytes := 0, control := DESC_MAGIC);
        j := j + 1;
      }
      desc[j] := SetNext(desc[j], 0).(bytes := 0, control := DESC_MAGIC);
    }

    /** transfer_build: fill in addresses and lengths, advancing the request. */
    method Build(req: Request, s: nat, n: nat) returns (len: u32)
      requires Valid() && s + n <= desc.Length && req.swDescIdx + n <= |req.sdesc| && RingBusOk(SlotBus(bus, s), n)
      requires LinkedUpTo(desc[..], s, n, SlotBus(bus, s), s + n) && PlainUpTo(desc[..], s, s + n)
      modifies desc, req
      ensures OnlySlots(old(desc[..]), desc[..], s, n)
      ensures LinkedUpTo(desc[..], s, n, SlotBus(bus, s), s + n) && PlainUpTo(desc[..], s, s + n)
      ensures var sds := Taken(req.sdesc, old(req.swDescIdx), n);
              && req.swDescIdx == old(req.swDescIdx) + n
              && req.epAddr == Wrap64(EpAt(nonIncr, sds, old(req.epAddr), n))
              && len == Wrap32(TotalLen(sds))
              && FilledUpTo(desc[..], s, Hops(nonIncr, sds, old(req.epAddr)), dir, s + n)
    {
      ghost var sds := Taken(req.sdesc, req.swDescIdx, n);
      ghost var ep0 := req.epAddr;
      ghost var hops := Hops(nonIncr, sds, ep0);
      len := 0;
      StartOfBuild(nonIncr, sds, ep0);
      assert FilledUpTo(desc[..], s, hops, dir, s) && OnlySlots(desc[..], desc[..], s, n);
      hide Wrap64, Wrap32, TotalLen, EpAt, SetTransfer, RingBusOk, LinkedUpTo, PlainUpTo, FilledUpTo, OnlySlots;
      for i := 0 to n
        invariant req.swDescIdx == old(req.swDescIdx)
        invariant req.epAddr == Wrap64(EpAt(nonIncr, sds, ep0, i)) && len == Wrap32(TotalLen(sds[..i]))
        invariant OnlySlots(old(desc[..]), desc[..], s, n) && FilledUpTo(desc[..], s, hops, dir, s + i)
        invariant LinkedUpTo(desc[..], s, n, SlotBus(bus, s), s + n) && PlainUpTo(desc[..], s, s + n)
      {
        var sdesc := req.sdesc[req.swDescIdx + i];
        assert hops[i] == Hop(sdesc, req.epAddr);
        ghost var before := desc[..];
        desc[s + i] := SetTransfer(desc[s + i], Hop(sdesc, req.epAddr), dir);
        assert desc[..] == before[s + i := SetTransfer(before[s + i], hops[i], dir)];
        FillOne(old(desc[..]), before, s, n, SlotBus(bus, s), hops, dir, i);
        StepOfBuild(nonIncr, sds, ep0, i);
        len := Wrap32(len + sdesc.len);
        if !nonIncr {
          req.epAddr := Wrap64(req.epAddr + sdesc.len);
        }
      }
      assert sds[..n] == sds;
      req.swDescIdx := req.swDescIdx + n;
    }

    /** The last loop of transfer_init: announce the adjacent counts. This finishes the chain
        of descriptors that are linked, flagged and filled in. */
    method SetAdjacent(s: nat, ghost hops: seq<Hop>, n: nat)
      requires Valid() && n == |hops| && s + n <= desc.Length && RingBusOk(SlotBus(bus, s), n)
      requires LinkedUpTo(desc[..], s, n, SlotBus(bus, s), s + n)
      requires FlaggedFrom(desc[..], s, n, s) && FilledUpTo(desc[..], s, hops, dir, s + n)
      modifies desc
      ensures OnlySlots(old(desc[..]), desc[..], s, n)
      ensures HoldsChain(desc[..], bus, s, dir, hops)
    {
      hide NextAdj, PackAdjacent, RingBusOk, ControlWord, LinkedUpTo, FlaggedFrom, FilledUpTo, AnnouncedUpTo,
        OnlySlots, AdjOfSlot, HoldsChain;
      NoneAnnounced(desc[..], s, n, SlotBus(bus, s));
      for i := 0 to n
        invariant OnlySlots(old(desc[..]), desc[..], s, n)
        invariant LinkedUpTo(desc[..], s, n, SlotBus(bus, s), s + n) && FilledUpTo(desc[..], s, hops, dir, s + n)
        invariant FlaggedFrom(desc[..], s, n, s + i) && AnnouncedUpTo(desc[..], s, n, SlotBus(bus, s), s + i)
      {
        ghost var before := desc[..];
        AnnounceOne(old(desc[..]), before, s, n, SlotBus(bus, s), hops, dir, i);
        var nextAdj := NextAdj(n - i - 1, desc[s + i].nextLo);
        desc[s + i] := desc[s + i].(control := PackAdjacent(desc[s + i].control, nextAdj));
        assert desc[..] == before[s + i := desc[s + i]];
      }
      FieldsGiveChain(desc[..], bus, s, dir, hops);
    }

    /** The descriptor writes of transfer_init, in its order. */
    method Compile(req: Request, s: nat, n: nat) returns (len: u32)
      requires Valid() && n > 0 && s + n <= desc.Length && req.swDescIdx + n <= |req.sdesc|
      modifies desc, req
      ensures var sds := Taken(req.sdesc, old(req.swDescIdx), n);
              && HoldsChain(desc[..], bus, s, dir, Hops(nonIncr, sds, old(req.epAddr)))
              && OnlySlots(old(desc[..]), desc[..], s, n)
              && len == Wrap32(TotalLen(sds))
              && req.swDescIdx == old(req.swDescIdx) + n
              && req.epAddr == Wrap64(EpAt(nonIncr, sds, old(req.epAddr), n))
    {
      SubRing(bus, desc.Length, s, n);
      ghost var hops := Hops(nonIncr, Taken(req.sdesc, req.swDescIdx, n), req.epAddr);
      HopsLength(nonIncr, Taken(req.sdesc, req.swDescIdx, n), req.epAddr);
      hide Wrap64, Wrap32, TotalLen, EpAt, SetControl, RingBusOk, HoldsChain, Hops,
        LinkedUpTo, PlainUpTo, FilledUpTo, FlaggedFrom, OnlySlots;
      DescInit(s, n);
      ghost var linked := desc[..];
      len := Build(req, s, n);
      ghost var filled := desc[..];
      FlagTheLast(filled, s, n, SlotBus(bus, s), hops, dir);
      desc[s + n - 1] := desc[s + n - 1].(control := SetControl(desc[s + n - 1].control, STOP_FLAGS));
      assert desc[..] == filled[s + n - 1 := desc[s + n - 1]];
      ghost var flagged := desc[..];
      SetAdjacent(s, hops, n);
      OnlySlotsChain(old(desc[..]), linked, filled, flagged, desc[..], s, n);
    }

    /** transfer_init for a memory-mapped engine. */
    method TransferInit(req: Request) returns (xfer: Transfer)
      requires Valid() && req.swDescIdx < |req.sdesc|
      modifies desc, this, req
      ensures Valid()
      ensures var n := TransferSize(|req.sdesc| - old(req.swDescIdx), desc.Length, old(descIdx));
              var sds := Taken(req.sdesc, old(req.swDescIdx), n);
              && n > 0
              && xfer == Transfer(old(descIdx), SlotBus(bus, old(descIdx)), n, Wrap32(TotalLen(sds)))
              && HoldsChain(desc[..], bus, old(descIdx), dir, Hops(nonIncr, sds, old(req.epAddr)))
              && OnlySlots(old(desc[..]), desc[..], old(descIdx), n)
              && descIdx == Advance(desc.Length, old(descIdx), n)
              && descUsed == old(descUsed) + n
              && req.swDescIdx == old(req.swDescIdx) + n
              && req.epAddr == Wrap64(EpAt(nonIncr, sds, old(req.epAddr), n))
    {
      hide Wrap64, Wrap32, TotalLen, EpAt, HoldsChain, Hops, OnlySlots;
      var n := TransferSize(|req.sdesc| - req.swDescIdx, desc.Length, descIdx);
      var s := descIdx;
      var len := Compile(req, s, n);
      xfer := Transfer(s, SlotBus(bus, s), n, len);
      Charge(n);
    }

    /** The ring index moves past n used descriptors. */
    method Charge(n: nat)
      requires Valid() && descIdx + n <= desc.Length
      modifies this
      ensures Valid() && descIdx == Advance(desc.Length, old(descIdx), n) && descUsed == old(descUsed) + n
    {
      descIdx := (descIdx + n) % desc.Length;
      descUsed := descUsed + n;
    }

    /** What a valid ring promises its users. */
    lemma ValidRing()
      requires Valid()
      ensures descIdx < desc.Length && RingBusOk(bus, desc.Length)
    {
    }

    /** transfer_destroy: the slots of a finished transfer are cleared. */
    method Destroy(s: nat, n: nat)
      requires s + n <= desc.Length
      modifies desc
      ensures OnlySlots(old(desc[..]), desc[..], s, n)
      ensures forall j :: s <= j < s + n ==> desc[j] == ZERO_DESC
    {
      for i := 0 to n
        invariant forall j :: 0 <= j < desc.Length && !(s <= j < s + i) ==> desc[j] == old(desc[j])
        invariant forall j :: s <= j < s + i ==> desc[j] == ZERO_DESC
      {
        desc[s + i] := ZERO_DESC;
      }
    }
  }

  /** The rings a and b differ at most in slots s up to s + n. */
  ghost predicate OnlySlots(a: seq<Desc>, b: seq<Desc>, s: nat, n: nat) {
    |a| == |b| && forall j :: 0 <= j < |a| && !(s <= j < s + n) ==> b[j] == a[j]
  }

  lemma OnlySlotsChain(a: seq<Desc>, b: seq<Desc>, c: seq<Desc>, d: seq<Desc>, e: seq<Desc>, s: nat, n: nat)
    requires OnlySlots(a, b, s, n) && OnlySlots(b, c, s, n) && OnlySlots(d, e, s, n)
    requires 0 < n && s + n <= |c| == |d| && d == c[s + n - 1 := d[s + n - 1]]
    ensures OnlySlots(a, e, s, n)
  {
  }

  lemma HopsLength(nonIncr: bool, sds: seq<Extent>, ep: nat)
    ensures |Hops(nonIncr, sds, ep)| == |sds|
  {
  }

  /** The control word before the adjacent count. */
  function FlagWord(last: bool): u32 {
    if last then SetControl(DESC_MAGIC, STOP_FLAGS) else DESC_MAGIC
  }

  /** Slots s up to k of a chain of n at `bus` are linked by bus address. */
  ghost predicate LinkedUpTo(ds: seq<Desc>, s: nat, n: nat, bus: nat, k: nat)
    requires RingBusOk(bus, n) && s <= k <= s + n <= |ds|
  {
    forall j :: s <= j < k ==> ds[j].nextLo == Lo(NextOfSlot(n, bus, j - s)) && ds[j].nextHi == Hi(NextOfSlot(n, bus, j - s))
  }

  /** They carry no flags yet; from slot k on they carry the flags but no count yet; up to
      slot k they announce their adjacent counts. */
  ghost predicate PlainUpTo(ds: seq<Desc>, s: nat, k: nat)
    requires s <= k <= |ds|
  {
    forall j :: s <= j < k ==> ds[j].control == DESC_MAGIC
  }

  ghost predicate FlaggedFrom(ds: seq<Desc>, s: nat, n: nat, k: nat)
    requires s <= k <= s + n <= |ds|
  {
    forall j :: k <= j < s + n ==> ds[j].control == FlagWord(j + 1 == s + n)
  }

  ghost predicate AnnouncedUpTo(ds: seq<Desc>, s: nat, n: nat, bus: nat, k: nat)
    requires RingBusOk(bus, n) && s <= k <= s + n <= |ds|
  {
    forall j :: s <= j < k ==> ds[j].control == ControlWord(j + 1 == s + n, AdjOfSlot(n, bus, j - s))
  }

  /** They carry the addresses and length of their hop. */
  ghost predicate FilledUpTo(ds: seq<Desc>, s: nat, hops: seq<Hop>, dir: Direction, k: nat)
    requires s <= k <= |ds| && k - s <= |hops|
  {
    forall j :: s <= j < k ==> ds[j] == SetTransfer(ds[j], hops[j - s], dir)
  }

  lemma FlagTheLast(ds: seq<Desc>, s: nat, n: nat, bus: nat, hops: seq<Hop>, dir: Direction)
    requires RingBusOk(bus, n) && 0 < n == |hops| && s + n <= |ds|
    requires LinkedUpTo(ds, s, n, bus, s + n) && PlainUpTo(ds, s, s + n) && FilledUpTo(ds, s, hops, dir, s + n)
    ensures var d := ds[s + n - 1];
            var ds' := ds[s + n - 1 := d.(control := SetControl(d.control, STOP_FLAGS))];
            LinkedUpTo(ds', s, n, bus, s + n) && FlaggedFrom(ds', s, n, s) && FilledUpTo(ds', s, hops, dir, s + n)
  {
    hide RingBusOk, NextOfSlot, Lo, Hi;
  }

  lemma FillOne(was: seq<Desc>, ds: seq<Desc>, s: nat, n: nat, bus: nat, hops: seq<Hop>, dir: Direction, i: nat)
    requires RingBusOk(bus, n) && i < n == |hops| && s + n <= |ds|
    requires OnlySlots(was, ds, s, n) && FilledUpTo(ds, s, hops, dir, s + i)
    requires LinkedUpTo(ds, s, n, bus, s + n) && PlainUpTo(ds, s, s + n)
    ensures var ds' := ds[s + i := SetTransfer(ds[s + i], hops[i], dir)];
            && OnlySlots(was, ds', s, n) && FilledUpTo(ds', s, hops, dir, s + i + 1)
            && LinkedUpTo(ds', s, n, bus, s + n) && PlainUpTo(ds', s, s + n)
  {
    hide RingBusOk, NextOfSlot, Lo, Hi;
  }

  lemma NoneAnnounced(ds: seq<Desc>, s: nat, n: nat, bus: nat)
    requires s + n <= |ds| && RingBusOk(bus, n)
    ensures AnnouncedUpTo(ds, s, n, bus, s) && OnlySlots(ds, ds, s, n)
  {
  }

  lemma AnnounceOne(was: seq<Desc>, ds: seq<Desc>, s: nat, n: nat, bus: nat, hops: seq<Hop>, dir: Direction, i: nat)
    requires RingBusOk(bus, n) && i < n == |hops| && s + n <= |ds|
    requires OnlySlots(was, ds, s, n) && LinkedUpTo(ds, s, n, bus, s + n) && FilledUpTo(ds, s, hops, dir, s + n)
    requires FlaggedFrom(ds, s, n, s + i) && AnnouncedUpTo(ds, s, n, bus, s + i)
    ensures NextAdj(n - i - 1, ds[s + i].nextLo) == AdjOfSlot(n, bus, i) < 64
    ensures PackAdjacent(ds[s + i].control, AdjOfSlot(n, bus, i)) == ControlWord(i + 1 == n, AdjOfSlot(n, bus, i))
    ensures var ds' := ds[s + i := ds[s + i].(control := ControlWord(i + 1 == n, AdjOfSlot(n, bus, i)))];
            && OnlySlots(was, ds', s, n) && LinkedUpTo(ds', s, n, bus, s + n) && FilledUpTo(ds', s, hops, dir, s + n)
            && FlaggedFrom(ds', s, n, s + i + 1) && AnnouncedUpTo(ds', s, n, bus, s + i + 1)
  {
    hide RingBusOk, NextOfSlot, Lo, Hi, NextAdj, PackAdjacent, SetControl;
    PackFits(i + 1 == n, AdjOfSlot(n, bus, i));
  }

  /** Links, control words and transfer fields are all the fields of a descriptor. */
  lemma FieldsGiveChain(ds: seq<Desc>, base: nat, s: nat, dir: Direction, hops: seq<Hop>)
    requires s + |hops| <= |ds| && RingBusOk(base, |ds|) && RingBusOk(SlotBus(base, s), |hops|)
    requires LinkedUpTo(ds, s, |hops|, SlotBus(base, s), s + |hops|)
    requires AnnouncedUpTo(ds, s, |hops|, SlotBus(base, s), s + |hops|)
    requires FilledUpTo(ds, s, hops, dir, s + |hops|)
    ensures HoldsChain(ds, base, s, dir, hops)
  {
  }

  lemma PackFits(last: bool, adj: nat)
    requires adj < 64
    ensures PackAdjacent(FlagWord(last), adj) == ControlWord(last, adj)
  {
  }

  lemma StartOfBuild(nonIncr: bool, sds: seq<Extent>, ep: u64)
    ensures ep == Wrap64(EpAt(nonIncr, sds, ep, 0)) && Wrap32(TotalLen(sds[..0])) == 0
  {
  }

  lemma StepOfBuild(nonIncr: bool, sds: seq<Extent>, ep: u64, i: nat)
    requires i < |sds|
    ensures Wrap64(EpAt(nonIncr, sds, ep, i + 1))
         == if nonIncr then Wrap64(EpAt(nonIncr, sds, ep, i)) else Wrap64(Wrap64(EpAt(nonIncr, sds, ep, i)) + sds[i].len)
    ensures Wrap32(TotalLen(sds[..i + 1])) == Wrap32(Wrap32(TotalLen(sds[..i])) + sds[i].len)
  {
    hide Wrap64, Wrap32;
    TotalSnoc(sds, i);
    hide TotalLen;
    WrapAdd(EpAt(nonIncr, sds, ep, i), sds[i].len);
    WrapAdd32(TotalLen(sds[..i]), sds[i].len);
  }

  lemma TotalSnoc(sds: seq<Extent>, i: nat)
    requires i < |sds|
    ensures TotalLen(sds[..i + 1]) == TotalLen(sds[..i]) + sds[i].len
  {
    hide ExtentBytes, Bytes;
    assert sds[..i + 1] == sds[..i] + [sds[i]];
    BytesAppend(sds[..i], [sds[i]]);
    assert TotalLen([sds[i]]) == sds[i].len;
  }

  lemma WrapAdd32(x: nat, k: nat)
    ensures Wrap32(Wrap32(x) + k) == Wrap32(x + k)
  {
  }
}
