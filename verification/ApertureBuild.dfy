/** One pass of xdma_xfer_aperture on the engine's ring: the loops that fill, link and
    announce its descriptors, proved against the cutting of the entries the pass visits. */
module ApertureBuild {
  import opened Words
  import opened Masks
  import opened Dma
  import opened Descriptors
  import opened Rings
  import opened Aperture
  import opened AperturePasses
  import opened ApertureRequests

  /** The bounds on a descriptor's address and length, as the inner loop computes them. */
  method NextPiece(w: Window, tlen: nat, epAddr: u64) returns (len: nat, addr: u64)
    requires 0 < tlen
    ensures Piece(addr, len) == PieceAt(w, tlen, epAddr)
    ensures forall pos :: 0 <= pos <= w.ap && epAddr == Wrap64(w.ep + pos) && PieceOk(w, tlen, pos) ==>
                            addr == w.ep + Turned(w, pos) && len == PieceLen(w, tlen, Turned(w, pos))
  {
    len, addr := Min(tlen, w.maxlen), epAddr;
    if addr > MaxAddr(w) {
      addr := w.ep;
    }
    if Wrap64(addr + len) > MaxAddr(w) {
      len := MaxAddr(w) - addr + 1;
    }
    forall pos | 0 <= pos <= w.ap && epAddr == Wrap64(w.ep + pos) && PieceOk(w, tlen, pos)
      ensures Piece(addr, len) == Piece(w.ep + Turned(w, pos), PieceLen(w, tlen, Turned(w, pos)))
    {
      PieceIff(w, tlen, pos);
    }
  }

  /** How far a pass has got: `cnt` of its descriptors are built, the rest of the current
      entry and the entries behind it are to come, and it will stop at r. */
  ghost predicate PassSoFar(hops: seq<Hop>, w: Window, cnt: nat, room: nat, rest: Extent, behind: seq<Extent>,
                            addr: u64, r: Stop)
  {
    && cnt <= |hops| && cnt <= room && hops[cnt..] == Cut(rest, behind, w, addr, room - cnt)
    && r == if rest.len == 0 then NextEntry(behind, w, addr, room - cnt) else StopOf(rest, behind, w, addr, room - cnt)
  }

  lemma PassStep(hops: seq<Hop>, w: Window, cnt: nat, room: nat, rest: Extent, behind: seq<Extent>, addr: u64, r: Stop)
    requires PassSoFar(hops, w, cnt, room, rest, behind, addr, r) && rest.len > 0 && cnt < room
    ensures var p := PieceAt(w, rest.len, addr);
            && cnt < |hops| && hops[cnt] == Hop(Extent(rest.addr, p.len), p.addr)
            && PassSoFar(hops, w, cnt + 1, room, Tail(rest, p.len), behind, Wrap64(p.addr + p.len), r)
  {
    hide PieceAt, Tail, Wrap64, Cut, StopOf, NextEntry;
    CutStep(rest, behind, w, addr, room - cnt);
    StopStep(rest, behind, w, addr, room - cnt);
    assert hops[cnt] == hops[cnt..][0] && hops[cnt + 1..] == hops[cnt..][1..];
  }

  lemma FillNext(was: seq<Desc>, ds: seq<Desc>, s: nat, hops: seq<Hop>, dir: Direction, cnt: nat, n: nat)
    requires cnt < |hops| && s + cnt < |ds| && cnt < n
    requires OnlySlots(was, ds, s, n) && FilledUpTo(ds, s, hops, dir, s + cnt)
    ensures var ds' := ds[s + cnt := SetTransfer(ds[s + cnt], hops[cnt], dir)];
            OnlySlots(was, ds', s, n) && FilledUpTo(ds', s, hops, dir, s + cnt + 1)
  {
  }

  /** The inner loop: descriptors of one entry are added until the entry or the ring ends. */
  method FillEntry(ring: Ring, s: nat, ghost hops: seq<Hop>, ghost was: seq<Desc>, w: Window, e: Extent,
                   ghost behind: seq<Extent>, from: nat, before: u64, ghost r: Stop)
    returns (cnt: nat, rest: Extent, addr: u64)
    requires s <= ring.desc.Length && PassSoFar(hops, w, from, ring.desc.Length - s, e, behind, before, r)
    requires from <= |hops| && s + from <= ring.desc.Length
    requires OnlySlots(was, ring.desc[..], s, ring.desc.Length - s) && FilledUpTo(ring.desc[..], s, hops, ring.dir, s + from)
    modifies ring.desc
    ensures PassSoFar(hops, w, cnt, ring.desc.Length - s, rest, behind, addr, r)
    ensures from <= cnt <= |hops| && s + cnt <= ring.desc.Length && (rest.len > 0 ==> s + cnt == ring.desc.Length)
    ensures rest.len <= e.len && HopsLen(hops[..cnt]) - HopsLen(hops[..from]) == e.len - rest.len
    ensures OnlySlots(was, ring.desc[..], s, ring.desc.Length - s) && FilledUpTo(ring.desc[..], s, hops, ring.dir, s + cnt)
  {
    hide *;
    cnt, rest, addr := from, e, before;
    ghost var room := ring.desc.Length - s;
    while rest.len != 0 && s + cnt < ring.desc.Length
      invariant from <= cnt <= |hops| && s + cnt <= ring.desc.Length
      invariant PassSoFar(hops, w, cnt, room, rest, behind, addr, r)
      invariant rest.len <= e.len && HopsLen(hops[..cnt]) - HopsLen(hops[..from]) == e.len - rest.len
      invariant OnlySlots(was, ring.desc[..], s, room) && FilledUpTo(ring.desc[..], s, hops, ring.dir, s + cnt)
      decreases rest.len
    {
      PassStep(hops, w, cnt, room, rest, behind, addr, r);
      HopsLenStep(hops, cnt);
      ghost var ds := ring.desc[..];
      FillNext(was, ds, s, hops, ring.dir, cnt, room);
      var len;
      len, addr := NextPiece(w, rest.len, addr);
      ring.desc[s + cnt] := SetTransfer(ring.desc[s + cnt], Hop(Extent(rest.addr, len), addr), ring.dir);
      assert ring.desc[..] == ds[s + cnt := ring.desc[s + cnt]];
      addr := Wrap64(addr + len);
      rest := Tail(rest, len);
      cnt := cnt + 1;
    }
  }

  /** struct xdma_request_cb in aperture mode. */
  class ApertureRequest {
    const sgl: seq<Extent>
    var offset: u32
    var sgIdx: nat
    var sgOffset: u32

    constructor (sgl: seq<Extent>)
      ensures this.sgl == sgl && Place() == START
    {
      this.sgl, offset, sgIdx, sgOffset := sgl, 0, 0, 0;
    }

    function Place(): At
      reads this
    {
      At(sgIdx, sgOffset, offset)
    }
  }

  /** The outer loop in front of entry k of the `limit` entries it visits; the pass will stop
      at r. */
  ghost predicate AtEntry(hops: seq<Hop>, w: Window, cnt: nat, room: nat, sgl: seq<Extent>, limit: nat, k: nat,
                          sgOffset: u32, addr: u64, r: Stop)
  {
    && k <= limit <= |sgl| && cnt <= room && cnt <= |hops|
    && if k < limit then
         var e, behind := Trim(sgl[k], sgOffset), sgl[k + 1..limit];
         var more := StopOf(e, behind, w, addr, room - cnt);
         hops[cnt..] == Cut(e, behind, w, addr, room - cnt) && r == Stop(k + more.done, more.left)
       else cnt == |hops| && r == Stop(limit, 0)
  }

  lemma PassStart(sgl: seq<Extent>, at: At, w: Window, room: nat)
    requires at.sgIdx < |sgl|
    ensures AtEntry(PassHops(sgl, at, w, room), w, 0, room, sgl, |sgl| - at.sgIdx, 0, at.sgOffset,
                    Wrap64(w.ep + Masked(at, w)), PassStop(sgl, at, w, room))
  {
    hide Cut, StopOf, Masked;
    var hops := PassHops(sgl, at, w, room);
    assert hops[0..] == hops;
    var v := Visited(sgl, at);
    assert v[1..] == sgl[1..|sgl| - at.sgIdx];
  }

  lemma EntryOpens(hops: seq<Hop>, w: Window, cnt: nat, room: nat, sgl: seq<Extent>, limit: nat, k: nat, sgOffset: u32,
                   addr: u64, r: Stop)
    requires AtEntry(hops, w, cnt, room, sgl, limit, k, sgOffset, addr, r) && k < limit && cnt < room
    ensures limit <= |sgl| && r.done >= k
    ensures PassSoFar(hops, w, cnt, room, Trim(sgl[k], sgOffset), sgl[k + 1..limit], addr, Stop(r.done - k, r.left))
  {
    hide Cut, StopOf, NextEntry, Trim;
    StopStep(Trim(sgl[k], sgOffset), sgl[k + 1..limit], w, addr, room - cnt);
  }

  lemma EntryDone(hops: seq<Hop>, w: Window, cnt: nat, room: nat, sgl: seq<Extent>, limit: nat, k: nat, rest: Extent,
                  addr: u64, r: Stop)
    requires k < limit <= |sgl| && rest.len == 0 && r.done >= k
    requires PassSoFar(hops, w, cnt, room, rest, sgl[k + 1..limit], addr, Stop(r.done - k, r.left))
    ensures AtEntry(hops, w, cnt, room, sgl, limit, k + 1, 0, addr, r)
  {
    hide Cut, StopOf, NextEntry;
    var behind := sgl[k + 1..limit];
    CutNext(rest, behind, w, addr, room - cnt);
    NextEntryStep(behind, w, addr, room - cnt);
    assert |hops[cnt..]| == |hops| - cnt;
    if behind != [] {
      NoneCut(behind[0], behind[1..], w, addr);
      assert behind[1..] == sgl[k + 2..limit];
    }
  }

  /** In front of an entry with a full ring, or behind the last one, the pass is over. */
  lemma OverBetween(hops: seq<Hop>, w: Window, cnt: nat, room: nat, sgl: seq<Extent>, at: At, k: nat, sgOffset: u32,
                    addr: u64, r: Stop)
    requires at.sgIdx < |sgl| && AtEntry(hops, w, cnt, room, sgl, |sgl| - at.sgIdx, k, sgOffset, addr, r)
    requires sgOffset == (if k == 0 then at.sgOffset else 0) && (k < |sgl| - at.sgIdx ==> cnt == room)
    ensures cnt == |hops| && r.done == k
    ensures k < |sgl| - at.sgIdx ==> r.left == Visited(sgl, at)[k].len
    ensures sgOffset == StopOffset(sgl, at, r)
  {
    hide Cut, StopOf;
    if k < |sgl| - at.sgIdx {
      var e, behind := Trim(sgl[k], sgOffset), sgl[k + 1..|sgl| - at.sgIdx];
      NoneCut(e, behind, w, addr);
      StopStep(e, behind, w, addr, 0);
      assert |hops[cnt..]| == |hops| - cnt;
      VisitedAt(sgl, at, k);
    }
  }

  /** Inside an entry the ring is full and the pass is over. */
  lemma OverInside(hops: seq<Hop>, w: Window, cnt: nat, sgl: seq<Extent>, at: At, k: nat, rest: Extent, built: nat,
                   behind: seq<Extent>, addr: u64, r: Stop)
    requires at.sgIdx + k < |sgl| && rest.len > 0 && r.done >= k
    requires PassSoFar(hops, w, cnt, cnt, rest, behind, addr, Stop(r.done - k, r.left))
    requires Visited(sgl, at)[k].len == built + rest.len
    ensures cnt == |hops| && r == Stop(k, rest.len)
    ensures Wrap32((if k == 0 then at.sgOffset else 0) + built) == StopOffset(sgl, at, r)
  {
    hide Cut, StopOf, Wrap32, NextEntry;
    NoneCut(rest, behind, w, addr);
    StopStep(rest, behind, w, addr, 0);
    assert |hops[cnt..]| == |hops| - cnt;
  }

  lemma VisitedAt(sgl: seq<Extent>, at: At, k: nat)
    requires at.sgIdx + k < |sgl|
    ensures |Visited(sgl, at)| == |sgl| - at.sgIdx && Visited(sgl, at)[k] == Trim(sgl[k], if k == 0 then at.sgOffset else 0)
  {
  }

  lemma OffsetMoved(offset: u32, a: nat, b: nat, was: u32)
    requires offset == Wrap32(was + a) && a <= b
    ensures Wrap32(offset + (b - a)) == Wrap32(was + b)
  {
  }

  lemma StartOffset(hops: seq<Hop>, offset: u32)
    ensures offset == Wrap32(offset + HopsLen(hops[..0])) && HopsLen(hops[..0]) == 0
  {
  }

  lemma NothingFilled(ds: seq<Desc>, s: nat, hops: seq<Hop>, dir: Direction)
    requires s <= |ds|
    ensures OnlySlots(ds, ds, s, |ds| - s) && FilledUpTo(ds, s, hops, dir, s)
  {
  }

  lemma StopOpens(sgl: seq<Extent>, at: At, w: Window, room: nat)
    requires at.sgIdx < |sgl|
    ensures var r := PassStop(sgl, at, w, room);
            NextAt(sgl, at, w, room)
            == At(at.sgIdx + r.done, StopOffset(sgl, at, r), Wrap32(at.offset + HopsLen(PassHops(sgl, at, w, room))))
  {
    hide PassStop, PassHops, HopsLen, StopOffset, Wrap32;
  }

  lemma NoPass(sgl: seq<Extent>, at: At, w: Window, room: nat)
    requires at.sgIdx >= |sgl|
    ensures PassHops(sgl, at, w, room) == [] && NextAt(sgl, at, w, room) == at && HopsLen([]) == 0
  {
  }

  /** The loop that builds the descriptors of a pass: the entries one after the other until
      the list or the ring ends. */
  method FillPass(ring: Ring, req: ApertureRequest, w: Window) returns (cnt: nat)
    requires ring.Valid()
    modifies ring.desc, req
    ensures var hops := PassHops(req.sgl, old(req.Place()), w, ring.desc.Length - ring.descIdx);
            && cnt == |hops| && ring.descIdx + cnt <= ring.desc.Length
            && req.Place() == NextAt(req.sgl, old(req.Place()), w, ring.desc.Length - ring.descIdx)
            && OnlySlots(old(ring.desc[..]), ring.desc[..], ring.descIdx, ring.desc.Length - ring.descIdx)
            && FilledUpTo(ring.desc[..], ring.descIdx, hops, ring.dir, ring.descIdx + cnt)
  {
    hide *;
    ring.ValidRing();
    var s, sgl := ring.descIdx, req.sgl;
    ghost var at, room, was := req.Place(), ring.desc.Length - s, ring.desc[..];
    PlaceFields(req);
    ghost var hops := PassHops(sgl, at, w, room);
    NothingFilled(was, s, hops, ring.dir);
    cnt := 0;
    if req.sgIdx >= |sgl| {
      NoPass(sgl, at, w, room);
      return;
    }
    StopOpens(sgl, at, w, room);
    ghost var r, limit := PassStop(sgl, at, w, room), |sgl| - req.sgIdx;
    var i, k: nat, sgOffset: u32, addr: u64 := req.sgIdx, 0, req.sgOffset, Wrap64(w.ep + Masked(req.Place(), w));
    PassStart(sgl, at, w, room);
    StartOffset(hops, at.offset);
    var stopped := false;
    while i < |sgl| && s + cnt < ring.desc.Length && !stopped
      invariant i == at.sgIdx + k && 0 <= k <= limit && cnt <= room && cnt <= |hops|
      invariant !stopped ==> AtEntry(hops, w, cnt, room, sgl, limit, k, sgOffset, addr, r)
      invariant !stopped ==> sgOffset == (if k == 0 then at.sgOffset else 0)
      invariant stopped ==> cnt == |hops| && r.done == k && sgOffset == StopOffset(sgl, at, r)
      invariant req.offset == Wrap32(at.offset + HopsLen(hops[..cnt]))
      invariant OnlySlots(was, ring.desc[..], s, room) && FilledUpTo(ring.desc[..], s, hops, ring.dir, s + cnt)
      decreases |sgl| - i, !stopped
    {
      var e := Trim(sgl[k], sgOffset);
      EntryOpens(hops, w, cnt, room, sgl, limit, k, sgOffset, addr, r);
      VisitedAt(sgl, at, k);
      ghost var from, more := cnt, Stop(r.done - k, r.left);
      var rest;
      cnt, rest, addr := FillEntry(ring, s, hops, was, w, e, sgl[k + 1..limit], cnt, addr, more);
      OffsetMoved(req.offset, HopsLen(hops[..from]), HopsLen(hops[..cnt]), at.offset);
      req.offset := Wrap32(req.offset + (e.len - rest.len));
      if rest.len == 0 {
        EntryDone(hops, w, cnt, room, sgl, limit, k, rest, addr, r);
        sgOffset := 0;
        i, k := i + 1, k + 1;
      } else {
        OverInside(hops, w, cnt, sgl, at, k, rest, e.len - rest.len, sgl[k + 1..limit], addr, r);
        sgOffset := Wrap32(sgOffset + (e.len - rest.len));
        stopped := true;
      }
    }
    if !stopped {
      OverBetween(hops, w, cnt, room, sgl, at, k, sgOffset, addr, r);
    }
    assert hops[..cnt] == hops;
    req.sgOffset := sgOffset;
    req.sgIdx := i;
    PlaceFields(req);
  }

  lemma PlaceFields(req: ApertureRequest)
    ensures req.Place() == At(req.sgIdx, req.sgOffset, req.offset)
  {
  }

  /** The linking loop of the pass. */
  method LinkPass(ring: Ring, s: nat, ghost hops: seq<Hop>, n: nat, ghost was: seq<Desc>)
    requires ring.Valid() && 0 < n == |hops| && s + n <= ring.desc.Length && RingBusOk(SlotBus(ring.bus, s), n)
    requires OnlySlots(was, ring.desc[..], s, ring.desc.Length - s) && FilledUpTo(ring.desc[..], s, hops, ring.dir, s + n)
    modifies ring.desc
    ensures OnlySlots(was, ring.desc[..], s, ring.desc.Length - s) && FilledUpTo(ring.desc[..], s, hops, ring.dir, s + n)
    ensures LinkedUpTo(ring.desc[..], s, n, SlotBus(ring.bus, s), s + n) && FlaggedFrom(ring.desc[..], s, n, s)
  {
    hide Lo, Hi;
    var descBus := SlotBus(ring.bus, s);
    var j := s;
    while j < s + n - 1
      invariant s <= j <= s + n - 1 && descBus == SlotBus(ring.bus, j)
      invariant OnlySlots(was, ring.desc[..], s, ring.desc.Length - s) && FilledUpTo(ring.desc[..], s, hops, ring.dir, s + n)
      invariant LinkedUpTo(ring.desc[..], s, n, SlotBus(ring.bus, s), j) && PlainUpTo(ring.desc[..], s, j)
    {
      descBus := descBus + 32;
      ring.desc[j] := SetNext(ring.desc[j], descBus).(control := DESC_MAGIC);
      j := j + 1;
    }
    ring.desc[j] := SetNext(ring.desc[j], 0).(control := SetControl(DESC_MAGIC, STOP_FLAGS));
  }

  /** One pass: build, link and announce the descriptors, and advance the ring. A pass without
      descriptors has nothing to link; there the C loop counts to desc_cnt - 1 = 2^32 - 1 and
      writes over memory behind the ring, and None is returned instead. */
  method BuildPass(ring: Ring, req: ApertureRequest, w: Window) returns (xfer: Option<Transfer>)
    requires ring.Valid()
    modifies ring, ring.desc, req
    ensures ring.Valid()
    ensures var s, room := old(ring.descIdx), ring.desc.Length - old(ring.descIdx);
            var hops := PassHops(req.sgl, old(req.Place()), w, room);
            && req.Place() == NextAt(req.sgl, old(req.Place()), w, room)
            && OnlySlots(old(ring.desc[..]), ring.desc[..], s, room)
            && (xfer.None? <==> hops == [])
            && (xfer.Some? ==>
                  && xfer.value == Transfer(s, SlotBus(ring.bus, s), |hops|, Wrap32(HopsLen(hops)))
                  && HoldsChain(ring.desc[..], ring.bus, s, ring.dir, hops))
            && ring.descUsed == old(ring.descUsed) + |hops|
            && ring.descIdx == Advance(ring.desc.Length, s, |hops|)
  {
    hide *;
    ring.ValidRing();
    var s, before := ring.descIdx, req.offset;
    ghost var at, room := req.Place(), ring.desc.Length - s;
    ghost var hops := PassHops(req.sgl, at, w, room);
    NextOffset(req.sgl, at, w, room);
    PlaceFields(req);
    var n := FillPass(ring, req, w);
    PlaceFields(req);
    if n == 0 {
      NextIndex(ring.desc.Length, s);
      return None;
    }
    SubRing(ring.bus, ring.desc.Length, s, n);
    LinkPass(ring, s, hops, n, old(ring.desc[..]));
    ghost var linked := ring.desc[..];
    ring.SetAdjacent(s, hops, n);
    OnlySlotsWider(old(ring.desc[..]), linked, ring.desc[..], s, n);
    OffsetGained(before, HopsLen(hops));
    xfer := Some(Transfer(s, SlotBus(ring.bus, s), n, Wrap32(req.offset - before)));
    ring.Charge(n);
  }

  lemma OnlySlotsWider(a: seq<Desc>, b: seq<Desc>, c: seq<Desc>, s: nat, n: nat)
    requires s + n <= |a| == |b| == |c| && OnlySlots(a, b, s, |a| - s) && OnlySlots(b, c, s, n)
    ensures OnlySlots(a, c, s, |a| - s)
  {
  }

  lemma OffsetGained(before: u32, x: nat)
    ensures Wrap32(Wrap32(before + x) - before) == Wrap32(x)
  {
  }
}
