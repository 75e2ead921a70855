/** A whole request of xdma_xfer_aperture: where a pass stops, what the next one starts from,
    all descriptors of a request of any number of passes, and exactly when they write the
    scatter list round and round into the window. */
module ApertureRequests {
  import opened Words
  import opened Masks
  import opened Dma
  import opened Descriptors
  import opened Rings
  import opened Aperture
  import opened AperturePasses

  /** `done` entries are finished and `left` bytes of the next one are not built yet. */
  datatype Stop = Stop(done: nat, left: nat)

  /** Where a pass stops. A full ring stops it in front of an entry or inside one. */
  function StopOf(e: Extent, behind: seq<Extent>, w: Window, addr: u64, room: nat): (r: Stop)
    ensures r.done <= |behind| + 1
    ensures r.done == 0 ==> r.left <= e.len
    ensures r.done > |behind| ==> r.left == 0
    ensures 0 < r.done <= |behind| ==> r.left <= behind[r.done - 1].len
    ensures room > 0 && r.done == 0 ==> r.left < e.len
    decreases |behind|, e.len + 1
  {
    if room == 0 then Stop(0, e.len)
    else if e.len == 0 then NextEntry(behind, w, addr, room)
    else
      var p := PieceAt(w, e.len, addr);
      if p.len == e.len then NextEntry(behind, w, Wrap64(p.addr + p.len), room - 1)
      else StopOf(Tail(e, p.len), behind, w, Wrap64(p.addr + p.len), room - 1)
  }

  function NextEntry(behind: seq<Extent>, w: Window, addr: u64, room: nat): (r: Stop)
    ensures 0 < r.done <= |behind| + 1
    ensures r.done > |behind| ==> r.left == 0
    ensures r.done <= |behind| ==> r.left <= behind[r.done - 1].len
    decreases |behind|, 0
  {
    if behind == [] then Stop(1, 0)
    else
      var r := StopOf(behind[0], behind[1..], w, addr, room);
      Stop(r.done + 1, r.left)
  }

  function PassStop(sgl: seq<Extent>, at: At, w: Window, room: nat): (r: Stop)
    requires at.sgIdx < |sgl|
    ensures r.done <= |sgl| - at.sgIdx
    ensures r.done < |sgl| - at.sgIdx ==> r.left <= Visited(sgl, at)[r.done].len
    ensures room > 0 && r.done == 0 ==> r.left < Visited(sgl, at)[0].len
  {
    var v := Visited(sgl, at);
    StopOf(v[0], v[1..], w, Wrap64(w.ep + Masked(at, w)), room)
  }

  /** req->sg_offset, counted from the offset the first entry was entered with. */
  function StopOffset(sgl: seq<Extent>, at: At, r: Stop): u32
    requires at.sgIdx < |sgl| && r.done <= |sgl| - at.sgIdx
    requires r.done < |sgl| - at.sgIdx ==> r.left <= Visited(sgl, at)[r.done].len
  {
    if r.done == |sgl| - at.sgIdx then 0
    else Wrap32((if r.done == 0 then at.sgOffset else 0) + (Visited(sgl, at)[r.done].len - r.left))
  }

  /** The three counters behind a pass. */
  function NextAt(sgl: seq<Extent>, at: At, w: Window, room: nat): (next: At)
    ensures at.sgIdx <= |sgl| ==> next.sgIdx <= |sgl|
  {
    var offset := Wrap32(at.offset + HopsLen(PassHops(sgl, at, w, room)));
    if at.sgIdx >= |sgl| then at.(offset := offset)
    else
      var r := PassStop(sgl, at, w, room);
      At(at.sgIdx + r.done, StopOffset(sgl, at, r), offset)
  }

  /** The bytes of the first entry a pass visits. */
  function FirstLen(sgl: seq<Extent>, at: At): nat {
    if at.sgIdx >= |sgl| then 0 else Visited(sgl, at)[0].len
  }

  /** A pass with room for a descriptor gets further in the list or in the first entry. */
  lemma PassAdvances(sgl: seq<Extent>, at: At, w: Window, room: nat)
    requires at.sgIdx < |sgl| && room > 0
    ensures var next := NextAt(sgl, at, w, room);
            next.sgIdx > at.sgIdx || (next.sgIdx == at.sgIdx && FirstLen(sgl, next) < FirstLen(sgl, at))
  {
    var r := PassStop(sgl, at, w, room);
    hide PassStop, PassHops, HopsLen;
    if r.done == 0 {
      var v := Visited(sgl, at)[0].len;
      TrimLength(sgl[0], at.sgOffset, v - r.left);
    }
  }

  lemma TrimLength(e: Extent, off: u32, n: nat)
    requires n <= Trim(e, off).len
    ensures Trim(e, Wrap32(off + n)).len == Trim(e, off).len - n
  {
    hide Wrap64;
    assert Trim(e, off).len == if off <= e.len then e.len - off else e.len - off + 0x1_0000_0000;
    assert Wrap32(off + n) == if off + n < 0x1_0000_0000 then off + n else off + n - 0x1_0000_0000;
  }

  // ----- all passes -----

  /** The descriptors of all passes; a request may reach a pass without any. */
  datatype Course = Finished(hops: seq<Hop>) | Underflow(hops: seq<Hop>)

  function Joined(hops: seq<Hop>, c: Course): Course {
    match c
    case Finished(more) => Finished(hops + more)
    case Underflow(more) => Underflow(hops + more)
  }

  /** The loop of xdma_xfer_aperture when every transfer completes, in a ring of `size` slots
      with the next slot s. */
  function CourseOf(sgl: seq<Extent>, w: Window, size: nat, s: nat, at: At, total: u32): Course
    requires s < size && at.sgIdx <= |sgl|
    decreases |sgl| - at.sgIdx, FirstLen(sgl, at)
  {
    if at.offset >= total then Finished([])
    else
      var hops := PassHops(sgl, at, w, size - s);
      if hops == [] then Underflow([])
      else
        PassAdvances(sgl, at, w, size - s);
        Joined(hops, CourseOf(sgl, w, size, Advance(size, s, |hops|), NextAt(sgl, at, w, size - s), total))
  }

  /** How many passes that request takes, each with a descriptor, and the descriptors of its
      first n passes. */
  function CourseCount(sgl: seq<Extent>, w: Window, size: nat, s: nat, at: At, total: u32): nat
    requires s < size && at.sgIdx <= |sgl|
    decreases |sgl| - at.sgIdx, FirstLen(sgl, at)
  {
    var hops := PassHops(sgl, at, w, size - s);
    if at.offset >= total || hops == [] then 0
    else
      PassAdvances(sgl, at, w, size - s);
      1 + CourseCount(sgl, w, size, Advance(size, s, |hops|), NextAt(sgl, at, w, size - s), total)
  }

  function HopsUpTo(sgl: seq<Extent>, w: Window, size: nat, s: nat, at: At, n: nat): seq<Hop>
    requires s < size && at.sgIdx <= |sgl|
    decreases n
  {
    if n == 0 then []
    else
      var hops := PassHops(sgl, at, w, size - s);
      hops + HopsUpTo(sgl, w, size, Advance(size, s, |hops|), NextAt(sgl, at, w, size - s), n - 1)
  }

  lemma CountStep(sgl: seq<Extent>, w: Window, size: nat, s: nat, at: At, total: u32)
    requires s < size && at.sgIdx <= |sgl|
    ensures var hops, next := PassHops(sgl, at, w, size - s), NextAt(sgl, at, w, size - s);
            && next.sgIdx <= |sgl|
            && CourseCount(sgl, w, size, s, at, total)
               == if at.offset >= total || hops == [] then 0
                  else 1 + CourseCount(sgl, w, size, Advance(size, s, |hops|), next, total)
  {
    hide PassHops, NextAt, Advance;
  }

  lemma UpToStep(sgl: seq<Extent>, w: Window, size: nat, s: nat, at: At, n: nat)
    requires s < size && at.sgIdx <= |sgl|
    ensures HopsUpTo(sgl, w, size, s, at, 0) == []
    ensures var hops, next := PassHops(sgl, at, w, size - s), NextAt(sgl, at, w, size - s);
            && next.sgIdx <= |sgl|
            && HopsUpTo(sgl, w, size, s, at, n + 1) == hops + HopsUpTo(sgl, w, size, Advance(size, s, |hops|), next, n)
  {
    hide PassHops, NextAt, Advance;
  }

  /** Together they are the course. */
  lemma {:induction false} CourseOfPasses(sgl: seq<Extent>, w: Window, size: nat, s: nat, at: At, total: u32)
    requires s < size && at.sgIdx <= |sgl|
    ensures CourseOf(sgl, w, size, s, at, total).hops
            == HopsUpTo(sgl, w, size, s, at, CourseCount(sgl, w, size, s, at, total))
    decreases |sgl| - at.sgIdx, FirstLen(sgl, at)
  {
    hide *;
    CourseStep(sgl, w, size, s, at, total);
    CountStep(sgl, w, size, s, at, total);
    UpToStep(sgl, w, size, s, at, 0);
    var hops := PassHops(sgl, at, w, size - s);
    if at.offset < total && hops != [] {
      var next := NextAt(sgl, at, w, size - s);
      NotAtEnd(sgl, at, w, size - s);
      PassAdvances(sgl, at, w, size - s);
      CourseOfPasses(sgl, w, size, Advance(size, s, |hops|), next, total);
      UpToStep(sgl, w, size, s, at, CourseCount(sgl, w, size, Advance(size, s, |hops|), next, total));
      JoinedParts(hops, CourseOf(sgl, w, size, Advance(size, s, |hops|), next, total));
    }
  }

  /** What a pass must do when the first `pos` bytes of the list are behind it: begin with the
      byte that comes next in the list and at its place of the window, never leave the bytes
      of the list, and cut every piece without a wrapping sum. */
  predicate PassRight(sgl: seq<Extent>, at: At, w: Window, room: nat, pos: nat)
    requires pos <= |Bytes(sgl)|
  {
    var n := HopsLen(PassHops(sgl, at, w, room));
    && pos + n <= |Bytes(sgl)| && Bytes(sgl)[pos..pos + n] <= Bytes(Visited(sgl, at))
    && (n == 0 || Masked(at, w) == Rem(pos, w.ap))
    && PassFits(sgl, at, w, room)
  }

  /** Every pass is right, none is empty, and the list is done when the loop ends. */
  predicate PassesRight(sgl: seq<Extent>, w: Window, size: nat, s: nat, at: At, total: u32, pos: nat)
    requires s < size && at.sgIdx <= |sgl| && pos <= |Bytes(sgl)|
    decreases |sgl| - at.sgIdx, FirstLen(sgl, at)
  {
    if at.offset >= total then pos == |Bytes(sgl)|
    else
      var hops := PassHops(sgl, at, w, size - s);
      && hops != [] && PassRight(sgl, at, w, size - s, pos)
      && (PassAdvances(sgl, at, w, size - s);
          PassesRight(sgl, w, size, Advance(size, s, |hops|), NextAt(sgl, at, w, size - s), total, pos + HopsLen(hops)))
  }

  /** The prefix of a round meaning. */
  lemma RoundPrefix(dir: Direction, rc: seq<u64>, w: Window, from: nat, n: nat)
    requires n <= |rc|
    ensures RoundMeaning(dir, rc, w, from) == RoundMeaning(dir, rc[..n], w, from) + RoundMeaning(dir, rc[n..], w, from + n)
    ensures |RoundMeaning(dir, rc[..n], w, from)| == n && |RoundMeaning(dir, rc, w, from)| == |rc|
  {
    hide RoundMeaning;
    RoundAppend(dir, rc[..n], rc[n..], w, from);
    assert rc[..n] + rc[n..] == rc;
    RoundLength(dir, rc[..n], w, from);
    RoundLength(dir, rc, w, from);
  }

  lemma MovesOfHops(dir: Direction, hops: seq<Hop>)
    ensures |HopsMeaning(dir, hops)| == HopsLen(hops)
  {
    HopsHost(dir, hops);
    HostLength(hops);
  }

  /** The first pass: the whole is right exactly when it is and the rest is. */
  lemma SplitPass(dir: Direction, sgl: seq<Extent>, at: At, w: Window, room: nat, pos: nat, more: seq<Hop>)
    requires pos <= |Bytes(sgl)|
    ensures var hops, rc := PassHops(sgl, at, w, room), Bytes(sgl);
            var n := HopsLen(hops);
            HopsMeaning(dir, hops + more) == RoundMeaning(dir, rc[pos..], w, pos)
            <==> PassRight(sgl, at, w, room, pos) && HopsMeaning(dir, more) == RoundMeaning(dir, rc[pos + n..], w, pos + n)
  {
    hide *;
    var hops, rc := PassHops(sgl, at, w, room), Bytes(sgl);
    var n := HopsLen(hops);
    RightOpens(sgl, at, w, room, pos);
    HopsAppend(dir, hops, more);
    MovesOfHops(dir, hops);
    if pos + n <= |rc| {
      RoundPrefix(dir, rc[pos..], w, pos, n);
      assert rc[pos..][..n] == rc[pos..pos + n] && rc[pos..][n..] == rc[pos + n..];
      TwoParts(HopsMeaning(dir, hops), HopsMeaning(dir, more), RoundMeaning(dir, rc[pos..pos + n], w, pos),
               RoundMeaning(dir, rc[pos + n..], w, pos + n));
      PassMeaningIff(dir, sgl, at, w, room, rc[pos..pos + n], pos);
      PassCarries(sgl, at, w, room);
    } else {
      RoundLength(dir, rc[pos..], w, pos);
    }
  }

  lemma RightOpens(sgl: seq<Extent>, at: At, w: Window, room: nat, pos: nat)
    requires pos <= |Bytes(sgl)|
    ensures var n := HopsLen(PassHops(sgl, at, w, room));
            PassRight(sgl, at, w, room, pos) <==>
            && pos + n <= |Bytes(sgl)| && Bytes(sgl)[pos..pos + n] <= Bytes(Visited(sgl, at))
            && (n == 0 || Masked(at, w) == Rem(pos, w.ap)) && PassFits(sgl, at, w, room)
  {
    hide HopsLen, Bytes, Masked, Rem, PassFits, PassHops;
  }

  lemma CourseStep(sgl: seq<Extent>, w: Window, size: nat, s: nat, at: At, total: u32)
    requires s < size && at.sgIdx <= |sgl|
    ensures at.offset >= total ==> CourseOf(sgl, w, size, s, at, total) == Finished([])
    ensures at.offset < total ==>
              var hops, next := PassHops(sgl, at, w, size - s), NextAt(sgl, at, w, size - s);
              && next.sgIdx <= |sgl|
              && CourseOf(sgl, w, size, s, at, total)
                 == (if hops == [] then Underflow([])
                     else Joined(hops, CourseOf(sgl, w, size, Advance(size, s, |hops|), next, total)))
  {
    hide PassHops, NextAt, Advance, After;
  }

  lemma PassesStep(sgl: seq<Extent>, w: Window, size: nat, s: nat, at: At, total: u32, pos: nat)
    requires s < size && at.sgIdx <= |sgl| && pos <= |Bytes(sgl)|
    ensures at.offset >= total ==> (PassesRight(sgl, w, size, s, at, total, pos) <==> pos == |Bytes(sgl)|)
    ensures at.offset < total ==>
              var hops, next := PassHops(sgl, at, w, size - s), NextAt(sgl, at, w, size - s);
              && next.sgIdx <= |sgl|
              && (PassesRight(sgl, w, size, s, at, total, pos)
                  <==> hops != [] && PassRight(sgl, at, w, size - s, pos) && pos + HopsLen(hops) <= |Bytes(sgl)|
                       && PassesRight(sgl, w, size, Advance(size, s, |hops|), next, total, pos + HopsLen(hops)))
  {
    hide PassHops, NextAt, Advance, Bytes, HopsLen, PassRight, FirstLen, Visited, Masked, Rem, PassFits;
    if at.offset < total {
      RightOpens(sgl, at, w, size - s, pos);
    }
  }

  /** A request with any number of passes and any length copies the rest of its list, byte k
      to or from ep + k mod aperture, if and only if all of its passes are right. */
  lemma {:induction false} CourseRightIff(dir: Direction, sgl: seq<Extent>, w: Window, size: nat, s: nat, at: At,
                                          total: u32, pos: nat)
    requires s < size && at.sgIdx <= |sgl| && pos <= |Bytes(sgl)|
    ensures var c := CourseOf(sgl, w, size, s, at, total);
            c.Finished? && HopsMeaning(dir, c.hops) == RoundMeaning(dir, Bytes(sgl)[pos..], w, pos)
            <==> PassesRight(sgl, w, size, s, at, total, pos)
    decreases |sgl| - at.sgIdx, FirstLen(sgl, at)
  {
    hide *;
    CourseStep(sgl, w, size, s, at, total);
    PassesStep(sgl, w, size, s, at, total, pos);
    if at.offset >= total {
      RoundLength(dir, Bytes(sgl)[pos..], w, pos);
      RoundLength(dir, [], w, pos);
      assert pos == |Bytes(sgl)| ==> Bytes(sgl)[pos..] == [];
      NothingMoved(dir, w, pos);
      NoBytes([]);
    } else {
      var hops, next := PassHops(sgl, at, w, size - s), NextAt(sgl, at, w, size - s);
      if hops != [] {
        var c := CourseOf(sgl, w, size, Advance(size, s, |hops|), next, total);
        JoinedParts(hops, c);
        SplitPass(dir, sgl, at, w, size - s, pos, c.hops);
        RightOpens(sgl, at, w, size - s, pos);
        if PassRight(sgl, at, w, size - s, pos) {
          NotAtEnd(sgl, at, w, size - s);
          PassAdvances(sgl, at, w, size - s);
          CourseRightIff(dir, sgl, w, size, Advance(size, s, |hops|), next, total, pos + HopsLen(hops));
        }
      }
    }
  }

  lemma JoinedParts(hops: seq<Hop>, c: Course)
    ensures Joined(hops, c).hops == hops + c.hops && (Joined(hops, c).Finished? <==> c.Finished?)
  {
  }

  lemma NotAtEnd(sgl: seq<Extent>, at: At, w: Window, room: nat)
    requires PassHops(sgl, at, w, room) != []
    ensures at.sgIdx < |sgl|
  {
  }

  /** xdma_xfer_aperture as a whole. */
  lemma RequestRightIff(dir: Direction, sgl: seq<Extent>, w: Window, size: nat, s: nat)
    requires s < size
    ensures var total := Wrap32(TotalLen(sgl));
            var c := CourseOf(sgl, w, size, s, START, total);
            c.Finished? && HopsMeaning(dir, c.hops) == RoundMeaning(dir, Bytes(sgl), w, 0)
            <==> PassesRight(sgl, w, size, s, START, total, 0)
  {
    CourseRightIff(dir, sgl, w, size, s, START, Wrap32(TotalLen(sgl)), 0);
    assert Bytes(sgl)[0..] == Bytes(sgl);
    hide *;
  }

  /** The first pass visits the whole list from the start of the window. */
  lemma FirstPass(sgl: seq<Extent>, w: Window)
    ensures Visited(sgl, START) == sgl && Masked(START, w) == 0
  {
  }

  lemma NextOffset(sgl: seq<Extent>, at: At, w: Window, room: nat)
    ensures NextAt(sgl, at, w, room).offset == Wrap32(at.offset + HopsLen(PassHops(sgl, at, w, room)))
  {
    hide PassHops, HopsLen, PassStop, StopOffset, Wrap32;
  }

  lemma Started()
    ensures START.sgIdx == 0 && START.offset == 0
  {
  }

  lemma FirstIsLast(sgl: seq<Extent>, w: Window, size: nat, s: nat)
    requires s < size && Wrap32(TotalLen(sgl)) > 0
    requires HopsLen(PassHops(sgl, START, w, size - s)) == TotalLen(sgl)
    ensures CourseOf(sgl, w, size, s, START, Wrap32(TotalLen(sgl))) == Finished(PassHops(sgl, START, w, size - s))
  {
    hide PassHops, HopsLen, TotalLen, Advance, NextAt, After, CourseOf, Wrap32;
    Started();
    var total, hops, next := Wrap32(TotalLen(sgl)), PassHops(sgl, START, w, size - s), NextAt(sgl, START, w, size - s);
    CourseStep(sgl, w, size, s, START, total);
    PassEmptyIff(sgl, START, w, size - s);
    NextOffset(sgl, START, w, size - s);
    NoWrapOfNothing();
    assert 0 + TotalLen(sgl) == TotalLen(sgl);
    CourseStep(sgl, w, size, Advance(size, s, |hops|), next, total);
    JoinedParts(hops, Finished([]));
    assert hops + [] == hops;
  }

  lemma NoWrapOfNothing()
    ensures Wrap32(0) == 0
  {
  }

  /** A request that the first pass finishes takes no other pass, and is right if and only if
      no sum wraps. */
  lemma OnePassRightIff(dir: Direction, sgl: seq<Extent>, w: Window, size: nat, s: nat)
    requires s < size && Wrap32(TotalLen(sgl)) > 0
    requires HopsLen(PassHops(sgl, START, w, size - s)) == TotalLen(sgl)
    ensures var hops := PassHops(sgl, START, w, size - s);
            && CourseOf(sgl, w, size, s, START, Wrap32(TotalLen(sgl))) == Finished(hops)
            && (HopsMeaning(dir, hops) == RoundMeaning(dir, Bytes(sgl), w, 0) <==> PassFits(sgl, START, w, size - s))
            && (PassFits(sgl, START, w, size - s) ==> forall h :: h in hops ==> InWindow(h, w))
  {
    hide *;
    var hops := PassHops(sgl, START, w, size - s);
    FirstIsLast(sgl, w, size, s);
    FirstPass(sgl, w);
    PassCarries(sgl, START, w, size - s);
    assert Bytes(sgl)[..TotalLen(sgl)] == Bytes(sgl);
    RemInside(w, 0);
    PassMeaningIff(dir, sgl, START, w, size - s, Bytes(sgl), 0);
    PassOpens(sgl, START, w, size - s);
    if PassFits(sgl, START, w, size - s) && sgl != [] {
      FitsInWindow(sgl[0], sgl[1..], w, 0, size - s);
    }
  }

  /** The bound on the window that suffices for every request of one pass. */
  lemma LowWindowPass(sgl: seq<Extent>, at: At, w: Window, room: nat)
    requires w.ep + w.ap + w.maxlen <= 0x1_0000_0000_0000_0000
    ensures PassFits(sgl, at, w, room)
  {
    var v := Visited(sgl, at);
    hide Visited, Masked;
    if v != [] {
      LowWindowFits(v[0], v[1..], w, Masked(at, w), room);
    }
  }

  // ----- what is left behind a pass -----

  /** The entries of v that are not built. */
  function Unbuilt(v: seq<Extent>, r: Stop): seq<Extent>
    requires r.done < |v| ==> r.left <= v[r.done].len
  {
    if r.done >= |v| then [] else [Tail(v[r.done], v[r.done].len - r.left)] + v[r.done + 1..]
  }

  lemma TailNone(e: Extent)
    ensures Tail(e, 0) == e
  {
  }

  lemma UnbuiltNext(v: seq<Extent>, r: Stop)
    requires v != [] && (r.done < |v| - 1 ==> r.left <= v[r.done + 1].len)
    ensures Unbuilt(v, Stop(r.done + 1, r.left)) == Unbuilt(v[1..], r)
  {
  }

  /** The descriptors of a pass and the entries it leaves together hold the bytes of the
      entries it visits. */
  lemma {:induction false} StopSplits(e: Extent, behind: seq<Extent>, w: Window, addr: u64, room: nat)
    ensures HostOf(Cut(e, behind, w, addr, room)) + Bytes(Unbuilt([e] + behind, StopOf(e, behind, w, addr, room)))
            == ExtentBytes(e) + Bytes(behind)
    decreases |behind|, e.len + 1
  {
    hide *;
    StopStep(e, behind, w, addr, room);
    var v := [e] + behind;
    if room == 0 {
      NoneCut(e, behind, w, addr);
      UnbuiltFrom(e, behind, e.len);
      TailNone(e);
      BytesOfList(v);
      assert v[1..] == behind;
    } else if e.len == 0 {
      CutNext(e, behind, w, addr, room);
      BytesOfExtent(e);
      NextSplits(e, behind, w, addr, room);
    } else {
      CutStep(e, behind, w, addr, room);
      var p := PieceAt(w, e.len, addr);
      var next: u64 := Wrap64(p.addr + p.len);
      var rest := Cut(Tail(e, p.len), behind, w, next, room - 1);
      HopsCons(ToDevice, Hop(Extent(e.addr, p.len), p.addr), rest);
      TailBytes(e, p.len);
      var a, b, c := ExtentBytes(Extent(e.addr, p.len)), ExtentBytes(Tail(e, p.len)), Bytes(behind);
      assert (a + b) + c == a + (b + c);
      if p.len == e.len {
        CutNext(Tail(e, p.len), behind, w, next, room - 1);
        BytesOfExtent(Tail(e, p.len));
        NextSplits(e, behind, w, next, room - 1);
        assert b + c == c;
      } else {
        StopSplits(Tail(e, p.len), behind, w, next, room - 1);
        SameUnbuilt(e, p.len, behind, StopOf(Tail(e, p.len), behind, w, next, room - 1));
      }
      var u := Bytes(Unbuilt(v, StopOf(e, behind, w, addr, room)));
      assert (a + HostOf(rest)) + u == a + (HostOf(rest) + u);
    }
  }

  lemma {:induction false} NextSplits(e: Extent, behind: seq<Extent>, w: Window, addr: u64, room: nat)
    ensures var hops := if room == 0 || behind == [] then [] else Cut(behind[0], behind[1..], w, addr, room);
            HostOf(hops) + Bytes(Unbuilt([e] + behind, NextEntry(behind, w, addr, room))) == Bytes(behind)
    decreases |behind|, 0
  {
    hide *;
    NextEntryStep(behind, w, addr, room);
    NoBytes([]);
    BytesOfList(behind);
    var v := [e] + behind;
    assert v[1..] == behind;
    if behind == [] {
      UnbuiltNone(v);
    } else {
      UnbuiltNext(v, StopOf(behind[0], behind[1..], w, addr, room));
      StopSplits(behind[0], behind[1..], w, addr, room);
      NoneCut(behind[0], behind[1..], w, addr);
      assert [behind[0]] + behind[1..] == behind;
    }
  }

  lemma StopStep(e: Extent, behind: seq<Extent>, w: Window, addr: u64, room: nat)
    ensures room == 0 ==> StopOf(e, behind, w, addr, room) == Stop(0, e.len)
    ensures room > 0 && e.len == 0 ==> StopOf(e, behind, w, addr, room) == NextEntry(behind, w, addr, room)
    ensures room > 0 && e.len > 0 ==>
              var p := PieceAt(w, e.len, addr);
              StopOf(e, behind, w, addr, room)
              == if p.len == e.len then NextEntry(behind, w, Wrap64(p.addr + p.len), room - 1)
                 else StopOf(Tail(e, p.len), behind, w, Wrap64(p.addr + p.len), room - 1)
  {
    hide PieceAt, NextEntry, Tail, Wrap64;
  }

  lemma NextEntryStep(behind: seq<Extent>, w: Window, addr: u64, room: nat)
    ensures behind == [] ==> NextEntry(behind, w, addr, room) == Stop(1, 0)
    ensures behind != [] ==>
              var r := StopOf(behind[0], behind[1..], w, addr, room);
              NextEntry(behind, w, addr, room) == Stop(r.done + 1, r.left)
  {
    hide StopOf;
  }

  lemma UnbuiltNone(v: seq<Extent>)
    requires |v| == 1
    ensures Unbuilt(v, Stop(1, 0)) == [] && Bytes([]) == []
  {
  }

  lemma UnbuiltFrom(e: Extent, behind: seq<Extent>, left: nat)
    requires left <= e.len
    ensures Unbuilt([e] + behind, Stop(0, left)) == [Tail(e, e.len - left)] + behind
  {
    assert ([e] + behind)[1..] == behind;
  }

  /** Counting what is left does not depend on where an entry begins. */
  lemma SameUnbuilt(e: Extent, n: nat, behind: seq<Extent>, r: Stop)
    requires n <= e.len && r.done <= |behind| + 1
    requires r.done == 0 ==> r.left <= e.len - n
    requires 0 < r.done <= |behind| ==> r.left <= behind[r.done - 1].len
    ensures Unbuilt([e] + behind, r) == Unbuilt([Tail(e, n)] + behind, r)
  {
    hide Wrap64;
    if r.done == 0 {
      WrapAdd(e.addr + n, e.len - n - r.left);
      assert e.addr + n + (e.len - n - r.left) == e.addr + (e.len - r.left);
      UnbuiltFrom(e, behind, r.left);
      UnbuiltFrom(Tail(e, n), behind, r.left);
    } else if r.done <= |behind| {
      assert ([e] + behind)[r.done + 1..] == ([Tail(e, n)] + behind)[r.done + 1..];
    }
  }

  /** Behind the first pass the counters say exactly what is left of the list. */
  lemma FirstPassLeaves(sgl: seq<Extent>, w: Window, room: nat)
    ensures var hops, next := PassHops(sgl, START, w, room), NextAt(sgl, START, w, room);
            HostOf(hops) + Bytes(Left(sgl, next)) == Bytes(sgl)
  {
    hide *;
    FirstPass(sgl, w);
    Started();
    PassOpens(sgl, START, w, room);
    NoBytes([]);
    BytesOfList(sgl);
    if sgl == [] {
      NothingLeft(NextAt(sgl, START, w, room));
    } else {
      FirstStop(sgl, w, room);
      StopSplits(sgl[0], sgl[1..], w, Wrap64(w.ep + 0), room);
      assert [sgl[0]] + sgl[1..] == sgl;
    }
  }

  lemma NothingLeft(at: At)
    ensures Left([], at) == [] && Bytes([]) == []
  {
  }

  lemma FirstStop(sgl: seq<Extent>, w: Window, room: nat)
    requires sgl != []
    ensures var r := StopOf(sgl[0], sgl[1..], w, Wrap64(w.ep + 0), room);
            && (r.done < |sgl| ==> r.left <= sgl[r.done].len)
            && Left(sgl, NextAt(sgl, START, w, room)) == Unbuilt(sgl, r)
  {
    FirstPass(sgl, w);
    hide StopOf, PassHops, HopsLen, Visited, Masked;
    var r := PassStop(sgl, START, w, room);
    if r.done < |sgl| {
      var e := sgl[r.done];
      SmallTrim(e, e.len - r.left);
    }
  }

  lemma SmallTrim(e: Extent, n: nat)
    requires n <= e.len
    ensures Trim(e, n) == Tail(e, n) && Wrap32(n) == n == Wrap32(0 + n)
  {
  }

  // ----- requests that go wrong -----

  /** An entry that fits the window takes one descriptor at its start. */
  lemma ShortEntry(e: Extent, behind: seq<Extent>, w: Window)
    requires 0 < e.len <= w.maxlen
    ensures Cut(e, behind, w, w.ep, 1) == [Hop(e, w.ep)]
    ensures StopOf(e, behind, w, w.ep, 1) == Stop(1, if behind == [] then 0 else behind[0].len)
  {
    assert PieceAt(w, e.len, w.ep) == Piece(w.ep, e.len);
    hide PieceAt;
    CutStep(e, behind, w, w.ep, 1);
    NoneCut(Tail(e, e.len), behind, w, Wrap64(w.ep + e.len));
    StopStep(e, behind, w, w.ep, 1);
    NextEntryStep(behind, w, Wrap64(w.ep + e.len), 0);
  }

  /** One free slot at the end of the ring: the first pass takes the first entry only. */
  lemma OneSlotPass(a: Extent, b: Extent, w: Window)
    requires 0 < a.len <= w.maxlen
    ensures PassHops([a, b], START, w, 1) == [Hop(a, w.ep)] && NextAt([a, b], START, w, 1) == At(1, 0, a.len)
  {
    hide *;
    Started();
    FirstPass([a, b], w);
    SmallWrap(w.ep + 0);
    WindowBelow(w);
    assert [a, b][1..] == [b];
    PassOpens([a, b], START, w, 1);
    ShortEntry(a, [b], w);
    OneHopLen(Hop(a, w.ep));
    NextOpens([a, b], START, w, 1);
    NoWrap32(0 + a.len);
  }

  lemma WindowBelow(w: Window)
    ensures w.ep < 0x1_0000_0000_0000_0000
  {
  }

  /** Behind it the second pass visits the first entry again, in the whole ring. */
  lemma SecondPass(a: Extent, b: Extent, w: Window, size: nat, total: u32)
    requires 0 < a.len <= w.maxlen && size > 0 && total > 0
    ensures CourseOf([a, b], w, size, size - 1, START, total)
            == Joined([Hop(a, w.ep)], CourseOf([a, b], w, size, 0, At(1, 0, a.len), total))
    ensures Visited([a, b], At(1, 0, a.len)) == [a]
  {
    hide PassHops, NextAt, After, CourseOf;
    OneSlotPass(a, b, w);
    CourseStep([a, b], w, size, size - 1, START, total);
    assert Advance(size, size - 1, 1) == 0;
  }

  lemma ByteOf(e: Extent)
    requires e.len == 1
    ensures ExtentBytes(e) == [e.addr]
  {
    assert ExtentBytes(e)[0] == Wrap64(e.addr + 0) == e.addr;
  }

  /** A single byte takes one descriptor, wherever it goes. */
  lemma OneByte(e: Extent, w: Window, addr: u64, room: nat)
    requires e.len == 1 && room > 0
    ensures |Cut(e, [], w, addr, room)| == 1 && HostOf(Cut(e, [], w, addr, room)) == [e.addr]
    ensures StopOf(e, [], w, addr, room) == Stop(1, 0)
  {
    hide PieceAt, Tail;
    var p := PieceAt(w, 1, addr);
    CutStep(e, [], w, addr, room);
    CutNext(Tail(e, 1), [], w, Wrap64(p.addr + 1), room - 1);
    HopsCons(ToDevice, Hop(Extent(e.addr, 1), p.addr), []);
    NoBytes([]);
    ByteOf(Extent(e.addr, 1));
    StopStep(e, [], w, addr, room);
    NextEntryStep([], w, Wrap64(p.addr + p.len), room - 1);
  }

  /** The second pass over a first entry of one byte counts the second entry as done. */
  lemma OneBytePass(a: Extent, b: Extent, w: Window, size: nat, offset: u32)
    requires a.len == 1 && size > 0 && offset + 1 < 0x1_0000_0000
    ensures var at := At(1, 0, offset);
            && NextAt([a, b], at, w, size) == At(2, 0, offset + 1)
            && HostOf(PassHops([a, b], at, w, size)) == [a.addr]
  {
    var at := At(1, 0, offset);
    hide *;
    FirstOnly(a, b, offset);
    PassOpens([a, b], at, w, size);
    OneByte(a, w, Wrap64(w.ep + Masked(at, w)), size);
    HostLength(PassHops([a, b], at, w, size));
    NextOpens([a, b], at, w, size);
    NoWrap32(offset + 1);
  }

  lemma NoWrap32(x: nat)
    ensures x < 0x1_0000_0000 ==> Wrap32(x) == x
  {
  }

  lemma FirstOnly(a: Extent, b: Extent, offset: u32)
    ensures Visited([a, b], At(1, 0, offset)) == [a] && [a][1..] == []
  {
  }

  /** The counters behind a pass that stops in front of an entry or at the end of the list. */
  lemma NextOpens(sgl: seq<Extent>, at: At, w: Window, room: nat)
    requires at.sgIdx < |sgl|
    ensures var v := Visited(sgl, at);
            && |v| == |sgl| - at.sgIdx
            && var r := StopOf(v[0], v[1..], w, Wrap64(w.ep + Masked(at, w)), room);
               r.done > 0 && (r.done < |v| ==> r.left == v[r.done].len) ==>
                 NextAt(sgl, at, w, room)
                 == At(at.sgIdx + r.done, 0, Wrap32(at.offset + HopsLen(PassHops(sgl, at, w, room))))
  {
    hide StopOf, PassHops, HopsLen, Masked, Wrap64;
  }

  lemma SecondOfOneByte(a: Extent, b: Extent, w: Window, size: nat, offset: u32, total: u32)
    requires a.len == 1 && size > 0 && offset + 1 < 0x1_0000_0000 && offset < total
    ensures var at := At(1, 0, offset);
            && HostOf(PassHops([a, b], at, w, size)) == [a.addr]
            && CourseOf([a, b], w, size, 0, at, total)
               == Joined(PassHops([a, b], at, w, size), if offset + 1 < total then Underflow([]) else Finished([]))
  {
    hide PassHops, NextAt, CourseOf, Joined, HostOf;
    var at, sgl := At(1, 0, offset), [a, b];
    var hops := PassHops(sgl, at, w, size);
    OneBytePass(a, b, w, size, offset);
    NoBytes(hops);
    CourseStep(sgl, w, size, 0, at, total);
    CourseStep(sgl, w, size, Advance(size, 0, |hops|), At(2, 0, offset + 1), total);
    EndOfList(sgl, At(2, 0, offset + 1), w, size - Advance(size, 0, |hops|));
  }

  lemma EndOfList(sgl: seq<Extent>, at: At, w: Window, room: nat)
    requires at.sgIdx >= |sgl|
    ensures PassHops(sgl, at, w, room) == []
  {
  }

  /** Two entries of one byte at different addresses: the second pass copies the first entry
      again, in every window and every ring whose last slot is next. */
  lemma SecondPassReadsFirstEntry(dir: Direction, a: Extent, b: Extent, w: Window, size: nat)
    requires a.len == b.len == 1 && a.addr != b.addr && size > 0
    ensures var c := CourseOf([a, b], w, size, size - 1, START, 2);
            && c.Finished? && HostOf(c.hops) == [a.addr, a.addr]
            && HopsMeaning(dir, c.hops) != RoundMeaning(dir, Bytes([a, b]), w, 0)
  {
    hide *;
    Started();
    var c := CourseOf([a, b], w, size, size - 1, START, 2);
    var second := PassHops([a, b], At(1, 0, 1), w, size);
    SecondPass(a, b, w, size, 2);
    SecondOfOneByte(a, b, w, size, 1, 2);
    JoinedParts(second, Finished([]));
    JoinedParts([Hop(a, w.ep)], Joined(second, Finished([])));
    assert second + [] == second;
    HopsCons(dir, Hop(a, w.ep), second);
    OneByteEach(a, b);
    if HopsMeaning(dir, c.hops) == RoundMeaning(dir, Bytes([a, b]), w, 0) {
      SameHost(dir, c.hops, Bytes([a, b]), w, 0);
    }
  }

  lemma OneByteEach(a: Extent, b: Extent)
    requires a.len == b.len == 1
    ensures ExtentBytes(a) == [a.addr] && Bytes([a, b]) == [a.addr, b.addr]
  {
    ByteOf(a);
    ByteOf(b);
    hide ExtentBytes;
    assert [a, b][1..] == [b] && [b][1..] == [] && Bytes([b]) == [b.addr];
  }

  /** A first entry of one byte and a longer second one: the second pass counts the second
      entry as done, and the third pass has no entry left and no descriptor. */
  lemma ThirdPassUnderflows(a: Extent, b: Extent, w: Window, size: nat)
    requires a.len == 1 && 2 <= b.len < 0xFFFF_FFFF && size > 0
    ensures CourseOf([a, b], w, size, size - 1, START, 1 + b.len).Underflow?
  {
    hide *;
    var second := PassHops([a, b], At(1, 0, 1), w, size);
    SecondPass(a, b, w, size, 1 + b.len);
    SecondOfOneByte(a, b, w, size, 1, 1 + b.len);
    JoinedParts(second, Underflow([]));
    JoinedParts([Hop(a, w.ep)], Joined(second, Underflow([])));
  }

  /** Twice the same entry and an aperture of 3: the second pass reads the right bytes but
      starts at byte 2 of the window instead of byte 0. */
  lemma SecondPassMissesWindow(dir: Direction, a: Extent, size: nat)
    requires a.len == 3 && size > 0
    ensures var w := WindowSpec(0, 3, 3);
            var c := CourseOf([a, a], w, size, size - 1, START, 6);
            !(c.Finished? && HopsMeaning(dir, c.hops) == RoundMeaning(dir, Bytes([a, a]), w, 0))
  {
    var w := WindowSpec(0, 3, 3);
    assert Masked(At(1, 0, 3), w) == And(3, 2);
    hide *;
    Started();
    var c := CourseOf([a, a], w, size, size - 1, START, 6);
    BytesLength([a, a]);
    assert Bytes([a, a])[0..] == Bytes([a, a]);
    CourseRightIff(dir, [a, a], w, size, size - 1, START, 6, 0);
    if PassesRight([a, a], w, size, size - 1, START, 6, 0) {
      PassesStep([a, a], w, size, size - 1, START, 6, 0);
      OneSlotPass(a, a, w);
      LastSlot(size);
      OneHopLen(Hop(a, w.ep));
      PassesStep([a, a], w, size, 0, At(1, 0, 3), 6, 3);
      PassEmptyIff([a, a], At(1, 0, 3), w, size);
      RightOpens([a, a], At(1, 0, 3), w, size, 3);
      MaskOfThree();
    }
  }

  lemma LastSlot(size: nat)
    requires size > 0
    ensures Advance(size, size - 1, 1) == 0
  {
  }

  lemma OneHopLen(h: Hop)
    ensures HopsLen([h]) == h.ext.len
  {
  }

  lemma MaskOfThree()
    ensures And(3, 2) == 2 && Rem(3, 3) == 0
  {
    assert And(1, 1) == 1;
  }
}
