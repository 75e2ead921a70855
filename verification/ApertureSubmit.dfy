/** The loop of xdma_xfer_aperture, with any number of passes. */
module ApertureSubmit {
  import opened Codes
  import opened Words
  import opened Masks
  import opened Dma
  import opened Descriptors
  import opened Rings
  import opened Aperture
  import opened AperturePasses
  import opened ApertureRequests
  import opened ApertureBuild
  import opened Submit

  /** One pass: build a transfer, queue it, and retire it unless transfer_queue rejected it. */
  method OnePass(ring: Ring, req: ApertureRequest, w: Window, v: Verdict)
    returns (rv: int, len: Option<u32>, ghost moves: seq<Move>)
    requires ring.Valid()
    modifies ring, ring.desc, req
    ensures ring.Valid()
    ensures var room := ring.desc.Length - old(ring.descIdx);
            var hops := PassHops(req.sgl, old(req.Place()), w, room);
            && req.Place() == NextAt(req.sgl, old(req.Place()), w, room)
            && (len.None? <==> hops == [])
            && (len.Some? ==>
                  && rv == ErrorOf(v) && len.value == Wrap32(HopsLen(hops))
                  && var all := HopsMeaning(ring.dir, hops); moves == all[..Made(v, |all|)])
            && ring.descUsed == old(ring.descUsed) + (if v == Rejected then |hops| else 0)
            && ring.descIdx == Advance(ring.desc.Length, old(ring.descIdx), |hops|)
  {
    hide *;
    StaysValid(ring);
    var s := ring.descIdx;
    ghost var hops := PassHops(req.sgl, req.Place(), w, ring.desc.Length - s);
    var xfer := BuildPass(ring, req, w);
    if xfer.None? {
      return 0, None, [];
    }
    var n := xfer.value.descNum;
    ChainRuns(ring.desc[..], ring.bus, s, ring.dir, hops, n);
    ghost var run := Run(ring.desc[..], ring.bus, SlotBus(ring.bus, s), n);
    moves := run.moves[..Made(v, |run.moves|)];
    rv, len := ErrorOf(v), Some(xfer.value.len);
    if v == Rejected {
      return;
    }
    StaysValid(ring);
    ring.descUsed := ring.descUsed - n;
    StaysValid(ring);
    ring.Destroy(s, n);
    StaysValid(ring);
  }

  lemma StaysValid(ring: Ring)
    ensures ring.descIdx < ring.desc.Length && RingBusOk(ring.bus, ring.desc.Length) <==> ring.Valid()
  {
  }

  lemma VerdictMeans(v: Verdict, total: nat)
    ensures v == Completed ==> Made(v, total) == total
    ensures v == Rejected ==> Made(v, total) == 0
    ensures ErrorOf(v) == 0 <==> v == Completed
    ensures ErrorOf(v) <= 0
  {
  }

  method SumLengths(sgl: seq<Extent>) returns (tlen: u32)
    ensures tlen == Wrap32(TotalLen(sgl))
  {
    hide TotalLen;
    tlen := 0;
    NoLength(sgl);
    for i := 0 to |sgl|
      invariant tlen == Wrap32(TotalLen(sgl[..i]))
    {
      TotalSnoc(sgl, i);
      WrapAdd32(TotalLen(sgl[..i]), sgl[i].len);
      tlen := Wrap32(tlen + sgl[i].len);
    }
    assert sgl[..|sgl|] == sgl;
  }

  lemma NoLength(sgl: seq<Extent>)
    ensures TotalLen(sgl[..0]) == 0
  {
  }

  /** How the loop ends: the list is done, a transfer did not complete, or a pass without
      descriptors runs over the end of the ring. */
  datatype Ending = Done | Stopped(verdict: Verdict) | Overrun

  /** `made` bytes of completed passes are counted in 32-bit steps. */
  ghost predicate Counted(done: nat, made: nat) {
    done <= made && (made < TWO32 ==> done == made)
  }

  lemma CountMore(done: nat, made: nat, len: nat)
    requires Counted(done, made)
    ensures Counted(done + Wrap32(len), made + len)
  {
  }

  /** The completed passes and those to come are the whole request. */
  ghost predicate OnCourse(dir: Direction, c: Course, rest: Course, moves: seq<Move>) {
    && (c.Finished? <==> rest.Finished?)
    && HopsMeaning(dir, c.hops) == moves + HopsMeaning(dir, rest.hops)
  }

  lemma CourseStart(dir: Direction, c: Course)
    ensures OnCourse(dir, c, c, []) && Counted(0, 0)
  {
  }

  lemma CourseOn(dir: Direction, c: Course, hops: seq<Hop>, rest: Course, moves: seq<Move>)
    requires OnCourse(dir, c, Joined(hops, rest), moves)
    ensures OnCourse(dir, c, rest, moves + HopsMeaning(dir, hops))
    ensures moves + HopsMeaning(dir, hops) <= HopsMeaning(dir, c.hops)
    ensures |HopsMeaning(dir, hops)| == HopsLen(hops)
  {
    hide HopsMeaning, HopsLen;
    JoinedParts(hops, rest);
    HopsAppend(dir, hops, rest.hops);
    MovesOfHops(dir, hops);
    OneAfterOther(moves, HopsMeaning(dir, hops), HopsMeaning(dir, rest.hops));
  }

  lemma OneAfterOther<T>(a: seq<T>, b: seq<T>, c: seq<T>)
    ensures a + (b + c) == (a + b) + c && a + b <= a + (b + c)
  {
  }

  lemma CourseOver(dir: Direction, c: Course, rest: Course, moves: seq<Move>)
    requires OnCourse(dir, c, rest, moves) && rest.hops == []
    ensures moves == HopsMeaning(dir, c.hops) && (c.Finished? <==> rest.Finished?)
  {
  }

  lemma PrefixOfMore<T>(a: seq<T>, b: seq<T>, whole: seq<T>, n: nat)
    requires a + b <= whole && n <= |b|
    ensures a + b[..n] <= whole
  {
  }

  /** `passes` passes of a request have come to at, with the descriptors `before`. */
  ghost predicate Reached(sgl: seq<Extent>, w: Window, size: nat, s0: nat, s: nat, at: At, passes: nat, before: seq<Hop>,
                          total: u32)
    requires s0 < size && s < size && START.sgIdx <= |sgl| && at.sgIdx <= |sgl|
  {
    && CourseCount(sgl, w, size, s0, START, total) == passes + CourseCount(sgl, w, size, s, at, total)
    && forall n: nat :: HopsUpTo(sgl, w, size, s0, START, passes + n) == before + HopsUpTo(sgl, w, size, s, at, n)
  }

  lemma ReachedStart(sgl: seq<Extent>, w: Window, size: nat, s: nat, total: u32)
    requires s < size && START.sgIdx <= |sgl|
    ensures Reached(sgl, w, size, s, s, START, 0, [], total)
  {
    hide HopsUpTo, CourseCount, START;
    forall n: nat
      ensures HopsUpTo(sgl, w, size, s, START, 0 + n) == [] + HopsUpTo(sgl, w, size, s, START, n)
    {
      assert [] + HopsUpTo(sgl, w, size, s, START, n) == HopsUpTo(sgl, w, size, s, START, n);
    }
  }

  lemma ReachedNext(sgl: seq<Extent>, w: Window, size: nat, s0: nat, s: nat, at: At, passes: nat, before: seq<Hop>,
                    total: u32)
    requires s0 < size && s < size && START.sgIdx <= |sgl| && at.sgIdx <= |sgl|
    requires Reached(sgl, w, size, s0, s, at, passes, before, total)
    requires at.offset < total && PassHops(sgl, at, w, size - s) != []
    ensures var hops, next := PassHops(sgl, at, w, size - s), NextAt(sgl, at, w, size - s);
            && next.sgIdx <= |sgl|
            && Reached(sgl, w, size, s0, Advance(size, s, |hops|), next, passes + 1, before + hops, total)
  {
    hide HopsUpTo, CourseCount, START, PassHops, NextAt, Advance;
    CountStep(sgl, w, size, s, at, total);
    var hops, next := PassHops(sgl, at, w, size - s), NextAt(sgl, at, w, size - s);
    var s' := Advance(size, s, |hops|);
    forall n: nat
      ensures HopsUpTo(sgl, w, size, s0, START, passes + 1 + n) == before + hops + HopsUpTo(sgl, w, size, s', next, n)
    {
      UpToStep(sgl, w, size, s, at, n);
      assert HopsUpTo(sgl, w, size, s0, START, passes + (n + 1)) == before + HopsUpTo(sgl, w, size, s, at, n + 1);
      assert before + (hops + HopsUpTo(sgl, w, size, s', next, n)) == (before + hops) + HopsUpTo(sgl, w, size, s', next, n);
    }
  }

  /** At an unfinished pass: it is one of the request's, and what lies before it and with it. */
  lemma ReachedHere(sgl: seq<Extent>, w: Window, size: nat, s0: nat, s: nat, at: At, passes: nat, before: seq<Hop>,
                    total: u32)
    requires s0 < size && s < size && START.sgIdx <= |sgl| && at.sgIdx <= |sgl|
    requires Reached(sgl, w, size, s0, s, at, passes, before, total)
    ensures var hops := PassHops(sgl, at, w, size - s);
            && HopsUpTo(sgl, w, size, s0, START, passes) == before
            && HopsUpTo(sgl, w, size, s0, START, passes + 1) == before + hops
            && (CourseCount(sgl, w, size, s0, START, total) > passes <==> at.offset < total && hops != [])
            && (at.offset >= total || hops == [] ==> CourseCount(sgl, w, size, s0, START, total) == passes)
  {
    hide HopsUpTo, CourseCount, START, PassHops, NextAt, Advance;
    CountStep(sgl, w, size, s, at, total);
    UpToStep(sgl, w, size, s, at, 0);
    var hops, next := PassHops(sgl, at, w, size - s), NextAt(sgl, at, w, size - s);
    UpToStep(sgl, w, size, Advance(size, s, |hops|), next, 0);
    assert HopsUpTo(sgl, w, size, s0, START, passes + 0) == before + [];
    assert before + [] == before && hops + [] == hops;
    assert HopsUpTo(sgl, w, size, s0, START, passes + 1) == before + HopsUpTo(sgl, w, size, s, at, 0 + 1);
  }

  lemma LenOfBoth(a: seq<Hop>, b: seq<Hop>)
    ensures HopsLen(a + b) == HopsLen(a) + HopsLen(b)
  {
    hide HopsLen;
    HostLength(a);
    HostLength(b);
    HostLength(a + b);
    HostAppend(a, b);
  }

  /** The bytes of the first n passes. */
  function BytesUpTo(sgl: seq<Extent>, w: Window, size: nat, s: nat, n: nat): nat
    requires s < size && START.sgIdx <= |sgl|
  {
    HopsLen(HopsUpTo(sgl, w, size, s, START, n))
  }

  lemma BytesHere(sgl: seq<Extent>, w: Window, size: nat, s0: nat, passes: nat, before: seq<Hop>, hops: seq<Hop>)
    requires s0 < size && START.sgIdx <= |sgl|
    requires HopsUpTo(sgl, w, size, s0, START, passes) == before
    requires HopsUpTo(sgl, w, size, s0, START, passes + 1) == before + hops
    ensures BytesUpTo(sgl, w, size, s0, passes) == HopsLen(before)
    ensures BytesUpTo(sgl, w, size, s0, passes + 1) == HopsLen(before) + HopsLen(hops)
  {
    hide HopsLen, HopsUpTo, START;
    LenOfBoth(before, hops);
  }

  /** The loop: the passes run one after the other. The bytes moved are the first bytes of the
      request's course, all of it unless a transfer does not complete: then they are the
      bytes of the passes before and what the hardware had moved of this one. */
  method PassLoop(ring: Ring, req: ApertureRequest, w: Window, totalLen: u32, verdict: nat -> Verdict)
    returns (end: Ending, done: nat, passes: nat, ghost made: nat, ghost moves: seq<Move>)
    requires ring.Valid() && req.Place() == START
    modifies ring, ring.desc, req
    ensures ring.Valid() && Counted(done, made)
    ensures forall i :: 0 <= i < passes ==> verdict(i) == Completed
    ensures end.Stopped? ==> end.verdict == verdict(passes) != Completed
    ensures START.sgIdx <= |req.sgl| && old(ring.descIdx) < ring.desc.Length
    ensures var c := CourseOf(req.sgl, w, ring.desc.Length, old(ring.descIdx), START, totalLen);
            var all := HopsMeaning(ring.dir, c.hops);
            && moves <= all && made <= |moves|
            && (end == Done ==> c.Finished? && moves == all && made == |all|)
            && (end == Overrun ==> c.Underflow? && moves == all && made == |all|)
    ensures var n := CourseCount(req.sgl, w, ring.desc.Length, old(ring.descIdx), START, totalLen);
            && passes <= n && (end.Stopped? <==> passes < n)
    ensures made == BytesUpTo(req.sgl, w, ring.desc.Length, old(ring.descIdx), passes)
    ensures end.Stopped? ==>
              var next := BytesUpTo(req.sgl, w, ring.desc.Length, old(ring.descIdx), passes + 1);
              && made < next && |moves| == made + Made(end.verdict, next - made)
    ensures end != Stopped(Rejected) ==> ring.descUsed == old(ring.descUsed)
  {
    hide *;
    StaysValid(ring);
    Started();
    ghost var dir, size, s0 := ring.dir, ring.desc.Length, ring.descIdx;
    ghost var c := CourseOf(req.sgl, w, size, s0, START, totalLen);
    ghost var rest, before := c, [];
    done, passes, made, moves := 0, 0, 0, [];
    CourseStart(dir, c);
    ReachedStart(req.sgl, w, size, s0, totalLen);
    PlaceFields(req);
    NothingMoreYet(dir, c);
    while req.offset < totalLen
      invariant ring.Valid() && ring.descIdx < size && req.Place().sgIdx <= |req.sgl| && req.offset == req.Place().offset
      invariant rest == CourseOf(req.sgl, w, size, ring.descIdx, req.Place(), totalLen)
      invariant OnCourse(dir, c, rest, moves) && moves <= HopsMeaning(dir, c.hops)
      invariant Reached(req.sgl, w, size, s0, ring.descIdx, req.Place(), passes, before, totalLen)
      invariant made == |moves| == HopsLen(before) && Counted(done, made)
      invariant forall i :: 0 <= i < passes ==> verdict(i) == Completed
      invariant ring.descUsed == old(ring.descUsed)
      decreases |req.sgl| - req.Place().sgIdx, FirstLen(req.sgl, req.Place())
    {
      ghost var at, s := req.Place(), ring.descIdx;
      ghost var hops := PassHops(req.sgl, at, w, size - s);
      CourseStep(req.sgl, w, size, s, at, totalLen);
      VerdictMeans(verdict(passes), |HopsMeaning(dir, hops)|);
      ReachedHere(req.sgl, w, size, s0, s, at, passes, before, totalLen);
      BytesHere(req.sgl, w, size, s0, passes, before, hops);
      PassEmptyIff(req.sgl, at, w, size - s);
      var rv, len;
      ghost var more;
      rv, len, more := OnePass(ring, req, w, verdict(passes));
      PlaceFields(req);
      StaysValid(ring);
      if len.None? {
        CourseOver(dir, c, rest, moves);
        return Overrun, done, passes, made, moves;
      }
      rest := CourseOf(req.sgl, w, size, ring.descIdx, req.Place(), totalLen);
      CourseOn(dir, c, hops, rest, moves);
      if rv < 0 {
        PrefixOfMore(moves, HopsMeaning(dir, hops), HopsMeaning(dir, c.hops), |more|);
        moves := moves + more;
        return Stopped(verdict(passes)), done, passes, made, moves;
      }
      ReachedNext(req.sgl, w, size, s0, s, at, passes, before, totalLen);
      LenOfBoth(before, hops);
      NotAtEnd(req.sgl, at, w, size - s);
      PassAdvances(req.sgl, at, w, size - s);
      CountMore(done, made, HopsLen(hops));
      done, passes := done + len.value, passes + 1;
      made, moves, before := made + HopsLen(hops), moves + HopsMeaning(dir, hops), before + hops;
    }
    CourseStep(req.sgl, w, size, ring.descIdx, req.Place(), totalLen);
    CourseOver(dir, c, rest, moves);
    ReachedHere(req.sgl, w, size, s0, ring.descIdx, req.Place(), passes, before, totalLen);
    BytesHere(req.sgl, w, size, s0, passes, before, PassHops(req.sgl, req.Place(), w, size - ring.descIdx));
    end := Done;
  }

  lemma NothingMoreYet(dir: Direction, c: Course)
    ensures [] <= HopsMeaning(dir, c.hops) && HopsLen([]) == 0
  {
  }

  /** The function returns a value, or a pass without descriptors overruns the ring. */
  datatype Outcome = Returned(ret: int) | RunsOff

  /** What the first pass that does not complete leaves. As the first pass of all it gives the
      error code; behind completed passes of less than 2^32 bytes the result is their bytes. */
  ghost predicate EndsAtBadPass(sgl: seq<Extent>, w: Window, size: nat, s: nat, total: u32, verdict: nat -> Verdict,
                                o: Outcome, moved: nat)
    requires s < size && START.sgIdx <= |sgl|
  {
    forall m: nat :: FirstBad(verdict, m) && m < CourseCount(sgl, w, size, s, START, total) ==>
      var before, next := BytesUpTo(sgl, w, size, s, m), BytesUpTo(sgl, w, size, s, m + 1);
      && before < next && o.Returned?
      && moved == before + (if verdict(m) == Rejected then 0 else Min(verdict(m).moved, next - before))
      && (m > 0 && before < TWO32 ==> o.ret == before)
      && (m == 0 && verdict(0) == Rejected ==> o.ret == -EBUSY)
      && (m == 0 && verdict(0).Failed? ==> o.ret == -EIO)
      && (m == 0 && verdict(0).TimedOut? ==> o.ret == -ERESTARTSYS)
  }

  lemma BadPassIs(sgl: seq<Extent>, w: Window, size: nat, s: nat, total: u32, verdict: nat -> Verdict, end: Ending,
                  done: nat, passes: nat, made: nat, moved: nat, o: Outcome)
    requires s < size && START.sgIdx <= |sgl|
    requires forall i :: 0 <= i < passes ==> verdict(i) == Completed
    requires passes <= CourseCount(sgl, w, size, s, START, total) && made == BytesUpTo(sgl, w, size, s, passes)
    requires end.Stopped? <==> passes < CourseCount(sgl, w, size, s, START, total)
    requires end.Stopped? ==> end.verdict == verdict(passes) != Completed
    requires end.Stopped? ==>
               var next := BytesUpTo(sgl, w, size, s, passes + 1); made < next && moved == made + Made(end.verdict, next - made)
    requires Counted(done, made) && (end.Stopped? ==> o == Returned(if done != 0 then done else ErrorOf(end.verdict)))
    ensures EndsAtBadPass(sgl, w, size, s, total, verdict, o, moved)
  {
    hide CourseCount, BytesUpTo, START;
    NoBytesYet(sgl, w, size, s);
    SomeBytesDone(sgl, w, size, s, passes, total);
    forall m: nat | FirstBad(verdict, m) && m < CourseCount(sgl, w, size, s, START, total)
      ensures m == passes && end.Stopped?
    {
      OneFirstBad(verdict, passes, m);
    }
  }

  lemma OneFirstBad(verdict: nat -> Verdict, passes: nat, m: nat)
    requires FirstBad(verdict, m) && forall i :: 0 <= i < passes ==> verdict(i) == Completed
    ensures m >= passes && (verdict(passes) != Completed ==> m == passes)
  {
  }

  lemma FirstPassThere(sgl: seq<Extent>, w: Window, size: nat, s: nat)
    requires s < size && START.sgIdx <= |sgl| && Wrap32(TotalLen(sgl)) > 0
    ensures CourseCount(sgl, w, size, s, START, Wrap32(TotalLen(sgl))) > 0
  {
    hide CourseCount, TotalLen, PassHops, NextAt, Advance, Visited, Masked;
    Started();
    var total := Wrap32(TotalLen(sgl));
    CountStep(sgl, w, size, s, START, total);
    PassEmptyIff(sgl, START, w, size - s);
    FirstPass(sgl, w);
  }

  lemma SomeBytesDone(sgl: seq<Extent>, w: Window, size: nat, s: nat, n: nat, total: u32)
    requires s < size && START.sgIdx <= |sgl| && n <= CourseCount(sgl, w, size, s, START, total)
    ensures n > 0 ==> BytesUpTo(sgl, w, size, s, n) > 0
  {
    hide CourseCount, HopsUpTo, START, PassHops, HopsLen, NextAt, Advance;
    if n > 0 {
      var hops := PassHops(sgl, START, w, size - s);
      CountStep(sgl, w, size, s, START, total);
      UpToStep(sgl, w, size, s, START, n - 1);
      PassEmptyIff(sgl, START, w, size - s);
      LenOfBoth(hops, HopsUpTo(sgl, w, size, Advance(size, s, |hops|), NextAt(sgl, START, w, size - s), n - 1));
    }
  }

  lemma NoBytesYet(sgl: seq<Extent>, w: Window, size: nat, s: nat)
    requires s < size && START.sgIdx <= |sgl|
    ensures BytesUpTo(sgl, w, size, s, 0) == 0
  {
  }

  /** xdma_xfer_aperture with any number of passes. Whatever happens to the transfers, the
      hardware moves the first bytes of the request's course, at least as many as the result
      counts, and all of them when every transfer completes; the function does not return
      exactly when the course then reaches a pass without descriptors. If the passes are all
      right, the bytes go round and round in the window. */
  method XferAperture(ring: Ring, write: bool, ep: u64, aperture: u32, sgl: seq<Extent>, blenMax: u32,
                      offline: bool, memory: bool, verdict: nat -> Verdict)
    returns (o: Outcome, ghost moves: seq<Move>)
    requires ring.Valid() && blenMax > 0 && aperture > 0 && ep + aperture <= 0x1_0000_0000_0000_0000
    modifies ring, ring.desc
    ensures ring.Valid() && START.sgIdx <= |sgl| && old(ring.descIdx) < ring.desc.Length
    ensures offline ==> o == Returned(-EBUSY) && moves == []
    ensures !offline && write != (ring.dir == ToDevice) ==> o == Returned(-EINVAL) && moves == []
    ensures !offline && write == (ring.dir == ToDevice) && sgl == [] ==> o == Returned(-EIO) && moves == []
    ensures !offline && write == (ring.dir == ToDevice) && sgl != [] && !memory ==> o == Returned(-ENOMEM) && moves == []
    ensures !offline && write == (ring.dir == ToDevice) && sgl != [] && memory ==>
              var w := WindowSpec(ep, aperture, Min(aperture, blenMax));
              var size, s, total := ring.desc.Length, old(ring.descIdx), Wrap32(TotalLen(sgl));
              var c := CourseOf(sgl, w, size, s, START, total);
              var all := HopsMeaning(ring.dir, c.hops);
              && moves <= all
              && (o == RunsOff ==> c.Underflow? && moves == all)
              && (o.Returned? ==> o.ret <= |moves|)
              && EndsAtBadPass(sgl, w, size, s, total, verdict, o, |moves|)
              && (total > 0 && verdict(0) == Rejected ==> o == Returned(-EBUSY))
              && (total > 0 && verdict(0).Failed? ==> o == Returned(-EIO))
              && (total > 0 && verdict(0).TimedOut? ==> o == Returned(-ERESTARTSYS))
              && ((forall i :: verdict(i) == Completed) ==>
                    && moves == all && (o == RunsOff <==> c.Underflow?)
                    && (o.Returned? && |moves| < TWO32 ==> o.ret == |moves|))
              && (PassesRight(sgl, w, size, s, START, total, 0) ==>
                    o.Returned? && all == RoundMeaning(ring.dir, Bytes(sgl), w, 0))
              && ((forall i :: verdict(i) != Rejected) ==> ring.descUsed == old(ring.descUsed))
  {
    hide *;
    Started();
    StaysValid(ring);
    o, moves := Returned(0), [];
    if offline {
      return Returned(-EBUSY), [];
    }
    if write != (ring.dir == ToDevice) {
      return Returned(-EINVAL), [];
    }
    if sgl == [] {
      return Returned(-EIO), [];
    }
    if !memory {
      return Returned(-ENOMEM), [];
    }
    MaxLen(aperture, blenMax);
    var w: Window := WindowSpec(ep, aperture, if aperture < blenMax then aperture else blenMax);
    var req := new ApertureRequest(sgl);
    var totalLen := SumLengths(sgl);
    RequestRightIff(ring.dir, sgl, w, ring.desc.Length, ring.descIdx);
    var end, done, passes;
    ghost var made, s := 0, ring.descIdx;
    end, done, passes, made, moves := PassLoop(ring, req, w, totalLen, verdict);
    CountedMeans(done, made);
    var rv := if end.Stopped? then ErrorOf(end.verdict) else 0;
    VerdictMeans(if end.Stopped? then end.verdict else Completed, 0);
    o := if end == Overrun then RunsOff else Returned(if done != 0 then done else rv);
    BadPassIs(sgl, w, ring.desc.Length, s, totalLen, verdict, end, done, passes, made, |moves|, o);
    if totalLen > 0 && verdict(0) != Completed {
      FirstPassThere(sgl, w, ring.desc.Length, s);
      BadAtOnce(verdict);
      AtBadPass(sgl, w, ring.desc.Length, s, totalLen, verdict, o, |moves|);
    }
  }

  lemma AtBadPass(sgl: seq<Extent>, w: Window, size: nat, s: nat, total: u32, verdict: nat -> Verdict, o: Outcome, moved: nat)
    requires s < size && START.sgIdx <= |sgl| && EndsAtBadPass(sgl, w, size, s, total, verdict, o, moved)
    requires FirstBad(verdict, 0) && CourseCount(sgl, w, size, s, START, total) > 0
    ensures verdict(0) == Rejected ==> o == Returned(-EBUSY)
    ensures verdict(0).Failed? ==> o == Returned(-EIO)
    ensures verdict(0).TimedOut? ==> o == Returned(-ERESTARTSYS)
  {
    hide CourseCount, BytesUpTo, START, FirstBad;
    assert BytesUpTo(sgl, w, size, s, 0) < BytesUpTo(sgl, w, size, s, 0 + 1);
  }

  lemma CountedMeans(done: nat, made: nat)
    requires Counted(done, made)
    ensures done <= made && (made < TWO32 ==> done == made)
  {
  }

  lemma MaxLen(aperture: u32, blenMax: u32)
    requires 0 < aperture && 0 < blenMax
    ensures Min(aperture, blenMax) == if aperture < blenMax then aperture else blenMax
  {
  }
}
