/** xdma_xfer_submit on a memory-mapped engine: a request is run as a series of
    transfers, one at a time, until all are done or one is not completed. */
module Submit {
  import opened Codes
  import opened Words
  import opened Dma
  import opened Descriptors
  import opened Requests
  import opened Rings

  /** How a pass ends: transfer_queue rejects the transfer, or the transfer is found
      completed, failed, or still submitted after the wait. A transfer that was queued but
      did not complete has moved some of its first bytes all the same. */
  datatype Verdict = Rejected | Completed | Failed(moved: nat) | TimedOut(moved: nat)

  /** The bytes of a transfer of `total` bytes that the hardware moves under a verdict. */
  function Made(v: Verdict, total: nat): (n: nat)
    ensures n <= total
  {
    match v
    case Rejected => 0
    case Completed => total
    case Failed(m) => Min(m, total)
    case TimedOut(m) => Min(m, total)
  }

  /** The state of the submit loop when it ends: bytes counted, error code, completed
      passes, descriptors they covered, descriptors still charged to desc_used, and bytes
      the hardware has moved. */
  datatype Tally = Tally(done: nat, rv: int, passes: nat, upTo: nat, leaked: nat, moved: nat)

  function ErrorOf(v: Verdict): int {
    match v
    case Rejected => -EBUSY
    case Completed => 0
    case Failed(_) => -EIO
    case TimedOut(_) => -ERESTARTSYS
  }

  /** The bytes of descriptors a up to b. */
  function LenBetween(es: seq<Extent>, a: nat, b: nat): nat
    requires a <= b <= |es|
  {
    TotalLen(es[a..b])
  }

  function SubmitFrom(sdesc: seq<Extent>, from: nat, size: nat, s: nat, verdict: nat -> Verdict,
                      pass: nat, done: nat): Tally
    requires from <= |sdesc| && s < size
    decreases |sdesc| - from
  {
    if from == |sdesc| then Tally(done, 0, pass, from, 0, LenBetween(sdesc, 0, from))
    else
      var n := TransferSize(|sdesc| - from, size, s);
      if verdict(pass) == Completed then
        SubmitFrom(sdesc, from + n, size, Advance(size, s, n), verdict, pass + 1,
                   done + Wrap32(LenBetween(sdesc, from, from + n)))
      else
        Tally(done, ErrorOf(verdict(pass)), pass, from, if verdict(pass) == Rejected then n else 0,
              LenBetween(sdesc, 0, from) + Made(verdict(pass), LenBetween(sdesc, from, from + n)))
  }

  function ReturnValue(t: Tally): int { if t.done != 0 then t.done else t.rv }

  /** The descriptors covered by the first m transfers. */
  function Boundary(cnt: nat, size: nat, s: nat, m: nat): nat
    requires s < size
    decreases m
  {
    if m == 0 || cnt == 0 then 0
    else
      var n := TransferSize(cnt, size, s);
      n + Boundary(cnt - n, size, Advance(size, s, n), m - 1)
  }

  lemma {:induction false} SubmitCountsPrefix(sdesc: seq<Extent>, from: nat, size: nat, s: nat,
                                              verdict: nat -> Verdict, pass: nat, done: nat)
    requires from <= |sdesc| && s < size
    ensures var t := SubmitFrom(sdesc, from, size, s, verdict, pass, done);
            var m := t.passes - pass;
            && 0 <= m <= Passes(|sdesc| - from, size, s)
            && (forall i :: pass <= i < t.passes ==> verdict(i) == Completed)
            && (m < Passes(|sdesc| - from, size, s) ==> verdict(t.passes) != Completed && t.rv < 0)
            && (m == Passes(|sdesc| - from, size, s) ==> t.upTo == |sdesc| && t.rv == 0)
            && t.upTo == from + Boundary(|sdesc| - from, size, s, m) <= |sdesc|
            && (t.leaked > 0 <==> m < Passes(|sdesc| - from, size, s) && verdict(t.passes) == Rejected)
    decreases |sdesc| - from
  {
    hide Wrap32, LenBetween, Advance, TransferSize;
    if from < |sdesc| {
      var n := TransferSize(|sdesc| - from, size, s);
      if verdict(pass) == Completed {
        SubmitCountsPrefix(sdesc, from + n, size, Advance(size, s, n), verdict, pass + 1,
                           done + Wrap32(LenBetween(sdesc, from, from + n)));
      }
    }
  }

  /** The first m transfers from descriptor `from` on are each below 2^32 bytes. */
  ghost predicate EachFits(sdesc: seq<Extent>, from: nat, size: nat, s: nat, m: nat)
    requires from <= |sdesc| && s < size
    decreases m
  {
    m == 0 || from == |sdesc| ||
    var n := TransferSize(|sdesc| - from, size, s);
    LenBetween(sdesc, from, from + n) < TWO32 && EachFits(sdesc, from + n, size, Advance(size, s, n), m - 1)
  }

  /** The count is a sum of 32-bit lengths: never more than the bytes of the completed
      transfers, and exactly those if and only if each of them is below 2^32 bytes. The
      hardware has moved at least those bytes and at most those of one more transfer. */
  ghost predicate Counts(sdesc: seq<Extent>, from: nat, done: nat, fits: bool, t: Tally)
  {
    && from <= t.upTo <= |sdesc|
    && t.done <= done + LenBetween(sdesc, from, t.upTo)
    && (t.done == done + LenBetween(sdesc, from, t.upTo) <==> fits)
    && LenBetween(sdesc, 0, t.upTo) <= t.moved <= LenBetween(sdesc, 0, |sdesc|)
    && (t.rv == 0 || t.leaked > 0 ==> t.moved == LenBetween(sdesc, 0, t.upTo))
  }

  lemma {:induction false} SubmitCountsBytes(sdesc: seq<Extent>, from: nat, size: nat, s: nat,
                                             verdict: nat -> Verdict, pass: nat, done: nat)
    requires from <= |sdesc| && s < size
    ensures var t := SubmitFrom(sdesc, from, size, s, verdict, pass, done);
            t.passes >= pass && Counts(sdesc, from, done, EachFits(sdesc, from, size, s, t.passes - pass), t)
    decreases |sdesc| - from
  {
    hide *;
    if from < |sdesc| && verdict(pass) == Completed {
      var n := TransferSize(|sdesc| - from, size, s);
      var len := LenBetween(sdesc, from, from + n);
      var s' := Advance(size, s, n);
      SubmitStep(sdesc, from, size, s, verdict, pass, done);
      var t := SubmitFrom(sdesc, from, size, s, verdict, pass, done);
      SubmitCountsBytes(sdesc, from + n, size, s', verdict, pass + 1, done + Wrap32(len));
      FitsStep(sdesc, from, size, s, t.passes - pass);
      CountsMore(sdesc, from, from + n, done, EachFits(sdesc, from + n, size, s', t.passes - pass - 1), t);
    } else {
      SubmitStops(sdesc, from, size, s, verdict, pass, done);
    }
  }

  lemma FitsStep(sdesc: seq<Extent>, from: nat, size: nat, s: nat, m: nat)
    requires from < |sdesc| && s < size && m > 0
    ensures var n := TransferSize(|sdesc| - from, size, s);
            EachFits(sdesc, from, size, s, m)
            <==> LenBetween(sdesc, from, from + n) < TWO32 && EachFits(sdesc, from + n, size, Advance(size, s, n), m - 1)
  {
    hide LenBetween, TransferSize, Advance;
  }

  lemma CountsMore(sdesc: seq<Extent>, from: nat, mid: nat, done: nat, fits: bool, t: Tally)
    requires from <= mid <= |sdesc| && Counts(sdesc, mid, done + Wrap32(LenBetween(sdesc, from, mid)), fits, t)
    ensures Counts(sdesc, from, done, LenBetween(sdesc, from, mid) < TWO32 && fits, t)
  {
    hide LenBetween;
    LenCut(sdesc, from, mid, t.upTo);
  }

  /** The loop ends here: at the end of the request or with a transfer that does not complete. */
  lemma SubmitStops(sdesc: seq<Extent>, from: nat, size: nat, s: nat, verdict: nat -> Verdict, pass: nat, done: nat)
    requires from <= |sdesc| && s < size && (from == |sdesc| || verdict(pass) != Completed)
    ensures var t := SubmitFrom(sdesc, from, size, s, verdict, pass, done);
            && t.passes == pass && t.upTo == from && EachFits(sdesc, from, size, s, 0)
            && Counts(sdesc, from, done, true, t)
  {
    hide LenBetween, TransferSize, Advance;
    NoBytesBetween(sdesc, from);
    if from < |sdesc| {
      var n := TransferSize(|sdesc| - from, size, s);
      TransferFits(|sdesc| - from, size, s);
      LenCut(sdesc, 0, from, from + n);
      LenCut(sdesc, 0, from + n, |sdesc|);
    }
  }

  lemma TransferFits(remaining: nat, size: nat, s: nat)
    requires s < size && remaining > 0
    ensures 0 < TransferSize(remaining, size, s) <= remaining
  {
  }

  lemma SubmitStep(sdesc: seq<Extent>, from: nat, size: nat, s: nat, verdict: nat -> Verdict, pass: nat, done: nat)
    requires from < |sdesc| && s < size && verdict(pass) == Completed
    ensures var n := TransferSize(|sdesc| - from, size, s);
            && 0 < n <= |sdesc| - from
            && SubmitFrom(sdesc, from, size, s, verdict, pass, done)
               == SubmitFrom(sdesc, from + n, size, Advance(size, s, n), verdict, pass + 1,
                             done + Wrap32(LenBetween(sdesc, from, from + n)))
  {
    hide LenBetween, Wrap32, Advance;
  }

  lemma NoBytesBetween(es: seq<Extent>, a: nat)
    requires a <= |es|
    ensures LenBetween(es, a, a) == 0
  {
  }

  lemma LenCut(es: seq<Extent>, a: nat, b: nat, c: nat)
    requires a <= b <= c <= |es|
    ensures LenBetween(es, a, c) == LenBetween(es, a, b) + LenBetween(es, b, c)
  {
    hide TotalLen, Bytes;
    assert es[a..c] == es[a..b] + es[b..c];
    BytesAppend(es[a..b], es[b..c]);
  }

  lemma BytesCut(es: seq<Extent>, a: nat, b: nat, c: nat)
    requires a <= b <= c <= |es|
    ensures Bytes(es[a..c]) == Bytes(es[a..b]) + Bytes(es[b..c])
  {
    hide TotalLen, Bytes;
    assert es[a..c] == es[a..b] + es[b..c];
    BytesAppend(es[a..b], es[b..c]);
  }

  /** The result counts the completed prefix of the request: the transfers before the first
      one that is not completed, all of them when every transfer completes. It is their byte
      length if and only if each of them is below 2^32 bytes, and never more. The hardware
      has moved those bytes, and otherwise only bytes of the transfer that did not complete.
      Only a rejected transfer stays charged to desc_used, and it has moved nothing. */
  lemma SubmitResult(sgl: seq<Extent>, blenMax: u32, size: nat, s: nat, verdict: nat -> Verdict)
    requires blenMax > 0 && s < size
    ensures var sdesc := SplitAll(sgl, blenMax);
            var total := Passes(|sdesc|, size, s);
            var t := SubmitFrom(sdesc, 0, size, s, verdict, 0, 0);
            && t.passes <= total
            && (forall i :: 0 <= i < t.passes ==> verdict(i) == Completed)
            && (t.passes < total ==> verdict(t.passes) != Completed)
            && t.upTo == Boundary(|sdesc|, size, s, t.passes) <= |sdesc|
            && t.done <= TotalLen(sdesc[..t.upTo]) <= t.moved <= TotalLen(sgl)
            && (t.done == TotalLen(sdesc[..t.upTo]) <==> EachFits(sdesc, 0, size, s, t.passes))
            && (t.passes == total ==> t.moved == TotalLen(sgl))
            && (EachFits(sdesc, 0, size, s, t.passes) ==>
                  && (ReturnValue(t) <= 0 <==> t.passes == 0)
                  && (t.passes == total ==> ReturnValue(t) == TotalLen(sgl)))
            && (t.leaked > 0 <==> t.passes < total && verdict(t.passes) == Rejected)
            && (t.leaked > 0 ==> t.moved == TotalLen(sdesc[..t.upTo]))
  {
    hide SubmitFrom, SplitAll, Bytes, Passes, Boundary, Advance, TransferSize, TotalLen, EachFits;
    var sdesc := SplitAll(sgl, blenMax);
    var t := SubmitFrom(sdesc, 0, size, s, verdict, 0, 0);
    SplitAllKeepsBytes(sgl, blenMax);
    BytesLength(sgl);
    BytesLength(sdesc);
    assert sdesc[0..|sdesc|] == sdesc && sdesc[..|sdesc|] == sdesc;
    SubmitCountsPrefix(sdesc, 0, size, s, verdict, 0, 0);
    SubmitCountsBytes(sdesc, 0, size, s, verdict, 0, 0);
    assert sdesc[0..t.upTo] == sdesc[..t.upTo];
    BoundaryPositive(|sdesc|, size, s, t.passes);
    SomeBytes(sdesc, t.upTo);
  }

  /** Transfers of a request below 2^32 bytes fit. */
  lemma {:induction false} SmallFits(sdesc: seq<Extent>, from: nat, size: nat, s: nat, m: nat)
    requires from <= |sdesc| && s < size && LenBetween(sdesc, from, |sdesc|) < TWO32
    ensures EachFits(sdesc, from, size, s, m)
    decreases m
  {
    hide LenBetween, TransferSize, Advance;
    if m > 0 && from < |sdesc| {
      TransferFits(|sdesc| - from, size, s);
      var n := TransferSize(|sdesc| - from, size, s);
      LenCut(sdesc, from, from + n, |sdesc|);
      SmallFits(sdesc, from + n, size, Advance(size, s, n), m - 1);
    }
  }

  /** Software descriptors are not empty, so any of them have bytes. */
  lemma SomeBytes(sdesc: seq<Extent>, n: nat)
    requires n <= |sdesc| && forall e :: e in sdesc ==> e.len > 0
    ensures TotalLen(sdesc[..n]) > 0 <==> n > 0
  {
    if n > 0 {
      assert sdesc[..n][0] in sdesc;
    }
  }

  lemma BoundaryPositive(cnt: nat, size: nat, s: nat, m: nat)
    requires s < size
    ensures cnt == 0 ==> Passes(cnt, size, s) == 0
    ensures Boundary(cnt, size, s, m) > 0 <==> m > 0 && cnt > 0
  {
  }

  // ----- the submit loop -----

  /** Where the submit loop stands before a pass: the transfers so far have copied exactly
      the bytes of the first `from` descriptors. */
  ghost predicate CopiedSoFar(dir: Direction, sdesc: seq<Extent>, ep: nat, from: nat, epNow: u64, moves: seq<Move>)
  {
    && from <= |sdesc|
    && epNow == Wrap64(ep + LenBetween(sdesc, 0, from))
    && moves == Meaning(dir, Bytes(sdesc[..from]), ep)
  }

  lemma CopiedMore(dir: Direction, sdesc: seq<Extent>, ep: nat, from: nat, n: nat, epNow: u64, moves: seq<Move>)
    requires CopiedSoFar(dir, sdesc, ep, from, epNow, moves) && from + n <= |sdesc|
    ensures var sds := Taken(sdesc, from, n);
            CopiedSoFar(dir, sdesc, ep, from + n, Wrap64(EpAt(false, sds, epNow, n)), moves + Meaning(dir, Bytes(sds), epNow))
  {
    hide Wrap64, Meaning, Bytes, TotalLen, LenBetween, EpAt, Taken;
    var sds := Taken(sdesc, from, n);
    var a, b := LenBetween(sdesc, 0, from), LenBetween(sdesc, from, from + n);
    TakenIs(sdesc, from, n, epNow);
    LenCut(sdesc, 0, from, from + n);
    BytesCut(sdesc, 0, from, from + n);
    WrapAdd(ep + a, b);
    MeaningAppend(dir, Bytes(sdesc[..from]), Bytes(sds), ep);
    MeaningWrap(dir, Bytes(sds), ep + a);
  }

  lemma TakenIs(sdesc: seq<Extent>, from: nat, n: nat, ep: nat)
    requires from + n <= |sdesc|
    ensures var sds := Taken(sdesc, from, n);
            && sds == sdesc[from..from + n] && EpAt(false, sds, ep, n) == ep + LenBetween(sdesc, from, from + n)
    ensures sdesc[0..from] == sdesc[..from] && sdesc[0..from + n] == sdesc[..from + n]
    ensures |Bytes(sdesc[..from])| == LenBetween(sdesc, 0, from)
  {
    hide Bytes, TotalLen;
    var sds := Taken(sdesc, from, n);
    assert sds[..n] == sds && sdesc[0..from] == sdesc[..from];
    BytesLength(sdesc[..from]);
  }

  lemma NothingCopied(dir: Direction, sdesc: seq<Extent>, ep: u64)
    ensures CopiedSoFar(dir, sdesc, ep, 0, ep, [])
  {
  }

  /** xdma_xfer_submit with dma_mapped unset; pci_map_sg maps every entry to itself. The
      environment decides whether the device is offline, whether memory is available and
      how every pass ends. `moves` is all that the hardware copies. */
  method XferSubmit(ring: Ring, write: bool, ep: u64, sgl: seq<Extent>, blenMax: u32,
                    offline: bool, memory: bool, verdict: nat -> Verdict)
    returns (ret: int, ghost moves: seq<Move>)
    requires ring.Valid() && blenMax > 0
    modifies ring, ring.desc
    ensures ring.Valid() && ret >= -ERESTARTSYS
    ensures offline ==> ret == -EBUSY
    ensures !offline && write != (ring.dir == ToDevice) ==> ret == -EINVAL
    ensures !offline && write == (ring.dir == ToDevice) && sgl == [] ==> ret == -EIO
    ensures var sdesc := SplitAll(sgl, blenMax);
            !offline && write == (ring.dir == ToDevice) && sgl != [] ==>
              if memory && Shortfall(sgl, blenMax) <= 0 then
                var t := SubmitFrom(sdesc, 0, ring.desc.Length, old(ring.descIdx), verdict, 0, 0);
                && ret == ReturnValue(t)
                && ring.descUsed == old(ring.descUsed) + t.leaked
                && (!ring.nonIncr ==>
                      && |Meaning(ring.dir, Bytes(sgl), ep)| == TotalLen(sgl) >= t.moved
                      && moves == Meaning(ring.dir, Bytes(sgl), ep)[..t.moved])
              else ret == -ENOMEM && moves == []
    ensures offline || write != (ring.dir == ToDevice) || sgl == [] || !memory ==> moves == []
    // in the caller's terms: whatever happens to the transfers, the bytes copied are the first
    // bytes of the scatter list, each to or from its own device address, and at least as many
    // as the result counts
    ensures !ring.nonIncr ==>
              && moves <= Meaning(ring.dir, Bytes(sgl), ep)
              && ret <= |moves|
    // the first transfer that does not complete decides: alone it gives the error code, behind
    // completed ones the result is their bytes
    ensures !offline && write == (ring.dir == ToDevice) && memory && Shortfall(sgl, blenMax) <= 0 && TotalLen(sgl) > 0 ==>
              && (verdict(0).Rejected? ==> ret == -EBUSY)
              && (verdict(0).Failed? ==> ret == -EIO)
              && (verdict(0).TimedOut? ==> ret == -ERESTARTSYS)
    ensures !offline && write == (ring.dir == ToDevice) && sgl != [] && memory && Shortfall(sgl, blenMax) <= 0 ==>
              && EndsAtFirstBad(SplitAll(sgl, blenMax), ring.desc.Length, old(ring.descIdx), verdict, ret)
              && (!ring.nonIncr ==>
                    MovedAtFirstBad(SplitAll(sgl, blenMax), ring.desc.Length, old(ring.descIdx), verdict, |moves|))
    ensures !offline && write == (ring.dir == ToDevice) && sgl != [] && memory && !ring.nonIncr
            && Shortfall(sgl, blenMax) <= 0 && (forall i :: verdict(i) == Completed) ==>
              && moves == Meaning(ring.dir, Bytes(sgl), ep)
              && (TotalLen(sgl) < TWO32 ==> ret == TotalLen(sgl))
  {
    ret, moves := 0, [];
    if offline {
      return -EBUSY, [];
    }
    if write != (ring.dir == ToDevice) {
      return -EINVAL, [];
    }
    if sgl == [] {
      return -EIO, [];
    }
    var r, past := InitRequest(sgl, ep, blenMax, memory);
    if r.None? {
      return -ENOMEM, [];
    }
    var req := r.value;
    ghost var size, s := ring.desc.Length, ring.descIdx;
    ret, moves := SubmitLoop(ring, req, ep, verdict);
    ErrorCodes(req.sdesc, 0, size, s, verdict, 0, 0);
    PrefixCopied(ring.dir, sgl, blenMax, size, s, verdict, ep);
    EndsRight(sgl, blenMax, size, s, verdict);
  }

  /** m transfers complete and the one after them does not. */
  ghost predicate FirstBad(verdict: nat -> Verdict, m: nat) {
    (forall i :: 0 <= i < m ==> verdict(i) == Completed) && verdict(m) != Completed
  }

  /** How the loop ends at the first transfer that does not complete: its error code, and how
      far the hardware got in its bytes. */
  lemma {:induction false} StopExact(sdesc: seq<Extent>, from: nat, size: nat, s: nat, verdict: nat -> Verdict,
                                     pass: nat, done: nat)
    requires from <= |sdesc| && s < size
    ensures var t := SubmitFrom(sdesc, from, size, s, verdict, pass, done);
            var m := t.passes - pass;
            0 <= m < Passes(|sdesc| - from, size, s) ==>
              var next := from + Boundary(|sdesc| - from, size, s, m + 1);
              && t.upTo <= next <= |sdesc|
              && (verdict(t.passes) == Rejected ==> t.rv == -EBUSY && t.moved == LenBetween(sdesc, 0, t.upTo))
              && (verdict(t.passes).Failed? ==>
                    t.rv == -EIO
                    && t.moved == LenBetween(sdesc, 0, t.upTo) + Min(verdict(t.passes).moved, LenBetween(sdesc, t.upTo, next)))
              && (verdict(t.passes).TimedOut? ==>
                    t.rv == -ERESTARTSYS
                    && t.moved == LenBetween(sdesc, 0, t.upTo) + Min(verdict(t.passes).moved, LenBetween(sdesc, t.upTo, next)))
    decreases |sdesc| - from
  {
    hide Wrap32, LenBetween, Advance, TransferSize;
    if from < |sdesc| {
      var n := TransferSize(|sdesc| - from, size, s);
      SubmitCountsPrefix(sdesc, from, size, s, verdict, pass, done);
      if verdict(pass) == Completed {
        StopExact(sdesc, from + n, size, Advance(size, s, n), verdict, pass + 1,
                  done + Wrap32(LenBetween(sdesc, from, from + n)));
      } else {
        assert Boundary(|sdesc| - from - n, size, Advance(size, s, n), 0) == 0;
      }
    }
  }

  /** The same for a request from its first descriptor on. */
  lemma StopsAtFirstBad(sgl: seq<Extent>, blenMax: u32, size: nat, s: nat, verdict: nat -> Verdict, m: nat)
    requires blenMax > 0 && s < size
    requires FirstBad(verdict, m) && m < Passes(|SplitAll(sgl, blenMax)|, size, s)
    ensures var sdesc := SplitAll(sgl, blenMax);
            var t := SubmitFrom(sdesc, 0, size, s, verdict, 0, 0);
            var a, b := Boundary(|sdesc|, size, s, m), Boundary(|sdesc|, size, s, m + 1);
            && t.passes == m && t.upTo == a <= b <= |sdesc|
            && (m == 0 ==> ReturnValue(t) == t.rv)
            && (TotalLen(sgl) < TWO32 && m > 0 ==> ReturnValue(t) == LenBetween(sdesc, 0, a))
            && (verdict(m) == Rejected ==> t.rv == -EBUSY && t.moved == LenBetween(sdesc, 0, a))
            && (verdict(m).Failed? ==>
                  t.rv == -EIO && t.moved == LenBetween(sdesc, 0, a) + Min(verdict(m).moved, LenBetween(sdesc, a, b)))
            && (verdict(m).TimedOut? ==>
                  t.rv == -ERESTARTSYS && t.moved == LenBetween(sdesc, 0, a) + Min(verdict(m).moved, LenBetween(sdesc, a, b)))
  {
    hide SubmitFrom, SplitAll, Passes, TotalLen, Bytes, EachFits, Boundary;
    var sdesc := SplitAll(sgl, blenMax);
    var t := SubmitFrom(sdesc, 0, size, s, verdict, 0, 0);
    SubmitResult(sgl, blenMax, size, s, verdict);
    StopExact(sdesc, 0, size, s, verdict, 0, 0);
    SplitAllKeepsBytes(sgl, blenMax);
    BytesLength(sgl);
    BytesLength(sdesc);
    assert sdesc[0..t.upTo] == sdesc[..t.upTo] && sdesc[0..|sdesc|] == sdesc;
    BoundaryPositive(|sdesc|, size, s, t.passes);
    SomeBytes(sdesc, t.upTo);
    if TotalLen(sgl) < TWO32 {
      SmallFits(sdesc, 0, size, s, t.passes);
    }
  }

  /** Behind m > 0 completed transfers of a request below 2^32 bytes the result is their bytes. */
  ghost predicate EndsAtFirstBad(sdesc: seq<Extent>, size: nat, s: nat, verdict: nat -> Verdict, ret: int)
    requires s < size
  {
    forall m: nat :: FirstBad(verdict, m) && 0 < m < Passes(|sdesc|, size, s) && TotalLen(sdesc) < TWO32 ==>
      var a := Boundary(|sdesc|, size, s, m);
      a <= |sdesc| && ret == LenBetween(sdesc, 0, a)
  }

  /** The bytes moved are those of the completed transfers and, unless the next one was
      rejected, as many of its bytes as the hardware had moved when it failed or timed out. */
  ghost predicate MovedAtFirstBad(sdesc: seq<Extent>, size: nat, s: nat, verdict: nat -> Verdict, moved: nat)
    requires s < size
  {
    forall m: nat :: FirstBad(verdict, m) && m < Passes(|sdesc|, size, s) ==>
      var a, b := Boundary(|sdesc|, size, s, m), Boundary(|sdesc|, size, s, m + 1);
      && a <= b <= |sdesc|
      && moved == LenBetween(sdesc, 0, a)
                  + (if verdict(m) == Rejected then 0 else Min(verdict(m).moved, LenBetween(sdesc, a, b)))
  }

  lemma EndsRight(sgl: seq<Extent>, blenMax: u32, size: nat, s: nat, verdict: nat -> Verdict)
    requires blenMax > 0 && s < size
    ensures var sdesc := SplitAll(sgl, blenMax);
            var t := SubmitFrom(sdesc, 0, size, s, verdict, 0, 0);
            && EndsAtFirstBad(sdesc, size, s, verdict, ReturnValue(t)) && MovedAtFirstBad(sdesc, size, s, verdict, t.moved)
            && (TotalLen(sgl) > 0 ==>
                  && (verdict(0).Rejected? ==> ReturnValue(t) == -EBUSY)
                  && (verdict(0).Failed? ==> ReturnValue(t) == -EIO)
                  && (verdict(0).TimedOut? ==> ReturnValue(t) == -ERESTARTSYS))
  {
    hide SubmitFrom, SplitAll, Passes, TotalLen, Bytes, Boundary, LenBetween;
    var sdesc := SplitAll(sgl, blenMax);
    SplitAllKeepsBytes(sgl, blenMax);
    BytesLength(sgl);
    BytesLength(sdesc);
    var t := SubmitFrom(sdesc, 0, size, s, verdict, 0, 0);
    hide FirstBad, ReturnValue;
    forall m: nat | FirstBad(verdict, m) && 0 < m < Passes(|sdesc|, size, s) && TotalLen(sdesc) < TWO32
      ensures Boundary(|sdesc|, size, s, m) <= |sdesc|
      ensures ReturnValue(t) == LenBetween(sdesc, 0, Boundary(|sdesc|, size, s, m))
    {
      StopsAtFirstBad(sgl, blenMax, size, s, verdict, m);
    }
    assert EndsAtFirstBad(sdesc, size, s, verdict, ReturnValue(t));
    forall m: nat | FirstBad(verdict, m) && m < Passes(|sdesc|, size, s)
      ensures var a, b := Boundary(|sdesc|, size, s, m), Boundary(|sdesc|, size, s, m + 1);
              && a <= b <= |sdesc|
              && t.moved == LenBetween(sdesc, 0, a)
                            + (if verdict(m) == Rejected then 0 else Min(verdict(m).moved, LenBetween(sdesc, a, b)))
    {
      StopsAtFirstBad(sgl, blenMax, size, s, verdict, m);
    }
    if TotalLen(sgl) > 0 && verdict(0) != Completed {
      SomeTransfer(sdesc, size, s);
      BadAtOnce(verdict);
      StopsAtFirstBad(sgl, blenMax, size, s, verdict, 0);
    }
  }

  lemma BadAtOnce(verdict: nat -> Verdict)
    requires verdict(0) != Completed
    ensures FirstBad(verdict, 0)
  {
  }

  lemma SomeTransfer(sdesc: seq<Extent>, size: nat, s: nat)
    requires s < size && TotalLen(sdesc) > 0
    ensures Passes(|sdesc|, size, s) > 0
  {
  }

  lemma {:induction false} ErrorCodes(sdesc: seq<Extent>, from: nat, size: nat, s: nat, verdict: nat -> Verdict,
                                      pass: nat, done: nat)
    requires from <= |sdesc| && s < size
    ensures SubmitFrom(sdesc, from, size, s, verdict, pass, done).rv in {0, -EBUSY, -EIO, -ERESTARTSYS}
    decreases |sdesc| - from
  {
    hide LenBetween, Wrap32;
    if from < |sdesc| && verdict(pass) == Completed {
      var n := TransferSize(|sdesc| - from, size, s);
      ErrorCodes(sdesc, from + n, size, Advance(size, s, n), verdict, pass + 1, done + Wrap32(LenBetween(sdesc, from, from + n)));
    }
  }

  /** The bytes the hardware has moved are the first bytes of the scatter list, at least as
      many as the result counts, and all of them when every transfer completes. */
  lemma PrefixCopied(dir: Direction, sgl: seq<Extent>, blenMax: u32, size: nat, s: nat, verdict: nat -> Verdict, ep: nat)
    requires blenMax > 0 && s < size
    ensures var sdesc := SplitAll(sgl, blenMax);
            var t := SubmitFrom(sdesc, 0, size, s, verdict, 0, 0);
            && Meaning(dir, Bytes(sdesc), ep) == Meaning(dir, Bytes(sgl), ep)
            && |Meaning(dir, Bytes(sgl), ep)| == TotalLen(sgl)
            && ReturnValue(t) <= t.moved <= TotalLen(sgl)
            && ((forall i :: verdict(i) == Completed) ==> t.moved == TotalLen(sgl))
            && ((forall i :: verdict(i) == Completed) && TotalLen(sgl) < TWO32 ==> ReturnValue(t) == TotalLen(sgl))
  {
    hide SubmitFrom, SplitAll, Passes, Boundary, TotalLen, Bytes, EachFits;
    var sdesc := SplitAll(sgl, blenMax);
    var t := SubmitFrom(sdesc, 0, size, s, verdict, 0, 0);
    SubmitResult(sgl, blenMax, size, s, verdict);
    ErrorCodes(sdesc, 0, size, s, verdict, 0, 0);
    SplitAllKeepsBytes(sgl, blenMax);
    BytesLength(sgl);
    BytesLength(sdesc);
    assert sdesc[0..|sdesc|] == sdesc;
    if TotalLen(sgl) < TWO32 {
      SmallFits(sdesc, 0, size, s, t.passes);
    }
  }

  /** The submit loop before pass number `pass`: what it will end with is `goal`. */
  ghost predicate AtPass(goal: Tally, dir: Direction, nonIncr: bool, sdesc: seq<Extent>, ep: nat, size: nat,
                         verdict: nat -> Verdict, from: nat, epNow: u64, s: nat, pass: nat, done: nat, moves: seq<Move>)
  {
    && from <= |sdesc| && s < size
    && goal == SubmitFrom(sdesc, from, size, s, verdict, pass, done)
    && (!nonIncr ==> CopiedSoFar(dir, sdesc, ep, from, epNow, moves))
  }

  /** moves are the first n moves of the request. */
  ghost predicate FirstMoves(dir: Direction, sdesc: seq<Extent>, ep: nat, n: nat, moves: seq<Move>) {
    n <= |Meaning(dir, Bytes(sdesc), ep)| && moves == Meaning(dir, Bytes(sdesc), ep)[..n]
  }

  lemma CopiedIsFirst(dir: Direction, sdesc: seq<Extent>, ep: nat, from: nat, epNow: u64, moves: seq<Move>)
    requires CopiedSoFar(dir, sdesc, ep, from, epNow, moves)
    ensures FirstMoves(dir, sdesc, ep, LenBetween(sdesc, 0, from), moves)
  {
    hide Bytes, TotalLen, Wrap64;
    assert sdesc == sdesc[..from] + sdesc[from..] && sdesc[0..from] == sdesc[..from];
    BytesAppend(sdesc[..from], sdesc[from..]);
    BytesLength(sdesc[..from]);
    MeaningAppend(dir, Bytes(sdesc[..from]), Bytes(sdesc[from..]), ep);
  }

  /** The first p moves of the next transfer go on where the moves so far end. */
  lemma PartIsFirst(dir: Direction, sdesc: seq<Extent>, ep: nat, from: nat, n: nat, epNow: u64, moves: seq<Move>, p: nat)
    requires CopiedSoFar(dir, sdesc, ep, from, epNow, moves) && from + n <= |sdesc| && p <= LenBetween(sdesc, from, from + n)
    ensures var m := Meaning(dir, Bytes(Taken(sdesc, from, n)), epNow);
            p <= |m| && FirstMoves(dir, sdesc, ep, LenBetween(sdesc, 0, from) + p, moves + m[..p])
  {
    hide Meaning, Bytes, TotalLen, Wrap64, EpAt, LenBetween, CopiedSoFar;
    var m := Meaning(dir, Bytes(Taken(sdesc, from, n)), epNow);
    CopiedMore(dir, sdesc, ep, from, n, epNow, moves);
    CopiedIsFirst(dir, sdesc, ep, from, epNow, moves);
    CopiedIsFirst(dir, sdesc, ep, from + n, Wrap64(EpAt(false, Taken(sdesc, from, n), epNow, n)), moves + m);
    LenCut(sdesc, 0, from, from + n);
    assert moves + m[..p] == (moves + m)[..|moves| + p];
  }

  /** The submit loop after its last pass. */
  ghost predicate Ended(goal: Tally, dir: Direction, nonIncr: bool, sdesc: seq<Extent>, ep: nat,
                        done: nat, rv: int, leaked: int, moves: seq<Move>)
  {
    && goal.done == done && goal.rv == rv && goal.leaked == leaked
    && (!nonIncr ==> FirstMoves(dir, sdesc, ep, goal.moved, moves))
  }

  lemma PassStep(goal: Tally, dir: Direction, nonIncr: bool, sdesc: seq<Extent>, ep: nat, size: nat,
                 verdict: nat -> Verdict, from: nat, epNow: u64, s: nat, pass: nat, done: nat, moves: seq<Move>,
                 n: nat, copied: seq<Move>)
    requires AtPass(goal, dir, nonIncr, sdesc, ep, size, verdict, from, epNow, s, pass, done, moves)
    requires from < |sdesc| && s < size && n == TransferSize(|sdesc| - from, size, s)
    requires !nonIncr ==> MovesOf(verdict(pass), dir, sdesc, from, n, epNow, copied)
    ensures if verdict(pass) == Completed then
              AtPass(goal, dir, nonIncr, sdesc, ep, size, verdict, from + n,
                     Wrap64(EpAt(nonIncr, Taken(sdesc, from, n), epNow, n)), Advance(size, s, n), pass + 1,
                     done + Wrap32(LenBetween(sdesc, from, from + n)), moves + copied)
            else
              Ended(goal, dir, nonIncr, sdesc, ep, done, ErrorOf(verdict(pass)),
                    if verdict(pass) == Rejected then n else 0, moves + copied)
  {
    hide Wrap64, Wrap32, Advance, TransferSize, LenBetween, EpAt, Meaning, Bytes, CopiedSoFar, FirstMoves, Taken, MovesOf, Made;
    if !nonIncr {
      MovesOfIs(verdict(pass), dir, sdesc, from, n, epNow, copied);
      if verdict(pass) == Completed {
        CopiedMore(dir, sdesc, ep, from, n, epNow, moves);
      } else {
        PartIsFirst(dir, sdesc, ep, from, n, epNow, moves, Made(verdict(pass), LenBetween(sdesc, from, from + n)));
      }
    }
  }

  /** What the hardware does in a pass: all moves of the transfer if it completes, the first
      of them otherwise. */
  ghost predicate MovesOf(v: Verdict, dir: Direction, sdesc: seq<Extent>, from: nat, n: nat, ep: u64, moves: seq<Move>)
    requires from + n <= |sdesc|
  {
    var all := Meaning(dir, Bytes(Taken(sdesc, from, n)), ep);
    moves == all[..Made(v, |all|)]
  }

  lemma MovesOfIs(v: Verdict, dir: Direction, sdesc: seq<Extent>, from: nat, n: nat, ep: u64, moves: seq<Move>)
    requires from + n <= |sdesc| && MovesOf(v, dir, sdesc, from, n, ep, moves)
    ensures var all := Meaning(dir, Bytes(Taken(sdesc, from, n)), ep);
            && |all| == LenBetween(sdesc, from, from + n) && moves == all[..Made(v, |all|)]
            && (v == Completed ==> moves == all)
  {
    hide Bytes, TotalLen;
    BytesLength(Taken(sdesc, from, n));
  }

  lemma PassEnd(goal: Tally, dir: Direction, nonIncr: bool, sdesc: seq<Extent>, ep: nat, size: nat,
                verdict: nat -> Verdict, epNow: u64, s: nat, pass: nat, done: nat, moves: seq<Move>)
    requires AtPass(goal, dir, nonIncr, sdesc, ep, size, verdict, |sdesc|, epNow, s, pass, done, moves)
    ensures Ended(goal, dir, nonIncr, sdesc, ep, done, 0, 0, moves)
  {
    hide Bytes, Meaning, LenBetween, FirstMoves, CopiedSoFar;
    if !nonIncr {
      CopiedIsFirst(dir, sdesc, ep, |sdesc|, epNow, moves);
    }
  }

  /** One pass of the loop: build a transfer, queue it, and retire it unless transfer_queue
      rejected it. `moves` is what the hardware does: the chain's moves up to the point it
      had reached when the verdict fell. */
  method OnePass(ring: Ring, req: Request, v: Verdict) returns (rv: int, num: nat, len: nat, ghost moves: seq<Move>)
    requires ring.Valid() && req.swDescIdx < |req.sdesc|
    modifies ring, ring.desc, req
    ensures ring.Valid() && rv == ErrorOf(v) && (rv == 0 <==> v == Completed)
    ensures num == TransferSize(|req.sdesc| - old(req.swDescIdx), ring.desc.Length, old(ring.descIdx))
    ensures req.swDescIdx == old(req.swDescIdx) + num
    ensures ring.descIdx == Advance(ring.desc.Length, old(ring.descIdx), num)
    ensures ring.descUsed == old(ring.descUsed) + (if v == Rejected then num else 0)
    ensures len == Wrap32(LenBetween(req.sdesc, old(req.swDescIdx), old(req.swDescIdx) + num))
    ensures var sds := Taken(req.sdesc, old(req.swDescIdx), num);
            && req.epAddr == Wrap64(EpAt(ring.nonIncr, sds, old(req.epAddr), num))
            && (!ring.nonIncr ==> MovesOf(v, ring.dir, req.sdesc, old(req.swDescIdx), num, old(req.epAddr), moves))
  {
    hide HoldsChain, Wrap64, Wrap32, TotalLen, Meaning, Advance, TransferSize, EpAt, Run, Bytes, Hops, HopsMeaning;
    moves := [];
    ghost var from, epNow := req.swDescIdx, req.epAddr;
    var xfer := ring.TransferInit(req);
    rv, num, len := ErrorOf(v), xfer.descNum, xfer.len;
    if v == Rejected {
      return;
    }
    if !ring.nonIncr {
      HopsLength(false, Taken(req.sdesc, from, num), epNow);
      ChainRuns(ring.desc[..], ring.bus, xfer.descIndex, ring.dir, Hops(false, Taken(req.sdesc, from, num), epNow), num);
      IncrementalHops(ring.dir, Taken(req.sdesc, from, num), epNow);
      ghost var run := Run(ring.desc[..], ring.bus, xfer.descBus, num);
      moves := run.moves[..Made(v, |run.moves|)];
    }
    ring.descUsed := ring.descUsed - num;
    ring.Destroy(xfer.descIndex, num);
  }

  /** One turn of the loop, with its accounting. */
  method Turn(ring: Ring, req: Request, ghost goal: Tally, ghost ep: u64, verdict: nat -> Verdict, pass: nat,
              before: nat, ghost copied: seq<Move>)
    returns (rv: int, num: nat, done: nat, ghost moves: seq<Move>)
    requires ring.Valid() && req.swDescIdx < |req.sdesc|
    requires AtPass(goal, ring.dir, ring.nonIncr, req.sdesc, ep, ring.desc.Length, verdict,
                    req.swDescIdx, req.epAddr, ring.descIdx, pass, before, copied)
    modifies ring, ring.desc, req
    ensures ring.Valid() && num > 0 && req.swDescIdx == old(req.swDescIdx) + num <= |req.sdesc|
    ensures rv == 0 ==>
              && ring.descUsed == old(ring.descUsed)
              && AtPass(goal, ring.dir, ring.nonIncr, req.sdesc, ep, ring.desc.Length, verdict,
                        req.swDescIdx, req.epAddr, ring.descIdx, pass + 1, done, moves)
    ensures rv != 0 ==>
              Ended(goal, ring.dir, ring.nonIncr, req.sdesc, ep, done, rv, ring.descUsed - old(ring.descUsed), moves)
  {
    hide *;
    ghost var from, epNow, s := req.swDescIdx, req.epAddr, ring.descIdx;
    var len;
    ghost var moved;
    rv, num, len, moved := OnePass(ring, req, verdict(pass));
    PassStep(goal, ring.dir, ring.nonIncr, req.sdesc, ep, ring.desc.Length, verdict,
             from, epNow, s, pass, before, copied, num, moved);
    done, moves := before, copied + moved;
    if rv == 0 {
      done := before + len;
    }
  }

  /** The loop of xdma_xfer_submit under desc_lock. */
  method SubmitLoop(ring: Ring, req: Request, ep: u64, verdict: nat -> Verdict) returns (ret: int, ghost moves: seq<Move>)
    requires ring.Valid() && req.swDescIdx == 0 && req.epAddr == ep
    modifies ring, ring.desc, req
    ensures ring.Valid()
    ensures var t := SubmitFrom(req.sdesc, 0, ring.desc.Length, old(ring.descIdx), verdict, 0, 0);
            && ret == ReturnValue(t)
            && ring.descUsed == old(ring.descUsed) + t.leaked
            && (!ring.nonIncr ==> FirstMoves(ring.dir, req.sdesc, ep, t.moved, moves))
  {
    ghost var goal := SubmitFrom(req.sdesc, 0, ring.desc.Length, ring.descIdx, verdict, 0, 0);
    NothingCopied(ring.dir, req.sdesc, ep);
    moves := [];
    var rv, done: nat, pass: nat := 0, 0, 0;
    var nents := |req.sdesc|;
    assert AtPass(goal, ring.dir, ring.nonIncr, req.sdesc, ep, ring.desc.Length, verdict,
                  0, ep, ring.descIdx, 0, 0, moves);
    hide *;
    while nents != 0 && rv == 0
      invariant ring.Valid() && req.swDescIdx <= |req.sdesc|
      invariant rv == 0 ==>
                  && ring.descUsed == old(ring.descUsed)
                  && nents == |req.sdesc| - req.swDescIdx
                  && AtPass(goal, ring.dir, ring.nonIncr, req.sdesc, ep, ring.desc.Length, verdict,
                            req.swDescIdx, req.epAddr, ring.descIdx, pass, done, moves)
      invariant rv != 0 ==>
                  Ended(goal, ring.dir, ring.nonIncr, req.sdesc, ep, done, rv, ring.descUsed - old(ring.descUsed), moves)
      decreases nents
    {
      var num;
      rv, num, done, moves := Turn(ring, req, goal, ep, verdict, pass, done, moves);
      nents := nents - num;
      pass := pass + 1;
    }
    if rv == 0 {
      PassEnd(goal, ring.dir, ring.nonIncr, req.sdesc, ep, ring.desc.Length, verdict,
              req.epAddr, ring.descIdx, pass, done, moves);
    }
    EndOfLoop(goal, ring.dir, ring.nonIncr, req.sdesc, ep, done, rv, ring.descUsed - old(ring.descUsed), moves);
    ret := if done != 0 then done else rv;
  }

  lemma EndOfLoop(goal: Tally, dir: Direction, nonIncr: bool, sdesc: seq<Extent>, ep: nat,
                  done: nat, rv: int, leaked: int, moves: seq<Move>)
    requires Ended(goal, dir, nonIncr, sdesc, ep, done, rv, leaked, moves)
    ensures ReturnValue(goal) == (if done != 0 then done else rv) && goal.leaked == leaked
    ensures !nonIncr ==> FirstMoves(dir, sdesc, ep, goal.moved, moves)
  {
  }
}
