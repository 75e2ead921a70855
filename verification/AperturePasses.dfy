/** The passes of xdma_xfer_aperture: each one fills the ring from the current index to its
    end at most, and the next one resumes from three counters. When a pass, and a request
    of any number of passes, does what it should. */
module AperturePasses {
  import opened Words
  import opened Masks
  import opened Dma
  import opened Descriptors
  import opened Rings
  import opened Aperture

  /** An entry from byte off on; its 32-bit length wraps when the entry is shorter. */
  function Trim(e: Extent, off: u32): Extent {
    if off == 0 then e else Extent(Wrap64(e.addr + off), Wrap32(e.len - off))
  }

  /** req->sg_idx, req->sg_offset and req->offset. */
  datatype At = At(sgIdx: nat, sgOffset: u32, offset: u32)

  const START := At(0, 0, 0)

  /** The entries a pass visits. req->sg stays at the first entry of the list, so a pass that
      resumes at index sgIdx walks from the first entry again, for |sgl| - sgIdx entries. */
  function Visited(sgl: seq<Extent>, at: At): seq<Extent> {
    if at.sgIdx >= |sgl| then [] else [Trim(sgl[0], at.sgOffset)] + sgl[1..|sgl| - at.sgIdx]
  }

  /** The position in the window a pass starts from. */
  function Masked(at: At, w: Window): (p: nat)
    ensures p < w.ap
  {
    And(at.offset, w.ap - 1)
  }

  /** The descriptors of a pass with room for so many. */
  function PassHops(sgl: seq<Extent>, at: At, w: Window, room: nat): (hops: seq<Hop>)
    ensures |hops| <= room
  {
    var v := Visited(sgl, at);
    if v == [] then [] else Cut(v[0], v[1..], w, Wrap64(w.ep + Masked(at, w)), room)
  }

  /** No sum wraps for any piece of the pass. */
  predicate PassFits(sgl: seq<Extent>, at: At, w: Window, room: nat) {
    var v := Visited(sgl, at);
    v == [] || Fits(v[0], v[1..], w, Masked(at, w), room)
  }

  /** The bytes of some descriptors. */
  function HopsLen(hops: seq<Hop>): nat {
    if hops == [] then 0 else HopsLen(hops[..|hops| - 1]) + hops[|hops| - 1].ext.len
  }

  lemma HopsLenStep(hops: seq<Hop>, cnt: nat)
    requires cnt < |hops|
    ensures HopsLen(hops[..cnt + 1]) == HopsLen(hops[..cnt]) + hops[cnt].ext.len
  {
    assert hops[..cnt + 1][..cnt] == hops[..cnt];
  }

  lemma {:induction false} HostAppend(a: seq<Hop>, b: seq<Hop>)
    ensures HostOf(a + b) == HostOf(a) + HostOf(b)
  {
    hide ExtentBytes;
    if a == [] {
      assert a + b == b;
    } else {
      HostAppend(a[1..], b);
      assert (a + b)[1..] == a[1..] + b && (a + b)[0] == a[0];
      var m := ExtentBytes(a[0].ext);
      assert m + (HostOf(a[1..]) + HostOf(b)) == (m + HostOf(a[1..])) + HostOf(b);
    }
  }

  lemma {:induction false} HopsAppend(dir: Direction, a: seq<Hop>, b: seq<Hop>)
    ensures HopsMeaning(dir, a + b) == HopsMeaning(dir, a) + HopsMeaning(dir, b)
  {
    hide Meaning, ExtentBytes;
    if a == [] {
      assert a + b == b;
    } else {
      HopsAppend(dir, a[1..], b);
      assert (a + b)[1..] == a[1..] + b && (a + b)[0] == a[0];
      var m := Meaning(dir, ExtentBytes(a[0].ext), a[0].ep);
      assert m + (HopsMeaning(dir, a[1..]) + HopsMeaning(dir, b)) == (m + HopsMeaning(dir, a[1..])) + HopsMeaning(dir, b);
    }
  }

  lemma {:induction false} HostLength(hops: seq<Hop>)
    ensures |HostOf(hops)| == HopsLen(hops)
  {
    hide ExtentBytes;
    if hops != [] {
      var n := |hops| - 1;
      HostLength(hops[..n]);
      HostAppend(hops[..n], [hops[n]]);
      assert hops == hops[..n] + [hops[n]];
      HopsCons(ToDevice, hops[n], []);
      BytesOfExtent(hops[n].ext);
    }
  }

  // ----- one pass -----

  /** A pass carries the first bytes of the entries it visits, all of them when it leaves
      room. */
  lemma PassCarries(sgl: seq<Extent>, at: At, w: Window, room: nat)
    ensures var hops := PassHops(sgl, at, w, room);
            && HopsLen(hops) <= TotalLen(Visited(sgl, at))
            && |Bytes(Visited(sgl, at))| == TotalLen(Visited(sgl, at))
            && HostOf(hops) == Bytes(Visited(sgl, at))[..HopsLen(hops)]
            && (|hops| < room ==> HopsLen(hops) == TotalLen(Visited(sgl, at)))
  {
    var hops, v := PassHops(sgl, at, w, room), Visited(sgl, at);
    hide Cut, ExtentBytes, And, Masked, HopsLen, TotalLen, Visited;
    HostLength(hops);
    BytesLength(v);
    if v != [] {
      CutCarries(v[0], v[1..], w, Wrap64(w.ep + Masked(at, w)), room);
    }
  }

  /** Every descriptor carries a byte, so a pass without descriptors is one that visits no
      byte: then desc_cnt is 0 and the linking loop counts to desc_cnt - 1 = 2^32 - 1. */
  lemma PassEmptyIff(sgl: seq<Extent>, at: At, w: Window, room: nat)
    requires room > 0
    ensures PassHops(sgl, at, w, room) == [] <==> TotalLen(Visited(sgl, at)) == 0
    ensures PassHops(sgl, at, w, room) == [] <==> HopsLen(PassHops(sgl, at, w, room)) == 0
  {
    var hops, v := PassHops(sgl, at, w, room), Visited(sgl, at);
    hide Cut, Masked, TotalLen, Visited;
    PassCarries(sgl, at, w, room);
    if hops != [] {
      CutFirst(v[0], v[1..], w, Wrap64(w.ep + Masked(at, w)), room);
      HopsCons(ToDevice, hops[0], hops[1..]);
      assert hops == [hops[0]] + hops[1..];
      BytesOfExtent(hops[0].ext);
      HostLength(hops);
    }
  }

  lemma {:induction false} CutFirst(e: Extent, behind: seq<Extent>, w: Window, addr: u64, room: nat)
    ensures var hops := Cut(e, behind, w, addr, room);
            hops != [] ==> 0 < hops[0].ext.len && (addr <= MaxAddr(w) ==> hops[0].ep == addr)
    decreases |behind|
  {
    if e.len == 0 && behind != [] && room > 0 {
      CutFirst(behind[0], behind[1..], w, addr, room);
    }
  }

  lemma RemSame(w: Window, p: nat, from: nat, k: nat)
    requires p == Rem(from, w.ap)
    ensures Rem(p + k, w.ap) == Rem(from + k, w.ap)
  {
    var ap, q := w.ap, from / w.ap;
    var r, d := (p + k) % ap, (p + k) / ap;
    assert from == q * ap + p && p + k == d * ap + r;
    assert (q + d) * ap == q * ap + d * ap;
    DivUnique(from + k, ap, q + d, r);
  }

  /** Round meanings are equal when they start at the same place of the window. */
  lemma RoundSame(dir: Direction, rc: seq<u64>, w: Window, p: nat, from: nat)
    requires p == Rem(from, w.ap)
    ensures RoundMeaning(dir, rc, w, p) == RoundMeaning(dir, rc, w, from)
  {
    hide RoundMeaning, Rem;
    var l, r := RoundMeaning(dir, rc, w, p), RoundMeaning(dir, rc, w, from);
    RoundLength(dir, rc, w, p);
    RoundLength(dir, rc, w, from);
    forall k | 0 <= k < |rc|
      ensures l[k] == r[k]
    {
      RoundAt(dir, rc, w, p, k);
      RoundAt(dir, rc, w, from, k);
      RemSame(w, p, from, k);
    }
  }

  /** Descriptors with a round meaning carry its host bytes. */
  lemma SameHost(dir: Direction, hops: seq<Hop>, rc: seq<u64>, w: Window, from: nat)
    requires HopsMeaning(dir, hops) == RoundMeaning(dir, rc, w, from)
    ensures HostOf(hops) == rc
  {
    hide HopsMeaning, RoundMeaning, HostOf, Rem;
    HopsHost(dir, hops);
    RoundLength(dir, rc, w, from);
    forall k | 0 <= k < |rc|
      ensures HostOf(hops)[k] == rc[k]
    {
      RoundAt(dir, rc, w, from, k);
    }
  }

  /** ... and the first one starts where the meaning does. */
  lemma SameStart(dir: Direction, hops: seq<Hop>, rc: seq<u64>, w: Window, from: nat)
    requires HopsMeaning(dir, hops) == RoundMeaning(dir, rc, w, from) && hops != [] && hops[0].ext.len > 0
    ensures hops[0].ep == w.ep + Rem(from, w.ap)
  {
    hide HopsMeaning, RoundMeaning, Rem;
    FirstDevice(dir, hops);
    RoundLength(dir, rc, w, from);
    RoundAt(dir, rc, w, from, 0);
  }

  lemma PassOpens(sgl: seq<Extent>, at: At, w: Window, room: nat)
    ensures var v, p := Visited(sgl, at), Masked(at, w);
            && PassHops(sgl, at, w, room) == (if v == [] then [] else Cut(v[0], v[1..], w, Wrap64(w.ep + p), room))
            && (PassFits(sgl, at, w, room) <==> v == [] || Fits(v[0], v[1..], w, p, room))
            && Turned(w, p) == p && Rem(p, w.ap) == p && Wrap64(w.ep + p) == w.ep + p <= MaxAddr(w)
  {
    hide Cut, Visited, Masked, Fits;
  }

  /** A pass does what is asked of the bytes rc, the first of them at position `from` of the
      round, exactly when it carries these bytes, offset & (aperture - 1) is
      `from` mod aperture (or there are no bytes), and no sum wraps. */
  lemma PassMeaningIff(dir: Direction, sgl: seq<Extent>, at: At, w: Window, room: nat, rc: seq<u64>, from: nat)
    ensures var hops := PassHops(sgl, at, w, room);
            HopsMeaning(dir, hops) == RoundMeaning(dir, rc, w, from)
            <==> HostOf(hops) == rc && (rc == [] || Masked(at, w) == Rem(from, w.ap)) && PassFits(sgl, at, w, room)
  {
    hide *;
    var hops, v, p := PassHops(sgl, at, w, room), Visited(sgl, at), Masked(at, w);
    PassOpens(sgl, at, w, room);
    NothingMoved(dir, w, from);
    NothingMoved(dir, w, p);
    NoBytes(hops);
    if v != [] {
      CutRightIff(dir, v[0], v[1..], w, p, p, room);
      CutFirst(v[0], v[1..], w, Wrap64(w.ep + p), room);
    }
    if HopsMeaning(dir, hops) == RoundMeaning(dir, rc, w, from) {
      SameHost(dir, hops, rc, w, from);
      if hops != [] {
        SameStart(dir, hops, rc, w, from);
        RoundSame(dir, rc, w, p, from);
      }
    } else if HostOf(hops) == rc && PassFits(sgl, at, w, room) && p == Rem(from, w.ap) {
      RoundSame(dir, rc, w, p, from);
    }
  }

  lemma NoBytes(hops: seq<Hop>)
    ensures HostOf([]) == []
    ensures hops != [] && hops[0].ext.len > 0 ==> HostOf(hops) != []
  {
    if hops != [] {
      BytesOfExtent(hops[0].ext);
    }
  }

  /** The entries that are left when a pass resumes at byte sgOffset of entry sgIdx. */
  function Left(sgl: seq<Extent>, at: At): seq<Extent> {
    if at.sgIdx >= |sgl| then [] else [Trim(sgl[at.sgIdx], at.sgOffset)] + sgl[at.sgIdx + 1..]
  }

  /** A pass that resumes at byte sgOffset of entry sgIdx with `offset` bytes behind it copies
      the next bytes of what is left, as many as it has descriptors for, exactly when the
      entries it visits begin with these bytes, the mask is the remainder and no sum wraps. */
  lemma LaterPassRightIff(dir: Direction, sgl: seq<Extent>, at: At, w: Window, room: nat)
    ensures var hops := PassHops(sgl, at, w, room);
            var n, left := HopsLen(hops), Bytes(Left(sgl, at));
            n <= |left| && HopsMeaning(dir, hops) == RoundMeaning(dir, left[..n], w, at.offset)
            <==>
            && n <= |left| && left[..n] <= Bytes(Visited(sgl, at))
            && (n == 0 || Masked(at, w) == Rem(at.offset, w.ap))
            && PassFits(sgl, at, w, room)
  {
    hide *;
    var n, left := HopsLen(PassHops(sgl, at, w, room)), Bytes(Left(sgl, at));
    PassCarries(sgl, at, w, room);
    if n <= |left| {
      PassMeaningIff(dir, sgl, at, w, room, left[..n], at.offset);
    }
  }

  /** With an aperture of a power of two every pass starts where the bytes before it ended. */
  lemma PowerWindow(at: At, w: Window, n: nat)
    requires w.ap == Pow2(n)
    ensures Masked(at, w) == Rem(at.offset, w.ap)
  {
    MaskIsRemainder(at.offset, n);
  }
}
