/** xdma_xfer_aperture: the bytes of a scatter list are written round and round into a
    device window of `aperture` bytes. This is the cutting of entries into descriptors, with
    the driver's 64-bit address arithmetic, and what the descriptors mean. */
module Aperture {
  import opened Words
  import opened Masks
  import opened Dma
  import opened Descriptors

  /** The device window [ep, ep + ap) and the longest descriptor, min(aperture, desc_blen_max). */
  datatype WindowSpec = WindowSpec(ep: nat, ap: nat, maxlen: nat)

  type Window = w: WindowSpec |
      0 < w.maxlen <= w.ap < 0x1_0000_0000 && w.ep + w.ap <= 0x1_0000_0000_0000_0000
    witness WindowSpec(0, 1, 1)

  /** ep_addr_max. */
  function MaxAddr(w: Window): u64 { w.ep + w.ap - 1 }

  /** Where the next descriptor goes and how long it is. */
  datatype Piece = Piece(addr: u64, len: nat)

  /** The inner loop's computation, in 64 bits: an address behind the window starts again at
      its beginning, and a piece that seems to reach over its end is cut. */
  function PieceAt(w: Window, tlen: nat, addr: u64): (p: Piece)
    requires 0 < tlen
    ensures 0 < p.len <= tlen && p.len <= w.maxlen
  {
    var a := if addr > MaxAddr(w) then w.ep else addr;
    var l := Min(tlen, w.maxlen);
    Piece(a, if Wrap64(a + l) > MaxAddr(w) then MaxAddr(w) - a + 1 else l)
  }

  /** An entry without its first n bytes. */
  function Tail(e: Extent, n: nat): (r: Extent)
    requires n <= e.len
    ensures r.len == e.len - n
  {
    Extent(Wrap64(e.addr + n), e.len - n)
  }

  /** The descriptors of entry e and the entries behind it, with room for so many. */
  function Cut(e: Extent, behind: seq<Extent>, w: Window, addr: u64, room: nat): (hops: seq<Hop>)
    ensures |hops| <= room
    decreases |behind|, e.len
  {
    if room == 0 then []
    else if e.len == 0 then
      if behind == [] then [] else Cut(behind[0], behind[1..], w, addr, room)
    else
      var p := PieceAt(w, e.len, addr);
      [Hop(Extent(e.addr, p.len), p.addr)] + Cut(Tail(e, p.len), behind, w, Wrap64(p.addr + p.len), room - 1)
  }

  // ----- what the window promises -----

  /** A position in the window; it wraps when it has reached the end. */
  function Turned(w: Window, pos: nat): (p: nat)
    requires pos <= w.ap
    ensures p < w.ap
  {
    if pos == w.ap then 0 else pos
  }

  /** The longest piece within the entry, the descriptor limit and the window. */
  function PieceLen(w: Window, tlen: nat, p: nat): (len: nat)
    requires p < w.ap
    ensures len <= tlen && len <= w.maxlen && p + len <= w.ap && (tlen > 0 ==> len > 0)
  {
    Min(Min(tlen, w.maxlen), w.ap - p)
  }

  /** Neither the address behind the window nor the end of the uncut piece wraps around. */
  predicate PieceOk(w: Window, tlen: nat, pos: nat)
    requires pos <= w.ap
  {
    var p, l := Turned(w, pos), Min(tlen, w.maxlen);
    w.ep + pos < 0x1_0000_0000_0000_0000 && (p + l <= w.ap || w.ep + p + l < 0x1_0000_0000_0000_0000)
  }

  /** The driver's piece is the longest one inside the window exactly when no sum wraps. */
  lemma PieceIff(w: Window, tlen: nat, pos: nat)
    requires 0 < tlen && pos <= w.ap
    ensures var p := Turned(w, pos);
            PieceAt(w, tlen, Wrap64(w.ep + pos)) == Piece(w.ep + p, PieceLen(w, tlen, p)) <==> PieceOk(w, tlen, pos)
  {
  }

  /** No sum wraps when one more piece fits behind the window. */
  lemma LowWindowOk(w: Window, tlen: nat, pos: nat)
    requires pos <= w.ap && w.ep + w.ap + w.maxlen <= 0x1_0000_0000_0000_0000
    ensures PieceOk(w, tlen, pos)
  {
  }

  /** The first n pieces of the entries, from a position of the window on, are all right. */
  predicate Fits(e: Extent, behind: seq<Extent>, w: Window, pos: nat, n: nat)
    requires pos <= w.ap
    decreases |behind|, e.len
  {
    n == 0 ||
    if e.len == 0 then behind == [] || Fits(behind[0], behind[1..], w, pos, n)
    else
      PieceOk(w, e.len, pos) &&
      var p := Turned(w, pos);
      var l := PieceLen(w, e.len, p);
      Fits(Tail(e, l), behind, w, p + l, n - 1)
  }

  lemma {:induction false} LowWindowFits(e: Extent, behind: seq<Extent>, w: Window, pos: nat, n: nat)
    requires pos <= w.ap && w.ep + w.ap + w.maxlen <= 0x1_0000_0000_0000_0000
    ensures Fits(e, behind, w, pos, n)
    decreases |behind|, e.len
  {
    hide PieceOk, PieceLen, Turned, Wrap64;
    if n > 0 {
      if e.len == 0 {
        if behind != [] {
          LowWindowFits(behind[0], behind[1..], w, pos, n);
        }
      } else {
        LowWindowOk(w, e.len, pos);
        var p := Turned(w, pos);
        var l := PieceLen(w, e.len, p);
        LowWindowFits(Tail(e, l), behind, w, p + l, n - 1);
      }
    }
  }

  // ----- meaning -----

  /** The reference meaning: byte k goes to or comes from ep + (from + k) mod aperture. */
  function RoundMeaning(dir: Direction, rc: seq<u64>, w: Window, from: nat): seq<Move> {
    seq(|rc|, k requires 0 <= k < |rc| => ByteMove(dir, rc[k], Wrap64(w.ep + Rem(from + k, w.ap))))
  }

  /** The host bytes of a list of descriptors. */
  function HostOf(hops: seq<Hop>): seq<u64> {
    if hops == [] then [] else ExtentBytes(hops[0].ext) + HostOf(hops[1..])
  }

  predicate InWindow(h: Hop, w: Window) {
    0 < h.ext.len <= w.maxlen && w.ep <= h.ep && h.ep + h.ext.len <= w.ep + w.ap
  }

  lemma RoundAppend(dir: Direction, a: seq<u64>, b: seq<u64>, w: Window, from: nat)
    ensures RoundMeaning(dir, a + b, w, from) == RoundMeaning(dir, a, w, from) + RoundMeaning(dir, b, w, from + |a|)
  {
  }

  lemma RoundLength(dir: Direction, rc: seq<u64>, w: Window, from: nat)
    ensures |RoundMeaning(dir, rc, w, from)| == |rc|
  {
  }

  lemma RemInside(w: Window, x: nat)
    ensures Rem(x, w.ap) < w.ap && (x < w.ap ==> Rem(x, w.ap) == x)
  {
  }

  lemma RoundAt(dir: Direction, rc: seq<u64>, w: Window, from: nat, k: nat)
    requires k < |rc|
    ensures |RoundMeaning(dir, rc, w, from)| == |rc|
    ensures w.ep + Rem(from + k, w.ap) < 0x1_0000_0000_0000_0000
    ensures RoundMeaning(dir, rc, w, from)[k] == ByteMove(dir, rc[k], w.ep + Rem(from + k, w.ap))
  {
    RemInside(w, from + k);
  }

  /** Counting on from a position inside the window. */
  lemma RemOnwards(w: Window, from: nat, p: nat, k: nat)
    requires p == Rem(from, w.ap) && p + k <= w.ap
    ensures Rem(from + k, w.ap) == Turned(w, p + k)
  {
    var ap, q := w.ap, from / w.ap;
    assert from == q * ap + p;
    if p + k == ap {
      assert (q + 1) * ap == q * ap + ap;
      DivUnique(from + k, ap, q + 1, 0);
    } else {
      DivUnique(from + k, ap, q, p + k);
    }
  }

  lemma MeaningAt(dir: Direction, rc: seq<u64>, ep: nat, k: nat)
    requires k < |rc|
    ensures |Meaning(dir, rc, ep)| == |rc| && Meaning(dir, rc, ep)[k] == ByteMove(dir, rc[k], Wrap64(ep + k))
  {
  }

  /** A piece inside the window means its bytes, placed round. */
  lemma GoodPiece(dir: Direction, rc: seq<u64>, w: Window, from: nat, p: nat)
    requires p == Rem(from, w.ap) && p + |rc| <= w.ap
    ensures Meaning(dir, rc, w.ep + p) == RoundMeaning(dir, rc, w, from)
  {
    hide ByteMove, Wrap64, Rem, Meaning, RoundMeaning;
    var l, r := Meaning(dir, rc, w.ep + p), RoundMeaning(dir, rc, w, from);
    RoundLength(dir, rc, w, from);
    OneMoveEach(dir, rc, w.ep + p);
    forall k | 0 <= k < |rc|
      ensures l[k] == r[k]
    {
      RemOnwards(w, from, p, k);
      RoundAt(dir, rc, w, from, k);
      MeaningAt(dir, rc, w.ep + p, k);
      SmallWrap(w.ep + p + k);
    }
  }

  lemma SmallWrap(x: nat)
    ensures x < 0x1_0000_0000_0000_0000 ==> Wrap64(x) == x
    ensures x == 0x1_0000_0000_0000_0000 ==> Wrap64(x) == 0
  {
  }

  /** A piece for which a sum wraps does not: either its first byte or the byte that reaches
      the end of the window goes to the wrong place. */
  lemma BadPiece(dir: Direction, rc: seq<u64>, w: Window, tlen: nat, pos: nat, from: nat)
    requires 0 < tlen && pos <= w.ap && Turned(w, pos) == Rem(from, w.ap) && !PieceOk(w, tlen, pos)
    requires |rc| == PieceAt(w, tlen, Wrap64(w.ep + pos)).len
    ensures Meaning(dir, rc, PieceAt(w, tlen, Wrap64(w.ep + pos)).addr) != RoundMeaning(dir, rc, w, from)
  {
    var q, p, l := PieceAt(w, tlen, Wrap64(w.ep + pos)), Turned(w, pos), Min(tlen, w.maxlen);
    SmallWrap(w.ep + pos);
    var j := if q.addr == w.ep + p then w.ap - p else 0;
    BadAddress(w, tlen, pos);
    RemOnwards(w, from, p, j);
    RoundAt(dir, rc, w, from, j);
    MeaningAt(dir, rc, q.addr, j);
    hide Meaning, RoundMeaning, PieceAt, Rem, PieceOk;
  }

  lemma BadAddress(w: Window, tlen: nat, pos: nat)
    requires 0 < tlen && pos <= w.ap && !PieceOk(w, tlen, pos)
    ensures var q, p := PieceAt(w, tlen, Wrap64(w.ep + pos)), Turned(w, pos);
            var j := if q.addr == w.ep + p then w.ap - p else 0;
            0 <= j < q.len && p + j <= w.ap && Wrap64(q.addr + j) != w.ep + Turned(w, p + j)
  {
    SmallWrap(w.ep + pos);
  }

  lemma OneMoveEach(dir: Direction, rc: seq<u64>, ep: nat)
    ensures |Meaning(dir, rc, ep)| == |rc|
  {
  }

  lemma HopsCons(dir: Direction, h: Hop, hops: seq<Hop>)
    ensures HopsMeaning(dir, [h] + hops) == Meaning(dir, ExtentBytes(h.ext), h.ep) + HopsMeaning(dir, hops)
    ensures HostOf([h] + hops) == ExtentBytes(h.ext) + HostOf(hops)
  {
    assert ([h] + hops)[1..] == hops;
  }

  lemma CutStep(e: Extent, behind: seq<Extent>, w: Window, addr: u64, room: nat)
    requires e.len > 0 && room > 0
    ensures var p := PieceAt(w, e.len, addr);
            Cut(e, behind, w, addr, room)
            == [Hop(Extent(e.addr, p.len), p.addr)] + Cut(Tail(e, p.len), behind, w, Wrap64(p.addr + p.len), room - 1)
  {
    hide PieceAt, Tail;
  }

  lemma CutNext(e: Extent, behind: seq<Extent>, w: Window, addr: u64, room: nat)
    requires e.len == 0
    ensures Cut(e, behind, w, addr, room)
            == if room == 0 || behind == [] then [] else Cut(behind[0], behind[1..], w, addr, room)
  {
  }

  lemma NothingMoved(dir: Direction, w: Window, from: nat)
    ensures HopsMeaning(dir, []) == RoundMeaning(dir, HostOf([]), w, from)
  {
  }

  lemma FitsStep(e: Extent, behind: seq<Extent>, w: Window, pos: nat, n: nat)
    requires pos <= w.ap && n > 0
    ensures e.len == 0 ==> (Fits(e, behind, w, pos, n) <==> behind == [] || Fits(behind[0], behind[1..], w, pos, n))
    ensures e.len > 0 ==>
              var p := Turned(w, pos);
              var l := PieceLen(w, e.len, p);
              Fits(e, behind, w, pos, n) <==> PieceOk(w, e.len, pos) && Fits(Tail(e, l), behind, w, p + l, n - 1)
  {
    hide PieceOk, PieceLen, Turned, Tail;
  }

  lemma TwoParts<T>(a: seq<T>, b: seq<T>, c: seq<T>, d: seq<T>)
    requires |a| == |c|
    ensures a + b == c + d <==> a == c && b == d
  {
    if a + b == c + d {
      assert a == (a + b)[..|a|] && c == (c + d)[..|a|] && b == (a + b)[|a|..] && d == (c + d)[|a|..];
    }
  }

  /** The descriptors place the bytes they carry round and round in the window if and only if
      no sum wraps for any of their pieces. */
  lemma {:induction false} CutRightIff(dir: Direction, e: Extent, behind: seq<Extent>, w: Window, pos: nat, from: nat, room: nat)
    requires pos <= w.ap && Turned(w, pos) == Rem(from, w.ap)
    ensures var hops := Cut(e, behind, w, Wrap64(w.ep + pos), room);
            HopsMeaning(dir, hops) == RoundMeaning(dir, HostOf(hops), w, from) <==> Fits(e, behind, w, pos, room)
    decreases |behind|, e.len
  {
    hide *;
    var addr := Wrap64(w.ep + pos);
    if room == 0 {
      NoRoom(e, behind, w, pos, addr);
      NothingMoved(dir, w, from);
    } else if e.len == 0 {
      CutNext(e, behind, w, addr, room);
      FitsStep(e, behind, w, pos, room);
      NothingMoved(dir, w, from);
      if behind != [] {
        CutRightIff(dir, behind[0], behind[1..], w, pos, from, room);
      }
    } else {
      OnePiece(dir, e, behind, w, pos, from, room);
      if PieceOk(w, e.len, pos) {
        var p := Turned(w, pos);
        var l := PieceLen(w, e.len, p);
        RemOnwards(w, from, p, l);
        CutRightIff(dir, Tail(e, l), behind, w, p + l, from + l, room - 1);
      }
    }
  }

  lemma NoRoom(e: Extent, behind: seq<Extent>, w: Window, pos: nat, addr: u64)
    requires pos <= w.ap
    ensures Cut(e, behind, w, addr, 0) == [] && Fits(e, behind, w, pos, 0)
  {
  }

  /** The first piece: the whole is right exactly when it is and the rest is. */
  lemma OnePiece(dir: Direction, e: Extent, behind: seq<Extent>, w: Window, pos: nat, from: nat, room: nat)
    requires pos <= w.ap && Turned(w, pos) == Rem(from, w.ap) && e.len > 0 && room > 0
    ensures var hops := Cut(e, behind, w, Wrap64(w.ep + pos), room);
            var p := Turned(w, pos);
            var l := PieceLen(w, e.len, p);
            var rest := Cut(Tail(e, l), behind, w, Wrap64(w.ep + (p + l)), room - 1);
            && (HopsMeaning(dir, hops) == RoundMeaning(dir, HostOf(hops), w, from)
                <==> PieceOk(w, e.len, pos) && HopsMeaning(dir, rest) == RoundMeaning(dir, HostOf(rest), w, from + l))
            && (Fits(e, behind, w, pos, room) <==> PieceOk(w, e.len, pos) && Fits(Tail(e, l), behind, w, p + l, room - 1))
  {
    hide *;
    var addr := Wrap64(w.ep + pos);
    var q := PieceAt(w, e.len, addr);
    var rest := Cut(Tail(e, q.len), behind, w, Wrap64(q.addr + q.len), room - 1);
    var h := Hop(Extent(e.addr, q.len), q.addr);
    CutStep(e, behind, w, addr, room);
    FitsStep(e, behind, w, pos, room);
    HopsCons(dir, h, rest);
    var rc := ExtentBytes(h.ext);
    BytesOfExtent(h.ext);
    RoundAppend(dir, rc, HostOf(rest), w, from);
    OneMoveEach(dir, rc, q.addr);
    RoundLength(dir, rc, w, from);
    TwoParts(Meaning(dir, rc, q.addr), HopsMeaning(dir, rest), RoundMeaning(dir, rc, w, from),
             RoundMeaning(dir, HostOf(rest), w, from + q.len));
    PieceIff(w, e.len, pos);
    if PieceOk(w, e.len, pos) {
      GoodPiece(dir, rc, w, from, Turned(w, pos));
    } else {
      BadPiece(dir, rc, w, e.len, pos, from);
    }
  }

  lemma BytesOfExtent(e: Extent)
    ensures |ExtentBytes(e)| == e.len
  {
  }

  /** Then every descriptor lies inside the window. */
  lemma {:induction false} FitsInWindow(e: Extent, behind: seq<Extent>, w: Window, pos: nat, room: nat)
    requires pos <= w.ap && Fits(e, behind, w, pos, room)
    ensures forall h :: h in Cut(e, behind, w, Wrap64(w.ep + pos), room) ==> InWindow(h, w)
    decreases |behind|, e.len
  {
    hide PieceOk, PieceAt, Tail, PieceLen, Turned, Wrap64;
    if room > 0 {
      var addr := Wrap64(w.ep + pos);
      if e.len == 0 {
        if behind != [] {
          FitsInWindow(behind[0], behind[1..], w, pos, room);
        }
      } else {
        PieceIff(w, e.len, pos);
        var p := Turned(w, pos);
        var l := PieceLen(w, e.len, p);
        FitsInWindow(Tail(e, l), behind, w, p + l, room - 1);
        CutStep(e, behind, w, addr, room);
        assert w.ep + p + l == w.ep + (p + l);
      }
    }
  }

  // ----- the bytes that are cut -----

  /** A cut carries the first bytes of its entries, and all of them when there is room left. */
  lemma {:induction false} CutCarries(e: Extent, behind: seq<Extent>, w: Window, addr: u64, room: nat)
    ensures var hops := Cut(e, behind, w, addr, room);
            && HostOf(hops) <= ExtentBytes(e) + Bytes(behind)
            && (|hops| < room ==> HostOf(hops) == ExtentBytes(e) + Bytes(behind))
    decreases |behind|, e.len
  {
    hide PieceAt, Tail, ExtentBytes, Wrap64, Bytes, Cut;
    var all := ExtentBytes(e) + Bytes(behind);
    if room == 0 {
      NoneCut(e, behind, w, addr);
    } else if e.len == 0 {
      CutNext(e, behind, w, addr, room);
      BytesOfExtent(e);
      BytesOfList(behind);
      assert all == Bytes(behind);
      if behind != [] {
        CutCarries(behind[0], behind[1..], w, addr, room);
      }
    } else {
      CutStep(e, behind, w, addr, room);
      var p := PieceAt(w, e.len, addr);
      var rest := Cut(Tail(e, p.len), behind, w, Wrap64(p.addr + p.len), room - 1);
      CutCarries(Tail(e, p.len), behind, w, Wrap64(p.addr + p.len), room - 1);
      HopsCons(ToDevice, Hop(Extent(e.addr, p.len), p.addr), rest);
      TailBytes(e, p.len);
      var a, b, c := ExtentBytes(Extent(e.addr, p.len)), ExtentBytes(Tail(e, p.len)), Bytes(behind);
      assert (a + b) + c == a + (b + c);
    }
  }

  lemma NoneCut(e: Extent, behind: seq<Extent>, w: Window, addr: u64)
    ensures Cut(e, behind, w, addr, 0) == [] && HostOf([]) == []
  {
  }

  lemma BytesOfList(es: seq<Extent>)
    ensures Bytes(es) == if es == [] then [] else ExtentBytes(es[0]) + Bytes(es[1..])
  {
  }

  lemma TailBytes(e: Extent, n: u32)
    requires n <= e.len
    ensures ExtentBytes(e) == ExtentBytes(Extent(e.addr, n)) + ExtentBytes(Tail(e, n))
  {
    ExtentBytesCut(e, n);
    hide ExtentBytes;
  }

  /** The host side of a move. */
  function HostSide(dir: Direction, m: Move): u64 { if dir == ToDevice then m.src else m.dst }

  function DeviceSide(dir: Direction, m: Move): u64 { if dir == ToDevice then m.dst else m.src }

  /** Whatever the addresses, the moves carry exactly the host bytes in order. */
  lemma {:induction false} HopsHost(dir: Direction, hops: seq<Hop>)
    ensures var m := HopsMeaning(dir, hops);
            |m| == |HostOf(hops)| && forall k :: 0 <= k < |m| ==> HostSide(dir, m[k]) == HostOf(hops)[k]
  {
    if hops != [] {
      HopsHost(dir, hops[1..]);
      var a := Meaning(dir, ExtentBytes(hops[0].ext), hops[0].ep);
      hide ExtentBytes;
      assert |a| == |ExtentBytes(hops[0].ext)|;
      forall k | 0 <= k < |HopsMeaning(dir, hops)|
        ensures HostSide(dir, HopsMeaning(dir, hops)[k]) == HostOf(hops)[k]
      {
        if k < |a| {
          MeaningAt(dir, ExtentBytes(hops[0].ext), hops[0].ep, k);
        }
      }
    }
  }

  /** The first move starts at the device address of the first descriptor. */
  lemma FirstDevice(dir: Direction, hops: seq<Hop>)
    requires hops != [] && hops[0].ext.len > 0
    ensures HopsMeaning(dir, hops) != [] && DeviceSide(dir, HopsMeaning(dir, hops)[0]) == hops[0].ep
  {
    BytesOfExtent(hops[0].ext);
    MeaningAt(dir, ExtentBytes(hops[0].ext), hops[0].ep, 0);
    OneMoveEach(dir, ExtentBytes(hops[0].ext), hops[0].ep);
    hide ExtentBytes, Meaning;
  }

  // ----- a concrete overrun -----

  const HIGH_WINDOW: Window := WindowSpec(0xFFFF_FFFF_FFFF_FFFC, 4, 4)

  lemma HighPieces()
    ensures var w := HIGH_WINDOW;
            && PieceAt(w, 3, w.ep) == Piece(w.ep, 3) && PieceAt(w, 3, w.ep + 3) == Piece(w.ep + 3, 3)
            && Turned(w, 0) == 0 && Turned(w, 3) == 3 && PieceLen(w, 3, 0) == 3 && Rem(0, w.ap) == 0
            && !PieceOk(w, 3, 3) && Wrap64(w.ep + 0) == w.ep && Wrap64(w.ep + 3) == w.ep + 3
            && w.ap == 4 && w.ep == 0xFFFF_FFFF_FFFF_FFFC
  {
  }

  lemma HighCut(a: Extent, b: Extent)
    requires a.len == b.len == 3
    ensures Cut(a, [b], HIGH_WINDOW, HIGH_WINDOW.ep, 2) == [Hop(a, 0xFFFF_FFFF_FFFF_FFFC), Hop(b, 0xFFFF_FFFF_FFFF_FFFF)]
    ensures HIGH_WINDOW.ap == 4 && !Fits(a, [b], HIGH_WINDOW, 0, 2)
  {
    hide *;
    var w := HIGH_WINDOW;
    HighPieces();
    assert [b][1..] == [];
    CutStep(a, [b], w, w.ep, 2);
    CutNext(Tail(a, 3), [b], w, w.ep + 3, 1);
    CutStep(b, [], w, w.ep + 3, 1);
    NoneCut(Tail(b, 3), [], w, Wrap64(w.ep + 3 + 3));
    FitsStep(a, [b], w, 0, 2);
    FitsStep(Tail(a, 3), [b], w, 3, 1);
    FitsStep(b, [], w, 3, 1);
  }

  /** Two entries of 3 bytes and the last 4 addresses: the second piece starts at the last
      address of the window, its end wraps to 2, and it is not cut. */
  lemma HighWindowOverruns(dir: Direction, a: Extent, b: Extent)
    requires a.len == b.len == 3
    ensures var hops := Cut(a, [b], HIGH_WINDOW, HIGH_WINDOW.ep, 2);
            && hops == [Hop(a, 0xFFFF_FFFF_FFFF_FFFC), Hop(b, 0xFFFF_FFFF_FFFF_FFFF)]
            && !InWindow(hops[1], HIGH_WINDOW)
            && HopsMeaning(dir, hops) != RoundMeaning(dir, HostOf(hops), HIGH_WINDOW, 0)
  {
    hide Cut, HopsMeaning, RoundMeaning, HostOf, Fits, Rem, PieceOk;
    HighPieces();
    HighCut(a, b);
    CutRightIff(dir, a, [b], HIGH_WINDOW, 0, 0, 2);
  }
}
