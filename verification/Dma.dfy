/** What a DMA transfer means: the sequence of single-byte copies it performs.
    The reference meaning of a request is stated on the flat list of host bytes
    its scatter list names: byte k of that list is paired with device address ep + k. */
module Dma {
  import opened Words

  /** DMA_TO_DEVICE and DMA_FROM_DEVICE. */
  datatype Direction = ToDevice | FromDevice

  /** One byte copied from a source bus address to a destination bus address. */
  datatype Move = Move(src: u64, dst: u64)

  /** A contiguous run of host bus addresses: a mapped scatter-list entry (struct
      scatterlist) or a software descriptor (struct sw_desc). */
  datatype Extent = Extent(addr: u64, len: u32)

  function ByteMove(dir: Direction, rc: u64, ep: u64): Move {
    if dir == ToDevice then Move(rc, ep) else Move(ep, rc)
  }

  /** The host bytes of one extent and of a list of extents, in order. */
  function ExtentBytes(e: Extent): seq<u64> {
    seq<u64>(e.len, k requires 0 <= k < e.len => Wrap64(e.addr + k))
  }

  function Bytes(es: seq<Extent>): seq<u64> {
    if es == [] then [] else ExtentBytes(es[0]) + Bytes(es[1..])
  }

  function TotalLen(es: seq<Extent>): nat {
    if es == [] then 0 else es[0].len + TotalLen(es[1..])
  }

  /** The reference meaning: host byte k is paired with device address ep + k. */
  function Meaning(dir: Direction, rc: seq<u64>, ep: nat): seq<Move> {
    seq(|rc|, k requires 0 <= k < |rc| => ByteMove(dir, rc[k], Wrap64(ep + k)))
  }

  /** What a DMA engine does for one contiguous block. */
  function Copy(src: nat, dst: nat, n: nat): seq<Move> {
    seq(n, k requires 0 <= k < n => Move(Wrap64(src + k), Wrap64(dst + k)))
  }

  lemma {:induction false} BytesLength(es: seq<Extent>)
    ensures |Bytes(es)| == TotalLen(es)
  {
    if es != [] {
      BytesLength(es[1..]);
    }
  }

  lemma {:induction false} BytesAppend(a: seq<Extent>, b: seq<Extent>)
    ensures Bytes(a + b) == Bytes(a) + Bytes(b)
    ensures TotalLen(a + b) == TotalLen(a) + TotalLen(b)
  {
    hide ExtentBytes;
    if a == [] {
      assert a + b == b;
    } else {
      BytesAppend(a[1..], b);
      assert (a + b)[1..] == a[1..] + b && (a + b)[0] == a[0];
      var x := ExtentBytes(a[0]);
      assert x + (Bytes(a[1..]) + Bytes(b)) == (x + Bytes(a[1..])) + Bytes(b);
    }
  }

  /** Cutting an extent in two keeps its bytes. */
  lemma ExtentBytesCut(e: Extent, n: u32)
    requires n <= e.len
    ensures ExtentBytes(Extent(e.addr, n)) + ExtentBytes(Extent(Wrap64(e.addr + n), e.len - n)) == ExtentBytes(e)
  {
    var rest := Extent(Wrap64(e.addr + n), e.len - n);
    forall k | 0 <= k < rest.len
      ensures ExtentBytes(rest)[k] == ExtentBytes(e)[n + k]
    {
      WrapAdd(e.addr + n, k);
    }
  }

  lemma MeaningAppend(dir: Direction, a: seq<u64>, b: seq<u64>, ep: nat)
    ensures Meaning(dir, a + b, ep) == Meaning(dir, a, ep) + Meaning(dir, b, ep + |a|)
  {
  }

  lemma MeaningWrap(dir: Direction, a: seq<u64>, ep: nat)
    ensures Meaning(dir, a, Wrap64(ep)) == Meaning(dir, a, ep)
  {
  }

  /** A block copied by the engine is the meaning of one extent. */
  lemma CopyMeaning(dir: Direction, e: Extent, ep: u64)
    ensures dir == ToDevice ==> Copy(e.addr, ep, e.len) == Meaning(dir, ExtentBytes(e), ep)
    ensures dir == FromDevice ==> Copy(ep, e.addr, e.len) == Meaning(dir, ExtentBytes(e), ep)
  {
  }

  /** The byte at address d of the destination memory after the moves, when the
      source memory is another memory (host and device do not share bytes). */
  function After<B>(moves: seq<Move>, source: u64 -> B, dest: u64 -> B, d: u64): B {
    if moves == [] then dest(d)
    else if moves[|moves| - 1].dst == d then source(moves[|moves| - 1].src)
    else After(moves[..|moves| - 1], source, dest, d)
  }

  /** Writing to the device puts host byte k at ep + k for every k of the request
      and leaves every other device byte as it was. */
  lemma {:induction false} DeviceAfterWrite<B>(rc: seq<u64>, ep: u64, host: u64 -> B, dev: u64 -> B, d: u64)
    requires |rc| <= TWO64
    ensures var k := Wrap64(d - ep);
            After(Meaning(ToDevice, rc, ep), host, dev, d) == if k < |rc| then host(rc[k]) else dev(d)
  {
    if rc != [] {
      var n := |rc| - 1;
      MeaningAppend(ToDevice, rc[..n], rc[n..], ep);
      assert rc == rc[..n] + rc[n..];
      var m := Meaning(ToDevice, rc, ep);
      assert m[..n] == Meaning(ToDevice, rc[..n], ep);
      DeviceAfterWrite(rc[..n], ep, host, dev, d);
      WindowOffset(ep, n, d);
    }
  }

  lemma WindowOffset(ep: u64, n: nat, d: u64)
    requires n < TWO64
    ensures Wrap64(ep + n) == d <==> Wrap64(d - ep) == n
  {
  }

  /** The last place of h in rc, or -1. */
  function LastIndex(rc: seq<u64>, h: u64): (i: int)
    ensures -1 <= i < |rc| && (i == -1 <==> h !in rc)
    ensures i >= 0 ==> rc[i] == h && forall j :: i < j < |rc| ==> rc[j] != h
  {
    if rc == [] then -1
    else if rc[|rc| - 1] == h then |rc| - 1
    else
      assert rc == rc[..|rc| - 1] + [rc[|rc| - 1]];
      LastIndex(rc[..|rc| - 1], h)
  }

  /** Reading from the device puts device byte ep + k at host byte k, the last one winning
      where the request names a host byte twice, and leaves every other host byte as it was. */
  lemma {:induction false} HostAfterRead<B>(rc: seq<u64>, ep: u64, host: u64 -> B, dev: u64 -> B, h: u64)
    ensures var k := LastIndex(rc, h);
            After(Meaning(FromDevice, rc, ep), dev, host, h) == if k >= 0 then dev(Wrap64(ep + k)) else host(h)
  {
    hide Wrap64;
    if rc != [] {
      var n := |rc| - 1;
      MeaningAppend(FromDevice, rc[..n], rc[n..], ep);
      assert rc == rc[..n] + rc[n..];
      var m := Meaning(FromDevice, rc, ep);
      assert m[..n] == Meaning(FromDevice, rc[..n], ep);
      HostAfterRead(rc[..n], ep, host, dev, h);
    }
  }
}
