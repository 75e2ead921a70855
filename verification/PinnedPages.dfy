/** fh_get_page_count and fh_pin_pages in the guest stub: a user buffer as one chunk per page. */
module PinnedPages {
  import opened Codes
  import opened Words
  import opened PageChunks

  /** fh_get_page_count, in 64-bit arithmetic. */
  function PageCount(buf: u64, len: u64): nat {
    Wrap64(Wrap64(buf + len + 4095) - (buf - buf % 4096)) / 4096
  }

  lemma PageCountCovers(buf: u64, len: u64)
    requires len <= 0x1_0000_0000_0000_0000 - 8192
    ensures PageCount(buf, len) == (buf % 4096 + len + 4095) / 4096
  {
  }

  /** min_t(unsigned int, PAGE_SIZE - offset, len): both are cut to 32 bits first. */
  function Nbytes(buf: u64, len: u64): (n: nat)
    ensures n <= len && n <= 4096 - buf % 4096
  {
    Min(4096 - buf % 4096, Wrap32(len))
  }

  datatype Pinned = Pinned(chunks: seq<PageChunk>, left: u64)

  /** The chunks of a buffer over the given page frames, and the bytes they leave over. */
  function Pin(buf: u64, len: u64, pfns: seq<u64>): (p: Pinned)
    ensures |p.chunks| == |pfns|
    decreases |pfns|
  {
    if pfns == [] then Pinned([], len)
    else
      var n := Nbytes(buf, len);
      var rest := Pin(Wrap64(buf + n), len - n, pfns[1..]);
      Pinned([PageChunk(pfns[0], buf % 4096, n)] + rest.chunks, rest.left)
  }

  lemma WrapKeepsOffset(x: nat)
    ensures Wrap64(x) % 4096 == x % 4096
  {
  }

  lemma NextOffset(buf: u64, n: nat)
    requires n <= 4096 - buf % 4096
    ensures Wrap64(buf + n) % 4096 == if n == 4096 - buf % 4096 then 0 else buf % 4096 + n
  {
    hide Wrap64;
    WrapKeepsOffset(buf + n);
  }

  /** At 2^32 bytes and more the 32-bit cut stops the loop from ever getting below 2^32. */
  lemma {:induction false} LongBufferStalls(buf: u64, len: u64, pfns: seq<u64>)
    requires len >= 0x1_0000_0000
    ensures Pin(buf, len, pfns).left >= 0x1_0000_0000
    decreases |pfns|
  {
    if pfns != [] {
      var n := Nbytes(buf, len);
      LongBufferStalls(Wrap64(buf + n), len - n, pfns[1..]);
    }
  }

  /** One page of a byte of memory and its place in that page. */
  datatype PageByte = PageByte(page: u64, offset: nat)

  function ChunkBytes(cs: seq<PageChunk>): seq<PageByte> {
    if cs == [] then []
    else seq(cs[0].nbytes, j requires 0 <= j < cs[0].nbytes => PageByte(cs[0].addr, cs[0].offset + j)) + ChunkBytes(cs[1..])
  }

  ghost predicate Covers(buf: u64, len: nat, pages: nat) {
    len == 0 || buf % 4096 + len <= 4096 * pages
  }

  lemma PageOf(pos: nat, pages: nat)
    requires pos < 4096 * pages
    ensures pos / 4096 < pages
  {
  }

  /** The bytes of a user buffer, page by page: byte k lies (offset + k) / 4096 pages on. */
  function BufferBytes(buf: u64, len: nat, pfns: seq<u64>): (bs: seq<PageByte>)
    requires Covers(buf, len, |pfns|)
    ensures |bs| == len
  {
    seq(len, k requires 0 <= k < len =>
      PageOf(buf % 4096 + k, |pfns|); PageByte(pfns[(buf % 4096 + k) / 4096], (buf % 4096 + k) % 4096))
  }

  lemma NothingPinned(buf: u64, pfns: seq<u64>)
    ensures Pin(buf, 0, pfns).left == 0 && ChunkBytes(Pin(buf, 0, pfns).chunks) == []
    decreases |pfns|
  {
  }

  /** Below 2^32 bytes nothing is left over, and the chunks name exactly the buffer's bytes. */
  lemma {:induction false} PinnedBytes(buf: u64, len: u64, pfns: seq<u64>)
    requires len < 0x1_0000_0000 && Covers(buf, len, |pfns|)
    ensures Pin(buf, len, pfns).left == 0
    ensures ChunkBytes(Pin(buf, len, pfns).chunks) == BufferBytes(buf, len, pfns)
    decreases |pfns|
  {
    if len == 0 {
      NothingPinned(buf, pfns);
    } else {
      var n := Nbytes(buf, len);
      NextOffset(buf, n);
      PinnedBytes(Wrap64(buf + n), len - n, pfns[1..]);
      PinStep(buf, len, pfns);
      BufferStep(buf, len, pfns);
    }
  }

  lemma PinStep(buf: u64, len: u64, pfns: seq<u64>)
    requires pfns != []
    ensures var n := Nbytes(buf, len); var rest := Pin(Wrap64(buf + n), len - n, pfns[1..]);
            && Pin(buf, len, pfns).left == rest.left
            && ChunkBytes(Pin(buf, len, pfns).chunks)
               == seq(n, j requires 0 <= j < n => PageByte(pfns[0], buf % 4096 + j)) + ChunkBytes(rest.chunks)
  {
  }

  lemma BufferStep(buf: u64, len: u64, pfns: seq<u64>)
    requires 0 < len < 0x1_0000_0000 && Covers(buf, len, |pfns|)
    ensures var n := Nbytes(buf, len);
            && Covers(Wrap64(buf + n), len - n, |pfns| - 1)
            && BufferBytes(buf, len, pfns)
               == seq(n, j requires 0 <= j < n => PageByte(pfns[0], buf % 4096 + j)) + BufferBytes(Wrap64(buf + n), len - n, pfns[1..])
  {
    var n := Nbytes(buf, len);
    NextOffset(buf, n);
    var off := buf % 4096;
    var next := Wrap64(buf + n);
    assert Covers(next, len - n, |pfns| - 1);
    var whole, rest := BufferBytes(buf, len, pfns), BufferBytes(next, len - n, pfns[1..]);
    hide Wrap64, Nbytes;
    forall k | 0 <= k < len
      ensures whole[k] == if k < n then PageByte(pfns[0], off + k) else rest[k - n]
    {
      PageOf(off + k, |pfns|);
      if k >= n {
        assert n == 4096 - off;
        NextPage(off + k);
      }
    }
  }

  lemma NextPage(pos: nat)
    requires pos >= 4096
    ensures pos / 4096 == (pos - 4096) / 4096 + 1 && pos % 4096 == (pos - 4096) % 4096
  {
  }

  /** The length check of fh_pin_pages passes exactly for buffers below 2^32 bytes. */
  lemma LengthCheck(buf: u64, len: u64, pfns: seq<u64>)
    requires |pfns| == PageCount(buf, len)
    ensures Pin(buf, len, pfns).left == 0 <==> len < 0x1_0000_0000
  {
    hide Pin, PageCount;
    if len < 0x1_0000_0000 {
      PageCountCovers(buf, len);
      PinnedBytes(buf, len, pfns);
    } else {
      LongBufferStalls(buf, len, pfns);
    }
  }

  /** Two neighbouring pages are the same page. */
  predicate HasTwins(pages: seq<u64>) {
    exists i {:trigger pages[i]} :: 0 < i < |pages| && pages[i - 1] == pages[i]
  }

  method FindTwins(pages: seq<u64>) returns (twins: bool)
    ensures twins <==> HasTwins(pages)
  {
    var i := 1;
    while i < |pages|
      invariant forall k {:trigger pages[k]} :: 0 < k < i && k < |pages| ==> pages[k - 1] != pages[k]
    {
      if pages[i - 1] == pages[i] {
        return true;
      }
      i := i + 1;
    }
    twins := false;
  }

  /** fh_pin_pages, get_user_pages_fast having pinned the frames `got` (or failed with err). */
  method PinPages(buf: u64, count: u64, hasMemory: bool, err: int, got: seq<u64>) returns (ret: int, chunks: seq<PageChunk>)
    requires err <= 0
    ensures ret == 0 <==>
              && PageCount(buf, count) > 0 && hasMemory && err == 0
              && |got| == PageCount(buf, count) && count < 0x1_0000_0000
              && forall i {:trigger got[i]} :: 0 < i < |got| ==> got[i - 1] != got[i]
    ensures ret == 0 ==> !HasTwins(got)
    ensures HasTwins(got) <==> exists i {:trigger got[i]} :: 0 < i < |got| && got[i - 1] == got[i]
    ensures PageCount(buf, count) == 0 ==> ret == -EINVAL
    ensures PageCount(buf, count) > 0 && !hasMemory ==> ret == -ENOMEM
    ensures PageCount(buf, count) > 0 && hasMemory && err < 0 ==> ret == err
    ensures PageCount(buf, count) > 0 && hasMemory && err == 0 ==>
              && (|got| != PageCount(buf, count) || HasTwins(got) ==> ret == -EFAULT)
              && (|got| == PageCount(buf, count) && !HasTwins(got) && count >= 0x1_0000_0000 ==> ret == -EINVAL)
    ensures ret == 0 ==> chunks == Pin(buf, count, got).chunks
    ensures ret == 0 ==> Covers(buf, count, |got|) && ChunkBytes(chunks) == BufferBytes(buf, count, got)
    ensures ret <= 0
  {
    hide Pin, PageCount, BufferBytes, ChunkBytes;
    chunks := [];
    var pagesNr := PageCount(buf, count);
    if pagesNr == 0 {
      return -EINVAL, [];
    }
    if !hasMemory {
      return -ENOMEM, [];
    }
    if err < 0 {
      return err, [];
    }
    if |got| != pagesNr {
      return -EFAULT, [];
    }
    var twins: bool := FindTwins(got);
    if twins {
      return -EFAULT, [];
    }
    var left: u64;
    chunks, left := FillChunks(buf, count, got);
    LengthCheck(buf, count, got);
    if left != 0 {
      return -EINVAL, [];
    }
    PageCountCovers(buf, count);
    PinnedBytes(buf, count, got);
    ret := 0;
  }

  /** `done` chunks have been made and buf, len, pages remain. */
  ghost predicate Remaining(all: Pinned, done: seq<PageChunk>, buf: u64, len: u64, pages: seq<u64>) {
    var rest := Pin(buf, len, pages);
    all.chunks == done + rest.chunks && all.left == rest.left
  }

  lemma RemainingStep(all: Pinned, done: seq<PageChunk>, buf: u64, len: u64, pages: seq<u64>)
    requires pages != [] && Remaining(all, done, buf, len, pages)
    ensures var n := Nbytes(buf, len);
            Remaining(all, done + [PageChunk(pages[0], buf % 4096, n)], Wrap64(buf + n), len - n, pages[1..])
  {
  }

  lemma RemainingEnds(all: Pinned, done: seq<PageChunk>, buf: u64, len: u64, pages: seq<u64>)
    requires Remaining(all, done, buf, len, pages)
    ensures pages == [] ==> all == Pinned(done, len)
  {
    assert done + [] == done;
  }

  lemma RemainingStarts(buf: u64, len: u64, pages: seq<u64>)
    ensures Remaining(Pin(buf, len, pages), [], buf, len, pages)
  {
    hide Pin;
    assert [] + Pin(buf, len, pages).chunks == Pin(buf, len, pages).chunks;
  }

  /** The chunk loop of fh_pin_pages. */
  method FillChunks(buf0: u64, len0: u64, pages: seq<u64>) returns (chunks: seq<PageChunk>, len: u64)
    ensures chunks == Pin(buf0, len0, pages).chunks && len == Pin(buf0, len0, pages).left
  {
    hide *;
    var buf: u64 := buf0;
    len := len0;
    var pageChunks := new PageChunk[|pages|](_ => PageChunk(0, 0, 0));
    ghost var all := Pin(buf0, len0, pages);
    var i := 0;
    assert pages[0..] == pages && pageChunks[..0] == [];
    RemainingStarts(buf, len, pages);
    while i < |pages|
      invariant 0 <= i <= |pages|
      invariant Remaining(all, pageChunks[..i], buf, len, pages[i..])
    {
      var nbytes: nat := Nbytes(buf, len);
      ghost var before := pageChunks[..i];
      RemainingStep(all, before, buf, len, pages[i..]);
      assert pages[i..][1..] == pages[i + 1..] && pages[i..][0] == pages[i];
      pageChunks[i] := PageChunk(pages[i], buf % 4096, nbytes);
      assert pageChunks[..i + 1] == before + [PageChunk(pages[i], buf % 4096, nbytes)];
      buf := Wrap64(buf + nbytes);
      len := len - nbytes;
      i := i + 1;
    }
    RemainingEnds(all, pageChunks[..i], buf, len, pages[i..]);
    chunks := pageChunks[..];
  }
}
