/** The shared escape page and the two parties that take turns on it: the host's fault
    handler (fpga_comm.c) and the guest's chunked upload (stub cdev_sgdma.c). */
module EscapePages {
  import opened Codes
  import opened Words
  import opened PageChunks
  import opened AddrMaps
  import opened EscapeHost

  /** The value of a little-endian 32-bit field. */
  function Word4(bs: seq<byte>): u32
    requires |bs| == 4
  {
    LeBounded(bs);
    Pow256Of4();
    LeValue(bs)
  }

  lemma Pow256Of4()
    ensures Pow256(4) == 0x1_0000_0000
  {
    assert Pow256(2) == 65536;
  }

  lemma Word4RoundTrip(x: u32)
    ensures Word4(LeBytes(x, 4)) == x
  {
    Pow256Of4();
    LeRoundTrip(x, 4);
  }

  lemma Word8RoundTrip(x: u64)
    ensures Word8(LeBytes(x, 8)) == x
  {
    Pow256Of8();
    LeRoundTrip(x, 8);
  }

  lemma PatchNothing<T>(s: seq<T>, at: nat, bs: seq<T>)
    requires at <= |s|
    ensures Patch(s, at, bs[..0]) == s
  {
  }

  lemma PatchStep<T>(s: seq<T>, at: nat, bs: seq<T>, i: nat)
    requires at + |bs| <= |s| && i < |bs|
    ensures Patch(s, at, bs[..i + 1]) == Patch(s, at, bs[..i])[at + i := bs[i]]
  {
  }

  /** memcpy into part of a buffer. */
  method CopyInto(a: array<byte>, at: nat, bs: seq<byte>)
    requires at + |bs| <= a.Length
    modifies a
    ensures a[..] == Patch(old(a[..]), at, bs)
  {
    hide Patch;
    ghost var was := a[..];
    PatchNothing(was, at, bs);
    for i := 0 to |bs|
      invariant a[..] == Patch(was, at, bs[..i])
    {
      PatchStep(was, at, bs, i);
      a[at + i] := bs[i];
    }
    assert bs[..|bs|] == bs;
  }

  /** struct faultdata_struct in the mapped escape buffer. `status` and `word` are the first
      two fields of struct action_transfer_escape_data; `area` is the rest of the buffer,
      where chunk_size (4 bytes) and info_ctx (8 bytes) of a handshake overlap chunk_data. */
  class EscapePage {
    var turn: nat
    var action: nat
    var nonce: u64
    var status: nat
    var word: u32
    const area: array<byte>
    var dma: DmaArgs
    var ret: int

    constructor (size: nat)
      requires size >= 52
      ensures area.Length == size - 40 && fresh(area) && turn == TURN_GUEST
    {
      area := new byte[size - 40](_ => 0);
      turn, action, nonce, status, word, ret := TURN_GUEST, 0, 0, 0, 0, 0;
      dma := DmaArgs(0, false, 0, 0, 0);
    }
  }

  /** get_mapped_escape_buffer_size - 20 - 32, the mapped buffer being 40 bytes longer than area. */
  function TransferMax(areaLength: nat): nat
    requires areaLength >= 12
  {
    areaLength - 12
  }

  /** What the transfer case of the handler makes of the page's contents. */
  ghost predicate Says(status: nat, word: u32, area: seq<byte>, hasMemory: bool, msg: Message)
    requires |area| >= 12
  {
    if status == STATUS_SIZE then
      if hasMemory then msg.Handshake? && |msg.memory| == word && msg.infoCtx == Word8(area[4..12])
      else msg == HandshakeNoMemory(word, Word8(area[4..12]))
    else if status == STATUS_DATA then
      msg == Data(area[..Min(word, TransferMax(|area|))])
    else msg == UnknownStatus
  }

  /** What the first part of do_dma finds. */
  datatype Prepared = Beyond | Unmapped | Ready(chunks: seq<PageChunk>)

  /** The result do_dma leaves in the page: the device's when it was asked, otherwise -1. */
  function DmaRet(o: Outcome, device: int): int {
    if |o.log| == 1 && o.log[0].Sent? && o.log[0].chunks.Some? then device else -1
  }

  class Host {
    const addrs: AddrMap
    var listening: bool
    var data: array?<byte>
    var size: nat
    var chunk: nat
    var infoCtx: u64

    constructor (m: AddrMap)
      ensures addrs == m && listening && View() == NO_UPLOAD && Valid()
    {
      addrs := m;
      listening := true;
      data, size, chunk, infoCtx := null, 0, 0, 0;
    }

    ghost predicate Valid() reads this {
      && chunk <= size
      && (data != null ==> data.Length == size)
      && (data == null && listening ==> size == 0 && infoCtx == 0)
    }

    ghost function View(): Upload reads this, data {
      Upload(if data == null then None else Some(data[..]), size, chunk, infoCtx)
    }

    /** The handshake of do_action_transfer_escape_data. */
    method Accept(page: EscapePage, hasMemory: bool) returns (r: int, ghost msg: Message)
      requires Valid() && listening && page.area.Length >= 12 && page.area != data && page.status == STATUS_SIZE
      modifies this`data, this`size, this`chunk, this`infoCtx, page`status, page.area
      ensures Says(STATUS_SIZE, page.word, old(page.area[..]), hasMemory, msg)
      ensures View() == Step(addrs, old(View()), msg).upload && (data != null ==> fresh(data))
      ensures r == if hasMemory then 0 else -1
      ensures page.status == if hasMemory then STATUS_OK else STATUS_ERROR
      ensures page.area[..] == Patch(old(page.area[..]), 0, LeBytes(Wrap32(TransferMax(page.area.Length)), 4))
      ensures hasMemory ==> Valid()
    {
      ghost var was := page.area[..];
      CopyInto(page.area, 0, LeBytes(Wrap32(TransferMax(page.area.Length)), 4));
      size := page.word;
      chunk := 0;
      assert page.area[4..12] == was[4..12];
      infoCtx := Word8(page.area[4..12]);
      if !hasMemory {
        data := null;
        msg := HandshakeNoMemory(size, infoCtx);
        page.status := STATUS_ERROR;
        return -1, msg;
      }
      data := new byte[size];
      msg := Handshake(data[..], infoCtx);
      page.status := STATUS_OK;
      r := 0;
    }

    /** The data round of do_action_transfer_escape_data. */
    method Receive(page: EscapePage) returns (r: int, ghost msg: Message)
      requires Valid() && listening && page.area.Length >= 12 && page.area != data && page.status == STATUS_DATA
      modifies this`chunk, data, page`status
      ensures Says(STATUS_DATA, page.word, page.area[..], true, msg)
      ensures View() == Step(addrs, old(View()), msg).upload
      ensures r == if Step(addrs, old(View()), msg).reply == Answered then 0 else -1
      ensures page.status == if r == 0 then STATUS_OK else STATUS_DATA
      ensures page.area[..] == old(page.area[..])
      ensures Valid()
    {
      var transfer := Min(page.word, TransferMax(page.area.Length));
      msg := Data(page.area[..transfer]);
      if chunk + transfer > size {
        return -1, msg;
      }
      if data != null {
        CopyInto(data, chunk, page.area[..transfer]);
      }
      chunk := chunk + transfer;
      page.status := STATUS_OK;
      r := 0;
    }

    /** The first part of do_dma: every chunk's pfn is replaced by the host address, and the
        chunks are handed to the device only if each has one. A request for more chunks than
        were uploaded reads behind the block, where the model ends, unless a chunk in front of
        its end has no address. */
    method PrepareDma(page: EscapePage) returns (p: Prepared)
      requires Valid() && listening && infoCtx == ACTION_DMA
      ensures data != null
      ensures var inside := 24 * page.dma.pagesNr <= size;
              var cs := Translate(addrs, if inside then DecodeAll(data[..], page.dma.pagesNr) else Readable(data[..]));
              p == if cs.None? then Unmapped else if inside then Ready(cs.value) else Beyond
    {
      hide DecodeAll, Readable;
      var inside := 24 * page.dma.pagesNr <= size;
      var chunks := if inside then DecodeAll(data[..], page.dma.pagesNr) else Readable(data[..]);
      var translated: seq<PageChunk> := [];
      assert chunks[0..] == chunks;
      PrependNothing(Translate(addrs, chunks));
      while |translated| < |chunks|
        invariant |translated| <= |chunks|
        invariant Translate(addrs, chunks) == Prepend(translated, Translate(addrs, chunks[|translated|..]))
      {
        var i := |translated|;
        var vaddr := Lookup(addrs, chunks[i].addr);
        TranslateNext(addrs, translated, chunks[i..]);
        assert chunks[i..][1..] == chunks[i + 1..];
        if vaddr == 0 {
          return Unmapped;
        }
        translated := translated + [chunks[i].(addr := vaddr)];
      }
      assert chunks[|translated|..] == [] && translated + [] == translated;
      p := if inside then Ready(translated) else Beyond;
    }

    /** The last part of do_dma, on every way out: answer and free the upload. */
    method FinishDma(page: EscapePage, r: int)
      modifies this`data, this`size, this`chunk, this`infoCtx, page`ret
      ensures page.ret == r && View() == NO_UPLOAD && data == null && Valid()
    {
      page.ret := r;
      data, size, chunk, infoCtx := null, 0, 0, 0;
    }

    /** do_dma, the ioctl's result being given. */
    method DoDma(page: EscapePage, device: int) returns (r: int, ghost sent: seq<Event>)
      requires Valid() && listening
      modifies this`data, this`size, this`chunk, this`infoCtx, page`ret
      ensures var o := Step(addrs, old(View()), Dma(page.dma, device));
              && View() == o.upload
              && (r < 0 <==> o.reply != Answered) && page.ret == r == DmaRet(o, device)
              && o.log == sent
      ensures Valid() && (data == null || data == old(data))
    {
      if infoCtx != ACTION_DMA {
        page.ret := -1;
        return -1, [];
      }
      var p := PrepareDma(page);
      if p == Beyond {
        page.ret := -1;
        return -1, [Sent(page.dma, None)];
      }
      r := if p == Unmapped then -1 else device;
      sent := if p == Unmapped then [Dropped] else [Sent(page.dma, Some(p.chunks))];
      FinishDma(page, r);
    }

    /** on_fault: nothing happens unless the turn is the host's; a refused request leaves the
        turn where it is. */
    method OnFault(page: EscapePage, hasMemory: bool, device: int) returns (r: int, ghost msg: Message)
      requires Valid() && listening && page.area.Length >= 12 && page.area != data
      modifies this`data, this`size, this`chunk, this`infoCtx, data
      modifies page`turn, page`status, page`ret, page.area
      ensures old(page.turn) != TURN_HOST ==>
                && r == 0 && Valid() && View() == old(View()) && data == old(data)
                && page.turn == old(page.turn) && page.status == old(page.status) && page.area[..] == old(page.area[..])
      ensures old(page.turn) == TURN_HOST ==>
                && Asks(page.action, old(page.status), page.word, old(page.area[..]), page.dma, hasMemory, device, msg)
                && View() == Step(addrs, old(View()), msg).upload
                && r <= 0 && (r == 0 <==> Step(addrs, old(View()), msg).reply == Answered)
                && (data == null || data == old(data) || fresh(data))
                && page.turn == (if r == 0 then TURN_GUEST else TURN_HOST)
                && (page.action == ACTION_TRANSFER ==> page.status == AnswerStatus(old(page.status), r == 0))
                && (page.action == ACTION_TRANSFER ==> page.area[..] == AnswerArea(old(page.status), old(page.area[..])))
                && (page.action == ACTION_DMA ==> page.ret == DmaRet(Step(addrs, old(View()), msg), device))
      ensures r == 0 ==> Valid()
      ensures chunk <= size && (data != null ==> data.Length == size)
    {
      r := 0;
      msg := Other;
      if page.turn != TURN_HOST {
        return;
      }
      if page.action == ACTION_TRANSFER && page.status == STATUS_SIZE {
        r, msg := Accept(page, hasMemory);
      } else if page.action == ACTION_TRANSFER && page.status == STATUS_DATA {
        r, msg := Receive(page);
      } else if page.action == ACTION_TRANSFER {
        msg := UnknownStatus;
      } else if page.action in {ACTION_MMAP, ACTION_UNMAP} && !hasMemory {
        r := -1;
        msg := if page.action == ACTION_MMAP then MmapNoMemory else Unmap(false, page.dma, device);
      } else if page.action in {ACTION_UNMAP, ACTION_DMA} {
        ghost var sent: seq<Event>;
        r, sent := DoDma(page, device);
        msg := if page.action == ACTION_UNMAP then Unmap(true, page.dma, device) else Dma(page.dma, device);
        r := if r < 0 then r else 0;
      }
      if r == 0 {
        page.turn := TURN_GUEST;
      }
    }
  }

  /** The request a page with the turn at the host carries. */
  ghost predicate Asks(action: nat, status: nat, word: u32, area: seq<byte>, dma: DmaArgs, hasMemory: bool, device: int,
                       msg: Message)
    requires |area| >= 12
  {
    if action == ACTION_TRANSFER then Says(status, word, area, hasMemory, msg)
    else if action == ACTION_DMA then msg == Dma(dma, device)
    else if action == ACTION_UNMAP then msg == Unmap(hasMemory, dma, device)
    else if action == ACTION_MMAP && !hasMemory then msg == MmapNoMemory
    else msg == Other
  }

  /** status and area after a transfer request: a handshake is answered with the chunk size. */
  function AnswerStatus(status: nat, ok: bool): nat {
    if status == STATUS_SIZE then (if ok then STATUS_OK else STATUS_ERROR) else if status == STATUS_DATA && ok then STATUS_OK else status
  }

  function AnswerArea(status: nat, area: seq<byte>): seq<byte>
    requires |area| >= 12
  {
    if status == STATUS_SIZE then Patch(area, 0, LeBytes(Wrap32(TransferMax(|area|)), 4)) else area
  }

  function Prepend<T>(done: seq<T>, rest: Option<seq<T>>): Option<seq<T>> {
    if rest.None? then None else Some(done + rest.value)
  }

  lemma PrependNothing<T>(rest: Option<seq<T>>)
    ensures Prepend([], rest) == rest
  {
    if rest.Some? {
      assert [] + rest.value == rest.value;
    }
  }

  lemma TranslateNext(m: AddrMap, done: seq<PageChunk>, cs: seq<PageChunk>)
    requires cs != []
    ensures var v := Lookup(m, cs[0].addr);
            Prepend(done, Translate(m, cs)) ==
              if v == 0 then None else Prepend(done + [cs[0].(addr := v)], Translate(m, cs[1..]))
  {
    hide Lookup;
    var v := Lookup(m, cs[0].addr);
    var rest := Translate(m, cs[1..]);
    if v != 0 && rest.Some? {
      assert done + ([cs[0].(addr := v)] + rest.value) == (done + [cs[0].(addr := v)]) + rest.value;
    }
  }

  /** fh_do_faulthook: post a request, let the host run, and see whether it handed the turn
      back (0) or not (-ENXIO). A negative answer ends the host's listener thread. */
  method DoFaulthook(host: Host, page: EscapePage, action: nat, hasMemory: bool, device: int)
    returns (ret: int, ghost msg: Message)
    requires host.Valid() && page.area.Length >= 12 && page.area != host.data
    modifies host, host.data, page, page.area
    ensures host.Valid() && (host.data == null || host.data == old(host.data) || fresh(host.data))
    ensures !old(host.listening) ==> ret == -ENXIO && !host.listening && host.View() == old(host.View())
    ensures old(host.listening) ==>
              && Asks(action, old(page.status), old(page.word), old(page.area[..]), page.dma, hasMemory, device, msg)
              && host.View() == Step(host.addrs, old(host.View()), msg).upload
              && (ret == 0 <==> Step(host.addrs, old(host.View()), msg).reply == Answered)
              && (action == ACTION_TRANSFER ==> page.status == AnswerStatus(old(page.status), ret == 0))
              && (action == ACTION_TRANSFER ==> page.area[..] == AnswerArea(old(page.status), old(page.area[..])))
              && (action == ACTION_DMA ==> page.ret == DmaRet(Step(host.addrs, old(host.View()), msg), device))
    ensures page.dma == old(page.dma)
    ensures ret == 0 || ret == -ENXIO
    ensures (ret == 0 <==> host.listening) && (ret == 0 ==> page.turn == TURN_GUEST)
  {
    msg := Other;
    page.turn, page.action := TURN_HOST, action;
    page.nonce := Wrap64(page.nonce + 1);
    if host.listening {
      var r: int;
      r, msg := host.OnFault(page, hasMemory, device);
      host.listening := r == 0;
    }
    ret := if page.turn == TURN_GUEST then 0 else -ENXIO;
  }

  /** Faults on the page that are nobody's request: with the turn at the guest they change nothing. */
  method ExtraFaults(host: Host, page: EscapePage, n: nat)
    requires host.Valid() && page.area.Length >= 12 && page.area != host.data && page.turn == TURN_GUEST
    modifies host`data, host`size, host`chunk, host`infoCtx, host.data, page`turn, page`status, page`ret, page.area
    ensures host.Valid() && host.View() == old(host.View()) && host.data == old(host.data)
    ensures page.turn == TURN_GUEST && page.status == old(page.status) && page.area[..] == old(page.area[..])
  {
    for i := 0 to n
      invariant host.Valid() && host.View() == old(host.View()) && host.data == old(host.data)
      invariant page.turn == TURN_GUEST && page.status == old(page.status) && page.area[..] == old(page.area[..])
    {
      if host.listening {
        ghost var msg: Message;
        var r: int;
        r, msg := host.OnFault(page, true, 0);
      }
    }
  }

  /** The first pos bytes of `data` have arrived in a block of its size. */
  ghost predicate InProgress(u: Upload, data: seq<byte>, pos: nat, infoCtx: u64) {
    && u.data.Some? && |u.data.value| == |data| == u.size
    && u.chunk == pos <= |data| && u.infoCtx == infoCtx
    && u.data.value[..pos] == data[..pos]
  }

  lemma DataAdvances(m: AddrMap, u: Upload, data: seq<byte>, pos: nat, n: nat, infoCtx: u64)
    requires InProgress(u, data, pos, infoCtx) && pos + n <= |data|
    ensures var o := Step(m, u, Data(data[pos..pos + n]));
            o.reply == Answered && InProgress(o.upload, data, pos + n, infoCtx)
  {
    PatchPrefix(u.data.value, pos, data[pos..pos + n]);
    assert data[..pos + n] == data[..pos] + data[pos..pos + n];
  }

  /** One data round of transfer_chunk_to_host. */
  method SendChunk(host: Host, page: EscapePage, data: seq<byte>, pos: nat, transfer: u32, ghost infoCtx: u64, extra: nat)
    returns (ret: int)
    requires host.Valid() && host.listening && page.area.Length >= 12 && page.area != host.data && page.turn == TURN_GUEST
    requires transfer <= page.area.Length - 12 && pos + transfer <= |data|
    requires InProgress(host.View(), data, pos, infoCtx)
    modifies host, host.data, page, page.area
    ensures host.Valid() && host.listening && page.turn == TURN_GUEST
    ensures host.data == old(host.data) || fresh(host.data)
    ensures InProgress(host.View(), data, pos + transfer, infoCtx)
    ensures ret == 0 && page.status == STATUS_OK
  {
    CopyInto(page.area, 0, data[pos..pos + transfer]);
    page.word := transfer;
    page.status := STATUS_DATA;
    ExtraFaults(host, page, extra);
    assert page.area[..][..transfer] == data[pos..pos + transfer];
    DataAdvances(host.addrs, host.View(), data, pos, transfer, infoCtx);
    ghost var msg: Message;
    ret, msg := DoFaulthook(host, page, ACTION_TRANSFER, true, 0);
  }

  /** The opening of transfer_chunk_to_host: on success the host holds a block of the
      announced size and the guest reads back how much one message may carry. */
  method SendHandshake(host: Host, page: EscapePage, data: seq<byte>, infoCtx: u64, hasMemory: bool, extra: nat)
    returns (ret: int, chunkSize: u32)
    requires host.Valid() && page.area.Length >= 12 && page.area != host.data && page.turn == TURN_GUEST
    requires |data| < 0x1_0000_0000
    modifies host, host.data, page, page.area
    ensures host.Valid() && (host.data == null || host.data == old(host.data) || fresh(host.data))
    ensures ret == if old(host.listening) && hasMemory then 0 else -ENXIO
    ensures ret == 0 <==> host.listening
    ensures ret == 0 ==>
              && page.turn == TURN_GUEST
              && InProgress(host.View(), data, 0, infoCtx)
              && chunkSize == Wrap32(page.area.Length - 12)
  {
    hide LeBytes, LeValue, Pow256, Word4, Word8, Wrap32, Step, InProgress, Patch, AnswerArea, Says;
    ghost var was := page.area[..];
    page.status := STATUS_SIZE;
    page.word := |data|;
    CopyInto(page.area, 0, LeBytes(0, 4) + LeBytes(infoCtx, 8));
    ghost var area := page.area[..];
    HandshakeSaid(was, area, infoCtx);
    ExtraFaults(host, page, extra);
    ghost var msg: Message;
    ghost var u := host.View();
    ret, msg := DoFaulthook(host, page, ACTION_TRANSFER, hasMemory, 0);
    chunkSize := Word4(page.area[..4]);
    if ret == 0 {
      HandshakeAnswered(area, page.area[..]);
      assert page.area[..4] == page.area[..][..4];
    }
    if old(host.listening) {
      HandshakeStarts(host.addrs, u, msg, data, infoCtx, hasMemory, area);
    }
  }

  lemma HandshakeSaid(was: seq<byte>, area: seq<byte>, infoCtx: u64)
    requires |was| >= 12 && area == Patch(was, 0, LeBytes(0, 4) + LeBytes(infoCtx, 8))
    ensures Word8(area[4..12]) == infoCtx
  {
    Word8RoundTrip(infoCtx);
    hide LeBytes, Word8;
    assert area[4..12] == LeBytes(infoCtx, 8);
  }

  lemma HandshakeAnswered(area: seq<byte>, answered: seq<byte>)
    requires |area| >= 12 && answered == AnswerArea(STATUS_SIZE, area)
    ensures Word4(answered[..4]) == Wrap32(TransferMax(|area|))
  {
    hide LeBytes, Word4, Wrap32;
    Word4RoundTrip(Wrap32(TransferMax(|area|)));
    assert answered[..4] == LeBytes(Wrap32(TransferMax(|area|)), 4);
  }

  lemma HandshakeStarts(m: AddrMap, u: Upload, msg: Message, data: seq<byte>, infoCtx: u64, hasMemory: bool, area: seq<byte>)
    requires |area| >= 12 && |data| < 0x1_0000_0000 && Says(STATUS_SIZE, |data|, area, hasMemory, msg) && Word8(area[4..12]) == infoCtx
    ensures Step(m, u, msg).reply == Answered <==> hasMemory
    ensures hasMemory ==> InProgress(Step(m, u, msg).upload, data, 0, infoCtx)
  {
    hide Word8;
  }

  /** transfer_chunk_to_host. With extra faults at any point where the turn is the guest's,
      an upload to a listening host that finds memory ends after ceil(size / chunk size)
      data rounds with the host's block equal to the data; otherwise it ends at the
      handshake with -ENXIO. The out-of-bounds answer never occurs. */
  method TransferChunkToHost(host: Host, page: EscapePage, data: seq<byte>, infoCtx: u64, hasMemory: bool, extra: nat -> nat)
    returns (ret: int, rounds: nat)
    requires host.Valid() && page.area.Length >= 12 && page.area != host.data && page.turn == TURN_GUEST
    requires |data| < 0x1_0000_0000 && Wrap32(page.area.Length - 12) > 0
    modifies host, host.data, page, page.area
    ensures host.Valid() && (host.data == null || host.data == old(host.data) || fresh(host.data))
    ensures ret == if data == [] || (old(host.listening) && hasMemory) then 0 else -ENXIO
    ensures data == [] ==> rounds == 0 && host.View() == old(host.View()) && host.listening == old(host.listening)
    ensures data != [] && ret == 0 ==>
              && host.listening
              && host.View() == Upload(Some(data), |data|, |data|, infoCtx)
              && rounds == CeilDiv(|data|, Wrap32(page.area.Length - 12))
    ensures data != [] && ret != 0 ==> rounds == 0 && !host.listening
  {
    rounds := 0;
    if data == [] {
      return 0, 0;
    }
    var chunkSize: u32;
    ret, chunkSize := SendHandshake(host, page, data, infoCtx, hasMemory, extra(0));
    if ret != 0 {
      return;
    }
    ret, rounds := SendAll(host, page, data, chunkSize, infoCtx, extra);
  }

  /** The do/while loop of transfer_chunk_to_host. */
  method SendAll(host: Host, page: EscapePage, data: seq<byte>, chunkSize: u32, ghost infoCtx: u64, extra: nat -> nat)
    returns (ret: int, rounds: nat)
    requires host.Valid() && host.listening && page.area.Length >= 12 && page.area != host.data && page.turn == TURN_GUEST
    requires 0 < chunkSize <= page.area.Length - 12
    requires data != [] && InProgress(host.View(), data, 0, infoCtx)
    modifies host, host.data, page, page.area
    ensures host.Valid() && host.listening && (host.data == old(host.data) || fresh(host.data))
    ensures ret == 0 && rounds == CeilDiv(|data|, chunkSize)
    ensures host.View() == Upload(Some(data), |data|, |data|, infoCtx)
  {
    hide CeilDiv, InProgress;
    ret, rounds := 0, 0;
    var remain := |data|;
    var more := true;
    while more
      invariant host.Valid() && host.listening && page.turn == TURN_GUEST
      invariant page.area != host.data && (host.data == old(host.data) || fresh(host.data))
      invariant 0 <= remain <= |data| && (more <==> remain > 0)
      invariant InProgress(host.View(), data, |data| - remain, infoCtx)
      invariant rounds + CeilDiv(remain, chunkSize) == CeilDiv(|data|, chunkSize)
      invariant remain < |data| ==> ret == 0 && page.status == STATUS_OK
      decreases remain
    {
      var transfer: u32 := if chunkSize < remain then chunkSize else remain;
      ret := SendChunk(host, page, data, |data| - remain, transfer, infoCtx, extra(rounds + 1));
      CeilDivStep(remain, chunkSize);
      remain := remain - transfer;
      CeilDivStep(remain, chunkSize);
      rounds := rounds + 1;
      more := ret == 0 && page.status == STATUS_OK && remain > 0;
    }
    CeilDivStep(0, chunkSize);
    AllArrived(host.View(), data, infoCtx);
    if page.status != STATUS_OK {
      ret := -1;
    }
  }

  lemma AllArrived(u: Upload, data: seq<byte>, infoCtx: u64)
    requires InProgress(u, data, |data|, infoCtx)
    ensures u == Upload(Some(data), |data|, |data|, infoCtx)
  {
    assert u.data.value[..|data|] == u.data.value && data[..|data|] == data;
  }
}
