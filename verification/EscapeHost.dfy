/** The host side of the escape protocol (fpga_comm.c): the upload state behind
    FH_ACTION_TRANSFER_ESCAPE_DATA and FH_ACTION_DMA, over every sequence of messages. */
module EscapeHost {
  import opened Codes
  import opened Words
  import opened PageChunks
  import opened AddrMaps

  /** action_transfer_data_ptr (None for NULL), _size, _chunk and _info_ctx. */
  datatype Upload = Upload(data: Option<seq<byte>>, size: nat, chunk: nat, infoCtx: u64)

  const NO_UPLOAD := Upload(None, 0, 0, 0)

  /** struct action_dma, as passed on to the device driver. */
  datatype DmaArgs = DmaArgs(phyAddr: u64, doWrite: bool, userBuf: u64, len: u64, pagesNr: nat)

  /** What one fault with the turn at the host asks for, with the answers of malloc (the
      block it returned, or none) and of the device (the result of the ioctl). An UNMAP
      falls through into the DMA case, which reads its own arguments off the same page. */
  datatype Message =
    | Handshake(memory: seq<byte>, infoCtx: u64)
    | HandshakeNoMemory(total: nat, infoCtx: u64)
    | Data(bytes: seq<byte>)
    | UnknownStatus
    | Dma(args: DmaArgs, device: int)
    | Unmap(hasMemory: bool, overlay: DmaArgs, device: int)
    | MmapNoMemory
    | Other

  /** Overrun: the DMA case reads beyond the uploaded block. */
  datatype Reply = Answered | Refused | NoMemory | Overrun

  /** What happened, as an observer of the guest and of the device sees it. */
  datatype Event =
    | Announced(total: nat, infoCtx: u64)
    | Received(bytes: seq<byte>)
    | Sent(args: DmaArgs, chunks: Option<seq<PageChunk>>)
    | Dropped

  datatype Outcome = Outcome(upload: Upload, reply: Reply, log: seq<Event>)

  /** Every chunk's pfn replaced by its host address, or None if one has no mapping. */
  function Translate(m: AddrMap, cs: seq<PageChunk>): Option<seq<PageChunk>> {
    if cs == [] then Some([])
    else
      var v := Lookup(m, cs[0].addr);
      var rest := Translate(m, cs[1..]);
      if v == 0 || rest.None? then None else Some([cs[0].(addr := v)] + rest.value)
  }

  function Patch<T>(s: seq<T>, at: nat, bs: seq<T>): (r: seq<T>)
    requires at + |bs| <= |s|
    ensures |r| == |s|
  {
    s[..at] + bs + s[at + |bs|..]
  }

  /** The chunks of a block that is too short, as far as their pfn lies in it. */
  function Readable(data: seq<byte>): seq<PageChunk> {
    DecodeAll(data + seq<byte>(16, _ => 0), (|data| + 16) / 24)
  }

  /** Those are the chunks i with 24 i + 8 <= |data|, each with its own pfn. */
  lemma ReadableExact(data: seq<byte>, i: nat)
    ensures i < |Readable(data)| <==> 24 * i + 8 <= |data|
    ensures i < |Readable(data)| ==> Readable(data)[i].addr == Word8(data[24 * i..24 * i + 8])
  {
    if i < |Readable(data)| {
      var padding := seq<byte>(16, _ => 0);
      DecodeAt(data + padding, (|data| + 16) / 24, i);
      hide Word8;
      FrontOfSlice(data, padding, 24 * i);
    }
  }

  lemma FrontOfSlice(a: seq<byte>, b: seq<byte>, k: nat)
    requires k + 24 <= |a + b| && k + 8 <= |a|
    ensures (a + b)[k..k + 24][..8] == a[k..k + 8]
  {
  }

  lemma {:induction false} DecodeAt(bs: seq<byte>, n: nat, i: nat)
    requires i < n && 24 * n <= |bs|
    ensures DecodeAll(bs, n)[i] == DecodeChunk(bs[24 * i..24 * i + 24])
    decreases i
  {
    hide DecodeChunk;
    if i > 0 {
      DecodeAt(bs[24..], n - 1, i - 1);
      assert bs[24..][24 * (i - 1)..24 * (i - 1) + 24] == bs[24 * i..24 * i + 24];
    }
  }

  /** The chunks are translated one by one, so that a chunk without a mapping ends the request
      before anything beyond the block is read. */
  function DmaStep(m: AddrMap, u: Upload, args: DmaArgs, device: int): Outcome {
    if u.infoCtx != ACTION_DMA then Outcome(u, Refused, [])
    else if u.data.None? then Outcome(u, Overrun, [Sent(args, None)])
    else if 24 * args.pagesNr > |u.data.value| then
      if Translate(m, Readable(u.data.value)).None? then Outcome(NO_UPLOAD, Refused, [Dropped])
      else Outcome(u, Overrun, [Sent(args, None)])
    else
      var cs := Translate(m, DecodeAll(u.data.value, args.pagesNr));
      if cs.None? then Outcome(NO_UPLOAD, Refused, [Dropped])
      else Outcome(NO_UPLOAD, if device < 0 then Refused else Answered, [Sent(args, cs)])
  }

  /** A chunk is copied behind the ones before it, or refused when it does not fit; with
      no block there is nothing to copy to (and, the size being 0, nothing to copy). */
  function DataStep(u: Upload, bytes: seq<byte>): Outcome {
    if u.chunk + |bytes| > u.size then Outcome(u, Refused, [])
    else if u.data.None? || |u.data.value| != u.size then Outcome(u, Answered, [Received(bytes)])
    else Outcome(u.(data := Some(Patch(u.data.value, u.chunk, bytes)), chunk := u.chunk + |bytes|),
                 Answered, [Received(bytes)])
  }

  function Step(m: AddrMap, u: Upload, msg: Message): Outcome {
    match msg
    case Handshake(memory, ctx) => Outcome(Upload(Some(memory), |memory|, 0, ctx), Answered, [Announced(|memory|, ctx)])
    case HandshakeNoMemory(total, ctx) => Outcome(Upload(None, total, 0, ctx), NoMemory, [Announced(total, ctx)])
    case Data(bytes) => DataStep(u, bytes)
    case UnknownStatus => Outcome(u, Answered, [])
    case Dma(args, device) => DmaStep(m, u, args, device)
    case Unmap(hasMemory, overlay, device) => if hasMemory then DmaStep(m, u, overlay, device) else Outcome(u, Refused, [])
    case MmapNoMemory => Outcome(u, Refused, [])
    case Other => Outcome(u, Answered, [])
  }

  /** A run of the host over a message sequence; it ends at an allocation failure. */
  datatype Trace = Trace(upload: Upload, stopped: bool, log: seq<Event>)

  function Run(m: AddrMap, msgs: seq<Message>): Trace {
    if msgs == [] then Trace(NO_UPLOAD, false, [])
    else
      var t := Run(m, msgs[..|msgs| - 1]);
      if t.stopped then t
      else
        var o := Step(m, t.upload, msgs[|msgs| - 1]);
        Trace(o.upload, o.reply == NoMemory || o.reply == Overrun, t.log + o.log)
  }

  /** The chunks accepted since the last handshake, DMA or failed translation. */
  function ReceivedSince(log: seq<Event>): seq<byte> {
    if log == [] || !log[|log| - 1].Received? then []
    else ReceivedSince(log[..|log| - 1]) + log[|log| - 1].bytes
  }

  /** The purpose of the last handshake, if nothing has consumed it since. */
  function Pending(log: seq<Event>): u64 {
    if log == [] then 0
    else match log[|log| - 1]
      case Announced(_, ctx) => ctx
      case Received(_) => Pending(log[..|log| - 1])
      case _ => 0
  }

  /** A DMA handshake lies before event i with nothing but accepted chunks in between. */
  ghost predicate Guarded(log: seq<Event>, i: nat)
    requires i <= |log|
  {
    exists h :: 0 <= h < i && log[h].Announced? && log[h].infoCtx == ACTION_DMA
             && forall k :: h < k < i ==> log[k].Received?
  }

  /** The chunks handed to the device are the translated uploaded ones. */
  ghost predicate Faithful(m: AddrMap, e: Event, uploaded: seq<byte>) {
    e.Sent? && e.chunks.Some? && 24 * e.args.pagesNr <= |uploaded| ==>
      e.chunks == Translate(m, DecodeAll(uploaded, e.args.pagesNr))
  }

  ghost predicate LogOk(m: AddrMap, log: seq<Event>) {
    forall i :: 0 <= i < |log| && log[i].Sent? ==> Guarded(log, i) && Faithful(m, log[i], ReceivedSince(log[..i]))
  }

  ghost predicate UploadOk(u: Upload, log: seq<Event>) {
    && u.chunk <= u.size
    && u.infoCtx == Pending(log)
    && (u.data.Some? ==> |u.data.value| == u.size && u.data.value[..u.chunk] == ReceivedSince(log))
    && (u.data.None? ==> u.chunk == 0 && ReceivedSince(log) == [])
  }

  ghost predicate TraceOk(m: AddrMap, t: Trace) {
    && LogOk(m, t.log)
    && (!t.stopped ==> UploadOk(t.upload, t.log) && (t.upload.data.None? ==> t.upload.size == 0 && t.upload.infoCtx == 0))
    && t.upload.chunk <= t.upload.size
  }

  lemma {:induction false} PendingGuards(log: seq<Event>)
    requires Pending(log) == ACTION_DMA
    ensures Guarded(log, |log|)
  {
    var n := |log| - 1;
    if log[n].Received? {
      PendingGuards(log[..n]);
      var h :| 0 <= h < n && log[..n][h].Announced? && log[..n][h].infoCtx == ACTION_DMA
               && forall k :: h < k < n ==> log[..n][k].Received?;
      assert log[h].Announced? && log[h].infoCtx == ACTION_DMA;
      forall k | h < k < |log|
        ensures log[k].Received?
      {
        assert k < n ==> log[..n][k].Received?;
      }
    }
  }

  lemma GuardedStays(log: seq<Event>, e: Event, i: nat)
    requires i <= |log| && Guarded(log, i)
    ensures Guarded(log + [e], i)
  {
    var h :| 0 <= h < i && log[h].Announced? && log[h].infoCtx == ACTION_DMA
             && forall k :: h < k < i ==> log[k].Received?;
    assert (log + [e])[h] == log[h];
    assert forall k :: h < k < i ==> (log + [e])[k] == log[k];
  }

  lemma LogGrows(m: AddrMap, log: seq<Event>, e: Event)
    requires LogOk(m, log)
    requires e.Sent? ==> Pending(log) == ACTION_DMA && Faithful(m, e, ReceivedSince(log))
    ensures LogOk(m, log + [e])
  {
    hide Faithful, ReceivedSince, Pending, Guarded;
    var after := log + [e];
    forall i | 0 <= i < |after| && after[i].Sent?
      ensures Guarded(after, i) && Faithful(m, after[i], ReceivedSince(after[..i]))
    {
      if i < |log| {
        assert after[..i] == log[..i] && after[i] == log[i];
        GuardedStays(log, e, i);
      } else {
        assert after[..i] == log;
        PendingGuards(log);
        GuardedStays(log, e, i);
      }
    }
  }

  lemma LogSnoc(log: seq<Event>, e: Event)
    ensures ReceivedSince(log + [e]) == if e.Received? then ReceivedSince(log) + e.bytes else []
    ensures Pending(log + [e]) == if e.Announced? then e.infoCtx else if e.Received? then Pending(log) else 0
  {
    assert (log + [e])[..|log|] == log;
  }

  lemma PatchPrefix<T>(s: seq<T>, at: nat, bs: seq<T>)
    requires at + |bs| <= |s|
    ensures Patch(s, at, bs)[..at + |bs|] == s[..at] + bs
  {
  }

  lemma DataKeeps(m: AddrMap, t: Trace, bytes: seq<byte>)
    requires TraceOk(m, t) && !t.stopped
    ensures var o := DataStep(t.upload, bytes); TraceOk(m, Trace(o.upload, false, t.log + o.log))
  {
    hide LogOk, ReceivedSince, Pending, Patch;
    var u := t.upload;
    assert t.log + [] == t.log;
    if u.chunk + |bytes| <= u.size {
      LogGrows(m, t.log, Received(bytes));
      LogSnoc(t.log, Received(bytes));
      if u.data.Some? {
        PatchPrefix(u.data.value, u.chunk, bytes);
      }
    }
  }

  lemma DecodePrefix(bs: seq<byte>, cut: nat, n: nat)
    requires 24 * n <= cut <= |bs|
    ensures DecodeAll(bs, n) == DecodeAll(bs[..cut], n)
    decreases n
  {
    hide DecodeChunk;
    if n > 0 {
      DecodePrefix(bs[24..], cut - 24, n - 1);
      assert bs[..cut][24..] == bs[24..][..cut - 24];
      assert bs[..cut][..24] == bs[..24];
    }
  }

  lemma DmaKeeps(m: AddrMap, t: Trace, args: DmaArgs, device: int)
    requires TraceOk(m, t) && !t.stopped
    ensures var o := DmaStep(m, t.upload, args, device);
            TraceOk(m, Trace(o.upload, o.reply == Overrun, t.log + o.log))
  {
    hide LogOk, ReceivedSince, Pending, DecodeAll, Translate, Readable;
    var u := t.upload;
    assert t.log + [] == t.log;
    if u.infoCtx == ACTION_DMA {
      var o := DmaStep(m, u, args, device);
      var e := o.log[0];
      if e.Sent? && e.chunks.Some? && 24 * args.pagesNr <= u.chunk {
        DecodePrefix(u.data.value, u.chunk, args.pagesNr);
      }
      LogGrows(m, t.log, e);
      LogSnoc(t.log, e);
    }
  }

  lemma HandshakeKeeps(m: AddrMap, t: Trace, memory: seq<byte>, ctx: u64)
    requires TraceOk(m, t)
    ensures TraceOk(m, Trace(Upload(Some(memory), |memory|, 0, ctx), false, t.log + [Announced(|memory|, ctx)]))
  {
    hide LogOk, ReceivedSince, Pending;
    LogGrows(m, t.log, Announced(|memory|, ctx));
    LogSnoc(t.log, Announced(|memory|, ctx));
  }

  lemma StepKeeps(m: AddrMap, t: Trace, msg: Message)
    requires TraceOk(m, t) && !t.stopped
    ensures var o := Step(m, t.upload, msg);
            TraceOk(m, Trace(o.upload, o.reply == NoMemory || o.reply == Overrun, t.log + o.log))
  {
    hide TraceOk, DmaStep, DataStep;
    assert t.log + [] == t.log;
    match msg
    case Handshake(memory, ctx) => HandshakeKeeps(m, t, memory, ctx);
    case HandshakeNoMemory(total, ctx) => NoMemoryKeeps(m, t, total, ctx);
    case Data(bytes) =>
      DataKeeps(m, t, bytes);
      DataReply(t.upload, bytes);
    case Dma(args, device) =>
      DmaKeeps(m, t, args, device);
      DmaReply(m, t.upload, args, device);
    case Unmap(hasMemory, overlay, device) =>
      if hasMemory {
        DmaKeeps(m, t, overlay, device);
        DmaReply(m, t.upload, overlay, device);
      } else {
        Renamed(m, t);
      }
    case _ => Renamed(m, t);
  }

  lemma Renamed(m: AddrMap, t: Trace)
    requires TraceOk(m, t) && !t.stopped
    ensures TraceOk(m, Trace(t.upload, false, t.log))
  {
  }

  lemma NoMemoryKeeps(m: AddrMap, t: Trace, total: nat, ctx: u64)
    requires TraceOk(m, t)
    ensures TraceOk(m, Trace(Upload(None, total, 0, ctx), true, t.log + [Announced(total, ctx)]))
  {
    hide LogOk;
    LogGrows(m, t.log, Announced(total, ctx));
  }

  lemma DataReply(u: Upload, bytes: seq<byte>)
    ensures DataStep(u, bytes).reply != NoMemory && DataStep(u, bytes).reply != Overrun
  {
  }

  lemma DmaReply(m: AddrMap, u: Upload, args: DmaArgs, device: int)
    ensures DmaStep(m, u, args, device).reply != NoMemory
  {
    hide Translate, DecodeAll, Readable;
  }

  /** Over every message sequence: the received offset never exceeds the announced size,
      the received prefix is the concatenation of the chunks accepted since the last
      handshake, every DMA is preceded by a DMA handshake with nothing but accepted chunks
      in between, and what it hands to the device is the translated uploaded chunks. */
  lemma {:induction false} HostRunSafe(m: AddrMap, msgs: seq<Message>)
    ensures TraceOk(m, Run(m, msgs))
  {
    hide TraceOk, Step;
    if msgs == [] {
      EmptyTraceOk(m);
    } else {
      HostRunSafe(m, msgs[..|msgs| - 1]);
      var t := Run(m, msgs[..|msgs| - 1]);
      if !t.stopped {
        StepKeeps(m, t, msgs[|msgs| - 1]);
      }
    }
  }

  lemma EmptyTraceOk(m: AddrMap)
    ensures TraceOk(m, Trace(NO_UPLOAD, false, []))
  {
  }

  /** Between two DMAs that reach the device lies a DMA handshake, and one lies before the first. */
  lemma DmaNeedsHandshake(m: AddrMap, msgs: seq<Message>, i: int, j: nat)
    requires var log := Run(m, msgs).log; -1 <= i < j < |log| && log[j].Sent? && (i >= 0 ==> log[i].Sent?)
    ensures var log := Run(m, msgs).log; exists h :: i < h < j && log[h].Announced? && log[h].infoCtx == ACTION_DMA
  {
    hide Run;
    HostRunSafe(m, msgs);
    var log := Run(m, msgs).log;
    assert Guarded(log, j);
    var h :| 0 <= h < j && log[h].Announced? && log[h].infoCtx == ACTION_DMA && forall k :: h < k < j ==> log[k].Received?;
    assert i < h;
  }

  /** An UNMAP is answered exactly when an upload for a DMA is under way whose chunks, read as
      the arguments of a DMA, lie inside the upload and are all mapped, and the device agrees;
      it then consumes the upload. Without such an upload it is refused and changes nothing. */
  lemma UnmapAnsweredIff(m: AddrMap, msgs: seq<Message>, hasMemory: bool, overlay: DmaArgs, device: int)
    requires !Run(m, msgs).stopped
    ensures var t := Run(m, msgs); var o := Step(m, t.upload, Unmap(hasMemory, overlay, device));
            && (o.reply == Answered <==>
                  && hasMemory && Pending(t.log) == ACTION_DMA && t.upload.data.Some?
                  && 24 * overlay.pagesNr <= |t.upload.data.value|
                  && Translate(m, DecodeAll(t.upload.data.value, overlay.pagesNr)).Some?
                  && device >= 0)
            && (o.reply == Answered ==> o.upload == NO_UPLOAD)
            && (Pending(t.log) != ACTION_DMA ==> o.reply == Refused && o.upload == t.upload)
  {
    hide Run, Pending, Translate, DecodeAll, Readable;
    HostRunSafe(m, msgs);
  }
}
