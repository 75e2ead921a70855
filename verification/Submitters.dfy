/** Synchronous submitters: any number of threads inside xdma_xfer_submit on one engine,
    serialised by desc_lock, interleaved with service calls and offline/online. */
module Submitters {
  import opened Words
  import opened Engine

  /** Where a thread stands; `left` counts the transfers its request still needs. Waiting
      covers transfer_queue's return up to the switch on the transfer's state; Leaving is
      the way to the mutex_unlock, Freeing the way from there to xdma_request_free. */
  datatype Pc = Building(left: nat) | Built(left: nat) | Waiting(left: nat) | Leaving | Freeing | Gone

  /** Thread t owns transfer t (tfer[0] of its request). */
  datatype World = World(eng: Eng, holder: Option<Id>, pc: map<Id, Pc>)

  datatype Step =
    | Enter(t: Id, transfers: nat)
    | Build(t: Id, num: nat)
    | Queue(t: Id, sawOffline: bool, st: Status)
    | Wake(t: Id, idReadable: bool)
    | Leave(t: Id)
    | Free(t: Id)
    | Serve(wbCount: nat, wbErr: bool, hw: Hw)
    | GoOffline
    | GoOnline

  predicate At(w: World, t: Id) { t in w.pc }

  predicate Enabled(w: World, s: Step) {
    match s
    case Enter(t, n) => !At(w, t) && w.holder == None && n > 0
    case Build(t, num) => At(w, t) && w.pc[t].Building? && num > 0
    case Queue(t, _, _) => At(w, t) && w.pc[t].Built? && t in w.eng.xfers
    case Wake(t, _) => At(w, t) && w.pc[t].Waiting? && t in w.eng.xfers
    case Leave(t) => At(w, t) && w.pc[t] == Leaving
    case Free(t) => At(w, t) && w.pc[t] == Freeing
    case _ => true
  }

  function To(w: World, t: Id, pc: Pc): World { w.(pc := w.pc[t := pc]) }

  function Next(w: World, s: Step): World
    requires WellFormed(w.eng) && Enabled(w, s)
  {
    match s
    case Enter(t, n) => To(w, t, Building(n)).(holder := Some(t))
    case Build(t, num) =>
      To(w, t, Built(w.pc[t].left)).(eng := w.eng.(xfers := w.eng.xfers[t := Xfer(New, num, 0)]))
    case Queue(t, sawOffline, st) =>
      if sawOffline || w.eng.request then To(w, t, Leaving)
      else To(w, t, Waiting(w.pc[t].left)).(eng := Enqueue(w.eng, t, st))
    case Wake(t, idReadable) =>
      (match w.eng.xfers[t].state
       case Completed => To(w, t, if w.pc[t].left > 1 then Building(w.pc[t].left - 1) else Leaving)
       case Failed => To(w, t, Leaving)
       case _ =>
         if idReadable then To(w, t, Leaving).(eng := Abort(w.eng, t)) else To(w, t, Leaving))
    case Leave(t) => To(w, t, Freeing).(holder := None)
    case Free(t) => To(w, t, Gone)
    case Serve(wbCount, wbErr, hw) => w.(eng := Service(w.eng, wbCount, wbErr, hw))
    case GoOffline => w.(eng := Offline(w.eng))
    case GoOnline => w.(eng := Online(w.eng))
  }

  /** transfer_init resets and xdma_request_free releases the transfer object. */
  predicate TouchesObject(s: Step) { s.Build? || s.Free? }

  predicate InSubmit(pc: Pc) { pc.Building? || pc.Built? || pc.Waiting? || pc.Leaving? }

  ghost predicate LockOk(w: World) {
    && (w.holder.Some? ==> w.holder.value in w.pc)
    && forall t :: t in w.pc ==> (InSubmit(w.pc[t]) <==> w.holder == Some(t))
  }

  ghost predicate ObjectsOk(w: World) {
    && (forall t :: t in w.eng.xfers ==> (w.eng.xfers[t].state == Submitted <==> t in w.eng.queue))
    && (forall t :: t in w.pc && (w.pc[t].Built? || w.pc[t].Waiting?) ==> t in w.eng.xfers && w.eng.xfers[t].descNum > 0)
  }

  /** At most one transfer is linked, and it belongs to the thread that waits for it. */
  ghost predicate QueueOk(w: World) {
    && |w.eng.queue| <= 1
    && (w.eng.queue != [] ==>
          var t := w.eng.queue[0];
          t in w.eng.xfers && t in w.pc && w.pc[t].Waiting? && w.holder == Some(t))
  }

  ghost predicate Inv(w: World) {
    WellFormed(w.eng) && LockOk(w) && ObjectsOk(w) && QueueOk(w)
  }

  ghost predicate Unchanged(e: Eng, e': Eng) { e'.queue == e.queue && e'.xfers == e.xfers }

  /** The linked transfer left the queue as COMPLETED or FAILED. */
  ghost predicate Dequeued(e: Eng, e': Eng) {
    && |e.queue| == 1 && e'.queue == []
    && SameOutside(e.xfers, e'.xfers, e.queue) && SameNums(e.xfers, e'.xfers)
    && StateOf(e'.xfers, e.queue[0]) in {Completed, Failed}
  }

  /** What a service call does when at most one transfer is linked. */
  lemma ServeOne(e: Eng, wbCount: nat, wbErr: bool, hw: Hw)
    requires WellFormed(e) && |e.queue| <= 1
    ensures var e' := Service(e, wbCount, wbErr, hw);
            && WellFormed(e')
            && (Unchanged(e, e') || Dequeued(e, e'))
  {
    hide *;
    var e' := Service(e, wbCount, wbErr, hw);
    if e.running && (if wbCount == 0 then hw.count else wbCount) != 0 {
      ServiceContract(e, wbCount, wbErr, hw);
      ServiceKeepsNums(e, wbCount, wbErr, hw);
      OneServiced(e, e', Wrap32((if wbCount == 0 then hw.count else wbCount) - e.dequeued),
                  (if wbCount == 0 || wbErr then hw.status else e.status).error);
    } else {
      NotServiced(e, wbCount, wbErr, hw);
    }
  }

  lemma NotServiced(e: Eng, wbCount: nat, wbErr: bool, hw: Hw)
    requires WellFormed(e) && !(e.running && (if wbCount == 0 then hw.count else wbCount) != 0)
    ensures var e' := Service(e, wbCount, wbErr, hw);
            && WellFormed(e') && Unchanged(e, e') && e'.dequeued == e.dequeued
            && (e'.running <==> e.running && hw.status.busy)
  {
  }

  lemma OneServiced(e: Eng, e': Eng, c: nat, error: bool)
    requires |e.queue| <= 1 && |e'.queue| <= |e.queue| && SameNums(e.xfers, e'.xfers)
    requires Serviced(e.xfers, e.queue, e'.xfers, e'.queue, |e.queue| - |e'.queue|, c, error)
    ensures Unchanged(e, e') || Dequeued(e, e')
    ensures e'.queue == []
  {
    hide DescSum, Credited, SameNums, SameOutside, LastServiced;
    AllLeave(e.xfers, e.queue, e'.xfers, |e.queue| - |e'.queue|, c, error);
    if e'.queue == e.queue {
      assert e.queue[..0] == [];
      SameOutsideNothing(e.xfers, e'.xfers);
    } else {
      assert e.queue[..1] == e.queue;
      OneState(e.xfers, e.queue, e'.xfers, c, error);
    }
  }

  lemma AllLeave(m: map<Id, Xfer>, q: seq<Id>, m': map<Id, Xfer>, r: nat, c: nat, error: bool)
    requires |q| <= 1 && r <= |q| && LastServiced(m, q, m', r, c, error)
    ensures r == |q|
  {
    hide DescSum;
  }

  lemma SameOutsideNothing(m: map<Id, Xfer>, m': map<Id, Xfer>)
    requires SameOutside(m, m', [])
    ensures m' == m
  {
  }

  lemma OneState(m: map<Id, Xfer>, q: seq<Id>, m': map<Id, Xfer>, c: nat, error: bool)
    requires |q| == 1 && LastServiced(m, q, m', 1, c, error)
    ensures StateOf(m', q[0]) in {Completed, Failed}
  {
    hide DescSum;
  }

  lemma ServeKeeps(w: World, wbCount: nat, wbErr: bool, hw: Hw)
    requires Inv(w)
    ensures Inv(w.(eng := Service(w.eng, wbCount, wbErr, hw)))
  {
    ServeOne(w.eng, wbCount, wbErr, hw);
    var e' := Service(w.eng, wbCount, wbErr, hw);
    hide Service, WellFormed;
  }

  lemma QueueKeeps(w: World, t: Id, sawOffline: bool, st: Status)
    requires Inv(w) && Enabled(w, Queue(t, sawOffline, st))
    ensures Inv(Next(w, Queue(t, sawOffline, st)))
  {
    assert w.holder == Some(t) && w.eng.queue == [];
  }

  lemma WakeKeeps(w: World, t: Id)
    requires Inv(w) && Enabled(w, Wake(t, true))
    ensures Inv(Next(w, Wake(t, true)))
  {
    AbortKeepsWellFormed(w.eng, t);
    assert w.holder == Some(t);
    if w.eng.queue != [] {
      assert w.eng.queue == [t];
    }
    hide WellFormed;
  }

  /** A wake-up that cannot read the engine id keeps the invariant exactly when its transfer
      is no longer linked. */
  lemma UnreadableWakeIff(w: World, t: Id)
    requires Inv(w) && Enabled(w, Wake(t, false))
    ensures Inv(Next(w, Wake(t, false))) <==> t !in w.eng.queue
  {
    assert w.holder == Some(t);
    var w' := Next(w, Wake(t, false));
    assert w'.eng == w.eng && w'.holder == w.holder;
    hide WellFormed;
    if t in w.eng.queue {
      assert w.eng.queue == [t] && w'.pc[t] == Leaving;
    } else {
      assert w.eng.xfers[t].state != Submitted && w.eng.queue == [];
    }
  }

  lemma BuildKeeps(w: World, t: Id, num: nat)
    requires Inv(w) && Enabled(w, Build(t, num))
    ensures t !in w.eng.queue && Inv(Next(w, Build(t, num)))
  {
    assert w.holder == Some(t);
    assert t !in w.eng.queue;
  }

  /** The engine id can be read where it matters: at a wake-up whose transfer is still linked. */
  predicate Readable(w: World, s: Step) { s.Wake? && s.t in w.eng.queue ==> s.idReadable }

  /** Every such step keeps the invariant, and touches a transfer object only while it is not
      linked. */
  lemma StepKeeps(w: World, s: Step)
    requires Inv(w) && Enabled(w, s) && Readable(w, s)
    ensures Inv(Next(w, s))
    ensures TouchesObject(s) ==> s.t !in w.eng.queue
  {
    match s
    case Serve(wbCount, wbErr, hw) =>
      ServeKeeps(w, wbCount, wbErr, hw);
      hide Service;
    case Queue(t, sawOffline, st) =>
      QueueKeeps(w, t, sawOffline, st);
      hide *;
    case Wake(t, idReadable) =>
      if idReadable {
        WakeKeeps(w, t);
      } else {
        UnreadableWakeIff(w, t);
      }
      hide *;
    case Build(t, num) =>
      BuildKeeps(w, t, num);
      hide Inv;
    case _ =>
      hide Service, WellFormed;
  }

  /** The steps can be taken one after the other, and no step touches a linked transfer. */
  ghost predicate SafeRun(w: World, ss: seq<Step>)
    decreases |ss|
  {
    ss != [] ==>
      && WellFormed(w.eng) && (Enabled(w, ss[0]) ==> SafeStep(w, ss[0]) && SafeRun(Next(w, ss[0]), ss[1..]))
  }

  predicate SafeStep(w: World, s: Step) { TouchesObject(s) ==> s.t !in w.eng.queue }

  ghost predicate Runs(w: World, ss: seq<Step>)
    decreases |ss|
  {
    ss != [] ==> WellFormed(w.eng) && Enabled(w, ss[0]) && Runs(Next(w, ss[0]), ss[1..])
  }

  ghost function After(w: World, ss: seq<Step>): World
    requires Runs(w, ss)
    decreases |ss|
  {
    if ss == [] then w else After(Next(w, ss[0]), ss[1..])
  }

  ghost predicate ReadableRun(w: World, ss: seq<Step>)
    requires Runs(w, ss)
    decreases |ss|
  {
    ss != [] ==> Readable(w, ss[0]) && ReadableRun(Next(w, ss[0]), ss[1..])
  }

  /** Over every interleaving in which the engine id can be read at the wake-ups of linked
      transfers: a transfer is SUBMITTED exactly while it is linked, at most one is linked, and
      neither transfer_init nor xdma_request_free meets a linked transfer. */
  lemma {:induction false} SubmittersSafe(w: World, ss: seq<Step>)
    requires Inv(w) && Runs(w, ss) && ReadableRun(w, ss)
    ensures Inv(After(w, ss)) && SafeRun(w, ss)
    decreases |ss|
  {
    if ss != [] {
      StepKeeps(w, ss[0]);
      assert WellFormed(w.eng);
      hide Inv, Next, Enabled, WellFormed, Readable;
      SubmittersSafe(Next(w, ss[0]), ss[1..]);
    }
  }

  // ----- a linked transfer and the running engine -----

  /** An engine runs only for a linked transfer, and has dequeued nothing of it. */
  ghost predicate Fresh(w: World) { w.eng.running ==> w.eng.queue != [] && w.eng.dequeued == 0 }

  /** The engine works on the linked transfer. */
  predicate Works(w: World) { w.eng.queue != [] ==> w.eng.running }

  /** The steps that stop an engine under a linked transfer: offline, and a service call that
      finds no count and no busy bit. */
  predicate Stalls(w: World, s: Step) {
    && w.eng.queue != []
    && (s.GoOffline? || (s.Serve? && s.wbCount == 0 && s.hw.count == 0 && !s.hw.status.busy))
  }

  lemma ServeFresh(w: World, wbCount: nat, wbErr: bool, hw: Hw)
    requires Inv(w) && Fresh(w)
    ensures var w' := w.(eng := Service(w.eng, wbCount, wbErr, hw));
            Fresh(w') && (Works(w) ==> (Works(w') <==> !Stalls(w, Serve(wbCount, wbErr, hw))))
  {
    hide *;
    InvMeans(w);
    var e, e' := w.eng, Service(w.eng, wbCount, wbErr, hw);
    var count := if wbCount == 0 then hw.count else wbCount;
    ServeWorld(w, wbCount, wbErr, hw);
    if e.running && count != 0 {
      ServiceContract(e, wbCount, wbErr, hw);
      ServiceKeepsNums(e, wbCount, wbErr, hw);
      OneServiced(e, e', Wrap32(count - e.dequeued), (if wbCount == 0 || wbErr then hw.status else e.status).error);
    } else {
      NotServiced(e, wbCount, wbErr, hw);
      UnchangedQueue(e, e');
    }
  }

  lemma InvMeans(w: World)
    requires Inv(w)
    ensures WellFormed(w.eng) && |w.eng.queue| <= 1
  {
  }

  lemma UnchangedQueue(e: Eng, e': Eng)
    requires Unchanged(e, e')
    ensures e'.queue == e.queue
  {
  }

  lemma ServeWorld(w: World, wbCount: nat, wbErr: bool, hw: Hw)
    requires WellFormed(w.eng)
    ensures var e, e' := w.eng, Service(w.eng, wbCount, wbErr, hw);
            && (Fresh(w) <==> e.running ==> e.queue != [] && e.dequeued == 0)
            && (Fresh(w.(eng := e')) <==> e'.running ==> e'.queue != [] && e'.dequeued == 0)
            && (Works(w) <==> e.queue != [] ==> e.running) && (Works(w.(eng := e')) <==> e'.queue != [] ==> e'.running)
            && (Stalls(w, Serve(wbCount, wbErr, hw)) <==> e.queue != [] && wbCount == 0 && hw.count == 0 && !hw.status.busy)
  {
    hide Service, WellFormed;
  }

  /** Every accepted transfer_queue starts the engine, and it works on until a stalling step. */
  lemma StepWorksIff(w: World, s: Step)
    requires Inv(w) && Fresh(w) && Enabled(w, s) && Readable(w, s)
    ensures Fresh(Next(w, s))
    ensures Works(w) ==> (Works(Next(w, s)) <==> !Stalls(w, s))
    ensures s.Queue? && Next(w, s).eng.queue != [] ==> Works(Next(w, s))
  {
    match s
    case Serve(wbCount, wbErr, hw) =>
      ServeFresh(w, wbCount, wbErr, hw);
      hide Service;
    case Queue(t, _, _) =>
      assert w.holder == Some(t) && w.eng.queue == [];
      hide Service, WellFormed;
    case Wake(t, _) =>
      assert w.holder == Some(t);
      assert w.eng.queue != [] ==> w.eng.queue == [t];
      hide Service, WellFormed;
    case _ =>
      hide Service, WellFormed;
  }

  ghost predicate AlwaysWorks(w: World, ss: seq<Step>)
    requires Runs(w, ss)
    decreases |ss|
  {
    Works(w) && (ss != [] ==> AlwaysWorks(Next(w, ss[0]), ss[1..]))
  }

  ghost predicate NeverStalls(w: World, ss: seq<Step>)
    requires Runs(w, ss)
    decreases |ss|
  {
    ss != [] ==> !Stalls(w, ss[0]) && NeverStalls(Next(w, ss[0]), ss[1..])
  }

  /** Over every such interleaving: the engine is running at every moment at which a transfer
      is linked if and only if no step goes offline, or finds neither a count nor the busy
      bit, while one is. A running engine has dequeued nothing of the linked transfer. */
  lemma {:induction false} LinkedEngineWorksIff(w: World, ss: seq<Step>)
    requires Inv(w) && Fresh(w) && Works(w) && Runs(w, ss) && ReadableRun(w, ss)
    ensures AlwaysWorks(w, ss) <==> NeverStalls(w, ss)
    decreases |ss|
  {
    if ss != [] {
      StepKeeps(w, ss[0]);
      StepWorksIff(w, ss[0]);
      hide Inv, Next, Enabled, WellFormed, Readable, Stalls, Fresh, Works;
      if Works(Next(w, ss[0])) {
        LinkedEngineWorksIff(Next(w, ss[0]), ss[1..]);
      } else {
        NotWorking(Next(w, ss[0]), ss[1..]);
      }
    }
  }

  lemma NotWorking(w: World, ss: seq<Step>)
    requires Runs(w, ss) && !Works(w)
    ensures !AlwaysWorks(w, ss)
  {
  }

  lemma {:induction false} FreshAlways(w: World, ss: seq<Step>)
    requires Inv(w) && Fresh(w) && Runs(w, ss) && ReadableRun(w, ss)
    ensures Inv(After(w, ss)) && Fresh(After(w, ss))
    decreases |ss|
  {
    if ss != [] {
      StepKeeps(w, ss[0]);
      StepWorksIff(w, ss[0]);
      hide Inv, Next, Enabled, WellFormed, Readable, Fresh;
      FreshAlways(Next(w, ss[0]), ss[1..]);
    }
  }

  // ----- the transfers of one request -----

  /** The transfers a thread still needs. */
  function Remaining(w: World, t: Id): nat {
    if t !in w.pc then 0
    else match w.pc[t]
      case Building(left) => left
      case Built(left) => left
      case Waiting(left) => left
      case _ => 0
  }

  ghost predicate LeftOk(w: World) {
    forall t :: t in w.pc && !w.pc[t].Leaving? && !w.pc[t].Freeing? && !w.pc[t].Gone? ==> Remaining(w, t) > 0
  }

  /** A completed transfer of t is seen, and a transfer of t is rejected or seen not completed. */
  predicate Sees(w: World, s: Step, t: Id) {
    s.Wake? && s.t == t && t in w.eng.xfers && w.eng.xfers[t].state == Completed
  }

  predicate Fails(w: World, s: Step, t: Id) {
    || (s.Queue? && s.t == t && (s.sawOffline || w.eng.request))
    || (s.Wake? && s.t == t && t in w.eng.xfers && w.eng.xfers[t].state != Completed)
  }

  /** Only these two change how many transfers a thread needs: one less, or none any more. */
  lemma StepRemaining(w: World, s: Step, t: Id)
    requires WellFormed(w.eng) && Enabled(w, s) && LeftOk(w) && t in w.pc
    ensures LeftOk(Next(w, s)) && t in Next(w, s).pc
    ensures Remaining(Next(w, s), t) == if Fails(w, s, t) then 0 else Remaining(w, t) - if Sees(w, s, t) then 1 else 0
    ensures Fails(w, s, t) || Sees(w, s, t) ==> Remaining(w, t) > 0
  {
    hide Service, WellFormed, Enqueue, Abort;
  }

  ghost function Seen(w: World, ss: seq<Step>, t: Id): nat
    requires Runs(w, ss)
    decreases |ss|
  {
    if ss == [] then 0 else (if Sees(w, ss[0], t) then 1 else 0) + Seen(Next(w, ss[0]), ss[1..], t)
  }

  ghost predicate NeverFails(w: World, ss: seq<Step>, t: Id)
    requires Runs(w, ss)
    decreases |ss|
  {
    ss != [] ==> !Fails(w, ss[0], t) && NeverFails(Next(w, ss[0]), ss[1..], t)
  }

  /** Over every interleaving a thread sees no more completed transfers than it needs, and as
      many as it no longer needs exactly when none of its transfers failed: a request without
      a failure leaves the loop after exactly its number of transfers. */
  lemma {:induction false} CompletionsExact(w: World, ss: seq<Step>, t: Id)
    requires LeftOk(w) && Runs(w, ss) && t in w.pc
    ensures Seen(w, ss, t) + Remaining(After(w, ss), t) <= Remaining(w, t)
    ensures Seen(w, ss, t) + Remaining(After(w, ss), t) == Remaining(w, t) <==> NeverFails(w, ss, t)
    decreases |ss|
  {
    if ss != [] {
      StepRemaining(w, ss[0], t);
      hide LeftOk, Next, Enabled, WellFormed, Fails, Sees, Remaining;
      CompletionsExact(Next(w, ss[0]), ss[1..], t);
    }
  }

  /** The initial world satisfies the invariant. */
  lemma InitiallyOk(st: Status)
    ensures var w := World(Eng(false, false, false, 0, st, [], map[], 0), None, map[]); Inv(w) && Fresh(w) && Works(w)
  {
  }

  /** The engine id matters in every world with a linked transfer: if its thread wakes up
      and cannot read the id, and no service call comes first, the request is freed while
      the engine's list still points to it. */
  lemma UnreadableIdFreesLinked(w: World, t: Id)
    requires Inv(w) && w.eng.queue == [t]
    ensures var ss := [Wake(t, false), Leave(t), Free(t)];
            Runs(w, ss) && !SafeRun(w, ss) && After(w, ss).eng.queue == [t]
  {
    var w1 := Next(w, Wake(t, false));
    var w2 := Next(w1, Leave(t));
    assert Enabled(w, Wake(t, false)) && Enabled(w1, Leave(t)) && Enabled(w2, Free(t));
    assert w1.eng == w2.eng == w.eng && Next(w2, Free(t)).eng == w.eng;
    hide *;
    NoSteps(Next(w2, Free(t)));
    OneMore(w2, Free(t), []);
    OneMore(w1, Leave(t), [Free(t)]);
    OneMore(w, Wake(t, false), [Leave(t), Free(t)]);
    assert [Free(t)] + [] == [Free(t)] && [Leave(t)] + [Free(t)] == [Leave(t), Free(t)];
    assert [Wake(t, false)] + [Leave(t), Free(t)] == [Wake(t, false), Leave(t), Free(t)];
  }

  lemma NoSteps(w: World)
    ensures Runs(w, []) && After(w, []) == w
  {
  }

  lemma OneMore(w: World, s: Step, rest: seq<Step>)
    requires WellFormed(w.eng) && Enabled(w, s) && Runs(Next(w, s), rest)
    ensures Runs(w, [s] + rest) && After(w, [s] + rest) == After(Next(w, s), rest)
    ensures SafeRun(w, [s] + rest) <==> SafeStep(w, s) && SafeRun(Next(w, s), rest)
  {
    assert ([s] + rest)[1..] == rest;
  }

  /** Such worlds are reached by the first transfer of any thread. */
  lemma LinkedWorldReached(t: Id, num: nat, st: Status)
    requires num > 0
    ensures var w := World(Eng(false, false, false, 0, st, [], map[], 0), None, map[]);
            var ss := [Enter(t, 1), Build(t, num), Queue(t, false, st)];
            Runs(w, ss) && After(w, ss).eng.queue == [t]
  {
    var w := World(Eng(false, false, false, 0, st, [], map[], 0), None, map[]);
    var w1 := Next(w, Enter(t, 1));
    var w2 := Next(w1, Build(t, num));
    assert WellFormed(w.eng) && WellFormed(w1.eng) && WellFormed(w2.eng);
    assert Enabled(w, Enter(t, 1)) && Enabled(w1, Build(t, num)) && Enabled(w2, Queue(t, false, st));
    assert Next(w2, Queue(t, false, st)).eng.queue == [t];
    hide *;
    NoSteps(Next(w2, Queue(t, false, st)));
    OneMore(w2, Queue(t, false, st), []);
    OneMore(w1, Build(t, num), [Queue(t, false, st)]);
    OneMore(w, Enter(t, 1), [Build(t, num), Queue(t, false, st)]);
    assert [Queue(t, false, st)] + [] == [Queue(t, false, st)];
    assert [Build(t, num)] + [Queue(t, false, st)] == [Build(t, num), Queue(t, false, st)];
    assert [Enter(t, 1)] + [Build(t, num), Queue(t, false, st)] == [Enter(t, 1), Build(t, num), Queue(t, false, st)];
  }
}
