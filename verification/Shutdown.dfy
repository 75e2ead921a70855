/** Shutdown safety: any interleaving of the critical sections of engine->lock, by any
    number of submitters, service calls, timeouts and offline/online calls. */
module Shutdown {
  import opened Engine

  /** One critical section. `Submit` covers transfer_queue for a transfer object that
      transfer_init has just reset (so it is not linked). */
  datatype Section =
    | Submit(id: Id, num: nat, st: Status)
    | Serve(wbCount: nat, wbErr: bool, hw: Hw)
    | TimeOut(id: Id)
    | GoOffline
    | GoOnline

  predicate Enabled(e: Eng, s: Section) {
    match s
    case Submit(id, num, _) => id !in e.queue && num > 0
    case TimeOut(id) => id in e.xfers
    case _ => true
  }

  function Step(e: Eng, s: Section): (e': Eng)
    requires WellFormed(e) && Enabled(e, s)
    ensures WellFormed(e')
  {
    match s
    case Submit(id, num, st) =>
      EnqueueKeepsWellFormed(e, id, num, st);
      Enqueue(e.(xfers := e.xfers[id := Xfer(New, num, 0)]), id, st)
    case Serve(wbCount, wbErr, hw) =>
      ServiceKeepsWellFormed(e, wbCount, wbErr, hw);
      Service(e, wbCount, wbErr, hw)
    case TimeOut(id) =>
      AbortKeepsWellFormed(e, id);
      Abort(e, id)
    case GoOffline => Offline(e)
    case GoOnline => Online(e)
  }

  /** A sequence of sections that can run from e, one after the other. */
  ghost predicate Runs(e: Eng, ss: seq<Section>)
    requires WellFormed(e)
    decreases |ss|
  {
    ss == [] || (Enabled(e, ss[0]) && Runs(Step(e, ss[0]), ss[1..]))
  }

  ghost function After(e: Eng, ss: seq<Section>): (e': Eng)
    requires WellFormed(e) && Runs(e, ss)
    ensures WellFormed(e')
    decreases |ss|
  {
    if ss == [] then e else After(Step(e, ss[0]), ss[1..])
  }

  ghost predicate Inv(e: Eng) {
    WellFormed(e) && (e.request ==> !e.running) && !e.idle
  }

  lemma ServeKeeps(e: Eng, wbCount: nat, wbErr: bool, hw: Hw)
    requires Inv(e)
    ensures Inv(Service(e, wbCount, wbErr, hw))
    ensures !e.running ==> Service(e, wbCount, wbErr, hw) == e.(status := hw.status)
  {
    if e.running {
      hide Service, WellFormed;
      ServiceControl(e, wbCount, wbErr, hw);
    }
  }

  lemma StepKeeps(e: Eng, s: Section)
    requires Inv(e) && Enabled(e, s)
    ensures Inv(Step(e, s))
  {
    match s
    case Serve(wbCount, wbErr, hw) =>
      ServeKeeps(e, wbCount, wbErr, hw);
    case _ =>
      hide Service, WellFormed;
  }

  /** Over every run from an idle engine, a shutdown request excludes a running engine and
      the IDLE bit is never set. */
  lemma {:induction false} ShutdownInvariant(e: Eng, ss: seq<Section>)
    requires Inv(e) && Runs(e, ss)
    ensures Inv(After(e, ss))
    decreases |ss|
  {
    if ss != [] {
      StepKeeps(e, ss[0]);
      hide Step, Inv, WellFormed, Enabled;
      ShutdownInvariant(Step(e, ss[0]), ss[1..]);
    }
  }

  /** Nothing started between e and e': the request is set and the engine stopped in both,
      engine_start was not entered, and the queue lost at most some of its first entries. */
  ghost predicate Quiet(e: Eng, e': Eng) {
    && e.request && !e.running && !e.idle && e'.request && !e'.running && !e'.idle
    && e'.starts == e.starts
    && |e'.queue| <= |e.queue| && e'.queue == e.queue[|e.queue| - |e'.queue|..]
  }

  lemma QuietTransitive(a: Eng, b: Eng, c: Eng)
    requires Quiet(a, b) && Quiet(b, c)
    ensures Quiet(a, c)
  {
    var d := |a.queue| - |b.queue|;
    assert a.queue[d..][|b.queue| - |c.queue|..] == a.queue[|a.queue| - |c.queue|..];
  }

  lemma StepWhileShuttingDown(e: Eng, s: Section)
    requires Inv(e) && e.request && Enabled(e, s) && s != GoOnline
    ensures Quiet(e, Step(e, s))
  {
    match s
    case Serve(wbCount, wbErr, hw) =>
      ServeKeeps(e, wbCount, wbErr, hw);
      hide Service;
    case _ =>
      hide Service;
  }

  /** While the request is set, whatever sections run besides online: nothing starts. */
  lemma {:induction false} NothingStartsWhileShuttingDown(e: Eng, ss: seq<Section>)
    requires Inv(e) && e.request && Runs(e, ss)
    requires forall i :: 0 <= i < |ss| ==> ss[i] != GoOnline
    ensures Quiet(e, After(e, ss))
    decreases |ss|
  {
    if ss == [] {
      assert e.queue[0..] == e.queue;
    } else {
      var e1 := Step(e, ss[0]);
      assert Enabled(e, ss[0]) && Runs(e1, ss[1..]) && After(e, ss) == After(e1, ss[1..]);
      StepWhileShuttingDown(e, ss[0]);
      assert e1.request;
      hide *;
      StepKeeps(e, ss[0]);
      NothingStartsWhileShuttingDown(e1, ss[1..]);
      QuietTransitive(e, e1, After(e, ss));
    }
  }

  /** From the section in which offline sets the request until online clears it, over every
      interleaving: the request stays set and the engine stays stopped, engine_start is
      never entered, no transfer joins the queue, and the IDLE bit is not set. */
  lemma ShutdownWindow(e: Eng, before: seq<Section>, window: seq<Section>)
    requires Inv(e) && Runs(e, before) && Runs(Step(After(e, before), GoOffline), window)
    requires forall i :: 0 <= i < |window| ==> window[i] != GoOnline
    ensures Quiet(Step(After(e, before), GoOffline), After(Step(After(e, before), GoOffline), window))
    ensures Step(After(e, before), GoOffline).queue == After(e, before).queue
    ensures Step(After(e, before), GoOffline).starts == After(e, before).starts
  {
    ShutdownInvariant(e, before);
    StepKeeps(After(e, before), GoOffline);
    hide After, Runs;
    NothingStartsWhileShuttingDown(Step(After(e, before), GoOffline), window);
  }
}
