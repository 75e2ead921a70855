/** Where the verdicts of the submit loop come from: the state in which a service call leaves
    the one transfer a synchronous submitter has queued. */
module Verdicts {
  import opened Words
  import opened Engine
  import Submit
  import Submitters

  /** The switch on xfer->state after the wait; `moved` is what the hardware got done. */
  function VerdictOf(state: XferState, moved: nat): Submit.Verdict {
    match state
    case Completed => Submit.Completed
    case Failed => Submit.Failed(moved)
    case _ => Submit.TimedOut(moved)
  }

  /** A service call that sees a non-zero count retires the only queued transfer, and the
      submitter finds it completed exactly when the count passes its descriptors, or equals
      them without an error in the status. */
  lemma ServiceVerdict(e: Eng, t: Id, wbCount: nat, wbErr: bool, hw: Hw, moved: nat)
    requires WellFormed(e) && e.running && e.queue == [t] && (if wbCount == 0 then hw.count else wbCount) != 0
    ensures var e' := Service(e, wbCount, wbErr, hw);
            var c := Wrap32((if wbCount == 0 then hw.count else wbCount) - e.dequeued);
            var error := (if wbCount == 0 || wbErr then hw.status else e.status).error;
            && e'.queue == []
            && VerdictOf(StateOf(e'.xfers, t), moved) ==
               if c > NumOf(e.xfers, t) || (c == NumOf(e.xfers, t) && !error) then Submit.Completed else Submit.Failed(moved)
  {
    ServiceContract(e, wbCount, wbErr, hw);
    OneSum(e.xfers, t);
    hide Service, WellFormed, DescSum, Credited, SameOutside, Wrap32;
    var e' := Service(e, wbCount, wbErr, hw);
    assert LastServiced(e.xfers, e.queue, e'.xfers, |e.queue| - |e'.queue|,
                        Wrap32((if wbCount == 0 then hw.count else wbCount) - e.dequeued),
                        (if wbCount == 0 || wbErr then hw.status else e.status).error);
  }

  lemma OneSum(m: map<Id, Xfer>, t: Id)
    ensures DescSum(m, [t], 1) == NumOf(m, t) && DescSum(m, [t], 0) == 0
  {
  }

  /** Over every interleaving of submitters from an idle engine, with hardware that reports
      how many descriptors of the linked transfer are done, in its register or written back: a
      completed verdict means that all of them are, without an error. */
  lemma CompletedMeansAllDone(w: Submitters.World, ss: seq<Submitters.Step>, t: Id, done: u32, wbCount: nat, wbErr: bool,
                              hw: Hw, moved: nat)
    requires Submitters.Inv(w) && Submitters.Fresh(w) && Submitters.Runs(w, ss) && Submitters.ReadableRun(w, ss)
    requires var e := Submitters.After(w, ss).eng;
             && e.running && e.queue == [t] && 0 < done <= NumOf(e.xfers, t)
             && done == if wbCount == 0 then hw.count else wbCount
    ensures var e := Submitters.After(w, ss).eng;
            && WellFormed(e)
            && var error := (if wbCount == 0 || wbErr then hw.status else e.status).error;
               VerdictOf(StateOf(Service(e, wbCount, wbErr, hw).xfers, t), moved) == Submit.Completed
               <==> done == NumOf(e.xfers, t) && !error
  {
    hide *;
    Submitters.FreshAlways(w, ss);
    var w' := Submitters.After(w, ss);
    FreshMeans(w');
    AllDone(w'.eng, t, done, wbCount, wbErr, hw, moved);
  }

  lemma AllDone(e: Eng, t: Id, done: u32, wbCount: nat, wbErr: bool, hw: Hw, moved: nat)
    requires WellFormed(e) && e.dequeued == 0
    requires e.running && e.queue == [t] && 0 < done <= NumOf(e.xfers, t) && done == if wbCount == 0 then hw.count else wbCount
    ensures var error := (if wbCount == 0 || wbErr then hw.status else e.status).error;
            VerdictOf(StateOf(Service(e, wbCount, wbErr, hw).xfers, t), moved) == Submit.Completed
            <==> done == NumOf(e.xfers, t) && !error
  {
    hide Service, WellFormed, StateOf;
    ServiceVerdict(e, t, wbCount, wbErr, hw, moved);
    assert Wrap32(done - 0) == done;
  }

  lemma FreshMeans(w: Submitters.World)
    requires Submitters.Inv(w) && Submitters.Fresh(w) && w.eng.running
    ensures WellFormed(w.eng) && w.eng.dequeued == 0
  {
  }

  /** No service call and no abort: the submitter that wakes up finds the transfer SUBMITTED
      and times out. A zero count is no service either. */
  lemma ZeroCountTimesOut(e: Eng, t: Id, wbErr: bool, hw: Hw, moved: nat)
    requires WellFormed(e) && e.running && e.queue == [t] && StateOf(e.xfers, t) == Submitted && hw.count == 0
    ensures VerdictOf(StateOf(Service(e, 0, wbErr, hw).xfers, t), moved) == Submit.TimedOut(moved)
  {
  }
}
