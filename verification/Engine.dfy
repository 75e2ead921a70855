/** The transfer queue of one XDMA engine: the critical sections of engine->lock. Every
    section is a function on the engine's state; class XdmaEngine runs the same sections on
    its fields. */
module Engine {
  import opened Words

  /** enum transfer_state. */
  datatype XferState = New | Submitted | Completed | Failed | Aborted

  /** struct xdma_transfer as far as the queue is concerned. */
  datatype Xfer = Xfer(state: XferState, descNum: nat, descCmpl: nat)

  type Id = nat

  /** The status register: the busy bit and whether a bit of the error mask of the
      engine's direction is set. */
  datatype Status = Status(busy: bool, error: bool)

  /** struct xdma_engine: request and idle are the two shutdown bits; xfers holds the
      transfer objects that queue entries point to. `starts` counts how often engine_start
      got past its guards. */
  datatype Eng = Eng(running: bool, request: bool, idle: bool, dequeued: nat, status: Status,
                     queue: seq<Id>, xfers: map<Id, Xfer>, starts: nat)

  /** What the hardware answers during one service call: the status register, the
      completed_desc_count register and the status read back by engine_start. */
  datatype Hw = Hw(status: Status, count: u32, startStatus: Status)

  ghost predicate WellFormed(e: Eng) {
    && (forall i :: 0 <= i < |e.queue| ==> e.queue[i] in e.xfers && e.xfers[e.queue[i]].descNum > 0)
    && (forall i, j :: 0 <= i < j < |e.queue| ==> e.queue[i] != e.queue[j])
  }

  // ----- critical sections -----

  /** xdma_engine_stop. */
  function Stop(e: Eng): Eng { e.(running := false) }

  /** engine_start. */
  function Start(e: Eng, st: Status): Eng {
    if e.running || e.queue == [] then e
    else e.(running := true, request := false, idle := false, dequeued := 0, status := st, starts := e.starts + 1)
  }

  /** list_del of the head, together with its final state. */
  function Retire(e: Eng, state: XferState, cmpl: nat, dequeued: nat): Eng
    requires e.queue != [] && e.queue[0] in e.xfers
  {
    var x := e.xfers[e.queue[0]];
    e.(queue := e.queue[1..], xfers := e.xfers[e.queue[0] := Xfer(state, x.descNum, cmpl)], dequeued := dequeued)
  }

  /** The loop of engine_service_transfer_list, with the count that is left. */
  function ServiceList(e: Eng, c: nat): (Eng, nat)
    requires WellFormed(e)
    decreases |e.queue|
  {
    if e.queue != [] && c > e.xfers[e.queue[0]].descNum then
      var x := e.xfers[e.queue[0]];
      ServiceList(Retire(e, Completed, x.descCmpl, e.dequeued + x.descNum), c - x.descNum)
    else (e, c)
  }

  /** engine_service_final_transfer without eop_flush. */
  function ServiceFinal(e: Eng, c: nat): Eng
    requires WellFormed(e)
  {
    if e.queue == [] then e
    else
      var x := e.xfers[e.queue[0]];
      if e.status.error then Retire(Stop(e), Failed, x.descCmpl, e.dequeued)
      else if c < x.descNum then Retire(e, Failed, c, e.dequeued + x.descNum)
      else Retire(e, Completed, x.descNum, e.dequeued + x.descNum)
  }

  /** engine_service_resume. */
  function Resume(e: Eng, st: Status): Eng {
    if !e.running then
      if e.queue != [] then Start(e, st)
      else if e.request then e.(idle := true)
      else e
    else if e.queue == [] then Stop(e)
    else e
  }

  /** The first half of engine_service: read the status and stop an engine that went idle
      or wrote back a count. */
  function ServiceStop(e: Eng, wbCount: nat, wbErr: bool, hw: Hw): Eng {
    var e1 := if wbCount == 0 || wbErr then e.(status := hw.status) else e;
    if !e1.status.busy || wbCount != 0 then Stop(e1) else e1
  }

  /** The completed-descriptor count that engine_service works with. */
  function Reported(wbCount: nat, hw: Hw): nat { if wbCount == 0 then hw.count else wbCount }

  /** engine_service. */
  function Service(e: Eng, wbCount: nat, wbErr: bool, hw: Hw): Eng
    requires WellFormed(e)
  {
    if !e.running then e.(status := hw.status)
    else
      var e1 := ServiceStop(e, wbCount, wbErr, hw);
      var count := Reported(wbCount, hw);
      if count == 0 then e1
      else
        var (e2, c) := ServiceList(e1, Wrap32(count - e1.dequeued));
        ServiceListKeeps(e1, Wrap32(count - e1.dequeued));
        Resume(ServiceFinal(e2, c), hw.startStatus)
  }

  /** transfer_queue under the lock. */
  function Enqueue(e: Eng, id: Id, st: Status): Eng
    requires id in e.xfers
  {
    if e.request then e
    else
      var e1 := e.(xfers := e.xfers[id := e.xfers[id].(state := Submitted)], queue := e.queue + [id]);
      if e1.running then e1 else Start(e1, st)
  }

  /** The timeout path of xdma_xfer_submit: transfer_abort and xdma_engine_stop. */
  function Abort(e: Eng, id: Id): Eng
    requires id in e.xfers
  {
    var e1 := if e.queue != [] && e.queue[0] == id then e.(queue := e.queue[1..]) else e;
    var e2 := if e1.xfers[id].state == Submitted then e1.(xfers := e1.xfers[id := e1.xfers[id].(state := Aborted)]) else e1;
    Stop(e2)
  }

  /** xdma_device_offline and xdma_device_online for this engine. */
  function Offline(e: Eng): Eng { Stop(e.(request := true)) }

  function Online(e: Eng): Eng { e.(request := false) }

  // ----- what a service call does to the queue -----

  function NumOf(m: map<Id, Xfer>, id: Id): nat { if id in m then m[id].descNum else 0 }

  function StateOf(m: map<Id, Xfer>, id: Id): XferState { if id in m then m[id].state else New }

  /** The descriptors of the first k queued transfers. */
  function DescSum(m: map<Id, Xfer>, q: seq<Id>, k: nat): nat
    requires k <= |q|
  {
    if k == 0 then 0 else DescSum(m, q, k - 1) + NumOf(m, q[k - 1])
  }

  /** The descriptors of those of the first k transfers that end up COMPLETED. */
  function Credited(m: map<Id, Xfer>, after: map<Id, Xfer>, q: seq<Id>, k: nat): nat
    requires k <= |q|
  {
    if k == 0 then 0
    else Credited(m, after, q, k - 1) + (if StateOf(after, q[k - 1]) == Completed then NumOf(m, q[k - 1]) else 0)
  }

  ghost predicate SameNums(m: map<Id, Xfer>, m': map<Id, Xfer>) {
    m.Keys == m'.Keys && forall id :: id in m ==> NumOf(m', id) == NumOf(m, id)
  }

  ghost predicate SameOutside(m: map<Id, Xfer>, m': map<Id, Xfer>, changed: seq<Id>) {
    m.Keys == m'.Keys && forall id :: id in m && id !in changed ==> m'[id] == m[id]
  }

  /** k transfers were taken off the head of the queue and are COMPLETED; nothing else changed. */
  ghost predicate CompletedPrefix(e: Eng, e': Eng, k: nat) {
    && k <= |e.queue| && e'.queue == e.queue[k..]
    && (forall i :: 0 <= i < k ==> StateOf(e'.xfers, e.queue[i]) == Completed)
    && SameOutside(e.xfers, e'.xfers, e.queue[..k]) && SameNums(e.xfers, e'.xfers)
    && SameControl(e, e')
  }

  ghost predicate SameControl(e: Eng, e': Eng) {
    && e'.running == e.running && e'.request == e.request && e'.idle == e.idle
    && e'.status == e.status && e'.starts == e.starts
  }

  /** Taking the head off the queue. */
  lemma RetireShape(e: Eng, state: XferState, cmpl: nat, dequeued: nat)
    requires WellFormed(e) && e.queue != []
    ensures var e' := Retire(e, state, cmpl, dequeued);
            && WellFormed(e') && e'.queue == e.queue[1..]
            && StateOf(e'.xfers, e.queue[0]) == state
            && SameOutside(e.xfers, e'.xfers, [e.queue[0]]) && SameNums(e.xfers, e'.xfers) && SameControl(e, e')
            && e.queue[0] !in e.queue[1..]
  {
  }

  lemma {:induction false} ServiceListKeeps(e: Eng, c: nat)
    requires WellFormed(e)
    ensures WellFormed(ServiceList(e, c).0)
    decreases |e.queue|
  {
    if e.queue != [] && c > e.xfers[e.queue[0]].descNum {
      var x := e.xfers[e.queue[0]];
      RetireShape(e, Completed, x.descCmpl, e.dequeued + x.descNum);
      ServiceListKeeps(Retire(e, Completed, x.descCmpl, e.dequeued + x.descNum), c - x.descNum);
    }
  }

  lemma {:induction false} DescSumShift(m: map<Id, Xfer>, m': map<Id, Xfer>, q: seq<Id>, j: nat)
    requires j < |q| && SameNums(m, m')
    ensures DescSum(m, q, j + 1) == NumOf(m, q[0]) + DescSum(m', q[1..], j)
  {
    if j == 0 {
      assert DescSum(m, q, 0) == 0;
    } else {
      DescSumShift(m, m', q, j - 1);
    }
  }

  /** The loop completes exactly the transfers whose descriptors end before the count. */
  lemma {:induction false} ServiceListContract(e: Eng, c: nat)
    requires WellFormed(e)
    ensures var (e', c') := ServiceList(e, c);
            var k := |e.queue| - |e'.queue|;
            && WellFormed(e') && 0 <= k && CompletedPrefix(e, e', k)
            && DescSum(e.xfers, e.queue, k) + c' == c && e'.dequeued + c' == e.dequeued + c
            && (k > 0 ==> c' > 0)
            && (k < |e.queue| ==> c <= DescSum(e.xfers, e.queue, k + 1))
    decreases |e.queue|
  {
    hide *;
    ServiceListKeeps(e, c);
    if e.queue == [] || c <= NumOf(e.xfers, e.queue[0]) {
      ServiceListEnd(e, c);
    } else {
      var e1, num := AfterHead(e), NumOf(e.xfers, e.queue[0]);
      ServiceListStep(e, c);
      ServiceListContract(e1, c - num);
      var k := |e1.queue| - |ServiceList(e, c).0.queue|;
      DescSumShift(e.xfers, e1.xfers, e.queue, k);
      if k < |e1.queue| {
        DescSumShift(e.xfers, e1.xfers, e.queue, k + 1);
      }
      PrefixCompose(e, e1, ServiceList(e, c).0, k);
    }
  }

  /** The engine after one turn of the loop. */
  function AfterHead(e: Eng): Eng
    requires WellFormed(e) && e.queue != []
  {
    var x := e.xfers[e.queue[0]];
    Retire(e, Completed, x.descCmpl, e.dequeued + x.descNum)
  }

  lemma ServiceListStep(e: Eng, c: nat)
    requires WellFormed(e) && e.queue != [] && c > NumOf(e.xfers, e.queue[0])
    ensures var e1 := AfterHead(e);
            && WellFormed(e1) && e1.queue == e.queue[1..] && e.queue[0] !in e.queue[1..] && e.queue[0] in e.xfers
            && StateOf(e1.xfers, e.queue[0]) == Completed
            && SameOutside(e.xfers, e1.xfers, [e.queue[0]]) && SameNums(e.xfers, e1.xfers) && SameControl(e, e1)
            && e1.dequeued == e.dequeued + NumOf(e.xfers, e.queue[0])
            && ServiceList(e, c) == ServiceList(e1, c - NumOf(e.xfers, e.queue[0]))
            && DescSum(e1.xfers, e1.queue, 0) == 0
  {
  }

  lemma ServiceListEnd(e: Eng, c: nat)
    requires WellFormed(e) && (e.queue == [] || c <= NumOf(e.xfers, e.queue[0]))
    ensures ServiceList(e, c) == (e, c) && CompletedPrefix(e, e, 0) && DescSum(e.xfers, e.queue, 0) == 0
    ensures e.queue != [] ==> DescSum(e.xfers, e.queue, 1) == NumOf(e.xfers, e.queue[0])
  {
  }

  lemma PrefixCompose(e: Eng, e1: Eng, e': Eng, k: nat)
    requires e.queue != [] && e1.queue == e.queue[1..] && e.queue[0] !in e.queue[1..] && e.queue[0] in e.xfers
    requires StateOf(e1.xfers, e.queue[0]) == Completed
    requires SameOutside(e.xfers, e1.xfers, [e.queue[0]]) && SameNums(e.xfers, e1.xfers) && SameControl(e, e1)
    requires CompletedPrefix(e1, e', k)
    ensures CompletedPrefix(e, e', k + 1)
  {
  }

  lemma {:induction false} CreditedAll(m: map<Id, Xfer>, after: map<Id, Xfer>, q: seq<Id>, k: nat)
    requires k <= |q| && forall i :: 0 <= i < k ==> StateOf(after, q[i]) == Completed
    ensures Credited(m, after, q, k) == DescSum(m, q, k)
  {
    if k > 0 {
      CreditedAll(m, after, q, k - 1);
    }
  }

  lemma {:induction false} SumsGrow(m: map<Id, Xfer>, q: seq<Id>, a: nat, b: nat)
    requires a <= b <= |q|
    ensures DescSum(m, q, a) <= DescSum(m, q, b)
  {
    if a < b {
      SumsGrow(m, q, a, b - 1);
    }
  }

  /** r transfers left queue q for count c: all but the last are COMPLETED, the transfers
      outside are untouched, and at most c descriptors are credited. */
  ghost predicate Serviced(m: map<Id, Xfer>, q: seq<Id>, m': map<Id, Xfer>, q': seq<Id>, r: nat, c: nat, error: bool) {
    && r <= |q| && q' == q[r..] && SameOutside(m, m', q[..r])
    && (forall i :: 0 <= i < r - 1 ==> StateOf(m', q[i]) == Completed)
    && LastServiced(m, q, m', r, c, error)
    && Credited(m, m', q, r) <= c
  }

  /** r is the position where the count ends, and the state of the transfer there. */
  ghost predicate LastServiced(m: map<Id, Xfer>, q: seq<Id>, m': map<Id, Xfer>, r: nat, c: nat, error: bool)
    requires r <= |q|
  {
    if c > DescSum(m, q, |q|) then
      r == |q| && (r > 0 ==> StateOf(m', q[r - 1]) == Completed)
    else if q == [] then r == 0
    else
      && r >= 1 && c <= DescSum(m, q, r) && (r == 1 || DescSum(m, q, r - 1) < c)
      && StateOf(m', q[r - 1]) == if !error && DescSum(m, q, r) == c then Completed else Failed
  }

  /** engine_service_final_transfer takes the head off the queue. Its descriptors count as
      dequeued unless the status reports an error, which also stops the engine. */
  lemma FinalShape(e: Eng, c: nat)
    requires WellFormed(e) && e.queue != []
    ensures var e' := ServiceFinal(e, c);
            var head := e.queue[0];
            && WellFormed(e') && e'.queue == e.queue[1..]
            && StateOf(e'.xfers, head) == (if !e.status.error && c >= NumOf(e.xfers, head) then Completed else Failed)
            && SameOutside(e.xfers, e'.xfers, [head]) && SameNums(e.xfers, e'.xfers)
            && e'.dequeued == e.dequeued + (if e.status.error then 0 else NumOf(e.xfers, head))
            && e'.request == e.request && e'.idle == e.idle && e'.starts == e.starts && e'.status == e.status
            && (e'.running <==> e.running && !e.status.error)
  {
    hide *;
    HeadNum(e);
    FinalCases(e, c);
    var x := e.xfers[e.queue[0]];
    RetiredCount(Stop(e), Failed, x.descCmpl, e.dequeued);
    RetiredCount(e, Failed, c, e.dequeued + x.descNum);
    RetiredCount(e, Completed, x.descNum, e.dequeued + x.descNum);
    RetireShape(Stop(e), Failed, x.descCmpl, e.dequeued);
    RetireShape(e, Failed, c, e.dequeued + x.descNum);
    RetireShape(e, Completed, x.descNum, e.dequeued + x.descNum);
    ControlKept(Stop(e), Retire(Stop(e), Failed, x.descCmpl, e.dequeued));
    ControlKept(e, Retire(e, Failed, c, e.dequeued + x.descNum));
    ControlKept(e, Retire(e, Completed, x.descNum, e.dequeued + x.descNum));
  }

  lemma HeadNum(e: Eng)
    requires WellFormed(e) && e.queue != []
    ensures e.queue[0] in e.xfers && NumOf(e.xfers, e.queue[0]) == e.xfers[e.queue[0]].descNum
    ensures Stop(e) == e.(running := false) && WellFormed(Stop(e))
  {
  }

  lemma RetiredCount(e: Eng, state: XferState, cmpl: nat, dequeued: nat)
    requires e.queue != [] && e.queue[0] in e.xfers
    ensures Retire(e, state, cmpl, dequeued).dequeued == dequeued
  {
  }

  lemma ControlKept(e: Eng, e': Eng)
    ensures SameControl(e, e') ==>
              && e'.running == e.running && e'.request == e.request && e'.idle == e.idle && e'.starts == e.starts
              && e'.status == e.status
  {
  }

  lemma FinalCases(e: Eng, c: nat)
    requires WellFormed(e) && e.queue != []
    ensures var x := e.xfers[e.queue[0]];
            ServiceFinal(e, c) ==
              if e.status.error then Retire(Stop(e), Failed, x.descCmpl, e.dequeued)
              else if c < x.descNum then Retire(e, Failed, c, e.dequeued + x.descNum)
              else Retire(e, Completed, x.descNum, e.dequeued + x.descNum)
  {
    hide Retire;
  }

  lemma LastOutcome(m: map<Id, Xfer>, q: seq<Id>, m2: map<Id, Xfer>, m3: map<Id, Xfer>, k: nat, c: nat, c2: nat, error: bool)
    requires k < |q| && q[k] in m && q[k] !in q[..k]
    requires (forall i :: 0 <= i < k ==> StateOf(m2, q[i]) == Completed)
    requires SameOutside(m, m2, q[..k]) && SameNums(m, m2) && SameOutside(m2, m3, [q[k]])
    requires StateOf(m3, q[k]) == if !error && c2 >= NumOf(m2, q[k]) then Completed else Failed
    requires DescSum(m, q, k) + c2 == c && (k > 0 ==> c2 > 0) && c <= DescSum(m, q, k + 1)
    ensures Serviced(m, q, m3, q[k + 1..], k + 1, c, error)
  {
    hide DescSum, Credited, SameNums;
    NumKept(m, m2, q[k]);
    PrefixStates(m, q, m2, m3, k);
    SumStep(m, m3, q, k);
    SumsGrow(m, q, k + 1, |q|);
    CreditedAll(m, m3, q, k);
  }

  lemma NumKept(m: map<Id, Xfer>, m': map<Id, Xfer>, id: Id)
    requires SameNums(m, m') && id in m
    ensures NumOf(m', id) == NumOf(m, id)
  {
  }

  lemma SumStep(m: map<Id, Xfer>, after: map<Id, Xfer>, q: seq<Id>, k: nat)
    requires k < |q|
    ensures DescSum(m, q, k + 1) == DescSum(m, q, k) + NumOf(m, q[k])
    ensures Credited(m, after, q, k + 1)
            == Credited(m, after, q, k) + (if StateOf(after, q[k]) == Completed then NumOf(m, q[k]) else 0)
  {
  }

  lemma PrefixStates(m: map<Id, Xfer>, q: seq<Id>, m2: map<Id, Xfer>, m3: map<Id, Xfer>, k: nat)
    requires k < |q| && q[k] !in q[..k] && (forall i :: 0 <= i < k ==> StateOf(m2, q[i]) == Completed)
    requires SameOutside(m, m2, q[..k]) && SameOutside(m2, m3, [q[k]])
    ensures SameOutside(m, m3, q[..k + 1])
    ensures forall i :: 0 <= i < k ==> StateOf(m3, q[i]) == Completed
  {
    assert q[..k + 1] == q[..k] + [q[k]];
    forall i | 0 <= i < k
      ensures StateOf(m3, q[i]) == Completed
    {
      assert q[i] in q[..k];
    }
  }

  lemma AllOutcome(m: map<Id, Xfer>, q: seq<Id>, m2: map<Id, Xfer>, c: nat, c2: nat, error: bool)
    requires forall i :: 0 <= i < |q| ==> StateOf(m2, q[i]) == Completed
    requires SameOutside(m, m2, q) && DescSum(m, q, |q|) + c2 == c && (|q| > 0 ==> c2 > 0)
    ensures Serviced(m, q, m2, [], |q|, c, error)
  {
    assert q[..|q|] == q && q[|q|..] == [];
    CreditedAll(m, m2, q, |q|);
    hide DescSum, Credited;
  }

  lemma StopKeeps(e: Eng, wbCount: nat, wbErr: bool, hw: Hw)
    requires WellFormed(e)
    ensures var e1 := ServiceStop(e, wbCount, wbErr, hw);
            WellFormed(e1) && e1.queue == e.queue && e1.xfers == e.xfers && e1.dequeued == e.dequeued
            && e1.request == e.request && e1.idle == e.idle && e1.starts == e.starts
            && e1.status == (if wbCount == 0 || wbErr then hw.status else e.status)
            && (e1.running <==> e.running && e1.status.busy && wbCount == 0)
    ensures Reported(wbCount, hw) == if wbCount == 0 then hw.count else wbCount
  {
  }

  lemma ResumeShape(e: Eng, st: Status)
    requires WellFormed(e)
    ensures var e' := Resume(e, st);
            && WellFormed(e') && e'.queue == e.queue && e'.xfers == e.xfers
            && (e'.running <==> e'.queue != [])
            && (e.queue == [] || e.running ==>
                  e'.request == e.request && e'.starts == e.starts && e'.dequeued == e.dequeued && e'.status == e.status)
            && (e.queue != [] && !e.running ==> e'.starts == e.starts + 1 && e'.dequeued == 0 && e'.status == st)
            && (e'.idle ==> e.idle || e.request)
  {
  }

  /** The last step of engine_service: the final transfer and the restart. */
  lemma FinalOutcome(e: Eng, e1: Eng, c: nat)
    requires WellFormed(e) && WellFormed(e1) && e1.queue == e.queue && e1.xfers == e.xfers
    ensures WellFormed(ServiceList(e1, c).0)
    ensures var e3 := ServiceFinal(ServiceList(e1, c).0, ServiceList(e1, c).1);
            WellFormed(e3) && |e3.queue| <= |e.queue| && Finished(e, e1, e3, c)
  {
    hide *;
    ServiceListContract(e1, c);
    var e2, c2 := ServiceList(e1, c).0, ServiceList(e1, c).1;
    if e2.queue == [] {
      FinishedAll(e, e1, e2, c, c2);
    } else {
      FinishedHere(e, e1, e2, c, c2);
    }
  }

  /** What the list loop and the final transfer leave. */
  ghost predicate Finished(e: Eng, e1: Eng, e3: Eng, c: nat)
    requires |e3.queue| <= |e.queue|
  {
    var retired := |e.queue| - |e3.queue|;
    && Serviced(e.xfers, e.queue, e3.xfers, e3.queue, retired, c, e1.status.error)
    && e3.starts == e1.starts && e3.status == e1.status
    && (e3.queue != [] ==>
          && (e3.running <==> e1.running && !e1.status.error)
          && (!e1.status.error ==> e3.dequeued == e1.dequeued + DescSum(e.xfers, e.queue, retired)))
  }

  lemma FinishedAll(e: Eng, e1: Eng, e2: Eng, c: nat, c2: nat)
    requires e1.queue == e.queue && e1.xfers == e.xfers && WellFormed(e2) && e2.queue == []
    requires CompletedPrefix(e1, e2, |e.queue|)
    requires DescSum(e.xfers, e.queue, |e.queue|) + c2 == c && (|e.queue| > 0 ==> c2 > 0)
    ensures ServiceFinal(e2, c2) == e2 && Finished(e, e1, e2, c)
  {
    hide Serviced, DescSum, WellFormed;
    assert e.queue[..|e.queue|] == e.queue;
    AllOutcome(e.xfers, e.queue, e2.xfers, c, c2, e1.status.error);
  }

  lemma FinishedHere(e: Eng, e1: Eng, e2: Eng, c: nat, c2: nat)
    requires WellFormed(e) && e1.queue == e.queue && e1.xfers == e.xfers && WellFormed(e2) && e2.queue != []
    requires |e2.queue| <= |e.queue| && CompletedPrefix(e1, e2, |e.queue| - |e2.queue|)
    requires var k := |e.queue| - |e2.queue|;
             && DescSum(e.xfers, e.queue, k) + c2 == c && e2.dequeued + c2 == e1.dequeued + c && (k > 0 ==> c2 > 0)
             && c <= DescSum(e.xfers, e.queue, k + 1)
    ensures var e3 := ServiceFinal(e2, c2); WellFormed(e3) && |e3.queue| <= |e.queue| && Finished(e, e1, e3, c)
  {
    hide *;
    var k := |e.queue| - |e2.queue|;
    NextHead(e, e1, e2);
    FinalShape(e2, c2);
    FinishedMeans(e, e1, ServiceFinal(e2, c2), c);
    NumKept(e.xfers, e2.xfers, e.queue[k]);
    SumStep(e.xfers, e2.xfers, e.queue, k);
    LastOutcome(e.xfers, e.queue, e2.xfers, ServiceFinal(e2, c2).xfers, k, c, c2, e1.status.error);
  }

  lemma NextHead(e: Eng, e1: Eng, e2: Eng)
    requires WellFormed(e) && e1.queue == e.queue && e1.xfers == e.xfers && e2.queue != [] && |e2.queue| <= |e.queue|
    requires CompletedPrefix(e1, e2, |e.queue| - |e2.queue|)
    ensures var k := |e.queue| - |e2.queue|;
            && e2.queue[0] == e.queue[k] && e2.queue[1..] == e.queue[k + 1..] && e.queue[k] !in e.queue[..k]
            && e.queue[k] in e.xfers
            && (forall i :: 0 <= i < k ==> StateOf(e2.xfers, e.queue[i]) == Completed)
            && SameOutside(e.xfers, e2.xfers, e.queue[..k]) && SameNums(e.xfers, e2.xfers)
            && e2.status == e1.status && e2.starts == e1.starts && e2.running == e1.running
  {
    hide SameOutside, SameNums, StateOf;
  }

  lemma FinishedMeans(e: Eng, e1: Eng, e3: Eng, c: nat)
    requires |e3.queue| <= |e.queue|
    ensures var retired := |e.queue| - |e3.queue|;
            Finished(e, e1, e3, c) <==>
              && Serviced(e.xfers, e.queue, e3.xfers, e3.queue, retired, c, e1.status.error)
              && e3.starts == e1.starts && e3.status == e1.status
              && (e3.queue != [] ==>
                    && (e3.running <==> e1.running && !e1.status.error)
                    && (!e1.status.error ==> e3.dequeued == e1.dequeued + DescSum(e.xfers, e.queue, retired)))
  {
    hide Serviced, DescSum;
  }

  /** engine_service on a running engine that sees a non-zero count: a prefix of the queue
      leaves it, up to the first transfer that the count does not pass; all of them are
      COMPLETED except possibly the last, no more descriptors are credited than were
      reported beyond those already dequeued, and the engine runs on exactly when transfers
      are left. It was started again for them, with nothing dequeued, if it had gone idle,
      written back a count or reported an error; otherwise the descriptors of the retired
      transfers are added to the dequeued ones. */
  lemma ServiceContract(e: Eng, wbCount: nat, wbErr: bool, hw: Hw)
    requires WellFormed(e) && e.running && (if wbCount == 0 then hw.count else wbCount) != 0
    ensures var e' := Service(e, wbCount, wbErr, hw);
            var count := if wbCount == 0 then hw.count else wbCount;
            var seen := if wbCount == 0 || wbErr then hw.status else e.status;
            var retired := |e.queue| - |e'.queue|;
            && WellFormed(e') && retired >= 0
            && Serviced(e.xfers, e.queue, e'.xfers, e'.queue, retired, Wrap32(count - e.dequeued), seen.error)
            && (e'.running <==> e'.queue != [])
            && if e'.queue != [] && (!seen.busy || wbCount != 0 || seen.error) then
                 e'.starts == e.starts + 1 && e'.dequeued == 0 && e'.status == hw.startStatus
               else
                 && e'.starts == e.starts && e'.status == seen
                 && (e'.queue != [] ==> e'.dequeued == e.dequeued + DescSum(e.xfers, e.queue, retired))
  {
    hide *;
    var e1 := ServiceStop(e, wbCount, wbErr, hw);
    StopKeeps(e, wbCount, wbErr, hw);
    var c := Wrap32(Reported(wbCount, hw) - e.dequeued);
    FinalOutcome(e, e1, c);
    FinishedMeans(e, e1, ServiceFinal(ServiceList(e1, c).0, ServiceList(e1, c).1), c);
    ServiceUnfold(e, wbCount, wbErr, hw);
    ResumeShape(ServiceFinal(ServiceList(e1, c).0, ServiceList(e1, c).1), hw.startStatus);
  }

  lemma ServiceUnfold(e: Eng, wbCount: nat, wbErr: bool, hw: Hw)
    requires WellFormed(e) && e.running && Reported(wbCount, hw) != 0
    requires WellFormed(ServiceStop(e, wbCount, wbErr, hw))
    ensures var e1 := ServiceStop(e, wbCount, wbErr, hw);
            var r := ServiceList(e1, Wrap32(Reported(wbCount, hw) - e.dequeued));
            WellFormed(r.0) && Service(e, wbCount, wbErr, hw) == Resume(ServiceFinal(r.0, r.1), hw.startStatus)
  {
    ServiceListKeeps(ServiceStop(e, wbCount, wbErr, hw), Wrap32(Reported(wbCount, hw) - e.dequeued));
    hide ServiceList, ServiceFinal, Resume, Wrap32, WellFormed;
  }

  /** A zero count leaves the queue alone; a running engine is then found running with
      transfers queued, or stopped without any, exactly when its busy bit agrees. So the
      rule "running if and only if transfers are queued" survives a service call exactly
      when the count is not zero or the busy bit tells whether transfers are queued. */
  lemma RunningIffQueued(e: Eng, wbCount: nat, wbErr: bool, hw: Hw)
    requires WellFormed(e) && e.running
    ensures var e' := Service(e, wbCount, wbErr, hw);
            var count := if wbCount == 0 then hw.count else wbCount;
            (e'.running <==> e'.queue != []) <==> (count != 0 || (hw.status.busy <==> e.queue != []))
    ensures wbCount == 0 && hw.count == 0 ==>
              var e' := Service(e, wbCount, wbErr, hw); e'.queue == e.queue && e'.xfers == e.xfers
  {
  }

  // ----- the shutdown bits during a service call -----

  lemma ListControl(e: Eng, c: nat)
    requires WellFormed(e)
    ensures var e' := ServiceList(e, c).0;
            WellFormed(e') && e'.request == e.request && e'.idle == e.idle && (e'.running ==> e.running)
  {
    ServiceListContract(e, c);
    hide ServiceList, WellFormed, SameOutside, SameNums, DescSum;
  }

  lemma FinalControl(e: Eng, c: nat)
    requires WellFormed(e)
    ensures var e' := ServiceFinal(e, c); e'.request == e.request && e'.idle == e.idle
  {
  }

  /** A service call that is entered without a shutdown request leaves both shutdown bits
      clear: the branch that acknowledges a request is not reached. */
  lemma ServiceControl(e: Eng, wbCount: nat, wbErr: bool, hw: Hw)
    requires WellFormed(e) && e.running && !e.request && !e.idle
    ensures var e' := Service(e, wbCount, wbErr, hw); WellFormed(e') && !e'.request && !e'.idle
  {
    StopKeeps(e, wbCount, wbErr, hw);
    if Reported(wbCount, hw) != 0 {
      var e1 := ServiceStop(e, wbCount, wbErr, hw);
      hide *;
      var c := Wrap32(Reported(wbCount, hw) - e.dequeued);
      ServiceContract(e, wbCount, wbErr, hw);
      ServiceUnfold(e, wbCount, wbErr, hw);
      ListControl(e1, c);
      FinalControl(ServiceList(e1, c).0, ServiceList(e1, c).1);
      ResumeControl(ServiceFinal(ServiceList(e1, c).0, ServiceList(e1, c).1), hw.startStatus);
    } else {
      hide WellFormed;
    }
  }

  lemma ResumeControl(e: Eng, st: Status)
    requires !e.request && !e.idle
    ensures !Resume(e, st).request && !Resume(e, st).idle
  {
  }

  lemma ServiceKeepsWellFormed(e: Eng, wbCount: nat, wbErr: bool, hw: Hw)
    requires WellFormed(e)
    ensures WellFormed(Service(e, wbCount, wbErr, hw))
  {
    if e.running && Reported(wbCount, hw) != 0 {
      hide *;
      ServiceContract(e, wbCount, wbErr, hw);
    }
  }

  lemma EnqueueKeepsWellFormed(e: Eng, id: Id, num: nat, st: Status)
    requires WellFormed(e) && id !in e.queue && num > 0
    ensures WellFormed(Enqueue(e.(xfers := e.xfers[id := Xfer(New, num, 0)]), id, st))
  {
  }

  lemma AbortKeepsWellFormed(e: Eng, id: Id)
    requires WellFormed(e) && id in e.xfers
    ensures WellFormed(Abort(e, id))
  {
  }

  lemma ServiceKeepsNums(e: Eng, wbCount: nat, wbErr: bool, hw: Hw)
    requires WellFormed(e)
    ensures SameNums(e.xfers, Service(e, wbCount, wbErr, hw).xfers)
  {
    if e.running && Reported(wbCount, hw) != 0 {
      var e1 := ServiceStop(e, wbCount, wbErr, hw);
      StopKeeps(e, wbCount, wbErr, hw);
      hide *;
      var c := Wrap32(Reported(wbCount, hw) - e.dequeued);
      ServiceUnfold(e, wbCount, wbErr, hw);
      ListNums(e1, c);
      FinalNums(ServiceList(e1, c).0, ServiceList(e1, c).1);
      ResumeShape(ServiceFinal(ServiceList(e1, c).0, ServiceList(e1, c).1), hw.startStatus);
      SameNumsTransitive(e.xfers, ServiceList(e1, c).0.xfers, Service(e, wbCount, wbErr, hw).xfers);
    }
  }

  lemma ListNums(e: Eng, c: nat)
    requires WellFormed(e)
    ensures WellFormed(ServiceList(e, c).0) && SameNums(e.xfers, ServiceList(e, c).0.xfers)
  {
    ServiceListContract(e, c);
    hide ServiceList, WellFormed, SameNums, DescSum;
  }

  lemma FinalNums(e: Eng, c: nat)
    requires WellFormed(e)
    ensures WellFormed(ServiceFinal(e, c)) && SameNums(e.xfers, ServiceFinal(e, c).xfers)
  {
    if e.queue != [] {
      hide *;
      FinalShape(e, c);
    }
  }

  lemma SameNumsTransitive(a: map<Id, Xfer>, b: map<Id, Xfer>, c: map<Id, Xfer>)
    requires SameNums(a, b) && SameNums(b, c)
    ensures SameNums(a, c)
  {
  }
}
