/** The engine as an object: the critical sections of engine->lock on mutable fields, each
    proved to be the corresponding function on the engine's state. */
module XdmaEngineObject {
  import opened Codes
  import opened Words
  import opened Engine
  import Shutdown

  class XdmaEngine {
    var running: bool
    var shutdownRequest: bool
    var shutdownIdle: bool
    var descDequeued: nat
    var status: Status
    var transferList: seq<Id>
    var transfers: map<Id, Xfer>
    ghost var starts: nat

    ghost function View(): Eng
      reads this
    {
      Eng(running, shutdownRequest, shutdownIdle, descDequeued, status, transferList, transfers, starts)
    }

    constructor (st: Status)
      ensures View() == Eng(false, false, false, 0, st, [], map[], 0)
    {
      running, shutdownRequest, shutdownIdle, descDequeued, status := false, false, false, 0, st;
      transferList, transfers, starts := [], map[], 0;
    }

    method EngineStop()
      modifies this
      ensures View() == Stop(old(View()))
    {
      running := false;
    }

    /** engine_start: fails on a running engine or an empty queue. */
    method EngineStart(st: Status) returns (started: bool)
      modifies this
      ensures View() == Start(old(View()), st)
      ensures started <==> !old(running) && old(transferList) != []
      ensures started ==>
                && running && !shutdownRequest && !shutdownIdle && descDequeued == 0 && status == st
                && starts == old(starts) + 1 && transferList == old(transferList) && transfers == old(transfers)
      ensures !started ==> View() == old(View())
    {
      if running {
        return false;
      }
      if transferList == [] {
        return false;
      }
      shutdownRequest, shutdownIdle := false, false;
      descDequeued := 0;
      status := st;
      running := true;
      starts := starts + 1;
      return true;
    }

    method RetireHead(state: XferState, cmpl: nat, dequeued: nat)
      requires transferList != [] && transferList[0] in transfers
      modifies this
      ensures View() == Retire(old(View()), state, cmpl, dequeued)
      ensures transferList == old(transferList[1..]) && descDequeued == dequeued
      ensures var head := old(transferList[0]);
              transfers == old(transfers)[head := Xfer(state, old(transfers)[head].descNum, cmpl)]
      ensures running == old(running) && status == old(status) && starts == old(starts)
      ensures shutdownRequest == old(shutdownRequest) && shutdownIdle == old(shutdownIdle)
    {
      var head := transferList[0];
      transfers := transfers[head := Xfer(state, transfers[head].descNum, cmpl)];
      transferList := transferList[1..];
      descDequeued := dequeued;
    }

    /** engine_service_transfer_list. */
    method ServiceTransferList(descCompleted: nat) returns (left: nat)
      requires WellFormed(View())
      modifies this
      ensures (View(), left) == ServiceList(old(View()), descCompleted)
      ensures WellFormed(View())
    {
      left := descCompleted;
      while transferList != [] && left > transfers[transferList[0]].descNum
        invariant WellFormed(View())
        invariant ServiceList(View(), left) == ServiceList(old(View()), descCompleted)
        decreases |transferList|
      {
        var x := transfers[transferList[0]];
        RetireShape(View(), Completed, x.descCmpl, descDequeued + x.descNum);
        left := left - x.descNum;
        RetireHead(Completed, x.descCmpl, descDequeued + x.descNum);
      }
    }

    /** engine_service_final_transfer. */
    method ServiceFinalTransfer(descCompleted: nat)
      requires WellFormed(View())
      modifies this
      ensures View() == ServiceFinal(old(View()), descCompleted)
      ensures old(transferList) == [] ==> View() == old(View())
      ensures old(transferList) != [] ==>
                var head := old(transferList[0]);
                var x := old(transfers)[head];
                && transferList == old(transferList[1..])
                && running == (old(running) && !status.error)
                && transfers == old(transfers)[head :=
                     if status.error then Xfer(Failed, x.descNum, x.descCmpl)
                     else if descCompleted < x.descNum then Xfer(Failed, x.descNum, descCompleted)
                     else Xfer(Completed, x.descNum, x.descNum)]
                && descDequeued == old(descDequeued) + (if status.error then 0 else x.descNum)
                && status == old(status) && starts == old(starts)
                && shutdownRequest == old(shutdownRequest) && shutdownIdle == old(shutdownIdle)
    {
      if transferList == [] {
        return;
      }
      var x := transfers[transferList[0]];
      if status.error {
        EngineStop();
        RetireHead(Failed, x.descCmpl, descDequeued);
      } else if descCompleted < x.descNum {
        RetireHead(Failed, descCompleted, descDequeued + x.descNum);
      } else {
        RetireHead(Completed, x.descNum, descDequeued + x.descNum);
      }
    }

    /** engine_service_resume. */
    method ServiceResume(st: Status)
      modifies this
      ensures View() == Resume(old(View()), st)
      ensures transferList == old(transferList) && transfers == old(transfers) && (running <==> transferList != [])
      ensures !old(running) && transferList != [] ==> starts == old(starts) + 1 && descDequeued == 0 && status == st
      ensures old(running) || transferList == [] ==>
                starts == old(starts) && descDequeued == old(descDequeued) && status == old(status)
      ensures !old(running) && transferList == [] ==>
                shutdownRequest == old(shutdownRequest) && shutdownIdle == (old(shutdownIdle) || shutdownRequest)
    {
      if !running {
        if transferList != [] {
          var started := EngineStart(st);
        } else if shutdownRequest {
          shutdownIdle := true;
        }
      } else if transferList == [] {
        EngineStop();
      }
    }

    /** engine_service without eop_flush and without a performance run. */
    method EngineService(wbCount: nat, wbErr: bool, hw: Hw) returns (rv: int)
      requires WellFormed(View())
      modifies this
      ensures View() == Service(old(View()), wbCount, wbErr, hw)
      ensures rv == if old(running) && wbErr then -1 else 0
    {
      hide ServiceList, ServiceFinal, Resume, WellFormed, Wrap32;
      var descCount := wbCount;
      if !running {
        status := hw.status;
        return 0;
      }
      if descCount == 0 || wbErr {
        status := hw.status;
      }
      if !status.busy || descCount != 0 {
        EngineStop();
      }
      StopKeeps(old(View()), wbCount, wbErr, hw);
      if descCount == 0 {
        descCount := hw.count;
      }
      if descCount != 0 {
        descCount := Wrap32(descCount - descDequeued);
        descCount := ServiceTransferList(descCount);
        ServiceFinalTransfer(descCount);
        ServiceResume(hw.startStatus);
      }
      rv := if wbErr then -1 else 0;
    }

    /** transfer_queue, with the device's offline flag as it was read before the lock. */
    method TransferQueue(id: Id, offline: bool, st: Status) returns (rv: int)
      requires id in transfers
      modifies this
      ensures old(transfers[id].descNum) == 0 ==> rv == -EINVAL && View() == old(View())
      ensures old(transfers[id].descNum) > 0 && offline ==> rv == -EBUSY && View() == old(View())
      ensures old(transfers[id].descNum) > 0 && !offline ==>
                View() == Enqueue(old(View()), id, st) && rv == if old(shutdownRequest) then -EBUSY else 0
      ensures rv != 0 ==> View() == old(View())
      ensures rv == 0 ==>
                && running && !shutdownRequest
                && transferList == old(transferList) + [id]
                && transfers == old(transfers)[id := old(transfers)[id].(state := Submitted)]
                && (!old(running) ==> starts == old(starts) + 1 && descDequeued == 0 && status == st && !shutdownIdle)
                && (old(running) ==> starts == old(starts) && descDequeued == old(descDequeued) && status == old(status))
    {
      if transfers[id].descNum == 0 {
        return -EINVAL;
      }
      if offline {
        return -EBUSY;
      }
      if shutdownRequest {
        return -EBUSY;
      }
      transfers := transfers[id := transfers[id].(state := Submitted)];
      transferList := transferList + [id];
      if !running {
        var started := EngineStart(st);
      }
      return 0;
    }

    /** The timeout path of xdma_xfer_submit: transfer_abort, then xdma_engine_stop. */
    method AbortAndStop(id: Id)
      requires id in transfers
      modifies this
      ensures View() == Abort(old(View()), id)
      ensures !running
      ensures transferList
              == if old(transferList) != [] && old(transferList[0]) == id then old(transferList)[1..] else old(transferList)
      ensures transfers
              == if old(transfers)[id].state == Submitted then old(transfers)[id := old(transfers)[id].(state := Aborted)]
                 else old(transfers)
      ensures shutdownRequest == old(shutdownRequest) && shutdownIdle == old(shutdownIdle) && starts == old(starts)
    {
      if transferList != [] && transferList[0] == id {
        transferList := transferList[1..];
      }
      if transfers[id].state == Submitted {
        transfers := transfers[id := transfers[id].(state := Aborted)];
      }
      EngineStop();
    }

    /** The engine's part of xdma_device_offline and xdma_device_online. */
    method GoOffline()
      modifies this
      ensures View() == Offline(old(View()))
      ensures shutdownRequest && !running
      ensures transferList == old(transferList) && transfers == old(transfers) && starts == old(starts)
    {
      shutdownRequest := true;
      EngineStop();
    }

    method GoOnline()
      modifies this
      ensures View() == Online(old(View()))
      ensures !shutdownRequest && running == old(running)
      ensures transferList == old(transferList) && transfers == old(transfers) && starts == old(starts)
    {
      shutdownRequest := false;
    }

    /** One critical section of a schedule, on the fields. */
    method RunSection(s: Shutdown.Section)
      requires WellFormed(View()) && Shutdown.Enabled(View(), s)
      modifies this
      ensures WellFormed(View()) && View() == Shutdown.Step(old(View()), s)
    {
      hide Service, Enqueue, Abort, Offline, Online, WellFormed;
      ghost var after := Shutdown.Step(View(), s);
      assert WellFormed(after);
      match s
      case Submit(id, num, st) =>
        transfers := transfers[id := Xfer(New, num, 0)];
        var rv := TransferQueue(id, false, st);
      case Serve(wbCount, wbErr, hw) =>
        var rv := EngineService(wbCount, wbErr, hw);
      case TimeOut(id) =>
        AbortAndStop(id);
      case GoOffline =>
        GoOffline();
      case GoOnline =>
        GoOnline();
    }

    /** Any schedule of critical sections, run on the fields one after the other. */
    method RunSections(ss: seq<Shutdown.Section>)
      requires WellFormed(View()) && Shutdown.Runs(View(), ss)
      modifies this
      ensures WellFormed(View()) && View() == Shutdown.After(old(View()), ss)
      ensures Shutdown.Inv(old(View())) ==> Shutdown.Inv(View())
    {
      hide WellFormed, Shutdown.Step, Shutdown.Enabled, Shutdown.Inv;
      ghost var start := View();
      if Shutdown.Inv(start) {
        Shutdown.ShutdownInvariant(start, ss);
      }
      assert ss[0..] == ss;
      for i := 0 to |ss|
        invariant WellFormed(View()) && Shutdown.Runs(View(), ss[i..])
        invariant Shutdown.After(View(), ss[i..]) == Shutdown.After(start, ss)
      {
        assert ss[i..][0] == ss[i] && ss[i..][1..] == ss[i + 1..];
        RunSection(ss[i]);
      }
      assert ss[|ss|..] == [];
    }

    /** The engine between offline and online, whatever happened before and whatever other
        sections run meanwhile: it is stopped and stays so, the request is not erased, no
        start is attempted with success, and the list only loses entries at its front. */
    method OfflineWindow(before: seq<Shutdown.Section>, window: seq<Shutdown.Section>)
      requires WellFormed(View()) && Shutdown.Inv(View()) && Shutdown.Runs(View(), before)
      requires Shutdown.Runs(Shutdown.Step(Shutdown.After(View(), before), Shutdown.GoOffline), window)
      requires forall i :: 0 <= i < |window| ==> window[i] != Shutdown.GoOnline
      modifies this
      ensures shutdownRequest && !shutdownIdle && !running
      ensures var offline := Shutdown.After(old(View()), before);
              && starts == offline.starts
              && |transferList| <= |offline.queue|
              && transferList == offline.queue[|offline.queue| - |transferList|..]
    {
      hide Shutdown.After, Shutdown.Runs, Shutdown.Step, Shutdown.Inv, WellFormed;
      Shutdown.ShutdownWindow(View(), before, window);
      RunSections(before);
      RunSection(Shutdown.GoOffline);
      RunSections(window);
    }
  }
}
