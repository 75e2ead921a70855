/** The submitters' interleavings together with descriptor memory: transfer_init writes a
    chain behind the ring index, transfer_destroy clears it again, and the engine may fetch
    the descriptors of a linked transfer at any time in between. */
module LinkedChains {
  import opened Words
  import opened Dma
  import opened Descriptors
  import Rings
  import opened Engine
  import opened Submitters

  /** The slots and the hops of a thread's transfer. */
  datatype Placed = Placed(start: nat, hops: seq<Hop>)

  /** The threads and the engine, its ring and ring index, and what each thread built last. */
  datatype Machine = Machine(world: World, ring: seq<Desc>, idx: nat, placed: map<Id, Placed>)

  /** A step of the submitters; a Build step compiles these hops. */
  datatype Event = Event(step: Step, hops: seq<Hop>)

  /** What transfer_init leaves in the ring (the contract of Rings.Ring.TransferInit). */
  function WithChain(ring: seq<Desc>, base: nat, s: nat, dir: Direction, hops: seq<Hop>): (r: seq<Desc>)
    requires s + |hops| <= |ring| && RingBusOk(base, |ring|)
    ensures |r| == |ring| && HoldsChain(r, base, s, dir, hops) && Rings.OnlySlots(ring, r, s, |hops|)
  {
    SubRing(base, |ring|, s, |hops|);
    seq(|ring|, j requires 0 <= j < |ring| =>
      if s <= j < s + |hops| then ChainDesc(dir, hops, SlotBus(base, s), j - s) else ring[j])
  }

  /** What transfer_destroy leaves (the contract of Rings.Ring.Destroy). */
  function Cleared(ring: seq<Desc>, p: Placed): (r: seq<Desc>)
    ensures |r| == |ring| && Rings.OnlySlots(ring, r, p.start, |p.hops|)
    ensures forall j :: p.start <= j < p.start + |p.hops| && j < |ring| ==> r[j] == ZERO_DESC
  {
    seq(|ring|, j requires 0 <= j < |ring| => if p.start <= j < p.start + |p.hops| then ZERO_DESC else ring[j])
  }

  /** The transfer of a Build step has the size that transfer_init gives it: no more than the
      ring has behind its index. */
  ghost predicate Possible(m: Machine, ev: Event) {
    && WellFormed(m.world.eng) && Enabled(m.world, ev.step)
    && (ev.step.Build? ==> |ev.hops| == ev.step.num && m.idx + |ev.hops| <= |m.ring|)
    && (ev.step.Wake? ==> ev.step.t in m.placed)
  }

  ghost function NextMachine(m: Machine, base: nat, dir: Direction, ev: Event): (m': Machine)
    requires Possible(m, ev) && m.idx < |m.ring| && RingBusOk(base, |m.ring|)
    ensures |m'.ring| == |m.ring| && m'.idx < |m'.ring| && m'.world == Next(m.world, ev.step)
  {
    var w := Next(m.world, ev.step);
    match ev.step
    case Build(t, num) =>
      Machine(w, WithChain(m.ring, base, m.idx, dir, ev.hops), Rings.Advance(|m.ring|, m.idx, num),
              m.placed[t := Placed(m.idx, ev.hops)])
    case Wake(t, _) => m.(world := w, ring := Cleared(m.ring, m.placed[t]))
    case _ => m.(world := w)
  }

  ghost predicate Holds(m: Machine, base: nat, dir: Direction, t: Id) {
    && t in m.placed && t in m.world.eng.xfers
    && |m.placed[t].hops| == m.world.eng.xfers[t].descNum > 0
    && HoldsChain(m.ring, base, m.placed[t].start, dir, m.placed[t].hops)
  }

  predicate HasChain(w: World, t: Id) { t in w.pc && (w.pc[t].Built? || w.pc[t].Waiting?) }

  /** From transfer_init to transfer_destroy the slots of a transfer hold its chain. */
  ghost predicate RingInv(m: Machine, base: nat, dir: Direction) {
    && Inv(m.world) && m.idx < |m.ring| && RingBusOk(base, |m.ring|)
    && forall t :: HasChain(m.world, t) ==> Holds(m, base, dir, t)
  }

  ghost predicate MachineRuns(m: Machine, base: nat, dir: Direction, evs: seq<Event>)
    requires m.idx < |m.ring| && RingBusOk(base, |m.ring|)
    decreases |evs|
  {
    evs != [] ==>
      && Possible(m, evs[0]) && Readable(m.world, evs[0].step)
      && MachineRuns(NextMachine(m, base, dir, evs[0]), base, dir, evs[1..])
  }

  ghost function MachineAfter(m: Machine, base: nat, dir: Direction, evs: seq<Event>): (m': Machine)
    requires m.idx < |m.ring| && RingBusOk(base, |m.ring|) && MachineRuns(m, base, dir, evs)
    ensures m'.idx < |m'.ring| == |m.ring|
    decreases |evs|
  {
    if evs == [] then m else MachineAfter(NextMachine(m, base, dir, evs[0]), base, dir, evs[1..])
  }

  /** A thread with a chain holds the lock, so there is at most one. */
  lemma OneChain(w: World, t: Id, u: Id)
    requires Inv(w) && HasChain(w, t) && u in w.pc && InSubmit(w.pc[u])
    ensures u == t
  {
  }

  lemma BuildHolds(m: Machine, base: nat, dir: Direction, ev: Event, t: Id)
    requires RingInv(m, base, dir) && Possible(m, ev) && ev.step.Build? && Inv(Next(m.world, ev.step))
    requires HasChain(Next(m.world, ev.step), t)
    ensures Holds(NextMachine(m, base, dir, ev), base, dir, t)
  {
    var m' := NextMachine(m, base, dir, ev);
    OneChain(m'.world, t, ev.step.t);
    hide HoldsChain, Inv, RingInv;
  }

  /** A wake-up ends the chain of its own transfer, the only one there is. */
  lemma WakeLeavesNone(w: World, t: Id, idReadable: bool, u: Id)
    requires Inv(w) && Enabled(w, Wake(t, idReadable))
    ensures !HasChain(Next(w, Wake(t, idReadable)), u)
  {
    if u in w.pc && u != t {
      assert !InSubmit(w.pc[u]);
    }
  }

  /** The other steps leave the ring alone, and keep the transfers that have a chain. */
  lemma OthersKeep(w: World, s: Step, t: Id)
    requires Inv(w) && Enabled(w, s) && !s.Build? && !s.Wake? && HasChain(Next(w, s), t)
    ensures HasChain(w, t) && t in w.eng.xfers
    ensures t in Next(w, s).eng.xfers && Next(w, s).eng.xfers[t].descNum == w.eng.xfers[t].descNum
  {
    if s.Serve? {
      ServeOne(w.eng, s.wbCount, s.wbErr, s.hw);
      hide Service;
    }
  }

  lemma ChainStep(m: Machine, base: nat, dir: Direction, ev: Event)
    requires RingInv(m, base, dir) && Possible(m, ev) && Readable(m.world, ev.step)
    ensures RingInv(NextMachine(m, base, dir, ev), base, dir)
  {
    hide Inv, Next, Readable, Enabled, HoldsChain, WellFormed;
    StepKeeps(m.world, ev.step);
    var m' := NextMachine(m, base, dir, ev);
    forall t | HasChain(m'.world, t)
      ensures Holds(m', base, dir, t)
    {
      match ev.step
      case Build(_, _) => BuildHolds(m, base, dir, ev, t);
      case Wake(u, idReadable) => WakeLeavesNone(m.world, u, idReadable, t);
      case _ => OthersKeep(m.world, ev.step, t);
    }
  }

  lemma {:induction false} ChainsStay(m: Machine, base: nat, dir: Direction, evs: seq<Event>)
    requires RingInv(m, base, dir) && MachineRuns(m, base, dir, evs)
    ensures RingInv(MachineAfter(m, base, dir, evs), base, dir)
    decreases |evs|
  {
    if evs != [] {
      ChainStep(m, base, dir, evs[0]);
      hide NextMachine, Possible, Readable, Inv, Holds, HasChain;
      ChainsStay(NextMachine(m, base, dir, evs[0]), base, dir, evs[1..]);
    }
  }

  /** Over every interleaving of SubmittersSafe: at every moment the slots of the linked
      transfer hold the chain transfer_init built for it, as many descriptors as the service
      counts for it, and the engine that fetches them from the bus address of the first
      performs exactly the copies of its hops and stops. */
  lemma LinkedChainRuns(m: Machine, base: nat, dir: Direction, evs: seq<Event>, t: Id)
    requires RingInv(m, base, dir) && MachineRuns(m, base, dir, evs)
    requires t in MachineAfter(m, base, dir, evs).world.eng.queue
    ensures var m' := MachineAfter(m, base, dir, evs);
            && Holds(m', base, dir, t)
            && var p := m'.placed[t];
               Run(m'.ring, base, SlotBus(base, p.start), |p.hops|) == Halted(HopsMeaning(dir, p.hops))
  {
    ChainsStay(m, base, dir, evs);
    var m' := MachineAfter(m, base, dir, evs);
    LinkedHasChain(m'.world, t);
    hide *;
    HoldsOpens(m', base, dir, t);
    ChainRuns(m'.ring, base, m'.placed[t].start, dir, m'.placed[t].hops, |m'.placed[t].hops|);
  }

  lemma LinkedHasChain(w: World, t: Id)
    requires Inv(w) && t in w.eng.queue
    ensures HasChain(w, t)
  {
    assert w.eng.queue[0] == t;
  }

  lemma HoldsOpens(m: Machine, base: nat, dir: Direction, t: Id)
    requires Holds(m, base, dir, t)
    ensures t in m.placed && m.placed[t].hops != []
    ensures HoldsChain(m.ring, base, m.placed[t].start, dir, m.placed[t].hops)
  {
  }

  /** An idle engine with any ring satisfies the invariant. */
  lemma IdleMachine(ring: seq<Desc>, base: nat, dir: Direction, st: Status, idx: nat)
    requires idx < |ring| && RingBusOk(base, |ring|)
    ensures RingInv(Machine(World(Eng(false, false, false, 0, st, [], map[], 0), None, map[]), ring, idx, map[]), base, dir)
  {
    InitiallyOk(st);
    hide Inv;
  }

  /** The engine id matters here, too: if a thread wakes up and cannot read the id, the slots
      of its transfer are cleared while the engine's list still holds it, and an engine that
      fetches its first descriptor finds no magic number there. */
  lemma UnreadableIdClearsLinked(m: Machine, base: nat, dir: Direction, t: Id, fuel: nat)
    requires RingInv(m, base, dir) && m.world.eng.queue == [t] && fuel > 0
    ensures var ev := Event(Wake(t, false), []);
            && Possible(m, ev)
            && var m' := NextMachine(m, base, dir, ev);
               && m'.world.eng.queue == [t]
               && Run(m'.ring, base, SlotBus(base, m'.placed[t].start), fuel) == BadMagic
  {
    LinkedHasChain(m.world, t);
    HoldsOpens(m, base, dir, t);
    var p := m.placed[t];
    SubRingOfChain(m.ring, base, p.start, dir, p.hops);
    SlotAtBus(base, |m.ring|, p.start);
    hide HoldsChain, SlotAt, RingBusOk, HopsMeaning;
  }
}
