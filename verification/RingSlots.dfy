/** Ring slots over a whole run: transfers take slots at the ring index and give them
    back in order. The driver has no check of its own; it relies on desc_used. */
module RingSlots {
  import opened Words
  import opened Rings

  /** The slots of one transfer. */
  datatype Span = Span(start: nat, num: nat)

  /** Transfers that took the slots up to the ring index one after the other. */
  datatype Chain = Chain(idx: nat, spans: seq<Span>)

  /** The slots of a list of transfers. */
  function Used(spans: seq<Span>): nat {
    if spans == [] then 0 else Used(spans[..|spans| - 1]) + spans[|spans| - 1].num
  }

  predicate Overlap(a: Span, b: Span) {
    a.start < b.start + b.num && b.start < a.start + a.num
  }

  ghost predicate PairwiseDisjoint(spans: seq<Span>) {
    forall i, j :: 0 <= i < j < |spans| ==> !Overlap(spans[i], spans[j])
  }

  function EndOf(size: nat, s: Span): nat {
    if s.start + s.num == size then 0 else s.start + s.num
  }

  /** No transfer wraps, and each starts where the previous one ended. */
  ghost predicate Consecutive(size: nat, st: Chain) {
    && (forall i :: 0 <= i < |st.spans| ==> st.spans[i].num >= 1 && st.spans[i].start + st.spans[i].num <= size)
    && (forall i :: 1 <= i < |st.spans| ==> st.spans[i].start == EndOf(size, st.spans[i - 1]))
    && (st.spans != [] ==> st.idx == EndOf(size, st.spans[|st.spans| - 1]))
  }

  /** How often the ring index passed the end before transfer i. */
  function Turns(size: nat, spans: seq<Span>, i: nat): nat
    requires i <= |spans|
  {
    if i == 0 then 0
    else Turns(size, spans, i - 1) + (if spans[i - 1].start + spans[i - 1].num == size then 1 else 0)
  }

  /** The slots those turns skip back over. */
  function Skipped(size: nat, spans: seq<Span>, i: nat): nat
    requires i <= |spans|
  {
    if i == 0 then 0
    else Skipped(size, spans, i - 1) + (if spans[i - 1].start + spans[i - 1].num == size then size else 0)
  }

  lemma {:induction false} SkippedWholeTurns(size: nat, spans: seq<Span>, i: nat)
    requires i <= |spans|
    ensures Skipped(size, spans, i) == Turns(size, spans, i) * size
  {
    if i > 0 {
      SkippedWholeTurns(size, spans, i - 1);
      OneMoreTurn(Turns(size, spans, i - 1), size);
    }
  }

  lemma OneMoreTurn(t: nat, size: nat)
    ensures (t + 1) * size == t * size + size
  {
  }

  /** On an unrolled ring transfer i starts Used(spans[..i]) slots after the first. */
  lemma {:induction false} Unrolled(size: nat, st: Chain, i: nat)
    requires Consecutive(size, st) && i < |st.spans|
    ensures st.spans[i].start + Skipped(size, st.spans, i) == st.spans[0].start + Used(st.spans[..i])
  {
    if i > 0 {
      Unrolled(size, st, i - 1);
      assert st.spans[..i][..i - 1] == st.spans[..i - 1];
    }
  }

  lemma {:induction false} UsedMonotone(spans: seq<Span>, i: nat, j: nat)
    requires i < j <= |spans|
    ensures Used(spans[..i]) + spans[i].num <= Used(spans[..j])
  {
    assert spans[..j][..j - 1] == spans[..j - 1];
    if i < j - 1 {
      UsedMonotone(spans, i, j - 1);
    }
  }

  /** The transfer that covers position p of the unrolled ring. */
  lemma {:induction false} Cover(spans: seq<Span>, p: nat, n: nat) returns (j: nat)
    requires n <= |spans| && p < Used(spans[..n])
    ensures j < n && Used(spans[..j]) <= p < Used(spans[..j]) + spans[j].num
    decreases n
  {
    assert spans[..n][..n - 1] == spans[..n - 1];
    if p < Used(spans[..n - 1]) {
      j := Cover(spans, p, n - 1);
    } else {
      j := n - 1;
    }
  }

  lemma NoSmallMultiple(size: nat, a: int, b: int, d: int)
    requires 0 < d < size
    ensures a * size - b * size != d
  {
    assert a * size - b * size == (a - b) * size;
    MulAtLeast(a - b, size);
    MulAtLeast(b - a, size);
  }

  lemma FittingIsDisjoint(size: nat, st: Chain, i: nat, j: nat)
    requires Consecutive(size, st) && Used(st.spans) <= size && i < j < |st.spans|
    ensures !Overlap(st.spans[i], st.spans[j])
  {
    var a, b := st.spans[i], st.spans[j];
    if Overlap(a, b) {
      Unrolled(size, st, i);
      Unrolled(size, st, j);
      SkippedWholeTurns(size, st.spans, i);
      SkippedWholeTurns(size, st.spans, j);
      UsedMonotone(st.spans, i, j);
      assert st.spans[..|st.spans|] == st.spans;
      UsedMonotone(st.spans, j, |st.spans|);
      var x := if a.start <= b.start then b.start else a.start;
      var pi, pj := Used(st.spans[..i]) + (x - a.start), Used(st.spans[..j]) + (x - b.start);
      NoSmallMultiple(size, Turns(size, st.spans, j), Turns(size, st.spans, i), pj - pi);
    }
  }

  lemma OverfullOverlaps(size: nat, st: Chain)
    requires size > 0 && Consecutive(size, st) && Used(st.spans) > size
    ensures !PairwiseDisjoint(st.spans)
  {
    assert st.spans[..|st.spans|] == st.spans;
    var j := Cover(st.spans, size, |st.spans|);
    assert st.spans[..1][..0] == [] && st.spans[..0] == [];
    assert j > 0;
    Unrolled(size, st, j);
    SkippedWholeTurns(size, st.spans, j);
    var first, b := st.spans[0], st.spans[j];
    var x := b.start + (size - Used(st.spans[..j]));
    assert x + Skipped(size, st.spans, j) == first.start + size;
    if x != first.start {
      if x > first.start {
        NoSmallMultiple(size, 1, Turns(size, st.spans, j), x - first.start);
      } else {
        NoSmallMultiple(size, Turns(size, st.spans, j), 1, first.start - x);
      }
    }
    assert Overlap(first, b);
  }

  // ----- runs of the ring -----

  /** A transfer whose slots were taken; it is live unless transfer_queue rejected it. */
  datatype Taken = Taken(span: Span, live: bool)

  /** The ring index, desc_used, and the transfers that took slots after the last one that
      was retired, oldest first. */
  datatype Slots = Slots(idx: nat, used: int, taken: seq<Taken>)

  /** transfer_init for a request with `remaining` descriptors left followed by an accepted or
      a rejected transfer_queue, or the retirement of the oldest live transfer. */
  datatype Op = Take(remaining: nat) | Reject(remaining: nat) | Retire

  function Spans(ts: seq<Taken>): (r: seq<Span>)
    ensures |r| == |ts|
  {
    seq(|ts|, i requires 0 <= i < |ts| => ts[i].span)
  }

  function Live(ts: seq<Taken>): seq<Span> {
    if ts == [] then [] else (if ts[0].live then [ts[0].span] else []) + Live(ts[1..])
  }

  /** The place of the oldest live transfer, or the length of the list. */
  function OldestLive(ts: seq<Taken>): (i: nat)
    ensures i <= |ts| && (i < |ts| ==> ts[i].live) && forall j :: 0 <= j < i ==> !ts[j].live
  {
    if ts == [] || ts[0].live then 0 else 1 + OldestLive(ts[1..])
  }

  function TakeSlots(size: nat, st: Slots, remaining: nat, live: bool): (r: Slots)
    requires st.idx < size
    ensures r.idx < size
  {
    if remaining == 0 then st
    else
      var n := TransferSize(remaining, size, st.idx);
      Slots(Advance(size, st.idx, n), st.used + n, st.taken + [Taken(Span(st.idx, n), live)])
  }

  /** desc_used grows with every transfer that takes slots, shrinks with a retirement, and is
      not lowered for a rejected transfer. */
  function Apply(size: nat, st: Slots, op: Op): (r: Slots)
    requires st.idx < size
    ensures r.idx < size
  {
    match op
    case Take(remaining) => TakeSlots(size, st, remaining, true)
    case Reject(remaining) => TakeSlots(size, st, remaining, false)
    case Retire =>
      var i := OldestLive(st.taken);
      if i == |st.taken| then st
      else Slots(st.idx, st.used - st.taken[i].span.num, st.taken[i + 1..])
  }

  function ApplyAll(size: nat, st: Slots, ops: seq<Op>): (r: Slots)
    requires st.idx < size
    ensures r.idx < size
    decreases |ops|
  {
    if ops == [] then st else ApplyAll(size, Apply(size, st, ops[0]), ops[1..])
  }

  /** The slots that the rejected transfers of a run took. */
  function Rejected(size: nat, st: Slots, ops: seq<Op>): nat
    requires st.idx < size
    decreases |ops|
  {
    if ops == [] then 0
    else (if ops[0].Reject? && ops[0].remaining > 0 then TransferSize(ops[0].remaining, size, st.idx) else 0)
         + Rejected(size, Apply(size, st, ops[0]), ops[1..])
  }

  /** No transfer wraps and each starts where the one before it ended, rejected ones
      included; desc_used counts at least their slots. */
  ghost predicate Inv(size: nat, st: Slots) {
    && Consecutive(size, Chain(st.idx, Spans(st.taken)))
    && Used(Spans(st.taken)) <= st.used
  }

  lemma AddConsecutive(size: nat, idx: nat, spans: seq<Span>, n: nat)
    requires idx < size && 1 <= n && idx + n <= size && Consecutive(size, Chain(idx, spans))
    ensures Consecutive(size, Chain(Advance(size, idx, n), spans + [Span(idx, n)]))
  {
    hide Used;
    var b := spans + [Span(idx, n)];
    forall k | 1 <= k < |b|
      ensures b[k].start == EndOf(size, b[k - 1])
    {
      assert b[k - 1] == spans[k - 1] && (k < |spans| ==> b[k] == spans[k]);
    }
  }

  lemma UsedSnoc(spans: seq<Span>, s: Span)
    ensures Used(spans + [s]) == Used(spans) + s.num
  {
    assert (spans + [s])[..|spans|] == spans;
  }

  lemma TakeKeeps(size: nat, st: Slots, remaining: nat, live: bool)
    requires st.idx < size && Inv(size, st)
    ensures Inv(size, TakeSlots(size, st, remaining, live))
  {
    hide Consecutive, Used, Advance;
    if remaining > 0 {
      var n := TransferSize(remaining, size, st.idx);
      var t := Taken(Span(st.idx, n), live);
      assert Spans(st.taken + [t]) == Spans(st.taken) + [t.span];
      AddConsecutive(size, st.idx, Spans(st.taken), n);
      UsedSnoc(Spans(st.taken), t.span);
    }
  }

  lemma {:induction false} UsedSplit(spans: seq<Span>, i: nat)
    requires i <= |spans|
    ensures Used(spans) == Used(spans[..i]) + Used(spans[i..])
    decreases |spans|
  {
    if i == |spans| {
      assert spans[..i] == spans && spans[i..] == [];
    } else {
      var n := |spans| - 1;
      UsedSplit(spans[..n], i);
      assert spans[..n][..i] == spans[..i] && spans[i..][..n - i] == spans[..n][i..];
    }
  }

  lemma DropConsecutive(size: nat, idx: nat, spans: seq<Span>, i: nat)
    requires i <= |spans| && Consecutive(size, Chain(idx, spans))
    ensures Consecutive(size, Chain(idx, spans[i..]))
  {
    var b := spans[i..];
    forall k | 1 <= k < |b|
      ensures b[k].start == EndOf(size, b[k - 1])
    {
      assert b[k] == spans[i + k] && b[k - 1] == spans[i + k - 1];
    }
  }

  lemma DropUsed(spans: seq<Span>, i: nat)
    requires i < |spans|
    ensures Used(spans[i + 1..]) + spans[i].num <= Used(spans)
  {
    UsedSplit(spans, i + 1);
    assert spans[..i + 1][..i] == spans[..i];
  }

  lemma RetireKeeps(size: nat, st: Slots)
    requires st.idx < size && Inv(size, st)
    ensures Inv(size, Apply(size, st, Retire))
  {
    hide Consecutive, Used;
    var i := OldestLive(st.taken);
    if i < |st.taken| {
      var a := Spans(st.taken);
      assert Spans(st.taken[i + 1..]) == a[i + 1..];
      DropConsecutive(size, st.idx, a, i + 1);
      DropUsed(a, i);
    }
  }

  /** Over every run, with rejections anywhere. */
  lemma {:induction false} RunsStayConsecutive(size: nat, st: Slots, ops: seq<Op>)
    requires st.idx < size && Inv(size, st)
    ensures Inv(size, ApplyAll(size, st, ops))
    decreases |ops|
  {
    hide Inv;
    if ops != [] {
      match ops[0] {
        case Take(remaining) => TakeKeeps(size, st, remaining, true);
        case Reject(remaining) => TakeKeeps(size, st, remaining, false);
        case Retire => RetireKeeps(size, st);
      }
      RunsStayConsecutive(size, Apply(size, st, ops[0]), ops[1..]);
    }
  }

  lemma {:induction false} LiveAmong(ts: seq<Taken>, i: nat) returns (j: nat)
    requires i < |Live(ts)|
    ensures j < |ts| && ts[j].live && Live(ts)[i] == ts[j].span
  {
    if ts[0].live && i == 0 {
      j := 0;
    } else {
      var j' := LiveAmong(ts[1..], if ts[0].live then i - 1 else i);
      j := j' + 1;
    }
  }

  lemma {:induction false} LiveDisjoint(ts: seq<Taken>)
    requires PairwiseDisjoint(Spans(ts))
    ensures PairwiseDisjoint(Live(ts))
  {
    if ts != [] {
      var s, rest := Spans(ts), Spans(ts[1..]);
      assert rest == s[1..];
      LiveDisjoint(ts[1..]);
      var l := Live(ts[1..]);
      forall i | 0 <= i < |l|
        ensures !Overlap(ts[0].span, l[i])
      {
        var j := LiveAmong(ts[1..], i);
        assert s[0] == ts[0].span && s[j + 1] == l[i];
      }
    }
  }

  lemma AllFitting(size: nat, st: Chain)
    requires Consecutive(size, st) && Used(st.spans) <= size
    ensures PairwiseDisjoint(st.spans)
  {
    forall i, j | 0 <= i < j < |st.spans|
      ensures !Overlap(st.spans[i], st.spans[j])
    {
      FittingIsDisjoint(size, st, i, j);
    }
  }

  /** Over every run, rejected transfers included: while desc_used does not exceed the ring,
      the live transfers occupy disjoint slots. */
  lemma DisjointWhileUsedFits(size: nat, start: nat, ops: seq<Op>)
    requires start < size
    ensures var st := ApplyAll(size, Slots(start, 0, []), ops);
            st.used <= size ==> PairwiseDisjoint(Live(st.taken))
  {
    RunsStayConsecutive(size, Slots(start, 0, []), ops);
    hide ApplyAll, PairwiseDisjoint, Consecutive;
    var st := ApplyAll(size, Slots(start, 0, []), ops);
    if st.used <= size {
      AllFitting(size, Chain(st.idx, Spans(st.taken)));
      LiveDisjoint(st.taken);
    }
  }

  lemma {:induction false} LiveAppend(a: seq<Taken>, b: seq<Taken>)
    ensures Live(a + b) == Live(a) + Live(b)
  {
    if a == [] {
      assert a + b == b;
    } else {
      LiveAppend(a[1..], b);
      var head := if a[0].live then [a[0].span] else [];
      var x, y := Live(a[1..]), Live(b);
      assert (a + b)[1..] == a[1..] + b && (a + b)[0] == a[0];
      assert head + (x + y) == (head + x) + y;
    }
  }

  lemma LiveOne(t: Taken)
    ensures Live([t]) == if t.live then [t.span] else []
  {
    assert [t][1..] == [];
  }

  lemma {:induction false} NoneLive(ts: seq<Taken>)
    requires forall i :: 0 <= i < |ts| ==> !ts[i].live
    ensures Live(ts) == []
  {
    if ts != [] {
      NoneLive(ts[1..]);
    }
  }

  /** desc_used after one step: the live transfers' slots and what was charged without being
      live before, plus the slots of a rejected transfer. */
  lemma AccountStep(size: nat, st: Slots, op: Op, leaked: nat)
    requires st.idx < size && st.used == Used(Live(st.taken)) + leaked
    ensures var r := Apply(size, st, op);
            r.used == Used(Live(r.taken)) + leaked
                      + (if op.Reject? && op.remaining > 0 then TransferSize(op.remaining, size, st.idx) else 0)
  {
    hide Used, Live, Advance, TransferSize;
    if op.Retire? {
      if OldestLive(st.taken) < |st.taken| {
        LiveFirst(st.taken, OldestLive(st.taken));
      }
    } else if op.remaining > 0 {
      var n := TransferSize(op.remaining, size, st.idx);
      var t := Taken(Span(st.idx, n), op.Take?);
      LiveAppend(st.taken, [t]);
      LiveOne(t);
      UsedSnoc(Live(st.taken), t.span);
      assert Live(st.taken) + [] == Live(st.taken);
    }
  }

  lemma LiveFirst(ts: seq<Taken>, i: nat)
    requires i < |ts| && ts[i].live && forall j :: 0 <= j < i ==> !ts[j].live
    ensures Used(Live(ts)) == ts[i].span.num + Used(Live(ts[i + 1..]))
  {
    hide Used, Live;
    var a, t, b := ts[..i], ts[i], ts[i + 1..];
    assert ts == a + ([t] + b);
    LiveAppend(a, [t] + b);
    LiveAppend([t], b);
    LiveOne(t);
    NoneLive(a);
    var l := Live(ts);
    assert l == [t.span] + Live(b);
    UsedSplit(l, 1);
    assert l[1..] == Live(b) && l[..1] == [t.span];
    UsedOne(t.span);
  }

  lemma UsedOne(s: Span)
    ensures Used([s]) == s.num
  {
    assert [s][..0] == [];
  }

  /** desc_used is the slots of the live transfers plus those of every transfer that was ever
      rejected. */
  lemma {:induction false} UsedAccount(size: nat, st: Slots, ops: seq<Op>, leaked: nat)
    requires st.idx < size && st.used == Used(Live(st.taken)) + leaked
    ensures var r := ApplyAll(size, st, ops); r.used == Used(Live(r.taken)) + leaked + Rejected(size, st, ops)
    decreases |ops|
  {
    hide Apply, Used, Live, TransferSize;
    if ops != [] {
      AccountStep(size, st, ops[0], leaked);
      var more := if ops[0].Reject? && ops[0].remaining > 0 then TransferSize(ops[0].remaining, size, st.idx) else 0;
      UsedAccount(size, Apply(size, st, ops[0]), ops[1..], leaked + more);
    }
  }

  ghost predicate EveryLive(ts: seq<Taken>) { forall i :: 0 <= i < |ts| ==> ts[i].live }

  lemma {:induction false} AllLive(ts: seq<Taken>)
    requires EveryLive(ts)
    ensures Live(ts) == Spans(ts)
  {
    if ts != [] {
      AllLive(ts[1..]);
      assert Spans(ts) == [ts[0].span] + Spans(ts[1..]);
    }
  }

  ghost predicate NoReject(ops: seq<Op>) { forall i :: 0 <= i < |ops| ==> !ops[i].Reject? }

  lemma {:induction false} StaysLive(size: nat, st: Slots, ops: seq<Op>)
    requires st.idx < size && NoReject(ops) && EveryLive(st.taken)
    ensures EveryLive(ApplyAll(size, st, ops).taken)
    ensures Rejected(size, st, ops) == 0
    decreases |ops|
  {
    if ops != [] {
      assert NoReject(ops[1..]) && EveryLive(Apply(size, st, ops[0]).taken);
      hide Apply, EveryLive, TransferSize;
      StaysLive(size, Apply(size, st, ops[0]), ops[1..]);
    }
  }

  /** Over every run without a rejection the live transfers are disjoint exactly while
      desc_used does not exceed the ring. */
  lemma DisjointIffUsedFits(size: nat, start: nat, ops: seq<Op>)
    requires start < size && NoReject(ops)
    ensures var st := ApplyAll(size, Slots(start, 0, []), ops);
            st.used == Used(Live(st.taken)) && (PairwiseDisjoint(Live(st.taken)) <==> st.used <= size)
  {
    var empty := Slots(start, 0, []);
    RunsStayConsecutive(size, empty, ops);
    StaysLive(size, empty, ops);
    UsedAccount(size, empty, ops, 0);
    hide ApplyAll, Rejected, PairwiseDisjoint, Consecutive;
    var st := ApplyAll(size, empty, ops);
    AllLive(st.taken);
    if st.used <= size {
      DisjointWhileUsedFits(size, start, ops);
    } else {
      OverfullOverlaps(size, Chain(st.idx, Spans(st.taken)));
    }
  }

  /** With a rejection the converse fails: after a rejected transfer of all 4 slots and one
      live slot, desc_used is 5 and there is nothing to overlap with. */
  lemma RejectionOvercounts()
    ensures var st := ApplyAll(4, Slots(0, 0, []), [Reject(4), Take(1)]);
            st.used == 5 && PairwiseDisjoint(Live(st.taken))
  {
    var a := Apply(4, Slots(0, 0, []), Reject(4));
    var b := Apply(4, a, Take(1));
    assert [Reject(4), Take(1)][1..] == [Take(1)] && [Take(1)][1..] == [];
    assert a == Slots(0, 4, [Taken(Span(0, 4), false)]);
    assert b == Slots(1, 5, [Taken(Span(0, 4), false), Taken(Span(0, 1), true)]);
    assert b.taken[1..] == [Taken(Span(0, 1), true)] && b.taken[1..][1..] == [];
  }
}
