/** The paged query for frames without a host address: FH_ACTION_GET_EMPTY_MAPPINGS on the
    host, the do/while loop of fh_verify_mapping in the guest. */
module EmptyMappings {
  import opened Words
  import opened AddrMaps

  /** Maps whose frame numbers are 64-bit words. */
  type Map = m: AddrMap | m.Max() < 0x1_0000_0000_0000_0000 witness AddrMap(0, [], 0)

  /** One page: the unmapped frames found from `from` on, at most cap, and where the scan
      stands. */
  datatype Page = Page(found: seq<u64>, at: nat)

  function Scan(m: Map, from: nat, cap: nat): (p: Page)
    ensures from <= p.at && (p.at <= m.Max() || p.at == from) && |p.found| <= cap
    ensures |p.found| < cap ==> p.at >= m.Max()
    ensures cap > 0 && from < m.Max() ==> p.at > from
    ensures |p.found| == cap > 0 ==> p.found[cap - 1] == p.at - 1
    decreases m.Max() - from
  {
    if from >= m.Max() || cap == 0 then Page([], from)
    else if Lookup(m, from) == 0 then
      var p := Scan(m, from + 1, cap - 1);
      Page([from] + p.found, p.at)
    else Scan(m, from + 1, cap)
  }

  /** last_pfn in the answer: where to go on, in 32 bits, or 0 for the end. */
  function Continue(m: Map, cap: nat, p: Page): u32 {
    if |p.found| == cap && p.at < m.Max() then Wrap32(p.at) else 0
  }

  /** Where a query starts: a last_pfn of 0 asks for the beginning. */
  function Start(m: Map, lastPfn: u32): u64 { if lastPfn == 0 then m.min else lastPfn }

  /** What the guest has seen when the host answers so many rounds, and whether it was told
      that this is all. */
  datatype Got = Got(seen: seq<u64>, finished: bool)

  function Collect(m: Map, lastPfn: u32, cap: nat, answers: nat): Got
    decreases answers
  {
    if answers == 0 then Got([], false)
    else
      var p := Scan(m, Start(m, lastPfn), cap);
      var next := Continue(m, cap, p);
      if next == 0 then Got(p.found, true)
      else
        var rest := Collect(m, next, cap, answers - 1);
        Got(p.found + rest.seen, rest.finished)
  }

  // ----- one page -----

  lemma UnmappedStep(m: Map, at: u64)
    requires at < m.Max()
    ensures Unmapped(m, at) == if Lookup(m, at) == 0 then [at] + Unmapped(m, at + 1) else Unmapped(m, at + 1)
  {
    hide Lookup;
    assert [] + Unmapped(m, at + 1) == Unmapped(m, at + 1);
  }

  /** A page lists the next unmapped frames and leaves the rest. */
  lemma {:induction false} ScanSplits(m: Map, from: nat, cap: nat)
    ensures var p := Scan(m, from, cap); Unmapped(m, from) == p.found + Unmapped(m, p.at)
    decreases m.Max() - from
  {
    hide Lookup, Unmapped;
    if from >= m.Max() || cap == 0 {
      assert [] + Unmapped(m, from) == Unmapped(m, from);
    } else {
      UnmappedStep(m, from);
      if Lookup(m, from) == 0 {
        ScanSplits(m, from + 1, cap - 1);
        var p := Scan(m, from + 1, cap - 1);
        assert [from] + (p.found + Unmapped(m, p.at)) == ([from] + p.found) + Unmapped(m, p.at);
      } else {
        ScanSplits(m, from + 1, cap);
      }
    }
  }

  lemma NoneBeyond(m: Map, at: nat)
    requires at >= m.Max()
    ensures Unmapped(m, at) == []
  {
  }

  // ----- all pages -----

  /** The pages from `from` on can be asked for: every point where one goes on is below 2^32,
      except that a multiple of 2^32 may end the query where nothing is left to list. */
  ghost predicate Askable(m: Map, from: nat, cap: nat)
    requires cap > 0
    decreases m.Max() - from
  {
    var p := Scan(m, from, cap);
    |p.found| < cap || p.at >= m.Max() ||
    if p.at < 0x1_0000_0000 then from < m.Max() && Askable(m, p.at, cap)
    else Wrap32(p.at) == 0 && Unmapped(m, p.at) == []
  }

  lemma {:induction false} AskableCollects(m: Map, lastPfn: u32, cap: nat, answers: nat)
    requires cap > 0 && Askable(m, Start(m, lastPfn), cap)
    requires answers > m.Max() - Start(m, lastPfn) && answers > 0
    ensures Collect(m, lastPfn, cap, answers) == Got(Unmapped(m, Start(m, lastPfn)), true)
    decreases answers
  {
    hide Unmapped, Lookup, Scan;
    var from := Start(m, lastPfn);
    var p := Scan(m, from, cap);
    ScanSplits(m, from, cap);
    assert p.found + [] == p.found;
    if |p.found| < cap || p.at >= m.Max() {
      NoneBeyond(m, p.at);
    } else if p.at < 0x1_0000_0000 {
      AskableCollects(m, p.at, cap, answers - 1);
    }
  }

  /** A page that goes back lists a frame below the point it should have gone on from. */
  lemma GoesBack(m: Map, x: u32, at: nat, cap: nat)
    requires cap > 0 && x < at && at <= m.Max() && Lookup(m, at - 1) == 0
    ensures var p := Scan(m, x, cap); p.found != [] && p.found[0] < at
  {
    var p := Scan(m, x, cap);
    ScanSplits(m, x, cap);
    UnmappedExact(m, x);
    var u := Unmapped(m, x);
    assert at - 1 in u;
    NotNothing(m, x, cap);
    hide Scan, Unmapped, Lookup;
    assert u[0] == p.found[0];
    var i :| 0 <= i < |u| && u[i] == at - 1;
    assert i > 0 ==> u[0] < u[i];
  }

  lemma NotNothing(m: Map, x: nat, cap: nat)
    requires cap > 0 && Unmapped(m, x) != []
    ensures Scan(m, x, cap).found != []
  {
    ScanSplits(m, x, cap);
    hide Unmapped, Lookup;
    if Scan(m, x, cap).found == [] {
      NoneBeyond(m, Scan(m, x, cap).at);
    }
  }

  lemma ScanEndsUnmapped(m: Map, from: nat, cap: nat)
    requires cap > 0 && |Scan(m, from, cap).found| == cap && from < 0x1_0000_0000_0000_0000
    ensures var p := Scan(m, from, cap); 0 < p.at <= m.Max() && Lookup(m, p.at - 1) == 0
  {
    ScanSplits(m, from, cap);
    UnmappedExact(m, from);
    hide Unmapped, Lookup;
    var p := Scan(m, from, cap);
    assert p.found[cap - 1] in Unmapped(m, from);
  }

  lemma CollectStartsWithPage(m: Map, lastPfn: u32, cap: nat, answers: nat)
    requires answers > 0
    ensures Scan(m, Start(m, lastPfn), cap).found <= Collect(m, lastPfn, cap, answers).seen
  {
    hide Scan;
  }

  lemma WrongPages(m: Map, x: u32, at: nat, cap: nat, answers: nat)
    requires cap > 0 && 0 < x < at <= m.Max() && Lookup(m, at - 1) == 0
    ensures Collect(m, x, cap, answers) != Got(Unmapped(m, at), true)
  {
    hide Scan, Unmapped, Lookup;
    GoesBack(m, x, at, cap);
    UnmappedExact(m, at);
    if answers > 0 {
      CollectStartsWithPage(m, x, cap, answers);
      var seen := Collect(m, x, cap, answers).seen;
      assert seen[0] < at && seen[0] in seen;
    }
  }

  lemma {:induction false} CollectsAskable(m: Map, lastPfn: u32, cap: nat, answers: nat)
    requires cap > 0 && Collect(m, lastPfn, cap, answers) == Got(Unmapped(m, Start(m, lastPfn)), true)
    ensures Askable(m, Start(m, lastPfn), cap)
    decreases answers
  {
    hide Unmapped, Lookup, Scan;
    var from := Start(m, lastPfn);
    var p := Scan(m, from, cap);
    ScanSplits(m, from, cap);
    if |p.found| == cap && p.at < m.Max() {
      var next := Continue(m, cap, p);
      ScanEndsUnmapped(m, from, cap);
      if next != 0 {
        var rest := Collect(m, next, cap, answers - 1);
        assert rest.seen == (p.found + rest.seen)[|p.found|..] == (p.found + Unmapped(m, p.at))[|p.found|..] == Unmapped(m, p.at);
        if p.at < 0x1_0000_0000 {
          CollectsAskable(m, p.at, cap, answers - 1);
        } else {
          WrongPages(m, next, p.at, cap, answers - 1);
        }
      }
    }
  }

  /** The pages concatenate to exactly the unmapped frames of [pfn_min, pfn_max), for some and
      then for every large enough number of answers, if and only if all continuation points
      can be asked for. */
  lemma QueryExactIff(m: Map, cap: nat)
    requires cap > 0
    ensures (exists answers: nat :: Collect(m, 0, cap, answers) == Got(Unmapped(m, m.min), true)) <==> Askable(m, m.min, cap)
    ensures Askable(m, m.min, cap) ==>
              forall answers: nat :: answers > |m.vaddrs| ==> Collect(m, 0, cap, answers) == Got(Unmapped(m, m.min), true)
  {
    hide Collect, Askable, Unmapped;
    if Askable(m, m.min, cap) {
      forall answers: nat | answers > |m.vaddrs|
        ensures Collect(m, 0, cap, answers) == Got(Unmapped(m, m.min), true)
      {
        AskableCollects(m, 0, cap, answers);
      }
      assert Collect(m, 0, cap, |m.vaddrs| + 1) == Got(Unmapped(m, m.min), true);
    } else if answers: nat :| Collect(m, 0, cap, answers) == Got(Unmapped(m, m.min), true) {
      CollectsAskable(m, 0, cap, answers);
    }
  }

  /** With pfn_max up to 2^32 every page can be asked for. */
  lemma {:induction false} SmallIsAskable(m: Map, from: nat, cap: nat)
    requires cap > 0 && m.Max() <= 0x1_0000_0000
    ensures Askable(m, from, cap)
    decreases m.Max() - from
  {
    hide Scan, Unmapped;
    var p := Scan(m, from, cap);
    if |p.found| == cap && p.at < m.Max() {
      if from < m.Max() {
        SmallIsAskable(m, p.at, cap);
      }
    }
  }

  // ----- the two parties -----

  /** struct action_empty_mappings; `pfns` is what the mapped escape buffer has room for. */
  class QueryPage {
    var lastPfn: u32
    var maxGuest: nat
    var pfnNr: nat
    const pfns: array<u64>

    constructor (room: nat)
      ensures pfns.Length == room && fresh(pfns)
    {
      pfns := new u64[room](_ => 0);
      lastPfn, maxGuest, pfnNr := 0, 0, 0;
    }

    function Capacity(): nat reads this {
      if maxGuest < pfns.Length then maxGuest else pfns.Length
    }
  }

  /** The scan has listed `found` up to `at`, with room for `left` more. */
  ghost predicate Scanned(m: Map, from: nat, cap: nat, at: nat, found: seq<u64>) {
    && |found| <= cap
    && var rest := Scan(m, at, cap - |found|);
       Scan(m, from, cap) == Page(found + rest.found, rest.at)
  }

  lemma ScannedStarts(m: Map, from: nat, cap: nat)
    ensures Scanned(m, from, cap, from, [])
  {
    hide Scan;
    assert [] + Scan(m, from, cap).found == Scan(m, from, cap).found;
  }

  lemma ScannedNext(m: Map, from: nat, cap: nat, at: u64, found: seq<u64>)
    requires Scanned(m, from, cap, at, found) && at < m.Max() && |found| < cap
    ensures Scanned(m, from, cap, at + 1, if Lookup(m, at) == 0 then found + [at] else found)
  {
    hide Lookup;
    var left := cap - |found|;
    if Lookup(m, at) == 0 {
      var rest := Scan(m, at + 1, left - 1).found;
      assert found + ([at] + rest) == (found + [at]) + rest;
    }
  }

  lemma ScannedEnds(m: Map, from: nat, cap: nat, at: nat, found: seq<u64>)
    requires Scanned(m, from, cap, at, found) && (at >= m.Max() || |found| == cap)
    ensures Scan(m, from, cap) == Page(found, at)
  {
    assert found + [] == found;
  }

  /** The host handler: the page lists the next unmapped frames from the starting point, as
      many as fit, and last_pfn says where to go on. */
  method AnswerQuery(index: AddrIndex, page: QueryPage)
    requires index.Valid() && page.pfns != index.slots
    modifies page`lastPfn, page`pfnNr, page.pfns
    ensures index.Valid() && index.View() == old(index.View())
    ensures page.pfnNr <= page.pfns.Length
    ensures var p := Scan(index.View(), Start(index.View(), old(page.lastPfn)), page.Capacity());
            page.pfns[..page.pfnNr] == p.found && page.lastPfn == Continue(index.View(), page.Capacity(), p)
  {
    hide Lookup, Scanned, Scan;
    var maxMappings := page.Capacity();
    var pfn: u64 := if page.lastPfn == 0 then index.pfnMin else page.lastPfn;
    ghost var m: Map := index.View();
    ghost var from: u64 := pfn;
    var i := 0;
    ScannedStarts(m, from, maxMappings);
    assert page.pfns[..0] == [];
    while pfn < index.pfnMax && i < maxMappings
      invariant 0 <= i <= maxMappings
      invariant index.Valid() && index.View() == m
      invariant Scanned(m, from, maxMappings, pfn, page.pfns[..i])
      decreases index.pfnMax - pfn
    {
      var vaddr: u64 := index.Get(pfn);
      ScannedNext(m, from, maxMappings, pfn, page.pfns[..i]);
      if vaddr == 0 {
        ghost var was := page.pfns[..i];
        page.pfns[i] := pfn;
        i := i + 1;
        assert page.pfns[..i] == was + [pfn];
      }
      pfn := pfn + 1;
    }
    ScannedEnds(m, from, maxMappings, pfn, page.pfns[..i]);
    page.lastPfn := if i == maxMappings && pfn < index.pfnMax then Wrap32(pfn) else 0;
    page.pfnNr := i;
  }

  /** fh_verify_mapping with a host that answers so many rounds: the guest sees the pages one
      after the other until it is told that there are no more or the host falls silent. With
      pfn_max up to 2^32 and enough answers these are exactly the unmapped frames of
      [pfn_min, pfn_max) in ascending order. */
  method VerifyMapping(index: AddrIndex, page: QueryPage, guestMax: nat, answers: nat) returns (seen: seq<u64>)
    requires index.Valid() && page.pfns != index.slots
    modifies page, page.pfns
    ensures index.Valid() && index.View() == old(index.View())
    ensures seen == Collect(index.View(), 0, page.Capacity(), answers).seen
    ensures page.Capacity() > 0 && index.pfnMax <= 0x1_0000_0000 && answers > index.pfnMax - index.pfnMin ==>
              seen == Unmapped(index.View(), index.pfnMin)
  {
    hide Lookup, Unmapped, Scan, Continue, Askable;
    page.lastPfn := 0;
    page.maxGuest := guestMax;
    seen := [];
    ghost var m: Map := index.View();
    ghost var all := Collect(m, 0, page.Capacity(), answers).seen;
    var left, more := answers, true;
    assert [] + all == all;
    while more && left > 0
      invariant index.Valid() && index.View() == m && page.maxGuest == guestMax
      invariant 0 <= left && all == if more then seen + Collect(m, page.lastPfn, page.Capacity(), left).seen else seen
      decreases left
    {
      ghost var was, rest := seen, Collect(m, page.lastPfn, page.Capacity(), left).seen;
      AnswerQuery(index, page);
      seen := seen + page.pfns[..page.pfnNr];
      left := left - 1;
      more := page.lastPfn != 0;
      if more {
        var tail := Collect(m, page.lastPfn, page.Capacity(), left).seen;
        assert was + (page.pfns[..page.pfnNr] + tail) == seen + tail;
      }
    }
    assert seen + [] == seen;
    if page.Capacity() > 0 && m.Max() <= 0x1_0000_0000 && answers > |m.vaddrs| {
      SmallIsAskable(m, m.min, page.Capacity());
      QueryExactIff(m, page.Capacity());
    }
  }
}
