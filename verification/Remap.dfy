/** fh_mmap_region and fh_unmmap_region: the PTEs of a range of host pages are redirected
    to the frames of a range of target pages, and put back. */
module Remap {
  import opened PageTable

  /** struct fh_memory_map_ctx: where the host page's PTE lies and what it was. */
  datatype MapCtx = MapCtx(slot: Word, pte: Word)

  /** The page tables involved: this process, the target process, and the pages of both. */
  datatype Region = Region(hostRoot: Word, targetRoot: Word, hosts: seq<Word>, targets: seq<Word>)

  predicate RegionOk(r: Region) { |r.hosts| == |r.targets| }

  function NextPage(page: Word): Word { Word(page.bits + 4096) }

  /** Consecutive pages from a base address. */
  function Pages(base: Word, n: nat): (ps: seq<Word>)
    ensures |ps| == n && (n > 0 ==> ps[0] == base)
    ensures forall i :: 0 < i < n ==> ps[i] == NextPage(ps[i - 1])
    decreases n
  {
    if n == 0 then [] else [base] + Pages(NextPage(base), n - 1)
  }

  /** The region of fh_mmap_region: n pages at hostMem, and n pages from the page of
      targetAddr on. */
  function RegionAt(hostRoot: Word, targetRoot: Word, hostMem: Word, targetAddr: Word, n: nat): (r: Region)
    ensures RegionOk(r) && |r.hosts| == n && r.hostRoot == hostRoot && r.targetRoot == targetRoot
    ensures n > 0 ==> r.hosts[0] == hostMem && r.targets[0].bits == targetAddr.bits & 0xFFFFFFFFFFFFF000
    ensures forall i :: 0 < i < n ==> r.hosts[i] == NextPage(r.hosts[i - 1])
    ensures forall i :: 0 < i < n ==> r.targets[i] == NextPage(r.targets[i - 1])
  {
    Region(hostRoot, targetRoot, Pages(hostMem, n), Pages(Word(targetAddr.bits & 0xFFFFFFFFFFFFF000), n))
  }

  /** What fh_memory_map writes for page i, and where. */
  function SlotOf(mem: Memory, r: Region, i: nat): Word
    requires i < |r.hosts|
  {
    LeafSlot(mem, r.hostRoot, r.hosts[i])
  }

  function HostPte(mem: Memory, r: Region, i: nat): Word
    requires i < |r.hosts|
  {
    Resolve(mem, r.hostRoot, r.hosts[i]).pte
  }

  function NewPte(mem: Memory, r: Region, i: nat): Word
    requires RegionOk(r) && i < |r.hosts|
  {
    SetPfn(HostPte(mem, r, i), GetPfn(Resolve(mem, r.targetRoot, r.targets[i]).pte))
  }

  /** The check of fh_memory_map that it found the PTE of the host page. */
  predicate PteFound(mem: Memory, r: Region, i: nat)
    requires i < |r.hosts|
  {
    Read(mem, SlotOf(mem, r, i)) == HostPte(mem, r, i)
  }

  function MapOne(mem: Memory, r: Region, i: nat): Memory
    requires RegionOk(r) && i < |r.hosts|
  {
    Write(mem, SlotOf(mem, r, i), NewPte(mem, r, i))
  }

  /** The memory after pages i up to k were mapped in turn. */
  function MapFrom(mem: Memory, r: Region, i: nat, k: nat): Memory
    requires RegionOk(r) && i <= k <= |r.hosts|
    decreases k - i
  {
    if i == k then mem else MapFrom(MapOne(mem, r, i), r, i + 1, k)
  }

  /** All host pages are mapped through page tables, and no host PTE is shared with another
      host page, with an upper level of a host walk or with a target walk. */
  ghost predicate NoAliasing(mem: Memory, r: Region) {
    && RegionOk(r)
    && (forall i :: 0 <= i < |r.hosts| ==> PTE in Resolve(mem, r.hostRoot, r.hosts[i]).valid)
    && (forall i, j :: 0 <= i < |r.hosts| && 0 <= j < |r.hosts| ==> !ReadsUpper(mem, r.hostRoot, r.hosts[j], SlotOf(mem, r, i)))
    && (forall i, j :: 0 <= i < j < |r.hosts| ==> SlotOf(mem, r, i) != SlotOf(mem, r, j))
    && (forall i, j :: 0 <= i < |r.hosts| && 0 <= j < |r.hosts| ==> !Reads(mem, r.targetRoot, r.targets[j], SlotOf(mem, r, i)))
  }

  /** mem is the original memory m0 with the first k pages mapped, as far as walks can see. */
  ghost predicate MappedUpTo(m0: Memory, mem: Memory, r: Region, k: nat)
    requires RegionOk(r) && k <= |r.hosts|
  {
    && (forall i :: 0 <= i < k ==> HostWalk(m0, mem, r, i, NewPte(m0, r, i)))
    && (forall i :: k <= i < |r.hosts| ==> HostWalk(m0, mem, r, i, HostPte(m0, r, i)))
    && (forall j :: 0 <= j < |r.targets| ==> SameWalk(m0, mem, r.targetRoot, r.targets[j]))
  }

  ghost predicate SameUpper(m0: Memory, mem: Memory, root: Word, addr: Word) {
    forall x :: ReadsUpper(mem, root, addr, x) == ReadsUpper(m0, root, addr, x)
  }

  ghost predicate SameWalk(m0: Memory, mem: Memory, root: Word, addr: Word) {
    Resolve(mem, root, addr) == Resolve(m0, root, addr) && SameUpper(m0, mem, root, addr)
  }

  ghost predicate HostWalk(m0: Memory, mem: Memory, r: Region, i: nat, pte: Word)
    requires i < |r.hosts|
  {
    Resolve(mem, r.hostRoot, r.hosts[i]) == Resolve(m0, r.hostRoot, r.hosts[i]).(pte := pte)
    && SameUpper(m0, mem, r.hostRoot, r.hosts[i])
  }

  lemma NothingMapped(m0: Memory, r: Region)
    requires RegionOk(r)
    ensures MappedUpTo(m0, m0, r, 0)
  {
    hide Resolve, ReadsUpper, NewPte;
  }

  lemma OtherHostUnread(m0: Memory, mem: Memory, r: Region, k: nat, i: nat, pte: Word)
    requires NoAliasing(m0, r) && i < |r.hosts| && k < |r.hosts| && i != k && HostWalk(m0, mem, r, i, pte)
    ensures !Reads(mem, r.hostRoot, r.hosts[i], SlotOf(m0, r, k))
  {
    assert SlotOf(m0, r, i) != SlotOf(m0, r, k);
    hide Resolve, ReadsUpper;
  }

  /** What fh_memory_map finds for the next page is what the original memory held. */
  lemma SameFindings(m0: Memory, mem: Memory, r: Region, k: nat)
    requires NoAliasing(m0, r) && k < |r.hosts| && MappedUpTo(m0, mem, r, k)
    ensures SlotOf(mem, r, k) == SlotOf(m0, r, k) && HostPte(mem, r, k) == HostPte(m0, r, k) && NewPte(mem, r, k) == NewPte(m0, r, k)
    ensures PteFound(mem, r, k)
  {
    hide Resolve, ReadsUpper, SetPfn, GetPfn, SameUpper, PteSlot, Read;
    assert HostWalk(m0, mem, r, k, HostPte(m0, r, k)) && SameWalk(m0, mem, r.targetRoot, r.targets[k]);
    LeafHolds(mem, r.hostRoot, r.hosts[k]);
  }

  lemma MappedPageSeen(m0: Memory, mem: Memory, r: Region, k: nat)
    requires NoAliasing(m0, r) && k < |r.hosts| && HostWalk(m0, mem, r, k, HostPte(m0, r, k))
    ensures HostWalk(m0, Write(mem, SlotOf(m0, r, k), NewPte(m0, r, k)), r, k, NewPte(m0, r, k))
  {
    hide Resolve, ReadsUpper, NewPte, PteSlot, Read, Write;
    assert !ReadsUpper(m0, r.hostRoot, r.hosts[k], SlotOf(m0, r, k)) && LeafSlot(mem, r.hostRoot, r.hosts[k]) == SlotOf(m0, r, k);
    LeafWriteSeen(mem, r.hostRoot, r.hosts[k], NewPte(m0, r, k));
  }

  lemma OtherHostKeeps(m0: Memory, mem: Memory, r: Region, k: nat, i: nat, pte: Word, v: Word)
    requires NoAliasing(m0, r) && i < |r.hosts| && k < |r.hosts| && i != k && HostWalk(m0, mem, r, i, pte)
    ensures HostWalk(m0, Write(mem, SlotOf(m0, r, k), v), r, i, pte)
  {
    hide Resolve, ReadsUpper, NoAliasing, SlotOf, Reads, Write;
    OtherHostUnread(m0, mem, r, k, i, pte);
    WalkFrame(mem, r.hostRoot, r.hosts[i], SlotOf(m0, r, k), v);
  }

  lemma TargetKeeps(m0: Memory, mem: Memory, r: Region, k: nat, j: nat, v: Word)
    requires NoAliasing(m0, r) && j < |r.targets| && k < |r.hosts| && SameWalk(m0, mem, r.targetRoot, r.targets[j])
    ensures SameWalk(m0, Write(mem, SlotOf(m0, r, k), v), r.targetRoot, r.targets[j])
  {
    hide Resolve, ReadsUpper, SlotOf, PteSlot, Write;
    assert !Reads(m0, r.targetRoot, r.targets[j], SlotOf(m0, r, k));
    WalkFrame(mem, r.targetRoot, r.targets[j], SlotOf(m0, r, k), v);
  }

  /** Mapping one more page. */
  lemma MapOneMore(m0: Memory, mem: Memory, r: Region, k: nat)
    requires NoAliasing(m0, r) && k < |r.hosts| && MappedUpTo(m0, mem, r, k)
    ensures SlotOf(mem, r, k) == SlotOf(m0, r, k) && HostPte(mem, r, k) == HostPte(m0, r, k) && NewPte(mem, r, k) == NewPte(m0, r, k)
    ensures PteFound(mem, r, k)
    ensures MappedUpTo(m0, MapOne(mem, r, k), r, k + 1)
  {
    SameFindings(m0, mem, r, k);
    hide NoAliasing, HostWalk, SameWalk, SlotOf, NewPte, HostPte, PteFound, Write;
    var slot, v := SlotOf(m0, r, k), NewPte(m0, r, k);
    assert HostWalk(m0, mem, r, k, HostPte(m0, r, k));
    MappedPageSeen(m0, mem, r, k);
    forall i | 0 <= i < k
      ensures HostWalk(m0, Write(mem, slot, v), r, i, NewPte(m0, r, i))
    {
      OtherHostKeeps(m0, mem, r, k, i, NewPte(m0, r, i), v);
    }
    forall i | k < i < |r.hosts|
      ensures HostWalk(m0, Write(mem, slot, v), r, i, HostPte(m0, r, i))
    {
      OtherHostKeeps(m0, mem, r, k, i, HostPte(m0, r, i), v);
    }
    forall j | 0 <= j < |r.targets|
      ensures SameWalk(m0, Write(mem, slot, v), r.targetRoot, r.targets[j])
    {
      TargetKeeps(m0, mem, r, k, j, v);
    }
  }

  lemma LeafHolds(mem: Memory, root: Word, addr: Word)
    requires PTE in Resolve(mem, root, addr).valid
    ensures Read(mem, LeafSlot(mem, root, addr)) == Resolve(mem, root, addr).pte
  {
  }

  lemma {:induction false} MapAllPages(m0: Memory, mem: Memory, r: Region, k: nat)
    requires NoAliasing(m0, r) && k <= |r.hosts| && MappedUpTo(m0, mem, r, k)
    ensures MappedUpTo(m0, MapFrom(mem, r, k, |r.hosts|), r, |r.hosts|)
    decreases |r.hosts| - k
  {
    if k < |r.hosts| {
      MapOneMore(m0, mem, r, k);
      hide NoAliasing, MappedUpTo, MapOne;
      MapAllPages(m0, MapOne(mem, r, k), r, k + 1);
    }
  }

  // ----- which frame a page gets -----

  /** The 4 KB frame of an address in a large page: the low nine bits come from the address. */
  function LargeFrame(pmd: Word, addr: Word): Word { Word((GetPfn(pmd).bits & 0xFFFFFFFE00) | Index(addr, 12)) }

  lemma LargeFrameBits(pmd: Word, addr: Word)
    ensures LargeFrame(pmd, addr).bits >> 9 == GetPfn(pmd).bits >> 9
    ensures LargeFrame(pmd, addr).bits & 0x1FF == (addr.bits >> 12) & 0x1FF
  {
  }

  /** The walk of an address ends at a frame: at the frame of a present PTE, or inside a
      present large page. */
  predicate TranslatesTo(mem: Memory, root: Word, addr: Word, pfn: Word) {
    var e := Resolve(mem, root, addr);
    || (PTE in e.valid && Present(e.pte) && pfn == GetPfn(e.pte))
    || (PTE !in e.valid && PMD in e.valid && Present(e.pmd) && pfn == LargeFrame(e.pmd, addr))
  }

  /** Host page i and target page i are the same memory. */
  ghost predicate Shared(mem: Memory, r: Region, i: nat)
    requires RegionOk(r) && i < |r.hosts|
  {
    exists pfn :: TranslatesTo(mem, r.hostRoot, r.hosts[i], pfn) && TranslatesTo(mem, r.targetRoot, r.targets[i], pfn)
  }

  /** The target page has a present PTE (or happens to be frame 0 inside a large page). */
  predicate TargetOk(mem: Memory, r: Region, i: nat)
    requires RegionOk(r) && i < |r.hosts|
  {
    var e := Resolve(mem, r.targetRoot, r.targets[i]);
    if PTE in e.valid then Present(e.pte)
    else PMD in e.valid && Present(e.pmd) && LargeFrame(e.pmd, r.targets[i]) == ZERO
  }

  /** Host page i has the frame of the target's PTE, or frame 0 when the walk of the target
      does not reach a PTE; it keeps its own flags and its own upper levels, and the target's
      walk is as before. */
  ghost predicate Redirected(m0: Memory, mem: Memory, r: Region, i: nat)
    requires RegionOk(r) && i < |r.hosts|
  {
    var host, target := Resolve(m0, r.hostRoot, r.hosts[i]), Resolve(m0, r.targetRoot, r.targets[i]);
    var now := Resolve(mem, r.hostRoot, r.hosts[i]);
    && now == host.(pte := now.pte) && PTE in now.valid
    && GetPfn(now.pte) == (if PTE in target.valid then GetPfn(target.pte) else ZERO)
    && Flags(now.pte) == Flags(host.pte)
    && Resolve(mem, r.targetRoot, r.targets[i]) == target
  }

  lemma NoPteNoFrame(mem: Memory, root: Word, addr: Word)
    ensures PTE !in Resolve(mem, root, addr).valid ==> GetPfn(Resolve(mem, root, addr).pte) == ZERO
  {
    hide PgdSlot, PudSlot, PmdSlot, PteSlot, Present, Large, Read, RootOk;
  }

  /** After the region is mapped, every host page is redirected. */
  lemma RegionTranslates(m0: Memory, r: Region, i: nat)
    requires NoAliasing(m0, r) && i < |r.hosts|
    ensures Redirected(m0, MapFrom(m0, r, 0, |r.hosts|), r, i)
    ensures Shared(MapFrom(m0, r, 0, |r.hosts|), r, i) <==> Present(HostPte(m0, r, i)) && TargetOk(m0, r, i)
  {
    NothingMapped(m0, r);
    MapAllPages(m0, m0, r, 0);
    var mem := MapFrom(m0, r, 0, |r.hosts|);
    assert PTE in Resolve(m0, r.hostRoot, r.hosts[i]).valid;
    hide Resolve, MapFrom, SetPfn, GetPfn, Flags, SameUpper, NoAliasing, SmallPfn, Present, Shared, TargetOk;
    assert HostWalk(m0, mem, r, i, NewPte(m0, r, i));
    assert SameWalk(m0, mem, r.targetRoot, r.targets[i]);
    var target := Resolve(m0, r.targetRoot, r.targets[i]).pte;
    GetPfnSmall(target);
    NoPteNoFrame(m0, r.targetRoot, r.targets[i]);
    SetThenGetPfn(HostPte(m0, r, i), GetPfn(target));
    assert Redirected(m0, mem, r, i);
    SharedIff(m0, mem, r, i);
  }

  /** A redirected page shares the target's memory exactly when it is present and the target
      has a present PTE (or is frame 0 of a large page). */
  lemma SharedIff(m0: Memory, mem: Memory, r: Region, i: nat)
    requires RegionOk(r) && i < |r.hosts| && Redirected(m0, mem, r, i)
    ensures Shared(mem, r, i) <==> Present(HostPte(m0, r, i)) && TargetOk(m0, r, i)
  {
    hide Resolve, GetPfn, Flags, LargeFrame, Present;
    var now := Resolve(mem, r.hostRoot, r.hosts[i]).pte;
    SameFlagsSamePresence(now, HostPte(m0, r, i));
    if Present(now) {
      assert TranslatesTo(mem, r.hostRoot, r.hosts[i], GetPfn(now));
    }
  }

  lemma SameFlagsSamePresence(a: Word, b: Word)
    requires Flags(a) == Flags(b)
    ensures Present(a) <==> Present(b)
  {
    PresentBit(a.bits);
    PresentBit(b.bits);
  }

  lemma PresentBit(x: bv64)
    ensures x & 1 == FlagBits(x) & 1
  {
  }

  // ----- putting the entries back -----

  /** The context of page i, as fh_memory_map records it. */
  function CtxOf(mem: Memory, r: Region, i: nat): MapCtx
    requires i < |r.hosts|
  {
    MapCtx(SlotOf(mem, r, i), HostPte(mem, r, i))
  }

  /** fh_unmmap_region on a list of contexts. */
  function Unmap(mem: Memory, entries: seq<MapCtx>): Memory
    decreases |entries|
  {
    if entries == [] then mem else Unmap(Write(mem, entries[0].slot, entries[0].pte), entries[1..])
  }

  ghost predicate SameMemory(a: Memory, b: Memory) { forall x :: Read(a, x) == Read(b, x) }

  /** Away from the first k host PTEs, memory is as it was. */
  ghost predicate OnlySlotsChanged(m0: Memory, mem: Memory, r: Region, from: nat, k: nat)
    requires k <= |r.hosts|
  {
    forall x :: Read(mem, x) != Read(m0, x) ==> exists i :: from <= i < k && x == SlotOf(m0, r, i)
  }

  lemma {:induction false} MapChangesOnlySlots(m0: Memory, mem: Memory, r: Region, k: nat)
    requires NoAliasing(m0, r) && k <= |r.hosts| && MappedUpTo(m0, mem, r, k) && OnlySlotsChanged(m0, mem, r, 0, k)
    ensures OnlySlotsChanged(m0, MapFrom(mem, r, k, |r.hosts|), r, 0, |r.hosts|)
    decreases |r.hosts| - k
  {
    if k < |r.hosts| {
      MapOneMore(m0, mem, r, k);
      hide NoAliasing, MappedUpTo, Resolve, Read, Write, NewPte, SlotOf;
      var mem' := MapOne(mem, r, k);
      forall x | Read(mem', x) != Read(m0, x)
        ensures exists i :: 0 <= i < k + 1 && x == SlotOf(m0, r, i)
      {
        ReadAfterWrite(mem, SlotOf(m0, r, k), NewPte(m0, r, k), x);
      }
      MapChangesOnlySlots(m0, mem', r, k + 1);
    }
  }

  lemma {:induction false} UnmapRestores(m0: Memory, mem: Memory, r: Region, entries: seq<MapCtx>, k: nat)
    requires k <= |r.hosts| && |entries| == |r.hosts| - k && OnlySlotsChanged(m0, mem, r, k, |r.hosts|)
    requires forall i :: k <= i < |r.hosts| ==> entries[i - k] == CtxOf(m0, r, i) && PteFound(m0, r, i)
    ensures SameMemory(Unmap(mem, entries), m0)
    decreases |entries|
  {
    if entries != [] {
      assert entries[k - k] == CtxOf(m0, r, k) && PteFound(m0, r, k);
      var slot, pte := SlotOf(m0, r, k), HostPte(m0, r, k);
      var mem' := Write(mem, slot, pte);
      hide Read, Write, SlotOf, HostPte;
      forall x | Read(mem', x) != Read(m0, x)
        ensures exists i :: k + 1 <= i < |r.hosts| && x == SlotOf(m0, r, i)
      {
        ReadAfterWrite(mem, slot, pte, x);
      }
      UnmapRestores(m0, mem', r, entries[1..], k + 1);
    }
  }

  /** Unmapping a mapped region restores page-table memory exactly. */
  lemma MapThenUnmap(m0: Memory, r: Region, entries: seq<MapCtx>)
    requires NoAliasing(m0, r) && |entries| == |r.hosts|
    requires forall i :: 0 <= i < |r.hosts| ==> entries[i] == CtxOf(m0, r, i)
    ensures SameMemory(Unmap(MapFrom(m0, r, 0, |r.hosts|), entries), m0)
  {
    NothingMapped(m0, r);
    forall i | 0 <= i < |r.hosts|
      ensures PteFound(m0, r, i)
    {
      LeafHolds(m0, r.hostRoot, r.hosts[i]);
    }
    MapChangesOnlySlots(m0, m0, r, 0);
    hide NoAliasing, MapFrom, SlotOf, HostPte;
    UnmapRestores(m0, MapFrom(m0, r, 0, |r.hosts|), r, entries, 0);
  }

  // ----- the host process -----

  class HostTables {
    var mem: Memory

    /** fh_memory_map for page i of the region. */
    method MemoryMap(r: Region, i: nat) returns (ret: int, ctx: MapCtx)
      requires RegionOk(r) && i < |r.hosts|
      modifies this
      ensures ctx == CtxOf(old(mem), r, i)
      ensures if PteFound(old(mem), r, i) then ret == 0 && mem == MapOne(old(mem), r, i) else ret == -1 && mem == old(mem)
    {
      hide Resolve, SetPfn, GetPfn, Read, Write;
      var victim := Resolve(mem, r.targetRoot, r.targets[i]);
      var host := Resolve(mem, r.hostRoot, r.hosts[i]);
      var slot := PteSlot(host.pmd, r.hosts[i]);
      ctx := MapCtx(slot, host.pte);
      if Read(mem, slot) != host.pte {
        return -1, ctx;
      }
      mem := Write(mem, slot, SetPfn(Read(mem, slot), GetPfn(victim.pte)));
      ret := 0;
    }

    /** fh_mmap_region. When a page fails, the clean-up loop's condition compares i with
        itself, so the pages before it stay redirected. */
    method MmapRegion(r: Region) returns (ret: int, entries: seq<MapCtx>)
      requires RegionOk(r)
      modifies this
      ensures |entries| <= |r.hosts| && mem == MapFrom(old(mem), r, 0, |entries|)
      ensures forall i :: 0 <= i < |entries| ==>
                PteFound(MapFrom(old(mem), r, 0, i), r, i) && entries[i] == CtxOf(MapFrom(old(mem), r, 0, i), r, i)
      ensures ret == 0 <==> |entries| == |r.hosts|
      ensures ret != 0 ==> ret == -1 && !PteFound(mem, r, |entries|)
    {
      entries := [];
      ret := 0;
      hide CtxOf, PteFound, MapOne;
      while |entries| < |r.hosts| && ret == 0
        invariant |entries| <= |r.hosts| && mem == MapFrom(old(mem), r, 0, |entries|)
        invariant forall i :: 0 <= i < |entries| ==>
                    PteFound(MapFrom(old(mem), r, 0, i), r, i) && entries[i] == CtxOf(MapFrom(old(mem), r, 0, i), r, i)
        invariant ret != 0 ==> ret == -1 && |entries| < |r.hosts| && !PteFound(mem, r, |entries|)
        decreases |r.hosts| - |entries|, ret == 0
      {
        ghost var before := mem;
        var ctx;
        ret, ctx := MemoryMap(r, |entries|);
        if ret == 0 {
          MapFromSnoc(old(mem), r, 0, |entries|);
          entries := entries + [ctx];
        }
      }
    }

    /** fh_unmmap_region. */
    method UnmmapRegion(entries: seq<MapCtx>)
      modifies this
      ensures mem == Unmap(old(mem), entries)
    {
      for i := 0 to |entries|
        invariant Unmap(mem, entries[i..]) == Unmap(old(mem), entries)
      {
        assert entries[i..][1..] == entries[i + 1..];
        mem := Write(mem, entries[i].slot, entries[i].pte);
      }
    }
  }

  lemma {:induction false} MapFromSnoc(mem: Memory, r: Region, i: nat, k: nat)
    requires RegionOk(r) && i <= k < |r.hosts|
    ensures MapFrom(mem, r, i, k + 1) == MapOne(MapFrom(mem, r, i, k), r, k)
    decreases k - i
  {
    if i < k {
      MapFromSnoc(MapOne(mem, r, i), r, i + 1, k);
    }
  }

  lemma {:induction false} EveryPageFound(m0: Memory, r: Region, k: nat)
    requires NoAliasing(m0, r) && k <= |r.hosts|
    ensures MappedUpTo(m0, MapFrom(m0, r, 0, k), r, k)
    ensures k < |r.hosts| ==> PteFound(MapFrom(m0, r, 0, k), r, k) && CtxOf(MapFrom(m0, r, 0, k), r, k) == CtxOf(m0, r, k)
  {
    if k == 0 {
      NothingMapped(m0, r);
    } else {
      EveryPageFound(m0, r, k - 1);
      MapFromSnoc(m0, r, 0, k - 1);
      hide MapFrom, NoAliasing, MappedUpTo, MapOne;
      MapOneMore(m0, MapFrom(m0, r, 0, k - 1), r, k - 1);
    }
    hide MapFrom, NoAliasing, MappedUpTo, MapOne, Resolve, Read;
    if k < |r.hosts| {
      MapOneMore(m0, MapFrom(m0, r, 0, k), r, k);
    }
  }

  /** Every host page is redirected, and shares the memory of its target page exactly when it
      is present and the target page has a present PTE (or is frame 0 of a large page). */
  ghost predicate Mapped(m0: Memory, mem: Memory, r: Region)
    requires RegionOk(r)
  {
    forall i :: 0 <= i < |r.hosts| ==>
      Redirected(m0, mem, r, i) && (Shared(mem, r, i) <==> Present(HostPte(m0, r, i)) && TargetOk(m0, r, i))
  }

  lemma AllRedirected(m0: Memory, r: Region)
    requires NoAliasing(m0, r)
    ensures RegionOk(r) && Mapped(m0, MapFrom(m0, r, 0, |r.hosts|), r)
  {
    RegionSize(m0, r);
    hide Redirected, Shared, TargetOk, Present, HostPte, NoAliasing, MapFrom;
    var mem := MapFrom(m0, r, 0, |r.hosts|);
    forall i | 0 <= i < |r.hosts|
      ensures Redirected(m0, mem, r, i) && (Shared(mem, r, i) <==> Present(HostPte(m0, r, i)) && TargetOk(m0, r, i))
    {
      RegionTranslates(m0, r, i);
    }
  }

  /** Mapping and unmapping a region without aliasing: the mapping succeeds, meanwhile every
      host page is redirected to its target page, and afterwards page-table memory is exactly
      what it was. */
  method MapUseUnmap(tables: HostTables, r: Region) returns (ret: int, ghost mapped: Memory)
    requires NoAliasing(tables.mem, r)
    modifies tables
    ensures ret == 0 && SameMemory(tables.mem, old(tables.mem))
    ensures RegionOk(r) && Mapped(old(tables.mem), mapped, r)
  {
    ghost var m0 := tables.mem;
    hide Resolve, NoAliasing, PteFound, CtxOf, MapFrom, MappedUpTo, SameMemory, Unmap, Mapped;
    var entries;
    RegionSize(m0, r);
    ret, entries := tables.MmapRegion(r);
    mapped := tables.mem;
    EveryPageFound(m0, r, |entries|);
    forall i | 0 <= i < |entries|
      ensures entries[i] == CtxOf(m0, r, i)
    {
      EveryPageFound(m0, r, i);
    }
    AllRedirected(m0, r);
    MapThenUnmap(m0, r, entries);
    tables.UnmmapRegion(entries);
  }

  /** The same for the region fh_mmap_region is called with: n consecutive host pages from
      hostMem on see the n target pages from the page of targetAddr on. */
  method MapUseUnmapAt(tables: HostTables, hostRoot: Word, targetRoot: Word, hostMem: Word, targetAddr: Word, n: nat)
    returns (ret: int, ghost mapped: Memory)
    requires NoAliasing(tables.mem, RegionAt(hostRoot, targetRoot, hostMem, targetAddr, n))
    modifies tables
    ensures ret == 0 && SameMemory(tables.mem, old(tables.mem))
    ensures var r := RegionAt(hostRoot, targetRoot, hostMem, targetAddr, n);
            Mapped(old(tables.mem), mapped, r)
  {
    hide NoAliasing, SameMemory, Mapped;
    ret, mapped := MapUseUnmap(tables, RegionAt(hostRoot, targetRoot, hostMem, targetAddr, n));
  }

  lemma RegionSize(mem: Memory, r: Region)
    requires NoAliasing(mem, r)
    ensures RegionOk(r)
  {
  }

  // ----- a mapping that fails half-way -----

  /** The first k pages of a region. */
  function First(r: Region, k: nat): Region
    requires RegionOk(r) && k <= |r.hosts|
  {
    Region(r.hostRoot, r.targetRoot, r.hosts[..k], r.targets[..k])
  }

  lemma {:induction false} MapFirst(mem: Memory, r: Region, i: nat, k: nat)
    requires RegionOk(r) && i <= k <= |r.hosts|
    ensures MapFrom(mem, r, i, k) == MapFrom(mem, First(r, k), i, k)
    decreases k - i
  {
    if i < k {
      assert MapOne(mem, r, i) == MapOne(mem, First(r, k), i);
      hide MapOne;
      MapFirst(MapOne(mem, r, i), r, i + 1, k);
    }
  }

  lemma SamePteIff(pte: Word, pfn: Word)
    requires SmallPfn(pfn)
    ensures SetPfn(pte, pfn) == pte <==> pfn == GetPfn(pte)
  {
    hide SetField, GetField, SmallField;
    SameFieldIff(pte.bits, pfn.bits);
    assert SetPfn(pte, pfn).bits == SetField(pte.bits, pfn.bits) && GetPfn(pte).bits == GetField(pte.bits);
  }

  lemma SameFieldIff(pte: bv64, pfn: bv64)
    requires SmallField(pfn)
    ensures SetField(pte, pfn) == pte <==> pfn == GetField(pte)
  {
    assert GetField(SetField(pte, pfn)) == pfn;
    assert SetField(pte, GetField(pte)) == pte;
  }

  /** Every host page of a region already has the frame it is given: that of the target's PTE,
      or 0 without one. */
  ghost predicate SameFrames(m0: Memory, r: Region)
    requires RegionOk(r)
  {
    forall i :: 0 <= i < |r.hosts| ==>
      GetPfn(Resolve(m0, r.targetRoot, r.targets[i]).pte) == GetPfn(HostPte(m0, r, i))
  }

  lemma SameFramesIff(m0: Memory, r: Region)
    requires RegionOk(r)
    ensures SameFrames(m0, r) <==> forall i :: 0 <= i < |r.hosts| ==> NewPte(m0, r, i) == HostPte(m0, r, i)
  {
    hide Resolve, SetPfn, GetPfn, SmallPfn;
    forall i | 0 <= i < |r.hosts|
      ensures GetPfn(Resolve(m0, r.targetRoot, r.targets[i]).pte) == GetPfn(HostPte(m0, r, i))
              <==> NewPte(m0, r, i) == HostPte(m0, r, i)
    {
      GetPfnSmall(Resolve(m0, r.targetRoot, r.targets[i]).pte);
      SamePteIff(HostPte(m0, r, i), GetPfn(Resolve(m0, r.targetRoot, r.targets[i]).pte));
    }
  }

  lemma UnchangedSameFrames(m0: Memory, r: Region)
    requires NoAliasing(m0, r) && SameMemory(MapFrom(m0, r, 0, |r.hosts|), m0)
    ensures SameFrames(m0, r)
  {
    RegionSize(m0, r);
    SameFramesIff(m0, r);
    NothingMapped(m0, r);
    MapAllPages(m0, m0, r, 0);
    var mem := MapFrom(m0, r, 0, |r.hosts|);
    hide Resolve, NoAliasing, MapFrom, NewPte, SameUpper, SameFrames;
    forall i | 0 <= i < |r.hosts|
      ensures NewPte(m0, r, i) == HostPte(m0, r, i)
    {
      assert HostWalk(m0, mem, r, i, NewPte(m0, r, i));
      SameReads(mem, m0, r.hostRoot, r.hosts[i]);
    }
  }

  lemma SameFramesUnchanged(m0: Memory, r: Region)
    requires NoAliasing(m0, r) && SameFrames(m0, r)
    ensures SameMemory(MapFrom(m0, r, 0, |r.hosts|), m0)
  {
    SameFramesIff(m0, r);
    NothingMapped(m0, r);
    MapAllPages(m0, m0, r, 0);
    MapChangesOnlySlots(m0, m0, r, 0);
    var mem := MapFrom(m0, r, 0, |r.hosts|);
    forall i | 0 <= i < |r.hosts|
      ensures Read(mem, SlotOf(m0, r, i)) == Read(m0, SlotOf(m0, r, i))
    {
      SlotAfter(m0, mem, r, i);
    }
    hide NoAliasing, MapFrom, SlotOf, Read, MappedUpTo;
  }

  lemma SlotAfter(m0: Memory, mem: Memory, r: Region, i: nat)
    requires NoAliasing(m0, r) && i < |r.hosts| && HostWalk(m0, mem, r, i, HostPte(m0, r, i))
    ensures Read(mem, SlotOf(m0, r, i)) == Read(m0, SlotOf(m0, r, i))
  {
    LeafHolds(m0, r.hostRoot, r.hosts[i]);
    LeafHolds(mem, r.hostRoot, r.hosts[i]);
    hide Resolve, Read, SameUpper;
  }

  /** A call of fh_mmap_region that maps k pages and then fails leaves page-table memory as it
      was exactly when every one of those host pages already had the frame it was given (in
      particular when k is 0). */
  lemma FailedUnchangedIff(m0: Memory, r: Region, k: nat)
    requires RegionOk(r) && k <= |r.hosts| && NoAliasing(m0, First(r, k))
    ensures SameMemory(MapFrom(m0, r, 0, k), m0) <==> SameFrames(m0, First(r, k))
  {
    hide NoAliasing, MapFrom, SameMemory, SameFrames;
    MapFirst(m0, r, 0, k);
    if SameMemory(MapFrom(m0, First(r, k), 0, k), m0) {
      UnchangedSameFrames(m0, First(r, k));
    }
    if SameFrames(m0, First(r, k)) {
      SameFramesUnchanged(m0, First(r, k));
    }
  }

  /** Two host pages on either side of a 2 MB boundary: the first has a page table, the second
      lies in a large page. The target has a page table for its first page. */
  const HALF_TABLES: Memory := map[
    Word(0x1000) := Word(0x2001), Word(0x2000) := Word(0x3001), Word(0x3000) := Word(0x4001), Word(0x4FF8) := Word(0x7001),
    Word(0x3008) := Word(0x5081), Word(0x5000) := Word(0x1),
    Word(0x10000) := Word(0x11001), Word(0x11000) := Word(0x12001), Word(0x12000) := Word(0x13001),
    Word(0x13000) := Word(0x8001)]

  const HALF_REGION := Region(Word(0x1000), Word(0x10000), [Word(0x1FF000), Word(0x200000)], [Word(0), Word(0x1000)])

  lemma HalfWalks(pte: Word)
    ensures var mem := Write(HALF_TABLES, Word(0x4FF8), pte);
            && Resolve(mem, Word(0x1000), Word(0x1FF000))
               == Entry(Word(0x2001), Word(0x3001), Word(0x4001), pte, {PGD, PUD, PMD, PTE})
            && Resolve(mem, Word(0x1000), Word(0x200000))
               == Entry(Word(0x2001), Word(0x3001), Word(0x5081), ZERO, {PGD, PUD, PMD})
            && Read(mem, Word(0x5000)) == Word(0x1)
            && Resolve(mem, Word(0x10000), Word(0))
               == Entry(Word(0x11001), Word(0x12001), Word(0x13001), Word(0x8001), {PGD, PUD, PMD, PTE})
  {
    HalfSlots();
    hide PgdSlot, PudSlot, PmdSlot, PteSlot;
  }

  lemma HalfSlots()
    ensures PgdSlot(Word(0x1000), Word(0x1FF000)) == Word(0x1000) && PgdSlot(Word(0x1000), Word(0x200000)) == Word(0x1000)
    ensures PudSlot(Word(0x2001), Word(0x1FF000)) == Word(0x2000) && PudSlot(Word(0x2001), Word(0x200000)) == Word(0x2000)
    ensures PmdSlot(Word(0x3001), Word(0x1FF000)) == Word(0x3000) && PmdSlot(Word(0x3001), Word(0x200000)) == Word(0x3008)
    ensures PteSlot(Word(0x4001), Word(0x1FF000)) == Word(0x4FF8) && PteSlot(Word(0x5081), Word(0x200000)) == Word(0x5000)
    ensures PgdSlot(Word(0x10000), Word(0)) == Word(0x10000) && PudSlot(Word(0x11001), Word(0)) == Word(0x11000)
    ensures PmdSlot(Word(0x12001), Word(0)) == Word(0x12000) && PteSlot(Word(0x13001), Word(0)) == Word(0x13000)
  {
  }

  /** There the first page is redirected and the second fails, so that the call returns -1 with
      the first PTE changed. */
  lemma FailureLeavesPageRedirected()
    ensures && PteFound(HALF_TABLES, HALF_REGION, 0)
            && !PteFound(MapOne(HALF_TABLES, HALF_REGION, 0), HALF_REGION, 1)
            && !SameMemory(MapOne(HALF_TABLES, HALF_REGION, 0), HALF_TABLES)
  {
    var m0 := HALF_TABLES;
    assert Write(m0, Word(0x4FF8), Word(0x7001)) == m0;
    HalfWalks(Word(0x7001));
    HalfSlots();
    assert SetPfn(Word(0x7001), GetPfn(Word(0x8001))) == Word(0x8001);
    HalfWalks(Word(0x8001));
    hide Resolve, PgdSlot, PudSlot, PmdSlot, PteSlot, SetPfn, GetPfn;
    assert MapOne(m0, HALF_REGION, 0) == Write(m0, Word(0x4FF8), Word(0x8001));
    assert Read(Write(m0, Word(0x4FF8), Word(0x8001)), Word(0x4FF8)) != Read(m0, Word(0x4FF8));
  }

  /** It is the region of a call with two pages from 0x1FF000 on. */
  lemma HalfRegionIs()
    ensures HALF_REGION == RegionAt(Word(0x1000), Word(0x10000), Word(0x1FF000), Word(0x123), 2)
  {
    var r := RegionAt(Word(0x1000), Word(0x10000), Word(0x1FF000), Word(0x123), 2);
    assert r.hosts[1] == NextPage(r.hosts[0]) && r.targets[1] == NextPage(r.targets[0]);
    hide Pages;
    assert r.targets[0] == Word(0);
    assert r.hosts == [Word(0x1FF000), Word(0x200000)] && r.targets == [Word(0), Word(0x1000)];
  }

  // ----- a target page that is not there -----

  /** One host page of those tables, and a target page without any table. */
  const ABSENT_REGION := Region(Word(0x1000), Word(0x10000), [Word(0x1FF000)], [Word(0x40000000)])

  lemma AbsentSlots()
    ensures PgdSlot(Word(0x10000), Word(0x40000000)) == Word(0x10000)
    ensures PudSlot(Word(0x11001), Word(0x40000000)) == Word(0x11008)
  {
  }

  /** The slots its walks read and what they find there. */
  lemma AbsentHost()
    ensures Resolve(HALF_TABLES, Word(0x1000), Word(0x1FF000))
            == Entry(Word(0x2001), Word(0x3001), Word(0x4001), Word(0x7001), {PGD, PUD, PMD, PTE})
    ensures LeafSlot(HALF_TABLES, Word(0x1000), Word(0x1FF000)) == Word(0x4FF8)
    ensures !ReadsUpper(HALF_TABLES, Word(0x1000), Word(0x1FF000), Word(0x4FF8))
  {
    HalfSlots();
    hide PgdSlot, PudSlot, PmdSlot, PteSlot;
  }

  lemma AbsentTarget()
    ensures Resolve(HALF_TABLES, Word(0x10000), Word(0x40000000)) == Entry(Word(0x11001), ZERO, ZERO, ZERO, {PGD, PUD})
    ensures !ReadsUpper(HALF_TABLES, Word(0x10000), Word(0x40000000), Word(0x4FF8))
  {
    AbsentSlots();
    hide PgdSlot, PudSlot, PmdSlot, PteSlot;
  }

  lemma AbsentNoAliasing()
    ensures NoAliasing(HALF_TABLES, ABSENT_REGION)
  {
    hide Resolve, ReadsUpper, LeafSlot, HALF_TABLES;
    AbsentHost();
    AbsentTarget();
  }

  lemma AbsentMapped()
    ensures PteFound(HALF_TABLES, ABSENT_REGION, 0)
    ensures MapFrom(HALF_TABLES, ABSENT_REGION, 0, 1) == Write(HALF_TABLES, Word(0x4FF8), Word(0x1))
  {
    assert SetPfn(Word(0x7001), GetPfn(ZERO)) == Word(0x1) && Read(HALF_TABLES, Word(0x4FF8)) == Word(0x7001);
    hide Resolve, LeafSlot, HALF_TABLES, SetPfn, GetPfn, Write, Read;
    AbsentHost();
    AbsentTarget();
    assert MapFrom(HALF_TABLES, ABSENT_REGION, 0, 1) == MapOne(HALF_TABLES, ABSENT_REGION, 0);
  }

  /** Nothing aliases, the page is found, and the host's PTE is set to frame 0: the call
      returns 0 with a host page that is not the target's. */
  lemma AbsentTargetGetsFrameZero()
    ensures NoAliasing(HALF_TABLES, ABSENT_REGION) && PteFound(HALF_TABLES, ABSENT_REGION, 0)
    ensures var mem := MapFrom(HALF_TABLES, ABSENT_REGION, 0, 1);
            && mem == Write(HALF_TABLES, Word(0x4FF8), Word(0x1))
            && TranslatesTo(mem, Word(0x1000), Word(0x1FF000), ZERO)
            && !Shared(mem, ABSENT_REGION, 0)
  {
    assert GetPfn(Word(0x1)) == ZERO && Present(Word(0x1));
    hide Resolve, NoAliasing, MapFrom, PteFound, Shared, GetPfn, Present, LeafSlot, HALF_TABLES, Write;
    AbsentHost();
    AbsentTarget();
    AbsentNoAliasing();
    AbsentMapped();
    HalfWalks(Word(0x1));
    RegionTranslates(HALF_TABLES, ABSENT_REGION, 0);
  }
}
