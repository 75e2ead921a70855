/** devmem_delegate_mem_range_sgl: neighbouring scatter-list entries are merged into one
    range before the granules are handed over, instead of delegating page by page. */
module Granules {
  import opened Words

  /** page_to_phys(sg_page(sg)) and sg->length. */
  datatype SgPage = SgPage(phys: u64, length: u32)

  /** One devmem_delegate_mem_range_device call. */
  datatype Range = Range(base: u64, count: nat)

  function Pages(length: u32): nat { CeilDiv(length, 4096) }

  /** n granules from a base address on. */
  function GranulesFrom(base: u64, n: nat): seq<u64> {
    seq<u64>(n, k requires 0 <= k < n => Wrap64(base + 4096 * k))
  }

  /** Page-by-page delegation of the list. */
  function EntryGranules(sgl: seq<SgPage>): seq<u64> {
    if sgl == [] then []
    else EntryGranules(sgl[..|sgl| - 1]) + GranulesFrom(sgl[|sgl| - 1].phys, Pages(sgl[|sgl| - 1].length))
  }

  /** What a list of range calls delegates. */
  function RangeGranules(rs: seq<Range>): seq<u64> {
    if rs == [] then [] else RangeGranules(rs[..|rs| - 1]) + GranulesFrom(rs[|rs| - 1].base, rs[|rs| - 1].count)
  }

  function End(r: Range): u64 { Wrap64(r.base + 4096 * r.count) }

  /** No range starts where the one before it ends. */
  ghost predicate Unmergeable(rs: seq<Range>) {
    forall k :: 0 < k < |rs| ==> rs[k].base != End(rs[k - 1])
  }

  lemma GranulesJoin(base: u64, a: nat, b: nat)
    ensures GranulesFrom(base, a) + GranulesFrom(End(Range(base, a)), b) == GranulesFrom(base, a + b)
  {
    forall k | 0 <= k < b
      ensures GranulesFrom(End(Range(base, a)), b)[k] == GranulesFrom(base, a + b)[a + k]
    {
      WrapAdd(base + 4096 * a, 4096 * k);
    }
  }

  /** The loop counter is an unsigned int: after k turns it is 4096 k modulo 2^32, and it
      reaches the length, so that the loop ends, exactly up to 2^32 - 4096. */
  lemma CountEndsIff(length: u32)
    ensures (exists k: nat :: Wrap32(4096 * k) >= length) <==> length <= 0x1_0000_0000 - 4096
  {
    assert Wrap32(4096 * 0xF_FFFF) == 0x1_0000_0000 - 4096;
    forall k: nat
      ensures Wrap32(4096 * k) <= 0x1_0000_0000 - 4096
    {
      var x := Wrap32(4096 * k);
      assert x % 4096 == 0;
    }
  }

  /** The pages of an entry for which the loop ends. */
  method CountPages(length: u32) returns (n: nat)
    requires length <= 0x1_0000_0000 - 4096
    ensures n == Pages(length)
    ensures 4096 * (n - 1) < length <= 4096 * n || n == length == 0
  {
    n := 0;
    var j: u32 := 0;
    while j < length
      invariant j == 4096 * n && (j < length + 4096 || j == length == 0)
      decreases length - j
    {
      n := n + 1;
      j := j + 4096;
    }
  }

  /** Adding one more entry that starts where the open range ends. */
  lemma Extend(sgl: seq<SgPage>, i: nat, rs: seq<Range>, base: u64, n: nat)
    requires i < |sgl| && sgl[i].phys == End(Range(base, n))
    requires EntryGranules(sgl[..i]) == RangeGranules(rs) + GranulesFrom(base, n)
    ensures EntryGranules(sgl[..i + 1]) == RangeGranules(rs) + GranulesFrom(base, n + Pages(sgl[i].length))
  {
    hide GranulesFrom, Pages, End;
    assert sgl[..i + 1][..i] == sgl[..i];
    GranulesJoin(base, n, Pages(sgl[i].length));
    var a, b, c := RangeGranules(rs), GranulesFrom(base, n), GranulesFrom(sgl[i].phys, Pages(sgl[i].length));
    assert (a + b) + c == a + (b + c);
  }

  lemma Close(rs: seq<Range>, base: u64, n: nat)
    ensures RangeGranules(rs + [Range(base, n)]) == RangeGranules(rs) + GranulesFrom(base, n)
  {
    assert (rs + [Range(base, n)])[..|rs|] == rs;
  }

  lemma Open(g: seq<u64>, base: u64)
    ensures g == g + GranulesFrom(base, 0)
    ensures End(Range(base, 0)) == base
  {
  }

  /** The merged ranges delegate exactly the granules of the entries, in the same order, and
      no two consecutive ranges could have been one. */
  method DelegateRanges(sgl: seq<SgPage>) returns (rs: seq<Range>)
    requires forall e :: e in sgl ==> e.length <= 0x1_0000_0000 - 4096
    ensures RangeGranules(rs) == EntryGranules(sgl)
    ensures Unmergeable(rs) && |rs| <= |sgl|
    ensures forall g: u64 :: Delegated(rs, g) <==> PageOfEntry(sgl, g)
    ensures forall e, o: nat :: e in sgl && o < e.length ==> ByteDelegated(rs, e.phys, o)
  {
    hide RangeGranules, EntryGranules, GranulesFrom, Pages, Wrap64;
    rs := [];
    var i := 0;
    NothingYet(sgl);
    while i < |sgl|
      invariant 0 <= i <= |sgl| && |rs| <= i
      invariant EntryGranules(sgl[..i]) == RangeGranules(rs)
      invariant Unmergeable(rs) && (rs == [] <==> i == 0)
      invariant rs != [] && i < |sgl| ==> sgl[i].phys != End(rs[|rs| - 1])
    {
      var base: u64, count: nat := sgl[i].phys, 0;
      var next: u64, first := base, true;
      Open(RangeGranules(rs), base);
      ghost var i0 := i;
      while first || (i < |sgl| && sgl[i].phys == next)
        invariant i0 <= i <= |sgl| && (first <==> i == i0)
        invariant next == End(Range(base, count))
        invariant first ==> next == base
        invariant EntryGranules(sgl[..i]) == RangeGranules(rs) + GranulesFrom(base, count)
        decreases |sgl| - i
      {
        var n: nat := CountPages(sgl[i].length);
        Extend(sgl, i, rs, base, count);
        count := count + n;
        i := i + 1;
        next := Wrap64(base + count * 4096);
        first := false;
      }
      Close(rs, base, count);
      rs := rs + [Range(base, count)];
    }
    assert sgl[..|sgl|] == sgl;
    SameGranules(sgl, rs);
  }

  // ----- which granules these are -----

  /** g is one of n granules from a base address on. */
  ghost predicate InRange(base: u64, n: nat, g: u64) {
    exists k: nat :: k < n && g == Wrap64(base + 4096 * k)
  }

  /** A range call hands over granule g. */
  ghost predicate Delegated(rs: seq<Range>, g: u64) {
    exists r :: r in rs && InRange(r.base, r.count, g)
  }

  /** g begins a page of an entry that holds at least one of its bytes. */
  ghost predicate BeginsPage(e: SgPage, g: u64) {
    exists k: nat :: 4096 * k < e.length && g == Wrap64(e.phys + 4096 * k)
  }

  ghost predicate PageOfEntry(sgl: seq<SgPage>, g: u64) {
    exists e :: e in sgl && BeginsPage(e, g)
  }

  /** Byte o behind phys lies in a granule that is handed over. */
  ghost predicate ByteDelegated(rs: seq<Range>, phys: u64, o: nat) {
    exists g: u64 :: Delegated(rs, g) && Wrap64(phys + o - g) < 4096
  }

  lemma PagesBound(length: u32, k: nat)
    ensures k < Pages(length) <==> 4096 * k < length
  {
  }

  lemma InGranules(base: u64, n: nat, g: u64)
    ensures g in GranulesFrom(base, n) <==> InRange(base, n, g)
  {
    if InRange(base, n, g) {
      var k: nat :| k < n && g == Wrap64(base + 4096 * k);
      assert GranulesFrom(base, n)[k] == g;
    }
  }

  lemma PagesBegin(e: SgPage, g: u64)
    ensures InRange(e.phys, Pages(e.length), g) <==> BeginsPage(e, g)
  {
    hide Wrap64, Pages;
    if InRange(e.phys, Pages(e.length), g) {
      var k: nat :| k < Pages(e.length) && g == Wrap64(e.phys + 4096 * k);
      PagesBound(e.length, k);
    }
    if BeginsPage(e, g) {
      var k: nat :| 4096 * k < e.length && g == Wrap64(e.phys + 4096 * k);
      PagesBound(e.length, k);
    }
  }

  lemma {:induction false} RangesDelegate(rs: seq<Range>, g: u64)
    ensures g in RangeGranules(rs) <==> Delegated(rs, g)
  {
    hide GranulesFrom, InRange;
    if rs != [] {
      var n := |rs| - 1;
      RangesDelegate(rs[..n], g);
      InGranules(rs[n].base, rs[n].count, g);
      assert rs == rs[..n] + [rs[n]];
    }
  }

  lemma {:induction false} EntriesHave(sgl: seq<SgPage>, g: u64)
    ensures g in EntryGranules(sgl) <==> PageOfEntry(sgl, g)
  {
    hide GranulesFrom, Pages, InRange, BeginsPage;
    if sgl != [] {
      var n := |sgl| - 1;
      EntriesHave(sgl[..n], g);
      InGranules(sgl[n].phys, Pages(sgl[n].length), g);
      PagesBegin(sgl[n], g);
      assert sgl == sgl[..n] + [sgl[n]];
    }
  }

  /** A byte lies in the page that begins at a multiple of the page size before it. */
  lemma ByteInPage(phys: u64, o: nat)
    ensures 4096 * (o / 4096) <= o && Wrap64(phys + o - Wrap64(phys + 4096 * (o / 4096))) == o % 4096 < 4096
  {
    var d := o % 4096;
    assert phys + o == phys + 4096 * (o / 4096) + d;
    WrapDifference(phys + 4096 * (o / 4096), d);
  }

  lemma WrapDifference(a: nat, d: nat)
    requires d < 4096
    ensures Wrap64(a + d - Wrap64(a)) == d
  {
  }

  lemma SameGranules(sgl: seq<SgPage>, rs: seq<Range>)
    requires RangeGranules(rs) == EntryGranules(sgl)
    ensures forall g: u64 :: Delegated(rs, g) <==> PageOfEntry(sgl, g)
    ensures forall e, o: nat :: e in sgl && o < e.length ==> ByteDelegated(rs, e.phys, o)
  {
    hide Wrap64, RangeGranules, EntryGranules;
    forall g: u64
      ensures Delegated(rs, g) <==> PageOfEntry(sgl, g)
    {
      hide Delegated, PageOfEntry;
      RangesDelegate(rs, g);
      EntriesHave(sgl, g);
    }
    forall e, o: nat | e in sgl && o < e.length
      ensures ByteDelegated(rs, e.phys, o)
    {
      hide Delegated;
      ByteInPage(e.phys, o);
      var k, g := o / 4096, Wrap64(e.phys + 4096 * (o / 4096));
      assert 4096 * k < e.length && g == Wrap64(e.phys + 4096 * k);
      assert BeginsPage(e, g) && PageOfEntry(sgl, g);
    }
  }

  lemma NothingYet(sgl: seq<SgPage>)
    ensures EntryGranules(sgl[..0]) == [] && RangeGranules([]) == []
  {
  }
}
