/** The address index of the host manager: which host address backs a guest page
    frame number. The table has pfn_max - pfn_min entries, but the bound checks admit
    pfn_max itself, so the word after the table is part of the state. */
module AddrMaps {
  import opened Words

  /** The table, and the word that follows it in memory. */
  datatype AddrMap = AddrMap(min: u64, vaddrs: seq<u64>, past: u64) {
    function Max(): nat { min + |vaddrs| }
  }

  function Lookup(m: AddrMap, pfn: u64): u64 {
    if m.min <= pfn < m.Max() then m.vaddrs[pfn - m.min] else if pfn == m.Max() then m.past else 0
  }

  function Stored(m: AddrMap, pfn: u64, vaddr: u64): AddrMap {
    if m.min <= pfn < m.Max() then m.(vaddrs := m.vaddrs[pfn - m.min := vaddr])
    else if pfn == m.Max() then m.(past := vaddr)
    else m
  }

  /** The frames of [from, max) without a host address, ascending. */
  function Unmapped(m: AddrMap, from: nat): seq<u64>
    requires m.Max() < 0x1_0000_0000_0000_0000
    decreases m.Max() - from
  {
    if from >= m.Max() then []
    else (if Lookup(m, from) == 0 then [from] else []) + Unmapped(m, from + 1)
  }

  /** Unmapped lists exactly the frames that answer 0, each once, in ascending order. */
  lemma {:induction false} UnmappedExact(m: AddrMap, from: nat)
    requires m.Max() < 0x1_0000_0000_0000_0000
    ensures forall p: u64 :: p in Unmapped(m, from) <==> from <= p < m.Max() && Lookup(m, p) == 0
    ensures forall i, j :: 0 <= i < j < |Unmapped(m, from)| ==> Unmapped(m, from)[i] < Unmapped(m, from)[j]
    decreases m.Max() - from
  {
    hide Lookup;
    if from < m.Max() {
      UnmappedExact(m, from + 1);
      var rest := Unmapped(m, from + 1);
      forall j | 0 <= j < |rest|
        ensures from < rest[j]
      {
        assert rest[j] in rest;
      }
    }
  }

  /** A page of the guest's memory as the scan sees it: its frame number when the
      control word marks it and it could be read. */
  type Tags = seq<Option<u64>>

  function Vaddr(from: u64, k: nat): u64 { Wrap64(from + 4096 * k) }

  /** The address of the last of the first n pages that carries this frame number, or 0. */
  function LastTagged(from: u64, tags: Tags, n: nat, pfn: u64): u64
    requires n <= |tags|
  {
    if n == 0 then 0
    else if tags[n - 1] == Some(pfn) then Vaddr(from, n - 1)
    else LastTagged(from, tags, n - 1, pfn)
  }

  /** It is the address of a page that carries the frame and has none behind it that does. */
  lemma {:induction false} LastTaggedAt(from: u64, tags: Tags, n: nat, pfn: u64, k: nat)
    requires k < n <= |tags| && tags[k] == Some(pfn) && from + 4096 * |tags| <= 0x1_0000_0000_0000_0000
    requires forall j :: k < j < n ==> tags[j] != Some(pfn)
    ensures LastTagged(from, tags, n, pfn) == from + 4096 * k
  {
    if k < n - 1 {
      LastTaggedAt(from, tags, n - 1, pfn, k);
    }
  }

  /** Page k carries the frame, and no page behind it does. */
  predicate LastPage(tags: Tags, pfn: u64, k: nat) {
    k < |tags| && tags[k] == Some(pfn) && forall j :: k < j < |tags| ==> tags[j] != Some(pfn)
  }

  /** Every marked frame has such a page. */
  lemma {:induction false} LastPageExists(tags: Tags, pfn: u64, n: nat) returns (k: nat)
    requires n <= |tags| && Some(pfn) in tags[..n]
    ensures k < n && tags[k] == Some(pfn) && forall j :: k < j < n ==> tags[j] != Some(pfn)
    ensures n == |tags| ==> LastPage(tags, pfn, k)
  {
    assert tags[..n] == tags[..n - 1] + [tags[n - 1]];
    if tags[n - 1] == Some(pfn) {
      k := n - 1;
    } else {
      k := LastPageExists(tags, pfn, n - 1);
    }
  }

  /** With a target range that neither starts at 0 nor wraps, 0 means that no page carries it. */
  lemma {:induction false} ZeroMeansUntagged(from: u64, tags: Tags, n: nat, pfn: u64)
    requires n <= |tags| && 0 < from && from + 4096 * |tags| <= 0x1_0000_0000_0000_0000
    ensures LastTagged(from, tags, n, pfn) == 0 <==> Some(pfn) !in tags[..n]
  {
    if n > 0 {
      ZeroMeansUntagged(from, tags, n - 1, pfn);
      assert tags[..n] == tags[..n - 1] + [tags[n - 1]];
    }
  }

  /** fvpmem_find_dimensions: the least (up to INT64_MAX) and the greatest frame number found. */
  method FindDimensions(tags: Tags) returns (min: u64, max: u64)
    ensures forall k :: 0 <= k < |tags| && tags[k].Some? ==> min <= tags[k].value <= max
    ensures min <= 0x7fff_ffff_ffff_ffff
    ensures Some(min) in tags || min == 0x7fff_ffff_ffff_ffff
    ensures Some(max) in tags || max == 0
  {
    min, max := 0x7fff_ffff_ffff_ffff, 0;
    for i := 0 to |tags|
      invariant min <= 0x7fff_ffff_ffff_ffff
      invariant forall k :: 0 <= k < i && tags[k].Some? ==> min <= tags[k].value <= max
      invariant Some(min) in tags || min == 0x7fff_ffff_ffff_ffff
      invariant Some(max) in tags || max == 0
    {
      if tags[i].Some? {
        min := if min < tags[i].value then min else tags[i].value;
        max := if max > tags[i].value then max else tags[i].value;
      }
    }
  }

  class AddrIndex {
    var pfnMin: u64
    var pfnMax: u64
    var slots: array<u64>
    var past: u64

    ghost predicate Valid() reads this {
      pfnMin < pfnMax && slots.Length == pfnMax - pfnMin
    }

    ghost function View(): AddrMap
      requires Valid()
      reads this, slots
    {
      AddrMap(pfnMin, slots[..], past)
    }

    /** init_addr_map, for bounds that make a table (mmap refuses an empty one): every frame
        of the range starts unmapped. Whatever word follows the table in memory is the answer
        for pfn_max. */
    constructor (min: u64, max: u64, beyond: u64)
      requires min < max
      ensures Valid() && fresh(slots) && pfnMin == min && pfnMax == max
      ensures forall pfn: u64 :: Lookup(View(), pfn) == if pfn == max then beyond else 0
    {
      pfnMin, pfnMax := min, max;
      slots := new u64[max - min](_ => 0);
      past := beyond;
    }

    /** get_addr_map_vaddr_verify. */
    method Get(pfn: u64) returns (vaddr: u64)
      requires Valid()
      ensures vaddr == Lookup(View(), pfn)
      ensures pfnMin <= pfn < pfnMax ==> vaddr == slots[pfn - pfnMin]
      ensures pfn == pfnMax ==> vaddr == past
      ensures pfn < pfnMin || pfn > pfnMax ==> vaddr == 0
    {
      vaddr := 0;
      if pfnMin <= pfn <= pfnMax {
        vaddr := if pfn == pfnMax then past else slots[pfn - pfnMin];
      }
    }

    /** set_addr_map_vaddr. */
    method Set(pfn: u64, vaddr: u64)
      requires Valid()
      modifies slots, `past
      ensures Valid() && View() == Stored(old(View()), pfn, vaddr)
      ensures slots[..] == if pfnMin <= pfn < pfnMax then old(slots[..])[pfn - pfnMin := vaddr] else old(slots[..])
      ensures past == if pfn == pfnMax then vaddr else old(past)
    {
      if pfnMin <= pfn <= pfnMax {
        if pfn == pfnMax {
          past := vaddr;
        } else {
          slots[pfn - pfnMin] := vaddr;
        }
      }
    }

    /** fvpmem_scan_addresses over a fresh table: every frame, pfn_max included, ends at
        the address of the last page marked with it. */
    method ScanAddresses(from: u64, tags: Tags)
      requires Valid() && forall pfn: u64 :: pfnMin <= pfn < pfnMax ==> Lookup(View(), pfn) == 0
      modifies slots, `past
      ensures Valid()
      ensures forall pfn: u64 :: pfnMin <= pfn < pfnMax ==> Lookup(View(), pfn) == LastTagged(from, tags, |tags|, pfn)
      ensures past == if Some(pfnMax) in tags then LastTagged(from, tags, |tags|, pfnMax) else old(past)
      ensures from + 4096 * |tags| <= 0x1_0000_0000_0000_0000 ==>
                forall pfn: u64, k: nat :: pfnMin <= pfn <= pfnMax && LastPage(tags, pfn, k) ==>
                  Lookup(View(), pfn) == from + 4096 * k
    {
      for i := 0 to |tags|
        invariant Valid()
        invariant forall pfn: u64 :: pfnMin <= pfn < pfnMax ==> Lookup(View(), pfn) == LastTagged(from, tags, i, pfn)
        invariant past == if Some(pfnMax) in tags[..i] then LastTagged(from, tags, i, pfnMax) else old(past)
      {
        assert tags[..i + 1] == tags[..i] + [tags[i]];
        if tags[i].Some? {
          Set(tags[i].value, Vaddr(from, i));
        }
      }
      assert tags[..|tags|] == tags;
      if from + 4096 * |tags| <= 0x1_0000_0000_0000_0000 {
        forall pfn: u64, k: nat | pfnMin <= pfn <= pfnMax && LastPage(tags, pfn, k)
          ensures Lookup(View(), pfn) == from + 4096 * k
        {
          LastTaggedAt(from, tags, |tags|, pfn, k);
        }
      }
    }
  }

  /** The mapping part of map_memory_fvp_boot. With two different frame numbers a frame below
      pfn_max has no host address exactly when no page of the target carries it; the greatest
      frame found is stored in the word after the table, outside [pfn_min, pfn_max). Without a
      marked page the bounds are crossed, so that no frame passes their check and none has an
      address: null stands for this index. With a single frame number up to INT64_MAX the
      table is empty and mmap refuses it. */
  method MapMemory(from: u64, tags: Tags, beyond: u64, memory: bool) returns (ret: int, index: AddrIndex?)
    requires 0 < from && from + 4096 * |tags| <= 0x1_0000_0000_0000_0000
    ensures (forall k :: 0 <= k < |tags| ==> tags[k].None?) ==> index == null && ret == if memory then 0 else -1
    ensures (exists k :: 0 <= k < |tags| && tags[k].Some?) ==> (ret == 0 <==> index != null)
    ensures (exists k :: 0 <= k < |tags| && tags[k].Some?) ==>
              (ret == 0 <==> memory && !exists t: u64 :: t <= 0x7fff_ffff_ffff_ffff && OnlyTag(tags, t))
    ensures ret == 0 || ret == -1
    ensures index != null ==> fresh(index) && fresh(index.slots) && index.Valid()
    ensures index != null ==> Some(index.pfnMax) in tags && index.past == LastTagged(from, tags, |tags|, index.pfnMax)
    ensures index != null ==> forall pfn: u64 :: pfn < index.pfnMax ==>
              Lookup(index.View(), pfn) == LastTagged(from, tags, |tags|, pfn)
    ensures index != null ==> forall pfn: u64 :: pfn < index.pfnMax ==> (Lookup(index.View(), pfn) == 0 <==> Some(pfn) !in tags)
    ensures index != null ==> forall pfn: u64, k: nat :: pfn <= index.pfnMax && LastPage(tags, pfn, k) ==>
              Lookup(index.View(), pfn) == from + 4096 * k
  {
    index := null;
    var min: u64, max: u64 := FindDimensions(tags);
    if min == max {
      assert OnlyTag(tags, max);
    }
    if min == max || !memory {
      return -1, null;
    }
    if min > max {
      return 0, null;
    }
    ret := 0;
    index := new AddrIndex(min, max, beyond);
    index.ScanAddresses(from, tags);
    assert tags[..|tags|] == tags;
    forall pfn: u64 | pfn < max
      ensures Lookup(index.View(), pfn) == LastTagged(from, tags, |tags|, pfn)
      ensures Lookup(index.View(), pfn) == 0 <==> Some(pfn) !in tags
    {
      ZeroMeansUntagged(from, tags, |tags|, pfn);
      if pfn < min {
        assert Some(pfn) !in tags;
      }
    }
    forall pfn: u64, k: nat | pfn <= max && LastPage(tags, pfn, k)
      ensures Lookup(index.View(), pfn) == from + 4096 * k
    {
      LastTaggedAt(from, tags, |tags|, pfn, k);
    }
  }

  /** Every marked page carries the same frame number. */
  predicate OnlyTag(tags: Tags, t: u64) {
    forall k :: 0 <= k < |tags| && tags[k].Some? ==> tags[k].value == t
  }
}
