/** The x86-64 page-table walk and page-table edits of the PTEditor library: four levels
    of 512 entries over a physical memory of 64-bit words (section 4.5 of the Intel SDM,
    Volume 3A). */
module PageTable {

  /** A 64-bit word: a physical address, a virtual address or a table entry. */
  datatype Word = Word(bits: bv64)

  const ZERO := Word(0)

  /** Physical memory; an address that cannot be read yields 0. */
  type Memory = map<Word, Word>

  function Read(mem: Memory, a: Word): Word { if a in mem then mem[a] else ZERO }

  function Write(mem: Memory, a: Word, v: Word): Memory { mem[a := v] }

  // ----- entries -----

  predicate Present(e: Word) { e.bits & 1 != 0 }

  /** The size bit of a PMD entry: it maps a large page instead of a page table. */
  predicate Large(e: Word) { e.bits & 0x80 != 0 }

  /** The 28-bit pfn field of the entry structures, as a table's physical address. */
  function TableField(e: bv64): bv64 { ((e >> 12) & 0xFFFFFFF) << 12 }

  function TableOf(e: Word): bv64 { TableField(e.bits) }

  /** ptedit_set_pfn and ptedit_get_pfn work on a 40-bit field; the flags lie around it. */
  function SetField(pte: bv64, pfn: bv64): bv64 { (pte & 0xFFF0000000000FFF) | (pfn << 12) }

  function GetField(pte: bv64): bv64 { (pte & 0x000FFFFFFFFFF000) >> 12 }

  function FlagBits(pte: bv64): bv64 { pte & 0xFFF0000000000FFF }

  predicate SmallField(pfn: bv64) { pfn < 0x10000000000 }

  function SetPfn(pte: Word, pfn: Word): Word { Word(SetField(pte.bits, pfn.bits)) }

  function GetPfn(pte: Word): Word { Word(GetField(pte.bits)) }

  function Flags(pte: Word): Word { Word(FlagBits(pte.bits)) }

  predicate SmallPfn(pfn: Word) { SmallField(pfn.bits) }

  /** A pfn below 2^40 is read back, and then every other bit is kept; a larger pfn is not
      read back. */
  lemma SetThenGetPfn(pte: Word, pfn: Word)
    ensures GetPfn(SetPfn(pte, pfn)) == pfn <==> SmallPfn(pfn)
    ensures SmallPfn(pfn) ==> Flags(SetPfn(pte, pfn)) == Flags(pte)
  {
  }

  /** The pfn is the 40 bits from bit 12 on, and every other bit is a flag. */
  lemma FieldBits(pte: bv64)
    ensures GetField(pte) == (pte >> 12) & 0xFFFFFFFFFF
    ensures FlagBits(pte) | (GetField(pte) << 12) == pte
  {
  }

  lemma SetBits(pte: bv64, pfn: bv64)
    requires pfn >> 40 == 0
    ensures SetField(pte, pfn) >> 52 == pte >> 52 && SetField(pte, pfn) & 0xFFF == pte & 0xFFF
  {
  }

  /** The pfn field of any entry fits. */
  lemma GetPfnSmall(pte: Word)
    ensures SmallPfn(GetPfn(pte))
  {
  }

  // ----- the walk -----

  /** The paging root without its lowest bit; there is no walk from root 0. */
  predicate RootOk(root: Word) { root.bits & 0xFFFFFFFFFFFFFFFE != 0 }

  function Index(addr: Word, shift: bv6): bv64 { (addr.bits >> shift) & 0x1FF }

  function PgdSlot(root: Word, addr: Word): Word { Word((root.bits & 0xFFFFFFFFFFFFFFFE) + (Index(addr, 39) << 3)) }

  function PudSlot(pgd: Word, addr: Word): Word { Word(TableOf(pgd) + (Index(addr, 30) << 3)) }

  function PmdSlot(pud: Word, addr: Word): Word { Word(TableOf(pud) + (Index(addr, 21) << 3)) }

  function PteSlot(pmd: Word, addr: Word): Word { Word(TableOf(pmd) + (Index(addr, 12) << 3)) }

  /** Where in its table a slot lies, as the index times the entry size. */
  function InTable(slot: Word): bv64 { slot.bits & 0xFFF }

  /** The slot of an index in an aligned table lies in that table, at eight times the index. */
  lemma SlotInTable(table: bv64, index: bv64)
    requires table & 0xFFF == 0 && index <= 0x1FF
    ensures (table + (index << 3)) & 0xFFF == index << 3 && (table + (index << 3)) & 0xFFFFFFFFFFFFF000 == table
  {
  }

  lemma IndexBounded(addr: Word, shift: bv6)
    ensures Index(addr, shift) <= 0x1FF
  {
  }

  lemma TableAligned(e: Word)
    ensures TableOf(e) & 0xFFF == 0 && TableOf(e) == e.bits & 0xFFFFFFF000
  {
    hide TableField;
    FieldIsTable(e.bits);
  }

  lemma FieldIsTable(x: bv64)
    ensures TableField(x) == x & 0xFFFFFFF000 && TableField(x) & 0xFFF == 0
  {
  }

  lemma IndexesSpell(addr: Word)
    ensures (Index(addr, 39) << 3 << 36) | (Index(addr, 30) << 3 << 27) | (Index(addr, 21) << 3 << 18)
            | (Index(addr, 12) << 3 << 9) | (addr.bits & 0xFFF) == addr.bits & 0xFFFFFFFFFFFF
  {
  }

  lemma RootAligned(root: Word)
    requires root.bits & 0xFFE == 0
    ensures root.bits & 0xFFFFFFFFFFFFFFFE == root.bits & 0xFFFFFFFFFFFFF000
    ensures (root.bits & 0xFFFFFFFFFFFFF000) & 0xFFF == 0
  {
  }

  /** The four slots of a walk spell the 48-bit address, nine bits each, above the page
      offset; each slot lies in the table that the entry above it names. */
  lemma SlotsSpellAddress(root: Word, pgd: Word, pud: Word, pmd: Word, addr: Word)
    requires root.bits & 0xFFE == 0
    ensures (InTable(PgdSlot(root, addr)) << 36) | (InTable(PudSlot(pgd, addr)) << 27) | (InTable(PmdSlot(pud, addr)) << 18)
            | (InTable(PteSlot(pmd, addr)) << 9) | (addr.bits & 0xFFF) == addr.bits & 0xFFFFFFFFFFFF
    ensures PgdSlot(root, addr).bits & 0xFFFFFFFFFFFFF000 == root.bits & 0xFFFFFFFFFFFFF000
    ensures PudSlot(pgd, addr).bits & 0xFFFFFFFFFFFFF000 == pgd.bits & 0xFFFFFFF000
    ensures PmdSlot(pud, addr).bits & 0xFFFFFFFFFFFFF000 == pud.bits & 0xFFFFFFF000
    ensures PteSlot(pmd, addr).bits & 0xFFFFFFFFFFFFF000 == pmd.bits & 0xFFFFFFF000
  {
    hide Index, TableOf;
    RootAligned(root);
    IndexBounded(addr, 39);
    SlotInTable(root.bits & 0xFFFFFFFFFFFFFFFE, Index(addr, 39));
    TableAligned(pgd);
    IndexBounded(addr, 30);
    SlotInTable(TableOf(pgd), Index(addr, 30));
    TableAligned(pud);
    IndexBounded(addr, 21);
    SlotInTable(TableOf(pud), Index(addr, 21));
    TableAligned(pmd);
    IndexBounded(addr, 12);
    SlotInTable(TableOf(pmd), Index(addr, 12));
    IndexesSpell(addr);
  }

  datatype Level = PGD | PUD | PMD | PTE

  /** ptedit_entry_t: the entries of the walk and which of them are valid. */
  datatype Entry = Entry(pgd: Word, pud: Word, pmd: Word, pte: Word, valid: set<Level>)

  /** ptedit_resolve_user_ext; on x86-64 the P4D level is folded into the PGD. */
  function Resolve(mem: Memory, root: Word, addr: Word): Entry {
    if !RootOk(root) then Entry(ZERO, ZERO, ZERO, ZERO, {})
    else
      var pgd := Read(mem, PgdSlot(root, addr));
      if !Present(pgd) then Entry(ZERO, ZERO, ZERO, ZERO, {})
      else
        var pud := Read(mem, PudSlot(pgd, addr));
        if !Present(pud) then Entry(pgd, pud, ZERO, ZERO, {PGD, PUD})
        else
          var pmd := Read(mem, PmdSlot(pud, addr));
          if !Present(pmd) || Large(pmd) then Entry(pgd, pud, pmd, ZERO, {PGD, PUD, PMD})
          else Entry(pgd, pud, pmd, Read(mem, PteSlot(pmd, addr)), {PGD, PUD, PMD, PTE})
  }

  lemma FlagTests(e: Word)
    ensures Present(e) <==> e.bits % 2 == 1
    ensures Large(e) <==> (e.bits >> 7) % 2 == 1
    ensures RootOk(e) <==> e.bits > 1
  {
  }

  /** Which levels a walk reaches: bit 0 of an entry leads on to the next level, and bit 7 of
      the PMD ends the walk at a large page. */
  lemma WalkReaches(mem: Memory, root: Word, addr: Word)
    ensures var e := Resolve(mem, root, addr);
            var pgd := Read(mem, PgdSlot(root, addr));
            && (PGD in e.valid <==> root.bits > 1 && pgd.bits % 2 == 1)
            && (PUD in e.valid <==> PGD in e.valid)
            && (PGD in e.valid ==> e.pgd == pgd && e.pud == Read(mem, PudSlot(e.pgd, addr)))
            && (PMD in e.valid <==> PUD in e.valid && e.pud.bits % 2 == 1)
            && (PMD in e.valid ==> e.pmd == Read(mem, PmdSlot(e.pud, addr)))
            && (PTE in e.valid <==> PMD in e.valid && e.pmd.bits % 2 == 1 && (e.pmd.bits >> 7) % 2 == 0)
            && (PTE in e.valid ==> e.pte == Read(mem, PteSlot(e.pmd, addr)))
  {
    hide PgdSlot, PudSlot, PmdSlot, PteSlot, Read, Present, Large, RootOk;
    var e := Resolve(mem, root, addr);
    FlagTests(root);
    FlagTests(Read(mem, PgdSlot(root, addr)));
    FlagTests(e.pud);
    FlagTests(e.pmd);
  }

  /** Whether the walk reads a slot at one of the three upper levels. */
  predicate ReadsUpper(mem: Memory, root: Word, addr: Word, slot: Word) {
    && RootOk(root)
    && var pgd := Read(mem, PgdSlot(root, addr));
       (slot == PgdSlot(root, addr)
        || (Present(pgd)
            && var pud := Read(mem, PudSlot(pgd, addr));
               slot == PudSlot(pgd, addr) || (Present(pud) && slot == PmdSlot(pud, addr))))
  }

  /** Whether the walk reads a slot at any level. */
  predicate Reads(mem: Memory, root: Word, addr: Word, slot: Word) {
    || ReadsUpper(mem, root, addr, slot)
    || (PTE in Resolve(mem, root, addr).valid && slot == LeafSlot(mem, root, addr))
  }

  /** The slot of the PTE, for an address mapped through a page table. */
  function LeafSlot(mem: Memory, root: Word, addr: Word): Word { PteSlot(Resolve(mem, root, addr).pmd, addr) }

  /** ptedit_update_user_ext: every level marked in vm that the walk reached is written,
      leaf first, through the entries found before the first write. */
  function Update(mem: Memory, root: Word, addr: Word, vm: Entry): Memory {
    if !RootOk(root) then mem
    else
      var cur := Resolve(mem, root, addr);
      var m1 := if PTE in vm.valid && PTE in cur.valid then Write(mem, PteSlot(cur.pmd, addr), vm.pte) else mem;
      var m2 := if PMD in vm.valid && PMD in cur.valid then Write(m1, PmdSlot(cur.pud, addr), vm.pmd) else m1;
      var m3 := if PUD in vm.valid && PUD in cur.valid then Write(m2, PudSlot(cur.pgd, addr), vm.pud) else m2;
      if PGD in vm.valid && PGD in cur.valid then Write(m3, PgdSlot(root, addr), vm.pgd) else m3
  }

  /** ptedit_pte_get_pfn and ptedit_pte_set_pfn. */
  function PteGetPfn(mem: Memory, root: Word, addr: Word): Word {
    var vm := Resolve(mem, root, addr);
    if PTE !in vm.valid then ZERO else GetPfn(vm.pte)
  }

  function PteSetPfn(mem: Memory, root: Word, addr: Word, pfn: Word): Memory {
    var vm := Resolve(mem, root, addr);
    if PTE !in vm.valid then mem
    else Update(mem, root, addr, vm.(pte := SetPfn(vm.pte, pfn), valid := {PTE}))
  }

  // ----- frame -----

  lemma ReadAfterWrite(mem: Memory, a: Word, v: Word, b: Word)
    ensures Read(Write(mem, a, v), b) == if a == b then v else Read(mem, b)
  {
  }

  /** A write to a slot that a walk does not read leaves the walk and its slots unchanged. */
  lemma WalkFrame(mem: Memory, root: Word, addr: Word, slot: Word, v: Word)
    requires !Reads(mem, root, addr, slot)
    ensures Resolve(Write(mem, slot, v), root, addr) == Resolve(mem, root, addr)
    ensures forall x :: ReadsUpper(Write(mem, slot, v), root, addr, x) == ReadsUpper(mem, root, addr, x)
  {
  }

  /** A write to the PTE slot that is no upper slot of the same walk is seen by the next walk,
      with the upper levels unchanged. */
  lemma LeafWriteSeen(mem: Memory, root: Word, addr: Word, v: Word)
    requires PTE in Resolve(mem, root, addr).valid
    requires !ReadsUpper(mem, root, addr, LeafSlot(mem, root, addr))
    ensures Resolve(Write(mem, LeafSlot(mem, root, addr), v), root, addr) == Resolve(mem, root, addr).(pte := v)
    ensures forall x :: ReadsUpper(Write(mem, LeafSlot(mem, root, addr), v), root, addr, x) == ReadsUpper(mem, root, addr, x)
  {
  }

  /** If the leaf slot is an upper slot of its own walk, writing another value there changes
      what the next walk finds at that level. */
  lemma AliasedWriteBreaks(mem: Memory, root: Word, addr: Word, v: Word)
    requires PTE in Resolve(mem, root, addr).valid
    requires ReadsUpper(mem, root, addr, LeafSlot(mem, root, addr)) && v != Resolve(mem, root, addr).pte
    ensures Resolve(Write(mem, LeafSlot(mem, root, addr), v), root, addr) != Resolve(mem, root, addr).(pte := v)
  {
    var slot := LeafSlot(mem, root, addr);
    hide PgdSlot, PudSlot, PmdSlot, PteSlot, Present, Large, Read, Write, RootOk;
    var cur := Resolve(mem, root, addr);
    var next := Resolve(Write(mem, slot, v), root, addr);
    ReadAfterWrite(mem, slot, v, PgdSlot(root, addr));
    ReadAfterWrite(mem, slot, v, PudSlot(cur.pgd, addr));
    ReadAfterWrite(mem, slot, v, PmdSlot(cur.pud, addr));
    if slot == PgdSlot(root, addr) {
      assert cur.pgd == cur.pte && (next.pgd == v || PGD !in next.valid);
    } else if slot == PudSlot(cur.pgd, addr) {
      assert cur.pud == cur.pte && next.pud == v;
    } else {
      assert slot == PmdSlot(cur.pud, addr) && cur.pmd == cur.pte && next.pmd == v;
    }
  }

  lemma WriteBack(mem: Memory, root: Word, addr: Word, v: Word)
    requires PTE in Resolve(mem, root, addr).valid && v == Resolve(mem, root, addr).pte
    ensures Resolve(Write(mem, LeafSlot(mem, root, addr), v), root, addr) == Resolve(mem, root, addr)
  {
    var slot := LeafSlot(mem, root, addr);
    assert Read(mem, slot) == v;
    hide Resolve, Read, Write;
    forall x
      ensures Read(Write(mem, slot, v), x) == Read(mem, x)
    {
      ReadAfterWrite(mem, slot, v, x);
    }
    SameReads(mem, Write(mem, slot, v), root, addr);
  }

  lemma SameReads(a: Memory, b: Memory, root: Word, addr: Word)
    requires forall x :: Read(a, x) == Read(b, x)
    ensures Resolve(a, root, addr) == Resolve(b, root, addr)
  {
    hide PgdSlot, PudSlot, PmdSlot, PteSlot, Present, Large, Read, RootOk;
  }

  ghost predicate SameReadings(a: Memory, b: Memory) { forall x :: Read(a, x) == Read(b, x) }

  lemma WriteSame(mem: Memory, m: Memory, slot: Word)
    requires SameReadings(m, mem)
    ensures SameReadings(Write(m, slot, Read(mem, slot)), mem)
  {
    hide Read, Write;
    forall x
      ensures Read(Write(m, slot, Read(mem, slot)), x) == Read(mem, x)
    {
      ReadAfterWrite(m, slot, Read(mem, slot), x);
    }
  }

  /** Writing back what resolve found changes nothing, at any level. */
  lemma UpdateOfResolved(mem: Memory, root: Word, addr: Word)
    ensures SameReadings(Update(mem, root, addr, Resolve(mem, root, addr)), mem)
  {
    hide PgdSlot, PudSlot, PmdSlot, PteSlot, Present, Large, Read, Write, SameReadings;
    var cur := Resolve(mem, root, addr);
    SameItself(mem);
    if RootOk(root) {
      var m1 := if PTE in cur.valid then Write(mem, PteSlot(cur.pmd, addr), cur.pte) else mem;
      WriteSame(mem, mem, PteSlot(cur.pmd, addr));
      var m2 := if PMD in cur.valid then Write(m1, PmdSlot(cur.pud, addr), cur.pmd) else m1;
      WriteSame(mem, m1, PmdSlot(cur.pud, addr));
      var m3 := if PUD in cur.valid then Write(m2, PudSlot(cur.pgd, addr), cur.pud) else m2;
      WriteSame(mem, m2, PudSlot(cur.pgd, addr));
      WriteSame(mem, m3, PgdSlot(root, addr));
    }
  }

  /** Only slots of levels that are marked and that the walk reached are written. */
  lemma UpdateLeavesOthers(mem: Memory, root: Word, addr: Word, vm: Entry, x: Word)
    requires var cur := Resolve(mem, root, addr);
             && (PTE in vm.valid && PTE in cur.valid ==> x != PteSlot(cur.pmd, addr))
             && (PMD in vm.valid && PMD in cur.valid ==> x != PmdSlot(cur.pud, addr))
             && (PUD in vm.valid && PUD in cur.valid ==> x != PudSlot(cur.pgd, addr))
             && (PGD in vm.valid && PGD in cur.valid ==> x != PgdSlot(root, addr))
    ensures Read(Update(mem, root, addr, vm), x) == Read(mem, x)
  {
    hide PgdSlot, PudSlot, PmdSlot, PteSlot, Resolve, RootOk;
  }

  lemma SameItself(mem: Memory)
    ensures SameReadings(mem, mem)
  {
  }

  lemma UpdateOfLeaf(mem: Memory, root: Word, addr: Word, vm: Entry)
    requires PTE in Resolve(mem, root, addr).valid && vm.valid == {PTE}
    ensures Update(mem, root, addr, vm) == Write(mem, LeafSlot(mem, root, addr), vm.pte)
  {
    hide PgdSlot, PudSlot, PmdSlot, PteSlot, Present, Large, Read, Write;
  }

  /** Updating one PTE through resolve and update is seen by the next resolve, with all
      upper levels unchanged, exactly when the page tables do not place the PTE in one of
      the upper tables of its own walk (or nothing changes). */
  lemma PteUpdateSeenIff(mem: Memory, root: Word, addr: Word, vm: Entry)
    requires PTE in Resolve(mem, root, addr).valid && vm.valid == {PTE}
    ensures var cur := Resolve(mem, root, addr);
            Resolve(Update(mem, root, addr, vm), root, addr) == cur.(pte := vm.pte)
            <==> !ReadsUpper(mem, root, addr, LeafSlot(mem, root, addr)) || vm.pte == cur.pte
  {
    hide *;
    UpdateOfLeaf(mem, root, addr, vm);
    if !ReadsUpper(mem, root, addr, LeafSlot(mem, root, addr)) {
      LeafWriteSeen(mem, root, addr, vm.pte);
    } else if vm.pte == Resolve(mem, root, addr).pte {
      WriteBack(mem, root, addr, vm.pte);
    } else {
      AliasedWriteBreaks(mem, root, addr, vm.pte);
    }
  }

  /** ... and leaves the walk of every address that does not read the written slot unchanged. */
  lemma PteUpdateFrame(mem: Memory, root: Word, addr: Word, vm: Entry, root': Word, addr': Word)
    requires PTE in Resolve(mem, root, addr).valid && vm.valid == {PTE}
    requires !Reads(mem, root', addr', LeafSlot(mem, root, addr))
    ensures Resolve(Update(mem, root, addr, vm), root', addr') == Resolve(mem, root', addr')
  {
    hide *;
    UpdateOfLeaf(mem, root, addr, vm);
    WalkFrame(mem, root', addr', LeafSlot(mem, root, addr), vm.pte);
  }

  /** ptedit_pte_set_pfn then ptedit_pte_get_pfn returns the pfn and keeps the flag bits. */
  lemma PteSetThenGetPfn(mem: Memory, root: Word, addr: Word, pfn: Word)
    requires PTE in Resolve(mem, root, addr).valid && SmallPfn(pfn)
    requires !ReadsUpper(mem, root, addr, LeafSlot(mem, root, addr))
    ensures var mem' := PteSetPfn(mem, root, addr, pfn);
            && PteGetPfn(mem', root, addr) == pfn
            && Flags(Resolve(mem', root, addr).pte) == Flags(Resolve(mem, root, addr).pte)
  {
    var cur := Resolve(mem, root, addr);
    var vm := cur.(pte := SetPfn(cur.pte, pfn), valid := {PTE});
    PteUpdateSeenIff(mem, root, addr, vm);
    SetThenGetPfn(cur.pte, pfn);
    hide Resolve, Update, SetPfn, GetPfn, Flags, SmallPfn, ReadsUpper, LeafSlot;
  }
}
