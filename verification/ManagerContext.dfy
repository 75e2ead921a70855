/** struct ctx_struct of the host manager, with the methods that save and restore it. */
module ManagerContexts {
  import opened Words
  import opened AddrMaps
  import opened HexText
  import opened Settings

  class ManagerContext {
    var pid: u32
    var from: u64
    var to: u64
    var escapePfn: u64
    var escapeVaddr: u64
    var reserve: u64
    var pfnMin: u64
    var pfnMax: u64
    var mapSize: u64
    var checksumVaddrs: u64
    var index: AddrIndex?

    constructor (s: Saved)
      ensures View() == s && index == null
    {
      pid, from, to, escapePfn, escapeVaddr, reserve := s.pid, s.from, s.to, s.escapePfn, s.escapeVaddr, s.reserve;
      pfnMin, pfnMax, mapSize, checksumVaddrs, index := s.pfnMin, s.pfnMax, s.mapSize, 0, null;
    }

    function View(): Saved reads this {
      Saved(pid, from, to, escapePfn, escapeVaddr, reserve, pfnMin, pfnMax, mapSize)
    }

    /** The address index covers the range the context names. */
    ghost predicate Indexed() reads this, index {
      index != null && index.Valid() && index.pfnMin == pfnMin && index.pfnMax == pfnMax
    }

    ghost function Table(): seq<u64>
      requires Indexed()
      reads this, index, if index == null then null else index.slots
    {
      index.slots[..]
    }

    /** checksum_vaddrs */
    method SumVaddrs() returns (sum: u64)
      requires Indexed()
      ensures sum == VaddrSum(Table())
    {
      sum := 0;
      var i := 0;
      ghost var vs := Table();
      while i < pfnMax - pfnMin
        invariant 0 <= i <= pfnMax - pfnMin && sum == VaddrSum(vs[..i])
      {
        var v: u64 := index.Get(pfnMin + i);
        assert vs[..i + 1][..i] == vs[..i] && v == vs[i];
        sum := Wrap64(sum + v);
        i := i + 1;
      }
      assert vs[..i] == vs;
    }

    /** save_settings: the contents of the two files. */
    method SaveSettings() returns (settings: string, mappings: string)
      requires Indexed()
      ensures settings == SettingsText(View(), VaddrSum(Table()))
      ensures mappings == MappingsText(pfnMin, Table(), 0)
    {
      hide SettingsText, Pair, VaddrSum;
      var sum: u64 := SumVaddrs();
      settings := SettingsText(View(), sum);
      mappings := "";
      ghost var vs := Table();
      var i := 0;
      while i < pfnMax - pfnMin
        invariant 0 <= i <= pfnMax - pfnMin
        invariant mappings + MappingsText(pfnMin, vs, i) == MappingsText(pfnMin, vs, 0)
      {
        var v: u64 := index.Get(pfnMin + i);
        assert v == vs[i];
        ghost var before, rest := mappings, MappingsText(pfnMin, vs, i + 1);
        if v != 0 {
          mappings := mappings + Pair(pfnMin + i, v);
          assert before + (Pair(pfnMin + i, v) + rest) == mappings + rest;
        } else {
          assert before + ("" + rest) == mappings + rest;
        }
        i := i + 1;
      }
      assert mappings + "" == mappings;
    }

    /** read_settings: 0 if the checksum line is the checksum of the fields read. */
    method ReadSettings(text: string) returns (ret: int)
      modifies this
      ensures var p := ParseSettings(text, old(View()), old(checksumVaddrs));
              && View() == p.saved && checksumVaddrs == p.vsum && index == old(index)
              && ret == if p.checksum == Checksum(p.saved) then 0 else -1
    {
      hide ReadVar, Lo, Hi, Join, Wrap64;
      var check: u64;
      var rest := ReadHead(text);
      check := ReadTail(rest);
      ret := if Checksum(View()) == check then 0 else -1;
    }

    method ReadHead(text: string) returns (rest: string)
      modifies `pid, `from, `to, `escapePfn, `escapeVaddr, `reserve
      ensures (View(), rest) == ParseHead(text, old(View()))
    {
      hide ReadVar, Lo, Hi, Join;
      var a := ReadVar(text, "target_pid", Join(pid, Lo(from)));
      pid, from := Lo(a.value), Join(Hi(a.value), Hi(from));
      var b := ReadVar(a.rest, "target_from", from);
      from := b.value;
      var c := ReadVar(b.rest, "target_to", to);
      to := c.value;
      var d := ReadVar(c.rest, "escape_page_pfn", escapePfn);
      escapePfn := d.value;
      var e := ReadVar(d.rest, "escape_vaddr", escapeVaddr);
      escapeVaddr := e.value;
      var f := ReadVar(e.rest, "escape_page_reserve_size", reserve);
      reserve := f.value;
      rest := f.rest;
    }

    method ReadTail(text: string) returns (check: u64)
      modifies `pfnMin, `pfnMax, `mapSize, `checksumVaddrs
      ensures Parsed(View(), check, checksumVaddrs) == ParseTail(text, old(View()), old(checksumVaddrs))
    {
      hide ReadVar;
      var g := ReadVar(text, "addr_map_pfn_min", pfnMin);
      pfnMin := g.value;
      var h := ReadVar(g.rest, "addr_map_pfn_max", pfnMax);
      pfnMax := h.value;
      var i := ReadVar(h.rest, "addr_map_size", mapSize);
      mapSize := i.value;
      var j := ReadVar(i.rest, "checksum", 0);
      check := j.value;
      var k := ReadVar(j.rest, "checksum_vaddrs", checksumVaddrs);
      checksumVaddrs := k.value;
    }

    /** read_mappings: 0 if the restored entries add up to the saved checksum. */
    method ReadMappings(text: string, unset: nat -> Mapping) returns (ret: int)
      requires Indexed()
      modifies index.slots, index`past
      ensures Indexed() && index.View() == Apply(old(index.View()), text, unset, 0)
      ensures ret == if checksumVaddrs == VaddrSum(Table()) then 0 else -1
    {
      hide Line, ScanPair, Stored, VaddrSum;
      var rest, count := text, 0;
      while rest != ""
        invariant Indexed() && 0 <= count
        invariant Apply(index.View(), rest, unset, count) == Apply(old(index.View()), text, unset, 0)
        decreases |rest|
      {
        var line := Line(rest, 255);
        var p := ScanPair(line, unset(count));
        index.Set(p.key, p.value);
        rest := rest[|line|..];
        count := count + 1;
      }
      var sum: u64 := SumVaddrs();
      ret := if checksumVaddrs == sum then 0 else -1;
    }

    /** map_memory_from_file without the mapping of the escape page: settings, pid check, a
        fresh address index, mappings. mmap refuses an empty table; with crossed bounds every
        frame is out of range, and null stands for the index. */
    method Restore(settings: string, mappings: string, pidNow: u32, unset: nat -> Mapping, beyond: u64, memory: bool)
      returns (ret: int)
      modifies this
      ensures var p := ParseSettings(settings, old(View()), old(checksumVaddrs));
              if p.checksum == Checksum(p.saved) && p.saved.pid == pidNow && memory && p.saved.pfnMin != p.saved.pfnMax then
                && View() == p.saved.(mapSize := Wrap64(8 * (pfnMax - pfnMin)))
                && if pfnMin < pfnMax then
                     && Indexed()
                     && index.View() == Apply(AddrMap(pfnMin, Zeros(pfnMax - pfnMin), beyond), mappings, unset, 0)
                     && ret == if p.vsum == VaddrSum(Table()) then 0 else -1
                   else index == null && ret == if p.vsum == 0 then 0 else -1
              else ret == -1
    {
      hide Apply, ParseSettings, VaddrSum, Checksum;
      ret := ReadSettings(settings);
      if ret != 0 {
        return;
      }
      if pid != pidNow || pfnMin == pfnMax || !memory {
        return -1;
      }
      mapSize := Wrap64(8 * (pfnMax - pfnMin));
      if pfnMin > pfnMax {
        index := null;
        return if checksumVaddrs == 0 then 0 else -1;
      }
      var table := new AddrIndex(pfnMin, pfnMax, beyond);
      index := table;
      AllZero(index.View());
      ret := ReadMappings(mappings, unset);
    }
  }

  function Zeros(n: nat): seq<u64> { seq<u64>(n, _ => 0) }

  lemma AllZero(m: AddrMap)
    requires m.Max() < 0x1_0000_0000_0000_0000 && forall pfn: u64 :: pfn != m.Max() ==> Lookup(m, pfn) == 0
    ensures m == AddrMap(m.min, Zeros(|m.vaddrs|), Lookup(m, m.Max()))
  {
    forall i | 0 <= i < |m.vaddrs|
      ensures m.vaddrs[i] == 0
    {
      assert Lookup(m, m.min + i) == 0;
    }
    assert m.vaddrs == Zeros(|m.vaddrs|);
  }

  /** Saving a context and restoring it into any other, when mmap finds memory, restores the
      nine fields and every entry of the index, and both checksums are accepted: every frame
      answers as before, except pfn_max. Its address is not saved, and it answers with
      whatever word follows the new table. */
  method SaveThenRestore(ctx: ManagerContext, other: ManagerContext, unset: nat -> Mapping, beyond: u64, memory: bool)
    returns (ret: int)
    requires ctx.Indexed() && ctx.mapSize == Wrap64(8 * (ctx.pfnMax - ctx.pfnMin)) && other != ctx
    modifies other
    ensures ret == if memory then 0 else -1
    ensures memory ==> other.View() == ctx.View() && other.Indexed() && other.Table() == ctx.Table()
    ensures memory ==> forall pfn: u64 ::
              Lookup(other.index.View(), pfn) == if pfn == ctx.pfnMax then beyond else Lookup(ctx.index.View(), pfn)
  {
    hide Apply, ParseSettings, SettingsText, MappingsText, VaddrSum, Checksum, Zeros;
    var settings, mappings := ctx.SaveSettings();
    ghost var vs := ctx.Table();
    SettingsRoundTrip(ctx.View(), VaddrSum(vs), other.View(), other.checksumVaddrs);
    ret := other.Restore(settings, mappings, ctx.pid, unset, beyond, memory);
    FromZeros(ctx.pfnMin, vs, beyond, unset);
  }

  lemma FromZeros(min: u64, vs: seq<u64>, past: u64, unset: nat -> Mapping)
    requires min + |vs| < 0x1_0000_0000_0000_0000
    ensures Apply(AddrMap(min, Zeros(|vs|), past), MappingsText(min, vs, 0), unset, 0) == AddrMap(min, vs, past)
  {
    hide Apply, MappingsText;
    MappingsRoundTrip(min, vs, 0, AddrMap(min, Zeros(|vs|), past), unset, 0);
  }
}
