/** Saving and restoring the manager's state (usr_manager.c): nine fields and two checksums
    in one text file, the non-empty entries of the address index in another. */
module Settings {
  import opened Words
  import opened AddrMaps
  import opened HexText

  /** The nine saved fields of struct ctx_struct. */
  datatype Saved = Saved(pid: u32, from: u64, to: u64, escapePfn: u64, escapeVaddr: u64, reserve: u64,
                         pfnMin: u64, pfnMax: u64, mapSize: u64)

  /** checksum_settings */
  function Checksum(s: Saved): u64 {
    Wrap64(s.pid + s.from + s.to + s.escapePfn + s.escapeVaddr + s.reserve + s.pfnMin + s.pfnMax + s.mapSize)
  }

  /** checksum_vaddrs, over the table's entries. */
  function VaddrSum(vs: seq<u64>): u64 {
    if vs == [] then 0 else Wrap64(VaddrSum(vs[..|vs| - 1]) + vs[|vs| - 1])
  }

  lemma SumTells(a: int, x: u64, y: u64)
    ensures Wrap64(a + x) == Wrap64(a + y) <==> x == y
  {
  }

  /** A change of any one field changes the checksum. */
  lemma ChecksumDetects(s: Saved, v: u64)
    ensures v < 0x1_0000_0000 ==> (Checksum(s.(pid := v)) == Checksum(s) <==> v == s.pid)
    ensures Checksum(s.(from := v)) == Checksum(s) <==> v == s.from
    ensures Checksum(s.(to := v)) == Checksum(s) <==> v == s.to
    ensures Checksum(s.(escapePfn := v)) == Checksum(s) <==> v == s.escapePfn
    ensures Checksum(s.(escapeVaddr := v)) == Checksum(s) <==> v == s.escapeVaddr
    ensures Checksum(s.(reserve := v)) == Checksum(s) <==> v == s.reserve
    ensures Checksum(s.(pfnMin := v)) == Checksum(s) <==> v == s.pfnMin
    ensures Checksum(s.(pfnMax := v)) == Checksum(s) <==> v == s.pfnMax
    ensures Checksum(s.(mapSize := v)) == Checksum(s) <==> v == s.mapSize
  {
    hide Wrap64;
    var all := s.pid + s.from + s.to + s.escapePfn + s.escapeVaddr + s.reserve + s.pfnMin + s.pfnMax + s.mapSize;
    SumTells(all - s.pid, v, s.pid);
    SumTells(all - s.from, v, s.from);
    SumTells(all - s.to, v, s.to);
    SumTells(all - s.escapePfn, v, s.escapePfn);
    SumTells(all - s.escapeVaddr, v, s.escapeVaddr);
    SumTells(all - s.reserve, v, s.reserve);
    SumTells(all - s.pfnMin, v, s.pfnMin);
    SumTells(all - s.pfnMax, v, s.pfnMax);
    SumTells(all - s.mapSize, v, s.mapSize);
  }

  /** A change of any one entry changes the other checksum. */
  lemma {:induction false} VaddrSumDetects(vs: seq<u64>, i: nat, v: u64)
    requires i < |vs|
    ensures VaddrSum(vs[i := v]) == VaddrSum(vs) <==> v == vs[i]
  {
    hide Wrap64;
    var n := |vs| - 1;
    if i < n {
      VaddrSumDetects(vs[..n], i, v);
      assert vs[i := v][..n] == vs[..n][i := v];
      SumTells(vs[n], VaddrSum(vs[..n][i := v]), VaddrSum(vs[..n]));
    } else {
      assert vs[i := v][..n] == vs[..n];
      SumTells(VaddrSum(vs[..n]), v, vs[n]);
    }
  }

  function SettingsText(s: Saved, vsum: u64): string {
    Field("target_pid", s.pid) + (Field("target_from", s.from) + (Field("target_to", s.to)
    + (Field("escape_page_pfn", s.escapePfn) + (Field("escape_vaddr", s.escapeVaddr)
    + (Field("escape_page_reserve_size", s.reserve) + SettingsTail(s, vsum))))))
  }

  function SettingsTail(s: Saved, vsum: u64): string {
    Field("addr_map_pfn_min", s.pfnMin) + (Field("addr_map_pfn_max", s.pfnMax) + (Field("addr_map_size", s.mapSize)
    + (Field("checksum", Checksum(s)) + (Field("checksum_vaddrs", vsum) + ""))))
  }

  /** target_pid is a 32-bit field read with %lx: the upper half of the value lands in the
      lower half of target_from, which the next line overwrites. */
  function WithPid(s: Saved, v: u64): Saved {
    s.(pid := Lo(v), from := Join(Hi(v), Hi(s.from)))
  }

  datatype Parsed = Parsed(saved: Saved, checksum: u64, vsum: u64)

  function ParseHead(text: string, s: Saved): (r: (Saved, string)) {
    var a := ReadVar(text, "target_pid", Join(s.pid, Lo(s.from)));
    var s := WithPid(s, a.value);
    var b := ReadVar(a.rest, "target_from", s.from);
    var c := ReadVar(b.rest, "target_to", s.to);
    var d := ReadVar(c.rest, "escape_page_pfn", s.escapePfn);
    var e := ReadVar(d.rest, "escape_vaddr", s.escapeVaddr);
    var f := ReadVar(e.rest, "escape_page_reserve_size", s.reserve);
    (s.(from := b.value, to := c.value, escapePfn := d.value, escapeVaddr := e.value, reserve := f.value), f.rest)
  }

  function ParseTail(text: string, s: Saved, vsum: u64): Parsed {
    var g := ReadVar(text, "addr_map_pfn_min", s.pfnMin);
    var h := ReadVar(g.rest, "addr_map_pfn_max", s.pfnMax);
    var i := ReadVar(h.rest, "addr_map_size", s.mapSize);
    var j := ReadVar(i.rest, "checksum", 0);
    var k := ReadVar(j.rest, "checksum_vaddrs", vsum);
    Parsed(s.(pfnMin := g.value, pfnMax := h.value, mapSize := i.value), j.value, k.value)
  }

  /** read_settings over an existing context. */
  function ParseSettings(text: string, was: Saved, vsum: u64): Parsed {
    var (s, rest) := ParseHead(text, was);
    ParseTail(rest, s, vsum)
  }

  lemma PidReadsBack(s: Saved, v: u32)
    ensures WithPid(s, v).pid == v && WithPid(s, v).(from := s.from) == s.(pid := v)
  {
  }

  lemma HeadReadsBack(s: Saved, vsum: u64, was: Saved)
    ensures ParseHead(SettingsText(s, vsum), was)
         == (s.(pfnMin := was.pfnMin, pfnMax := was.pfnMax, mapSize := was.mapSize), SettingsTail(s, vsum))
  {
    hide ReadVar, Field, Wrap64, SettingsTail, WithPid, Join, Hi, Lo;
    var f := SettingsTail(s, vsum);
    var e := Field("escape_page_reserve_size", s.reserve) + f;
    var d := Field("escape_vaddr", s.escapeVaddr) + e;
    var c := Field("escape_page_pfn", s.escapePfn) + d;
    var b := Field("target_to", s.to) + c;
    var a := Field("target_from", s.from) + b;
    PidReadsBack(was, s.pid);
    var was' := WithPid(was, s.pid);
    ReadBack("target_pid", s.pid, a, Join(was.pid, Lo(was.from)));
    ReadBack("target_from", s.from, b, was'.from);
    ReadBack("target_to", s.to, c, was'.to);
    ReadBack("escape_page_pfn", s.escapePfn, d, was'.escapePfn);
    ReadBack("escape_vaddr", s.escapeVaddr, e, was'.escapeVaddr);
    ReadBack("escape_page_reserve_size", s.reserve, f, was'.reserve);
  }

  lemma TailReadsBack(s: Saved, vsum: u64, was: Saved, wasSum: u64)
    ensures ParseTail(SettingsTail(s, vsum), was, wasSum)
         == Parsed(was.(pfnMin := s.pfnMin, pfnMax := s.pfnMax, mapSize := s.mapSize), Checksum(s), vsum)
  {
    hide ReadVar, Field, Checksum;
    var k := Field("checksum_vaddrs", vsum) + "";
    var j := Field("checksum", Checksum(s)) + k;
    var i := Field("addr_map_size", s.mapSize) + j;
    var h := Field("addr_map_pfn_max", s.pfnMax) + i;
    ReadBack("addr_map_pfn_min", s.pfnMin, h, was.pfnMin);
    ReadBack("addr_map_pfn_max", s.pfnMax, i, was.pfnMax);
    ReadBack("addr_map_size", s.mapSize, j, was.mapSize);
    ReadBack("checksum", Checksum(s), k, 0);
    ReadBack("checksum_vaddrs", vsum, "", wasSum);
  }

  /** Reading the printed settings into any context restores all nine fields, and the
      checksum that was printed is the checksum of what was read. */
  lemma SettingsRoundTrip(s: Saved, vsum: u64, was: Saved, wasSum: u64)
    ensures ParseSettings(SettingsText(s, vsum), was, wasSum) == Parsed(s, Checksum(s), vsum)
  {
    hide ParseHead, ParseTail, SettingsText, SettingsTail, Checksum;
    HeadReadsBack(s, vsum, was);
    TailReadsBack(s, vsum, s.(pfnMin := was.pfnMin, pfnMax := was.pfnMax, mapSize := was.mapSize), wasSum);
  }

  /** The mapping file: one line for every non-zero entry. */
  function MappingsText(min: u64, vs: seq<u64>, i: nat): string
    requires i <= |vs| && min + |vs| <= 0x1_0000_0000_0000_0000
    decreases |vs| - i
  {
    if i == |vs| then ""
    else (if vs[i] != 0 then Pair(min + i, vs[i]) else "") + MappingsText(min, vs, i + 1)
  }

  /** read_mappings' loop from line number i on; unset(i) is what its unassigned variables
      hold at line i. */
  function Apply(m: AddrMap, text: string, unset: nat -> Mapping, i: nat): AddrMap
    decreases |text|
  {
    if text == "" then m
    else
      var line := Line(text, 255);
      var p := ScanPair(line, unset(i));
      Apply(Stored(m, p.key, p.value), text[|line|..], unset, i + 1)
  }

  lemma ApplyStep(m: AddrMap, key: u64, value: u64, rest: string, unset: nat -> Mapping, i: nat)
    ensures Apply(m, Pair(key, value) + rest, unset, i) == Apply(Stored(m, key, value), rest, unset, i + 1)
  {
    hide Stored, Line, ScanPair;
    PairLine(key, value, rest);
    PairRoundTrip(key, value, unset(i));
    var text := Pair(key, value) + rest;
    assert text[|Pair(key, value)|..] == rest;
    hide Pair;
    assert text != "";
  }

  /** Reading the printed mappings into a zeroed table gives the table back. */
  lemma {:induction false} MappingsRoundTrip(min: u64, vs: seq<u64>, i: nat, z: AddrMap, unset: nat -> Mapping, line: nat)
    requires i <= |vs| && min + |vs| < 0x1_0000_0000_0000_0000
    requires z.min == min && |z.vaddrs| == |vs| && z.vaddrs[..i] == vs[..i]
    requires forall j :: i <= j < |vs| ==> z.vaddrs[j] == 0
    ensures Apply(z, MappingsText(min, vs, i), unset, line) == z.(vaddrs := vs)
    decreases |vs| - i
  {
    hide Pair, Apply, Stored;
    if i == |vs| {
      assert z.vaddrs[..|vs|] == z.vaddrs && vs[..|vs|] == vs;
      ApplyNothing(z, unset, line);
    } else {
      var rest := MappingsText(min, vs, i + 1);
      assert z.vaddrs[..i + 1][..i] == vs[..i];
      if vs[i] != 0 {
        StoredAt(z, i, vs[i]);
        var next := z.(vaddrs := z.vaddrs[i := vs[i]]);
        assert next.vaddrs[..i + 1] == vs[..i] + [vs[i]] == vs[..i + 1];
        MappingsRoundTrip(min, vs, i + 1, next, unset, line + 1);
        ApplyStep(z, min + i, vs[i], rest, unset, line);
      } else {
        assert z.vaddrs[..i + 1] == vs[..i] + [vs[i]] == vs[..i + 1];
        MappingsRoundTrip(min, vs, i + 1, z, unset, line);
        assert "" + rest == rest;
      }
    }
  }

  lemma ApplyNothing(z: AddrMap, unset: nat -> Mapping, line: nat)
    ensures Apply(z, "", unset, line) == z
  {
  }

  lemma StoredAt(z: AddrMap, i: nat, v: u64)
    requires i < |z.vaddrs| && z.Max() < 0x1_0000_0000_0000_0000
    ensures Stored(z, z.min + i, v) == z.(vaddrs := z.vaddrs[i := v])
  {
  }
}
