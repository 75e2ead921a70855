/** The text format of the manager's state files: lines of hexadecimal fields, written with
    fprintf and read back with fgets and sscanf. */
module HexText {
  import opened Words

  function Digit(d: nat): char
    requires d < 16
  {
    "0123456789abcdef"[d]
  }

  function DigitValue(c: char): Option<nat> {
    if '0' <= c <= '9' then Some((c - '0') as nat)
    else if 'a' <= c <= 'f' then Some((c - 'a') as nat + 10)
    else if 'A' <= c <= 'F' then Some((c - 'A') as nat + 10)
    else None
  }

  /** Digits in upper case have the same values. */
  lemma UpperCase(d: nat)
    requires 10 <= d < 16
    ensures DigitValue("ABCDEF"[d - 10]) == Some(d)
  {
  }

  lemma DigitRoundTrip(d: nat)
    requires d < 16
    ensures DigitValue(Digit(d)) == Some(d)
  {
  }

  /** %lx */
  function Hex(x: nat): (s: string)
    ensures s != []
  {
    if x < 16 then [Digit(x)] else Hex(x / 16) + [Digit(x % 16)]
  }

  ghost predicate AllHex(s: string) { forall i :: 0 <= i < |s| ==> DigitValue(s[i]).Some? }

  /** The hexadecimal digits at the front of s, and their value. */
  function HexRun(s: string): string {
    if s == [] || DigitValue(s[0]).None? then [] else [s[0]] + HexRun(s[1..])
  }

  function HexValue(s: string): nat {
    if s == [] then 0
    else
      var d := DigitValue(s[|s| - 1]);
      16 * HexValue(s[..|s| - 1]) + if d.Some? then d.value else 0
  }

  lemma {:induction false} HexRoundTrip(x: nat)
    ensures HexValue(Hex(x)) == x && AllHex(Hex(x))
  {
    hide Digit, DigitValue;
    if x < 16 {
      DigitRoundTrip(x);
      assert Hex(x)[..0] == [];
    } else {
      HexRoundTrip(x / 16);
      DigitRoundTrip(x % 16);
      assert Hex(x)[..|Hex(x)| - 1] == Hex(x / 16);
    }
  }

  function Pow16(n: nat): nat { if n == 0 then 1 else 16 * Pow16(n - 1) }

  lemma {:induction false} HexLength(x: nat, n: nat)
    requires 0 < n && x < Pow16(n)
    ensures |Hex(x)| <= n
  {
    if x >= 16 {
      HexLength(x / 16, n - 1);
    }
  }

  lemma HexLength64(x: u64)
    ensures |Hex(x)| <= 16
  {
    assert Pow16(4) == 65536;
    assert Pow16(8) == 0x1_0000_0000;
    assert Pow16(12) == 0x1_0000_0000_0000;
    assert Pow16(16) == 0x1_0000_0000_0000_0000;
    HexLength(x, 16);
  }

  lemma {:induction false} RunOf(s: string, t: string)
    requires AllHex(s) && (t == [] || DigitValue(t[0]).None?)
    ensures HexRun(s + t) == s
  {
    hide DigitValue;
    if s == [] {
      assert s + t == t;
    } else {
      assert (s + t)[1..] == s[1..] + t && (s + t)[0] == s[0];
      RunOf(s[1..], t);
    }
  }

  /** sscanf(s, prefix "%lx"): the value, capped as strtoul does, and what follows it. */
  datatype Scanned = NoMatch | Match(value: u64, rest: string)

  function Scan(s: string, prefix: string): Scanned {
    if !(prefix <= s) || HexRun(s[|prefix|..]) == [] then NoMatch
    else
      var run := HexRun(s[|prefix|..]);
      Match(Min(HexValue(run), 0xffff_ffff_ffff_ffff), Drop(s, |prefix| + |run|))
  }

  function Drop(s: string, n: nat): string { if n <= |s| then s[n..] else [] }

  lemma ScanPrinted(prefix: string, x: u64, t: string)
    requires t == [] || DigitValue(t[0]).None?
    ensures Scan(prefix + Hex(x) + t, prefix) == Match(x, t)
  {
    hide DigitValue, HexRun, HexValue, Hex;
    HexRoundTrip(x);
    RunOf(Hex(x), t);
    var s := prefix + Hex(x) + t;
    assert s[|prefix|..] == Hex(x) + t;
    assert s[|prefix| + |Hex(x)|..] == t;
  }

  /** fgets into a buffer of n + 1 bytes: through the first newline, at most n characters. */
  function Line(text: string, n: nat): (line: string)
    ensures line <= text && |line| <= n && (text != [] && n > 0 ==> line != [])
  {
    if text == [] || n == 0 then []
    else if text[0] == '\n' then "\n"
    else [text[0]] + Line(text[1..], n - 1)
  }

  lemma {:induction false} LineOf(s: string, rest: string, n: nat)
    requires '\n' !in s && |s| < n
    ensures Line(s + "\n" + rest, n) == s + "\n"
  {
    var text := s + "\n" + rest;
    if s == [] {
      assert text == "\n" + rest;
    } else {
      assert text[1..] == s[1..] + "\n" + rest;
      LineOf(s[1..], rest, n - 1);
    }
  }

  /** "name=0x%lx\n" */
  function Field(name: string, x: u64): string { name + "=0x" + Hex(x) + "\n" }

  ghost predicate PlainName(name: string) { '\n' !in name && |name| <= 100 }

  /** READ_VAR: one line is read and the variable set if the line has the expected form; at
      the end of the file the variable keeps its value. */
  datatype Reading = Reading(value: u64, rest: string)

  function ReadVar(text: string, name: string, was: u64): Reading {
    var line := Line(text, 255);
    var m := Scan(line, name + "=0x");
    Reading(if m.Match? then m.value else was, text[|line|..])
  }

  lemma HexHasNoNewline(x: nat)
    ensures '\n' !in Hex(x)
  {
    HexRoundTrip(x);
    assert DigitValue('\n').None?;
  }

  lemma ReadBack(name: string, x: u64, rest: string, was: u64)
    requires PlainName(name)
    ensures ReadVar(Field(name, x) + rest, name, was) == Reading(x, rest)
  {
    hide Hex, Line, Scan, HexRun;
    HexLength64(x);
    HexHasNoNewline(x);
    var body := name + "=0x" + Hex(x);
    assert Field(name, x) + rest == body + "\n" + rest;
    LineOf(body, rest, 255);
    assert body + "\n" == (name + "=0x") + Hex(x) + "\n";
    ScanPrinted(name + "=0x", x, "\n");
    assert (body + "\n" + rest)[|body + "\n"|..] == rest;
  }

  /** "0x%lx=0x%lx\n" and reading it back. */
  function Pair(key: u64, value: u64): string { "0x" + Hex(key) + ("=0x" + Hex(value) + "\n") }

  datatype Mapping = Mapping(key: u64, value: u64)

  /** sscanf assigns key and value as far as the line has the form of a mapping; `unset` is
      what the two variables hold otherwise. */
  function ScanPair(line: string, unset: Mapping): Mapping {
    var k := Scan(line, "0x");
    if k.NoMatch? then unset
    else
      var v := Scan(k.rest, "=0x");
      Mapping(k.value, if v.NoMatch? then unset.value else v.value)
  }

  lemma PairRoundTrip(key: u64, value: u64, unset: Mapping)
    ensures ScanPair(Pair(key, value), unset) == Mapping(key, value)
  {
    hide Hex, Scan, HexRun;
    var t := "=0x" + Hex(value) + "\n";
    ScanPrinted("0x", key, t);
    ScanPrinted("=0x", value, "\n");
  }

  lemma PairLine(key: u64, value: u64, rest: string)
    ensures Line(Pair(key, value) + rest, 255) == Pair(key, value)
  {
    hide Hex, Line;
    HexLength64(key);
    HexLength64(value);
    HexHasNoNewline(key);
    HexHasNoNewline(value);
    var body := "0x" + Hex(key) + "=0x" + Hex(value);
    assert Pair(key, value) == body + "\n";
    assert Pair(key, value) + rest == body + "\n" + rest;
    LineOf(body, rest, 255);
  }
}
