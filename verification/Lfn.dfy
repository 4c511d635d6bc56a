/**
 Long file names, which the shipped configuration leaves out: the entries that
 dir_register writes for a long name, and the reading of them in dir_read.
 */
module Lfn {
  import opened Bits
  import opened FatTable

  const MAX_LFN := 255
  const NO_LFN := 0xFFFF
  const LEAD := 13       // cells of the memory in front of the reader's buffer

  type Entry = e: seq<byte> | |e| == 32 witness seq(32, _ => 0)

  /** LfnOfs: where the characters of an entry lie. */
  function Ofs(s: nat): nat
    requires s < 13
  {
    [1, 3, 5, 7, 9, 14, 16, 18, 20, 22, 24, 28, 30][s]
  }

  function CharAt(e: Entry, s: nat): nat
    requires s < 13
  {
    Word(e[Ofs(s)], e[Ofs(s) + 1])
  }

  /** ST_WORD at the place of a character. */
  function PutChar(e: Entry, s: nat, w: nat): Entry
    requires s < 13 && w < 0x1_0000
  {
    e[Ofs(s) := w % 256][Ofs(s) + 1 := w / 256]
  }

  /** A character changes no other character and nothing else in the entry. */
  lemma CharsApart(e: Entry, s: nat, w: nat)
    requires s < 13 && w < 0x1_0000
    ensures CharAt(PutChar(e, s, w), s) == w
    ensures forall t | 0 <= t < 13 && t != s :: CharAt(PutChar(e, s, w), t) == CharAt(e, t)
    ensures forall o | o in {0, 11, 12, 13, 26, 27} :: PutChar(e, s, w)[o] == e[o]
  {
  }

  /**
   Where the thirteen characters lie: five from byte 1 on, six from byte 14 on, two from byte 28 on,
   low byte first.
  */
  lemma CharPlace(e: Entry, s: nat)
    requires s < 13
    ensures var o := if s < 5 then 1 + 2 * s else if s < 11 then 14 + 2 * (s - 5) else 28 + 2 * (s - 11);
            var low: int, high: int := e[o], e[o + 1];
            CharAt(e, s) == low + 256 * high
  {
  }

  // ---------------------------------------------------------------- names and their parts

  /** A long name: no terminator and no filler in it. */
  predicate IsName(name: seq<nat>) {
    0 < |name| <= MAX_LFN && forall i | 0 <= i < |name| :: 0 < name[i] < 0xFFFF
  }

  /** How many entries a name takes. */
  function Parts(name: seq<nat>): nat {
    (|name| + 12) / 13
  }

  /** The name, its terminator and the filler behind it. */
  function Padded(name: seq<nat>, j: nat): nat {
    if j < |name| then name[j] else if j == |name| then 0 else 0xFFFF
  }

  /** Entry number ord of a name. */
  predicate IsPart(e: Entry, name: seq<nat>, ord: nat, sum: nat) {
    && IsName(name) && 1 <= ord <= Parts(name)
    && e[0] == ord + (if ord == Parts(name) then 0x40 else 0) && e[11] == 0x0F && e[13] == sum
    && forall s | 0 <= s < 13 :: CharAt(e, s) == Padded(name, (ord - 1) * 13 + s)
  }

  /** The bytes of entry number ord of a name. */
  lemma PartByBytes(e: Entry, name: seq<nat>, ord: nat, sum: nat, s: nat)
    requires IsPart(e, name, ord, sum) && s < 13
    ensures 13 * (Parts(name) - 1) < |name| <= 13 * Parts(name) && 1 <= ord <= Parts(name) <= 20
    ensures e[0] == (if ord == Parts(name) then ord + 64 else ord) && e[11] == 15 && e[13] == sum
    ensures var o := if s < 5 then 1 + 2 * s else if s < 11 then 14 + 2 * (s - 5) else 28 + 2 * (s - 11);
            var low: int, high: int := e[o], e[o + 1];
            var j := 13 * (ord - 1) + s;
            low + 256 * high == if j < |name| then name[j] else if j == |name| then 0 else 0xFFFF
  {
    CharPlace(e, s);
  }

  /** A buffer of characters holds the name and its terminator. */
  predicate Holds(buf: array<nat>, name: seq<nat>)
    reads buf
  {
    |name| < buf.Length && buf[..|name|] == name && buf[|name|] == 0
  }

  /** fit_lfn: entry number ord of the name in the buffer. */
  method FitLfn(lfnbuf: array<nat>, dir: Entry, ord: nat, sum: byte, ghost name: seq<nat>) returns (e: Entry)
    requires IsName(name) && Holds(lfnbuf, name) && 1 <= ord <= Parts(name)
    ensures IsPart(e, name, ord, sum) && e[12] == 0 && e[26] == 0 && e[27] == 0
  {
    hide CharAt, PutChar;
    e := dir[13 := sum][11 := 0x0F][12 := 0][26 := 0][27 := 0];
    var i: nat, s: nat, wc: nat := (ord - 1) * 13, 0, 0;
    ghost var base := i;
    while s < 13
      invariant s <= 13 && e[13] == sum && e[11] == 0x0F && e[12] == 0 && e[26] == 0 && e[27] == 0
      invariant wc == 0xFFFF <==> |name| < base + s
      invariant wc != 0xFFFF ==> i == base + s
      invariant forall t | 0 <= t < s :: CharAt(e, t) == Padded(name, base + t)
    {
      if wc != 0xFFFF {
        assert i < |name| ==> lfnbuf[i] == lfnbuf[..|name|][i];
        wc := lfnbuf[i];
        i := i + 1;
      }
      CharsApart(e, s, wc);
      e := PutChar(e, s, wc);
      if wc == 0 {
        wc := 0xFFFF;
      }
      s := s + 1;
    }
    assert wc != 0xFFFF && i < |name| ==> lfnbuf[i] == name[i] != 0 by {
      if i < |name| { assert lfnbuf[..|name|][i] == name[i]; }
    }
    var o := ord;
    if wc == 0xFFFF || lfnbuf[i] == 0 {
      o := o + 0x40;
    }
    KeepsChars(e, o);
    ghost var chars := e;
    e := e[0 := o];
    assert ord * 13 >= |name| <==> ord == Parts(name);
    forall s | 0 <= s < 13 ensures CharAt(e, s) == Padded(name, base + s) {
      assert CharAt(chars, s) == Padded(name, base + s);
    }
  }

  lemma KeepsChars(e: Entry, o: byte)
    ensures forall t | 0 <= t < 13 :: CharAt(e[0 := o], t) == CharAt(e, t)
  {
  }

  /** Whether the name fits the buffer of the reader, which puts a terminator behind the terminator. */
  predicate Readable(name: seq<nat>) {
    |name| + 1 < MAX_LFN
  }

  /** The reader's buffer with the memory in front of it. */
  predicate Memory(mem: array<nat>) {
    mem.Length == LEAD + MAX_LFN + 1
  }

  /** The buffer in it holds the name and its terminator. */
  predicate HoldsBehind(mem: array<nat>, name: seq<nat>)
    reads mem
  {
    Memory(mem) && |name| <= MAX_LFN && mem[LEAD..LEAD + |name|] == name && mem[LEAD + |name|] == 0
  }

  /**
   pick_lfn: the characters of an entry into the buffer, cell number i of which is mem[LEAD + i].
   The index is a signed number: for an entry with order 0 it starts at -13, so that the
   characters go in front of the buffer; for any other entry every store is inside.
   */
  method PickLfn(mem: array<nat>, dir: Entry, ghost name: seq<nat>, ghost ord: nat, ghost sum: nat)
    returns (ok: bool, ghost outside: bool)
    requires Memory(mem)
    modifies mem
    ensures outside <==> dir[0] % 64 == 0
    ensures if outside then mem[0] == CharAt(dir, 0) else mem[..LEAD] == old(mem[..LEAD])
    ensures IsPart(dir, name, ord, sum) ==>
      && (ok <==> ord < Parts(name) || Readable(name))
      && (ok ==> forall j | (ord - 1) * 13 <= j < ord * 13 && j < |name| :: mem[LEAD + j] == name[j])
      && (ok && ord == Parts(name) ==> mem[LEAD + |name|] == 0)
      && (ord < Parts(name) ==> forall k | LEAD + ord * 13 <= k < mem.Length :: mem[k] == old(mem[k]))
  {
    hide CharAt;
    var o: int := dir[0];
    var i: int := (o % 64 - 1) * 13;
    var s: nat, wc: nat := 0, 1;
    ghost var part, base := IsPart(dir, name, ord, sum), i;
    outside := i < 0;
    while s < 13
      invariant s <= 13 && base <= i <= base + s && (s == 0 ==> wc != 0)
      invariant if outside then base == -LEAD && (s > 0 ==> i > base && mem[0] == CharAt(dir, 0))
                  else mem[..LEAD] == old(mem[..LEAD])
      invariant part ==> base == (ord - 1) * 13 && (wc == 0 <==> |name| < base + s)
                         && i == (if base + s <= |name| then base + s else |name| + 1)
                         && (forall j | base <= j < i && j < |name| :: mem[LEAD + j] == name[j])
                         && (|name| < i ==> mem[LEAD + |name|] == 0)
      invariant part && ord < Parts(name) ==> forall k | LEAD + ord * 13 <= k < mem.Length :: mem[k] == old(mem[k])
    {
      var uc := CharAt(dir, s);
      if wc != 0 {
        if i >= MAX_LFN {
          return false, outside;
        }
        mem[LEAD + i] := uc;
        i, wc := i + 1, uc;
      } else {
        if uc != 0xFFFF {
          return false, outside;
        }
      }
      s := s + 1;
    }
    if dir[0] / 64 % 2 == 1 {
      if i >= MAX_LFN {
        return false, outside;
      }
      mem[LEAD + i] := 0;
    }
    ok := true;
  }

  // ---------------------------------------------------------------- the table

  /** The sum of a short name: each byte added to the sum rotated right by one. */
  function Checksum(s: seq<byte>): byte {
    if s == [] then 0
    else
      var sum := Checksum(s[..|s| - 1]);
      (sum / 2 + sum * 128 + s[|s| - 1]) % 256
  }

  /** A further byte: the sum so far is rotated right by one bit, and the byte is added without carry. */
  lemma ChecksumRotates(s: seq<byte>, b: byte)
    ensures Checksum([]) == 0
    ensures var sum: int := Checksum(s);
            var x: int := b;
            var rotated := if sum % 2 == 1 then sum / 2 + 128 else sum / 2;
            Checksum(s + [b]) == if rotated + x < 256 then rotated + x else rotated + x - 256
  {
    assert (s + [b])[..|s|] == s;
    var sum: int := Checksum(s);
    assert sum == 2 * (sum / 2) + sum % 2;
    Rotate(sum / 2, sum % 2, b);
  }

  lemma Rotate(q: nat, r: nat, b: nat)
    requires q < 128 && r < 2 && b < 256
    ensures var n := q + 128 * r + b;
            (q + (2 * q + r) * 128 + b) % 256 == if n < 256 then n else n - 256
  {
    var n := q + 128 * r + b;
    assert q + (2 * q + r) * 128 + b == 256 * q + n;
    assert (256 * q + n) % 256 == n % 256;
  }

  /** sum_sfn. */
  method SumSfn(dir: seq<byte>) returns (sum: byte)
    requires |dir| >= 11
    ensures sum == Checksum(dir[..11])
  {
    sum := 0;
    for n := 0 to 11
      invariant sum == Checksum(dir[..n])
    {
      assert dir[..n + 1][..n] == dir[..n];
      sum := (sum / 2 + sum * 128 + dir[n]) % 256;
    }
  }

  /** A short name as the parser makes it: not deleted, no end of table, no dot entry. */
  predicate ShortName(fn: seq<byte>) {
    |fn| == 11 && fn[0] != 0 && fn[0] != 0xE5 && fn[0] != 0x2E
  }

  /** The entry of a short name without attributes; ns is the status byte behind the name, with the NT flags in it. */
  function ShortEntry(fn: seq<byte>, ns: byte): Entry
    requires |fn| == 11
  {
    var nt: byte := BitAnd(ns, 0x18);
    fn + [0, nt] + seq(19, _ => 0)
  }

  /** The NT flags are bits 3 and 4 of the status byte. */
  lemma NtFlags(x: byte)
    ensures BitAnd(x, 0x18) == (if x / 8 % 2 == 1 then 8 else 0) + (if x / 16 % 2 == 1 then 16 else 0)
  {
    assert BitAnd(x, 24) == 2 * BitAnd(x / 2, 12);
    assert BitAnd(x / 2, 12) == 2 * BitAnd(x / 2 / 2, 6);
    assert BitAnd(x / 2 / 2, 6) == 2 * BitAnd(x / 2 / 2 / 2, 3);
    assert x / 2 / 2 / 2 == x / 8 && x / 8 / 2 == x / 16;
    var y := x / 8;
    assert BitAnd(y, 3) == y % 2 + 2 * BitAnd(y / 2, 1);
    assert BitAnd(y / 2, 1) == y / 2 % 2;
  }

  /** The entries of a name from index a on: its parts from the last to the first, then the short name. */
  predicate Registered(slots: seq<Entry>, a: nat, name: seq<nat>, fn: seq<byte>) {
    && ShortName(fn) && IsName(name) && a + Parts(name) < |slots|
    && (forall i | a <= i < a + Parts(name) :: IsPart(slots[i], name, a + Parts(name) - i, Checksum(fn)))
    && slots[a + Parts(name)][..11] == fn && slots[a + Parts(name)][11] == 0
  }

  lemma EndOfName(lfn: array<nat>, name: seq<nat>, i: nat)
    requires IsName(name) && Holds(lfn, name) && i <= |name|
    ensures lfn[i] == 0 <==> i == |name|
  {
    if i < |name| {
      assert lfn[i] == lfn[..|name|][i];
    }
  }

  /** The end of dir_register: long name entries last part first, then the short name, from index a on. */
  method Register(slots: array<Entry>, a: nat, lfn: array<nat>, fn: seq<byte>, ns: byte, ghost name: seq<nat>)
    requires IsName(name) && Holds(lfn, name) && ShortName(fn) && a + Parts(name) < slots.Length
    modifies slots
    ensures Registered(slots[..], a, name, fn)
    ensures var e := slots[a + Parts(name)];
            && e[..11] == fn && e[11] == 0 && (forall j | 13 <= j < 32 :: e[j] == 0)
            && e[12] == (if ns / 8 % 2 == 1 then 8 else 0) + (if ns / 16 % 2 == 1 then 16 else 0)
    ensures forall i | 0 <= i < slots.Length && !(a <= i <= a + Parts(name)) :: slots[i] == old(slots[i])
  {
    hide IsPart;
    var ne := 0;
    while lfn[ne] != 0
      invariant ne <= |name|
      modifies {}
      decreases |name| - ne
    {
      EndOfName(lfn, name, ne);
      ne := ne + 1;
    }
    EndOfName(lfn, name, ne);
    ne := (ne + 25) / 13;
    var idx := a;
    var sum := SumSfn(fn);
    assert fn[..11] == fn;
    ne := ne - 1;
    while ne > 0
      invariant 0 <= ne && idx == a + Parts(name) - ne
      invariant forall i | a <= i < idx :: IsPart(slots[i], name, a + Parts(name) - i, sum)
      invariant forall i | 0 <= i < slots.Length && !(a <= i < idx) :: slots[i] == old(slots[i])
    {
      var e := FitLfn(lfn, slots[idx], ne, sum, name);
      slots[idx] := e;
      idx := idx + 1;
      ne := ne - 1;
    }
    NtFlags(ns);
    slots[idx] := ShortEntry(fn, ns);
    assert ShortEntry(fn, ns)[..11] == fn;
  }

  /** The attribute byte says volume label, or, with the three lowest bits, long name entry. */
  predicate Volume(attr: byte) {
    attr / 8 % 2 == 1
  }

  predicate LongEntry(e: Entry) {
    e[11] % 64 == 0x0F
  }

  /** An entry without data for dir_read. */
  predicate NoData(e: Entry) {
    e[0] == 0xE5 || e[0] == 0x2E || (Volume(e[11]) && !LongEntry(e))
  }

  /** An entry that dir_read passes over. */
  predicate Passed(e: Entry) {
    e[0] != 0 && (NoData(e) || LongEntry(e))
  }

  /** A long name entry that fit_lfn does not make: with order 0. */
  predicate WithoutOrder(e: Entry) {
    e[0] != 0 && !NoData(e) && LongEntry(e) && e[0] % 64 == 0
  }

  /** The kinds of entries, in their first byte and their attribute byte. */
  lemma KindsByBytes(e: Entry)
    ensures Passed(e) <==> e[0] == 0xE5 || e[0] == 0x2E || (e[0] != 0 && e[11] / 8 % 2 == 1)
    ensures WithoutOrder(e) <==> e[0] in {0x40, 0x80, 0xC0} && e[11] in {0x0F, 0x4F, 0x8F, 0xCF}
  {
    var x: int, c: int := e[11], e[0];
    assert x % 64 == 15 <==> x in {15, 79, 143, 207};
    assert c != 0 && c % 64 == 0 <==> c in {64, 128, 192};
  }

  /** From index from on the first entry with data is the one registered at a. */
  predicate NextIs(slots: seq<Entry>, from: nat, a: nat, name: seq<nat>, fn: seq<byte>) {
    Registered(slots, a, name, fn) && from <= a && forall i | from <= i < a :: Passed(slots[i])
  }

  /**
   dir_read from index from on: the next entry with data, and the index where its long
   name starts, NO_LFN if it has none. A registered name is found behind any entries
   that are passed over, and its long name is read exactly when it is Readable. Memory in front
   of the buffer is written only for an entry with order 0, and is for one that starts a name.
   */
  method DirRead(slots: seq<Entry>, from: nat, lfn: array<nat>, ghost a: nat, ghost name: seq<nat>, ghost fn: seq<byte>)
    returns (found: bool, index: nat, lfnIdx: nat, ghost outside: bool)
    requires from <= |slots| < NO_LFN && Memory(lfn)
    modifies lfn
    ensures from <= index <= |slots| && forall i | from <= i < index :: Passed(slots[i])
    ensures if found then index < |slots| && slots[index][0] != 0 && !Passed(slots[index])
            else index == |slots| || slots[index][0] == 0
    ensures NextIs(slots, from, a, name, fn) ==>
      && found && index == a + Parts(name)
      && (if Readable(name) then lfnIdx == a && HoldsBehind(lfn, name) else lfnIdx == NO_LFN)
    ensures outside ==> exists i :: from <= i < index && WithoutOrder(slots[i])
    ensures (exists i :: from <= i < index && WithoutOrder(slots[i]) && slots[i][0] / 64 % 2 == 1) ==> outside
    ensures !outside ==> lfn[..LEAD] == old(lfn[..LEAD])
  {
    hide IsPart, NextIs, HoldsBehind, PartsRead, NoData, LongEntry, Parts, Checksum;
    ghost var k, run := Parts(name), NextIs(slots, from, a, name, fn);
    if run {
      KindOf(slots, from, a, name, fn, from);
    }
    index, lfnIdx, outside := from, NO_LFN, false;
    var ord: nat, sum: byte := 0xFF, 0xFF;
    while index < |slots|
      invariant from <= index <= |slots| && ord < 256 && (run ==> index <= a + k < |slots|)
      invariant forall i | from <= i < index :: Passed(slots[i])
      invariant run && a < index ==>
                  PartsRead(lfn, name, index - a, ord, sum, Checksum(fn)) && (Readable(name) ==> lfnIdx == a)
      invariant outside ==> exists i :: from <= i < index && WithoutOrder(slots[i])
      invariant (exists i :: from <= i < index && WithoutOrder(slots[i]) && slots[i][0] / 64 % 2 == 1) ==> outside
      invariant !outside ==> lfn[..LEAD] == old(lfn[..LEAD])
    {
      if run {
        KindOf(slots, from, a, name, fn, index);
      }
      var dir := slots[index];
      var c: int := dir[0];
      if c == 0 {
        return false, index, lfnIdx, outside;
      }
      if NoData(dir) {
        ord := 0xFF;
      } else if LongEntry(dir) {
        if c / 64 % 2 == 1 {
          lfnIdx := index;
        }
        ghost var hit;
        ord, sum, hit := ReadPart(lfn, dir, ord, sum, name, if run && a <= index then index - a else k, Checksum(fn));
        outside := outside || hit;
      } else {
        var s := SumSfn(dir);
        if run {
          AllRead(lfn, name, ord, sum, Checksum(fn));
        }
        if ord != 0 || sum != s {
          lfnIdx := NO_LFN;
        }
        return true, index, lfnIdx, outside;
      }
      index := index + 1;
    }
    found := false;
  }

  /** The kinds of entries before and in a registered name. */
  lemma KindOf(slots: seq<Entry>, from: nat, a: nat, name: seq<nat>, fn: seq<byte>, i: nat)
    requires NextIs(slots, from, a, name, fn) && from <= i && (i <= a + Parts(name) || i == from)
    ensures from <= a && 0 < Parts(name) && a + Parts(name) < |slots|
    ensures i < a ==> slots[i][0] != 0 && (NoData(slots[i]) || LongEntry(slots[i]))
    ensures a <= i < a + Parts(name) ==> slots[i][0] != 0 && !NoData(slots[i]) && LongEntry(slots[i])
                                         && IsPart(slots[i], name, a + Parts(name) - i, Checksum(fn))
                                         && (slots[i][0] / 64 % 2 == 1 <==> i == a)
    ensures i == a + Parts(name) ==>
              slots[i][0] != 0 && !NoData(slots[i]) && !LongEntry(slots[i]) && slots[i][..11] == fn
  {
    if i == a + Parts(name) {
      assert slots[i][..11][0] == slots[i][0];
    }
  }

  lemma AllRead(lfn: array<nat>, name: seq<nat>, ord: nat, sum: nat, check: nat)
    requires PartsRead(lfn, name, Parts(name), ord, sum, check)
    ensures if Readable(name) then ord == 0 && sum == check && HoldsBehind(lfn, name) else ord != 0
  {
  }

  /** After j of the entries of a name: the characters of the last j parts, if the name is readable. */
  ghost predicate PartsRead(lfn: array<nat>, name: seq<nat>, j: nat, ord: nat, sum: nat, check: nat)
    reads lfn
  {
    && Memory(lfn) && IsName(name) && j <= Parts(name)
    && if Readable(name) then
         ord == Parts(name) - j && sum == check && lfn[LEAD + |name|] == 0
         && forall i | 13 * (Parts(name) - j) <= i < |name| :: lfn[LEAD + i] == name[i]
       else ord == 0xFF
  }

  /** What dir_read does with a long name entry; as entry number j of a name it adds its characters. */
  method ReadPart(lfn: array<nat>, dir: Entry, ord0: nat, sum0: byte, ghost name: seq<nat>, ghost j: nat,
                  ghost check: nat)
    returns (ord: nat, sum: byte, ghost outside: bool)
    requires Memory(lfn) && ord0 < 256
    modifies lfn
    ensures j < Parts(name) && IsPart(dir, name, Parts(name) - j, check)
              && (j == 0 || old(PartsRead(lfn, name, j, ord0, sum0, check)))
            ==> PartsRead(lfn, name, j + 1, ord, sum, check)
    ensures ord < 256 && (outside ==> dir[0] % 64 == 0) && (dir[0] % 64 == 0 && dir[0] / 64 % 2 == 1 ==> outside)
    ensures !outside ==> lfn[..LEAD] == old(lfn[..LEAD])
  {
    var c: int := dir[0];
    ord, sum := ord0, sum0;
    if c / 64 % 2 == 1 {
      sum := dir[13];
      c := c - 64;
      ord := c;
    }
    var ok := false;
    outside := false;
    if c == ord && sum == dir[13] {
      ok, outside := PickLfn(lfn, dir, name, if j < Parts(name) then Parts(name) - j else 0, check);
    }
    ord := if ok && ord > 0 then ord - 1 else 0xFF;
  }

  // ---------------------------------------------------------------- there and back

  /**
   A long name written by dir_register and read back by dir_read is the same name,
   for every name of up to 253 characters and for no longer one, whatever else the table holds.
   */
  method WriteThenRead(slots: array<Entry>, a: nat, lfn: array<nat>, fn: seq<byte>, ns: byte,
                       back: array<nat>, ghost name: seq<nat>)
    returns (found: bool, index: nat, lfnIdx: nat)
    requires 0 < |name| <= 255 && forall i | 0 <= i < |name| :: 0 < name[i] < 0xFFFF
    requires |fn| == 11 && fn[0] != 0 && fn[0] != 0xE5 && fn[0] != 0x2E
    requires Holds(lfn, name) && a + Parts(name) < slots.Length < 0xFFFF && Memory(back)
    modifies slots, back
    ensures found && index == a + Parts(name)
    ensures if |name| <= 253 then lfnIdx == a && HoldsBehind(back, name) else lfnIdx == 0xFFFF
    ensures back[..LEAD] == old(back[..LEAD])
  {
    hide IsPart, Registered, WithoutOrder;
    Register(slots, a, lfn, fn, ns, name);
    ghost var outside;
    found, index, lfnIdx, outside := DirRead(slots[..], a, back, a, name, fn);
    if outside {
      ghost var i :| a <= i < index && WithoutOrder(slots[..][i]);
      PartHasOrder(slots[..], a, name, fn, i);
    }
  }

  lemma PartHasOrder(slots: seq<Entry>, a: nat, name: seq<nat>, fn: seq<byte>, i: nat)
    requires Registered(slots, a, name, fn) && a <= i < a + Parts(name)
    ensures i < |slots| && !WithoutOrder(slots[i])
  {
    hide CharAt;
  }
}
