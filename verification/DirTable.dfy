/**
 Directories as tables of 32-byte slots (short names only): looking a name up,
 taking a blank slot, deleting a slot, and the map from names to slots behind it.
 */
module DirTable {
  import opened Bits

  type Slot = s: seq<byte> | |s| == 32 witness seq(32, _ => 0)
  type Name = s: seq<byte> | |s| == 11 && s[0] != 0 && s[0] != 0xE5 witness seq(11, _ => 1)

  const AM_VOL := 0x08
  const DELETED: byte := 0xE5
  const LIMIT := 0x1_0000        // slot numbers are 16 bits

  /** The entry test of dir_find. */
  predicate Match(s: Slot, fn: Name) {
    BitAnd(s[11], AM_VOL) == 0 && s[..11] == fn
  }

  predicate Blank(s: Slot) {
    s[0] == DELETED || s[0] == 0
  }

  /** The slot dir_find stops at, or -1: it ends at a zero slot, at the end of the table or at slot 65535. */
  function FindFrom(t: seq<Slot>, fn: Name, i: nat): int
    decreases |t| - i
  {
    if i >= |t| || i >= LIMIT || t[i][0] == 0 then -1
    else if Match(t[i], fn) then i
    else FindFrom(t, fn, i + 1)
  }

  function Find(t: seq<Slot>, fn: Name): int {
    FindFrom(t, fn, 0)
  }

  /** The first blank slot from i on, or the end of the table. */
  function BlankFrom(t: seq<Slot>, i: nat): (r: nat)
    requires i <= |t|
    ensures i <= r <= |t| && (r < |t| ==> Blank(t[r])) && forall k | i <= k < r :: !Blank(t[k])
    decreases |t| - i
  {
    if i == |t| || Blank(t[i]) then i else BlankFrom(t, i + 1)
  }

  /** A new entry: the name and zeros. */
  function NewEntry(fn: Name): Slot {
    fn + seq(21, _ => 0)
  }

  function Deleted(s: Slot): Slot {
    s[0 := DELETED]
  }

  lemma SlotParts(s: Slot, e: Slot)
    ensures e + s[|e|..] == e
    ensures [DELETED] + s[|[DELETED]|..] == Deleted(s)
  {
  }

  function ZeroSlots(n: nat): (z: seq<Slot>)
    ensures |z| == n && forall i | 0 <= i < n :: z[i] == seq(32, _ => 0)
  {
    var zero: Slot := seq(32, _ => 0);
    seq(n, i => zero)
  }

  /** Nothing but zero slots behind a zero slot. */
  predicate Terminated(t: seq<Slot>) {
    forall i, j | 0 <= i < j < |t| && t[i][0] == 0 :: t[j][0] == 0
  }

  /** A slot that holds an entry a lookup can see. */
  predicate Live(s: Slot) {
    !Blank(s) && BitAnd(s[11], AM_VOL) == 0
  }

  /** No two entries of one name. */
  predicate UniqueNames(t: seq<Slot>) {
    forall i, j | 0 <= i < j < |t| && Live(t[i]) && Live(t[j]) :: t[i][..11] != t[j][..11]
  }

  predicate DirOk(t: seq<Slot>) {
    Terminated(t) && UniqueNames(t)
  }

  // ---------------------------------------------------------------- lookups

  /** A lookup passes slot k. */
  predicate Passes(t: seq<Slot>, fn: Name, k: nat) {
    k < |t| && k < LIMIT && t[k][0] != 0 && !Match(t[k], fn)
  }

  /** A lookup from i ends without success at e. */
  predicate EndsAt(t: seq<Slot>, fn: Name, i: nat, e: nat) {
    i <= e && (forall k | i <= k < e :: Passes(t, fn, k)) && (e >= |t| || e >= LIMIT || t[e][0] == 0)
  }

  /** What a lookup finds is the first matching slot before the end mark. */
  lemma {:induction false} FindIsFirst(t: seq<Slot>, fn: Name, i: nat)
    ensures var r := FindFrom(t, fn, i);
            if r >= 0 then i <= r < |t| && r < LIMIT && Match(t[r], fn) && forall k | i <= k < r :: Passes(t, fn, k)
            else r == -1 && exists e: nat :: EndsAt(t, fn, i, e)
    decreases |t| - i
  {
    if i >= |t| || i >= LIMIT || t[i][0] == 0 {
      assert EndsAt(t, fn, i, i);
    } else if !Match(t[i], fn) {
      FindIsFirst(t, fn, i + 1);
      if FindFrom(t, fn, i + 1) < 0 {
        var e: nat :| EndsAt(t, fn, i + 1, e);
        assert EndsAt(t, fn, i, e);
      }
    }
  }

  lemma MatchIsLive(s: Slot, fn: Name)
    requires Match(s, fn)
    ensures Live(s) && s[..11] == fn && s[0] == fn[0]
  {
    assert s[..11][0] == s[0];
  }

  /** On a terminated table with unique names a lookup finds the one slot with the name. */
  lemma FindIsSlot(t: seq<Slot>, fn: Name, k: nat)
    requires DirOk(t) && k < |t| && k < LIMIT
    ensures Find(t, fn) == k <==> Match(t[k], fn)
  {
    FindIsFirst(t, fn, 0);
    var r := Find(t, fn);
    if r >= 0 {
      MatchIsLive(t[r], fn);
      assert k < r ==> Passes(t, fn, k);
    } else {
      var e: nat :| EndsAt(t, fn, 0, e);
      assert k < e ==> Passes(t, fn, k);
    }
    if Match(t[k], fn) {
      MatchIsLive(t[k], fn);
    }
  }

  /** The attribute test is one of bit 3. */
  lemma VolumeBit(x: byte)
    ensures BitAnd(x, AM_VOL) == 0 <==> x / 8 % 2 == 0
  {
    assert BitAnd(x, 8) == 2 * BitAnd(x / 2, 4);
    assert BitAnd(x / 2, 4) == 2 * BitAnd(x / 2 / 2, 2);
    assert BitAnd(x / 2 / 2, 2) == 2 * BitAnd(x / 2 / 2 / 2, 1);
    assert x / 2 / 2 / 2 == x / 8;
  }

  /** What DirOk asks, byte by byte: zero slots last, and no two entries with the same eleven bytes of a name. */
  lemma DirOkMeans(t: seq<Slot>)
    ensures DirOk(t) <==>
              && (forall i, j | 0 <= i < j < |t| && t[i][0] == 0 :: t[j][0] == 0)
              && (forall i, j | 0 <= i < j < |t| && t[i][0] != 0 && t[i][0] != 0xE5 && t[i][11] / 8 % 2 == 0
                               && t[j][0] != 0 && t[j][0] != 0xE5 && t[j][11] / 8 % 2 == 0 ::
                    t[i][..11] != t[j][..11])
  {
    forall i | 0 <= i < |t| ensures Live(t[i]) <==> t[i][0] != 0 && t[i][0] != 0xE5 && t[i][11] / 8 % 2 == 0 {
      VolumeBit(t[i][11]);
    }
  }

  /**
   A lookup finds exactly the slot with the eleven bytes of the name and without the volume bit,
   files and subdirectories alike.
  */
  lemma FoundByBytes(t: seq<Slot>, fn: Name, k: nat)
    requires DirOk(t) && |t| <= 0x1_0000 && k < |t|
    ensures Find(t, fn) == k <==> t[k][..11] == fn && t[k][11] / 8 % 2 == 0
    ensures -1 <= Find(t, fn) < |t|
  {
    FindIsSlot(t, fn, k);
    FindIsFirst(t, fn, 0);
    VolumeBit(t[k][11]);
  }

  /**
   Nothing that is found has the volume bit, on any table; and in front of what is found there is
   no zero slot and no other such slot.
  */
  lemma FoundHasName(t: seq<Slot>, fn: Name)
    ensures var r := Find(t, fn);
            r >= 0 ==> r < |t| && r < 0x1_0000 && t[r][..11] == fn && t[r][11] / 8 % 2 == 0
                       && forall k | 0 <= k < r :: t[k][0] != 0 && !(t[k][..11] == fn && t[k][11] / 8 % 2 == 0)
  {
    FindIsFirst(t, fn, 0);
    var r := Find(t, fn);
    if r >= 0 {
      VolumeBit(t[r][11]);
      forall k | 0 <= k < r ensures t[k][0] != 0 && !(t[k][..11] == fn && t[k][11] / 8 % 2 == 0) {
        assert Passes(t, fn, k);
        VolumeBit(t[k][11]);
      }
    }
  }

  /** The slot that a new entry gets is the first one that begins with 0 or 0xE5. */
  lemma BlankByBytes(t: seq<Slot>)
    ensures var k := BlankFrom(t, 0);
            && (k < |t| ==> t[k][0] == 0 || t[k][0] == 0xE5)
            && forall i | 0 <= i < k :: t[i][0] != 0 && t[i][0] != 0xE5
  {
  }

  /** The bytes of a new entry and of a deleted one. */
  lemma EntryBytes(fn: Name, s: Slot, j: nat)
    requires j < 32
    ensures NewEntry(fn)[j] == if j < 11 then fn[j] else 0
    ensures Deleted(s)[j] == if j == 0 then 0xE5 else s[j]
  {
  }

  lemma NoSlotNoFind(t: seq<Slot>, fn: Name)
    requires DirOk(t) && forall k | 0 <= k < |t| && k < LIMIT :: !Match(t[k], fn)
    ensures Find(t, fn) == -1
  {
    FindIsFirst(t, fn, 0);
  }

  // ---------------------------------------------------------------- register, remove, stretch

  /** dir_register of an absent name: the lookup finds its slot, no other lookup changes. */
  lemma RegisterAddsOne(t: seq<Slot>, fn: Name, other: Name)
    requires DirOk(t) && Find(t, fn) == -1
    requires BlankFrom(t, 0) < |t| && BlankFrom(t, 0) < LIMIT && |t| <= LIMIT
    ensures var k := BlankFrom(t, 0);
            var t' := t[k := NewEntry(fn)];
            DirOk(t') && Find(t', other) == if other == fn then k else Find(t, other)
  {
    var k := BlankFrom(t, 0);
    var t' := t[k := NewEntry(fn)];
    RegisterKeepsOk(t, fn, k);
    FindIsFirst(t, other, 0);
    var r := Find(t, other);
    NewEntryMatches(fn, other);
    if other == fn {
      FindIsSlot(t', fn, k);
    } else if r >= 0 {
      MatchIsLive(t[r], other);
      FindIsSlot(t', other, r);
    } else {
      forall i | 0 <= i < |t'| && i < LIMIT ensures !Match(t'[i], other) {
        if i != k {
          FindIsSlot(t, other, i);
        }
      }
      NoSlotNoFind(t', other);
    }
  }

  lemma NewEntryMatches(fn: Name, other: Name)
    ensures Match(NewEntry(fn), other) <==> other == fn
    ensures Live(NewEntry(fn)) && NewEntry(fn)[..11] == fn && NewEntry(fn)[0] != 0
  {
    assert NewEntry(fn)[..11] == fn;
    assert NewEntry(fn)[0] == fn[0];
  }

  lemma RegisterKeepsOk(t: seq<Slot>, fn: Name, k: nat)
    requires DirOk(t) && Find(t, fn) == -1 && k < |t| <= LIMIT && Blank(t[k])
    requires forall i | 0 <= i < k :: !Blank(t[i])
    ensures DirOk(t[k := NewEntry(fn)])
  {
    var t' := t[k := NewEntry(fn)];
    NewEntryMatches(fn, fn);
    forall i | 0 <= i < |t'| && i != k && Live(t'[i])
      ensures t'[i][..11] != fn
    {
      FindIsSlot(t, fn, i);
    }
  }

  /** dir_remove of the slot of a name: that name is gone, no other lookup changes. */
  lemma RemoveDropsOne(t: seq<Slot>, k: nat, fn: Name, other: Name)
    requires DirOk(t) && |t| <= LIMIT && k < |t| && Find(t, fn) == k
    ensures var t' := t[k := Deleted(t[k])];
            DirOk(t') && Find(t', other) == if other == fn then -1 else Find(t, other)
  {
    var t' := t[k := Deleted(t[k])];
    FindIsSlot(t, fn, k);
    MatchIsLive(t[k], fn);
    assert Blank(t'[k]);
    FindIsFirst(t, other, 0);
    var r := Find(t, other);
    if other != fn && r >= 0 {
      FindIsSlot(t', other, r);
    } else {
      forall i | 0 <= i < |t'| && i < LIMIT ensures !Match(t'[i], other) {
        if i == k {
          if Match(t'[k], other) {
            MatchIsLive(t'[k], other);
          }
        } else {
          FindIsSlot(t, other, i);
        }
      }
      NoSlotNoFind(t', other);
    }
  }

  /** Zero slots added at the end change no lookup. */
  lemma {:induction false} StretchKeepsFind(t: seq<Slot>, z: seq<Slot>, fn: Name, i: nat)
    requires i <= |t| && forall k | 0 <= k < |z| :: z[k][0] == 0
    ensures FindFrom(t + z, fn, i) == FindFrom(t, fn, i)
    decreases |t| - i
  {
    if i < |t| {
      StretchKeepsFind(t, z, fn, i + 1);
    }
  }

  lemma StretchKeepsOk(t: seq<Slot>, z: seq<Slot>)
    requires DirOk(t) && forall k | 0 <= k < |z| :: z[k][0] == 0
    ensures DirOk(t + z)
  {
  }

  // ---------------------------------------------------------------- the directory as a map of names

  /** The names a table holds. */
  ghost function Keys(t: seq<Slot>): set<Name> {
    set i | 0 <= i < |t| && Live(t[i]) :: NameOf(t[i])
  }

  function NameOf(s: Slot): Name
    requires Live(s)
  {
    assert s[..11][0] == s[0];
    s[..11]
  }

  /** A lookup succeeds exactly on these names. */
  lemma KeysAreFound(t: seq<Slot>, fn: Name)
    requires DirOk(t) && |t| <= LIMIT
    ensures fn in Keys(t) <==> Find(t, fn) >= 0
  {
    FindIsFirst(t, fn, 0);
    if fn in Keys(t) {
      var i :| 0 <= i < |t| && Live(t[i]) && NameOf(t[i]) == fn;
      FindIsSlot(t, fn, i);
    }
    if Find(t, fn) >= 0 {
      MatchIsLive(t[Find(t, fn)], fn);
    }
  }

  /** The map has a name exactly at the slot with its bytes. */
  lemma ListingByBytes(t: seq<Slot>, fn: Name, k: nat)
    requires DirOk(t) && |t| <= 0x1_0000 && k < |t|
    ensures fn in Listing(t) && Listing(t)[fn] == k <==> t[k][..11] == fn && t[k][11] / 8 % 2 == 0
  {
    KeysAreFound(t, fn);
    FoundByBytes(t, fn, k);
  }

  /** What f_open, f_mkdir and f_unlink do to a directory; room is the cluster a full table can grow by. */
  datatype DirOp = Register(fn: Name, room: nat) | Remove(fn: Name)

  /** The table after one operation. */
  function Apply(t: seq<Slot>, op: DirOp): seq<Slot> {
    match op
    case Register(fn, room) =>
      if Find(t, fn) >= 0 then t
      else
        var k := BlankFrom(t, 0);
        var t1 := if k < |t| || |t| + room > LIMIT then t else t + ZeroSlots(room);
        if k < |t1| then t1[k := NewEntry(fn)] else t
    case Remove(fn) =>
      var k := Find(t, fn);
      if k < 0 || k >= |t| then t else t[k := Deleted(t[k])]
  }

  /** The directory as a map: the names it holds, each with its slot. */
  ghost function Listing(t: seq<Slot>): map<Name, nat> {
    map fn: Name | fn in Keys(t) :: SlotOf(t, fn)
  }

  function SlotOf(t: seq<Slot>, fn: Name): nat {
    if Find(t, fn) >= 0 then Find(t, fn) else 0
  }

  /** The map after one operation; slot is the first blank slot before it. */
  function ApplyMap(m: map<Name, nat>, op: DirOp, full: bool, slot: nat): map<Name, nat> {
    match op
    case Register(fn, _) => if full || fn in m then m else m[fn := slot]
    case Remove(fn) => m - {fn}
  }

  /** No blank slot and no room to grow. */
  predicate Full(t: seq<Slot>, op: DirOp) {
    op.Register? && BlankFrom(t, 0) == |t| && (op.room == 0 || |t| + op.room > LIMIT)
  }

  /** What lookups say is all that a map of the directory says. */
  lemma ListingOf(t: seq<Slot>, m: map<Name, nat>)
    requires DirOk(t) && |t| <= LIMIT
    requires forall x: Name :: Find(t, x) == if x in m then m[x] as int else -1
    ensures Listing(t) == m
  {
    forall x: Name ensures x in Listing(t) <==> x in m {
      KeysAreFound(t, x);
    }
    assert Listing(t).Keys == m.Keys;
  }

  /** And the map of the directory says what lookups say. */
  lemma ListingFinds(t: seq<Slot>, x: Name)
    requires DirOk(t) && |t| <= LIMIT
    ensures Find(t, x) == if x in Listing(t) then Listing(t)[x] as int else -1
  {
    KeysAreFound(t, x);
    FindIsFirst(t, x, 0);
  }

  /** One operation on the table is one operation on its map: each other name keeps its slot. */
  lemma ApplyIsMap(t: seq<Slot>, op: DirOp)
    requires DirOk(t) && |t| <= LIMIT
    ensures DirOk(Apply(t, op)) && |Apply(t, op)| <= LIMIT
    ensures Listing(Apply(t, op)) == ApplyMap(Listing(t), op, Full(t, op), BlankFrom(t, 0))
  {
    hide DirOk, Listing, FindFrom;
    var t', m := Apply(t, op), ApplyMap(Listing(t), op, Full(t, op), BlankFrom(t, 0));
    match op
    case Register(fn, room) =>
      ListingFinds(t, fn);
      if Find(t, fn) < 0 && !Full(t, op) {
        RegisterInto(t, fn, room);
        forall x: Name ensures Find(t', x) == if x in m then m[x] as int else -1 { ListingFinds(t, x); }
        ListingOf(t', m);
      }
    case Remove(fn) =>
      ListingFinds(t, fn);
      if Find(t, fn) >= 0 {
        RemoveFrom(t, fn);
        forall x: Name ensures Find(t', x) == if x in m then m[x] as int else -1 { ListingFinds(t, x); }
        ListingOf(t', m);
      }
  }

  lemma RemoveFrom(t: seq<Slot>, fn: Name)
    requires DirOk(t) && |t| <= LIMIT && Find(t, fn) >= 0
    ensures var t' := Apply(t, Remove(fn));
            DirOk(t') && |t'| <= LIMIT && forall x: Name :: Find(t', x) == if x == fn then -1 else Find(t, x)
  {
    FindIsFirst(t, fn, 0);
    RemoveDropsOne(t, Find(t, fn), fn, fn);
    forall x: Name ensures Find(Apply(t, Remove(fn)), x) == if x == fn then -1 else Find(t, x) {
      RemoveDropsOne(t, Find(t, fn), fn, x);
    }
  }

  /** A new name gets the first blank slot, in a stretched table too, and every other lookup stays. */
  lemma RegisterInto(t: seq<Slot>, fn: Name, room: nat)
    requires DirOk(t) && |t| <= LIMIT && Find(t, fn) < 0 && !Full(t, Register(fn, room))
    ensures var t' := Apply(t, Register(fn, room));
            && DirOk(t') && |t'| <= LIMIT
            && forall x: Name :: Find(t', x) == if x == fn then BlankFrom(t, 0) else Find(t, x)
  {
    var k := BlankFrom(t, 0);
    var t1 := if k < |t| || |t| + room > LIMIT then t else t + ZeroSlots(room);
    if k == |t| {
      StretchKeepsOk(t, ZeroSlots(room));
      StretchKeepsFind(t, ZeroSlots(room), fn, 0);
      BlankInStretch(t, room, 0);
    }
    FindIsFirst(t, fn, 0);
    var t' := t1[k := NewEntry(fn)];
    RegisterAddsOne(t1, fn, fn);
    forall x: Name ensures Find(t', x) == if x == fn then k else Find(t, x) {
      RegisterAddsOne(t1, fn, x);
      StretchKeepsFind(t, ZeroSlots(room), x, 0);
    }
  }

  lemma {:induction false} BlankInStretch(t: seq<Slot>, room: nat, i: nat)
    requires i <= |t| && room > 0 && BlankFrom(t, i) == |t|
    ensures BlankFrom(t + ZeroSlots(room), i) == |t|
    decreases |t| - i
  {
    if i < |t| {
      BlankInStretch(t, room, i + 1);
    }
  }

  function Run(t: seq<Slot>, ops: seq<DirOp>): seq<Slot>
    decreases |ops|
  {
    if ops == [] then t else Run(Apply(t, ops[0]), ops[1..])
  }

  lemma {:induction false} RunSnoc(t: seq<Slot>, ops: seq<DirOp>, op: DirOp)
    ensures Run(t, ops + [op]) == Apply(Run(t, ops), op)
    decreases |ops|
  {
    if ops == [] {
      assert ([] + [op])[1..] == [];
    } else {
      RunSnoc(Apply(t, ops[0]), ops[1..], op);
      assert (ops + [op])[1..] == ops[1..] + [op];
    }
  }

  /** The map after a run, with the registrations that found the table full left out. */
  function RunMap(t: seq<Slot>, m: map<Name, nat>, ops: seq<DirOp>): map<Name, nat>
    decreases |ops|
  {
    if ops == [] then m
    else RunMap(Apply(t, ops[0]), ApplyMap(m, ops[0], Full(t, ops[0]), BlankFrom(t, 0)), ops[1..])
  }

  /** Over any run the directory is the map of the names that were registered and not removed since. */
  lemma {:induction false} RunIsMap(t: seq<Slot>, ops: seq<DirOp>)
    requires DirOk(t) && |t| <= LIMIT
    ensures DirOk(Run(t, ops)) && |Run(t, ops)| <= LIMIT
    ensures Listing(Run(t, ops)) == RunMap(t, Listing(t), ops)
    decreases |ops|
  {
    hide DirOk, Listing, Apply, ApplyMap;
    if ops != [] {
      ApplyIsMap(t, ops[0]);
      RunIsMap(Apply(t, ops[0]), ops[1..]);
    }
  }
}
