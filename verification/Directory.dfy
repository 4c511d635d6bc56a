/**
 Directory objects: seeking and stepping through a table of entries that is a
 fixed run of sectors (the FAT12/16 root) or a cluster chain, and the search,
 registration and removal of entries on it.
 */
module Directory {
  import opened Bits
  import opened BlockDevice
  import opened Volume
  import opened Layout
  import opened DirTable
  import A = Allocator

  datatype DResult = OK | NO_FILE | INT_ERR | DENIED

  /** The static root directory of a FAT12/16 volume lies between the FAT copies and the data. */
  predicate RootOk(g: Geometry) {
    !g.fsType.FAT32? ==>
      g.nRootdir > 0 && g.nRootdir % 16 == 0 && FatEnd(g) <= g.dirbase && g.dirbase + g.nRootdir / 16 <= g.database
  }

  /** The number of 16-bit slot numbers a table of n sectors has. */
  function SlotCount(n: nat): nat {
    if 16 * n <= LIMIT then 16 * n else LIMIT
  }

  function SlotAt(img: seq<Sector>, sects: seq<nat>, i: nat): Slot
    requires i / 16 < |sects| && sects[i / 16] < |img|
  {
    img[sects[i / 16]][i % 16 * 32..i % 16 * 32 + 32]
  }

  ghost predicate TableShown(img: seq<Sector>, sects: seq<nat>) {
    forall k | 0 <= k < |sects| :: sects[k] < |img|
  }

  /** The slots of a table. */
  ghost function SlotsOf(img: seq<Sector>, sects: seq<nat>): (t: seq<Slot>)
    requires TableShown(img, sects)
    ensures |t| == SlotCount(|sects|)
  {
    seq(SlotCount(|sects|), i requires 0 <= i < SlotCount(|sects|) => SlotAt(img, sects, i))
  }

  /** The sectors of the table: the root run for an empty chain, the chain's sectors otherwise. */
  function TableSectors(g: Geometry, chain: seq<nat>): seq<nat> {
    if chain == [] then Consecutive(g.dirbase, g.nRootdir / 16) else SectorsOf(g, chain)
  }

  /** The table grew by zero slots. */
  ghost predicate Stretched(t: seq<Slot>, t': seq<Slot>) {
    |t| < |t'| && t' == t + ZeroSlots(|t'| - |t|)
  }

  /** Sectors kept and zero sectors added, as slots. */
  lemma StretchedSlots(img0: seq<Sector>, img1: seq<Sector>, sects0: seq<nat>, sects1: seq<nat>)
    requires TableShown(img0, sects0) && TableShown(img1, sects1) && sects0 <= sects1 && |sects0| < |sects1|
    requires 16 * |sects0| < LIMIT
    requires forall k | 0 <= k < |sects0| :: img1[sects1[k]] == img0[sects0[k]]
    requires forall k | |sects0| <= k < |sects1| :: img1[sects1[k]] == ZeroSector()
    ensures Stretched(SlotsOf(img0, sects0), SlotsOf(img1, sects1))
  {
    var t, t' := SlotsOf(img0, sects0), SlotsOf(img1, sects1);
    forall i | 0 <= i < |t'|
      ensures t'[i] == (t + ZeroSlots(|t'| - |t|))[i]
    {
      if i >= |t| {
        assert SlotAt(img1, sects1, i) == seq(32, _ => 0);
      }
    }
  }

  /** The sectors of a table after a cluster was linked to it and cleared. */
  lemma StretchedSectors(g: Geometry, img0: seq<Sector>, imgA: seq<Sector>, chain: seq<nat>, r: nat, img1: seq<Sector>)
    requires GeometryOk(g, |img0|) && Clusters(g, chain + [r]) && A.Distinct(chain + [r])
    requires SameOutsideFat(img0, imgA, g) && img1 == ZeroRun(imgA, Clust2Sect(g, r), g.csize)
    ensures SectorsOf(g, chain) <= SectorsOf(g, chain + [r])
    ensures |SectorsOf(g, chain + [r])| == |SectorsOf(g, chain)| + g.csize
    ensures TableShown(img1, SectorsOf(g, chain + [r])) && TableShown(img0, SectorsOf(g, chain))
    ensures var s0, s1 := SectorsOf(g, chain), SectorsOf(g, chain + [r]);
            && (forall k | 0 <= k < |s0| :: img1[s1[k]] == img0[s0[k]])
            && (forall k | |s0| <= k < |s1| :: img1[s1[k]] == ZeroSector())
  {
    var s1 := SectorsOf(g, chain + [r]);
    SectorsOfExtend(g, chain, r);
    SectorsDistinct(g, |img0|, chain + [r]);
    forall k | 0 <= k < |s1| ensures FatEnd(g) <= s1[k] < |img0| {
      DataSector(g, |img0|, chain + [r], k);
    }
    hide GeometryOk, Clusters, SectorsOf, Clust2Sect, A.Distinct;
    ClearedRun(g, img0, imgA, SectorsOf(g, chain), s1, Clust2Sect(g, r), img1);
  }

  lemma DataSector(g: Geometry, total: nat, chain: seq<nat>, k: nat)
    requires GeometryOk(g, total) && Clusters(g, chain) && k < |SectorsOf(g, chain)|
    ensures FatEnd(g) <= SectorsOf(g, chain)[k] < total
  {
    SectorInRange(g, total, chain, k);
  }

  lemma ClearedRun(g: Geometry, img0: seq<Sector>, imgA: seq<Sector>, s0: seq<nat>, s1: seq<nat>, c: nat,
                   img1: seq<Sector>)
    requires s1 == s0 + Consecutive(c, g.csize) && A.Distinct(s1)
    requires forall k | 0 <= k < |s1| :: FatEnd(g) <= s1[k] < |img0|
    requires SameOutsideFat(img0, imgA, g) && img1 == ZeroRun(imgA, c, g.csize)
    ensures forall k | 0 <= k < |s0| :: s0[k] < |img0| && img1[s1[k]] == img0[s0[k]]
    ensures forall k | |s0| <= k < |s1| :: img1[s1[k]] == ZeroSector()
  {
    forall k | 0 <= k < |s0| ensures s0[k] < |img0| && img1[s1[k]] == img0[s0[k]] {
      assert s1[k] == s0[k];
      AwayFromLast(s1, |s0|, c, g.csize, k);
    }
  }

  lemma AwayFromLast(s: seq<nat>, n: nat, c: nat, len: nat, k: nat)
    requires A.Distinct(s) && |s| == n + len && k < n
    requires forall l | n <= l < |s| :: s[l] == c + (l - n)
    ensures !(c <= s[k] < c + len)
  {
    if c <= s[k] < c + len {
      LastHas(s, n, c, len, s[k]);
    }
  }

  lemma LastHas(s: seq<nat>, n: nat, c: nat, len: nat, v: nat)
    requires |s| == n + len && forall l | n <= l < |s| :: s[l] == c + (l - n)
    requires c <= v < c + len
    ensures exists l :: n <= l < |s| && s[l] == v
  {
    assert s[n + (v - c)] == v;
  }

  /** Bytes put at the start of a slot change that slot alone. */
  lemma PutInSlots(img: seq<Sector>, sects: seq<nat>, i: nat, data: seq<byte>)
    requires TableShown(img, sects) && A.Distinct(sects) && i < SlotCount(|sects|) && |data| <= 32
    ensures var img' := img[sects[i / 16] := Splice(img[sects[i / 16]], i % 16 * 32, data)];
            && TableShown(img', sects)
            && SlotsOf(img', sects) == SlotsOf(img, sects)[i := data + SlotsOf(img, sects)[i][|data|..]]
  {
    var s, o := sects[i / 16], i % 16 * 32;
    var img' := img[s := Splice(img[s], o, data)];
    PutHere(img[s], o, data);
    forall k | 0 <= k < SlotCount(|sects|)
      ensures SlotAt(img', sects, k) == if k == i then data + SlotAt(img, sects, i)[|data|..] else SlotAt(img, sects, k)
    {
      if k / 16 == i / 16 {
        if k != i {
          PutBeside(img[s], i % 16, data, k % 16);
        }
      } else {
        assert sects[k / 16] != s;
      }
    }
  }

  lemma PutHere(w: Sector, o: nat, data: seq<byte>)
    requires |data| <= 32 && o + 32 <= 512
    ensures Splice(w, o, data)[o..o + 32] == data + w[o..o + 32][|data|..]
  {
    var w', d := Splice(w, o, data), |data|;
    assert w[o..o + 32][d..] == w[o + d..o + 32];
    assert w'[o..o + d] == data;
    assert w'[o + d..o + 32] == w[o + d..o + 32];
    assert w'[o..o + 32] == w'[o..o + d] + w'[o + d..o + 32];
  }

  /** Another slot of the sector. */
  lemma PutBeside(w: Sector, i: nat, data: seq<byte>, k: nat)
    requires |data| <= 32 && i < 16 && k < 16 && i != k
    ensures Splice(w, i * 32, data)[k * 32..k * 32 + 32] == w[k * 32..k * 32 + 32]
  {
    var o, p := i * 32, k * 32;
    assert p + 32 <= o || o + 32 <= p;
    OutsideSplice(w, o, data, p);
  }

  lemma OutsideSplice(w: Sector, o: nat, data: seq<byte>, p: nat)
    requires |data| <= 32 && o + 32 <= 512 && p + 32 <= 512 && (p + 32 <= o || o + 32 <= p)
    ensures Splice(w, o, data)[p..p + 32] == w[p..p + 32]
  {
    forall j | p <= j < p + 32 ensures Splice(w, o, data)[j] == w[j] { }
  }

  /** What a directory call may change: entries and sectors of its table, and free clusters linked to it. */
  ghost predicate OnlyTable(g: Geometry, fat0: seq<nat>, img0: seq<Sector>, chain0: seq<nat>,
                            fat1: seq<nat>, img1: seq<Sector>, chain1: seq<nat>)
  {
    && A.Grows(fat0, chain0, fat1, chain1) && (chain0 == [] ==> chain1 == []) && |img1| == |img0|
    && forall s | 0 <= s < |img0| && (s < g.fatbase || FatEnd(g) <= s) && s !in TableSectors(g, chain1) ::
      img1[s] == img0[s]
  }

  lemma OnlyTableTrans(g: Geometry, fat0: seq<nat>, img0: seq<Sector>, chain0: seq<nat>,
                       fat1: seq<nat>, img1: seq<Sector>, chain1: seq<nat>,
                       fat2: seq<nat>, img2: seq<Sector>, chain2: seq<nat>)
    requires OnlyTable(g, fat0, img0, chain0, fat1, img1, chain1)
               && OnlyTable(g, fat1, img1, chain1, fat2, img2, chain2)
    ensures OnlyTable(g, fat0, img0, chain0, fat2, img2, chain2)
  {
    A.GrowsTrans(fat0, chain0, fat1, chain1, fat2, chain2);
    assert chain1 <= chain2 && (chain1 == [] ==> chain2 == []);
    TableGrows(g, chain1, chain2);
    hide A.Grows, TableSectors;
  }

  lemma TableGrows(g: Geometry, chain0: seq<nat>, chain1: seq<nat>)
    requires chain0 <= chain1 && (chain0 == [] ==> chain1 == [])
    ensures TableSectors(g, chain0) <= TableSectors(g, chain1)
  {
    assert chain0 == chain1[..|chain0|];
    SectorsOfPrefix(g, chain1, |chain0|);
  }

  /** The window moved from sector w0 to w1: nowhere, to the first FAT copy, or to the table. */
  ghost predicate Near(g: Geometry, chain: seq<nat>, w0: nat, w1: nat) {
    w1 == w0 || g.fatbase <= w1 < g.fatbase + g.fsize || w1 in TableSectors(g, chain)
  }

  lemma NearTrans(g: Geometry, chain1: seq<nat>, chain2: seq<nat>, w0: nat, w1: nat, w2: nat)
    requires Near(g, chain1, w0, w1) && Near(g, chain2, w1, w2) && chain1 <= chain2 && (chain1 == [] ==> chain2 == [])
    ensures Near(g, chain2, w0, w2)
  {
    TableGrows(g, chain1, chain2);
    if w2 == w1 && w1 in TableSectors(g, chain1) {
      var k :| 0 <= k < |TableSectors(g, chain1)| && TableSectors(g, chain1)[k] == w1;
      assert TableSectors(g, chain2)[k] == w1;
    }
  }

  lemma TableSame(g: Geometry, fat: seq<nat>, img0: seq<Sector>, chain: seq<nat>, img1: seq<Sector>)
    requires SameOutsideFat(img0, img1, g)
    ensures OnlyTable(g, fat, img0, chain, fat, img1, chain)
  {
    hide TableSectors;
  }

  lemma TableWrite(g: Geometry, fat: seq<nat>, img: seq<Sector>, chain: seq<nat>, s: nat, w: Sector)
    requires s in TableSectors(g, chain) && s < |img|
    ensures OnlyTable(g, fat, img, chain, fat, img[s := w], chain)
  {
    hide TableSectors;
  }

  /** A cluster linked to the table and cleared. */
  lemma TableStretch(g: Geometry, fat0: seq<nat>, img0: seq<Sector>, chain: seq<nat>, r: nat,
                     fat1: seq<nat>, imgA: seq<Sector>, img1: seq<Sector>)
    requires A.Grows(fat0, chain, fat1, chain + [r]) && chain != []
    requires SameOutsideFat(img0, imgA, g) && img1 == ZeroRun(imgA, Clust2Sect(g, r), g.csize)
    ensures OnlyTable(g, fat0, img0, chain, fat1, img1, chain + [r])
  {
    hide A.Grows, Clust2Sect;
    SectorsOfExtend(g, chain, r);
    var c := Clust2Sect(g, r);
    forall s | c <= s < c + g.csize ensures s in SectorsOf(g, chain + [r]) {
      assert Consecutive(c, g.csize)[s - c] == s;
    }
  }

  /** A name that was absent from a table with a blank slot, or stretched to have one. */
  lemma Registered(t: seq<Slot>, t': seq<Slot>, fn: Name, room: nat)
    requires Find(t, fn) < 0 && |t| <= |t'| <= LIMIT && room == |t'| - |t|
    requires var k := BlankFrom(t, 0);
             k < |t'| && if k < |t| then t' == t[k := NewEntry(fn)]
               else t' == (t + ZeroSlots(|t'| - k))[k := NewEntry(fn)]
    ensures t' == Apply(t, Register(fn, room)) && !Full(t, Register(fn, room))
  {
  }

  /** A table without a blank slot that did not grow. */
  lemma NothingRegistered(t: seq<Slot>, fn: Name)
    requires Find(t, fn) < 0 && BlankFrom(t, 0) == |t|
    ensures Apply(t, Register(fn, 0)) == t && Full(t, Register(fn, 0))
  {
  }

  predicate NoCluster(g: Geometry, c: nat) {
    c < 2 || c >= g.nFatent
  }

  /** The slots that a FAT32 root without a cluster seems to have. */
  function WildSlots(g: Geometry): nat {
    if g.dirbase == 0 then g.nRootdir else 16 * g.csize
  }

  /** Slot idx of a chain lies rest slots behind the start of cluster clst. */
  ghost predicate FoundAt(g: Geometry, chain: seq<nat>, idx: nat, clst: nat, rest: nat) {
    && g.csize > 0 && idx / 16 < |SectorsOf(g, chain)|
    && ClusterOf(g, idx / 16) < |chain| && clst == chain[ClusterOf(g, idx / 16)]
    && rest % 16 == idx % 16 && SectorsOf(g, chain)[idx / 16] == Clust2Sect(g, clst) + rest / 16
  }

  lemma SectorsOfNone(csize: nat)
    ensures Sectors(0, csize) == 0
  {
  }

  lemma NextStart(csize: nat, j: nat)
    ensures Sectors(j + 1, csize) == Sectors(j, csize) + csize
  {
  }

  class DIR {
    const fs: FATFS
    const fn: Name               // the name to look for or to enter
    var index: nat               // current slot
    var sclust: nat              // start cluster of the table, 0: root
    var clust: nat               // current cluster, 0: static table
    var sect: nat                // current sector
    var dir: nat                 // offset of the slot in the window
    ghost var chain: seq<nat>    // clusters of the table, none for the static root

    constructor (fs: FATFS, fn: Name, sclust: nat, ghost chain: seq<nat>)
      requires fs.Valid() && RootOk(fs.g)
      requires if chain == [] then sclust == 0 && !fs.g.fsType.FAT32?
               else A.Chain(fs.fat, chain) && chain[0] == if sclust == 0 && fs.g.fsType.FAT32? then fs.g.dirbase
                 else sclust
      ensures Ok() && this.fs == fs && this.fn == fn && this.sclust == sclust && this.chain == chain
    {
      this.fs, this.fn, this.sclust, this.chain := fs, fn, sclust, chain;
      index, clust, sect, dir := 0, 0, 0, 0;
    }

    /** A directory object for an entry, or for a FAT32 root, whose start cluster is out of range. */
    constructor Unopened(fs: FATFS, fn: Name, sclust: nat)
      requires fs.Valid()
      requires sclust == 1 || sclust >= fs.g.nFatent
                 || (sclust == 0 && fs.g.fsType.FAT32? && (fs.g.dirbase < 2 || fs.g.dirbase >= fs.g.nFatent))
      ensures (BadStart() || BadRoot()) && this.fs == fs && this.fn == fn && this.sclust == sclust
    {
      this.fs, this.fn, this.sclust, this.chain := fs, fn, sclust, [];
      index, clust, sect, dir := 0, 0, 0, 0;
    }

    ghost function Sects(): seq<nat>
      reads this`chain
    {
      TableSectors(fs.g, chain)
    }

    ghost predicate Ok()
      reads this`chain, this`sclust, fs, fs.win, fs.disk
    {
      && fs.Valid() && RootOk(fs.g)
      && if chain == [] then sclust == 0 && !fs.g.fsType.FAT32?
         else A.Chain(fs.fat, chain) && chain[0] == if sclust == 0 && fs.g.fsType.FAT32? then fs.g.dirbase else sclust
    }

    lemma Facts()
      requires Ok()
      ensures fs.Valid() && GeometryOk(fs.g, |fs.img|) && |fs.disk.sectors| == |fs.img| && |fs.fat| == fs.g.nFatent
      ensures Clusters(fs.g, chain) && A.Distinct(chain) && fs.g.csize > 0 && IsPow2(fs.g.csize)
      ensures TableShown(fs.img, Sects()) && A.Distinct(Sects())
      ensures forall k | 0 <= k < |Sects()| :: FatEnd(fs.g) <= Sects()[k] && 0 < Sects()[k]
      ensures |Sects()| > 0
    {
      if chain != [] {
        A.ChainIsDistinct(fs.fat, chain);
        SectorsDistinct(fs.g, |fs.img|, chain);
        FirstSector(fs.g, chain);
        forall k | 0 <= k < |Sects()| ensures fs.g.database <= Sects()[k] < |fs.img| {
          SectorInRange(fs.g, |fs.img|, chain, k);
        }
      }
    }

    /** The table. */
    ghost function Slots(): (t: seq<Slot>)
      requires Ok()
      reads this`chain, this`sclust, fs, fs.win, fs.disk
      ensures |t| == SlotCount(|Sects()|)
    {
      Facts();
      SlotsOf(fs.img, Sects())
    }

    /**
     Byte j of slot i is byte i % 16 * 32 + j of sector i / 16 of the table, the static root being
     one run of sectors.
    */
    lemma SlotPlace(i: nat, j: nat)
      requires Ok() && i < |Slots()| && j < 32
      ensures i < 0x1_0000 && (chain != [] ==> i / 16 < |SectorsOf(fs.g, chain)|)
      ensures var s := if chain == [] then fs.g.dirbase + i / 16 else SectorsOf(fs.g, chain)[i / 16];
              s < |fs.img| && Slots()[i][j] == fs.img[s][i % 16 * 32 + j]
    {
      Facts();
      hide fs.Valid, A.Chain, SectorsOf, GeometryOk, Clusters;
    }

    /** How many slots there are: sixteen a sector, and no more than numbers of 16 bits. */
    lemma SlotNumber()
      requires Ok()
      ensures var n := if chain == [] then fs.g.nRootdir else 16 * (|chain| * fs.g.csize);
              |Slots()| == if n <= 0x1_0000 then n else 0x1_0000
    {
      Facts();
      if chain != [] {
        SectorPlace(fs.g, chain, 0);
      }
      hide fs.Valid, A.Chain, SectorsOf, GeometryOk, Clusters, SlotsOf;
    }

    /** The object stands at slot i. */
    ghost predicate At(i: nat)
      reads this`index, this`clust, this`sect, this`dir, this`chain
    {
      && i < LIMIT && i / 16 < |Sects()| && index == i && sect == Sects()[i / 16] && dir == i % 16 * 32
      && (chain == [] ==> clust == 0)
      && (chain != [] ==>
            fs.g.csize > 0 && ClusterOf(fs.g, i / 16) < |chain| && clust == chain[ClusterOf(fs.g, i / 16)])
    }

    /** The table starts at no cluster, which a damaged entry can say. */
    predicate BadStart()
      reads this`sclust
    {
      sclust == 1 || sclust >= fs.g.nFatent
    }

    /** The root of a FAT32 volume starts at no cluster, which mounting does not look at. */
    ghost predicate BadRoot()
      reads this`sclust, fs, fs.win, fs.disk
    {
      fs.Valid() && sclust == 0 && fs.g.fsType.FAT32? && (fs.g.dirbase < 2 || fs.g.dirbase >= fs.g.nFatent)
    }

    /**
     Goes to slot idx, following the chain from its start. For a FAT32 root that starts at
     no cluster it finds its slots in the sectors from number 0 on.
     */
    method Sdi(idx: nat) returns (res: DResult)
      requires (Ok() || BadStart() || BadRoot()) && idx < LIMIT
      modifies this`index, this`clust, this`sect, this`dir, fs`winsect, fs`wflag, fs.win, fs.disk
      ensures BadStart() ==> res == INT_ERR
      ensures old(Ok()) ==>
                && Ok() && Slots() == old(Slots()) && Near(fs.g, chain, old(fs.winsect), fs.winsect)
                && res == (if idx < |Slots()| then OK else INT_ERR) && (res == OK ==> At(idx) && index == idx)
      ensures old(BadRoot()) ==>
                && BadRoot()
                && res == (if idx < (if fs.g.dirbase == 0 then fs.g.nRootdir else 16 * fs.g.csize) then OK else INT_ERR)
                && (res == OK ==> index == idx && sect == idx / 16 && dir == idx % 16 * 32)
    {
      hide Ok, Slots, At, BadRoot, Near;
      ghost var ok := Ok();
      OneCase();
      index := idx;
      if sclust == 1 || sclust >= fs.g.nFatent {
        return INT_ERR;
      }
      res := SdiInTable(ok);
    }

    /** The rest of it, for a start cluster in range. */
    method SdiInTable(ghost ok: bool) returns (res: DResult)
      requires (if ok then Ok() else BadRoot()) && index < LIMIT
      modifies this`clust, this`sect, this`dir, fs`winsect, fs`wflag, fs.win, fs.disk
      ensures ok ==>
                && Ok() && Slots() == old(Slots()) && Near(fs.g, chain, old(fs.winsect), fs.winsect)
                && res == (if index < |Slots()| then OK else INT_ERR) && (res == OK ==> At(index))
      ensures !ok ==>
                && BadRoot() && res == (if index < WildSlots(fs.g) then OK else INT_ERR)
                && (res == OK ==> sect == index / 16 && dir == index % 16 * 32)
    {
      hide fs.Valid, Slots, SectorsOf, ClusterOf, GeometryOk, Clusters, SlotsOf, Near, A.Chain;
      StartsAt(ok);
      Unmoved();
      var idx := index;
      var clst := sclust;
      if clst == 0 && fs.g.fsType.FAT32? {
        clst := fs.g.dirbase;
      }
      if clst == 0 {
        clust := clst;
        if idx >= fs.g.nRootdir {
          return INT_ERR;
        }
        sect := fs.g.dirbase + idx / 16;
      } else {
        var rest;
        res, clst, rest := FollowTable(clst, idx, ok);
        if res != OK {
          return;
        }
        clust := clst;
        sect := Clust2Sect(fs.g, clst) + rest / 16;
      }
      dir := idx % 16 * 32;
      res := OK;
    }

    /** A table has a start, a FAT32 root without one is no table. */
    lemma OneCase()
      ensures BadStart() ==> !Ok() && !BadRoot()
      ensures !(Ok() && BadRoot())
    {
      if Ok() {
        Facts();
      }
    }

    /** Where the walk starts: at the first cluster, in the static table, or nowhere. */
    lemma StartsAt(ok: bool)
      requires (if ok then Ok() else BadRoot()) && index < LIMIT
      ensures var start := if sclust == 0 && fs.g.fsType.FAT32? then fs.g.dirbase else sclust;
              if !ok then NoCluster(fs.g, start) && start == fs.g.dirbase
              else if start != 0 then chain != [] && start == chain[0] && Sects() == SectorsOf(fs.g, chain)
              else
                && chain == [] && Sects() == Consecutive(fs.g.dirbase, fs.g.nRootdir / 16) && fs.g.nRootdir % 16 == 0
                && (index < |Slots()| <==> index < fs.g.nRootdir)
    {
    }

    /** The loop of dir_sdi over the clusters of the table. */
    method FollowTable(first: nat, idx: nat, ghost ok: bool) returns (res: DResult, clst: nat, rest: nat)
      requires if ok then Ok() && chain != [] && first == chain[0] else fs.Valid() && NoCluster(fs.g, first)
      requires idx < LIMIT
      modifies fs`winsect, fs`wflag, fs.win, fs.disk
      ensures ok ==>
                && Ok() && Slots() == old(Slots()) && Near(fs.g, chain, old(fs.winsect), fs.winsect)
                && res == (if idx < |Slots()| then OK else INT_ERR)
                && (res == OK ==> FoundAt(fs.g, chain, idx, clst, rest))
      ensures !ok ==>
                && fs.Valid() && res == (if idx < 16 * fs.g.csize then OK else INT_ERR)
                && (res == OK ==> clst == first && rest == idx)
    {
      hide Ok, fs.Valid, Slots, SectorsOf, ClusterOf, OffsetIn, GeometryOk, Clusters, Clust2Sect, Sectors, Near,
           FoundAt;
      ghost var j: nat := 0;
      clst, rest := first, idx;
      SectorsOfNone(fs.g.csize);
      Unmoved();
      var ic := 16 * fs.g.csize;
      while rest >= ic
        invariant if ok then Ok() && Slots() == old(Slots()) && Near(fs.g, chain, old(fs.winsect), fs.winsect)
                    && j < |chain| && clst == chain[j]
                  else fs.Valid() && clst == first
        invariant if ok then idx == 16 * Sectors(j, fs.g.csize) + rest else rest == idx
        decreases rest
      {
        clst := LinkOf(clst, j, ok);
        if ok {
          OnFat(old(fs.winsect));
        }
        if clst < 2 || clst >= fs.g.nFatent {
          PastTheEnd(ok, j, idx, rest);
          return INT_ERR, clst, rest;
        }
        NextStart(fs.g.csize, j);
        Facts();
        rest := rest - ic;
        j := j + 1;
      }
      PlaceFound(ok, j, idx, rest);
      res := OK;
    }

    /**
     The link of cluster j of the table; only the last one has an end mark, and a number that is no cluster
     has none.
    */
    method LinkOf(clst: nat, ghost j: nat, ghost ok: bool) returns (r: nat)
      requires if ok then Ok() && j < |chain| && clst == chain[j] else fs.Valid() && NoCluster(fs.g, clst)
      modifies fs`winsect, fs`wflag, fs.win, fs.disk
      ensures ok ==> Ok() && Slots() == old(Slots()) && fs.WindowInFat()
      ensures ok ==> if j + 1 < |chain| then r == chain[j + 1] && 2 <= r < fs.g.nFatent else r >= fs.g.nFatent
      ensures !ok ==> fs.Valid() && r == 1
    {
      hide fs.Valid, SectorsOf, SlotsOf;
      if ok {
        Linked(j);
        if j + 1 < |chain| {
          Linked(j + 1);
        }
      }
      r := fs.GetFat(clst);
    }

    /** Link of cluster j of the table. */
    lemma Linked(j: nat)
      requires Ok() && j < |chain|
      ensures 2 <= chain[j] < fs.g.nFatent == |fs.fat|
      ensures if j + 1 < |chain| then fs.fat[chain[j]] == chain[j + 1] else fs.fat[chain[j]] >= fs.g.nFatent
    {
    }

    /** The walk stops on the cluster of the slot. */
    lemma PlaceFound(ok: bool, j: nat, idx: nat, rest: nat)
      requires ok ==> Ok() && j < |chain| && idx == 16 * Sectors(j, fs.g.csize) + rest && rest < 16 * fs.g.csize
      requires idx < LIMIT
      ensures ok ==> j < |chain| && FoundAt(fs.g, chain, idx, chain[j], rest) && idx < |Slots()|
    {
      hide fs.Valid, SectorsOf, Sectors, ClusterOf, OffsetIn;
      if ok {
        Facts();
        SectorAt(fs.g, chain, j, rest / 16);
        IndexUnique(fs.g, j, rest / 16);
      }
    }

    lemma PastTheEnd(ok: bool, j: nat, idx: nat, rest: nat)
      requires ok ==> Ok() && j + 1 == |chain| && idx == 16 * Sectors(j, fs.g.csize) + rest && rest >= 16 * fs.g.csize
      ensures ok ==> idx >= |Slots()|
    {
      hide fs.Valid;
      if ok {
        SectorsOfLength(fs.g, chain);
      }
    }

    /** Stepping inside the table, or the end of it. */
    lemma NextPlace(i: nat)
      requires Ok() && At(i) && i + 1 < LIMIT
      ensures (i + 1) % 16 != 0 ==> (i + 1) / 16 == i / 16 && (i + 1) % 16 == i % 16 + 1
      ensures (i + 1) % 16 == 0 ==> (i + 1) / 16 == i / 16 + 1
      ensures i + 1 < |Slots()| <==> (i + 1) / 16 < |Sects()|
    {
    }

    /**
     Goes to the next slot. At the end of the table it reports NO_FILE, or, asked to
     stretch a cluster table, appends a cluster of zero slots.
     */
    method Next(stretch: bool) returns (res: DResult)
      requires Ok() && At(index)
      modifies this`index, this`clust, this`sect, this`dir, this`chain, fs, fs.win, fs.disk
      ensures res == OK ==> At(old(index) + 1) && index == old(index) + 1
      ensures Ok() && Near(fs.g, chain, old(fs.winsect), fs.winsect)
      ensures OnlyTable(fs.g, old(fs.fat), old(fs.img), old(chain), fs.fat, fs.img, chain)
      ensures res != OK ==> Slots() == old(Slots()) && chain == old(chain) && fs.fat == old(fs.fat)
      ensures res == DENIED ==> A.NoneFree(fs.fat)
      ensures res == INT_ERR ==> A.HasOne(fs.fat)
      ensures old(index) + 1 < |old(Slots())| ==>
                res == OK && Slots() == old(Slots()) && chain == old(chain) && fs.fat == old(fs.fat)
      ensures old(index) + 1 == |old(Slots())| ==>
                (res == NO_FILE <==> !stretch || old(chain) == [] || |old(Slots())| == LIMIT)
      ensures old(index) + 1 == |old(Slots())| && res == OK ==> Stretched(old(Slots()), Slots())
    {
      hide fs.Valid, SectorsOf, ClusterOf, GeometryOk, Clusters, SlotsOf, OffsetIn, A.NoneFree, A.HasOne, Stretched,
           IsPow2, OnlyTable, Near;
      Facts();
      Unmoved();
      var i := (index + 1) % LIMIT;
      if i == 0 || sect == 0 {
        return NO_FILE;
      }
      NextPlace(index);
      if i % 16 == 0 {
        res := NextSector(stretch, i);
        if res != OK {
          return;
        }
      }
      index := i;
      dir := i % 16 * 32;
      res := OK;
    }

    /** The sector boundary of dir_next before slot i. */
    method NextSector(stretch: bool, i: nat) returns (res: DResult)
      requires Ok() && At(index) && i == index + 1 < LIMIT && i % 16 == 0
      modifies this`clust, this`sect, this`chain, fs, fs.win, fs.disk
      ensures res == OK ==> i / 16 < |Sects()| && sect == Sects()[i / 16] && (chain == [] ==> clust == 0)
      ensures res == OK && chain != [] ==>
                fs.g.csize > 0 && ClusterOf(fs.g, i / 16) < |chain| && clust == chain[ClusterOf(fs.g, i / 16)]
      ensures Ok() && Near(fs.g, chain, old(fs.winsect), fs.winsect)
      ensures OnlyTable(fs.g, old(fs.fat), old(fs.img), old(chain), fs.fat, fs.img, chain)
      ensures res != OK ==> Slots() == old(Slots()) && chain == old(chain) && fs.fat == old(fs.fat)
      ensures res == DENIED ==> A.NoneFree(fs.fat)
      ensures res == INT_ERR ==> A.HasOne(fs.fat)
      ensures i / 16 < |old(Sects())| ==>
                res == OK && Slots() == old(Slots()) && chain == old(chain) && fs.fat == old(fs.fat)
      ensures i / 16 == |old(Sects())| ==> (res == NO_FILE <==> !stretch || old(chain) == [])
      ensures i / 16 == |old(Sects())| && res == OK ==> Stretched(old(Slots()), Slots())
    {
      hide fs.Valid, SectorsOf, ClusterOf, GeometryOk, Clusters, SlotsOf, OffsetIn, A.NoneFree, A.HasOne, Stretched,
           IsPow2, OnlyTable, Near;
      Facts();
      Unmoved();
      StaticOrDynamic();
      sect := sect + 1;
      if clust == 0 {
        if i >= fs.g.nRootdir {
          return NO_FILE;
        }
      } else {
        MaskIsOffset(fs.g, i / 16);
        if BitAnd(i / 16, fs.g.csize - 1) == 0 {
          res := NextCluster(stretch, i / 16);
          return;
        }
        InCluster(i / 16);
      }
      res := OK;
    }

    lemma StaticOrDynamic()
      requires Ok() && At(index)
      ensures clust == 0 <==> chain == []
      ensures chain == [] ==> |Sects()| == fs.g.nRootdir / 16 && fs.g.nRootdir % 16 == 0
      ensures chain == [] ==> forall k | 0 <= k < |Sects()| :: Sects()[k] == fs.g.dirbase + k
    {
    }

    lemma DynamicTable()
      ensures chain != [] ==> Sects() == SectorsOf(fs.g, chain)
    {
    }

    /** Away from a cluster boundary the next sector is the next one of the cluster. */
    lemma InCluster(k: nat)
      requires fs.g.csize > 0 && chain != [] && 0 < k <= |Sects()| && OffsetIn(fs.g, k) != 0
      ensures k < |Sects()| && Sects()[k] == Sects()[k - 1] + 1
                && ClusterOf(fs.g, k) == ClusterOf(fs.g, k - 1) < |chain|
    {
      MidCluster(fs.g, chain, k);
      SameCluster(fs.g, k);
      IndexSplit(fs.g, k);
      SectorRun(fs.g, chain, k - 1, 1);
    }

    /** The cluster boundary of dir_next before sector number k of the table. */
    method NextCluster(stretch: bool, k: nat) returns (res: DResult)
      requires Ok() && chain != [] && fs.g.csize > 0 && 0 < k <= |Sects()| && OffsetIn(fs.g, k) == 0 && 16 * k < LIMIT
      requires ClusterOf(fs.g, k - 1) < |chain| && clust == chain[ClusterOf(fs.g, k - 1)]
      modifies this`clust, this`sect, this`chain, fs, fs.win, fs.disk
      ensures res == OK ==>
                && k < |Sects()| && sect == Sects()[k]
                && ClusterOf(fs.g, k) < |chain| && clust == chain[ClusterOf(fs.g, k)]
      ensures Ok() && Near(fs.g, chain, old(fs.winsect), fs.winsect)
      ensures OnlyTable(fs.g, old(fs.fat), old(fs.img), old(chain), fs.fat, fs.img, chain)
      ensures res != OK ==> Slots() == old(Slots()) && chain == old(chain) && fs.fat == old(fs.fat)
      ensures res == DENIED ==> A.NoneFree(fs.fat)
      ensures res == INT_ERR ==> A.HasOne(fs.fat)
      ensures k < |old(Sects())| ==>
                res == OK && Slots() == old(Slots()) && chain == old(chain) && fs.fat == old(fs.fat)
      ensures k == |old(Sects())| ==> (res == NO_FILE <==> !stretch)
      ensures k == |old(Sects())| && res == OK ==> Stretched(old(Slots()), Slots())
    {
      hide fs.Valid, SectorsOf, ClusterOf, GeometryOk, Clusters, SlotsOf, OffsetIn, A.NoneFree, A.HasOne, Stretched,
           Clust2Sect, OnlyTable, Near;
      Facts();
      Unmoved();
      DynamicTable();
      Boundary(fs.g, chain, k);
      ghost var j := ClusterOf(fs.g, k - 1);
      Linked(j);
      var clst := fs.GetFat(clust);
      OnFat(old(fs.winsect));
      if clst <= 1 {
        assert false;
      }
      if clst >= fs.g.nFatent {
        if !stretch {
          return NO_FILE;
        }
        ghost var w1 := fs.winsect;
        res, clst := Stretch(j);
        NearTrans(fs.g, old(chain), chain, old(fs.winsect), w1, fs.winsect);
        if res != OK {
          return;
        }
      }
      PlaceOf(k);
      clust := clst;
      sect := Clust2Sect(fs.g, clst);
      res := OK;
    }

    /** At a cluster boundary the sector is the first of its cluster. */
    lemma PlaceOf(k: nat)
      requires fs.g.csize > 0 && chain != [] && k < |Sects()| && OffsetIn(fs.g, k) == 0
      ensures ClusterOf(fs.g, k) < |chain| && Sects()[k] == Clust2Sect(fs.g, chain[ClusterOf(fs.g, k)])
    {
      SectorOfIndex(fs.g, chain, k);
    }

    lemma Unmoved()
      ensures Near(fs.g, chain, fs.winsect, fs.winsect)
      ensures OnlyTable(fs.g, fs.fat, fs.img, chain, fs.fat, fs.img, chain)
    {
      TableSame(fs.g, fs.fat, fs.img, chain, fs.img);
    }

    lemma OnFat(w0: nat)
      requires fs.WindowInFat()
      ensures Near(fs.g, chain, w0, fs.winsect)
    {
    }

    /** Links a new cluster behind the last one and clears it. */
    method Stretch(ghost j: nat) returns (res: DResult, clst: nat)
      requires Ok() && j + 1 == |chain| && clust == chain[j] && 16 * |Sects()| < LIMIT
      modifies this`chain, fs, fs.win, fs.disk
      ensures Ok() && Near(fs.g, chain, old(fs.winsect), fs.winsect)
      ensures OnlyTable(fs.g, old(fs.fat), old(fs.img), old(chain), fs.fat, fs.img, chain)
      ensures res == OK ==> chain == old(chain) + [clst] && Stretched(old(Slots()), Slots())
      ensures res == OK ==> |Sects()| > |old(Sects())| && Sects() == SectorsOf(fs.g, chain)
      ensures res != OK ==> Slots() == old(Slots()) && chain == old(chain) && fs.fat == old(fs.fat)
      ensures res == DENIED ==> A.NoneFree(fs.fat)
      ensures res == INT_ERR ==> A.HasOne(fs.fat)
      ensures res != NO_FILE
    {
      hide fs.Valid, SectorsOf, GeometryOk, Clusters, SlotsOf, A.NoneFree, A.HasOne, Stretched, Clust2Sect,
           SameOutsideFat, TableShown, A.CreateChain, OnlyTable, A.Grows;
      Facts();
      DynamicTable();
      fs.TableFits();
      A.ExtendOutcome(fs.Table(), chain, j);
      ghost var img0, t0 := fs.img, fs.Table();
      clst := fs.CreateChain(clust);
      if clst < 2 {
        SlotsKept(img0);
        TableSame(fs.g, fs.fat, img0, chain, fs.img);
        return if clst == 0 then DENIED else INT_ERR, clst;
      }
      ghost var imgA := fs.img;
      fs.ZeroCluster(clst);
      chain := chain + [clst];
      A.TakeGrows(t0, old(chain), clst);
      TableStretch(fs.g, t0.fat, img0, old(chain), clst, fs.fat, imgA, fs.img);
      Facts();
      StretchedSectors(fs.g, img0, imgA, old(chain), clst, fs.img);
      StretchedSlots(img0, fs.img, SectorsOf(fs.g, old(chain)), SectorsOf(fs.g, chain));
      DynamicTable();
      NewestSector();
      res := OK;
    }

    /** The first sector of the last cluster belongs to the table. */
    lemma NewestSector()
      requires chain != [] && fs.g.csize > 0
      ensures Clust2Sect(fs.g, chain[|chain| - 1]) in Sects()
    {
      SectorAt(fs.g, chain, |chain| - 1, 0);
    }

    /** A change of the FAT copies alone changes no slot. */
    lemma SlotsKept(img0: seq<Sector>)
      requires Ok() && SameOutsideFat(img0, fs.img, fs.g) && |img0| == |fs.img|
      ensures TableShown(img0, Sects()) && SlotsOf(img0, Sects()) == Slots()
    {
      Facts();
    }

    lemma NonEmpty()
      requires Ok()
      ensures |Slots()| > 0
    {
      Facts();
    }

    /** Brings the sector of the slot into the window. */
    method LoadSlot()
      requires Ok() && At(index)
      modifies fs`winsect, fs`wflag, fs.win, fs.disk
      ensures Ok() && Slots() == old(Slots()) && index < |Slots()|
      ensures fs.winsect == sect && fs.win.Length == 512 && FatEnd(fs.g) <= fs.winsect < |fs.img| && 0 < fs.winsect
      ensures dir + 32 <= 512 && fs.win[..][dir..dir + 32] == Slots()[index]
    {
      hide SectorsOf, ClusterOf, GeometryOk, Clusters, A.Chain, TableOk, Overlay;
      Facts();
      fs.MoveWindow(sect);
    }

    /** The window stands on the table. */
    lemma OnTable(w0: nat)
      requires At(index) && fs.winsect == sect
      ensures Near(fs.g, chain, w0, fs.winsect)
    {
    }

    /** dir_find: goes to the slot of the name. */
    method FindEntry() returns (res: DResult)
      requires Ok()
      modifies this`index, this`clust, this`sect, this`dir, this`chain, fs, fs.win, fs.disk
      ensures Ok() && Slots() == old(Slots()) && chain == old(chain) && fs.fat == old(fs.fat)
      ensures Near(fs.g, chain, old(fs.winsect), fs.winsect)
                && OnlyTable(fs.g, fs.fat, old(fs.img), chain, fs.fat, fs.img, chain)
      ensures res == if Find(Slots(), fn) >= 0 then OK else NO_FILE
      ensures res == OK ==> At(Find(Slots(), fn))
    {
      hide Ok, Slots, At, Stretched, A.NoneFree, A.HasOne, ClusterOf, SectorsOf, OnlyTable, Near, Sects, BadStart,
           BadRoot;
      NonEmpty();
      Unmoved();
      res := Sdi(0);
      while true
        invariant Ok() && Slots() == old(Slots()) && chain == old(chain) && At(index)
        invariant Find(Slots(), fn) == FindFrom(Slots(), fn, index) && index < |Slots()|
        invariant fs.fat == old(fs.fat) && OnlyTable(fs.g, fs.fat, old(fs.img), chain, fs.fat, fs.img, chain)
        decreases |Slots()| - index
      {
        LoadSlot();
        OnTable(old(fs.winsect));
        var s: Slot := fs.win[dir..dir + 32];
        if s[0] == 0 {
          return NO_FILE;
        }
        if BitAnd(s[11], AM_VOL) == 0 && s[..11] == fn {
          return OK;
        }
        ghost var img1, w1 := fs.img, fs.winsect;
        res := Next(false);
        Later(old(fs.fat), old(fs.img), chain, old(fs.winsect), fs.fat, img1, chain, w1);
        if res != OK {
          return;
        }
      }
    }

    /** Two steps of a call. */
    lemma Later(fat0: seq<nat>, img0: seq<Sector>, chain0: seq<nat>, w0: nat, fat1: seq<nat>, img1: seq<Sector>,
                chain1: seq<nat>, w1: nat)
      requires OnlyTable(fs.g, fat0, img0, chain0, fat1, img1, chain1)
      requires OnlyTable(fs.g, fat1, img1, chain1, fs.fat, fs.img, chain)
      requires Near(fs.g, chain1, w0, w1) && Near(fs.g, chain, w1, fs.winsect)
      ensures OnlyTable(fs.g, fat0, img0, chain0, fs.fat, fs.img, chain) && Near(fs.g, chain, w0, fs.winsect)
    {
      OnlyTableTrans(fs.g, fat0, img0, chain0, fat1, img1, chain1, fs.fat, fs.img, chain);
      NearTrans(fs.g, chain1, chain, w0, w1, fs.winsect);
    }

    /** Overwrites the first bytes of the slot in the window. */
    method PutSlot(data: seq<byte>)
      requires Ok() && At(index) && index < |Slots()| && |data| <= 32
      requires fs.winsect == sect && FatEnd(fs.g) <= fs.winsect && 0 < fs.winsect
      modifies fs`wflag, fs`img, fs.win
      ensures Ok() && OnlyTable(fs.g, fs.fat, old(fs.img), chain, fs.fat, fs.img, chain)
      ensures Slots() == old(Slots())[index := data + old(Slots())[index][|data|..]]
    {
      hide SectorsOf, ClusterOf, GeometryOk, Clusters, A.Chain, fs.Valid, OnlyTable;
      Facts();
      PutInSlots(fs.img, Sects(), index, data);
      TableWrite(fs.g, fs.fat, fs.img, chain, sect, Splice(fs.img[sect], dir, data));
      fs.SetWindow(dir, data);
      Facts();
    }

    /** The loop of dir_register: the first blank slot, in a new cluster if need be. */
    method FindBlank() returns (res: DResult)
      requires Ok()
      modifies this`index, this`clust, this`sect, this`dir, this`chain, fs, fs.win, fs.disk
      ensures Ok() && Near(fs.g, chain, old(fs.winsect), fs.winsect)
      ensures OnlyTable(fs.g, old(fs.fat), old(fs.img), old(chain), fs.fat, fs.img, chain)
      ensures res == OK ==> At(index) && index == BlankFrom(old(Slots()), 0) < |Slots()|
      ensures res == OK ==> if index < |old(Slots())| then Slots() == old(Slots()) && chain == old(chain)
                            else Stretched(old(Slots()), Slots())
      ensures res != OK ==>
                && Slots() == old(Slots()) && chain == old(chain) && fs.fat == old(fs.fat)
                && BlankFrom(Slots(), 0) == |Slots()|
      ensures res == NO_FILE ==> chain == [] || |Slots()| == LIMIT
      ensures res == DENIED ==> A.NoneFree(fs.fat)
      ensures res == INT_ERR ==> A.HasOne(fs.fat)
    {
      hide Ok, Slots, At, A.NoneFree, A.HasOne, ClusterOf, SectorsOf, OnlyTable, Near, Sects, BadStart, BadRoot;
      NonEmpty();
      Unmoved();
      ghost var t := Slots();
      res := Sdi(0);
      while true
        invariant Ok() && At(index) && index < |Slots()|
        invariant if index < |t| then Slots() == t && chain == old(chain) && fs.fat == old(fs.fat)
                    && BlankFrom(t, 0) == BlankFrom(t, index)
                  else index == |t| == BlankFrom(t, 0) && Stretched(t, Slots())
        invariant OnlyTable(fs.g, old(fs.fat), old(fs.img), old(chain), fs.fat, fs.img, chain)
        decreases |t| - index
      {
        LoadSlot();
        OnTable(old(fs.winsect));
        var c := fs.win[dir];
        assert c == fs.win[..][dir..dir + 32][0];
        if c == DELETED || c == 0 {
          return OK;
        }
        ghost var fat1, img1, chain1, w1 := fs.fat, fs.img, chain, fs.winsect;
        res := Next(true);
        Later(old(fs.fat), old(fs.img), old(chain), old(fs.winsect), fat1, img1, chain1, w1);
        if res != OK {
          return;
        }
      }
    }

    /** dir_register: the new entry in the first blank slot. */
    method RegisterEntry() returns (res: DResult)
      requires Ok()
      modifies this`index, this`clust, this`sect, this`dir, this`chain, fs, fs.win, fs.disk
      ensures Ok() && Near(fs.g, chain, old(fs.winsect), fs.winsect)
      ensures OnlyTable(fs.g, old(fs.fat), old(fs.img), old(chain), fs.fat, fs.img, chain)
      ensures res == OK ==> At(BlankFrom(old(Slots()), 0)) && index < |Slots()|
      ensures res == OK && index < |old(Slots())| ==>
                Slots() == old(Slots())[index := NewEntry(fn)] && chain == old(chain)
      ensures res == OK && index == |old(Slots())| ==>
                |Slots()| > index && Slots() == (old(Slots()) + ZeroSlots(|Slots()| - index))[index := NewEntry(fn)]
      ensures res != OK ==>
                && Slots() == old(Slots()) && chain == old(chain) && fs.fat == old(fs.fat)
                && BlankFrom(Slots(), 0) == |Slots()|
      ensures res == NO_FILE ==> chain == [] || |Slots()| == LIMIT
      ensures res == DENIED ==> A.NoneFree(fs.fat)
      ensures res == INT_ERR ==> A.HasOne(fs.fat)
    {
      hide Ok, Slots, A.NoneFree, A.HasOne, ClusterOf, SectorsOf, OnlyTable, Near, Sects;
      res := FindBlank();
      if res == OK {
        LoadSlot();
        OnTable(old(fs.winsect));
        SlotParts(Slots()[index], NewEntry(fn));
        ghost var img1, w1 := fs.img, fs.winsect;
        PutSlot(NewEntry(fn));
        Later(old(fs.fat), old(fs.img), old(chain), old(fs.winsect), fs.fat, img1, chain, w1);
      }
    }

    /** dir_remove: marks the slot deleted. */
    method RemoveEntry() returns (res: DResult)
      requires Ok() && At(index) && index < |Slots()|
      modifies this`index, this`clust, this`sect, this`dir, fs`winsect, fs`wflag, fs`img, fs.win, fs.disk
      ensures Ok() && res == OK && chain == old(chain) && At(old(index))
                && Near(fs.g, chain, old(fs.winsect), fs.winsect)
      ensures OnlyTable(fs.g, fs.fat, old(fs.img), chain, fs.fat, fs.img, chain)
      ensures Slots() == old(Slots())[index := Deleted(old(Slots())[index])]
    {
      hide Ok, Slots, ClusterOf, SectorsOf, OnlyTable, Near;
      res := Sdi(index);
      LoadSlot();
      SlotParts(Slots()[index], Slots()[index]);
      PutSlot([DELETED]);
      OnTable(old(fs.winsect));
    }

    /**
     The directory part of creating an entry (f_open, f_mkdir): the name is looked up and,
     if absent, registered; room is what the table grew by. Every other name keeps its slot, and
     nothing changes outside the table and what it grew by. An internal error changes nothing
     and means that the table of the volume held an entry 1 before.
     */
    method Create() returns (res: DResult, ghost room: nat)
      requires Ok() && DirOk(Slots())
      modifies this`index, this`clust, this`sect, this`dir, this`chain, fs, fs.win, fs.disk
      ensures Ok() && Near(fs.g, chain, old(fs.winsect), fs.winsect)
      ensures OnlyTable(fs.g, old(fs.fat), old(fs.img), old(chain), fs.fat, fs.img, chain)
      ensures DirOk(Slots()) && Slots() == Apply(old(Slots()), Register(fn, room))
      ensures res == OK <==> fn in Listing(old(Slots())) || !Full(old(Slots()), Register(fn, room))
      ensures Listing(Slots()) == (if res == OK && fn !in Listing(old(Slots()))
                                   then Listing(old(Slots()))[fn := BlankFrom(old(Slots()), 0)]
                                   else Listing(old(Slots())))
      ensures res != OK ==> chain == old(chain) && fs.fat == old(fs.fat)
      ensures res == INT_ERR ==> A.HasOne(fs.fat)
      ensures res == DENIED ==> A.NoneFree(fs.fat)
      ensures res == NO_FILE ==> chain == [] || |Slots()| == LIMIT
    {
      hide Ok, Slots, DirOk, FindFrom, Listing, A.NoneFree, A.HasOne, ClusterOf, SectorsOf, OnlyTable, Near, Sects;
      room := 0;
      res := FindEntry();
      ListingFinds(Slots(), fn);
      if res == NO_FILE {
        ghost var t, img1, w1 := Slots(), fs.img, fs.winsect;
        res := RegisterEntry();
        Later(old(fs.fat), old(fs.img), old(chain), old(fs.winsect), old(fs.fat), img1, old(chain), w1);
        room := |Slots()| - |t|;
        if res != OK {
          NothingRegistered(t, fn);
        } else {
          Registered(t, Slots(), fn, room);
        }
      }
      ApplyIsMap(old(Slots()), Register(fn, room));
    }

    /** The directory part of f_unlink: the name is looked up and its slot marked deleted. */
    method Unlink() returns (res: DResult)
      requires Ok() && DirOk(Slots())
      modifies this`index, this`clust, this`sect, this`dir, this`chain, fs, fs.win, fs.disk
      ensures Ok() && DirOk(Slots()) && chain == old(chain) && Slots() == Apply(old(Slots()), Remove(fn))
      ensures Near(fs.g, chain, old(fs.winsect), fs.winsect) && fs.fat == old(fs.fat)
      ensures OnlyTable(fs.g, fs.fat, old(fs.img), chain, fs.fat, fs.img, chain)
      ensures res == if fn in Listing(old(Slots())) then OK else NO_FILE
      ensures Listing(Slots()) == Listing(old(Slots())) - {fn}
    {
      hide Ok, DirOk, FindFrom, Listing, ClusterOf, SectorsOf, OnlyTable, Near, Sects;
      res := FindEntry();
      ListingFinds(Slots(), fn);
      ApplyIsMap(Slots(), Remove(fn));
      if res == OK {
        FindIsFirst(Slots(), fn, 0);
        ghost var img1, w1 := fs.img, fs.winsect;
        res := RemoveEntry();
        Later(fs.fat, old(fs.img), chain, old(fs.winsect), fs.fat, img1, chain, w1);
      }
    }
  }

  /** One step from slot i is the same place as a seek to slot i + 1. */
  method StepIsSeek(d: DIR, e: DIR, i: nat) returns (r: DResult, s: DResult)
    requires d.Ok() && e.Ok() && d != e && d.fs == e.fs && d.chain == e.chain && i + 1 < LIMIT
    requires i < |d.Slots()|
    modifies d, e, d.fs, d.fs.win, d.fs.disk
    ensures r == if i + 1 < |old(d.Slots())| then OK else NO_FILE
    ensures s == if r == OK then OK else INT_ERR
    ensures r == OK ==> d.index == e.index == i + 1 && d.clust == e.clust && d.sect == e.sect && d.dir == e.dir
  {
    hide FATFS.Valid, ClusterOf, SectorsOf, SlotsOf, GeometryOk, A.Chain;
    ghost var n := |d.Slots()|;
    r := d.Sdi(i);
    r := d.Next(false);
    s := e.Sdi(i + 1);
  }

  // ---------------------------------------------------------------- runs on the disk

  datatype DirCall = MakeEntry(fn: Name) | DropEntry(fn: Name)

  /** The operation on the table that a call comes to, with the room the table grew by. */
  predicate ComesTo(c: DirCall, op: DirOp) {
    match c
    case MakeEntry(fn) => op.Register? && op.fn == fn
    case DropEntry(fn) => op == Remove(fn)
  }

  lemma SameTable(d: DIR, e: DIR)
    requires d.Ok() && d.fs == e.fs && d.chain == e.chain && d.sclust == e.sclust
    ensures e.Ok() && e.Slots() == d.Slots()
  {
  }

  /** A directory on a volume of these cluster lists, of which number i is its own. */
  ghost predicate OnVolume(d: DIR, lists: seq<seq<nat>>, i: nat)
    reads d`chain, d`sclust, d.fs, d.fs.win, d.fs.disk
  {
    d.Ok() && i < |lists| && A.Partition(d.fs.fat, lists[i := d.chain])
  }

  /** A directory call keeps the volume, and meets no entry 1 there. */
  lemma VolumeKept(g: Geometry, lists: seq<seq<nat>>, i: nat, fat0: seq<nat>, img0: seq<Sector>, chain0: seq<nat>,
                   fat1: seq<nat>, img1: seq<Sector>, chain1: seq<nat>)
    requires i < |lists| && A.Partition(fat0, lists[i := chain0])
    requires OnlyTable(g, fat0, img0, chain0, fat1, img1, chain1) && (chain1 == [] || A.Chain(fat1, chain1))
    ensures A.Partition(fat1, lists[i := chain1]) && !A.HasOne(fat1)
  {
    hide A.Partition, A.Chain, A.Grows, A.HasOne;
    A.GrowthKeeps(fat0, lists[i := chain0], i, fat1, chain1);
    A.NoOnes(fat0, lists[i := chain0], chain0, fat1, chain1);
    assert lists[i := chain0][i := chain1] == lists[i := chain1];
  }

  lemma ChainOfTable(d: DIR)
    requires d.Ok()
    ensures d.chain == [] || A.Chain(d.fs.fat, d.chain)
    ensures |d.Slots()| <= LIMIT
  {
  }

  /** The table t becomes t', and the call answers OK unless the table is full or the name to remove is absent. */
  ghost predicate Answers(c: DirCall, op: DirOp, res: DResult, t: seq<Slot>, t': seq<Slot>) {
    && ComesTo(c, op) && DirOk(t) && DirOk(t') && t' == Apply(t, op)
    && match c
       case MakeEntry(fn) => if fn in Listing(t) || !Full(t, op) then res == OK else res == NO_FILE || res == DENIED
       case DropEntry(fn) => res == if fn in Listing(t) then OK else NO_FILE
  }

  /** One call, with a directory object of its own. On a volume without cross links and leaks it is answered. */
  method Call(d: DIR, c: DirCall, ghost lists: seq<seq<nat>>, ghost i: nat)
    returns (e: DIR, res: DResult, ghost op: DirOp)
    requires OnVolume(d, lists, i) && DirOk(d.Slots())
    modifies d.fs, d.fs.win, d.fs.disk
    ensures fresh(e) && e.fs == d.fs && e.sclust == d.sclust && e.Ok() && OnVolume(e, lists, i)
    ensures Answers(c, op, res, old(d.Slots()), e.Slots())
    ensures res == DENIED ==> A.NoneFree(e.fs.fat)
    ensures res == NO_FILE && c.MakeEntry? ==> e.chain == [] || |e.Slots()| == LIMIT
    ensures Near(e.fs.g, e.chain, old(d.fs.winsect), e.fs.winsect)
    ensures OnlyTable(e.fs.g, old(d.fs.fat), old(d.fs.img), old(d.chain), e.fs.fat, e.fs.img, e.chain)
  {
    hide DIR.Ok, DIR.Slots, DirOk, Listing, A.HasOne, A.NoneFree, Apply, FATFS.Valid, A.Chain, A.Partition, OnlyTable,
         Near, Full;
    ghost var fat0, img0, chain0 := d.fs.fat, d.fs.img, d.chain;
    e := Opened(d, c);
    match c {
      case MakeEntry(fn) =>
        ghost var room;
        res, room := e.Create();
        op := Register(fn, room);
      case DropEntry(fn) =>
        res := e.Unlink();
        op := Remove(fn);
    }
    ChainOfTable(e);
    VolumeKept(e.fs.g, lists, i, fat0, img0, chain0, e.fs.fat, e.fs.img, e.chain);
  }

  /** A new directory object for the same table. */
  method Opened(d: DIR, c: DirCall) returns (e: DIR)
    requires d.Ok()
    ensures fresh(e) && e.fs == d.fs && e.sclust == d.sclust && e.chain == d.chain && e.fn == c.fn
    ensures e.Ok() && e.Slots() == d.Slots()
  {
    hide FATFS.Valid, A.Chain;
    e := new DIR(d.fs, c.fn, d.sclust, d.chain);
    SameTable(d, e);
  }

  /** Every reply is the answer of the table as the operations before it left it. */
  ghost predicate Explained(t: seq<Slot>, calls: seq<DirCall>, ops: seq<DirOp>, replies: seq<DResult>) {
    && |ops| == |replies| <= |calls|
    && forall k | 0 <= k < |ops| ::
         Answers(calls[k], ops[k], replies[k], DirTable.Run(t, ops[..k]), DirTable.Run(t, ops[..k + 1]))
  }

  lemma AfterCall(c: DirCall, op: DirOp, res: DResult, t: seq<Slot>, t': seq<Slot>)
    requires Answers(c, op, res, t, t')
    ensures DirOk(t') && t' == Apply(t, op)
  {
  }

  lemma NothingToExplain(t: seq<Slot>, calls: seq<DirCall>)
    ensures Explained(t, calls, [], [])
  {
  }

  lemma OneMore(t: seq<Slot>, calls: seq<DirCall>, ops: seq<DirOp>, replies: seq<DResult>, op: DirOp, res: DResult)
    requires Explained(t, calls, ops, replies) && |replies| < |calls|
    requires Answers(calls[|replies|], op, res, DirTable.Run(t, ops), DirTable.Run(t, ops + [op]))
    ensures Explained(t, calls, ops + [op], replies + [res])
  {
    hide Answers;
    var ops1 := ops + [op];
    forall k | 0 <= k < |ops1|
      ensures Answers(calls[k], ops1[k], (replies + [res])[k], DirTable.Run(t, ops1[..k]),
                DirTable.Run(t, ops1[..k + 1]))
    {
      assert ops1[..k] == ops[..k];
      assert ops1[..k + 1] == if k < |ops| then ops[..k + 1] else ops1;
      assert ops[..|ops|] == ops;
    }
  }

  /**
   Any run of creations and removals in a directory of a volume without cross links and leaks: every
   call is answered, the slots are those the operations give, the directory is the map of the names
   that were created and not removed since, each at the slot it got, and the volume stays what it was
   but for the clusters the directory grew by.
   */
  method Run(d0: DIR, calls: seq<DirCall>, ghost lists: seq<seq<nat>>, ghost i: nat)
    returns (d: DIR, ghost ops: seq<DirOp>, replies: seq<DResult>)
    requires OnVolume(d0, lists, i) && DirOk(d0.Slots())
    modifies d0.fs, d0.fs.win, d0.fs.disk
    ensures |replies| == |calls| && Explained(old(d0.Slots()), calls, ops, replies)
    ensures d.fs == d0.fs && d.sclust == d0.sclust && OnVolume(d, lists, i)
    ensures DirOk(d.Slots()) && d.Slots() == DirTable.Run(old(d0.Slots()), ops)
    ensures Listing(d.Slots()) == RunMap(old(d0.Slots()), Listing(old(d0.Slots())), ops)
    ensures OnlyTable(d.fs.g, old(d0.fs.fat), old(d0.fs.img), old(d0.chain), d.fs.fat, d.fs.img, d.chain)
    ensures Near(d.fs.g, d.chain, old(d0.fs.winsect), d.fs.winsect)
  {
    hide DIR.Ok, DIR.Slots, DirOk, Listing, A.HasOne, A.NoneFree, Apply, A.Partition, OnlyTable, Near, Full, Answers,
         Explained;
    ghost var t := d0.Slots();
    ops, replies := [], [];
    d := d0;
    ChainOfTable(d0);
    d0.Unmoved();
    NothingToExplain(t, calls);
    while |replies| < |calls|
      invariant (d == d0 || fresh(d)) && d.fs == d0.fs && d.sclust == d0.sclust && OnVolume(d, lists, i)
                  && DirOk(d.Slots())
      invariant |ops| == |replies| <= |calls| && Explained(t, calls, ops, replies)
      invariant d.Slots() == DirTable.Run(t, ops)
      invariant OnlyTable(d.fs.g, old(d0.fs.fat), old(d0.fs.img), old(d0.chain), d.fs.fat, d.fs.img, d.chain)
      invariant Near(d.fs.g, d.chain, old(d0.fs.winsect), d.fs.winsect)
      decreases |calls| - |replies|
    {
      var c := calls[|replies|];
      var res;
      ghost var op;
      ghost var fat1, img1, chain1, w1 := d.fs.fat, d.fs.img, d.chain, d.fs.winsect;
      d, res, op := Call(d, c, lists, i);
      d.Later(old(d0.fs.fat), old(d0.fs.img), old(d0.chain), old(d0.fs.winsect), fat1, img1, chain1, w1);
      AfterCall(c, op, res, DirTable.Run(t, ops), d.Slots());
      RunSnoc(t, ops, op);
      OneMore(t, calls, ops, replies, op, res);
      ops, replies := ops + [op], replies + [res];
    }
    RunIsMap(t, ops);
  }
}
