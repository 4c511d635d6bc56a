/**
 Several open files and directories on one volume: any interleaving of calls on them is
 answered as by so many byte sequences and tables, each on its own.
 */
module World {
  import opened Bits
  import opened BlockDevice
  import opened Volume
  import opened Layout
  import opened FileBytes
  import opened File
  import opened DirTable
  import D = Directory
  import S = Session
  import A = Allocator

  // ---------------------------------------------------------------- what the objects show

  /** An open file as its access mode, a byte sequence and a position. */
  datatype Shown = Shown(mode: S.Mode, content: seq<byte>, pos: nat)

  /** Everything the files and directories show, and whether the volume has no free cluster. */
  datatype Shot = Shot(files: seq<Shown>, tables: seq<seq<Slot>>, full: bool)

  datatype Call = OnFile(i: nat, q: S.Request) | OnTable(i: nat, c: D.DirCall)

  datatype Answer = FromFile(reply: S.Reply) | FromTable(res: D.DResult)

  function PlainOf(s: Shot, i: nat): S.Plain
    requires i < |s.files|
  {
    S.Plain(s.files[i].content, s.files[i].pos, s.full)
  }

  /** A call answers as the one byte sequence or table would that it is about, and every other stays. */
  ghost predicate Answers(s: Shot, c: Call, a: Answer, s': Shot) {
    && |s'.files| == |s.files| && |s'.tables| == |s.tables|
    && match c
       case OnFile(i, q) =>
         && i < |s.files| && a.FromFile? && S.Answers(s.files[i].mode, PlainOf(s, i), q, a.reply, PlainOf(s', i))
         && s'.files[i].mode == s.files[i].mode
         && s'.tables == s.tables && forall k | 0 <= k < |s.files| && k != i :: s'.files[k] == s.files[k]
       case OnTable(i, d) =>
         && i < |s.tables| && a.FromTable? && (exists op :: D.Answers(d, op, a.res, s.tables[i], s'.tables[i]))
         && s'.files == s.files && (s.full ==> s'.full) && (a.res == D.DENIED ==> s'.full)
         && forall k | 0 <= k < |s.tables| && k != i :: s'.tables[k] == s.tables[k]
  }

  // ---------------------------------------------------------------- sectors of different owners

  /** The sectors of a file or of a directory with these clusters. */
  function OwnSectors(g: Geometry, list: seq<nat>, table: bool): seq<nat> {
    if table then D.TableSectors(g, list) else SectorsOf(g, list)
  }

  ghost predicate Away(a: seq<nat>, b: seq<nat>) {
    forall s | s in a :: s !in b
  }

  lemma RootSectors(g: Geometry, s: nat)
    requires D.RootOk(g) && !g.fsType.FAT32? && s in D.TableSectors(g, [])
    ensures FatEnd(g) <= s < g.database
  {
  }

  /** Files and directories without a common cluster have no common sector, the static root included. */
  lemma OwnersApart(g: Geometry, total: nat, a: seq<nat>, ta: bool, b: seq<nat>, tb: bool)
    requires GeometryOk(g, total) && Clusters(g, a) && Clusters(g, b) && A.Disjoint(a, b)
    requires (ta && a == []) || (tb && b == []) ==> D.RootOk(g) && !g.fsType.FAT32?
    requires !(ta && a == [] && tb && b == [])
    ensures Away(OwnSectors(g, a, ta), OwnSectors(g, b, tb))
  {
    hide GeometryOk, Clusters, SectorsOf, D.TableSectors, D.RootOk;
    if ta && a == [] {
      assert b != [] || !tb;
      ApartFromRoot(g, total, b, tb);
    } else if tb && b == [] {
      ApartFromRoot(g, total, a, ta);
    } else {
      SectorsDisjoint(g, total, a, b);
      ChainTable(g, a, ta);
      ChainTable(g, b, tb);
    }
  }

  lemma ChainTable(g: Geometry, a: seq<nat>, ta: bool)
    requires !(ta && a == [])
    ensures OwnSectors(g, a, ta) == SectorsOf(g, a)
  {
  }

  lemma ApartFromRoot(g: Geometry, total: nat, b: seq<nat>, tb: bool)
    requires GeometryOk(g, total) && Clusters(g, b) && D.RootOk(g) && !g.fsType.FAT32? && !(tb && b == [])
    ensures Away(D.TableSectors(g, []), OwnSectors(g, b, tb)) && Away(OwnSectors(g, b, tb), D.TableSectors(g, []))
  {
    ChainTable(g, b, tb);
    hide GeometryOk, Clusters, SectorsOf, D.TableSectors, D.RootOk, OwnSectors;
    forall s | s in D.TableSectors(g, []) ensures s < g.database { RootSectors(g, s); }
    forall s | s in SectorsOf(g, b) ensures g.database <= s { SectorOwned(g, total, b, s); }
  }

  // ---------------------------------------------------------------- beside a call

  /** A file of which a call changed neither entries nor sectors. */
  lemma FileBeside(h: FIL, fat0: seq<nat>, img0: seq<Sector>, w0: nat, list0: seq<nat>, list1: seq<nat>,
                   sects: seq<nat>)
    requires h.OkOn(fat0, img0, w0) && h.Limits() && h.Cursor() && h.fptr <= h.fsize < TWO_TO_32 && h.OwnsBuffer()
    requires GeometryOk(h.fs.g, |img0|) && |fat0| == h.fs.g.nFatent && Clusters(h.fs.g, h.chain)
    requires h.fs.Valid() && (h.fs.winsect == w0 || h.fs.WindowInFat() || h.fs.winsect in sects)
    requires Changes(h.fs.g, fat0, img0, list0, h.fs.fat, h.fs.img, list1, sects)
    requires A.Disjoint(list0, h.chain) && A.Disjoint(list1, h.chain) && Away(sects, h.Sects())
    ensures h.Valid() && h.Content() == h.ContentOn(fat0, img0, w0)
  {
    hide FATFS.Valid, Bytes, FIL.Cursor, FIL.Held, FIL.Content, FIL.Valid, FIL.Intact, SectorsOf, GeometryOk, Clusters;
    if h.chain != [] {
      ChainStays(fat0, list0, h.fs.fat, list1, h.chain);
    }
    forall k | 0 <= k < |h.Sects()|
      ensures h.fs.g.database <= h.Sects()[k] < |img0| && h.fs.img[h.Sects()[k]] == img0[h.Sects()[k]]
    {
      SectorOwned(h.fs.g, |img0|, h.chain, h.Sects()[k]);
      GeometryFacts(h.fs.g, |img0|);
    }
    h.StaysIntact(fat0, img0, w0);
  }

  lemma ChainStays(fat0: seq<nat>, list0: seq<nat>, fat1: seq<nat>, list1: seq<nat>, other: seq<nat>)
    requires A.Replaces(fat0, list0, fat1, list1) && A.Chain(fat0, other)
    requires A.Disjoint(list0, other) && A.Disjoint(list1, other)
    ensures A.Chain(fat1, other)
  {
    forall c | c in other ensures c < |fat0| && fat1[c] == fat0[c] {
      A.EntryOfChain(fat0, other, c);
      assert c !in list0 && c !in list1;
    }
    A.ChainFrame(fat0, fat1, other);
  }

  /** A directory on a volume with this table and image. */
  ghost predicate TableOn(d: D.DIR, fat: seq<nat>, img: seq<Sector>)
    reads d`chain, d`sclust
  {
    && D.RootOk(d.fs.g) && GeometryOk(d.fs.g, |img|) && |fat| == d.fs.g.nFatent && Clusters(d.fs.g, d.chain)
    && D.TableShown(img, d.Sects()) && (forall s | s in d.Sects() :: FatEnd(d.fs.g) <= s < |img|)
    && if d.chain == [] then d.sclust == 0 && !d.fs.g.fsType.FAT32?
       else A.Chain(fat, d.chain) && d.chain[0] == if d.sclust == 0 && d.fs.g.fsType.FAT32? then d.fs.g.dirbase
         else d.sclust
  }

  ghost function SlotsOn(d: D.DIR, fat: seq<nat>, img: seq<Sector>): seq<Slot>
    requires TableOn(d, fat, img)
    reads d`chain, d`sclust
  {
    D.SlotsOf(img, d.Sects())
  }

  lemma OnThisVolume(d: D.DIR)
    requires d.Ok()
    ensures TableOn(d, d.fs.fat, d.fs.img) && d.Slots() == SlotsOn(d, d.fs.fat, d.fs.img)
  {
    d.Facts();
  }

  /** A directory of which a call changed neither entries nor sectors. */
  lemma TableBeside(d: D.DIR, fat0: seq<nat>, img0: seq<Sector>, list0: seq<nat>, list1: seq<nat>, sects: seq<nat>)
    requires TableOn(d, fat0, img0) && d.fs.Valid()
    requires Changes(d.fs.g, fat0, img0, list0, d.fs.fat, d.fs.img, list1, sects)
    requires A.Disjoint(list0, d.chain) && A.Disjoint(list1, d.chain) && Away(sects, d.Sects())
    ensures d.Ok() && d.Slots() == SlotsOn(d, fat0, img0)
  {
    hide FATFS.Valid, SectorsOf, D.TableSectors, GeometryOk, Clusters;
    if d.chain != [] {
      ChainStays(fat0, list0, d.fs.fat, list1, d.chain);
    }
    d.Facts();
    SameSlots(img0, d.fs.img, d.Sects());
  }

  lemma SameSlots(img0: seq<Sector>, img1: seq<Sector>, sects: seq<nat>)
    requires D.TableShown(img0, sects) && D.TableShown(img1, sects)
    requires forall s | s in sects :: s < |img0| && s < |img1| && img1[s] == img0[s]
    ensures D.SlotsOf(img1, sects) == D.SlotsOf(img0, sects)
  {
  }

  // ---------------------------------------------------------------- all objects of a volume

  /** An open file that can be used, with a buffer of its own. */
  ghost predicate FileFits(fs: FATFS, f: FIL)
    reads f, f.buf, fs, fs.win, fs.disk
  {
    f.fs == fs && f.Valid() && !f.error && f.OwnsBuffer()
  }

  ghost predicate TableFits(fs: FATFS, d: D.DIR)
    reads d, fs, fs.win, fs.disk
  {
    d.fs == fs && d.Ok() && DirOk(d.Slots())
  }

  ghost predicate FileShows(f: FIL, sh: Shown)
    reads f, f.buf, f.fs, f.fs.win, f.fs.disk
  {
    f.Valid() && sh == Shown(S.ModeOf(f), f.Content(), f.fptr)
  }

  /** A file before a call on another object, in values. */
  ghost predicate FileWas(f: FIL, fat: seq<nat>, img: seq<Sector>, w: nat, sh: Shown)
    reads f, f.buf
  {
    && f.OkOn(fat, img, w) && f.Limits() && f.Cursor() && f.fptr <= f.fsize < TWO_TO_32 && f.OwnsBuffer() && !f.error
    && Clusters(f.fs.g, f.chain) && sh == Shown(S.ModeOf(f), f.ContentOn(fat, img, w), f.fptr)
  }

  ghost predicate TableWas(d: D.DIR, fat: seq<nat>, img: seq<Sector>, t: seq<Slot>)
    reads d
  {
    TableOn(d, fat, img) && t == SlotsOn(d, fat, img) && DirOk(t)
  }

  /**
   A call turned list i of a volume into list1, touched the sectors of that owner at most, and left
   the window where it was, on the FAT or on these sectors.
   */
  ghost predicate Called(fs: FATFS, fat0: seq<nat>, img0: seq<Sector>, w0: nat,
                         lists: seq<seq<nat>>, i: nat, list1: seq<nat>, table: bool)
    reads fs, fs.win, fs.disk
  {
    && i < |lists| && A.Partition(fat0, lists) && A.Partition(fs.fat, lists[i := list1])
    && fs.Valid() && GeometryOk(fs.g, |img0|) && |fat0| == fs.g.nFatent
    && Changes(fs.g, fat0, img0, lists[i], fs.fat, fs.img, list1, OwnSectors(fs.g, list1, table))
    && (fs.winsect == w0 || fs.WindowInFat() || fs.winsect in OwnSectors(fs.g, list1, table))
    && (table && list1 == [] ==> D.RootOk(fs.g) && !fs.g.fsType.FAT32?)
  }

  lemma ListsApart(fat: seq<nat>, lists: seq<seq<nat>>, i: nat, k: nat)
    requires A.Partition(fat, lists) && i < |lists| && k < |lists| && i != k
    ensures A.Disjoint(lists[i], lists[k])
    ensures lists[i] == [] || A.Chain(fat, lists[i])
  {
    if k < i {
      assert A.Disjoint(lists[k], lists[i]);
    }
  }

  lemma ChainClusters(g: Geometry, fat: seq<nat>, list: seq<nat>)
    requires (list == [] || A.Chain(fat, list)) && |fat| == g.nFatent
    ensures Clusters(g, list)
  {
  }

  /** Every other file stays. */
  lemma FileStays(fs: FATFS, fat0: seq<nat>, img0: seq<Sector>, w0: nat, lists: seq<seq<nat>>, i: nat,
                  list1: seq<nat>, table: bool, k: nat, f: FIL, sh: Shown)
    requires Called(fs, fat0, img0, w0, lists, i, list1, table) && k < |lists| && k != i
    requires f.fs == fs && lists[k] == f.chain && FileWas(f, fat0, img0, w0, sh)
    ensures FileFits(fs, f) && FileShows(f, sh)
  {
    hide FATFS.Valid, GeometryOk, A.Partition, Changes, OwnSectors, FIL.Valid, FIL.Content, FIL.OkOn, FIL.ContentOn,
         FIL.Cursor, FIL.Limits, FIL.Sects, D.RootOk;
    ListsApart(fat0, lists, i, k);
    ListsApart(fs.fat, lists[i := list1], i, k);
    Sizes(fs.g, fat0, img0, lists[i], fs.fat, fs.img, list1, OwnSectors(fs.g, list1, table));
    ChainClusters(fs.g, fs.fat, list1);
    OwnersApart(fs.g, |img0|, list1, table, f.chain, false);
    FileSectors(f);
    FileBeside(f, fat0, img0, w0, lists[i], list1, OwnSectors(fs.g, list1, table));
  }

  lemma FileSectors(f: FIL)
    ensures f.Sects() == OwnSectors(f.fs.g, f.chain, false)
  {
  }

  lemma Sizes(g: Geometry, fat0: seq<nat>, img0: seq<Sector>, list0: seq<nat>,
              fat1: seq<nat>, img1: seq<Sector>, list1: seq<nat>, sects: seq<nat>)
    requires Changes(g, fat0, img0, list0, fat1, img1, list1, sects)
    ensures |fat1| == |fat0| && |img1| == |img0|
  {
  }

  /** Every other directory stays. */
  lemma TableStays(fs: FATFS, fat0: seq<nat>, img0: seq<Sector>, w0: nat, lists: seq<seq<nat>>, i: nat,
                   list1: seq<nat>, table: bool, k: nat, d: D.DIR, t: seq<Slot>)
    requires Called(fs, fat0, img0, w0, lists, i, list1, table) && k < |lists| && k != i
    requires d.fs == fs && lists[k] == d.chain && TableWas(d, fat0, img0, t) && !(table && list1 == [] && d.chain == [])
    ensures TableFits(fs, d) && d.Slots() == t
  {
    hide FATFS.Valid, GeometryOk, A.Partition, Changes, OwnSectors, D.DIR.Ok, D.DIR.Slots, SlotsOn, DirOk, D.RootOk,
         D.SlotsOf;
    ListsApart(fat0, lists, i, k);
    ListsApart(fs.fat, lists[i := list1], i, k);
    Sizes(fs.g, fat0, img0, lists[i], fs.fat, fs.img, list1, OwnSectors(fs.g, list1, table));
    ChainClusters(fs.g, fs.fat, list1);
    OwnersApart(fs.g, |img0|, list1, table, d.chain, true);
    TableSects(d);
    TableBeside(d, fat0, img0, lists[i], list1, OwnSectors(fs.g, list1, table));
  }

  lemma TableSects(d: D.DIR)
    ensures d.Sects() == OwnSectors(d.fs.g, d.chain, true)
  {
  }

  /** What is remembered of a file before a call on another object. */
  lemma FileBefore(f: FIL, sh: Shown)
    requires FileFits(f.fs, f) && FileShows(f, sh)
    ensures f.buf != f.fs.win && FileWas(f, f.fs.fat, f.fs.img, f.fs.winsect, sh)
  {
    hide FATFS.Valid;
    f.OnVolume();
  }

  lemma TableBefore(d: D.DIR, t: seq<Slot>)
    requires TableFits(d.fs, d) && d.Slots() == t
    ensures TableWas(d, d.fs.fat, d.fs.img, t)
  {
    hide FATFS.Valid, D.DIR.Slots, D.DIR.Ok;
    OnThisVolume(d);
  }

  /** Different objects with buffers of their own, and one root directory at most. */
  ghost predicate Separate(files: seq<FIL>, dirs: seq<D.DIR>)
    reads dirs
  {
    && (forall k, l | 0 <= k < l < |files| :: files[k] != files[l] && files[k].buf != files[l].buf)
    && (forall k, l | 0 <= k < l < |dirs| :: dirs[k].chain != [] || dirs[l].chain != [])
  }

  /** The files and directories of a volume, each with its list of clusters; further lists may follow. */
  ghost predicate Ok(fs: FATFS, files: seq<FIL>, dirs: seq<D.DIR>, lists: seq<seq<nat>>)
    reads fs, fs.win, fs.disk, files, dirs, set f | f in files :: f.buf
  {
    && |files| + |dirs| <= |lists| && A.Partition(fs.fat, lists) && Separate(files, dirs)
    && (forall k | 0 <= k < |files| :: FileFits(fs, files[k]) && lists[k] == files[k].chain)
    && (forall k | 0 <= k < |dirs| :: TableFits(fs, dirs[k]) && lists[|files| + k] == dirs[k].chain)
  }

  ghost predicate Shows(fs: FATFS, files: seq<FIL>, dirs: seq<D.DIR>, s: Shot)
    reads fs, fs.win, fs.disk, files, dirs, set f | f in files :: f.buf
  {
    && |s.files| == |files| && |s.tables| == |dirs| && (s.full <==> A.NoneFree(fs.fat))
    && (forall k | 0 <= k < |files| :: files[k].fs == fs && FileShows(files[k], s.files[k]))
    && (forall k | 0 <= k < |dirs| :: dirs[k].fs == fs && dirs[k].Ok() && s.tables[k] == dirs[k].Slots())
  }

  /** Every object but the one with list number i, before a call on that. */
  ghost predicate Were(fs: FATFS, files: seq<FIL>, dirs: seq<D.DIR>, lists: seq<seq<nat>>, i: nat,
                       fat0: seq<nat>, img0: seq<Sector>, w0: nat, s: Shot)
    reads files, dirs, set f | f in files :: f.buf
  {
    && |s.files| == |files| && |s.tables| == |dirs| && |files| + |dirs| <= |lists|
    && (forall k | 0 <= k < |files| && k != i ::
          files[k].fs == fs && files[k].buf != fs.win && lists[k] == files[k].chain
            && FileWas(files[k], fat0, img0, w0, s.files[k]))
    && (forall k | 0 <= k < |dirs| && |files| + k != i ::
          dirs[k].fs == fs && lists[|files| + k] == dirs[k].chain && TableWas(dirs[k], fat0, img0, s.tables[k]))
  }

  lemma Before(fs: FATFS, files: seq<FIL>, dirs: seq<D.DIR>, lists: seq<seq<nat>>, i: nat, s: Shot)
    requires Ok(fs, files, dirs, lists) && Shows(fs, files, dirs, s)
    ensures Were(fs, files, dirs, lists, i, fs.fat, fs.img, fs.winsect, s)
  {
    hide FileFits, TableFits, FileShows, FileWas, TableWas, A.Partition, D.DIR.Slots, D.DIR.Ok;
    forall k | 0 <= k < |files| ensures files[k].fs == fs && files[k].buf != fs.win
             && FileWas(files[k], fs.fat, fs.img, fs.winsect, s.files[k]) {
      FileBefore(files[k], s.files[k]);
    }
    forall k | 0 <= k < |dirs| ensures dirs[k].fs == fs && TableWas(dirs[k], fs.fat, fs.img, s.tables[k]) {
      TableBefore(dirs[k], s.tables[k]);
    }
  }

  /** All other objects after the call. */
  lemma OthersStay(fs: FATFS, files: seq<FIL>, dirs: seq<D.DIR>, lists: seq<seq<nat>>, i: nat, list1: seq<nat>,
                   table: bool,
                   fat0: seq<nat>, img0: seq<Sector>, w0: nat, s: Shot)
    requires Called(fs, fat0, img0, w0, lists, i, list1, table)
    requires Were(fs, files, dirs, lists, i, fat0, img0, w0, s)
    requires table && list1 == [] ==> forall k | 0 <= k < |dirs| && |files| + k != i :: dirs[k].chain != []
    ensures forall k | 0 <= k < |files| && k != i :: FileFits(fs, files[k]) && FileShows(files[k], s.files[k])
    ensures forall k | 0 <= k < |dirs| && |files| + k != i ::
              TableFits(fs, dirs[k]) && dirs[k].Ok() && dirs[k].Slots() == s.tables[k]
  {
    hide FileFits, FileShows, FileWas, TableWas, A.Partition, D.DIR.Slots, D.DIR.Ok;
    forall k | 0 <= k < |files| && k != i ensures FileFits(fs, files[k]) && FileShows(files[k], s.files[k]) {
      FileStays(fs, fat0, img0, w0, lists, i, list1, table, k, files[k], s.files[k]);
    }
    forall k | 0 <= k < |dirs| && |files| + k != i
      ensures TableFits(fs, dirs[k]) && dirs[k].Ok() && dirs[k].Slots() == s.tables[k]
    {
      TableStays(fs, fat0, img0, w0, lists, i, list1, table, |files| + k, dirs[k], s.tables[k]);
    }
  }

  // ---------------------------------------------------------------- calls

  /** All objects after a call on file i. */
  lemma AfterFile(fs: FATFS, files: seq<FIL>, dirs: seq<D.DIR>, lists: seq<seq<nat>>, i: nat,
                  fat0: seq<nat>, img0: seq<Sector>, w0: nat, s: Shot, sh: Shown)
    requires i < |files| && FileFits(fs, files[i]) && FileShows(files[i], sh) && Separate(files, dirs)
    requires Were(fs, files, dirs, lists, i, fat0, img0, w0, s)
    requires Called(fs, fat0, img0, w0, lists, i, files[i].chain, false)
    ensures Ok(fs, files, dirs, lists[i := files[i].chain])
    ensures Shows(fs, files, dirs, Shot(s.files[i := sh], s.tables, A.NoneFree(fs.fat)))
  {
    hide FileFits, TableFits, FileShows, FileWas, TableWas, A.Partition, A.NoneFree, D.DIR.Slots, D.DIR.Ok, Called,
         Separate;
    OthersStay(fs, files, dirs, lists, i, files[i].chain, false, fat0, img0, w0, s);
    CalledVolume(fs, fat0, img0, w0, lists, i, files[i].chain, false);
    FileOf(fs, files[i]);
    forall k | 0 <= k < |dirs| ensures dirs[k].fs == fs && lists[i := files[i].chain][|files| + k] == dirs[k].chain { }
  }

  lemma CalledVolume(fs: FATFS, fat0: seq<nat>, img0: seq<Sector>, w0: nat, lists: seq<seq<nat>>, i: nat,
                     list1: seq<nat>, table: bool)
    requires Called(fs, fat0, img0, w0, lists, i, list1, table)
    ensures A.Partition(fs.fat, lists[i := list1])
  {
  }

  lemma FileOf(fs: FATFS, f: FIL)
    requires FileFits(fs, f)
    ensures f.fs == fs
  {
  }

  /** File i before a call on it. */
  lemma FileReady(fs: FATFS, files: seq<FIL>, dirs: seq<D.DIR>, lists: seq<seq<nat>>, i: nat, s: Shot)
    requires Ok(fs, files, dirs, lists) && Shows(fs, files, dirs, s) && i < |files|
    ensures files[i].fs == fs && S.Ready(files[i], lists, i) && files[i].OwnsBuffer() && Separate(files, dirs)
    ensures lists[i := files[i].chain] == lists && i < |lists| && FileShows(files[i], s.files[i])
    ensures s.full == A.NoneFree(fs.fat) && i < |s.files|
    ensures GeometryOk(fs.g, |fs.img|) && |fs.fat| == fs.g.nFatent && fs.g.csize > 0
  {
    hide FIL.Valid, FIL.Content, A.Partition, D.DIR.Slots, D.DIR.Ok, Separate, GeometryOk, A.NoneFree;
    assert files[i].Valid() && lists[i := files[i].chain] == lists;
    GeometryOfFile(files[i]);
  }

  lemma GeometryOfFile(f: FIL)
    requires f.Valid()
    ensures GeometryOk(f.fs.g, |f.fs.img|) && |f.fs.fat| == f.fs.g.nFatent && f.fs.g.csize > 0 && f.fs.Valid()
    ensures f.Ok() && f.Limits()
  {
    f.Facts();
  }

  /** One call on an open file. */
  method CallFile(fs: FATFS, files: seq<FIL>, ghost dirs: seq<D.DIR>, i: nat, q: S.Request, ghost lists: seq<seq<nat>>,
                  ghost s: Shot)
    returns (reply: S.Reply, ghost s': Shot)
    requires Ok(fs, files, dirs, lists) && Shows(fs, files, dirs, s) && i < |files|
    requires fs.g.csize > 0 && S.Tidy(files[i], q) && (q.Move? ==> q.target < TWO_TO_32)
    modifies files[i], files[i].buf, fs, fs.win, fs.disk
    ensures Ok(fs, files, dirs, lists[i := files[i].chain]) && Shows(fs, files, dirs, s')
    ensures Answers(s, OnFile(i, q), FromFile(reply), s')
  {
    hide FIL.Valid, FIL.Content, FIL.OwnsBuffer, A.Partition, Changes, Ok, Shows, FileWas, TableWas, S.Answers, S.Tidy,
         A.NoneFree, GeometryOk,
         FATFS.Valid, FIL.Sects, FIL.Ok, FIL.Limits;
    var f := files[i];
    FileReady(fs, files, dirs, lists, i, s);
    Before(fs, files, dirs, lists, i, s);
    S.TidyIsSafe(f, q);
    FileSectors(f);
    ghost var fat0, img0, w0 := fs.fat, fs.img, fs.winsect;
    reply := S.Perform(f, q, lists, i);
    FileSectors(f);
    GeometryOfFile(f);
    ghost var sh := Shown(S.ModeOf(f), f.Content(), f.fptr);
    s' := Shot(s.files[i := sh], s.tables, A.NoneFree(fs.fat));
    AfterFile(fs, files, dirs, lists, i, fat0, img0, w0, s, sh);
  }

  lemma Still(g: Geometry, fat: seq<nat>, img: seq<Sector>, list: seq<nat>, sects: seq<nat>)
    ensures Changes(g, fat, img, list, fat, img, list, sects)
  {
  }

  /** The check before a truncation shows in no object. */
  method CheckFile(fs: FATFS, files: seq<FIL>, ghost dirs: seq<D.DIR>, i: nat, q: S.Request,
                   ghost lists: seq<seq<nat>>, ghost s: Shot)
    returns (b: bool)
    requires Ok(fs, files, dirs, lists) && Shows(fs, files, dirs, s) && i < |files|
    modifies fs`winsect, fs`wflag, fs.win, fs.disk
    ensures Ok(fs, files, dirs, lists) && Shows(fs, files, dirs, s)
    ensures files[i].fs == fs && fs.g.csize > 0 && (b <==> S.Tidy(files[i], q))
  {
    hide FIL.Valid, FIL.Content, FIL.OwnsBuffer, A.Partition, Changes, Ok, Shows, FileWas, TableWas, S.Tidy,
         A.NoneFree, GeometryOk,
         FATFS.Valid, FIL.Sects, FIL.Ok, FIL.Limits;
    var f := files[i];
    FileReady(fs, files, dirs, lists, i, s);
    Before(fs, files, dirs, lists, i, s);
    ghost var w0 := fs.winsect;
    b := S.StaysTidy(f, q);
    GeometryOfFile(f);
    Still(fs.g, fs.fat, fs.img, f.chain, OwnSectors(fs.g, f.chain, false));
    AfterFile(fs, files, dirs, lists, i, fs.fat, fs.img, w0, s, s.files[i]);
    assert s == Shot(s.files[i := s.files[i]], s.tables, A.NoneFree(fs.fat));
  }

  /** Directory i before a call on it. */
  lemma TableReady(fs: FATFS, files: seq<FIL>, dirs: seq<D.DIR>, lists: seq<seq<nat>>, i: nat, s: Shot)
    requires Ok(fs, files, dirs, lists) && Shows(fs, files, dirs, s) && i < |dirs|
    ensures |files| + i < |lists| && i < |s.tables| && lists[|files| + i := dirs[i].chain] == lists
    ensures dirs[i].fs == fs && D.OnVolume(dirs[i], lists, |files| + i) && DirOk(dirs[i].Slots())
              && dirs[i].Slots() == s.tables[i]
    ensures s.full == A.NoneFree(fs.fat) && Separate(files, dirs)
    ensures GeometryOk(fs.g, |fs.img|) && |fs.fat| == fs.g.nFatent
  {
    hide FIL.Valid, FIL.Content, A.Partition, D.DIR.Slots, D.DIR.Ok, Separate, GeometryOk, A.NoneFree, DirOk;
    assert lists[|files| + i := dirs[i].chain] == lists;
    GeometryOfTable(dirs[i]);
  }

  lemma GeometryOfTable(d: D.DIR)
    requires d.Ok()
    ensures GeometryOk(d.fs.g, |d.fs.img|) && |d.fs.fat| == d.fs.g.nFatent && d.fs.Valid()
    ensures d.chain == [] ==> D.RootOk(d.fs.g) && !d.fs.g.fsType.FAT32?
    ensures d.chain == [] || A.Chain(d.fs.fat, d.chain)
  {
    d.Facts();
  }

  /** What a directory call changes, in the common form. */
  lemma TableChanges(g: Geometry, fat0: seq<nat>, img0: seq<Sector>, list0: seq<nat>, fat1: seq<nat>,
                     img1: seq<Sector>, list1: seq<nat>)
    requires D.OnlyTable(g, fat0, img0, list0, fat1, img1, list1) && (list1 == [] || A.Chain(fat1, list1))
    ensures Changes(g, fat0, img0, list0, fat1, img1, list1, OwnSectors(g, list1, true))
    ensures A.NoneFree(fat0) ==> A.NoneFree(fat1)
    ensures list0 == [] ==> list1 == []
    ensures list1 == [] ==> list0 == []
  {
    hide A.Chain, D.TableSectors;
    A.GrowthReplaces(fat0, list0, fat1, list1);
    if A.NoneFree(fat0) {
      A.FullStays(fat0, list0, fat1, list1);
    }
  }

  /** All objects after a call on directory i, which went to a new object. */
  lemma AfterTable(fs: FATFS, files: seq<FIL>, dirs: seq<D.DIR>, lists: seq<seq<nat>>, i: nat, e: D.DIR,
                   fat0: seq<nat>, img0: seq<Sector>, w0: nat, s: Shot)
    requires i < |dirs| && TableFits(fs, e) && Separate(files, dirs) && (dirs[i].chain == [] <==> e.chain == [])
    requires Were(fs, files, dirs, lists, |files| + i, fat0, img0, w0, s)
    requires Called(fs, fat0, img0, w0, lists, |files| + i, e.chain, true)
    ensures Ok(fs, files, dirs[i := e], lists[|files| + i := e.chain])
    ensures Shows(fs, files, dirs[i := e], Shot(s.files, s.tables[i := e.Slots()], A.NoneFree(fs.fat)))
  {
    hide FileFits, FileShows, FileWas, TableWas, A.Partition, A.NoneFree, D.DIR.Slots, D.DIR.Ok, Called, DirOk;
    OthersStay(fs, files, dirs, lists, |files| + i, e.chain, true, fat0, img0, w0, s);
    CalledVolume(fs, fat0, img0, w0, lists, |files| + i, e.chain, true);
  }

  /** One call on a directory. */
  method CallTable(fs: FATFS, ghost files: seq<FIL>, dirs: seq<D.DIR>, i: nat, c: D.DirCall,
                   ghost lists: seq<seq<nat>>, ghost s: Shot)
    returns (res: D.DResult, e: D.DIR, ghost s': Shot)
    requires Ok(fs, files, dirs, lists) && Shows(fs, files, dirs, s) && i < |dirs|
    modifies fs, fs.win, fs.disk
    ensures fresh(e) && Ok(fs, files, dirs[i := e], lists[|files| + i := e.chain]) && Shows(fs, files, dirs[i := e], s')
    ensures Answers(s, OnTable(i, c), FromTable(res), s')
  {
    hide A.Partition, Changes, Ok, Shows, FileWas, TableWas, D.Answers, A.NoneFree, GeometryOk, FATFS.Valid, D.DIR.Ok,
         D.DIR.Slots,
         D.OnlyTable, DirOk, A.Chain, D.RootOk, D.TableSectors, OwnSectors;
    TableReady(fs, files, dirs, lists, i, s);
    Before(fs, files, dirs, lists, |files| + i, s);
    ghost var fat0, img0, w0, list0 := fs.fat, fs.img, fs.winsect, dirs[i].chain;
    ghost var op;
    e, res, op := D.Call(dirs[i], c, lists, |files| + i);
    GeometryOfTable(e);
    TableChanges(fs.g, fat0, img0, list0, fs.fat, fs.img, e.chain);
    NearTable(fs.g, e.chain, w0, fs.winsect);
    s' := Shot(s.files, s.tables[i := e.Slots()], A.NoneFree(fs.fat));
    AnswerIsOk(c, op, res, s.tables[i], e.Slots());
    assert D.Answers(c, op, res, s.tables[i], s'.tables[i]);
    AfterTable(fs, files, dirs, lists, i, e, fat0, img0, w0, s);
  }

  lemma AnswerIsOk(c: D.DirCall, op: DirOp, res: D.DResult, t: seq<Slot>, t': seq<Slot>)
    requires D.Answers(c, op, res, t, t')
    ensures DirOk(t')
  {
  }

  lemma NearTable(g: Geometry, chain: seq<nat>, w0: nat, w1: nat)
    requires D.Near(g, chain, w0, w1)
    ensures w1 == w0 || g.fatbase <= w1 < g.fatbase + g.fsize || w1 in OwnSectors(g, chain, true)
  {
  }

  // ---------------------------------------------------------------- runs

  ghost predicate Explained(states: seq<Shot>, calls: seq<Call>, answers: seq<Answer>) {
    && |states| == |answers| + 1 && |answers| <= |calls|
    && forall k | 0 <= k < |answers| :: Answers(states[k], calls[k], answers[k], states[k + 1])
  }

  lemma OneMore(states: seq<Shot>, calls: seq<Call>, answers: seq<Answer>, a: Answer, s: Shot)
    requires Explained(states, calls, answers) && |answers| < |calls|
    requires Answers(states[|answers|], calls[|answers|], a, s)
    ensures Explained(states + [s], calls, answers + [a])
  {
    hide Answers;
  }

  /** The objects that the calls name exist. */
  predicate Named(calls: seq<Call>, nfiles: nat, ndirs: nat) {
    forall c | c in calls ::
      match c
      case OnFile(i, q) => i < nfiles && (q.Move? ==> q.target < TWO_TO_32)
      case OnTable(i, _) => i < ndirs
  }

  /**
   Any interleaving of calls on open files and directories of one volume, up to a truncation that
   would leave a file a buffer not its own: every answer is that of one byte sequence or one table,
   each object by itself, and the cluster lists stay apart and all that is in the table.
   */
  method Run(fs: FATFS, files: seq<FIL>, dirs0: seq<D.DIR>, calls: seq<Call>, ghost lists0: seq<seq<nat>>,
             ghost s0: Shot)
    returns (answers: seq<Answer>, dirs: seq<D.DIR>, ghost lists: seq<seq<nat>>, ghost states: seq<Shot>)
    requires Ok(fs, files, dirs0, lists0) && Shows(fs, files, dirs0, s0)
    requires Named(calls, |files|, |dirs0|)
    modifies files, set f | f in files :: f.buf
    modifies fs, fs.win, fs.disk
    ensures Ok(fs, files, dirs, lists) && |files| + |dirs| <= |lists| == |lists0| && |dirs| == |dirs0|
    ensures lists[|files| + |dirs|..] == lists0[|files| + |dirs|..]
    ensures Explained(states, calls, answers) && states[0] == s0 && Shows(fs, files, dirs, states[|answers|])
    ensures |answers| < |calls| ==>
              && calls[|answers|].OnFile? && calls[|answers|].i < |files| && files[calls[|answers|].i].fs == fs
              && fs.g.csize > 0 && !S.Tidy(files[calls[|answers|].i], calls[|answers|].q)
  {
    hide Ok, Shows, Explained, Answers, S.Tidy;
    answers, dirs, lists, states := [], dirs0, lists0, [s0];
    NothingToExplain(s0, calls);
    ListCount(fs, files, dirs0, lists0);
    while |answers| < |calls|
      invariant Ok(fs, files, dirs, lists) && |lists| == |lists0| && |dirs| == |dirs0| && |files| + |dirs| <= |lists|
      invariant lists[|files| + |dirs|..] == lists0[|files| + |dirs|..]
      invariant |states| == |answers| + 1 && |answers| <= |calls| && Explained(states, calls, answers)
      invariant states[0] == s0 && Shows(fs, files, dirs, states[|answers|])
      decreases |calls| - |answers|
    {
      var c := calls[|answers|];
      var a;
      ghost var s;
      assert c in calls;
      match c {
        case OnFile(i, q) =>
          var tidy := CheckFile(fs, files, dirs, i, q, lists, states[|answers|]);
          if !tidy {
            return;
          }
          var reply;
          reply, s := CallFile(fs, files, dirs, i, q, lists, states[|answers|]);
          a := FromFile(reply);
          lists := lists[i := files[i].chain];
        case OnTable(i, d) =>
          var res, e;
          res, e, s := CallTable(fs, files, dirs, i, d, lists, states[|answers|]);
          a := FromTable(res);
          dirs, lists := dirs[i := e], lists[|files| + i := e.chain];
      }
      OneMore(states, calls, answers, a, s);
      answers, states := answers + [a], states + [s];
    }
  }

  lemma ListCount(fs: FATFS, files: seq<FIL>, dirs: seq<D.DIR>, lists: seq<seq<nat>>)
    requires Ok(fs, files, dirs, lists)
    ensures |files| + |dirs| <= |lists|
  {
  }

  lemma NothingToExplain(s: Shot, calls: seq<Call>)
    ensures Explained([s], calls, [])
  {
  }
}
