/**
 Runs of calls on an open file: the file answers as a plain byte sequence would,
 and the volume stays free of cross links and leaks all along.
 */
module Session {
  import opened Bits
  import opened BlockDevice
  import opened Volume
  import opened Layout
  import opened File
  import A = Allocator

  // ---------------------------------------------------------------- the plain file

  datatype Request = Put(bytes: seq<byte>) | Get(count: nat) | Move(target: nat) | Truncate

  /** What a call gave: its result, the bytes moved or the new position, and the bytes read. */
  datatype Reply = Reply(res: FResult, n: nat, bytes: seq<byte>)

  /** A byte sequence, a position in it, and whether the volume has no free cluster. */
  datatype Plain = Plain(content: seq<byte>, pos: nat, full: bool)

  /** How the file was opened. */
  datatype Mode = Mode(read: bool, write: bool)

  function Min(a: nat, b: nat): nat {
    if a < b then a else b
  }

  /**
   A byte sequence f gives this reply and becomes f'. A write is cut short only by a full
   volume, and at 4 GB nothing is written; a move behind the end stops short only on a full volume.
   */
  ghost predicate Answers(m: Mode, f: Plain, q: Request, r: Reply, f': Plain) {
    && f.pos <= |f.content| && f'.pos <= |f'.content|
    && match q
       case Put(bytes) => if m.write then Wrote(f, bytes, r, f') else Denied(f, r, f')
       case Get(count) => if m.read then Got(f, count, r, f') else Denied(f, r, f')
       case Move(target) => if m.write then Stretched(f, target, r, f') else Moved(f, target, r, f')
       case Truncate => if m.write then Cut(f, r, f') else Denied(f, r, f')
  }

  predicate Denied(f: Plain, r: Reply, f': Plain) {
    r == Reply(DENIED, 0, []) && f' == f
  }

  predicate Wrote(f: Plain, bytes: seq<byte>, r: Reply, f': Plain)
    requires f.pos <= |f.content|
  {
    && r.res == OK && r.n <= |bytes|
    && f'.content == Splice(f.content, f.pos, bytes[..r.n]) && f'.pos == f.pos + r.n && (f.full ==> f'.full)
    && (if |f.content| + |bytes| >= TWO_TO_32 then r.n == 0 else r.n < |bytes| ==> f'.full)
  }

  predicate Got(f: Plain, count: nat, r: Reply, f': Plain)
    requires f.pos <= |f.content|
  {
    && r.res == OK && r.n == Min(count, |f.content| - f.pos) && r.bytes == f.content[f.pos..f.pos + r.n]
    && f' == f.(pos := f.pos + r.n)
  }

  /** Reading, a move ends at the target or at the end of the file. */
  predicate Moved(f: Plain, target: nat, r: Reply, f': Plain) {
    r == Reply(OK, Min(target, |f.content|), []) && f'.content == f.content && f'.pos == r.n && (f.full ==> f'.full)
  }

  /** Writing, a move behind the end stretches the file. */
  predicate Stretched(f: Plain, target: nat, r: Reply, f': Plain) {
    && r.res == OK && f'.pos == r.n <= target && (r.n < target ==> r.n >= |f.content| && f'.full)
    && f.content <= f'.content && |f'.content| == (if r.n > |f.content| then r.n else |f.content|)
      && (f.full ==> f'.full)
  }

  predicate Cut(f: Plain, r: Reply, f': Plain)
    requires f.pos <= |f.content|
  {
    r == Reply(OK, 0, []) && f'.content == f.content[..f.pos] && f'.pos == f.pos && (f'.full ==> f.full)
  }

  // ---------------------------------------------------------------- the volume

  /** A cluster that was free before f_truncate is free after it. */
  lemma FreeStays(t: A.Table, chain: seq<nat>, j: nat)
    requires A.TableOk(t) && A.Chain(t.fat, chain) && j < |chain|
    ensures A.IsCluster(t.fat, chain[j])
    ensures A.NoneFree(A.CutAfter(t, chain[j]).fat) ==> A.NoneFree(t.fat)
    ensures A.NoneFree(A.RemoveChain(t, chain[0]).0.fat) ==> A.NoneFree(t.fat)
  {
    hide A.CutAfter, A.RemoveChain;
    A.CutChain(t, chain, j);
    A.RemoveWhole(t, chain);
    forall c: nat | A.IsCluster(t.fat, c) && t.fat[c] == 0
      ensures A.CutAfter(t, chain[j]).fat[c] == 0 && A.RemoveChain(t, chain[0]).0.fat[c] == 0
    {
      if c in chain { A.EntryOfChain(t.fat, chain, c); }
    }
  }

  // ---------------------------------------------------------------- the open file

  /** An open file on a volume of these cluster lists, of which number i is its own. */
  ghost predicate Ready(f: FIL, lists: seq<seq<nat>>, i: nat)
    reads f, f.buf, f.fs, f.fs.win, f.fs.disk
  {
    f.Valid() && !f.error && i < |lists| && A.Partition(f.fs.fat, lists[i := f.chain])
  }

  function ModeOf(f: FIL): Mode
    reads f`canRead, f`canWrite
  {
    Mode(f.canRead, f.canWrite)
  }

  ghost function View(f: FIL): Plain
    requires f.Valid()
    reads f, f.buf, f.fs, f.fs.win, f.fs.disk
  {
    Plain(f.Content(), f.fptr, A.NoneFree(f.fs.fat))
  }

  lemma ChainOfValid(f: FIL)
    requires f.Valid()
    ensures f.fs.Valid() && f.fptr <= |f.Content()| && |f.Content()| == f.fsize < TWO_TO_32
              && f.fsize <= 512 * |f.Sects()|
    ensures f.chain != [] ==> A.Chain(f.fs.fat, f.chain)
  {
  }

  /** The volume after a call that did not cut the file. */
  lemma Grown(f: FIL, lists: seq<seq<nat>>, i: nat, fat0: seq<nat>, img0: seq<Sector>, chain0: seq<nat>)
    requires i < |lists| && A.Partition(fat0, lists[i := chain0])
    requires OnlyOwn(f.fs.g, fat0, img0, chain0, f.fs.fat, f.fs.img, f.chain)
    ensures !A.HasOne(f.fs.fat)
    ensures f.Valid() ==>
              && A.Partition(f.fs.fat, lists[i := f.chain]) && (A.NoneFree(fat0) ==> A.NoneFree(f.fs.fat))
              && Changes(f.fs.g, fat0, img0, chain0, f.fs.fat, f.fs.img, f.chain, f.Sects())
  {
    hide A.Partition, A.Chain, A.Grows, A.Replaces, A.HasOne, A.NoneFree, FIL.Valid, FIL.Content;
    A.NoOnes(fat0, lists[i := chain0], chain0, f.fs.fat, f.chain);
    if f.Valid() {
      ChainOfValid(f);
      A.GrowthKeeps(fat0, lists[i := chain0], i, f.fs.fat, f.chain);
      assert lists[i := chain0][i := f.chain] == lists[i := f.chain];
      if A.NoneFree(fat0) {
        A.FullStays(fat0, chain0, f.fs.fat, f.chain);
      }
    }
  }

  method DoPut(f: FIL, bytes: seq<byte>, ghost lists: seq<seq<nat>>, ghost i: nat) returns (reply: Reply)
    requires Ready(f, lists, i)
    modifies f, f.buf, f.fs, f.fs.win, f.fs.disk
    ensures Ready(f, lists, i) && ModeOf(f) == old(ModeOf(f))
    ensures Answers(ModeOf(f), old(View(f)), Put(bytes), reply, View(f))
    ensures Changes(f.fs.g, old(f.fs.fat), old(f.fs.img), old(f.chain), f.fs.fat, f.fs.img, f.chain, f.Sects())
    ensures f.WindowStayed() && (old(f.OwnsBuffer()) ==> f.OwnsBuffer())
  {
    hide FIL.Content, FIL.Valid, FIL.Sects, FATFS.Valid, A.Partition, A.HasOne, A.NoneFree, OnlyOwn, Splice, Changes;
    ghost var fat0, img0, chain0 := f.fs.fat, f.fs.img, f.chain;
    ChainOfValid(f);
    var res, bw := f.Write(bytes);
    Grown(f, lists, i, fat0, img0, chain0);
    ChainOfValid(f);
    reply := Reply(res, bw, []);
  }

  method DoMove(f: FIL, target: nat, ghost lists: seq<seq<nat>>, ghost i: nat) returns (reply: Reply)
    requires Ready(f, lists, i) && target < TWO_TO_32
    modifies f, f.buf, f.fs, f.fs.win, f.fs.disk
    ensures Ready(f, lists, i) && ModeOf(f) == old(ModeOf(f))
    ensures Answers(ModeOf(f), old(View(f)), Move(target), reply, View(f))
    ensures Changes(f.fs.g, old(f.fs.fat), old(f.fs.img), old(f.chain), f.fs.fat, f.fs.img, f.chain, f.Sects())
    ensures f.WindowStayed() && (old(f.OwnsBuffer()) ==> f.OwnsBuffer())
  {
    hide FIL.Content, FIL.Valid, FIL.Sects, FATFS.Valid, A.Partition, A.HasOne, A.NoneFree, OnlyOwn, Changes;
    ghost var fat0, img0, chain0 := f.fs.fat, f.fs.img, f.chain;
    ChainOfValid(f);
    var res := f.Seek(target);
    Grown(f, lists, i, fat0, img0, chain0);
    ChainOfValid(f);
    reply := Reply(res, f.fptr, []);
  }

  method DoGet(f: FIL, count: nat, ghost lists: seq<seq<nat>>, ghost i: nat) returns (reply: Reply)
    requires Ready(f, lists, i)
    modifies f, f.buf, f.fs, f.fs.win, f.fs.disk
    ensures Ready(f, lists, i) && ModeOf(f) == old(ModeOf(f))
    ensures Answers(ModeOf(f), old(View(f)), Get(count), reply, View(f))
    ensures Changes(f.fs.g, old(f.fs.fat), old(f.fs.img), old(f.chain), f.fs.fat, f.fs.img, f.chain, f.Sects())
    ensures f.WindowStayed() && (old(f.OwnsBuffer()) ==> f.OwnsBuffer())
  {
    hide FIL.Content, FIL.Valid, FIL.Sects, FATFS.Valid, A.Partition, A.NoneFree, OnlyOwn, Changes;
    ghost var fat0, img0, chain0 := f.fs.fat, f.fs.img, f.chain;
    ChainOfValid(f);
    var buff := new byte[count];
    var res, br := f.Read(buff, count);
    Grown(f, lists, i, fat0, img0, chain0);
    ChainOfValid(f);
    reply := Reply(res, br, buff[..br]);
  }

  /** Only a truncation can leave the file with a buffer that is not its own. */
  ghost predicate Safe(f: FIL, q: Request)
    requires f.fs.g.csize > 0
    reads f
  {
    q.Truncate? && f.canWrite ==> f.BufferKept()
  }

  /** What the truncation is about, before it. */
  lemma BeforeCut(f: FIL)
    requires f.Valid()
    ensures f.fs.g.csize > 0 && A.TableOk(f.fs.Table())
    ensures f.fptr < f.fsize ==> f.chain != [] && A.Chain(f.fs.fat, f.chain) && f.orgClust == f.chain[0]
    ensures f.fptr > 0 ==> 0 < f.KeptClusters() <= |f.chain| && f.currClust == f.chain[f.KeptClusters() - 1]
    ensures f.fptr == 0 ==> f.KeptClusters() == 0
  {
    f.Facts();
    f.fs.TableFits();
    hide FATFS.Valid, A.Chain, ClusterOf;
    FirstSector(f.fs.g, f.chain);
  }

  /** A truncation that has something to cut, on the volume. */
  lemma CutOnVolume(f: FIL, lists: seq<seq<nat>>, i: nat)
    requires Ready(f, lists, i) && f.fptr < f.fsize && f.fs.g.csize > 0
    ensures f.chain != [] && A.TableOk(f.fs.Table()) && (f.fptr > 0 ==> A.IsCluster(f.fs.fat, f.currClust))
    ensures f.KeptClusters() <= |f.chain|
    ensures var t, kept := f.fs.Table(), f.chain[..f.KeptClusters()];
            var t' := if f.fptr == 0 then A.RemoveChain(t, f.orgClust).0 else A.CutAfter(t, f.currClust);
            && A.Partition(t'.fat, lists[i := kept]) && A.Replaces(t.fat, f.chain, t'.fat, kept)
            && (A.NoneFree(t'.fat) ==> A.NoneFree(t.fat))
  {
    hide FIL.Valid, FIL.KeptClusters, FATFS.Valid, A.Partition, A.Chain, A.RemoveChain, A.CutAfter, A.Replaces,
         A.NoneFree;
    BeforeCut(f);
    var t, n, l := f.fs.Table(), f.KeptClusters(), lists[i := f.chain];
    FreeStays(t, f.chain, if n > 0 then n - 1 else 0);
    assert l[i := f.chain[..n]] == lists[i := f.chain[..n]];
    if f.fptr == 0 {
      A.DropListKeeps(t, l, i);
      assert f.chain[..0] == [];
    } else {
      A.CutListKeeps(t, l, i, n - 1);
    }
  }

  /** The file has a buffer of its own after a truncation. */
  ghost predicate Tidy(f: FIL, q: Request)
    requires f.fs.g.csize > 0
    reads f
  {
    q.Truncate? && f.canWrite && f.fptr < f.fsize ==>
      f.dsect == 0 || (f.KeptClusters() <= |f.chain| && f.dsect in SectorsOf(f.fs.g, f.chain[..f.KeptClusters()]))
  }

  method DoTruncate(f: FIL, ghost lists: seq<seq<nat>>, ghost i: nat) returns (reply: Reply)
    requires Ready(f, lists, i) && f.fs.g.csize > 0 && Safe(f, Truncate)
    modifies f, f.buf, f.fs, f.fs.win, f.fs.disk
    ensures Ready(f, lists, i) && ModeOf(f) == old(ModeOf(f))
    ensures Answers(ModeOf(f), old(View(f)), Truncate, reply, View(f))
    ensures Changes(f.fs.g, old(f.fs.fat), old(f.fs.img), old(f.chain), f.fs.fat, f.fs.img, f.chain, f.Sects())
    ensures f.WindowStayed() && (old(f.OwnsBuffer() && Tidy(f, Truncate)) ==> f.OwnsBuffer())
  {
    hide FIL.Content, FIL.Valid, FIL.Settled, FIL.Remaining, FIL.KeptClusters, FIL.BufferKept, SectorsOf,
         FATFS.Valid, A.NoneFree, A.Partition, A.Chain, A.RemoveChain, A.CutAfter, A.Replaces, SameOutsideFat;
    ChainOfValid(f);
    BeforeCut(f);
    Unchanged(f.fs.fat, f.chain);
    if f.fptr < f.fsize {
      CutOnVolume(f, lists, i);
    }
    ghost var img0 := f.fs.img;
    var res := f.Truncate();
    OutsideOnly(f.fs.g, img0, f.fs.img);
    if res == OK {
      f.OwnBufferIsValid();
    }
    ChainOfValid(f);
    reply := Reply(res, 0, []);
  }

  lemma Unchanged(fat: seq<nat>, list: seq<nat>)
    ensures A.Replaces(fat, list, fat, list)
  {
  }

  lemma OutsideOnly(g: Geometry, img0: seq<Sector>, img1: seq<Sector>)
    requires SameOutsideFat(img0, img1, g)
    ensures |img1| == |img0|
    ensures forall s | 0 <= s < |img0| && (s < g.fatbase || FatEnd(g) <= s) :: img1[s] == img0[s]
  {
  }

  /** The sector s lies in cluster c. */
  predicate InCluster(g: Geometry, c: nat, s: nat) {
    Clust2Sect(g, c) <= s < Clust2Sect(g, c) + g.csize
  }

  lemma OneClusterMore(g: Geometry, chain: seq<nat>, j: nat, s: nat)
    requires j < |chain|
    ensures s in SectorsOf(g, chain[..j + 1]) <==> s in SectorsOf(g, chain[..j]) || InCluster(g, chain[j], s)
  {
    assert chain[..j + 1] == chain[..j] + [chain[j]];
    SectorsOfExtend(g, chain[..j], chain[j]);
    var c := Consecutive(Clust2Sect(g, chain[j]), g.csize);
    if InCluster(g, chain[j], s) {
      assert c[s - Clust2Sect(g, chain[j])] == s;
    }
  }

  /** What a caller can find out before f_truncate: whether the sector in the buffer survives it. */
  method BufferSurvives(f: FIL) returns (b: bool)
    requires f.Valid()
    modifies f.fs`winsect, f.fs`wflag, f.fs.win, f.fs.disk
    ensures f.Valid() && f.Content() == old(f.Content()) && f.fs.g.csize > 0
    ensures b <==> f.BufferKept()
  {
    hide FIL.Ok, FATFS.Valid, SectorsOf, A.Chain, InCluster, FIL.KeptClusters, FIL.Content;
    BeforeCut(f);
    if !f.dirty || f.fptr == f.fsize {
      return true;
    }
    NoSectors(f.fs.g, f.chain);
    if f.fptr == 0 {
      return false;
    }
    b := WalkKept(f);
  }

  /** And whether the file has a buffer of its own afterwards. */
  method StaysTidy(f: FIL, q: Request) returns (b: bool)
    requires f.Valid() && f.fs.g.csize > 0
    modifies f.fs`winsect, f.fs`wflag, f.fs.win, f.fs.disk
    ensures f.Valid() && f.Content() == old(f.Content()) && f.WindowStayed()
    ensures b <==> Tidy(f, q)
  {
    hide FIL.Ok, FATFS.Valid, SectorsOf, A.Chain, InCluster, FIL.KeptClusters, FIL.Content;
    BeforeCut(f);
    NoSectors(f.fs.g, f.chain);
    if !q.Truncate? || !f.canWrite || f.fptr >= f.fsize || f.dsect == 0 {
      return true;
    }
    if f.fptr == 0 {
      return false;
    }
    b := WalkKept(f);
  }

  lemma TidyIsSafe(f: FIL, q: Request)
    requires f.Valid() && f.fs.g.csize > 0 && Tidy(f, q)
    ensures Safe(f, q)
  {
    f.Facts();
    if f.dirty {
      f.OwnRun(f.dsect);
    }
    hide FATFS.Valid, SectorsOf, FIL.KeptClusters;
  }

  lemma NoSectors(g: Geometry, chain: seq<nat>)
    ensures SectorsOf(g, chain[..0]) == []
  {
    assert chain[..0] == [];
  }

  /** The walk from the first cluster to the current one, the last that is kept. */
  method WalkKept(f: FIL) returns (b: bool)
    requires f.Valid() && 0 < f.fptr < f.fsize && f.fs.g.csize > 0
    modifies f.fs`winsect, f.fs`wflag, f.fs.win, f.fs.disk
    ensures f.Valid() && f.Content() == old(f.Content()) && f.WindowStayed()
    ensures b <==> f.KeptClusters() <= |f.chain| && f.dsect in SectorsOf(f.fs.g, f.chain[..f.KeptClusters()])
  {
    hide FIL.Ok, FATFS.Valid, SectorsOf, A.Chain, InCluster, FIL.KeptClusters, FIL.Content;
    BeforeCut(f);
    NoSectors(f.fs.g, f.chain);
    ghost var j: nat := 0;
    var c := f.orgClust;
    while true
      invariant f.Valid() && f.Content() == old(f.Content()) && j < f.KeptClusters() <= |f.chain| && c == f.chain[j]
      invariant f.dsect !in SectorsOf(f.fs.g, f.chain[..j]) && f.WindowStayed()
      decreases f.KeptClusters() - j
    {
      OneClusterMore(f.fs.g, f.chain, j, f.dsect);
      SectorsUpTo(f.fs.g, f.chain, j + 1, f.KeptClusters());
      if InCluster(f.fs.g, c, f.dsect) {
        return true;
      }
      LastKept(f, j);
      if c == f.currClust {
        return false;
      }
      c := NextLink(f, c, j);
      j := j + 1;
    }
  }

  /** A head of a chain has its sectors among those of a longer head. */
  lemma SectorsUpTo(g: Geometry, chain: seq<nat>, m: nat, n: nat)
    requires m <= n <= |chain|
    ensures forall s | s in SectorsOf(g, chain[..m]) :: s in SectorsOf(g, chain[..n])
  {
    SectorsOfPrefix(g, chain[..n], m);
    assert chain[..n][..m] == chain[..m];
  }

  /** The current cluster is the last one kept, and no other of the chain. */
  lemma LastKept(f: FIL, j: nat)
    requires f.Valid() && f.fs.g.csize > 0 && f.fptr > 0 && j < f.KeptClusters() <= |f.chain|
    ensures f.chain[j] == f.currClust <==> j + 1 == f.KeptClusters()
  {
    f.Facts();
    BeforeCut(f);
  }

  /** The link of cluster j of the file. */
  method NextLink(f: FIL, c: nat, ghost j: nat) returns (r: nat)
    requires f.Valid() && j + 1 < |f.chain| && c == f.chain[j]
    modifies f.fs`winsect, f.fs`wflag, f.fs.win, f.fs.disk
    ensures f.Valid() && f.Content() == old(f.Content()) && r == f.chain[j + 1] && f.WindowStayed()
  {
    hide FATFS.Valid, SectorsOf;
    f.Linked(j);
    r := f.fs.GetFat(c);
    f.WindowAway();
  }

  // ---------------------------------------------------------------- runs

  /** One call on an open file of a volume; nothing changes but the file and what it takes or gives up. */
  method Perform(f: FIL, q: Request, ghost lists: seq<seq<nat>>, ghost i: nat) returns (reply: Reply)
    requires Ready(f, lists, i) && f.fs.g.csize > 0 && Safe(f, q) && (q.Move? ==> q.target < TWO_TO_32)
    modifies f, f.buf, f.fs, f.fs.win, f.fs.disk
    ensures Ready(f, lists, i) && ModeOf(f) == old(ModeOf(f)) && Answers(ModeOf(f), old(View(f)), q, reply, View(f))
    ensures Changes(f.fs.g, old(f.fs.fat), old(f.fs.img), old(f.chain), f.fs.fat, f.fs.img, f.chain, f.Sects())
    ensures f.WindowStayed() && (old(f.OwnsBuffer() && Tidy(f, q)) ==> f.OwnsBuffer())
  {
    hide Answers, View, FIL.Valid, A.Partition, FIL.BufferKept, Changes;
    match q {
      case Put(bytes) => reply := DoPut(f, bytes, lists, i);
      case Get(count) => reply := DoGet(f, count, lists, i);
      case Move(target) => reply := DoMove(f, target, lists, i);
      case Truncate => reply := DoTruncate(f, lists, i);
    }
  }

  /** A run of a plain file: states[i] and states[i + 1] are before and after request i. */
  ghost predicate Explained(m: Mode, states: seq<Plain>, qs: seq<Request>, replies: seq<Reply>) {
    && |states| == |replies| + 1 && |replies| <= |qs|
    && forall i | 0 <= i < |replies| :: Answers(m, states[i], qs[i], replies[i], states[i + 1])
  }

  /**
   Any run of calls on an open file, up to a truncation that would leave it a buffer not
   its own: its replies are those of a byte sequence, and at its end the
   chains of the volume are acyclic, apart and all that is in the table.
   */
  method Run(f: FIL, qs: seq<Request>, ghost lists: seq<seq<nat>>, ghost i: nat)
    returns (replies: seq<Reply>, ghost states: seq<Plain>)
    requires Ready(f, lists, i) && forall q | q in qs :: q.Move? ==> q.target < TWO_TO_32
    modifies f, f.buf, f.fs, f.fs.win, f.fs.disk
    ensures Ready(f, lists, i) && ModeOf(f) == old(ModeOf(f)) && f.fs.g.csize > 0
    ensures Explained(ModeOf(f), states, qs, replies) && |states| == |replies| + 1
    ensures states[0] == old(View(f)) && states[|replies|] == View(f)
    ensures |replies| < |qs| ==> !Safe(f, qs[|replies|])
  {
    hide FIL.Valid, FIL.Content, FIL.BufferKept, A.Partition, Answers, View, Explained, Changes;
    BeforeCut(f);
    replies, states := [], [View(f)];
    NothingToExplain(ModeOf(f), states[0], qs);
    while |replies| < |qs|
      invariant Ready(f, lists, i) && ModeOf(f) == old(ModeOf(f)) && Explained(ModeOf(f), states, qs, replies)
      invariant |states| == |replies| + 1 && states[0] == old(View(f)) && states[|replies|] == View(f)
      decreases |qs| - |replies|
    {
      var q := qs[|replies|];
      var survives := Check(f, q, lists, i);
      if !survives {
        return;
      }
      var reply := Perform(f, q, lists, i);
      OneMore(ModeOf(f), states, qs, replies, reply, View(f));
      replies, states := replies + [reply], states + [View(f)];
    }
  }

  /** The check before a request; it changes nothing that the file shows. */
  method Check(f: FIL, q: Request, ghost lists: seq<seq<nat>>, ghost i: nat) returns (b: bool)
    requires Ready(f, lists, i) && f.fs.g.csize > 0
    modifies f.fs`winsect, f.fs`wflag, f.fs.win, f.fs.disk
    ensures Ready(f, lists, i) && View(f) == old(View(f)) && (b <==> Safe(f, q))
  {
    hide FIL.Valid, FIL.Content, FIL.BufferKept, A.Partition;
    b := true;
    if q.Truncate? && f.canWrite {
      b := BufferSurvives(f);
    }
  }

  lemma NothingToExplain(m: Mode, p: Plain, qs: seq<Request>)
    ensures Explained(m, [p], qs, [])
  {
  }

  lemma OneMore(m: Mode, states: seq<Plain>, qs: seq<Request>, replies: seq<Reply>, reply: Reply, p: Plain)
    requires Explained(m, states, qs, replies) && |replies| < |qs|
               && Answers(m, states[|replies|], qs[|replies|], reply, p)
    ensures Explained(m, states + [p], qs, replies + [reply])
  {
    hide Answers;
  }
}
