/**
 Fast seek, which the shipped configuration leaves out: a table of the fragments
 of a file, and a seek that looks its cluster up there instead of walking the FAT.
 */
module FastSeek {
  import opened Bits
  import opened Volume
  import opened Layout
  import opened File
  import A = Allocator

  datatype MapResult = MapOk | NotEnoughCore | MapError

  // ---------------------------------------------------------------- link maps as values

  /** The number of maximal runs of consecutive clusters in a chain. */
  function Fragments(chain: seq<nat>): nat {
    var n := |chain|;
    if n == 0 then 0
    else if n == 1 then 1
    else Fragments(chain[..n - 1]) + if chain[n - 1] == chain[n - 2] + 1 then 0 else 1
  }

  /** Pairs of length and first cluster: the run-length encoding of a chain, with runs as long as they can be. */
  predicate Encodes(t: seq<nat>, chain: seq<nat>)
    decreases |t|
  {
    if t == [] then chain == []
    else
      && 2 <= |t| && 0 < t[0] <= |chain| && chain[..t[0]] == Consecutive(t[1], t[0])
      && (t[0] < |chain| ==> chain[t[0]] != chain[t[0] - 1] + 1)
      && Encodes(t[2..], chain[t[0]..])
  }

  /** A link map: its size, the pairs, a terminating 0. */
  predicate LinkMap(tbl: seq<nat>, chain: seq<nat>) {
    && 2 * Fragments(chain) + 2 <= |tbl| && tbl[2 * Fragments(chain) + 1] == 0
    && Encodes(tbl[1..2 * Fragments(chain) + 1], chain)
  }

  /** A first run and an encoding of the rest. */
  lemma AddPair(n: nat, s: nat, t: seq<nat>, chain: seq<nat>)
    requires 0 < n <= |chain| && (forall j | 0 <= j < n :: chain[j] == s + j) && Encodes(t, chain[n..])
    requires n < |chain| ==> chain[n] != chain[n - 1] + 1
    ensures Encodes([n, s] + t, chain)
  {
    assert ([n, s] + t)[2..] == t;
    assert chain[..n] == Consecutive(s, n);
  }

  /** The first pair of an encoding. */
  lemma FirstPair(t: seq<nat>, chain: seq<nat>)
    requires Encodes(t, chain)
    ensures t == [] ==> chain == []
    ensures t != [] ==> 2 <= |t| && 0 < t[0] <= |chain| && Encodes(t[2..], chain[t[0]..])
                        && (forall j | 0 <= j < t[0] :: chain[j] == t[1] + j)
                        && (t[0] < |chain| ==> chain[t[0]] != chain[t[0] - 1] + 1)
  {
    if t != [] {
      forall j | 0 <= j < t[0] ensures chain[j] == t[1] + j {
        assert chain[..t[0]][j] == chain[j];
      }
    }
  }

  /** A further run behind the end of a chain is a further pair. */
  lemma {:induction false} EncodesSnoc(t: seq<nat>, chain: seq<nat>, n: nat, s: nat)
    requires Encodes(t, chain) && 0 < n && (chain != [] ==> s != chain[|chain| - 1] + 1)
    ensures Encodes(t + [n, s], chain + Consecutive(s, n))
    decreases |t|
  {
    hide Encodes;
    FirstPair(t, chain);
    var c := chain + Consecutive(s, n);
    if t == [] {
      EmptyEncoding();
      assert c[n..] == [] && [n, s] + [] == t + [n, s];
      AddPair(n, s, [], c);
    } else {
      EncodesSnoc(t[2..], chain[t[0]..], n, s);
      assert c[t[0]..] == chain[t[0]..] + Consecutive(s, n);
      AddPair(t[0], t[1], t[2..] + [n, s], c);
      assert [t[0], t[1]] + (t[2..] + [n, s]) == t + [n, s];
    }
  }

  lemma EmptyEncoding()
    ensures Encodes([], [])
  {
  }

  lemma {:induction false} FragmentsGrow(chain: seq<nat>, m: nat)
    requires m <= |chain|
    ensures Fragments(chain[..m]) <= Fragments(chain)
    decreases |chain|
  {
    if m < |chain| {
      FragmentsGrow(chain[..|chain| - 1], m);
      assert chain[..|chain| - 1][..m] == chain[..m];
    } else {
      assert chain[..m] == chain;
    }
  }

  lemma OneMoreCluster(chain: seq<nat>, i: nat)
    requires i < |chain|
    ensures Fragments(chain[..i + 1]) == Fragments(chain[..i]) + if i > 0 && chain[i] == chain[i - 1] + 1 then 0 else 1
  {
    assert chain[..i + 1][..i] == chain[..i];
  }

  /** The clusters that pairs of length and first cluster stand for. */
  function Decoded(t: seq<nat>): seq<nat>
    decreases |t|
  {
    if |t| < 2 then [] else seq(t[0], j requires 0 <= j => t[1] + j) + Decoded(t[2..])
  }

  /** Pairs, none of them empty and none that continues the one before it. */
  predicate Pairs(t: seq<nat>)
    decreases |t|
  {
    t == [] || (|t| >= 2 && t[0] > 0 && (|t| >= 4 ==> t[3] != t[0] + t[1]) && Pairs(t[2..]))
  }

  /** An encoding is what decodes to the chain, in runs as long as they can be. */
  lemma {:induction false} EncodesByDecoding(t: seq<nat>, chain: seq<nat>)
    ensures Encodes(t, chain) <==> Pairs(t) && Decoded(t) == chain
    decreases |t|
  {
    if |t| >= 2 {
      var run := Consecutive(t[1], t[0]);
      assert Decoded(t) == run + Decoded(t[2..]);
      if t[0] <= |chain| {
        EncodesByDecoding(t[2..], chain[t[0]..]);
        assert chain == chain[..t[0]] + chain[t[0]..];
        FirstDecoded(t[2..]);
      }
    }
  }

  lemma FirstDecoded(t: seq<nat>)
    ensures Pairs(t) && t != [] ==> |t| >= 2 && |Decoded(t)| > 0 && Decoded(t)[0] == t[1]
    ensures t == [] ==> Decoded(t) == []
  {
  }

  /** A run starts at place i. */
  predicate Starts(chain: seq<nat>, i: nat) {
    i < |chain| && (i == 0 || chain[i] != chain[i - 1] + 1)
  }

  lemma LastStart(chain: seq<nat>, i: nat)
    requires chain != [] && i < |chain|
    ensures var n := |chain| - 1;
            && Fragments([]) == 0
            && Fragments(chain) == Fragments(chain[..n]) + (if Starts(chain, n) then 1 else 0)
            && (Starts(chain[..n], i) <==> i < n && Starts(chain, i))
  {
    if |chain| == 1 {
      assert chain[..0] == [];
    }
  }

  /** The number of maximal runs is that of the places where one starts. */
  lemma {:induction false} FragmentsAreStarts(chain: seq<nat>)
    ensures Fragments(chain) == |set i | 0 <= i < |chain| && Starts(chain, i)|
    decreases |chain|
  {
    hide Fragments, Starts;
    var s := set i | 0 <= i < |chain| && Starts(chain, i);
    if chain == [] {
      LastStart([0], 0);
      assert s == {};
    } else {
      var n := |chain| - 1;
      var c := chain[..n];
      FragmentsAreStarts(c);
      LastStart(chain, n);
      var s0 := set i | 0 <= i < |c| && Starts(c, i);
      forall i | 0 <= i < |chain| ensures i in s0 <==> i in s && i != n {
        LastStart(chain, i);
      }
      assert s == if n in s then s0 + {n} else s0;
    }
  }

  // ---------------------------------------------------------------- looking a cluster up

  /** The lookup of the fast seek: cluster number c of the file, if the map reaches that far. */
  method Lookup(tbl: array<nat>, c: nat, ghost chain: seq<nat>) returns (found: bool, clst: nat)
    requires LinkMap(tbl[..], chain)
    ensures found <==> c < |chain|
    ensures found ==> clst == chain[c]
  {
    hide Encodes, Fragments;
    var p, cl: nat := 1, c;
    ghost var a: nat, end: nat := 0, 2 * Fragments(chain) + 1;
    assert chain[0..] == chain && tbl[..][1..end] == tbl[1..end];
    while true
      invariant p <= end < tbl.Length && tbl[end] == 0 && a <= |chain| && cl == c - a
      invariant Encodes(tbl[p..end], chain[a..])
      decreases end - p
    {
      ghost var t, rest := tbl[p..end], chain[a..];
      FirstPair(t, rest);
      var ncl := tbl[p];
      p := p + 1;
      if ncl == 0 {
        return false, 0;
      }
      if cl < ncl {
        break;
      }
      cl := cl - ncl;
      p := p + 1;
      a := a + ncl;
      assert tbl[p..end] == t[2..] && chain[a..] == rest[t[0]..];
    }
    found, clst := true, cl + tbl[p];
  }

  // ---------------------------------------------------------------- making the map

  /** n clusters from number i on are s and its successors. */
  predicate RunFrom(chain: seq<nat>, i: nat, n: nat, s: nat) {
    i + n <= |chain| && forall j | i <= j < i + n :: chain[j] == s + (j - i)
  }

  lemma {:induction false} RunIsFragment(chain: seq<nat>, i: nat, n: nat)
    requires 0 < n && i + n <= |chain| && RunFrom(chain, i, n, chain[i])
    requires i > 0 ==> chain[i] != chain[i - 1] + 1
    ensures Fragments(chain[..i + n]) == Fragments(chain[..i]) + 1
    decreases n
  {
    OneMoreCluster(chain, i + n - 1);
    if n > 1 {
      RunIsFragment(chain, i, n - 1);
    }
  }

  lemma RunAppended(chain: seq<nat>, i: nat, n: nat, s: nat)
    requires RunFrom(chain, i, n, s)
    ensures chain[..i] + Consecutive(s, n) == chain[..i + n]
  {
  }

  /** The last cluster of the chain holds its own successor as the end mark. */
  predicate EndFollows(fat: seq<nat>, chain: seq<nat>)
    requires chain != [] ==> A.Chain(fat, chain)
  {
    chain != [] && fat[chain[|chain| - 1]] == chain[|chain| - 1] + 1
  }

  /** A table with one cluster whose end mark is the smallest possible: 3, the number behind the cluster. */
  lemma EndMayFollow()
    ensures A.Chain([0, 0, 3], [2]) && EndFollows([0, 0, 3], [2])
  {
  }

  /** The inner loop: the fragment from cluster number i on, and the link behind it. */
  method Fragment(fs: FATFS, top: nat, ghost chain: seq<nat>, ghost i: nat) returns (ok: bool, ncl: nat, cl: nat)
    requires fs.Valid() && A.Chain(fs.fat, chain) && |fs.fat| == fs.g.nFatent && i < |chain| && top == chain[i]
    modifies fs`winsect, fs`wflag, fs.win, fs.disk
    ensures fs.Valid()
    ensures ok ==> 0 < ncl && i + ncl <= |chain| && RunFrom(chain, i, ncl, top)
    ensures ok ==> if i + ncl < |chain| then cl == chain[i + ncl] && cl != chain[i + ncl - 1] + 1
                   else cl >= fs.g.nFatent && !EndFollows(fs.fat, chain)
    ensures !ok ==> EndFollows(fs.fat, chain) && RunFrom(chain, i, |chain| - i, top)
  {
    hide FATFS.Valid;
    ghost var last := chain[|chain| - 1];
    cl, ncl := top, 0;
    while true
      invariant fs.Valid() && RunFrom(chain, i, ncl, top) && cl == top + ncl
      invariant if i + ncl < |chain| then cl == chain[i + ncl] else fs.fat[last] == cl == last + 1
      decreases |chain| - ncl
    {
      assert i + ncl < |chain| ==> 2 <= chain[i + ncl] < fs.g.nFatent;
      assert i + ncl + 1 < |chain| ==> 2 <= chain[i + ncl + 1] == fs.fat[chain[i + ncl]];
      var pcl := cl;
      ncl := ncl + 1;
      cl := fs.GetFat(cl);
      if cl <= 1 {
        return false, ncl, cl;
      }
      if cl != pcl + 1 {
        return true, ncl, cl;
      }
    }
  }

  /** The pairs so far encode the first m clusters, up to a break in the chain. */
  predicate Built(items: seq<nat>, chain: seq<nat>, m: nat) {
    && m <= |chain| && Encodes(items, chain[..m]) && |items| == 2 * Fragments(chain[..m])
    && (0 < m < |chain| ==> chain[m] != chain[m - 1] + 1)
  }

  lemma BuiltNothing(chain: seq<nat>)
    ensures Built([], chain, 0)
  {
    assert chain[..0] == [];
  }

  /** Before the end at least one more fragment is to come. */
  lemma OneToCome(items: seq<nat>, chain: seq<nat>, m: nat)
    requires Built(items, chain, m) && m < |chain|
    ensures |items| + 2 <= 2 * Fragments(chain)
  {
    FragmentsGrow(chain, m + 1);
    OneMoreCluster(chain, m);
  }

  lemma BuiltNext(items: seq<nat>, chain: seq<nat>, m: nat, n: nat)
    requires Built(items, chain, m) && m < |chain| && 0 < n && RunFrom(chain, m, n, chain[m])
    requires m + n < |chain| ==> chain[m + n] != chain[m + n - 1] + 1
    ensures Built(items + [n, chain[m]], chain, m + n)
  {
    hide Encodes, Fragments;
    RunIsFragment(chain, m, n);
    EncodesSnoc(items, chain[..m], n, chain[m]);
    RunAppended(chain, m, n, chain[m]);
  }

  lemma BuiltAll(items: seq<nat>, chain: seq<nat>)
    requires Built(items, chain, |chain|)
    ensures |items| == 2 * Fragments(chain)
  {
    assert chain[..|chain|] == chain;
  }

  lemma BuiltMap(tbl: seq<nat>, pos: nat, chain: seq<nat>, m: nat)
    requires 1 <= pos < |tbl| && Built(tbl[1..pos], chain, m) && tbl[pos] == 0
    ensures LinkMap(tbl, chain[..m])
  {
    hide Encodes, Fragments;
  }

  /**
   f_lseek with CREATE_LINKMAP. It succeeds exactly when the table has room for the
   fragments and the end mark is not the successor of the last cluster; it never
   writes behind the declared size, if that is at least 2.
   */
  method CreateLinkMap(fs: FATFS, orgClust: nat, tbl: array<nat>, ghost chain: seq<nat>)
    returns (res: MapResult, ghost m: nat)
    requires fs.Valid() && |fs.fat| == fs.g.nFatent && 2 <= tbl.Length && tbl[0] <= tbl.Length
    requires if chain == [] then orgClust == 0 else A.Chain(fs.fat, chain) && chain[0] == orgClust
    modifies fs`winsect, fs`wflag, fs.win, fs.disk, tbl
    ensures fs.Valid() && tbl[0] == old(tbl[0])
    ensures forall j | 2 <= j < tbl.Length && tbl[0] <= j :: tbl[j] == old(tbl[j])
    ensures res == NotEnoughCore <==> chain != [] && tbl[0] < 2 * Fragments(chain) + 2
    ensures res == MapError <==> 2 * Fragments(chain) + 2 <= tbl[0] && EndFollows(fs.fat, chain)
    ensures res != MapError ==> m <= |chain| && LinkMap(tbl[..], chain[..m]) && (res == MapOk <==> m == |chain|)
  {
    hide Built, Fragments, LinkMap, RunFrom, FATFS.Valid;
    var pos: nat := 1;
    res, m := MapOk, 0;
    BuiltNothing(chain);
    EmptyChainMap(chain);
    assert tbl[1..1] == [];
    if orgClust != 0 {
      res, pos, m := FillMap(fs, orgClust, tbl, chain);
      if res == MapError {
        return;
      }
    }
    ghost var items := tbl[1..pos];
    tbl[pos] := 0;
    assert tbl[1..pos] == items && tbl[..][1..pos] == items;
    BuiltMap(tbl[..], pos, chain, m);
  }

  /** The outer loop: a pair for every fragment, as long as there is room for it and the terminator. */
  method FillMap(fs: FATFS, orgClust: nat, tbl: array<nat>, ghost chain: seq<nat>)
    returns (res: MapResult, pos: nat, ghost m: nat)
    requires fs.Valid() && |fs.fat| == fs.g.nFatent && 2 <= tbl.Length && tbl[0] <= tbl.Length
    requires A.Chain(fs.fat, chain) && chain[0] == orgClust
    modifies fs`winsect, fs`wflag, fs.win, fs.disk, tbl
    ensures fs.Valid() && tbl[0] == old(tbl[0])
    ensures forall j | 2 <= j < tbl.Length && tbl[0] <= j :: tbl[j] == old(tbl[j])
    ensures 1 <= pos < tbl.Length && (pos == 1 || pos < tbl[0])
    ensures res == NotEnoughCore <==> tbl[0] < 2 * Fragments(chain) + 2
    ensures res == MapError ==> EndFollows(fs.fat, chain)
    ensures res == MapOk ==> !EndFollows(fs.fat, chain)
    ensures res != MapError ==> Built(tbl[1..pos], chain, m) && m <= |chain| && (res == MapOk <==> m == |chain|)
  {
    hide Built, Fragments, RunFrom, EndFollows, FATFS.Valid;
    var tlen, cl := tbl[0], orgClust;
    pos, m := 1, 0;
    ghost var need := 2 * Fragments(chain) + 2;
    BuiltNothing(chain);
    assert tbl[1..1] == [];
    while true
      invariant fs.Valid() && tbl[0] == old(tbl[0]) && m < |chain| && cl == chain[m]
      invariant 1 <= pos < tbl.Length && tlen + pos - 1 == tbl[0] && (pos == 1 || pos < tbl[0])
                  && Built(tbl[1..pos], chain, m)
      invariant forall j | 2 <= j < tbl.Length && tbl[0] <= j :: tbl[j] == old(tbl[j])
      decreases |chain| - m
    {
      OneToCome(tbl[1..pos], chain, m);
      if tlen < 4 {
        return NotEnoughCore, pos, m;
      }
      var tcl := cl;
      var ok, ncl;
      ok, ncl, cl := Fragment(fs, tcl, chain, m);
      ghost var before := tbl[1..pos];
      if !ok {
        BuiltNext(before, chain, m, |chain| - m);
        BuiltAll(before + [|chain| - m, tcl], chain);
        return MapError, pos, m;
      }
      BuiltNext(before, chain, m, ncl);
      tbl[pos] := ncl;
      tbl[pos + 1] := tcl;
      assert tbl[1..pos] == before;
      assert tbl[1..pos + 2] == before + [ncl, tcl];
      pos, tlen, m := pos + 2, tlen - 2, m + ncl;
      if cl >= fs.g.nFatent {
        BuiltAll(tbl[1..pos], chain);
        return MapOk, pos, m;
      }
    }
  }

  lemma EmptyChainMap(chain: seq<nat>)
    ensures chain == [] ==> Fragments(chain) == 0
  {
  }

  // ---------------------------------------------------------------- the seek

  /** What the fast seek needs to know of a position inside the file. */
  lemma Position(fp: FIL, ofs: nat)
    requires fp.Ok() && fp.Limits() && 0 < ofs <= fp.fsize
    ensures fp.fs.g.csize > 0 && Clusters(fp.fs.g, fp.chain) && |fp.fs.fat| == fp.fs.g.nFatent
    ensures (ofs - 1) / 512 < |fp.Sects()| && ClusterOf(fp.fs.g, (ofs - 1) / 512) < |fp.chain|
    ensures fp.Sects()[(ofs - 1) / 512]
              == Clust2Sect(fp.fs.g, fp.chain[ClusterOf(fp.fs.g, (ofs - 1) / 512)])
                 + BitAnd((ofs - 1) / 512, fp.fs.g.csize - 1)
    ensures ofs % 512 != 0 ==> (ofs - 1) / 512 == ofs / 512
  {
    fp.Facts();
    hide FIL.Ok, FATFS.Valid;
    SectorOfIndex(fp.fs.g, fp.chain, (ofs - 1) / 512);
    MaskIsOffset(fp.fs.g, (ofs - 1) / 512);
  }

  /**
   f_lseek with a link map, one of the first m clusters. It leaves the file as
   the walk along the FAT would, or fails when the map does not reach the target.
   */
  method Seek(fp: FIL, tbl: array<nat>, target: nat, ghost m: nat) returns (res: FResult)
    requires fp.Valid() && !fp.error && m <= |fp.chain| && LinkMap(tbl[..], fp.chain[..m])
    modifies fp`fptr, fp`currClust, fp`dirty, fp`dsect, fp`error, fp.buf, fp.fs`img, fp.fs.disk
    ensures fp.fptr == if target > fp.fsize then fp.fsize else target
    ensures fp.fs.g.csize > 0 && (res == OK <==> fp.fptr == 0 || ClusterOf(fp.fs.g, (fp.fptr - 1) / 512) < m)
    ensures if res == OK then !fp.error && fp.Valid() && fp.Content() == old(fp.Content())
            else res == INT_ERR && fp.error
  {
    hide LinkMap, FIL.Ok, FATFS.Valid, SectorsOf, BitAnd, OffsetIn, Clust2Sect;
    var ofs := target;
    if ofs > fp.fsize {
      ofs := fp.fsize;
    }
    fp.fptr := ofs;
    if ofs == 0 {
      return OK;
    }
    Position(fp, ofs);
    var dsc := (ofs - 1) / 512;
    var found, clst := Lookup(tbl, dsc / fp.fs.g.csize, fp.chain[..m]);
    if !found {
      fp.error := true;
      return INT_ERR;
    }
    EnterCluster(fp, clst);
    res := OK;
  }

  /** The rest of it: the cluster, and the sector of the pointer in the buffer. */
  method EnterCluster(fp: FIL, clst: nat)
    requires fp.Ok() && fp.Limits() && 0 < fp.fptr <= fp.fsize < TWO_TO_32 && fp.fs.g.csize > 0
    requires ClusterOf(fp.fs.g, (fp.fptr - 1) / 512) < |fp.chain|
               && clst == fp.chain[ClusterOf(fp.fs.g, (fp.fptr - 1) / 512)]
    modifies fp`currClust, fp`dirty, fp`dsect, fp.buf, fp.fs`img, fp.fs.disk
    ensures fp.Valid() && fp.Content() == old(fp.Content())
  {
    hide FIL.Ok, FIL.Content, FATFS.Valid, SectorsOf, BitAnd, OffsetIn, Clust2Sect, ClusterOf;
    Position(fp, fp.fptr);
    fp.currClust := clst;
    var dsc := (fp.fptr - 1) / 512;
    var csc := BitAnd(dsc, fp.fs.g.csize - 1);
    dsc := Clust2Sect(fp.fs.g, fp.currClust);
    dsc := dsc + csc;
    fp.SettleBuffer(dsc);
  }
}
