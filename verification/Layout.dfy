/**
 Where the data of a cluster chain lies: the list of its sectors in file order,
 and the bytes of a file seen through its one-sector buffer.
 */
module Layout {
  import opened Bits
  import opened BlockDevice
  import opened Volume
  import A = Allocator

  /** n consecutive sectors from s. */
  function Consecutive(s: nat, n: nat): (r: seq<nat>)
    ensures |r| == n && forall i | 0 <= i < n :: r[i] == s + i
  {
    seq(n, i requires 0 <= i < n => s + i)
  }

  /** The sectors of a chain in order. */
  function SectorsOf(g: Geometry, chain: seq<nat>): seq<nat> {
    if chain == [] then []
    else SectorsOf(g, chain[..|chain| - 1]) + Consecutive(Clust2Sect(g, chain[|chain| - 1]), g.csize)
  }

  /** The place of sector number k of a file in its chain. */
  function ClusterOf(g: Geometry, k: nat): nat
    requires g.csize > 0
  {
    k / g.csize
  }

  function OffsetIn(g: Geometry, k: nat): nat
    requires g.csize > 0
  {
    k % g.csize
  }

  predicate Clusters(g: Geometry, chain: seq<nat>) {
    forall i | 0 <= i < |chain| :: 2 <= chain[i] < g.nFatent
  }

  // ---------------------------------------------------------------- clusters

  /** Distinct clusters lie apart, inside the volume and behind the FAT copies. */
  lemma ClustersApart(g: Geometry, total: nat, c: nat, d: nat)
    requires GeometryOk(g, total) && 2 <= c < g.nFatent && 2 <= d < g.nFatent && c != d
    ensures FatEnd(g) <= g.database <= Clust2Sect(g, c) && Clust2Sect(g, c) + g.csize <= total
    ensures Clust2Sect(g, c) + g.csize <= Clust2Sect(g, d) || Clust2Sect(g, d) + g.csize <= Clust2Sect(g, c)
  {
    SectorsGrow(c - 2, g.nFatent - 2, g.csize);
    if c < d {
      SectorsGrow(c - 2, d - 2, g.csize);
    } else {
      SectorsGrow(d - 2, c - 2, g.csize);
    }
  }

  /** Where a cluster lies: cluster 2 at the start of the data, the others behind it in order. */
  lemma ClusterPlace(g: Geometry, c: nat)
    requires 2 <= c < g.nFatent
    ensures Clust2Sect(g, c) == g.database + (c - 2) * g.csize
    ensures Clust2Sect(g, 2) == g.database
    ensures c + 1 < g.nFatent ==> Clust2Sect(g, c + 1) == Clust2Sect(g, c) + g.csize
  {
    SectorsIsProduct(c - 2, g.csize);
  }

  // ---------------------------------------------------------------- sectors of a chain

  lemma {:induction false} SectorsOfLength(g: Geometry, chain: seq<nat>)
    ensures |SectorsOf(g, chain)| == Sectors(|chain|, g.csize)
  {
    if chain != [] {
      SectorsOfLength(g, chain[..|chain| - 1]);
    }
  }

  lemma SectorsOfExtend(g: Geometry, chain: seq<nat>, c: nat)
    ensures SectorsOf(g, chain + [c]) == SectorsOf(g, chain) + Consecutive(Clust2Sect(g, c), g.csize)
  {
    assert (chain + [c])[..|chain|] == chain;
  }

  /** The sectors of a head of a chain head the list of its sectors. */
  lemma {:induction false} SectorsOfPrefix(g: Geometry, chain: seq<nat>, m: nat)
    requires m <= |chain|
    ensures SectorsOf(g, chain[..m]) <= SectorsOf(g, chain)
  {
    if m < |chain| {
      SectorsOfPrefix(g, chain[..|chain| - 1], m);
      assert chain[..|chain| - 1][..m] == chain[..m];
    } else {
      assert chain[..m] == chain;
    }
  }

  lemma {:induction false} SectorAt(g: Geometry, chain: seq<nat>, i: nat, r: nat)
    requires i < |chain| && r < g.csize
    ensures Sectors(i, g.csize) + r < |SectorsOf(g, chain)|
    ensures SectorsOf(g, chain)[Sectors(i, g.csize) + r] == Clust2Sect(g, chain[i]) + r
  {
    var init := chain[..|chain| - 1];
    SectorsOfLength(g, init);
    if i < |init| {
      SectorAt(g, init, i, r);
    }
  }

  /** Sector number k of the file is sector k % csize of cluster k / csize of the chain. */
  lemma SectorOfIndex(g: Geometry, chain: seq<nat>, k: nat)
    requires g.csize > 0 && k < |SectorsOf(g, chain)|
    ensures ClusterOf(g, k) < |chain| && OffsetIn(g, k) < g.csize
    ensures k == Sectors(ClusterOf(g, k), g.csize) + OffsetIn(g, k)
    ensures SectorsOf(g, chain)[k] == Clust2Sect(g, chain[ClusterOf(g, k)]) + OffsetIn(g, k)
  {
    IndexSplit(g, k);
    SectorsOfLength(g, chain);
    var i := ClusterOf(g, k);
    if i >= |chain| {
      if i > |chain| { SectorsGrow(|chain|, i, g.csize); }
      assert false;
    }
    SectorAt(g, chain, i, OffsetIn(g, k));
  }

  /** Where sector number k of a file lies on the device. */
  lemma SectorPlace(g: Geometry, chain: seq<nat>, k: nat)
    requires g.csize > 0 && Clusters(g, chain) && k < |SectorsOf(g, chain)|
    ensures |SectorsOf(g, chain)| == |chain| * g.csize && k / g.csize < |chain|
    ensures SectorsOf(g, chain)[k] == g.database + (chain[k / g.csize] - 2) * g.csize + k % g.csize
  {
    SectorOfIndex(g, chain, k);
    ClusterPlace(g, chain[ClusterOf(g, k)]);
    SectorsOfLength(g, chain);
    SectorsIsProduct(|chain|, g.csize);
  }

  /** Which bytes a cleared cluster changes. */
  lemma ClusterCleared(g: Geometry, img: seq<Sector>, c: nat, s: nat, j: nat)
    requires 2 <= c < g.nFatent && s < |img| && j < 512
    ensures var first := g.database + (c - 2) * g.csize;
            ZeroRun(img, Clust2Sect(g, c), g.csize)[s][j] == if first <= s < first + g.csize then 0 else img[s][j]
  {
    hide Clust2Sect;
    ClusterPlace(g, c);
  }

  lemma IndexSplit(g: Geometry, k: nat)
    requires g.csize > 0
    ensures k == Sectors(ClusterOf(g, k), g.csize) + OffsetIn(g, k) && OffsetIn(g, k) < g.csize
  {
    SectorsIsProduct(k / g.csize, g.csize);
  }

  /** The only way to write k as a cluster number and an offset. */
  lemma IndexUnique(g: Geometry, i: nat, r: nat)
    requires r < g.csize
    ensures ClusterOf(g, Sectors(i, g.csize) + r) == i && OffsetIn(g, Sectors(i, g.csize) + r) == r
  {
    SectorsIsProduct(i, g.csize);
    ModUnique(Sectors(i, g.csize) + r, g.csize, i, r);
  }

  /** Inside a cluster the sectors of a file follow each other on the device. */
  lemma SectorRun(g: Geometry, chain: seq<nat>, k: nat, j: nat)
    requires g.csize > 0 && k < |SectorsOf(g, chain)| && OffsetIn(g, k) + j < g.csize
    ensures k + j < |SectorsOf(g, chain)| && SectorsOf(g, chain)[k + j] == SectorsOf(g, chain)[k] + j
    ensures ClusterOf(g, k + j) == ClusterOf(g, k) && OffsetIn(g, k + j) == OffsetIn(g, k) + j
  {
    SectorOfIndex(g, chain, k);
    SectorAt(g, chain, ClusterOf(g, k), OffsetIn(g, k) + j);
    IndexUnique(g, ClusterOf(g, k), OffsetIn(g, k) + j);
  }

  /** All sectors of a chain are data sectors of the volume. */
  lemma SectorInRange(g: Geometry, total: nat, chain: seq<nat>, k: nat)
    requires GeometryOk(g, total) && Clusters(g, chain) && k < |SectorsOf(g, chain)|
    ensures g.database <= SectorsOf(g, chain)[k] < total
  {
    SectorOfIndex(g, chain, k);
    var c := chain[ClusterOf(g, k)];
    SectorsGrow(c - 2, g.nFatent - 2, g.csize);
  }

  /** Two places of two chains without a common cluster, or two places of one chain, are different sectors. */
  lemma SectorsApart(g: Geometry, total: nat, a: seq<nat>, b: seq<nat>, k: nat, l: nat)
    requires GeometryOk(g, total) && Clusters(g, a) && Clusters(g, b)
    requires k < |SectorsOf(g, a)| && l < |SectorsOf(g, b)|
    requires ClusterOf(g, k) < |a| && ClusterOf(g, l) < |b| ==> a[ClusterOf(g, k)] != b[ClusterOf(g, l)]
    ensures SectorsOf(g, a)[k] != SectorsOf(g, b)[l]
  {
    SectorOfIndex(g, a, k);
    SectorOfIndex(g, b, l);
    ClustersApart(g, total, a[ClusterOf(g, k)], b[ClusterOf(g, l)]);
  }

  lemma SectorsDistinct(g: Geometry, total: nat, chain: seq<nat>)
    requires GeometryOk(g, total) && Clusters(g, chain) && A.Distinct(chain)
    ensures A.Distinct(SectorsOf(g, chain))
  {
    forall k, l | 0 <= k < l < |SectorsOf(g, chain)|
      ensures SectorsOf(g, chain)[k] != SectorsOf(g, chain)[l]
    {
      SectorOfIndex(g, chain, k);
      SectorOfIndex(g, chain, l);
      if ClusterOf(g, k) != ClusterOf(g, l) {
        SectorsApart(g, total, chain, chain, k, l);
      }
    }
  }

  lemma SectorsDisjoint(g: Geometry, total: nat, a: seq<nat>, b: seq<nat>)
    requires GeometryOk(g, total) && Clusters(g, a) && Clusters(g, b) && A.Disjoint(a, b)
    ensures A.Disjoint(SectorsOf(g, a), SectorsOf(g, b))
  {
    assert g.csize > 0;
    hide GeometryOk, Clusters, ClusterOf, OffsetIn, SectorsOf, Clust2Sect;
    forall s | s in SectorsOf(g, a) ensures s !in SectorsOf(g, b) {
      var k :| 0 <= k < |SectorsOf(g, a)| && SectorsOf(g, a)[k] == s;
      forall l | 0 <= l < |SectorsOf(g, b)| ensures SectorsOf(g, b)[l] != s {
        SectorOfIndex(g, a, k);
        assert a[ClusterOf(g, k)] in a;
        SectorsApart(g, total, a, b, k, l);
      }
    }
  }

  /** At a cluster boundary of the file the cluster before it and the one at it are neighbours in the chain. */
  lemma Boundary(g: Geometry, chain: seq<nat>, k: nat)
    requires g.csize > 0 && 0 < k <= |SectorsOf(g, chain)| && OffsetIn(g, k) == 0
    ensures ClusterOf(g, k - 1) + 1 == ClusterOf(g, k) <= |chain|
    ensures ClusterOf(g, k) < |chain| <==> k < |SectorsOf(g, chain)|
  {
    SectorOfIndex(g, chain, k - 1);
    IndexSplit(g, k);
    var i := ClusterOf(g, k);
    assert i > 0;
    assert Sectors(i, g.csize) == Sectors(i - 1, g.csize) + g.csize;
    IndexUnique(g, i - 1, g.csize - 1);
    if k < |SectorsOf(g, chain)| {
      SectorOfIndex(g, chain, k);
    }
    SectorsOfLength(g, chain);
    if i < |chain| {
      SectorsGrow(i, |chain|, g.csize);
    }
  }

  /** Away from a boundary the sector belongs to the cluster of the sector before it. */
  lemma SameCluster(g: Geometry, k: nat)
    requires g.csize > 0 && k > 0 && OffsetIn(g, k) != 0
    ensures ClusterOf(g, k - 1) == ClusterOf(g, k) && OffsetIn(g, k - 1) == OffsetIn(g, k) - 1
  {
    IndexSplit(g, k);
    IndexUnique(g, ClusterOf(g, k), OffsetIn(g, k) - 1);
  }

  /** A place inside a cluster of the file is a place of the file. */
  lemma MidCluster(g: Geometry, chain: seq<nat>, k: nat)
    requires g.csize > 0 && 0 < k <= |SectorsOf(g, chain)| && OffsetIn(g, k) != 0
    ensures k < |SectorsOf(g, chain)| && ClusterOf(g, k - 1) == ClusterOf(g, k) < |chain|
  {
    SameCluster(g, k);
    IndexSplit(g, k);
    SectorRun(g, chain, k - 1, 1);
    SectorOfIndex(g, chain, k);
  }

  lemma FirstSector(g: Geometry, chain: seq<nat>)
    requires g.csize > 0
    ensures ClusterOf(g, 0) == 0
    ensures chain != [] <==> |SectorsOf(g, chain)| > 0
  {
    if chain != [] {
      SectorAt(g, chain, 0, 0);
    }
  }

  /** The unsigned comparison `dsect - sect < cc` asks whether dsect lies in a run of sectors. */
  lemma UnsignedInRun(dsect: nat, sect: nat, cc: nat)
    requires dsect < TWO_TO_32 && sect + cc <= TWO_TO_32
    ensures Wrap32(dsect - sect) < cc <==> sect <= dsect < sect + cc
  {
    if dsect >= sect {
      assert Wrap32(dsect - sect) == dsect - sect;
    } else {
      assert Wrap32(dsect - sect) == dsect - sect + TWO_TO_32;
    }
  }

  /** The mask `k & (csize - 1)` takes the sector offset in the cluster. */
  lemma MaskIsOffset(g: Geometry, k: nat)
    requires IsPow2(g.csize)
    ensures g.csize > 0 && BitAnd(k, g.csize - 1) == OffsetIn(g, k)
  {
    MaskIsMod(k, g.csize);
  }

  // ---------------------------------------------------------------- byte positions

  /** A byte position by its cluster: one division by the cluster size or two. */
  lemma ClusterOfByte(g: Geometry, p: nat)
    requires g.csize > 0
    ensures p / (g.csize * 512) == ClusterOf(g, p / 512)
    ensures p % (g.csize * 512) == p % 512 + 512 * OffsetIn(g, p / 512)
    ensures p == 512 * Sectors(ClusterOf(g, p / 512), g.csize) + p % (g.csize * 512)
  {
    var i, r := ClusterOf(g, p / 512), OffsetIn(g, p / 512);
    IndexSplit(g, p / 512);
    SectorsIsProduct(i, g.csize);
    ByteSplit(p, i, g.csize, r);
    ModUnique(p, g.csize * 512, i, p % 512 + 512 * r);
  }

  lemma ByteSplit(p: nat, i: nat, c: nat, r: nat)
    requires p / 512 == i * c + r && r < c
    ensures p == i * (c * 512) + (p % 512 + 512 * r) && p % 512 + 512 * r < c * 512
  {
    assert i * (c * 512) == 512 * (i * c);
  }

  /** The rounding `p & ~(bcs - 1)` gives the first byte of the cluster. */
  lemma AlignDown(g: Geometry, p: nat)
    requires IsPow2(g.csize)
    ensures g.csize > 0 && BitClear(p, g.csize * 512 - 1) == 512 * Sectors(ClusterOf(g, p / 512), g.csize) <= p
  {
    ClusterBytesIsPow2(g.csize);
    MaskIsMod(p, 512 * g.csize);
    ClusterOfByte(g, p);
  }

  /**
   The start of the cluster of byte a, computed with the mask, is no later than a byte b of that cluster or a
   later one.
  */
  lemma StartOfCluster(g: Geometry, a: nat, b: nat)
    requires IsPow2(g.csize) && g.csize > 0 && b / (g.csize * 512) >= a / (g.csize * 512)
    ensures g.csize * 512 - 1 >= 0
    ensures BitClear(a, g.csize * 512 - 1) == 512 * Sectors(ClusterOf(g, a / 512), g.csize)
    ensures 512 * Sectors(ClusterOf(g, a / 512), g.csize) <= a && 512 * Sectors(ClusterOf(g, a / 512), g.csize) <= b
  {
    hide IsPow2, BitClear, ClusterOf, OffsetIn, Sectors;
    AlignDown(g, a);
    ClusterOfByte(g, a);
    ClusterOfByte(g, b);
    ClusterOfMonotone(g, a, b);
  }

  /** A later byte lies in a later cluster or the same. */
  lemma ClusterOfMonotone(g: Geometry, a: nat, b: nat)
    requires g.csize > 0 && ClusterOf(g, a / 512) <= ClusterOf(g, b / 512)
    ensures 512 * Sectors(ClusterOf(g, a / 512), g.csize) <= b
  {
    ClusterOfByte(g, b);
    var i, j := ClusterOf(g, a / 512), ClusterOf(g, b / 512);
    if i < j {
      SectorsGrow(i, j, g.csize);
    }
  }

  /** Byte number ofs, counted from 1, of cluster j of the file. */
  lemma ByteInCluster(g: Geometry, chain: seq<nat>, j: nat, ofs: nat)
    requires g.csize > 0 && j < |chain| && 0 < ofs <= 512 * g.csize
    ensures var p := 512 * Sectors(j, g.csize) + ofs;
            && p <= 512 * |SectorsOf(g, chain)|
            && ClusterOf(g, (p - 1) / 512) == j && p % 512 == ofs % 512
            && (ofs % 512 != 0 ==> p / 512 < |SectorsOf(g, chain)|
                                   && SectorsOf(g, chain)[p / 512] == Clust2Sect(g, chain[j]) + ofs / 512)
  {
    hide Sectors, SectorsOf, ClusterOf, OffsetIn, Clust2Sect;
    SectorAt(g, chain, j, g.csize - 1);
    IndexUnique(g, j, (ofs - 1) / 512);
    SectorNumber(Sectors(j, g.csize), ofs - 1);
    SectorNumber(Sectors(j, g.csize), ofs);
    if ofs % 512 != 0 {
      SectorAt(g, chain, j, ofs / 512);
    }
  }

  lemma SectorNumber(s: nat, ofs: nat)
    ensures (512 * s + ofs) / 512 == s + ofs / 512
  {
  }

  /** A chain that holds a byte behind cluster j has a further cluster. */
  lemma MoreClusters(g: Geometry, chain: seq<nat>, j: nat, ofs: nat)
    requires j < |chain| && 512 * g.csize < ofs
    requires 512 * Sectors(j, g.csize) + ofs <= 512 * |SectorsOf(g, chain)|
    ensures j + 1 < |chain|
  {
    SectorsOfLength(g, chain);
    assert Sectors(j + 1, g.csize) == Sectors(j, g.csize) + g.csize;
  }

  // ---------------------------------------------------------------- what a call may change

  /**
   A call turned the cluster list list0 of its file or directory into list1: in the table it changed
   these entries only, and outside the FAT copies these sectors only.
   */
  ghost predicate Changes(g: Geometry, fat0: seq<nat>, img0: seq<Sector>, list0: seq<nat>,
                          fat1: seq<nat>, img1: seq<Sector>, list1: seq<nat>, sects: seq<nat>)
  {
    && A.Replaces(fat0, list0, fat1, list1) && |img1| == |img0|
    && forall s | 0 <= s < |img0| && (s < g.fatbase || FatEnd(g) <= s) && s !in sects :: img1[s] == img0[s]
  }
}
