/**
 The open file: f_read, f_write, f_lseek and f_truncate over the window, the
 allocator and one dirty sector buffer.
 */
module File {
  import opened Bits
  import opened BlockDevice
  import opened Volume
  import opened Layout
  import opened FileBytes
  import opened FatTable
  import A = Allocator

  datatype Alloc = Got | Full | Bad

  datatype FResult = OK | INT_ERR | DENIED

  /** What a file operation may change: its own chain, free clusters it adds to it, and their sectors. */
  ghost predicate OnlyOwn(g: Geometry, fat0: seq<nat>, img0: seq<Sector>, chain0: seq<nat>,
                          fat1: seq<nat>, img1: seq<Sector>, chain1: seq<nat>)
  {
    && A.Grows(fat0, chain0, fat1, chain1) && |img1| == |img0|
    && (forall s | 0 <= s < |img0| && (s < g.fatbase || FatEnd(g) <= s) && s !in SectorsOf(g, chain1) ::
      img1[s] == img0[s])
  }

  lemma OnlyOwnTrans(g: Geometry, fat0: seq<nat>, img0: seq<Sector>, chain0: seq<nat>,
                     fat1: seq<nat>, img1: seq<Sector>, chain1: seq<nat>,
                     fat2: seq<nat>, img2: seq<Sector>, chain2: seq<nat>)
    requires OnlyOwn(g, fat0, img0, chain0, fat1, img1, chain1)
    requires OnlyOwn(g, fat1, img1, chain1, fat2, img2, chain2)
    ensures OnlyOwn(g, fat0, img0, chain0, fat2, img2, chain2)
  {
    assert chain1 == chain2[..|chain1|];
    SectorsOfPrefix(g, chain2, |chain1|);
    forall c | c in chain2 && c !in chain0 ensures A.IsCluster(fat0, c) && fat0[c] == 0 {
      assert c in chain1 || fat1[c] == fat0[c];
    }
  }

  lemma SectorOwned(g: Geometry, total: nat, chain: seq<nat>, s: nat)
    requires GeometryOk(g, total) && Clusters(g, chain) && s in SectorsOf(g, chain)
    ensures g.database <= s < total
  {
    var k :| 0 <= k < |SectorsOf(g, chain)| && SectorsOf(g, chain)[k] == s;
    SectorInRange(g, total, chain, k);
  }

  /** A write to a sector of the file changes nothing of others. */
  lemma OwnWrite(g: Geometry, fat: seq<nat>, img: seq<Sector>, chain: seq<nat>, s: nat, data: Sector)
    requires s in SectorsOf(g, chain) && s < |img|
    ensures OnlyOwn(g, fat, img, chain, fat, img[s := data], chain)
    ensures InImage(img, SectorsOf(g, chain)) ==> InImage(img[s := data], SectorsOf(g, chain))
  {
  }

  /** The file after the allocator gave it cluster r: nothing of its bytes or of others has changed. */
  lemma Grown(g: Geometry, total: nat, fat0: seq<nat>, img0: seq<Sector>, chain: seq<nat>, r: nat,
              fat1: seq<nat>, img1: seq<Sector>)
    requires GeometryOk(g, total) && |img0| == total && 2 <= r < g.nFatent == |fat0| && Clusters(g, chain)
    requires A.IsCluster(fat0, r) && fat0[r] == 0 && |fat1| == |fat0| && SameOutsideFat(img0, img1, g)
    requires forall c: nat | A.IsCluster(fat0, c) && c !in chain && c != r :: fat1[c] == fat0[c]
    requires forall c: nat | A.IsCluster(fat0, c) && fat1[c] == 1 :: fat0[c] == 1
    ensures OnlyOwn(g, fat0, img0, chain, fat1, img1, chain + [r])
    ensures SectorsOf(g, chain) <= SectorsOf(g, chain + [r])
    ensures |SectorsOf(g, chain + [r])| == |SectorsOf(g, chain)| + g.csize
    ensures InImage(img1, SectorsOf(g, chain + [r]))
    ensures forall s | s in SectorsOf(g, chain + [r]) :: g.database <= s
    ensures g.fatbase + g.fsize <= FatEnd(g) <= g.database && forall s | g.database <= s < |img0| :: img1[s] == img0[s]
  {
    SectorsOfExtend(g, chain, r);
    assert Clusters(g, chain + [r]);
    forall k | 0 <= k < |SectorsOf(g, chain + [r])|
      ensures g.database <= SectorsOf(g, chain + [r])[k] < |img1|
    {
      SectorInRange(g, total, chain + [r], k);
    }
  }

  /** The same for a call that left the table as it was. */
  lemma Kept(g: Geometry, total: nat, fat: seq<nat>, img0: seq<Sector>, chain: seq<nat>, img1: seq<Sector>)
    requires GeometryOk(g, total) && |img0| == total && Clusters(g, chain) && SameOutsideFat(img0, img1, g)
    ensures OnlyOwn(g, fat, img0, chain, fat, img1, chain)
    ensures InImage(img1, SectorsOf(g, chain))
    ensures forall s | s in SectorsOf(g, chain) :: g.database <= s
    ensures g.fatbase + g.fsize <= FatEnd(g) <= g.database && forall s | g.database <= s < |img0| :: img1[s] == img0[s]
  {
    forall k | 0 <= k < |SectorsOf(g, chain)|
      ensures g.database <= SectorsOf(g, chain)[k] < |img1|
    {
      SectorInRange(g, total, chain, k);
    }
  }

  /** The bytes of the file, seen through the grown chain and the changed table. */
  lemma GrownBytes(g: Geometry, img0: seq<Sector>, img1: seq<Sector>, sects0: seq<nat>, sects1: seq<nat>,
                   dirty: bool, dsect: nat, buf: Sector, n: nat)
    requires Shown(img0, sects0, n) && InImage(img1, sects1) && sects0 <= sects1 && SameOutsideFat(img0, img1, g)
    requires FatEnd(g) <= g.database && forall s | s in sects1 :: g.database <= s
    ensures Shown(img1, sects1, n)
    ensures Bytes(img1, sects1, dirty, dsect, buf, n) == Bytes(img0, sects0, dirty, dsect, buf, n)
  {
    forall k | 0 <= k < |sects0| ensures img1[sects0[k]] == img0[sects0[k]] {
      assert sects1[k] == sects0[k] && sects1[k] in sects1;
    }
    FrameKeepsBytes(img0, img1, sects0, dirty, dsect, buf, n);
    GrowKeepsBytes(img1, sects0, sects1, dirty, dsect, buf, n);
  }

  lemma SpliceNothing(c: seq<byte>, p: nat)
    requires p <= |c|
    ensures Splice(c, p, []) == c
  {
  }

  lemma FirstOffset(g: Geometry)
    requires g.csize > 0
    ensures OffsetIn(g, 0) == 0
  {
  }

  lemma OwnSector(img: seq<Sector>, sects: seq<nat>, s: nat)
    requires InImage(img, sects) && s in sects
    ensures s < |img|
  {
  }

  /** The sectors of a run inside one cluster, as a run of the file and of the device. */
  lemma RunInCluster(g: Geometry, total: nat, chain: seq<nat>, k: nat, cc: nat)
    requires GeometryOk(g, total) && Clusters(g, chain) && k < |SectorsOf(g, chain)|
    requires 0 < cc && OffsetIn(g, k) + cc <= g.csize
    ensures RunAt(SectorsOf(g, chain), k, cc)
    ensures g.database <= SectorsOf(g, chain)[k] && SectorsOf(g, chain)[k] + cc <= total
    ensures ClusterOf(g, k + cc - 1) == ClusterOf(g, k)
    ensures forall s | SectorsOf(g, chain)[k] <= s < SectorsOf(g, chain)[k] + cc :: s in SectorsOf(g, chain)
  {
    var sects := SectorsOf(g, chain);
    SectorRun(g, chain, k, cc - 1);
    forall l | k <= l < k + cc ensures sects[l] == sects[k] + (l - k) {
      SectorRun(g, chain, k, l - k);
    }
    SectorInRange(g, total, chain, k);
    SectorInRange(g, total, chain, k + cc - 1);
    forall s | sects[k] <= s < sects[k] + cc ensures s in sects {
      RunHas(sects, k, cc, s);
    }
  }

  /** A write to a run of sectors of the file changes nothing of others. */
  lemma OwnWriteRun(g: Geometry, fat: seq<nat>, img: seq<Sector>, chain: seq<nat>, s: nat, data: seq<byte>, cc: nat)
    requires s + cc <= |img| && |data| == 512 * cc
    requires forall t | s <= t < s + cc :: t in SectorsOf(g, chain)
    ensures OnlyOwn(g, fat, img, chain, fat, Overwrite(img, s, data, cc), chain)
    ensures InImage(img, SectorsOf(g, chain)) ==> InImage(Overwrite(img, s, data, cc), SectorsOf(g, chain))
  {
  }

  lemma Nothing(g: Geometry, fat: seq<nat>, img: seq<Sector>, chain: seq<nat>)
    ensures OnlyOwn(g, fat, img, chain, fat, img, chain)
  {
  }

  /** A chain apart from a file's own is untouched, in the table and in its sectors. */
  lemma OtherKept(g: Geometry, fat0: seq<nat>, img0: seq<Sector>, chain0: seq<nat>,
                  fat1: seq<nat>, img1: seq<Sector>, chain1: seq<nat>, other: seq<nat>)
    requires OnlyOwn(g, fat0, img0, chain0, fat1, img1, chain1)
    requires GeometryOk(g, |img0|) && |fat0| == g.nFatent && Clusters(g, chain1)
    requires (other == [] || A.Chain(fat0, other)) && A.Disjoint(chain0, other)
    ensures |img1| == |img0| && (other == [] || A.Chain(fat1, other)) && A.Disjoint(chain1, other)
    ensures forall s | s in SectorsOf(g, other) :: g.database <= s < |img0| && img1[s] == img0[s]
    ensures InImage(img0, SectorsOf(g, other)) ==> InImage(img1, SectorsOf(g, other))
    ensures forall k | 0 <= k < |SectorsOf(g, other)| ::
              SectorsOf(g, other)[k] < |img0| && img1[SectorsOf(g, other)[k]] == img0[SectorsOf(g, other)[k]]
  {
    if other != [] {
      forall c | c in other ensures c !in chain1 && c < |fat0| && fat1[c] == fat0[c] {
        A.EntryOfChain(fat0, other, c);
      }
      A.ChainFrame(fat0, fat1, other);
    }
    OtherSectorsKept(g, img0, chain1, other, img1);
    forall k | 0 <= k < |SectorsOf(g, other)| ensures SectorsOf(g, other)[k] in SectorsOf(g, other) { }
  }

  lemma OtherSectorsKept(g: Geometry, img0: seq<Sector>, chain1: seq<nat>, other: seq<nat>, img1: seq<Sector>)
    requires GeometryOk(g, |img0|) && |img1| == |img0| && Clusters(g, chain1) && Clusters(g, other)
               && A.Disjoint(chain1, other)
    requires forall s | FatEnd(g) <= s < |img0| && s !in SectorsOf(g, chain1) :: img1[s] == img0[s]
    ensures forall s | s in SectorsOf(g, other) :: g.database <= s < |img0| && img1[s] == img0[s]
  {
    hide SectorsOf, Clusters, GeometryOk;
    GeometryFacts(g, |img0|);
    SectorsDisjoint(g, |img0|, chain1, other);
    forall s | s in SectorsOf(g, other) ensures g.database <= s < |img0| && s !in SectorsOf(g, chain1) {
      SectorOwned(g, |img0|, other, s);
    }
  }

  lemma GeometryFacts(g: Geometry, total: nat)
    requires GeometryOk(g, total)
    ensures g.fatbase + g.fsize <= FatEnd(g) <= g.database
  {
  }

  lemma OwnClusters(g: Geometry, fat0: seq<nat>, img0: seq<Sector>, chain0: seq<nat>,
                    fat1: seq<nat>, img1: seq<Sector>, chain1: seq<nat>)
    requires OnlyOwn(g, fat0, img0, chain0, fat1, img1, chain1) && |fat0| == g.nFatent && Clusters(g, chain0)
    ensures Clusters(g, chain1)
  {
    forall i | 0 <= i < |chain1| ensures 2 <= chain1[i] < g.nFatent {
      assert chain1[i] in chain1;
    }
  }

  class FIL {
    const fs: FATFS
    const buf: array<byte>       // one-sector data buffer
    var error: bool              // flags
    var canRead: bool
    var canWrite: bool
    var dirty: bool              // buf must be written back to dsect
    var written: bool            // the directory entry must be updated
    var fptr: nat                // read/write pointer
    var fsize: nat               // file size
    var orgClust: nat            // first cluster, 0 for none
    var currClust: nat           // current cluster
    var dsect: nat               // sector in buf
    ghost var chain: seq<nat>    // the clusters of the file

    /** The sectors of the file in order. */
    ghost function Sects(): seq<nat>
      reads this`chain
    {
      SectorsOf(fs.g, chain)
    }

    ghost predicate ChainOk()
      reads this`chain, this`orgClust, fs, fs.win, fs.disk
    {
      && fs.Valid()
      && if chain == [] then orgClust == 0 else A.Chain(fs.fat, chain) && chain[0] == orgClust
    }

    /** A dirty buffer belongs to the file, a clean one holds its sector; the window holds none of the file's. */
    ghost predicate BufferOk()
      reads this`chain, this`dirty, this`dsect, buf, fs
    {
      && buf.Length == 512 && buf != fs.win
      && (dirty ==> dsect in Sects())
      && (dsect != 0 ==> fs.g.database <= dsect < |fs.img|)
      && (!dirty && dsect != 0 ==> buf[..] == fs.img[dsect])
      && fs.winsect !in Sects()
    }

    ghost predicate Ok()
      reads this`chain, this`orgClust, this`dirty, this`dsect, buf, fs, fs.win, fs.disk
    {
      ChainOk() && BufferOk() && InImage(fs.img, Sects())
    }

    /** The sector in the buffer is one of the file; f_truncate can leave a clean buffer with another one. */
    ghost predicate OwnsBuffer()
      reads this`chain, this`dsect
    {
      dsect == 0 || dsect in Sects()
    }

    /** Pointer and size lie within the chain. */
    ghost predicate Limits()
      reads this`fptr, this`fsize, this`chain
    {
      fptr <= 512 * |Sects()| && fsize <= 512 * |Sects()|
    }

    /** The current cluster is that of the byte before the pointer, the buffer that of a pointer inside a sector. */
    ghost predicate Cursor()
      reads this`fptr, this`chain, this`currClust, this`dsect
    {
      && fs.g.csize > 0
      && (fptr > 0 ==>
            ClusterOf(fs.g, (fptr - 1) / 512) < |chain| && currClust == chain[ClusterOf(fs.g, (fptr - 1) / 512)])
      && (fptr % 512 != 0 ==> fptr / 512 < |Sects()| && dsect == Sects()[fptr / 512])
    }

    ghost predicate Valid()
      reads this, buf, fs, fs.win, fs.disk
    {
      Ok() && Limits() && Cursor() && fptr <= fsize < TWO_TO_32
    }

    /** Length of the file while a write runs past its recorded size. */
    ghost function Len(): nat
      reads this`fptr, this`fsize
    {
      if fptr <= fsize then fsize else fptr
    }

    /** The bytes of the file. */
    ghost function Content(): (c: seq<byte>)
      requires Ok() && Limits()
      reads this`chain, this`orgClust, this`dirty, this`dsect, this`fptr, this`fsize, buf, fs, fs.win, fs.disk
      ensures |c| == Len()
    {
      Bytes(fs.img, Sects(), dirty, dsect, buf[..], Len())
    }

    /** Byte i of the file is byte i % 512 of its sector i / 512; a dirty buffer stands for the sector it holds. */
    lemma BytePlace(i: nat)
      requires Ok() && Limits() && i < Len()
      ensures i / 512 < |SectorsOf(fs.g, chain)| && SectorsOf(fs.g, chain)[i / 512] < |fs.img| && buf.Length == 512
      ensures var s := SectorsOf(fs.g, chain)[i / 512];
              Content()[i] == if dirty && s == dsect then buf[i % 512] else fs.img[s][i % 512]
    {
      hide fs.Valid, A.Chain, SectorsOf;
    }

    /** The end of f_open: the pointer at the start, nothing in the buffer. */
    constructor (fs: FATFS, orgClust: nat, fsize: nat, canRead: bool, canWrite: bool, ghost chain: seq<nat>)
      requires fs.Valid() && fsize < TWO_TO_32 && fsize <= 512 * |SectorsOf(fs.g, chain)|
      requires if chain == [] then orgClust == 0 else A.Chain(fs.fat, chain) && chain[0] == orgClust
      requires InImage(fs.img, SectorsOf(fs.g, chain)) && fs.winsect !in SectorsOf(fs.g, chain)
      requires fs.g.csize > 0
      ensures Valid() && this.fs == fs && fresh(buf) && this.chain == chain
      ensures fptr == 0 && this.fsize == fsize && this.canRead == canRead && this.canWrite == canWrite && !error
                && !dirty
    {
      this.fs := fs;
      buf := new byte[512];
      error, dirty, written := false, false, false;
      this.canRead, this.canWrite := canRead, canWrite;
      fptr, this.fsize, this.orgClust, currClust, dsect := 0, fsize, orgClust, 0, 0;
      this.chain := chain;
    }

    /** The window is where it was, or on the FAT. */
    twostate predicate WindowStayed()
      reads fs`winsect
    {
      fs.winsect == old(fs.winsect) || fs.WindowInFat()
    }

    // -------------------------------------------------------------- pieces of the loops

    lemma Facts()
      requires Ok()
      ensures fs.Valid() && GeometryOk(fs.g, |fs.img|) && |fs.disk.sectors| == |fs.img| && |fs.fat| == fs.g.nFatent
      ensures Clusters(fs.g, chain) && A.Distinct(chain) && A.Distinct(Sects())
      ensures buf.Length == 512 && buf != fs.win && fs.g.csize > 0 && fs.g.database > 0 && |fs.img| <= TWO_TO_32
    {
      if chain != [] {
        A.ChainIsDistinct(fs.fat, chain);
      }
      SectorsDistinct(fs.g, |fs.img|, chain);
    }

    lemma ChainStart()
      requires ChainOk()
      ensures chain == [] <==> orgClust == 0
      ensures forall i | 0 <= i < |chain| :: 2 <= chain[i] < fs.g.nFatent
    {
    }

    /** The sectors of the file can be transferred past the window. */
    lemma OwnRun(s: nat)
      requires Ok() && s in Sects()
      ensures fs.DataRun(s, 1) && s < |fs.img| && fs.g.database <= s
    {
      Facts();
      hide Ok, ChainOk;
      SectorOwned(fs.g, |fs.img|, chain, s);
    }

    /** Writes a dirty buffer back to its sector. */
    method Flush()
      requires Ok() && Limits()
      modifies this`dirty, fs`img, fs.disk
      ensures Ok() && Limits() && !dirty && fs.fat == old(fs.fat)
      ensures Content() == old(Content())
      ensures OnlyOwn(fs.g, fs.fat, old(fs.img), chain, fs.fat, fs.img, chain) && |fs.img| == |old(fs.img)|
    {
      hide fs.Valid, A.Chain, InImage, Bytes, OnlyOwn, SectorsOf, Overwrite, fs.DataRun;
      if dirty {
        OwnRun(dsect);
        OverwriteOne(fs.img, dsect, buf[..]);
        FlushKeepsBytes(fs.img, Sects(), dsect, buf[..], Len());
        OwnWrite(fs.g, fs.fat, fs.img, chain, dsect, buf[..]);
        fs.WriteData(buf[..], dsect, 1);
        dirty := false;
      } else {
        Nothing(fs.g, fs.fat, fs.img, chain);
      }
    }

    /** create_chain on cluster j of the file: the next cluster, allocated if there is none. */
    method Follow(ghost j: nat) returns (clst: nat)
      requires Ok() && Limits() && j < |chain| && currClust == chain[j]
      modifies this`chain, fs, fs.win, fs.disk
      ensures Ok() && Limits() && Content() == old(Content())
      ensures OnlyOwn(fs.g, old(fs.fat), old(fs.img), old(chain), fs.fat, fs.img, chain) && fs.Valid()
                && |fs.img| == |old(fs.img)|
      ensures if j + 1 < |old(chain)| then clst == old(chain)[j + 1] && chain == old(chain)
              else if clst == 0 then chain == old(chain) && A.NoneFree(fs.fat)
              else if clst == 1 then chain == old(chain) && A.HasOne(fs.fat)
              else chain == old(chain) + [clst]
      ensures WindowStayed()
    {
      hide fs.Valid, A.Chain, InImage, Bytes, OnlyOwn, SectorsOf, GeometryOk, SameOutsideFat, A.CreateChain, Clusters,
           A.NoneFree, A.HasOne, A.Distinct;
      Facts();
      fs.TableFits();
      A.ExtendOutcome(fs.Table(), chain, j);
      clst := fs.CreateChain(currClust);
      if j + 1 < |chain| || clst < 2 {
        Kept(fs.g, |fs.img|, fs.fat, old(fs.img), chain, fs.img);
      } else {
        Grown(fs.g, |fs.img|, old(fs.fat), old(fs.img), chain, clst, fs.fat, fs.img);
        chain := chain + [clst];
      }
      GrownBytes(fs.g, old(fs.img), fs.img, old(Sects()), Sects(), dirty, dsect, buf[..], Len());
    }

    /** create_chain(0) for a file without clusters. */
    method StartChain() returns (clst: nat)
      requires Ok() && Limits() && chain == []
      modifies this`chain, this`orgClust, fs, fs.win, fs.disk
      ensures clst == orgClust && fs.Valid() && |fs.img| == |old(fs.img)|
      ensures OnlyOwn(fs.g, old(fs.fat), old(fs.img), old(chain), fs.fat, fs.img, chain)
      ensures clst == 1 ==> chain == [] && A.HasOne(fs.fat)
      ensures clst != 1 ==> Ok() && Limits() && Content() == old(Content())
      ensures clst == 0 ==> chain == [] && A.NoneFree(fs.fat)
      ensures clst >= 2 ==> chain == [clst]
      ensures WindowStayed()
    {
      hide fs.Valid, A.Chain, InImage, Bytes, OnlyOwn, SectorsOf, GeometryOk, SameOutsideFat, A.CreateChain, Clusters,
           A.NoneFree, A.HasOne, A.Distinct;
      Facts();
      fs.TableFits();
      A.NewOutcome(fs.Table());
      clst := fs.CreateChain(0);
      orgClust := clst;
      if clst < 2 {
        Kept(fs.g, |fs.img|, fs.fat, old(fs.img), chain, fs.img);
      } else {
        Grown(fs.g, |fs.img|, old(fs.fat), old(fs.img), chain, clst, fs.fat, fs.img);
        chain := [] + [clst];
        assert chain == [clst];
      }
      GrownBytes(fs.g, old(fs.img), fs.img, old(Sects()), Sects(), dirty, dsect, buf[..], Len());
    }

    /** The pointer stands at a sector boundary whose sector is in the current cluster. */
    ghost predicate AtSector()
      reads this`fptr, this`chain, this`currClust
    {
      && fs.g.csize > 0
      && fptr % 512 == 0 && fptr / 512 < |Sects()|
      && ClusterOf(fs.g, fptr / 512) < |chain| && currClust == chain[ClusterOf(fs.g, fptr / 512)]
    }

    /** The cluster boundary of f_write: follow the chain, stretch it, or start it. */
    method WriteCluster() returns (r: Alloc)
      requires Ok() && Limits() && Cursor() && fptr % 512 == 0 && OffsetIn(fs.g, fptr / 512) == 0 && !error
      modifies this`chain, this`orgClust, this`currClust, this`error, fs, fs.win, fs.disk
      ensures fs.Valid() && |fs.img| == |old(fs.img)|
      ensures OnlyOwn(fs.g, old(fs.fat), old(fs.img), old(chain), fs.fat, fs.img, chain)
      ensures r.Bad? <==> error
      ensures r.Bad? ==> A.HasOne(fs.fat) && (if chain == [] then orgClust == 1 else Cursor())
      ensures !(r.Bad? && chain == []) ==> Ok() && Limits() && Content() == old(Content())
      ensures r.Full? ==> Cursor() && chain == old(chain) && A.NoneFree(fs.fat)
      ensures r.Got? ==> AtSector()
      ensures WindowStayed()
    {
      hide fs.Valid, A.Chain, InImage, Bytes, OnlyOwn, SectorsOf, ClusterOf, OffsetIn;
      ChainStart();
      FirstSector(fs.g, chain);
      var clst;
      if fptr == 0 {
        clst := orgClust;
        if clst == 0 {
          clst := StartChain();
          FirstSector(fs.g, chain);
        } else {
          Nothing(fs.g, fs.fat, fs.img, chain);
        }
      } else {
        Boundary(fs.g, chain, fptr / 512);
        assert (fptr - 1) / 512 == fptr / 512 - 1;
        clst := Follow(ClusterOf(fs.g, fptr / 512 - 1));
        Boundary(fs.g, chain, fptr / 512);
      }
      if clst == 0 {
        return Full;
      }
      if clst == 1 {
        error := true;
        return Bad;
      }
      currClust := clst;
      return Got;
    }

    /** The sector at the pointer, as f_read and f_write compute it. */
    method CurrentSector() returns (csect: nat, sect: nat)
      requires Ok() && AtSector()
      ensures csect == OffsetIn(fs.g, fptr / 512) < fs.g.csize
      ensures sect == Sects()[fptr / 512] && fs.g.database <= sect < |fs.img| && 0 < sect
    {
      hide fs.Valid, A.Chain, InImage, Bytes, SectorsOf, ClusterOf;
      Facts();
      SectorOfIndex(fs.g, chain, fptr / 512);
      SectorInRange(fs.g, |fs.img|, chain, fptr / 512);
      MaskIsMod(fptr / 512, fs.g.csize);
      csect := BitAnd(fptr / 512, fs.g.csize - 1);
      sect := Clust2Sect(fs.g, currClust);
      sect := sect + csect;
    }

    /** Refills the buffer if a direct write went over its sector. */
    method RefreshBuffer(data: seq<byte>, sect: nat, cc: nat)
      requires buf.Length == 512 && |data| == 512 * cc && dsect < TWO_TO_32 && sect + cc <= TWO_TO_32
      modifies buf
      ensures buf[..] == if sect <= dsect < sect + cc then Piece(data, dsect - sect) else old(buf[..])
    {
      UnsignedInRun(dsect, sect, cc);
      if Wrap32(dsect - sect) < cc {
        forall j | 0 <= j < 512 {
          buf[j] := data[512 * (dsect - sect) + j];
        }
        assert buf[..] == Piece(data, dsect - sect);
      }
    }

    /** A run of sectors of the file goes to the device, and its sector to the clean buffer. */
    method PutSectors(data: seq<byte>, sect: nat, cc: nat)
      requires Ok() && !dirty && 0 < cc && |data| == 512 * cc && fs.g.database <= sect && sect + cc <= |fs.img|
      requires forall t | sect <= t < sect + cc :: t in Sects()
      modifies fs`img, fs.disk, buf
      ensures Ok() && fs.fat == old(fs.fat) && |fs.img| == |old(fs.img)|
                && fs.img == Overwrite(old(fs.img), sect, data, cc)
      ensures dsect < TWO_TO_32 && buf.Length == 512
      ensures buf[..] == if sect <= dsect < sect + cc then Piece(data, dsect - sect) else old(buf[..])
    {
      hide fs.Valid, A.Chain, InImage, Bytes, SectorsOf, ClusterOf, OffsetIn, RunAt, OnlyOwn, GeometryOk, Clusters,
           A.Distinct, Wrap32, Splice, Piece, Clust2Sect, FATFS.WindowInFat;
      Facts();
      OwnWriteRun(fs.g, fs.fat, fs.img, chain, sect, data, cc);
      fs.WriteData(data, sect, cc);
      RefreshBuffer(data, sect, cc);
    }

    /** Whole sectors, written from the caller's data to the device. */
    method WriteDirect(data: seq<byte>, sect: nat, cc: nat)
      requires Ok() && Limits() && AtSector() && !dirty && sect == Sects()[fptr / 512]
      requires 0 < cc && |data| == 512 * cc && OffsetIn(fs.g, fptr / 512) + cc <= fs.g.csize
      modifies this`fptr, fs`img, fs.disk, buf
      ensures Ok() && Limits() && Cursor() && fptr == old(fptr) + 512 * cc && fs.fat == old(fs.fat)
      ensures old(fptr) <= |old(Content())| && Content() == Splice(old(Content()), old(fptr), data)
      ensures OnlyOwn(fs.g, fs.fat, old(fs.img), chain, fs.fat, fs.img, chain) && |fs.img| == |old(fs.img)|
    {
      hide fs.Valid, A.Chain, InImage, Bytes, SectorsOf, ClusterOf, OffsetIn, RunAt, OnlyOwn, GeometryOk, Clusters,
           A.Distinct, Wrap32, Splice, Piece, Clust2Sect, FATFS.WindowInFat;
      ghost var k := fptr / 512;
      Facts();
      RunInCluster(fs.g, |fs.img|, chain, k, cc);
      OwnWriteRun(fs.g, fs.fat, fs.img, chain, sect, data, cc);
      PutSectors(data, sect, cc);
      fptr := fptr + 512 * cc;
      DirectWriteSplices(old(fs.img), Sects(), dsect, old(buf[..]), old(Len()), k, data, cc, Len(), buf[..]);
    }

    /** Brings the sector at the pointer into the buffer; past the end of the file there is nothing to read. */
    method FillBuffer()
      requires Ok() && Limits() && AtSector() && !dirty
      modifies this`dsect, buf
      ensures dsect == Sects()[fptr / 512]
      ensures forall i | 0 <= i < Len() && i / 512 == fptr / 512 :: buf[i % 512] == fs.img[dsect][i % 512]
    {
      hide fs.Valid, A.Chain, InImage, SectorsOf, ClusterOf, OffsetIn;
      var csect, sect := CurrentSector();
      OwnRun(sect);
      if dsect != sect {
        if fptr < fsize {
          fs.ReadData(buf, 0, sect, 1);
        }
      }
      dsect := sect;
    }

    /** The buffer stands for the sector at the pointer, and holds what was valid of it. */
    ghost predicate Loaded(dirty0: bool, d0: nat, b0: seq<byte>)
      reads this`chain, this`orgClust, this`currClust, this`dsect, this`fptr, this`fsize, buf, fs, fs.win, fs.disk
    {
      && ChainOk() && InImage(fs.img, Sects()) && Limits() && fs.winsect !in Sects()
      && buf.Length == 512 && buf != fs.win && |b0| == 512
      && fptr / 512 < |Sects()| && dsect == Sects()[fptr / 512] && fs.g.database <= dsect
      && fs.g.csize > 0 && ClusterOf(fs.g, fptr / 512) < |chain| && currClust == chain[ClusterOf(fs.g, fptr / 512)]
      && (dirty0 ==> d0 == dsect)
      && forall i | 0 <= i < Len() && i / 512 == fptr / 512 ::
        buf[i % 512] == ByteAt(fs.img, Sects(), dirty0, d0, b0, i)
    }

    /** The copy into the buffer. */
    method PutBytes(data: seq<byte>, ghost dirty0: bool, ghost d0: nat, ghost b0: seq<byte>)
      requires Loaded(dirty0, d0, b0) && A.Distinct(Sects()) && 0 < |data| && fptr % 512 + |data| <= 512
      modifies this`fptr, this`dirty, buf
      ensures Ok() && Limits() && Cursor() && dirty && fptr == old(fptr) + |data|
      ensures Content() == Splice(Bytes(fs.img, Sects(), dirty0, d0, b0, old(Len())), old(fptr), data)
    {
      hide fs.Valid, A.Chain, InImage, Bytes, SectorsOf, ClusterOf, A.Distinct;
      ghost var p := fptr;
      PutSplices(fs.img, Sects(), dirty0, d0, b0, Len(), p, data, buf[..],
                 if p + |data| <= Len() then Len() else p + |data|);
      OwnSector(fs.img, Sects(), dsect);
      forall j | 0 <= j < |data| {
        buf[fptr % 512 + j] := data[j];
      }
      assert buf[..] == Splice(old(buf[..]), p % 512, data);
      fptr := fptr + |data|;
      dirty := true;
    }

    /**
     Bytes up to the end of a sector, put into the buffer, which is filled first when the pointer enters the
     sector.
    */
    method WritePartial(data: seq<byte>)
      requires Ok() && Limits() && 0 < |data| && fptr % 512 + |data| <= 512
      requires if fptr % 512 == 0 then AtSector() && !dirty else Cursor()
      modifies this`fptr, this`dirty, this`dsect, buf
      ensures Ok() && Limits() && Cursor() && dirty && fptr == old(fptr) + |data| && dsect in Sects()
      ensures old(fptr) <= |old(Content())| && Content() == Splice(old(Content()), old(fptr), data)
    {
      hide fs.Valid, A.Chain, InImage, Bytes, SectorsOf, ClusterOf, GeometryOk, Clusters, A.Distinct;
      Facts();
      OwnRun(Sects()[fptr / 512]);
      ghost var dirty0, d0, b0 := dirty, dsect, buf[..];
      if fptr % 512 == 0 {
        FillBuffer();
      }
      PutBytes(data, dirty0, d0, b0);
    }

    /** The mask of the code takes the sector offset in the cluster. */
    lemma Masked(k: nat)
      requires Ok()
      ensures fs.g.csize > 0 && BitAnd(k, fs.g.csize - 1) == OffsetIn(fs.g, k)
    {
      Facts();
      MaskIsMod(k, fs.g.csize);
    }

    /** A pointer inside a cluster stands in the current one. */
    lemma InsideCluster()
      requires Ok() && Limits() && Cursor() && fptr % 512 == 0 && OffsetIn(fs.g, fptr / 512) != 0
      ensures AtSector()
    {
      hide Ok, SectorsOf, ClusterOf, OffsetIn;
      FirstOffset(fs.g);
      PreviousSector();
      MidCluster(fs.g, chain, fptr / 512);
    }

    lemma PreviousSector()
      requires fptr % 512 == 0
      ensures fptr == 512 * (fptr / 512) && (fptr > 0 ==> (fptr - 1) / 512 == fptr / 512 - 1)
    {
    }

    /** What earlier steps left alone is left alone by one more. */
    lemma Chained(chain0: seq<nat>, fat0: seq<nat>, img0: seq<Sector>, chain1: seq<nat>, fat1: seq<nat>,
                  img1: seq<Sector>)
      requires OnlyOwn(fs.g, fat0, img0, chain0, fat1, img1, chain1)
      requires OnlyOwn(fs.g, fat1, img1, chain1, fs.fat, fs.img, chain)
      ensures OnlyOwn(fs.g, fat0, img0, chain0, fs.fat, fs.img, chain)
    {
      OnlyOwnTrans(fs.g, fat0, img0, chain0, fat1, img1, chain1, fs.fat, fs.img, chain);
    }

    /** A step that kept the buffer or filled it from the file leaves a buffer of the file. */
    lemma StillOwned(chain1: seq<nat>, fat1: seq<nat>, img1: seq<Sector>, d1: nat)
      requires OnlyOwn(fs.g, fat1, img1, chain1, fs.fat, fs.img, chain) && (dsect == d1 || dsect in Sects())
      ensures d1 == 0 || d1 in SectorsOf(fs.g, chain1) ==> OwnsBuffer()
    {
      hide SectorsOf;
      assert chain1 == chain[..|chain1|];
      SectorsOfPrefix(fs.g, chain, |chain1|);
      if d1 in SectorsOf(fs.g, chain1) {
        var k :| 0 <= k < |SectorsOf(fs.g, chain1)| && SectorsOf(fs.g, chain1)[k] == d1;
        assert Sects()[k] == d1;
      }
    }

    /** f_write at a sector boundary: the cluster of the pointer, and a clean buffer. */
    method EnterSector() returns (r: Alloc)
      requires Ok() && Limits() && Cursor() && fptr % 512 == 0 && !error
      modifies this`dirty, this`chain, this`orgClust, this`currClust, this`error, fs, fs.win, fs.disk
      ensures |fs.img| == |old(fs.img)|
      ensures OnlyOwn(fs.g, old(fs.fat), old(fs.img), old(chain), fs.fat, fs.img, chain)
      ensures r.Bad? <==> error
      ensures r.Bad? ==> fs.Valid() && A.HasOne(fs.fat) && (if chain == [] then orgClust == 1 else Cursor())
      ensures !(r.Bad? && chain == []) ==> Ok() && Limits() && Content() == old(Content())
      ensures r.Full? ==> Cursor() && A.NoneFree(fs.fat)
      ensures r.Got? ==> AtSector() && !dirty
      ensures WindowStayed()
    {
      hide fs.Valid, Ok, Limits, AtSector, OffsetIn, OnlyOwn, A.NoneFree, A.HasOne, Content, BitAnd;
      Masked(fptr / 512);
      var csect := BitAnd(fptr / 512, fs.g.csize - 1);
      if csect == 0 {
        r := WriteCluster();
        if !r.Got? {
          return;
        }
      } else {
        InsideCluster();
        Nothing(fs.g, fs.fat, fs.img, chain);
        r := Got;
      }
      ghost var fat1, img1 := fs.fat, fs.img;
      Flush();
      Chained(old(chain), old(fs.fat), old(fs.img), chain, fat1, img1);
    }

    /** As many whole sectors as the data and the cluster have. */
    method WriteSectors(data: seq<byte>) returns (wcnt: nat)
      requires Ok() && Limits() && AtSector() && !dirty && |data| >= 512
      modifies this`fptr, fs`img, fs.disk, buf
      ensures Ok() && Limits() && Cursor() && 0 < wcnt <= |data| && fptr == old(fptr) + wcnt && fptr % 512 == 0
      ensures old(fptr) <= |old(Content())| && Content() == Splice(old(Content()), old(fptr), data[..wcnt])
      ensures OnlyOwn(fs.g, fs.fat, old(fs.img), chain, fs.fat, fs.img, chain) && |fs.img| == |old(fs.img)|
    {
      hide fs.Valid, Ok, Limits, Cursor, OffsetIn, ClusterOf, SectorsOf, OnlyOwn, Splice, Content, Sects;
      var csect, sect := CurrentSector();
      var cc := |data| / 512;
      if csect + cc > fs.g.csize {
        cc := fs.g.csize - csect;
      }
      Aligned(fptr, cc);
      wcnt := 512 * cc;
      WriteDirect(data[..wcnt], sect, cc);
    }

    static lemma Aligned(p: nat, cc: nat)
      requires p % 512 == 0
      ensures (p + 512 * cc) % 512 == 0
    {
    }

    /** One turn of the loop of f_write. */
    method WriteStep(data: seq<byte>) returns (r: Alloc, wcnt: nat)
      requires Ok() && Limits() && Cursor() && data != [] && !error
      modifies this`fptr, this`dirty, this`dsect, this`chain, this`orgClust, this`currClust, this`error, buf, fs,
               fs.win, fs.disk
      ensures |fs.img| == |old(fs.img)|
      ensures OnlyOwn(fs.g, old(fs.fat), old(fs.img), old(chain), fs.fat, fs.img, chain)
      ensures r.Bad? <==> error
      ensures r.Bad? ==> fs.Valid() && A.HasOne(fs.fat) && fptr == old(fptr) && (chain == [] ==> orgClust == 1)
      ensures !(r.Bad? && chain == []) ==> Ok() && Limits() && Cursor() && fptr == old(fptr) + wcnt
      ensures r.Bad? && chain != [] ==> wcnt == 0 && Content() == old(Content())
      ensures r.Full? ==> wcnt == 0 && Content() == old(Content()) && A.NoneFree(fs.fat) && fptr % 512 == 0
      ensures r.Got? ==> 0 < wcnt <= |data| && old(fptr) <= |old(Content())|
                         && Content() == Splice(old(Content()), old(fptr), data[..wcnt])
      ensures r.Got? && fptr % 512 != 0 ==> dirty
      ensures WindowStayed() && (dsect == old(dsect) || dsect in Sects())
    {
      hide fs.Valid, Ok, Limits, Cursor, AtSector, OffsetIn, OnlyOwn, A.NoneFree, A.HasOne, Splice, Content;
      if fptr % 512 == 0 {
        r := EnterSector();
        if !r.Got? {
          return r, 0;
        }
        if |data| / 512 != 0 {
          ghost var fat1, img1, chain1 := fs.fat, fs.img, chain;
          wcnt := WriteSectors(data);
          Chained(old(chain), old(fs.fat), old(fs.img), chain1, fat1, img1);
          return;
        }
      } else {
        Nothing(fs.g, fs.fat, fs.img, chain);
      }
      wcnt := 512 - fptr % 512;
      if wcnt > |data| {
        wcnt := |data|;
      }
      WritePartial(data[..wcnt]);
      r := Got;
    }

    /**
     The file after an internal error of f_write: the bytes written before it are in its clusters, the
     size is not updated; an empty file has the number 1 for its first cluster.
     */
    ghost predicate Broken(content0: seq<byte>, p0: nat, data: seq<byte>)
      requires p0 <= |content0|
      reads this`chain, this`orgClust, this`currClust, this`dirty, this`dsect, this`fptr, this`fsize, buf, fs, fs.win,
            fs.disk
    {
      if chain == [] then orgClust == 1 && data == [] && content0 == []
      else Ok() && Limits() && Cursor() && Content() == Splice(content0, p0, data)
    }

    /** The transfer loop of f_write. */
    method WriteLoop(buff: seq<byte>) returns (r: Alloc, bw: nat)
      requires Ok() && Limits() && Cursor() && !error && fptr <= fsize
      modifies this`fptr, this`dirty, this`dsect, this`chain, this`orgClust, this`currClust, this`error, buf, fs,
               fs.win, fs.disk
      ensures bw <= |buff| && fptr == old(fptr) + bw && old(fptr) <= |old(Content())| && (error <==> r.Bad?)
      ensures r.Bad? ==> A.HasOne(fs.fat) && fs.Valid() && Broken(old(Content()), old(fptr), buff[..bw])
      ensures !r.Bad? ==>
                && Ok() && Limits() && Cursor() && Content() == Splice(old(Content()), old(fptr), buff[..bw])
                && (bw < |buff| ==> A.NoneFree(fs.fat)) && (bw > 0 && fptr % 512 != 0 ==> dirty)
      ensures OnlyOwn(fs.g, old(fs.fat), old(fs.img), old(chain), fs.fat, fs.img, chain)
      ensures (old(OwnsBuffer()) ==> OwnsBuffer()) && WindowStayed()
    {
      hide fs.Valid, Ok, Limits, Cursor, OnlyOwn, A.NoneFree, A.HasOne, Content, Splice, Broken;
      bw := 0;
      Nothing(fs.g, fs.fat, fs.img, chain);
      SpliceNothing(Content(), fptr);
      while bw < |buff|
        invariant Ok() && Limits() && Cursor() && !error && bw <= |buff| && fptr == old(fptr) + bw
        invariant Content() == Splice(old(Content()), old(fptr), buff[..bw])
        invariant bw > 0 && fptr % 512 != 0 ==> dirty
        invariant OnlyOwn(fs.g, old(fs.fat), old(fs.img), old(chain), fs.fat, fs.img, chain) && WindowStayed()
        invariant old(OwnsBuffer()) ==> OwnsBuffer()
      {
        ghost var fat1, img1, chain1, d1 := fs.fat, fs.img, chain, dsect;
        EmptyFile();
        var wcnt;
        r, wcnt := WriteStep(buff[bw..]);
        Chained(old(chain), old(fs.fat), old(fs.img), chain1, fat1, img1);
        StillOwned(chain1, fat1, img1, d1);
        if r.Bad? {
          NoClustersBefore(chain1, fat1, img1);
          IsBroken(old(Content()), old(fptr), buff[..bw], chain1);
          return;
        }
        if r.Full? {
          return;
        }
        SpliceTwice(old(Content()), old(fptr), buff[..bw], buff[bw..][..wcnt]);
        assert buff[..bw] + buff[bw..][..wcnt] == buff[..bw + wcnt];
        bw := bw + wcnt;
      }
      r := Got;
    }

    lemma NoClustersBefore(chain0: seq<nat>, fat0: seq<nat>, img0: seq<Sector>)
      requires OnlyOwn(fs.g, fat0, img0, chain0, fs.fat, fs.img, chain)
      ensures chain == [] ==> chain0 == []
    {
    }

    lemma IsBroken(content0: seq<byte>, p0: nat, data: seq<byte>, chain1: seq<nat>)
      requires p0 <= |content0| && (chain == [] ==> chain1 == [] && orgClust == 1)
      requires chain1 == [] ==> data == [] && content0 == []
      requires chain != [] ==> Ok() && Limits() && Cursor() && Content() == Splice(content0, p0, data)
      ensures Broken(content0, p0, data)
    {
    }

    /**
     f_write. All of buff is written unless no cluster is free; what is written replaces the content
     from the pointer on. Nothing is written if the size and the length of buff make 4 GB or more.
     */
    method Write(buff: seq<byte>) returns (res: FResult, bw: nat)
      requires Valid()
      modifies this`fptr, this`fsize, this`dirty, this`written, this`dsect, this`chain, this`orgClust, this`currClust,
               this`error, buf, fs, fs.win, fs.disk
      ensures old(error) ==> res == INT_ERR
      ensures !old(error) && !canWrite ==> res == DENIED
      ensures res != OK && !(!old(error) && canWrite) ==>
                && bw == 0 && Valid() && Content() == old(Content()) && fptr == old(fptr) && chain == old(chain)
                && fs.fat == old(fs.fat) && error == old(error)
      ensures !old(error) && canWrite ==> res == OK || (res == INT_ERR && error && A.HasOne(fs.fat))
      ensures !old(error) && res == INT_ERR ==>
                && bw <= |buff| && fptr == old(fptr) + bw && fsize == old(fsize) && written == old(written)
                && old(fptr) <= |old(Content())| && Broken(old(Content()), old(fptr), buff[..bw])
      ensures res == OK ==> Valid() && bw <= |buff| && !error && written
      ensures res == OK ==> Content() == Splice(old(Content()), old(fptr), buff[..bw])
      ensures res == OK ==> fptr == old(fptr) + bw && fsize == if fptr > old(fsize) then fptr else old(fsize)
      ensures res == OK && bw > 0 && fptr % 512 != 0 ==> dirty
      ensures res == OK && old(fsize) + |buff| < TWO_TO_32 && bw < |buff| ==> A.NoneFree(fs.fat)
      ensures res == OK && old(fsize) + |buff| >= TWO_TO_32 ==> bw == 0
      ensures OnlyOwn(fs.g, old(fs.fat), old(fs.img), old(chain), fs.fat, fs.img, chain)
      ensures old(OwnsBuffer()) ==> OwnsBuffer()
      ensures WindowStayed() && fs.Valid()
    {
      hide fs.Valid, Ok, Limits, Cursor, OnlyOwn, A.NoneFree, A.HasOne, Content, Splice, Broken;
      bw := 0;
      ValidVolume();
      Nothing(fs.g, fs.fat, fs.img, chain);
      if error {
        return INT_ERR, 0;
      }
      if !canWrite {
        return DENIED, 0;
      }
      var btw := |buff|;
      if fsize + btw >= TWO_TO_32 {
        btw := 0;
      }
      var r;
      r, bw := WriteLoop(buff[..btw]);
      assert buff[..btw][..bw] == buff[..bw];
      if r.Bad? {
        return INT_ERR, bw;
      }
      UpdateSize();
      ValidVolume();
      res := OK;
    }

    /** Without clusters there is no byte. */
    lemma EmptyFile()
      requires Ok() && Limits()
      ensures chain == [] ==> fptr == 0 && fsize == 0 && Content() == []
    {
    }

    lemma ValidVolume()
      requires Ok()
      ensures fs.Valid()
    {
    }

    /** The end of f_write: the size follows the pointer. */
    method UpdateSize()
      requires Ok() && Limits() && Cursor() && Len() < TWO_TO_32
      modifies this`fsize, this`written
      ensures Valid() && fsize == old(Len()) && written && Content() == old(Content())
    {
      hide fs.Valid, Bytes;
      if fptr > fsize {
        fsize := fptr;
      }
      written := true;
    }

    // -------------------------------------------------------------- f_read

    /** The cluster boundary of f_read: the link is there because the pointer is inside the file. */
    method ReadCluster()
      requires Ok() && Limits() && Cursor() && fptr % 512 == 0 && OffsetIn(fs.g, fptr / 512) == 0 && fptr < fsize
      modifies this`currClust, fs`winsect, fs`wflag, fs.win, fs.disk
      ensures Ok() && Limits() && AtSector() && Content() == old(Content()) && WindowStayed()
    {
      hide fs.Valid, InImage, Bytes, SectorsOf, ClusterOf, OffsetIn, GeometryOk;
      Facts();
      FirstSector(fs.g, chain);
      ghost var k := fptr / 512;
      var clst;
      if fptr == 0 {
        ChainStart();
        clst := orgClust;
      } else {
        Boundary(fs.g, chain, k);
        assert (fptr - 1) / 512 == k - 1;
        Linked(ClusterOf(fs.g, k - 1));
        clst := fs.GetFat(currClust);
        WindowAway();
      }
      if clst <= 1 {
        assert false;
      }
      currClust := clst;
    }

    /** The link of a cluster of the file that is not the last. */
    lemma Linked(j: nat)
      requires ChainOk() && j + 1 < |chain|
      ensures 2 <= chain[j] < fs.g.nFatent == |fs.fat| && fs.fat[chain[j]] == chain[j + 1] >= 2
    {
    }

    /** A window on the FAT is away from the sectors of the file. */
    lemma WindowAway()
      requires ChainOk() && fs.WindowInFat()
      ensures fs.winsect !in Sects()
    {
      if fs.winsect in Sects() {
        SectorOwned(fs.g, |fs.img|, chain, fs.winsect);
      }
    }

    /** Whole sectors from the device, the one in a dirty buffer replaced by the buffer. */
    method ReadDirect(buff: array<byte>, at: nat, sect: nat, cc: nat)
      requires Ok() && Limits() && AtSector() && sect == Sects()[fptr / 512] && buff != fs.win && buff != buf
      requires 0 < cc && OffsetIn(fs.g, fptr / 512) + cc <= fs.g.csize && fptr + 512 * cc <= fsize
                 && at + 512 * cc <= buff.Length
      modifies buff, this`fptr
      ensures Ok() && Limits() && Cursor() && fptr == old(fptr) + 512 * cc && Content() == old(Content())
      ensures buff[..] == Splice(old(buff[..]), at, Slice(Content(), old(fptr), 512 * cc))
    {
      hide fs.Valid, A.Chain, InImage, Bytes, SectorsOf, ClusterOf, OffsetIn, RunAt, GeometryOk, Clusters, A.Distinct,
           Wrap32, RunBytes, PatchedRun, Splice, Slice;
      Facts();
      RunInCluster(fs.g, |fs.img|, chain, fptr / 512, cc);
      GetRun(fs.img, Sects(), dirty, dsect, buf[..], Len(), fptr / 512, cc);
      ghost var run := RunBytes(fs.img, sect, cc);
      fs.ReadData(buff, at, sect, cc);
      if dirty {
        PatchRun(buff, at, sect, cc, old(buff[..]), run);
      } else {
        PatchNone(run, sect, cc, dsect, buf[..]);
      }
      fptr := fptr + 512 * cc;
    }

    /** Replaces one of the sectors just read by the buffered one. */
    method PatchRun(buff: array<byte>, at: nat, sect: nat, cc: nat, ghost orig: seq<byte>, ghost run: seq<byte>)
      requires buf.Length == 512 && buff != buf && dsect < TWO_TO_32 && sect + cc <= TWO_TO_32
      requires |run| == 512 * cc && at + |run| <= |orig| && buff[..] == Splice(orig, at, run)
      modifies buff
      ensures buff[..] == Splice(orig, at, PatchedRun(run, sect, cc, true, dsect, buf[..]))
    {
      hide Wrap32, Slice;
      UnsignedInRun(dsect, sect, cc);
      if Wrap32(dsect - sect) < cc {
        PatchInPlace(orig, at, run, sect, cc, dsect, buf[..]);
        SliceAll(buf[..]);
        CopyOut(buff, at + 512 * (dsect - sect), 0, 512);
      }
    }

    /** mem_cpy from the data buffer. */
    method CopyOut(buff: array<byte>, at: nat, o: nat, n: nat)
      requires buf.Length == 512 && buff != buf && o + n <= 512 && at + n <= buff.Length
      modifies buff
      ensures buff[..] == Splice(old(buff[..]), at, Slice(buf[..], o, n))
    {
      forall j | 0 <= j < n {
        buff[at + j] := buf[o + j];
      }
    }

    /** Brings the sector at the pointer into the buffer. */
    method LoadSector()
      requires Ok() && Limits() && AtSector()
      modifies this`dirty, this`dsect, buf, fs`img, fs.disk
      ensures Ok() && Limits() && AtSector() && dsect == Sects()[fptr / 512] && fs.fat == old(fs.fat)
      ensures Content() == old(Content())
      ensures OnlyOwn(fs.g, fs.fat, old(fs.img), chain, fs.fat, fs.img, chain) && |fs.img| == |old(fs.img)|
    {
      hide fs.Valid, A.Chain, InImage, Bytes, OnlyOwn, SectorsOf, ClusterOf, OffsetIn, RunBytes;
      Flush();
      var csect, sect := CurrentSector();
      OwnRun(sect);
      RunOfOne(fs.img, sect);
      ghost var d0, b0 := dsect, buf[..];
      if dsect != sect {
        fs.ReadData(buf, 0, sect, 1);
      }
      dsect := sect;
      CleanBuffer(fs.img, Sects(), Len(), d0, b0, dsect, buf[..]);
    }

    /** Bytes up to the end of a sector, taken from the buffer. */
    method GetBytes(buff: array<byte>, at: nat, n: nat)
      requires Ok() && Limits() && fptr / 512 < |Sects()| && dsect == Sects()[fptr / 512] && buff != fs.win
                 && buff != buf
      requires fs.g.csize > 0 && ClusterOf(fs.g, fptr / 512) < |chain|
                 && currClust == chain[ClusterOf(fs.g, fptr / 512)]
      requires 0 < n && fptr % 512 + n <= 512 && fptr + n <= fsize && at + n <= buff.Length
      modifies buff, this`fptr
      ensures Ok() && Limits() && Cursor() && fptr == old(fptr) + n && Content() == old(Content())
      ensures buff[..] == Splice(old(buff[..]), at, Slice(Content(), old(fptr), n))
    {
      hide fs.Valid, A.Chain, InImage, Bytes, SectorsOf, ClusterOf, Splice, Slice, GeometryOk, Clusters, A.Distinct;
      Facts();
      OwnRun(dsect);
      GetFromBuffer(fs.img, Sects(), dirty, dsect, buf[..], Len(), fptr, n);
      CopyOut(buff, at, fptr % 512, n);
      fptr := fptr + n;
    }

    /** One turn of the loop of f_read. */
    method ReadStep(buff: array<byte>, at: nat, btr: nat) returns (rcnt: nat)
      requires Ok() && Limits() && Cursor() && 0 < btr && fptr + btr <= fsize
      requires buff != fs.win && buff != buf && at + btr <= buff.Length
      modifies this`fptr, this`dirty, this`dsect, this`currClust, buf, buff, fs`winsect, fs`wflag, fs`img, fs.win,
               fs.disk
      ensures Ok() && Limits() && Cursor() && 0 < rcnt <= btr && fptr == old(fptr) + rcnt && Content() == old(Content())
      ensures buff[..] == Splice(old(buff[..]), at, Slice(Content(), old(fptr), rcnt))
      ensures OnlyOwn(fs.g, fs.fat, old(fs.img), chain, fs.fat, fs.img, chain) && |fs.img| == |old(fs.img)|
      ensures (dsect == old(dsect) || dsect in Sects()) && WindowStayed()
    {
      hide fs.Valid, Ok, Limits, Cursor, OffsetIn, OnlyOwn, Content, BitAnd, SectorsOf, ClusterOf, Slice, Splice;
      Nothing(fs.g, fs.fat, fs.img, chain);
      if fptr % 512 == 0 {
        Masked(fptr / 512);
        var csect := BitAnd(fptr / 512, fs.g.csize - 1);
        if csect == 0 {
          ReadCluster();
        } else {
          InsideCluster();
        }
        var sect;
        csect, sect := CurrentSector();
        var cc := btr / 512;
        if cc != 0 {
          if csect + cc > fs.g.csize {
            cc := fs.g.csize - csect;
          }
          ReadDirect(buff, at, sect, cc);
          return 512 * cc;
        }
        LoadSector();
      } else {
        InsideSector();
      }
      rcnt := 512 - fptr % 512;
      if rcnt > btr {
        rcnt := btr;
      }
      GetBytes(buff, at, rcnt);
    }

    lemma InsideSector()
      requires Cursor() && fptr % 512 != 0
      ensures fptr / 512 < |Sects()| && dsect == Sects()[fptr / 512] && fs.g.csize > 0
      ensures ClusterOf(fs.g, fptr / 512) < |chain| && currClust == chain[ClusterOf(fs.g, fptr / 512)]
    {
      assert (fptr - 1) / 512 == fptr / 512;
    }

    /**
     f_read: the bytes from the pointer on, as many as asked for or as there are.
     The file, its table and its chain stay what they are.
     */
    method Read(buff: array<byte>, count: nat) returns (res: FResult, br: nat)
      requires Valid() && buff != fs.win && buff != buf && count <= buff.Length
      modifies this`fptr, this`dirty, this`dsect, this`currClust, buf, buff, fs`winsect, fs`wflag, fs`img, fs.win,
               fs.disk
      ensures Valid() && Content() == old(Content()) && fptr == old(fptr) + br
      ensures res == if error then INT_ERR else if !canRead then DENIED else OK
      ensures br == if res != OK then 0 else if count > fsize - old(fptr) then fsize - old(fptr) else count
      ensures buff[..] == Splice(old(buff[..]), 0, Slice(Content(), old(fptr), br))
      ensures OnlyOwn(fs.g, fs.fat, old(fs.img), chain, fs.fat, fs.img, chain)
      ensures (old(OwnsBuffer()) ==> OwnsBuffer()) && WindowStayed()
    {
      hide fs.Valid, Ok, Limits, Cursor, OnlyOwn, Content, Slice, Splice;
      Nothing(fs.g, fs.fat, fs.img, chain);
      SpliceEmptySlice(buff[..], Content(), fptr);
      if error {
        return INT_ERR, 0;
      }
      if !canRead {
        return DENIED, 0;
      }
      br := count;
      if br > fsize - fptr {
        br := fsize - fptr;
      }
      ReadLoop(buff, br);
      res := OK;
    }

    /** The transfer loop of f_read. */
    method ReadLoop(buff: array<byte>, btr: nat)
      requires Ok() && Limits() && Cursor() && fptr + btr <= fsize && buff != fs.win && buff != buf
                 && btr <= buff.Length
      modifies this`fptr, this`dirty, this`dsect, this`currClust, buf, buff, fs`winsect, fs`wflag, fs`img, fs.win,
               fs.disk
      ensures Ok() && Limits() && Cursor() && fptr == old(fptr) + btr && Content() == old(Content())
      ensures buff[..] == Splice(old(buff[..]), 0, Slice(Content(), old(fptr), btr))
      ensures OnlyOwn(fs.g, fs.fat, old(fs.img), chain, fs.fat, fs.img, chain)
      ensures (old(OwnsBuffer()) ==> OwnsBuffer()) && WindowStayed()
    {
      hide fs.Valid, Ok, Limits, Cursor, OnlyOwn, Content, Slice, Splice;
      ghost var p, c, orig := fptr, Content(), buff[..];
      var br := 0;
      Nothing(fs.g, fs.fat, fs.img, chain);
      SpliceEmptySlice(orig, c, p);
      while br < btr
        invariant Ok() && Limits() && Cursor() && br <= btr && fptr == p + br && Content() == c
        invariant buff[..] == Splice(orig, 0, Slice(c, p, br))
        invariant OnlyOwn(fs.g, fs.fat, old(fs.img), chain, fs.fat, fs.img, chain)
        invariant (old(OwnsBuffer()) ==> OwnsBuffer()) && WindowStayed()
      {
        ghost var img1 := fs.img;
        var rcnt := ReadStep(buff, br, btr - br);
        SpliceSlices(orig, 0, c, p, br, rcnt);
        Chained(chain, fs.fat, old(fs.img), chain, fs.fat, img1);
        br := br + rcnt;
      }
    }

    // -------------------------------------------------------------- f_lseek

    /** The bytes below the recorded size, wherever the pointer is. */
    ghost function Stored(): (c: seq<byte>)
      requires Ok() && Limits()
      reads this`chain, this`orgClust, this`dirty, this`dsect, this`fptr, this`fsize, buf, fs, fs.win, fs.disk
      ensures |c| == fsize
    {
      Bytes(fs.img, Sects(), dirty, dsect, buf[..], fsize)
    }

    lemma StoredIsHead()
      requires Ok() && Limits()
      ensures fsize <= Len() && Stored() == Content()[..fsize]
    {
      BytesPrefix(fs.img, Sects(), dirty, dsect, buf[..], fsize, Len());
    }

    /** One link of f_lseek: stretched when writing, read otherwise. */
    method SeekLink(ghost j: nat) returns (r: Alloc)
      requires Ok() && Limits() && j < |chain| && currClust == chain[j] && !error
      requires !canWrite ==> j + 1 < |chain|
      modifies this`chain, this`currClust, this`error, fs, fs.win, fs.disk
      ensures |fs.img| == |old(fs.img)|
      ensures OnlyOwn(fs.g, old(fs.fat), old(fs.img), old(chain), fs.fat, fs.img, chain)
      ensures WindowStayed()
      ensures Ok() && Limits() && Stored() == old(Stored())
      ensures r.Bad? <==> error
      ensures r.Bad? ==> canWrite && A.HasOne(fs.fat)
      ensures r.Full? ==> canWrite && j + 1 == |chain| && currClust == chain[j] && A.NoneFree(fs.fat)
      ensures r.Got? ==> j + 1 < |chain| && currClust == chain[j + 1]
      ensures chain != []
    {
      hide fs.Valid, InImage, Bytes, SectorsOf, OnlyOwn, Content, Stored, A.NoneFree, A.HasOne;
      Facts();
      StoredIsHead();
      ChainStart();
      var clst;
      if canWrite {
        clst := Follow(j);
        StoredIsHead();
        ChainStart();
        if clst == 0 {
          return Full;
        }
      } else {
        Nothing(fs.g, fs.fat, fs.img, chain);
        Linked(j);
        clst := FollowLink(j);
      }
      if clst <= 1 || clst >= fs.g.nFatent {
        error := true;
        return Bad;
      }
      currClust := clst;
      return Got;
    }

    /** The link of the current cluster, read from the table. */
    method FollowLink(ghost j: nat) returns (clst: nat)
      requires Ok() && Limits() && j + 1 < |chain| && currClust == chain[j]
      modifies fs`winsect, fs`wflag, fs.win, fs.disk
      ensures Ok() && Limits() && clst == chain[j + 1] && Stored() == old(Stored()) && WindowStayed()
    {
      hide fs.Valid, InImage, Bytes, SectorsOf;
      Linked(j);
      clst := fs.GetFat(currClust);
      WindowAway();
    }

    /** The walk of f_lseek from cluster j on: fptr is the start of the cluster, ofs what is left to go from there. */
    method SeekWalk(ghost j0: nat, ofs0: nat) returns (r: Alloc, ofs: nat, ghost j: nat)
      requires Ok() && Limits() && !error && j0 < |chain| && currClust == chain[j0]
      requires fs.g.csize > 0 && fptr == 512 * Sectors(j0, fs.g.csize) && 0 < ofs0
      requires !canWrite ==> fptr + ofs0 <= fsize
      modifies this`fptr, this`chain, this`currClust, this`error, fs, fs.win, fs.disk
      ensures |fs.img| == |old(fs.img)|
      ensures OnlyOwn(fs.g, old(fs.fat), old(fs.img), old(chain), fs.fat, fs.img, chain)
      ensures WindowStayed()
      ensures r.Bad? <==> error
      ensures r.Bad? ==> fs.Valid() && canWrite && A.HasOne(fs.fat) && chain != []
      ensures Ok() && Limits() && Stored() == old(Stored())
      ensures !r.Bad? ==> j < |chain| && currClust == chain[j]
      ensures !r.Bad? ==> fptr == 512 * Sectors(j, fs.g.csize) && 0 < ofs <= 512 * fs.g.csize
      ensures r.Got? ==> fptr + ofs == old(fptr) + ofs0
      ensures r.Full? ==>
                && canWrite && ofs == 512 * fs.g.csize && j + 1 == |chain| && A.NoneFree(fs.fat)
                && fptr + ofs < old(fptr) + ofs0
    {
      hide fs.Valid, Ok, SectorsOf, OnlyOwn, Content, Stored, A.NoneFree, A.HasOne;
      ofs, j := ofs0, j0;
      Nothing(fs.g, fs.fat, fs.img, chain);
      var bcs := fs.g.csize * 512;
      while ofs > bcs
        invariant Ok() && Limits() && !error && j < |chain| && currClust == chain[j] && Stored() == old(Stored())
        invariant fptr == 512 * Sectors(j, fs.g.csize) && 0 < ofs && fptr + ofs == old(fptr) + ofs0
        invariant OnlyOwn(fs.g, old(fs.fat), old(fs.img), old(chain), fs.fat, fs.img, chain)
                    && |fs.img| == |old(fs.img)|
        invariant WindowStayed()
        decreases ofs
      {
        ghost var fat1, img1, chain1 := fs.fat, fs.img, chain;
        if !canWrite {
          MoreClusters(fs.g, chain, j, ofs);
        }
        r := SeekLink(j);
        Chained(old(chain), old(fs.fat), old(fs.img), chain1, fat1, img1);
        if r.Bad? {
          ValidVolume();
          return;
        }
        if r.Full? {
          ofs := bcs;
          return;
        }
        Advance(j, bcs);
        j := j + 1;
        ofs := ofs - bcs;
      }
      r := Got;
    }

    /** The pointer moves to the next cluster of the file. */
    method Advance(ghost j: nat, bcs: nat)
      requires Ok() && Limits() && j + 1 < |chain| && fptr == 512 * Sectors(j, fs.g.csize) && bcs == fs.g.csize * 512
      modifies this`fptr
      ensures Ok() && Limits() && fptr == 512 * Sectors(j + 1, fs.g.csize) && Stored() == old(Stored())
      ensures fptr == old(fptr) + bcs
    {
      hide fs.Valid, InImage, Bytes, SectorsOf;
      Facts();
      SectorAt(fs.g, chain, j + 1, 0);
      fptr := fptr + bcs;
    }

    /** Where f_lseek starts to walk: the current cluster for a target in it or behind it, else the first. */
    method SeekStart(ofs: nat) returns (r: Alloc, rest: nat, ghost j: nat)
      requires Valid() && !error && 0 < ofs && (!canWrite ==> ofs <= fsize)
      modifies this`fptr, this`chain, this`orgClust, this`currClust, this`error, fs, fs.win, fs.disk
      ensures |fs.img| == |old(fs.img)|
      ensures OnlyOwn(fs.g, old(fs.fat), old(fs.img), old(chain), fs.fat, fs.img, chain)
      ensures WindowStayed()
      ensures r.Bad? <==> error
      ensures r.Bad? ==> fs.Valid() && canWrite && A.HasOne(fs.fat) && chain == [] && orgClust == 1
      ensures !r.Bad? ==> Ok() && Limits() && Stored() == old(Stored())
      ensures r.Full? ==> chain == [] && fptr == 0 && A.NoneFree(fs.fat) && canWrite
      ensures r.Got? ==> j < |chain| && currClust == chain[j] && 0 < rest && fptr + rest == ofs
      ensures r.Got? ==> fs.g.csize > 0 && fptr == 512 * Sectors(j, fs.g.csize)
    {
      hide fs.Valid, A.Chain, InImage, Bytes, SectorsOf, OnlyOwn, A.NoneFree, A.HasOne, ClusterOf, BitClear,
           GeometryOk, IsPow2;
      Facts();
      Nothing(fs.g, fs.fat, fs.img, chain);
      ChainStart();
      FirstSector(fs.g, chain);
      ValidVolume();
      StoredIsHead();
      var ifptr := fptr;
      fptr := 0;
      StoredIsHead();
      var bcs := fs.g.csize * 512;
      j := 0;
      if ifptr > 0 && (ofs - 1) / bcs >= (ifptr - 1) / bcs {
        j := SameOrLater(ifptr, ofs);
        fptr := BitClear(ifptr - 1, bcs - 1);
        StoredIsHead();
        return Got, ofs - fptr, j;
      }
      if orgClust == 0 {
        r := SeekFirst();
        return r, ofs, 0;
      }
      currClust := orgClust;
      return Got, ofs, 0;
    }

    /** A target in the current cluster or behind it: the walk may start at the current cluster. */
    lemma SameOrLater(ifptr: nat, ofs: nat) returns (j: nat)
      requires Ok() && 0 < ifptr <= 512 * |Sects()| && 0 < ofs
      requires fs.g.csize > 0 && ClusterOf(fs.g, (ifptr - 1) / 512) < |chain|
      requires (ofs - 1) / (fs.g.csize * 512) >= (ifptr - 1) / (fs.g.csize * 512)
      ensures j == ClusterOf(fs.g, (ifptr - 1) / 512) && fs.g.csize * 512 - 1 >= 0
      ensures BitClear(ifptr - 1, fs.g.csize * 512 - 1) == 512 * Sectors(j, fs.g.csize) < ofs
      ensures 512 * Sectors(j, fs.g.csize) <= ifptr
    {
      hide Ok, IsPow2, BitClear, ClusterOf, SectorsOf, Sectors;
      Pow2();
      j := ClusterOf(fs.g, (ifptr - 1) / 512);
      StartOfCluster(fs.g, ifptr - 1, ofs - 1);
    }

    lemma Pow2()
      requires Ok()
      ensures IsPow2(fs.g.csize)
    {
      Facts();
    }

    /** f_lseek on a file without clusters. */
    method SeekFirst() returns (r: Alloc)
      requires Ok() && Limits() && chain == [] && fptr == 0 && !error
      modifies this`chain, this`orgClust, this`currClust, this`error, fs, fs.win, fs.disk
      ensures |fs.img| == |old(fs.img)|
      ensures OnlyOwn(fs.g, old(fs.fat), old(fs.img), old(chain), fs.fat, fs.img, chain)
      ensures WindowStayed()
      ensures r.Bad? <==> error
      ensures r.Bad? ==> fs.Valid() && A.HasOne(fs.fat) && chain == [] && orgClust == 1
      ensures !r.Bad? ==> Ok() && Limits() && Stored() == old(Stored())
      ensures r.Full? ==> chain == [] && A.NoneFree(fs.fat)
      ensures r.Got? ==> |chain| > 0 && currClust == chain[0]
    {
      hide fs.Valid, A.Chain, InImage, Bytes, SectorsOf, OnlyOwn, A.NoneFree, A.HasOne, Content;
      StoredIsHead();
      var clst := StartChain();
      if clst == 1 {
        error := true;
        return Bad;
      }
      StoredIsHead();
      currClust := clst;
      r := if clst == 0 then Full else Got;
    }

    /** The end of f_lseek: the pointer in the cluster, its sector in the buffer, the size if it grew. */
    method SeekFinish(ofs: nat, ghost j: nat)
      requires Ok() && Limits() && j < |chain| && currClust == chain[j] && fs.g.csize > 0
      requires fptr == 512 * Sectors(j, fs.g.csize) && 0 < ofs <= 512 * fs.g.csize && fptr + ofs < TWO_TO_32
                 && fsize < TWO_TO_32
      modifies this`fptr, this`fsize, this`dirty, this`written, this`dsect, buf, fs`img, fs.disk
      ensures Valid() && fptr == old(fptr) + ofs && fs.fat == old(fs.fat)
      ensures fsize == if fptr > old(fsize) then fptr else old(fsize)
      ensures |fs.img| == |old(fs.img)| && Content()[..old(fsize)] == old(Stored())
      ensures OnlyOwn(fs.g, fs.fat, old(fs.img), chain, fs.fat, fs.img, chain)
      ensures written == (old(written) || fptr > old(fsize))
      ensures dsect == old(dsect) || dsect in Sects()
    {
      hide Ok, Limits, Stored, Content, OnlyOwn, Clust2Sect, ClusterOf, Sects, SectorsOf, Sectors;
      ByteInCluster(fs.g, chain, j, ofs);
      MovePointer(ofs);
      var nsect := 0;
      if ofs % 512 != 0 {
        nsect := Clust2Sect(fs.g, currClust);
        nsect := nsect + ofs / 512;
      }
      StoredIsHead();
      SettleBuffer(nsect);
      StoredIsHead();
      GrowSize();
    }

    method MovePointer(ofs: nat)
      requires Ok() && Limits() && fptr + ofs <= 512 * |SectorsOf(fs.g, chain)|
      modifies this`fptr
      ensures Ok() && Limits() && fptr == old(fptr) + ofs && Stored() == old(Stored()) && fptr <= 512 * |Sects()|
      ensures Sects() == SectorsOf(fs.g, chain)
    {
      hide Ok, InImage, Bytes, SectorsOf;
      fptr := fptr + ofs;
    }

    /** The size grows to the pointer. */
    method GrowSize()
      requires Ok() && Limits() && Cursor() && fptr < TWO_TO_32 && fsize < TWO_TO_32
      modifies this`fsize, this`written
      ensures Valid() && fsize == (if fptr > old(fsize) then fptr else old(fsize))
      ensures Content() == old(Content()) && old(fsize) <= |Content()| && Content()[..old(fsize)] == old(Stored())
      ensures written == (old(written) || fptr > old(fsize))
    {
      hide Ok, Bytes, SectorsOf, ClusterOf;
      StoredIsHead();
      if fptr > fsize {
        fsize := fptr;
        written := true;
      }
    }

    /** Loads the sector of a pointer inside a sector unless it is in the buffer. */
    method SettleBuffer(nsect: nat)
      requires Ok() && Limits()
      requires fptr % 512 != 0 ==> fptr / 512 < |Sects()| && nsect == Sects()[fptr / 512]
      modifies this`dirty, this`dsect, buf, fs`img, fs.disk
      ensures Ok() && Limits() && fs.fat == old(fs.fat) && |fs.img| == |old(fs.img)| && Content() == old(Content())
      ensures OnlyOwn(fs.g, fs.fat, old(fs.img), chain, fs.fat, fs.img, chain)
      ensures fptr % 512 != 0 ==> dsect == nsect
      ensures dsect == old(dsect) || dsect in Sects()
    {
      hide fs.Valid, A.Chain, InImage, Bytes, OnlyOwn, SectorsOf, RunBytes;
      Nothing(fs.g, fs.fat, fs.img, chain);
      if fptr % 512 != 0 && nsect != dsect {
        Flush();
        OwnRun(nsect);
        RunOfOne(fs.img, nsect);
        ghost var d0, b0 := dsect, buf[..];
        fs.ReadData(buf, 0, nsect, 1);
        dsect := nsect;
        CleanBuffer(fs.img, Sects(), Len(), d0, b0, dsect, buf[..]);
      }
    }

    /**
     f_lseek. Reading, the target is clipped to the size; writing, the chain is
     stretched to the target and clipped where the volume is full.
     */
    method Seek(target: nat) returns (res: FResult)
      requires Valid() && target < TWO_TO_32
      modifies this`fptr, this`fsize, this`dirty, this`written, this`dsect, this`chain, this`orgClust, this`currClust,
               this`error
      modifies buf, fs, fs.win, fs.disk
      ensures old(error) ==> res == INT_ERR && Valid() && fptr == old(fptr) && Content() == old(Content())
      ensures !old(error) ==> res == OK || (res == INT_ERR && error && canWrite && A.HasOne(fs.fat))
      ensures !old(error) && res == INT_ERR ==>
                && fsize == old(fsize)
                && if chain == [] then orgClust == 1 && old(Content()) == []
                   else Ok() && Limits() && Stored() == old(Content())
      ensures res == OK ==> Valid() && !error && fsize == if fptr > old(fsize) then fptr else old(fsize)
      ensures res == OK ==> Content()[..old(fsize)] == old(Content())
      ensures res == OK && !canWrite ==> fptr == if target > old(fsize) then old(fsize) else target
      ensures res == OK && canWrite ==>
                fptr == target || (fptr < target && fptr == 512 * |Sects()| && A.NoneFree(fs.fat))
      ensures res == OK && fsize > old(fsize) ==> written
      ensures !old(error) && target == 0 ==> res == OK
      ensures res == OK && target == 0 ==> dirty == old(dirty) && dsect == old(dsect) && chain == old(chain)
      ensures OnlyOwn(fs.g, old(fs.fat), old(fs.img), old(chain), fs.fat, fs.img, chain)
      ensures (old(OwnsBuffer()) ==> OwnsBuffer()) && WindowStayed() && fs.Valid()
    {
      hide fs.Valid, Ok, Limits, Cursor, OnlyOwn, Content, Stored, A.NoneFree, A.HasOne, SectorsOf;
      Nothing(fs.g, fs.fat, fs.img, chain);
      StoredIsAll();
      ValidVolume();
      if error {
        return INT_ERR;
      }
      var ofs := target;
      if ofs > fsize && !canWrite {
        ofs := fsize;
      }
      if ofs == 0 {
        Rewind();
        return OK;
      }
      var r := SeekTo(ofs);
      res := if r.Bad? then INT_ERR else OK;
    }

    /** f_lseek to a target other than the start of the file. */
    method SeekTo(target: nat) returns (r: Alloc)
      requires Valid() && 0 < target < TWO_TO_32 && !error && (!canWrite ==> target <= fsize)
      modifies this`fptr, this`fsize, this`dirty, this`written, this`dsect, this`chain, this`orgClust, this`currClust,
               this`error
      modifies buf, fs, fs.win, fs.disk
      ensures r.Bad? <==> error
      ensures r.Bad? ==> canWrite && A.HasOne(fs.fat) && fsize == old(fsize)
      ensures r.Bad? ==>
                if chain == [] then orgClust == 1 && old(Content()) == []
                else Ok() && Limits() && Stored() == old(Content())
      ensures !r.Bad? ==> Valid() && fsize == if fptr > old(fsize) then fptr else old(fsize)
      ensures !r.Bad? ==> Content()[..old(fsize)] == old(Content())
      ensures r.Got? ==> fptr == target
      ensures r.Full? ==> canWrite && fptr < target && fptr == 512 * |Sects()| && A.NoneFree(fs.fat)
      ensures !r.Bad? && fsize > old(fsize) ==> written
      ensures OnlyOwn(fs.g, old(fs.fat), old(fs.img), old(chain), fs.fat, fs.img, chain)
      ensures (old(OwnsBuffer()) ==> OwnsBuffer()) && WindowStayed() && fs.Valid()
    {
      hide fs.Valid, Ok, Limits, Cursor, OnlyOwn, Content, Stored, A.NoneFree, A.HasOne, SectorsOf;
      StoredIsAll();
      EmptyFile();
      ghost var j;
      var ofs;
      r, ofs, j := SeekStart(target);
      StillOwned(old(chain), old(fs.fat), old(fs.img), old(dsect));
      NoClustersBefore(old(chain), old(fs.fat), old(fs.img));
      if r.Bad? {
        return;
      }
      if r.Full? {
        Rewind();
        ValidVolume();
        EmptyChain();
        return;
      }
      ghost var fat1, img1, chain1 := fs.fat, fs.img, chain;
      r, ofs, j := SeekWalk(j, ofs);
      Chained(old(chain), old(fs.fat), old(fs.img), chain1, fat1, img1);
      StillOwned(old(chain), old(fs.fat), old(fs.img), old(dsect));
      if r.Bad? {
        return;
      }
      ChainEnd(j);
      fat1, img1, chain1 := fs.fat, fs.img, chain;
      SeekFinish(ofs, j);
      ValidVolume();
      Chained(old(chain), old(fs.fat), old(fs.img), chain1, fat1, img1);
      StillOwned(old(chain), old(fs.fat), old(fs.img), old(dsect));
    }

    lemma StoredIsAll()
      requires Valid()
      ensures Stored() == Content()
    {
    }

    lemma EmptyChain()
      requires chain == []
      ensures Sects() == []
    {
    }

    /** The last cluster of the file ends its sectors. */
    lemma ChainEnd(j: nat)
      requires j < |chain|
      ensures j + 1 == |chain| ==> 512 * |Sects()| == 512 * Sectors(j, fs.g.csize) + 512 * fs.g.csize
    {
      SectorsOfLength(fs.g, chain);
    }

    /** The pointer at the start of the file. */
    method Rewind()
      requires Ok() && Limits() && fsize < TWO_TO_32
      modifies this`fptr
      ensures Valid() && fptr == 0 && Content() == old(Stored())
    {
      Facts();
      fptr := 0;
    }

    // -------------------------------------------------------------- f_truncate

    /** All of Valid() but the claim that a dirty buffer belongs to the file. */
    ghost predicate Settled()
      reads this, buf, fs, fs.win, fs.disk
    {
      && ChainOk() && InImage(fs.img, Sects()) && Limits() && Cursor() && fptr <= fsize < TWO_TO_32
      && buf.Length == 512 && buf != fs.win && fs.winsect !in Sects()
      && (dsect != 0 ==> fs.g.database <= dsect < |fs.img|)
      && (!dirty && dsect != 0 ==> buf[..] == fs.img[dsect])
    }

    /** The clusters that hold the bytes below the pointer. */
    ghost function KeptClusters(): nat
      requires fs.g.csize > 0
      reads this`fptr
    {
      if fptr == 0 then 0 else ClusterOf(fs.g, (fptr - 1) / 512) + 1
    }

    /** A dirty buffer holds a sector of the clusters that f_truncate keeps, or f_truncate has nothing to cut. */
    ghost predicate BufferKept()
      requires fs.g.csize > 0
      reads this`dirty, this`fptr, this`fsize, this`chain, this`dsect
    {
      || !dirty || fptr == fsize
      || (KeptClusters() <= |chain| && dsect in SectorsOf(fs.g, chain[..KeptClusters()]))
    }

    /** f_truncate at the start of the file. */
    method CutAll() returns (ok: bool)
      requires Ok() && chain != []
      modifies this`chain, this`orgClust, fs, fs.win, fs.disk
      ensures ok && chain == [] && orgClust == 0 && fs.Valid() && fs.WindowInFat()
      ensures |fs.img| == |old(fs.img)| && SameOutsideFat(old(fs.img), fs.img, fs.g)
      ensures fs.Table() == A.RemoveChain(old(fs.Table()), old(orgClust)).0
      ensures |fs.fat| == |old(fs.fat)| && A.Freed(old(fs.fat), fs.fat, old(chain))
    {
      hide fs.Valid, SameOutsideFat, A.Chain, A.RemoveChain;
      A.RemoveWhole(fs.Table(), chain);
      ok := fs.RemoveChain(orgClust);
      orgClust := 0;
      chain := [];
    }

    /** f_truncate behind the current cluster, which is cluster j of the file. */
    method CutTail(ghost j: nat) returns (ok: bool)
      requires Ok() && j < |chain| && currClust == chain[j]
      modifies fs, fs.win, fs.disk
      ensures ok && fs.Valid() && fs.WindowInFat()
      ensures |fs.img| == |old(fs.img)| && SameOutsideFat(old(fs.img), fs.img, fs.g)
      ensures A.IsCluster(old(fs.fat), currClust) && fs.Table() == A.CutAfter(old(fs.Table()), currClust)
    {
      hide fs.Valid, SameOutsideFat, A.Chain, A.RemoveChain, Width, FatBytes, Store, Fits, InImage, SectorsOf;
      fs.TableFits();
      A.CutLink(fs.Table(), chain, j);
      EndMarkFits(fs.g.fsType, 0);
      SameSelf(fs.img, fs.g);
      var ncl := fs.GetFat(currClust);
      ok := true;
      if ncl == 1 {
        assert false;
      }
      if ncl < fs.g.nFatent {
        ok := fs.PutFat(currClust, 0x0FFF_FFFF);
        ghost var img1 := fs.img;
        ok := fs.RemoveChain(ncl);
        SameTrans(old(fs.img), img1, fs.img, fs.g);
      }
    }

    /** The chain of the file is cut behind cluster j. */
    lemma HeadRemains(t: A.Table, j: nat)
      requires A.TableOk(t) && A.Chain(t.fat, chain) && j < |chain| && fs.Valid()
      requires A.IsCluster(t.fat, chain[j]) && fs.Table() == A.CutAfter(t, chain[j])
      ensures A.Chain(fs.fat, chain[..j + 1]) && chain[..j + 1][0] == chain[0] && |fs.fat| == |t.fat|
      ensures forall c | c in chain[j + 1..] :: c < |t.fat| == |fs.fat| && fs.fat[c] == 0
      ensures forall c: nat | A.IsCluster(t.fat, c) && c !in chain :: fs.fat[c] == t.fat[c]
    {
      A.CutChain(t, chain, j);
    }

    /** The sectors of a head of the chain are a head of its sectors, and lie off a window on the FAT. */
    lemma HeadSectors(chain0: seq<nat>, img0: seq<Sector>, n: nat)
      requires fs.Valid() && fs.WindowInFat() && n <= |chain0| && chain == chain0[..n]
      requires Clusters(fs.g, chain0) && GeometryOk(fs.g, |img0|) && InImage(img0, SectorsOf(fs.g, chain0))
      requires |img0| == |fs.img| && SameOutsideFat(img0, fs.img, fs.g)
      ensures Sects() <= SectorsOf(fs.g, chain0) && InImage(fs.img, Sects()) && fs.winsect !in Sects()
      ensures |Sects()| == Sectors(n, fs.g.csize)
      ensures forall s | fs.g.database <= s < |img0| :: fs.img[s] == img0[s]
      ensures forall k | 0 <= k < |Sects()| :: fs.img[Sects()[k]] == img0[Sects()[k]]
    {
      SectorsOfPrefix(fs.g, chain0, n);
      SectorsOfLength(fs.g, chain);
      forall k | 0 <= k < |Sects()|
        ensures fs.g.database <= Sects()[k] < |fs.img| && fs.winsect != Sects()[k]
      {
        SectorInRange(fs.g, |fs.img|, chain, k);
      }
    }

    /** The bytes of the file when its buffer may have lost its sector. */
    ghost function Remaining(): (c: seq<byte>)
      requires Settled()
      reads this, buf, fs, fs.win, fs.disk
      ensures |c| == fsize
    {
      Bytes(fs.img, Sects(), dirty, dsect, buf[..], fsize)
    }

    lemma OwnBufferIsValid()
      requires Settled()
      ensures Valid() <==> (dirty ==> dsect in Sects())
      ensures Valid() ==> Content() == Remaining()
    {
    }

    /**
     f_truncate. The file keeps the bytes below the pointer and the clusters that
     hold them; the others are free. A dirty buffer is not written back: the file
     object stays valid exactly when, before the call, the buffer is clean, there is
     nothing to cut, or the sector of the buffer lies in a cluster that is kept.
     */
    method Truncate() returns (res: FResult)
      requires Valid()
      modifies this`fsize, this`written, this`chain, this`orgClust, fs, fs.win, fs.disk
      ensures res == if old(error) then INT_ERR else if !canWrite then DENIED else OK
      ensures error == old(error)
      ensures res != OK || old(fsize) == fptr ==>
                && Valid() && chain == old(chain) && fsize == old(fsize) && Content() == old(Content())
                && fs.fat == old(fs.fat)
      ensures res == OK ==> Settled() && fsize == fptr && Remaining() == old(Content())[..fptr]
      ensures res == OK ==> (Valid() <==> old(BufferKept()))
      ensures res == OK && (!dirty || fptr % 512 != 0) ==> Valid()
      ensures |fs.img| == |old(fs.img)| && SameOutsideFat(old(fs.img), fs.img, fs.g) && fs.Valid() && WindowStayed()
      ensures |fs.fat| == |old(fs.fat)|
      ensures forall c: nat | A.IsCluster(old(fs.fat), c) && c !in old(chain) :: fs.fat[c] == old(fs.fat)[c]
      ensures res == OK && fptr < old(fsize) ==>
                && written && KeptClusters() <= |old(chain)| && chain == old(chain)[..KeptClusters()]
                && fs.Table() == if fptr == 0 then A.RemoveChain(old(fs.Table()), old(orgClust)).0
                                 else A.CutAfter(old(fs.Table()), currClust)
    {
      hide fs.Valid, A.Chain, InImage, Bytes, SectorsOf, ClusterOf, A.RemoveChain, A.CutAfter;
      if error {
        return INT_ERR;
      }
      if !canWrite {
        return DENIED;
      }
      ghost var size0 := fsize;
      SameSelf(fs.img, fs.g);
      if fsize > fptr {
        fsize := fptr;
        written := true;
        CutBehind(size0);
      }
      OwnBufferIsValid();
      res := OK;
    }

    /** The chain is cut behind the cluster of the pointer. */
    method CutBehind(ghost size0: nat)
      requires Ok() && Cursor() && Limits() && fsize == fptr < size0 < TWO_TO_32 && size0 <= 512 * |Sects()|
      modifies this`chain, this`orgClust, fs, fs.win, fs.disk
      ensures Settled() && Remaining() == old(Bytes(fs.img, Sects(), dirty, dsect, buf[..], size0))[..fptr]
      ensures KeptClusters() <= |old(chain)| && chain == old(chain)[..KeptClusters()]
      ensures |fs.img| == |old(fs.img)| && SameOutsideFat(old(fs.img), fs.img, fs.g) && fs.WindowInFat()
      ensures |fs.fat| == |old(fs.fat)|
      ensures forall c: nat | A.IsCluster(old(fs.fat), c) && c !in old(chain) :: fs.fat[c] == old(fs.fat)[c]
      ensures fs.Table() == if fptr == 0 then A.RemoveChain(old(fs.Table()), old(orgClust)).0
                            else A.CutAfter(old(fs.Table()), currClust)
    {
      hide fs.Valid, A.Chain, InImage, Bytes, SectorsOf, ClusterOf, GeometryOk, Clusters, A.RemoveChain, A.CutAfter,
           SameOutsideFat, A.IsCluster;
      Facts();
      ghost var chain0, img0, t0 := chain, fs.img, fs.Table();
      if fptr == 0 {
        FirstSector(fs.g, chain);
        var ok := CutAll();
      } else {
        ghost var j := ClusterOf(fs.g, (fptr - 1) / 512);
        fs.TableFits();
        var ok := CutTail(j);
        HeadRemains(t0, j);
        chain := chain[..j + 1];
      }
      KeptHolds();
      HeadSectors(chain0, img0, KeptClusters());
      HeadBytes(img0, fs.img, SectorsOf(fs.g, chain0), Sects(), dirty, dsect, buf[..], fptr, size0);
    }

    /** The kept clusters hold the bytes below the pointer. */
    lemma KeptHolds()
      requires fs.g.csize > 0
      ensures fptr <= 512 * Sectors(KeptClusters(), fs.g.csize)
      ensures fptr % 512 != 0 ==> fptr / 512 < Sectors(KeptClusters(), fs.g.csize)
    {
      if fptr > 0 {
        var k := (fptr - 1) / 512;
        IndexSplit(fs.g, k);
        assert Sectors(KeptClusters(), fs.g.csize) == Sectors(ClusterOf(fs.g, k), fs.g.csize) + fs.g.csize;
      }
    }

    // -------------------------------------------------------------- beside other files

    /** Ok() on a volume with this table, image and window. */
    ghost predicate OkOn(fat: seq<nat>, img: seq<Sector>, winsect: nat)
      reads this`chain, this`orgClust, this`dirty, this`dsect, buf
    {
      && (if chain == [] then orgClust == 0 else A.Chain(fat, chain) && chain[0] == orgClust)
      && buf.Length == 512 && buf != fs.win
      && (dirty ==> dsect in Sects())
      && (dsect != 0 ==> fs.g.database <= dsect < |img|)
      && (!dirty && dsect != 0 ==> buf[..] == img[dsect])
      && winsect !in Sects() && InImage(img, Sects())
    }

    /** The content on such a volume. */
    ghost function ContentOn(fat: seq<nat>, img: seq<Sector>, winsect: nat): seq<byte>
      requires OkOn(fat, img, winsect) && Limits()
      reads this`chain, this`orgClust, this`dirty, this`dsect, this`fptr, this`fsize, buf
    {
      Bytes(img, Sects(), dirty, dsect, buf[..], Len())
    }

    /** The volume of a valid file, in values. */
    lemma OnVolume()
      requires Valid()
      ensures Limits() && OkOn(fs.fat, fs.img, fs.winsect) && Content() == ContentOn(fs.fat, fs.img, fs.winsect)
      ensures GeometryOk(fs.g, |fs.img|) && |fs.fat| == fs.g.nFatent && Clusters(fs.g, chain)
    {
      Facts();
    }

    /** All of Valid() but the claim that a clean buffer holds its sector. */
    ghost predicate Intact()
      reads this, buf, fs, fs.win, fs.disk
    {
      && ChainOk() && InImage(fs.img, Sects()) && Limits() && Cursor() && fptr <= fsize < TWO_TO_32
      && buf.Length == 512 && buf != fs.win && fs.winsect !in Sects()
      && (dirty ==> dsect in Sects()) && (dsect != 0 ==> fs.g.database <= dsect < |fs.img|)
    }

    /** The bytes of the file, whatever a clean buffer holds. */
    ghost function Held(): (c: seq<byte>)
      requires Intact()
      reads this, buf, fs, fs.win, fs.disk
      ensures |c| == fsize
    {
      Bytes(fs.img, Sects(), dirty, dsect, buf[..], fsize)
    }

    /** A clean buffer holds its sector. */
    ghost predicate BufferCurrent()
      requires dsect < |fs.img|
      reads this`dirty, this`dsect, buf, fs`img
    {
      dirty || dsect == 0 || buf[..] == fs.img[dsect]
    }

    /** What is intact is valid exactly if a clean buffer holds its sector. */
    lemma IntactIsValid()
      requires Intact() && |fs.img| > 0
      ensures dsect < |fs.img| && (Valid() <==> BufferCurrent())
      ensures Valid() ==> Content() == Held()
    {
    }

    /** A valid file on a volume where its links, its sectors and the window outside the FAT stayed. */
    lemma StaysIntact(fat0: seq<nat>, img0: seq<Sector>, w0: nat)
      requires OkOn(fat0, img0, w0) && Limits() && Cursor() && fptr <= fsize < TWO_TO_32
      requires fs.Valid() && (fs.winsect == w0 || fs.WindowInFat() || fs.winsect !in Sects()) && |fs.fat| == |fat0|
                 && |fs.img| == |img0|
      requires GeometryOk(fs.g, |img0|) && |fat0| == fs.g.nFatent
      requires (chain == [] || A.Chain(fs.fat, chain)) && forall s | s in Sects() :: fs.g.database <= s
      requires forall k | 0 <= k < |Sects()| :: Sects()[k] < |img0| && fs.img[Sects()[k]] == img0[Sects()[k]]
      ensures Intact() && Held() == ContentOn(fat0, img0, w0)
      ensures |fs.img| > 0 && dsect < |fs.img| && (Valid() <==> BufferCurrent()) && (Valid() ==> Content() == Held())
      ensures dsect == 0 || dsect in Sects() ==> Valid()
    {
      hide fs.Valid, SectorsOf, Bytes, A.Chain, ClusterOf;
      GeometryFacts(fs.g, |img0|);
      FrameKeepsBytes(img0, fs.img, Sects(), dirty, dsect, buf[..], Len());
      IntactIsValid();
    }

    /** What a write or a seek of another file did to the volume does not show in this file. */
    lemma KeptBeside(fat0: seq<nat>, img0: seq<Sector>, w0: nat, chain0: seq<nat>, chain1: seq<nat>)
      requires OkOn(fat0, img0, w0) && Limits() && Cursor() && fptr <= fsize < TWO_TO_32
      requires GeometryOk(fs.g, |img0|) && |fat0| == fs.g.nFatent
      requires fs.Valid() && (fs.winsect == w0 || fs.WindowInFat())
      requires OnlyOwn(fs.g, fat0, img0, chain0, fs.fat, fs.img, chain1)
      requires Clusters(fs.g, chain1) && A.Disjoint(chain0, chain)
      ensures A.Disjoint(chain1, chain) && Intact() && Held() == ContentOn(fat0, img0, w0)
      ensures |fs.img| > 0 && dsect < |fs.img| && (Valid() <==> BufferCurrent()) && (Valid() ==> Content() == Held())
      ensures dsect == 0 || dsect in Sects() ==> Valid()
    {
      hide fs.Valid, InImage, SectorsOf, Bytes, GeometryOk, Clusters, A.Chain, OnlyOwn, Cursor;
      OtherKept(fs.g, fat0, img0, chain0, fs.fat, fs.img, chain1, chain);
      OwnSizes(fs.g, fat0, img0, chain0, fs.fat, fs.img, chain1);
      StaysIntact(fat0, img0, w0);
    }

    /** Nor does what a truncation of another file did. */
    lemma KeptBesideCut(fat0: seq<nat>, img0: seq<Sector>, w0: nat, chain0: seq<nat>)
      requires OkOn(fat0, img0, w0) && Limits() && Cursor() && fptr <= fsize < TWO_TO_32
      requires GeometryOk(fs.g, |img0|) && |fat0| == fs.g.nFatent && Clusters(fs.g, chain)
      requires fs.Valid() && (fs.winsect == w0 || fs.WindowInFat()) && |fs.fat| == |fat0| && |fs.img| == |img0|
      requires SameOutsideFat(img0, fs.img, fs.g) && A.Disjoint(chain0, chain)
      requires forall c: nat | A.IsCluster(fat0, c) && c !in chain0 :: fs.fat[c] == fat0[c]
      ensures Intact() && Held() == ContentOn(fat0, img0, w0)
      ensures |fs.img| > 0 && dsect < |fs.img| && (Valid() <==> BufferCurrent()) && (Valid() ==> Content() == Held())
      ensures dsect == 0 || dsect in Sects() ==> Valid()
    {
      hide fs.Valid, SectorsOf, Bytes, GeometryOk, Cursor;
      if chain != [] {
        forall c | c in chain ensures c < |fat0| && fs.fat[c] == fat0[c] {
          A.EntryOfChain(fat0, chain, c);
        }
        A.ChainFrame(fat0, fs.fat, chain);
      }
      forall k | 0 <= k < |Sects()| ensures fs.g.database <= Sects()[k] < |img0| && FatEnd(fs.g) <= Sects()[k] {
        SectorInRange(fs.g, |img0|, chain, k);
        GeometryFacts(fs.g, |img0|);
      }
      StaysIntact(fat0, img0, w0);
    }
  }

  lemma OwnSizes(g: Geometry, fat0: seq<nat>, img0: seq<Sector>, chain0: seq<nat>,
                 fat1: seq<nat>, img1: seq<Sector>, chain1: seq<nat>)
    requires OnlyOwn(g, fat0, img0, chain0, fat1, img1, chain1)
    ensures |fat1| == |fat0| && |img1| == |img0|
  {
  }
}
