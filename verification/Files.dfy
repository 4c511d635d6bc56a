/**
 Several files on one volume: what an operation on one of them leaves of the
 others, and where f_truncate breaks that.
 */
module Files {
  import opened Bits
  import opened BlockDevice
  import opened Volume
  import opened Layout
  import opened FileBytes
  import opened File
  import A = Allocator

  /** A byte position divided by the cluster size in bytes, and the sector it has in its cluster. */
  function ByteCluster(g: Geometry, p: nat): int
    requires g.csize > 0
  {
    p / (g.csize * 512)
  }

  function ByteSector(g: Geometry, p: nat): int
    requires g.csize > 0
  {
    p % (g.csize * 512) / 512
  }

  /** Cursor(), a part of Valid(), in the source's own divisions. */
  lemma CursorByDivision(f: FIL)
    requires f.Cursor() && f.fptr > 0
    ensures f.fs.g.csize > 0 && 0 <= ByteCluster(f.fs.g, f.fptr - 1) < |f.chain|
    ensures f.currClust == f.chain[ByteCluster(f.fs.g, f.fptr - 1)]
    ensures f.fptr % 512 != 0 ==> f.dsect == Clust2Sect(f.fs.g, f.currClust) + ByteSector(f.fs.g, f.fptr)
  {
    ClusterOfByte(f.fs.g, f.fptr - 1);
    ClusterOfByte(f.fs.g, f.fptr);
    if f.fptr % 512 != 0 {
      assert (f.fptr - 1) / 512 == f.fptr / 512;
      SectorOfIndex(f.fs.g, f.chain, f.fptr / 512);
    }
  }

  /** Two open files of one volume with no cluster in common. */
  ghost predicate Neighbours(f: FIL, h: FIL)
    reads f`chain, h`chain
  {
    f.fs == h.fs && f != h && f.buf != h.buf && h.buf != f.fs.win && A.Disjoint(f.chain, h.chain)
  }

  /**
   f_write on one open file is invisible to another one: its bytes stay, and it stays
   valid unless its clean buffer holds a sector it gave up and that sector was written.
   */
  method WriteBeside(f: FIL, h: FIL, buff: seq<byte>) returns (res: FResult, bw: nat)
    requires f.Valid() && h.Valid() && Neighbours(f, h)
    modifies f, f.buf, f.fs, f.fs.win, f.fs.disk
    ensures h.Intact() && h.Held() == old(h.Content()) && h.dsect < |h.fs.img|
    ensures h.Valid() <==> h.BufferCurrent()
    ensures h.OwnsBuffer() ==> h.Valid()
    ensures h.Valid() ==> h.Content() == old(h.Content())
    ensures Neighbours(f, h) && (res == OK ==> f.Valid())
  {
    hide FATFS.Valid, FIL.Ok, FIL.Limits, FIL.Cursor, FIL.Content, FIL.OkOn, FIL.ContentOn, FIL.Intact, FIL.Held,
         OnlyOwn, Clusters, GeometryOk, A.Disjoint, FIL.Sects;
    f.OnVolume();
    h.OnVolume();
    ghost var fat0, img0, w0, chain0 := f.fs.fat, f.fs.img, f.fs.winsect, f.chain;
    res, bw := f.Write(buff);
    OwnClusters(f.fs.g, fat0, img0, chain0, f.fs.fat, f.fs.img, f.chain);
    h.KeptBeside(fat0, img0, w0, chain0, f.chain);
  }

  /** So is f_lseek, which may stretch the file. */
  method SeekBeside(f: FIL, h: FIL, target: nat) returns (res: FResult)
    requires f.Valid() && h.Valid() && Neighbours(f, h) && target < TWO_TO_32
    modifies f, f.buf, f.fs, f.fs.win, f.fs.disk
    ensures h.Intact() && h.Held() == old(h.Content()) && h.dsect < |h.fs.img|
    ensures h.Valid() <==> h.BufferCurrent()
    ensures h.OwnsBuffer() ==> h.Valid()
    ensures h.Valid() ==> h.Content() == old(h.Content())
    ensures Neighbours(f, h) && (res == OK ==> f.Valid())
  {
    hide FATFS.Valid, FIL.Ok, FIL.Limits, FIL.Cursor, FIL.Content, FIL.OkOn, FIL.ContentOn, FIL.Intact, FIL.Held,
         OnlyOwn, Clusters, GeometryOk, A.Disjoint, FIL.Sects;
    f.OnVolume();
    h.OnVolume();
    ghost var fat0, img0, w0, chain0 := f.fs.fat, f.fs.img, f.fs.winsect, f.chain;
    res := f.Seek(target);
    OwnClusters(f.fs.g, fat0, img0, chain0, f.fs.fat, f.fs.img, f.chain);
    h.KeptBeside(fat0, img0, w0, chain0, f.chain);
  }

  /** And f_truncate. */
  method TruncateBeside(f: FIL, h: FIL) returns (res: FResult)
    requires f.Valid() && h.Valid() && Neighbours(f, h)
    modifies f, f.buf, f.fs, f.fs.win, f.fs.disk
    ensures h.Intact() && h.Held() == old(h.Content()) && h.dsect < |h.fs.img|
    ensures h.Valid() <==> h.BufferCurrent()
    ensures h.OwnsBuffer() ==> h.Valid()
    ensures h.Valid() ==> h.Content() == old(h.Content())
    ensures Neighbours(f, h) && f.fs.g.csize > 0 && (f.Valid() <==> res != OK || old(f.BufferKept()))
  {
    hide FATFS.Valid, FIL.Ok, FIL.Limits, FIL.Cursor, FIL.Content, FIL.OkOn, FIL.ContentOn, FIL.Intact, FIL.Held,
         FIL.Settled, SameOutsideFat, Clusters, GeometryOk, A.Disjoint, FIL.Sects;
    f.Facts();
    f.OnVolume();
    h.OnVolume();
    ghost var fat0, img0, w0, chain0 := f.fs.fat, f.fs.img, f.fs.winsect, f.chain;
    res := f.Truncate();
    h.KeptBesideCut(fat0, img0, w0, chain0);
    HeadDisjoint(chain0, f.KeptClusters(), h.chain);
  }

  lemma HeadDisjoint(a: seq<nat>, n: nat, b: seq<nat>)
    requires A.Disjoint(a, b)
    ensures n <= |a| ==> A.Disjoint(a[..n], b)
  {
  }

  /**
   One byte written to an empty file, a seek to its start and f_truncate: the
   cluster is free again, and the file object still means to write its buffer
   to it.
   */
  method TruncateLosesBuffer(f: FIL, x: byte) returns (hit: bool)
    requires f.Valid() && !f.error && f.canWrite && f.chain == [] && f.fptr == 0 && f.fsize == 0
    modifies f, f.buf, f.fs, f.fs.win, f.fs.disk
    ensures hit ==> f.dirty && f.chain == [] && f.dsect !in f.Sects() && !f.Valid() && f.Settled()
    ensures !hit ==> f.error || A.NoneFree(f.fs.fat)
  {
    hide FATFS.Valid, FIL.Ok, FIL.Limits, FIL.Cursor, FIL.Content, OnlyOwn, A.NoneFree, A.HasOne, Splice;
    var res, bw := f.Write([x]);
    if res != OK || bw == 0 {
      return false;
    }
    res := f.Seek(0);
    res := f.Truncate();
    f.EmptyChain();
    hit := true;
  }

  /** Once another file has that cluster, the write-back replaces the bytes of a whole sector of that file. */
  lemma WriteBackHits(f: FIL, h: FIL, k: nat)
    requires f.dirty && f.buf.Length == 512 && h.fs == f.fs
    requires h.Intact() && !h.dirty && k < |h.Sects()| && h.Sects()[k] == f.dsect && f.dsect < |f.fs.img|
               && 512 * k < h.fsize
    ensures Shown(f.fs.img[f.dsect := f.buf[..]], h.Sects(), h.fsize)
    ensures var after := Bytes(f.fs.img[f.dsect := f.buf[..]], h.Sects(), h.dirty, h.dsect, h.buf[..], h.fsize);
            forall i | 512 * k <= i < 512 * k + 512 && i < h.fsize :: after[i] == f.buf[i - 512 * k]
  {
    hide FATFS.Valid, SectorsOf;
  }
}
