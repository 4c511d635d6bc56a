/**
 The second, read-only file reader: a one-sector cache over the device, the next
 cluster of a chain, and a file handle with its read and seek.
 */
module FatCursor {
  import opened Bits
  import opened FatTable
  import opened BlockDevice
  import opened Volume
  import opened Layout
  import opened FileBytes

  const NO_SECTOR := 0xFFFF_FFFE   // nothing in the cache yet

  /** Entries from here on end a chain. */
  function EndOfFile(t: FatType): nat {
    Width(t) - 8
  }

  /** FAT16 or FAT32, 512-byte sectors, clusters whose size in bytes fits 16 bits. */
  predicate ReaderGeometry(g: Geometry, total: nat) {
    && !g.fsType.FAT12? && 0 < g.csize && g.csize * 512 < 0x1_0000
    && 3 <= g.nFatent <= EndOfFile(g.fsType)
    && g.fatbase + g.fsize <= total <= NO_SECTOR
    && Fits(g.fsType, 512 * g.fsize, g.nFatent - 1)
    && g.database + Sectors(g.nFatent - 2, g.csize) <= total
  }

  /** Which usable volumes these are. */
  lemma ReaderVolumes(g: Geometry, total: nat)
    requires GeometryOk(g, total)
    ensures ReaderGeometry(g, total) <==>
              && !g.fsType.FAT12? && g.csize < 128 && total <= 0xFFFF_FFFE
              && g.nFatent <= if g.fsType.FAT16? then 0xFFF8 else 0x0FFF_FFF8
  {
    hide Sectors, Fits;
  }

  /** The link of a cluster on the device. */
  function Link(img: seq<Sector>, g: Geometry, c: nat): nat
    requires g.fatbase + g.fsize <= |img| && c < g.nFatent && Fits(g.fsType, 512 * g.fsize, g.nFatent - 1)
  {
    FitsBelow(g.fsType, 512 * g.fsize, g.nFatent, c);
    Load(g.fsType, FatBytes(img, g), c)
  }

  /** The clusters of a file, each linked to the next. */
  ghost predicate LinkedChain(img: seq<Sector>, g: Geometry, chain: seq<nat>) {
    && ReaderGeometry(g, |img|) && Clusters(g, chain)
    && forall i | 0 <= i < |chain| - 1 :: Link(img, g, chain[i]) == chain[i + 1]
  }

  class Reader {
    const g: Geometry
    const disk: Disk
    const buffer: array<byte>      // sector_buffer
    var inBuffer: nat              // sector_in_buffer

    constructor (g: Geometry, disk: Disk)
      requires ReaderGeometry(g, |disk.sectors|)
      ensures Valid() && this.g == g && this.disk == disk && fresh(buffer)
    {
      this.g, this.disk := g, disk;
      buffer := new byte[512];
      inBuffer := NO_SECTOR;
    }

    ghost predicate Valid()
      reads this`inBuffer, disk, buffer
    {
      && ReaderGeometry(g, |disk.sectors|) && buffer.Length == 512
      && (inBuffer < |disk.sectors| ==> buffer[..] == disk.sectors[inBuffer])
    }

    /** readsector: reads a sector into the cache unless it is there. */
    method ReadSector(lba: nat)
      requires Valid() && lba < |disk.sectors|
      modifies this`inBuffer, buffer
      ensures Valid() && inBuffer == lba && buffer[..] == disk.sectors[lba]
    {
      if lba == inBuffer {
        return;
      }
      inBuffer := lba;
      RunOfOne(disk.sectors, lba);
      disk.Read(buffer, 0, lba, 1);
      assert buffer[..] == disk.sectors[lba];
    }

    /** fat_nextcluster: the link of a cluster, 0 at the end of the chain. */
    method NextCluster(cluster: nat) returns (r: nat)
      requires Valid() && 2 <= cluster < g.nFatent
      modifies this`inBuffer, buffer
      ensures Valid()
      ensures var e := Link(disk.sectors, g, cluster);
              r == if e >= (if g.fsType.FAT16? then 0xFFF8 else 0x0FFF_FFF8) then 0 else e
    {
      FitsBelow(g.fsType, 512 * g.fsize, g.nFatent, cluster);
      var offset := EntryAt(g.fsType, cluster);
      ReadSector(g.fatbase + offset / 512);
      r := EntryInBuffer(cluster, offset % 512);
      if r >= EndOfFile(g.fsType) {
        r := 0;
      }
    }

    /** The entry at an offset of the cached FAT sector. */
    method EntryInBuffer(cluster: nat, o: nat) returns (e: nat)
      requires Valid() && cluster < g.nFatent && o == EntryAt(g.fsType, cluster) % 512
      requires Fits(g.fsType, 512 * g.fsize, cluster)
      requires inBuffer == g.fatbase + EntryAt(g.fsType, cluster) / 512
      ensures e == Link(disk.sectors, g, cluster)
    {
      hide FatBytes;
      if g.fsType.FAT32? {
        DWordInSector(disk.sectors, g, cluster, buffer[..], o);
        e := DWord(buffer[o], buffer[o + 1], buffer[o + 2], buffer[o + 3]) % 0x1000_0000;
      } else {
        WordInSector(disk.sectors, g, cluster, buffer[..], o);
        e := Word(buffer[o], buffer[o + 1]);
      }
    }
  }

  /** The first n bytes of the file that lies in these sectors of the card. */
  function CardBytes(img: seq<Sector>, sects: seq<nat>, n: nat): (r: seq<byte>)
    requires Shown(img, sects, n)
    ensures |r| == n
  {
    seq(n, i requires 0 <= i < n => img[sects[i / 512]][i % 512])
  }

  /** n bytes of a file inside one of its sectors. */
  lemma PieceOfCard(img: seq<Sector>, sects: seq<nat>, size: nat, p: nat, n: nat)
    requires Shown(img, sects, size) && p + n <= size && 0 < n && p % 512 + n <= 512
    ensures p / 512 < |sects| && sects[p / 512] < |img|
    ensures Slice(CardBytes(img, sects, size), p, n) == Slice(img[sects[p / 512]], p % 512, n)
  {
    var c, d := Slice(CardBytes(img, sects, size), p, n), Slice(img[sects[p / 512]], p % 512, n);
    forall j | 0 <= j < n ensures c[j] == d[j] {
      InSameSector(p, j, n);
    }
  }

  lemma InSameSector(p: nat, j: nat, n: nat)
    requires j < n && p % 512 + n <= 512
    ensures (p + j) / 512 == p / 512 && (p + j) % 512 == p % 512 + j
  {
  }

  /** The sectors of a chain lie on the card. */
  lemma ChainInImage(img: seq<Sector>, g: Geometry, chain: seq<nat>)
    requires LinkedChain(img, g, chain)
    ensures InImage(img, SectorsOf(g, chain))
  {
    forall k | 0 <= k < |SectorsOf(g, chain)| ensures SectorsOf(g, chain)[k] < |img| {
      SectorOfIndex(g, chain, k);
      SectorsGrow(chain[ClusterOf(g, k)] - 2, g.nFatent - 2, g.csize);
    }
  }

  /** A link of a chain is below every end mark and not 0. */
  lemma LinkedNext(img: seq<Sector>, g: Geometry, chain: seq<nat>, i: nat)
    requires LinkedChain(img, g, chain) && i < |chain|
    ensures g.csize > 0 && 2 <= chain[i] < g.nFatent <= EndOfFile(g.fsType)
    ensures g.fatbase + g.fsize <= |img| && Fits(g.fsType, 512 * g.fsize, g.nFatent - 1)
    ensures i + 1 < |chain| ==> Link(img, g, chain[i]) == chain[i + 1] && 2 <= chain[i + 1] < g.nFatent
  {
    hide Link, Fits, EndOfFile;
  }

  function Cluster2Sector(g: Geometry, clust: nat): nat
    requires clust != 1
  {
    if clust == 0 then g.dirbase else Sectors(clust - 2, g.csize) + g.database
  }

  /** Where the reader looks for a cluster: cluster 2 at the start of the data, the others behind it in order. */
  lemma ReaderClusterPlace(g: Geometry, c: nat)
    ensures c >= 2 ==> Cluster2Sector(g, c) == g.database + (c - 2) * g.csize
    ensures Cluster2Sector(g, 0) == g.dirbase
  {
    if c >= 2 {
      SectorsIsProduct(c - 2, g.csize);
    }
  }

  /** The link of a cluster, from its bytes on the card. */
  lemma LinkPlace(img: seq<Sector>, g: Geometry, c: nat)
    requires ReaderGeometry(g, |img|) && c < g.nFatent
    ensures g.fatbase + g.fsize <= |img| && Fits(g.fsType, 512 * g.fsize, g.nFatent - 1)
    ensures g.fsType.FAT16? ==>
              && c / 256 < g.fsize
              && var w, o := img[g.fatbase + c / 256], c % 256 * 2;
                 var b0: int, b1: int := w[o], w[o + 1];
                 Link(img, g, c) == b0 + 256 * b1
    ensures g.fsType.FAT32? ==>
              && c / 128 < g.fsize
              && var w, o := img[g.fatbase + c / 128], c % 128 * 4;
                 var b0: int, b1: int, b2: int, b3: int := w[o], w[o + 1], w[o + 2], w[o + 3];
                 Link(img, g, c) == b0 + 256 * b1 + 0x1_0000 * b2 + 0x100_0000 * (b3 % 16)
  {
    FitsBelow(g.fsType, 512 * g.fsize, g.nFatent, c);
    hide Load, FatBytes;
    if g.fsType.FAT16? {
      LoadPlace16(img, g, c);
    } else {
      LoadPlace32(img, g, c);
    }
  }

  /** The sector fat_read computes from the current cluster is the one that holds the offset. */
  lemma BlockOfOffset(g: Geometry, chain: seq<nat>, p: nat)
    requires Clusters(g, chain) && g.csize > 0 && p / 512 < |SectorsOf(g, chain)|
    ensures ClusterOf(g, p / 512) < |chain| && chain[ClusterOf(g, p / 512)] >= 2
    ensures Cluster2Sector(g, chain[ClusterOf(g, p / 512)]) + p % (g.csize * 512) / 512 == SectorsOf(g, chain)[p / 512]
  {
    SectorOfIndex(g, chain, p / 512);
    ClusterOfByte(g, p);
  }

  /** Moving on inside a sector: the cluster changes exactly at a cluster boundary, to the next one. */
  lemma MoveCluster(g: Geometry, p: nat, n: nat)
    requires g.csize > 0 && 0 < n && p % 512 + n <= 512
    ensures ClusterOf(g, (p + n) / 512) == ClusterOf(g, p / 512) + if (p + n) % (g.csize * 512) == 0 then 1 else 0
  {
    hide ClusterOf, OffsetIn;
    ClusterOfByte(g, p + n);
    if p % 512 + n == 512 {
      NextSectorStart(p, n);
      NextSector(g, p / 512);
    } else {
      InSameSector(p, n, n + 1);
    }
  }

  lemma NextSectorStart(p: nat, n: nat)
    requires p % 512 + n == 512
    ensures (p + n) / 512 == p / 512 + 1 && (p + n) % 512 == 0
  {
  }

  lemma NextSector(g: Geometry, k: nat)
    requires g.csize > 0
    ensures ClusterOf(g, k + 1) == ClusterOf(g, k) + if OffsetIn(g, k + 1) == 0 then 1 else 0
  {
    IndexSplit(g, k + 1);
    if OffsetIn(g, k + 1) != 0 {
      SameCluster(g, k + 1);
    } else {
      var i := ClusterOf(g, k + 1);
      assert Sectors(i, g.csize) == Sectors(i - 1, g.csize) + g.csize;
      IndexUnique(g, i - 1, g.csize - 1);
    }
  }

  // ---------------------------------------------------------------- positions and lengths

  datatype Origin = SeekSet | SeekCur | SeekEnd

  /** The C types int and long. */
  type Long = x: int | -0x8000_0000 <= x < 0x8000_0000

  /** A sum kept in a 32-bit signed variable. */
  function WrapLong(x: int): int {
    (x + 0x8000_0000) % TWO_TO_32 - 0x8000_0000
  }

  /** Where a seek leads that adds up to this sum: the file is cut at its ends, and from 2 GB on the sum wraps. */
  function Landing(sum: int, size: nat): (npos: nat)
    ensures npos <= size
  {
    if sum < 0 || 0x8000_0000 <= sum < 0x1_0000_0000 then 0
    else if sum < 0x8000_0000 then if sum > size then size else sum
    else if sum - 0x1_0000_0000 > size then size else sum - 0x1_0000_0000
  }

  /** The signed 32-bit sum, cut to the file, leads there. */
  lemma WrapsAndCuts(sum: int, size: nat)
    requires -0x8000_0000 <= sum < 0x1_8000_0000
    ensures Landing(sum, size) == Clamped(WrapLong(sum), size)
  {
    WrapOnce(sum);
  }

  /** How many bytes a read reports, as an unsigned number: the comparison with the rest of the file is unsigned. */
  function Reported(len: Long, rest: nat): nat {
    if Wrap32(len) > rest then rest else Wrap32(len)
  }

  /** How many bytes a read moves: its counter has 16 bits. */
  function Moved(len: Long, rest: nat): nat {
    Reported(len, rest) % 0x1_0000
  }

  /** A read moves what it reports exactly when less than 64 KiB are asked for or left. */
  lemma ReadReportsTruly(len: Long, rest: nat)
    requires rest < 0x1_0000_0000
    ensures Moved(len, rest) == Reported(len, rest) <==> 0 <= len < 0x1_0000 || rest < 0x1_0000
    ensures Reported(len, rest)
         == if 0 <= len < rest then len
            else if len < 0 && len + 0x1_0000_0000 < rest then len + 0x1_0000_0000
            else rest
    ensures Moved(len, rest) < 0x1_0000 && exists q: nat :: Reported(len, rest) == 0x1_0000 * q + Moved(len, rest)
  {
    var n := Reported(len, rest);
    assert n == 0x1_0000 * (n / 0x1_0000) + n % 0x1_0000;
    if len >= 0 {
      assert Wrap32(len) == len;
    } else {
      assert Wrap32(len) == len + TWO_TO_32;
    }
  }

  /** A number cut to a range. */
  function Clamped(x: int, size: nat): nat {
    if x < 0 then 0 else if x > size then size else x
  }

  /**
   A seek leads to the sum cut to the file exactly if the sum is below 2 GB; from there to 4 GB it leads to
   the start. The base is the start, the position or the end of the file.
  */
  lemma TargetIsClamped(offset: Long, base: nat, size: nat)
    requires base <= size < 0x1_0000_0000
    ensures Landing(base + offset, size) == Clamped(base + offset, size) <==> base + offset < 0x8000_0000
    ensures 0x8000_0000 <= base + offset < 0x1_0000_0000 ==> Landing(base + offset, size) == 0
  {
  }

  lemma WrapOnce(x: int)
    requires -0x8000_0000 <= x < TWO_TO_32 + 0x8000_0000
    ensures WrapLong(x) == if x < 0x8000_0000 then x else x - TWO_TO_32
  {
  }

  // ---------------------------------------------------------------- the file handle

  class Handle {
    const r: Reader
    var foffset: nat             // file offset
    var highwater: nat           // file size
    var firstCluster: nat
    var cluster: nat             // current cluster
    ghost var chain: seq<nat>    // the clusters of the file

    constructor (r: Reader, firstCluster: nat, highwater: nat, ghost chain: seq<nat>)
      requires r.Valid() && LinkedChain(r.disk.sectors, r.g, chain)
      requires highwater < TWO_TO_32 && highwater <= 512 * |SectorsOf(r.g, chain)|
      requires chain != [] ==> firstCluster == chain[0]
      ensures Valid() && this.r == r && this.chain == chain && foffset == 0 && this.highwater == highwater
    {
      this.r, this.firstCluster, this.highwater, this.chain := r, firstCluster, highwater, chain;
      foffset, cluster := 0, firstCluster;
      new;
      ChainInImage(r.disk.sectors, r.g, chain);
      FirstSector(r.g, chain);
    }

    ghost function Sects(): seq<nat>
      reads this`chain
    {
      SectorsOf(r.g, chain)
    }

    /** The chain holds the file. */
    ghost predicate ChainOk()
      reads this`chain, this`firstCluster, this`highwater, r`inBuffer, r.disk, r.buffer
    {
      && r.Valid() && LinkedChain(r.disk.sectors, r.g, chain)
      && highwater < TWO_TO_32 && Shown(r.disk.sectors, Sects(), highwater)
      && (chain != [] ==> firstCluster == chain[0])
    }

    /** Inside the file the current cluster is that of the offset; at its end it may be any. */
    ghost predicate Valid()
      reads this, r`inBuffer, r.disk, r.buffer
    {
      && ChainOk() && foffset <= highwater
      && (foffset < highwater ==> AtCluster(foffset))
    }

    ghost predicate AtCluster(p: nat)
      reads this`chain, this`cluster
    {
      r.g.csize > 0 && ClusterOf(r.g, p / 512) < |chain| && cluster == chain[ClusterOf(r.g, p / 512)]
    }

    /** The bytes of the file. */
    ghost function Content(): (c: seq<byte>)
      requires ChainOk()
      reads this`chain, this`firstCluster, this`highwater, r`inBuffer, r.disk, r.buffer
      ensures |c| == highwater
    {
      CardBytes(r.disk.sectors, Sects(), highwater)
    }

    /** Byte i of the file is byte i % 512 of its sector i / 512. */
    lemma BytePlace(i: nat)
      requires ChainOk() && i < highwater
      ensures i / 512 < |SectorsOf(r.g, chain)| && SectorsOf(r.g, chain)[i / 512] < |r.disk.sectors|
      ensures Content()[i] == r.disk.sectors[SectorsOf(r.g, chain)[i / 512]][i % 512]
    {
      hide LinkedChain, SectorsOf, Reader.Valid;
    }

    /** fat_read: moves the bytes from the offset on, up to the end of the file. */
    method Read(buff: array<byte>, len: Long) returns (n: nat)
      requires Valid() && buff != r.buffer
      requires Moved(len, highwater - foffset) <= buff.Length
      modifies this`foffset, this`cluster, r`inBuffer, r.buffer, buff
      ensures Valid() && Content() == old(Content())
      ensures n == Reported(len, highwater - old(foffset))
      ensures var m := Moved(len, highwater - old(foffset));
              foffset == old(foffset) + m && buff[..] == Splice(old(buff[..]), 0, Slice(Content(), old(foffset), m))
    {
      hide ChainOk, AtCluster, Splice, Slice, Sects, CardBytes;
      n := if Wrap32(len) > highwater - foffset then highwater - foffset else Wrap32(len);
      var dcount: nat := n % 0x1_0000;
      var at: nat := 0;
      SpliceEmptySlice(buff[..], Content(), foffset);
      while dcount > 0
        invariant Valid() && Content() == old(Content()) && n == Reported(len, highwater - old(foffset))
        invariant foffset == old(foffset) + at && at + dcount == Moved(len, highwater - old(foffset))
        invariant buff[..] == Splice(old(buff[..]), 0, Slice(Content(), old(foffset), at))
      {
        var nbytes := ReadPiece(buff, at, dcount);
        SpliceSlices(old(buff[..]), 0, Content(), old(foffset), at, nbytes);
        at, dcount := at + nbytes, dcount - nbytes;
      }
    }

    /** One turn of the loop of fat_read: a piece of one sector. */
    method ReadPiece(buff: array<byte>, at: nat, dcount: nat) returns (nbytes: nat)
      requires Valid() && 0 < dcount && foffset + dcount <= highwater && at + dcount <= buff.Length && buff != r.buffer
      modifies this`foffset, this`cluster, r`inBuffer, r.buffer, buff
      ensures Valid() && 0 < nbytes <= dcount && foffset == old(foffset) + nbytes && Content() == old(Content())
      ensures buff[..] == Splice(old(buff[..]), at, Slice(Content(), old(foffset), nbytes))
    {
      hide LinkedChain, SectorsOf, Splice, Slice, CardBytes, AtCluster, Reader.Valid;
      var loffset := foffset % 512;
      var block := Block();
      nbytes := if dcount < 512 then dcount else 512;
      if nbytes > 512 - loffset {
        nbytes := 512 - loffset;
      }
      PieceOfCard(r.disk.sectors, Sects(), highwater, foffset, nbytes);
      SdReadN(block, loffset, nbytes, buff, at);
      MoveOn(nbytes);
    }

    /** The sector of the offset. */
    method Block() returns (block: nat)
      requires Valid() && foffset < highwater
      ensures foffset / 512 < |Sects()| && block == Sects()[foffset / 512] && block < |r.disk.sectors|
    {
      hide SectorsOf, Reader.Valid, ClusterOf, Link, Cluster2Sector;
      BlockOfOffset(r.g, chain, foffset);
      block := Cluster2Sector(r.g, cluster);
      block := block + foffset % (r.g.csize * 512) / 512;
    }

    /** sd_read_n: bytes of one sector, past the cache. */
    method SdReadN(block: nat, loffset: nat, n: nat, buff: array<byte>, at: nat)
      requires block < |r.disk.sectors| && loffset + n <= 512 && at + n <= buff.Length
      modifies buff
      ensures buff[..] == Splice(old(buff[..]), at, Slice(r.disk.sectors[block], loffset, n))
    {
      forall j | 0 <= j < n {
        buff[at + j] := r.disk.sectors[block][loffset + j];
      }
    }

    /** The offset moves; at a cluster boundary the next link is followed. */
    method MoveOn(n: nat)
      requires Valid() && 0 < n && foffset + n <= highwater && foffset % 512 + n <= 512
      modifies this`foffset, this`cluster, r`inBuffer, r.buffer
      ensures Valid() && foffset == old(foffset) + n && Content() == old(Content())
    {
      hide LinkedChain, SectorsOf, ClusterOf, Reader.Valid, Link, CardBytes;
      ghost var i := ClusterOf(r.g, foffset / 512);
      LinkedNext(r.disk.sectors, r.g, chain, i);
      MoveCluster(r.g, foffset, n);
      foffset := foffset + n;
      if foffset < highwater {
        SectorOfIndex(r.g, chain, foffset / 512);
      }
      if foffset % (r.g.csize * 512) == 0 {
        cluster := r.NextCluster(cluster);
      }
    }

    /** fat_seek: moves to the target, walking from the first cluster. */
    method Seek(offset: Long, origin: Origin) returns (npos: nat)
      requires Valid()
      modifies this`foffset, this`cluster, r`inBuffer, r.buffer
      ensures Valid() && Content() == old(Content()) && npos == foffset
      ensures var sum := match origin
                         case SeekSet => offset
                         case SeekCur => old(foffset) + offset
                         case SeekEnd => highwater + offset;
              && npos == Landing(sum, highwater)
              && (sum < 0x8000_0000 ==> npos == if sum < 0 then 0 else if sum > highwater then highwater else sum)
    {
      hide LinkedChain, SectorsOf, ClusterOf, Reader.Valid, CardBytes, WrapLong;
      var fpos := 0;
      match origin {
        case SeekSet => fpos := 0;
        case SeekCur => fpos := foffset;
        case SeekEnd => fpos := highwater;
      }
      var sum := WrapLong(fpos + offset);
      WrapsAndCuts(fpos + offset, highwater);
      if sum < 0 {
        sum := 0;
      }
      if sum > highwater {
        sum := highwater;
      }
      npos := sum;
      foffset := npos;
      ClusterSize(r.disk.sectors, r.g, chain);
      ClustersOfOffset(r.g, chain, npos);
      var t := npos / (r.g.csize * 512);
      FollowChain(t);
    }

    /** The walk of fat_seek: t links on from the first cluster; a link of 0 keeps the cluster. */
    method FollowChain(t: nat)
      requires ChainOk() && t <= |chain|
      modifies this`cluster, r`inBuffer, r.buffer
      ensures ChainOk() && Content() == old(Content()) && (t < |chain| ==> cluster == chain[t])
    {
      hide LinkedChain, SectorsOf, Reader.Valid, CardBytes, Link;
      cluster := firstCluster;
      var left: nat := t;
      while left > 0
        invariant left <= t && ChainOk() && Content() == old(Content())
        invariant t - left < |chain| ==> cluster == chain[t - left]
      {
        LinkedNext(r.disk.sectors, r.g, chain, t - left);
        var newcluster := r.NextCluster(cluster);
        if newcluster != 0 {
          cluster := newcluster;
        }
        left := left - 1;
      }
    }
  }

  lemma ClusterSize(img: seq<Sector>, g: Geometry, chain: seq<nat>)
    requires LinkedChain(img, g, chain)
    ensures 0 < g.csize
  {
  }

  /** How many links lead to an offset: fewer than the chain has clusters, except right behind its end. */
  lemma ClustersOfOffset(g: Geometry, chain: seq<nat>, p: nat)
    requires 0 < g.csize && p <= 512 * |SectorsOf(g, chain)|
    ensures p / (g.csize * 512) == ClusterOf(g, p / 512) <= |chain|
    ensures p < 512 * |SectorsOf(g, chain)| ==> ClusterOf(g, p / 512) < |chain|
  {
    ClusterOfByte(g, p);
    if p < 512 * |SectorsOf(g, chain)| {
      SectorOfIndex(g, chain, p / 512);
    } else {
      SectorsOfLength(g, chain);
      IndexUnique(g, |chain|, 0);
    }
  }

  // ---------------------------------------------------------------- runs of calls

  datatype Call = SeekTo(offset: Long, origin: Origin) | ReadOf(len: Long)

  /** The offset after a call on a file of this size. */
  function NextOffset(c: Call, pos: nat, size: nat): (p: nat)
    requires pos <= size
    ensures p <= size
  {
    match c
    case SeekTo(offset, SeekSet) => Landing(offset, size)
    case SeekTo(offset, SeekCur) => Landing(pos + offset, size)
    case SeekTo(offset, SeekEnd) => Landing(size + offset, size)
    case ReadOf(len) => pos + Moved(len, size - pos)
  }

  /** What a run of calls reads from a plain byte sequence: nothing for a seek, a slice at the offset for a read. */
  function Readings(content: seq<byte>, pos: nat, calls: seq<Call>): seq<seq<byte>>
    requires pos <= |content|
    decreases |calls|
  {
    if calls == [] then []
    else
      var p := NextOffset(calls[0], pos, |content|);
      [if calls[0].ReadOf? then content[pos..p] else []] + Readings(content, p, calls[1..])
  }

  /** One call of a run, in numbers: a seek of a sum below 2 GB, and a read of less than 64 KiB. */
  lemma ReadingsStep(content: seq<byte>, pos: nat, c: Call, rest: seq<Call>)
    requires pos <= |content| < 0x1_0000_0000
    ensures c.SeekTo? ==>
              var sum := match c.origin
                         case SeekSet => c.offset
                         case SeekCur => pos + c.offset
                         case SeekEnd => |content| + c.offset;
              sum < 0x8000_0000 ==>
                Readings(content, pos, [c] + rest)
                == [[]] + Readings(content, if sum < 0 then 0 else if sum > |content| then |content| else sum, rest)
    ensures c.ReadOf? && 0 <= c.len < 0x1_0000 ==>
              var end := if c.len > |content| - pos then |content| else pos + c.len;
              Readings(content, pos, [c] + rest) == [content[pos..end]] + Readings(content, end, rest)
  {
    assert ([c] + rest)[1..] == rest;
    if c.ReadOf? {
      ReadReportsTruly(c.len, |content| - pos);
    }
  }

  lemma NoReading(content: seq<byte>, pos: nat)
    requires pos <= |content|
    ensures Readings(content, pos, []) == []
  {
  }

  lemma FirstReading(content: seq<byte>, pos: nat, calls: seq<Call>)
    requires pos <= |content| && calls != []
    ensures var p := NextOffset(calls[0], pos, |content|);
            Readings(content, pos, calls)
            == [if calls[0].ReadOf? then content[pos..p] else []] + Readings(content, p, calls[1..])
  {
  }

  lemma MoveOver(a: seq<seq<byte>>, d: seq<byte>, b: seq<seq<byte>>)
    ensures a + ([d] + b) == a + [d] + b
  {
  }

  /** Every run of seeks and reads on a file reads what the same run reads from its bytes. */
  method Session(h: Handle, calls: seq<Call>) returns (out: seq<seq<byte>>)
    requires h.Valid()
    modifies h`foffset, h`cluster, h.r`inBuffer, h.r.buffer
    ensures h.Valid() && h.Content() == old(h.Content())
    ensures out == Readings(old(h.Content()), old(h.foffset), calls)
  {
    hide Handle.ChainOk, Handle.AtCluster, Handle.Content, NextOffset, Readings;
    out := [];
    ghost var content := h.Content();
    assert calls[0..] == calls;
    for i := 0 to |calls|
      invariant h.Valid() && h.ChainOk() && h.Content() == content && h.foffset <= |content|
      invariant out + Readings(content, h.foffset, calls[i..]) == Readings(content, old(h.foffset), calls)
    {
      ghost var pos, rest := h.foffset, calls[i..];
      var data := Perform(h, calls[i]);
      assert rest[0] == calls[i] && rest[1..] == calls[i + 1..];
      FirstReading(content, pos, rest);
      MoveOver(out, data, Readings(content, h.foffset, rest[1..]));
      out := out + [data];
    }
    assert calls[|calls|..] == [];
    NoReading(content, h.foffset);
  }

  /** One call. */
  method Perform(h: Handle, c: Call) returns (data: seq<byte>)
    requires h.Valid()
    modifies h`foffset, h`cluster, h.r`inBuffer, h.r.buffer
    ensures h.Valid() && h.Content() == old(h.Content())
    ensures h.foffset == NextOffset(c, old(h.foffset), |h.Content()|)
    ensures data == if c.ReadOf? then h.Content()[old(h.foffset)..h.foffset] else []
  {
    hide Handle.ChainOk, Handle.AtCluster, Landing, Reported;
    data := [];
    match c {
      case SeekTo(offset, origin) =>
        var npos := h.Seek(offset, origin);
      case ReadOf(len) =>
        var buff := new byte[Moved(len, h.highwater - h.foffset)];
        var n := h.Read(buff, len);
        data := buff[..];
    }
  }
}
