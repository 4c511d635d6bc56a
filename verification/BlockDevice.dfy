/**
 The block device under the file system: numbered sectors of 512 bytes, read and
 written in runs. Transfers always succeed.
 */
module BlockDevice {
  import opened Bits

  type Sector = s: seq<byte> | |s| == 512 witness seq(512, _ => 0)

  /** The 512-byte piece number k of a transfer buffer. */
  function Piece(data: seq<byte>, k: nat): Sector
    requires 512 * k + 512 <= |data|
  {
    data[512 * k..512 * k + 512]
  }

  /** Sector s of an image in which a run of consecutive sectors is replaced by the pieces of data. */
  function Overwritten(img: seq<Sector>, sector: nat, data: seq<byte>, count: nat, s: nat): Sector
    requires |data| == 512 * count && s < |img|
  {
    if sector <= s < sector + count then Piece(data, s - sector) else img[s]
  }

  function Overwrite(img: seq<Sector>, sector: nat, data: seq<byte>, count: nat): (r: seq<Sector>)
    requires |data| == 512 * count && sector + count <= |img|
    ensures |r| == |img|
  {
    seq(|img|, s requires 0 <= s < |img| => Overwritten(img, sector, data, count, s))
  }

  lemma OverwriteOne(img: seq<Sector>, sector: nat, data: Sector)
    requires sector < |img|
    ensures Overwrite(img, sector, data, 1) == img[sector := data]
  {
    assert Piece(data, 0) == data;
  }

  /** Byte by byte: the data lies in the run of sectors, 512 bytes to each, and everything else stays. */
  lemma OverwriteByBytes(img: seq<Sector>, sector: nat, data: seq<byte>, count: nat, s: nat, j: nat)
    requires |data| == 512 * count && sector + count <= |img| && s < |img| && j < 512
    ensures Overwrite(img, sector, data, count)[s][j]
         == if sector <= s < sector + count then data[512 * (s - sector) + j] else img[s][j]
  {
  }

  /** The bytes of a run of consecutive sectors. */
  function RunBytes(img: seq<Sector>, sector: nat, count: nat): (r: seq<byte>)
    requires sector + count <= |img|
    ensures |r| == 512 * count
  {
    seq(512 * count, j requires 0 <= j < 512 * count => img[sector + j / 512][j % 512])
  }

  lemma RunOfOne(img: seq<Sector>, sector: nat)
    requires sector < |img|
    ensures RunBytes(img, sector, 1) == img[sector]
  {
  }

  /** What is written to a run of sectors is read back from it, and no other sector changes. */
  lemma ReadsBack(img: seq<Sector>, sector: nat, data: seq<byte>, count: nat)
    requires |data| == 512 * count && sector + count <= |img|
    ensures RunBytes(Overwrite(img, sector, data, count), sector, count) == data
    ensures forall s | 0 <= s < |img| && !(sector <= s < sector + count) ::
              Overwrite(img, sector, data, count)[s] == img[s]
  {
    var b := RunBytes(Overwrite(img, sector, data, count), sector, count);
    forall j | 0 <= j < 512 * count ensures b[j] == data[j] {
      assert 512 * (j / 512) + j % 512 == j;
    }
  }

  lemma RunFrame(a: seq<Sector>, b: seq<Sector>, sector: nat, count: nat)
    requires sector + count <= |a| == |b| && forall s | sector <= s < sector + count :: a[s] == b[s]
    ensures RunBytes(a, sector, count) == RunBytes(b, sector, count)
  {
  }

  /** c with the bytes from p on replaced by d, and extended if d reaches past the end. */
  function Splice(c: seq<byte>, p: nat, d: seq<byte>): seq<byte>
    requires p <= |c|
  {
    c[..p] + d + if p + |d| <= |c| then c[p + |d|..] else []
  }

  lemma SpliceByBytes(c: seq<byte>, p: nat, d: seq<byte>, i: nat)
    requires p <= |c|
    ensures |Splice(c, p, d)| == if p + |d| <= |c| then |c| else p + |d|
    ensures i < |Splice(c, p, d)| ==> Splice(c, p, d)[i] == if p <= i < p + |d| then d[i - p] else c[i]
  {
  }

  /** n bytes of c from a on. */
  function Slice(c: seq<byte>, a: nat, n: nat): (r: seq<byte>)
    requires a + n <= |c|
    ensures |r| == n
  {
    c[a..a + n]
  }

  /** Two adjacent pieces, put one after the other into two adjacent places. */
  lemma SpliceSlices(orig: seq<byte>, at: nat, c: seq<byte>, p: nat, n: nat, m: nat)
    requires at + n + m <= |orig| && p + n + m <= |c|
    ensures |Splice(orig, at, Slice(c, p, n))| == |orig|
    ensures Splice(Splice(orig, at, Slice(c, p, n)), at + n, Slice(c, p + n, m)) == Splice(orig, at, Slice(c, p, n + m))
  {
    SpliceTwice(orig, at, Slice(c, p, n), Slice(c, p + n, m));
    assert Slice(c, p, n) + Slice(c, p + n, m) == Slice(c, p, n + m);
  }

  lemma SliceAll(c: seq<byte>)
    ensures Slice(c, 0, |c|) == c
  {
  }

  lemma SpliceEmptySlice(orig: seq<byte>, c: seq<byte>, p: nat)
    requires p <= |c|
    ensures Splice(orig, 0, Slice(c, p, 0)) == orig
  {
  }

  /** Two adjacent replacements are one. */
  lemma SpliceTwice(c: seq<byte>, p: nat, d: seq<byte>, e: seq<byte>)
    requires p <= |c|
    ensures p + |d| <= |Splice(c, p, d)|
    ensures Splice(Splice(c, p, d), p + |d|, e) == Splice(c, p, d + e)
  {
  }

  class Disk {
    var sectors: seq<Sector>

    constructor (image: seq<Sector>)
      ensures sectors == image
    {
      sectors := image;
    }

    /** Reads count sectors into buf, starting at offset at. */
    method Read(buf: array<byte>, at: nat, sector: nat, count: nat)
      requires sector + count <= |sectors| && at + 512 * count <= buf.Length
      modifies buf
      ensures buf[..] == Splice(old(buf[..]), at, RunBytes(sectors, sector, count))
    {
      forall j | at <= j < at + 512 * count {
        buf[j] := sectors[sector + (j - at) / 512][(j - at) % 512];
      }
    }

    /** Writes count sectors taken from data. */
    method Write(data: seq<byte>, sector: nat, count: nat)
      requires |data| == 512 * count && sector + count <= |sectors|
      modifies this
      ensures sectors == Overwrite(old(sectors), sector, data, count)
    {
      sectors := Overwrite(sectors, sector, data, count);
    }
  }
}
