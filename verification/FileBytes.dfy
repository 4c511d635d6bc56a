/**
 The bytes of a file as its reader sees them: the sectors of the file on the
 logical device, with the file's own dirty sector buffer on top.
 */
module FileBytes {
  import opened Bits
  import opened BlockDevice
  import A = Allocator

  ghost predicate InImage(img: seq<Sector>, sects: seq<nat>) {
    forall k | 0 <= k < |sects| :: sects[k] < |img|
  }

  /** The image has the sectors, and the sectors hold n bytes. */
  ghost predicate Shown(img: seq<Sector>, sects: seq<nat>, n: nat) {
    n <= 512 * |sects| && InImage(img, sects)
  }

  /** cc sectors of the file from number k on follow each other on the device. */
  predicate RunAt(sects: seq<nat>, k: nat, cc: nat) {
    k + cc <= |sects| && forall l | k <= l < k + cc :: sects[l] == sects[k] + (l - k)
  }

  /** Byte i of the file. */
  function ByteAt(img: seq<Sector>, sects: seq<nat>, dirty: bool, dsect: nat, buf: Sector, i: nat): byte
    requires i / 512 < |sects| && sects[i / 512] < |img|
  {
    if dirty && sects[i / 512] == dsect then buf[i % 512] else img[sects[i / 512]][i % 512]
  }

  /** The first n bytes of the file. */
  ghost function Bytes(img: seq<Sector>, sects: seq<nat>, dirty: bool, dsect: nat, buf: Sector, n: nat): (r: seq<byte>)
    requires Shown(img, sects, n)
    ensures |r| == n
  {
    seq(n, i requires 0 <= i < n => ByteAt(img, sects, dirty, dsect, buf, i))
  }

  /** Writing the dirty buffer to its sector shows in no byte. */
  lemma FlushKeepsBytes(img: seq<Sector>, sects: seq<nat>, dsect: nat, buf: Sector, n: nat)
    requires Shown(img, sects, n) && dsect < |img|
    ensures Shown(img[dsect := buf], sects, n)
    ensures Bytes(img[dsect := buf], sects, false, dsect, buf, n) == Bytes(img, sects, true, dsect, buf, n)
  {
  }

  /** A change of the device outside the file's sectors shows in no byte. */
  lemma FrameKeepsBytes(img: seq<Sector>, img': seq<Sector>, sects: seq<nat>, dirty: bool, dsect: nat, buf: Sector,
                        n: nat)
    requires Shown(img, sects, n) && |img'| == |img|
    requires forall k | 0 <= k < |sects| :: img'[sects[k]] == img[sects[k]]
    ensures Shown(img', sects, n)
    ensures Bytes(img', sects, dirty, dsect, buf, n) == Bytes(img, sects, dirty, dsect, buf, n)
  {
  }

  /** Sectors added behind the end show in no byte. */
  lemma GrowKeepsBytes(img: seq<Sector>, sects: seq<nat>, sects': seq<nat>, dirty: bool, dsect: nat, buf: Sector,
                       n: nat)
    requires Shown(img, sects, n) && Shown(img, sects', n) && sects <= sects'
    ensures Bytes(img, sects', dirty, dsect, buf, n) == Bytes(img, sects, dirty, dsect, buf, n)
  {
  }

  /** Fewer bytes are a head of more. */
  lemma BytesPrefix(img: seq<Sector>, sects: seq<nat>, dirty: bool, dsect: nat, buf: Sector, m: nat, n: nat)
    requires Shown(img, sects, n) && m <= n
    ensures Shown(img, sects, m) && Bytes(img, sects, dirty, dsect, buf, m)
              == Bytes(img, sects, dirty, dsect, buf, n)[..m]
  {
  }

  /** The bytes of a head of the file, seen through a head of its sectors on an image changed elsewhere. */
  lemma HeadBytes(img0: seq<Sector>, img1: seq<Sector>, sects0: seq<nat>, sects1: seq<nat>,
                  dirty: bool, dsect: nat, buf: Sector, m: nat, n: nat)
    requires Shown(img0, sects0, n) && m <= n && sects1 <= sects0 && m <= 512 * |sects1| && |img1| == |img0|
    requires forall k | 0 <= k < |sects1| :: img1[sects1[k]] == img0[sects1[k]]
    ensures Shown(img1, sects1, m)
    ensures Bytes(img1, sects1, dirty, dsect, buf, m) == Bytes(img0, sects0, dirty, dsect, buf, n)[..m]
  {
    BytesPrefix(img0, sects0, dirty, dsect, buf, m, n);
    assert InImage(img0, sects1) by {
      forall k | 0 <= k < |sects1| ensures sects1[k] < |img0| { assert sects1[k] == sects0[k]; }
    }
    GrowKeepsBytes(img0, sects1, sects0, dirty, dsect, buf, m);
    FrameKeepsBytes(img0, img1, sects1, dirty, dsect, buf, m);
  }

  /** A clean buffer does not matter. */
  lemma CleanBuffer(img: seq<Sector>, sects: seq<nat>, n: nat, d0: nat, b0: Sector, d1: nat, b1: Sector)
    requires Shown(img, sects, n)
    ensures Bytes(img, sects, false, d0, b0, n) == Bytes(img, sects, false, d1, b1, n)
  {
  }

  /** Whole sectors written to the device from sector number k of the file on. */
  lemma DirectWriteSplices(img: seq<Sector>, sects: seq<nat>, dsect: nat, buf: Sector, n: nat,
                           k: nat, data: seq<byte>, cc: nat, n': nat, buf': Sector)
    requires Shown(img, sects, n) && A.Distinct(sects) && 512 * k <= n
    requires RunAt(sects, k, cc) && |data| == 512 * cc && cc > 0 && sects[k] + cc <= |img|
    requires n' == if 512 * (k + cc) <= n then n else 512 * (k + cc)
    ensures Shown(Overwrite(img, sects[k], data, cc), sects, n')
    ensures Bytes(Overwrite(img, sects[k], data, cc), sects, false, dsect, buf', n')
         == Splice(Bytes(img, sects, false, dsect, buf, n), 512 * k, data)
  {
    var img' := Overwrite(img, sects[k], data, cc);
    var b, b' := Bytes(img, sects, false, dsect, buf, n), Bytes(img', sects, false, dsect, buf', n');
    forall i | 0 <= i < n'
      ensures b'[i] == Splice(b, 512 * k, data)[i]
    {
      if k <= i / 512 < k + cc {
        assert sects[i / 512] == sects[k] + (i / 512 - k);
        assert 512 * (i / 512 - k) + i % 512 == i - 512 * k;
      } else {
        OutsideRun(sects, k, cc, i / 512);
      }
    }
  }

  /** A sector of the file outside a run of it lies outside the run on the device. */
  lemma OutsideRun(sects: seq<nat>, k: nat, cc: nat, l: nat)
    requires A.Distinct(sects) && RunAt(sects, k, cc) && l < |sects| && !(k <= l < k + cc) && cc > 0
    ensures !(sects[k] <= sects[l] < sects[k] + cc)
  {
    if sects[k] <= sects[l] < sects[k] + cc {
      RunHas(sects, k, cc, sects[l]);
    }
  }

  lemma RunHas(sects: seq<nat>, k: nat, cc: nat, v: nat)
    requires RunAt(sects, k, cc) && cc > 0 && sects[k] <= v < sects[k] + cc
    ensures exists m :: k <= m < k + cc && sects[m] == v
  {
    assert sects[k + (v - sects[k])] == v;
  }

  /** Bytes put into the buffer, which holds what is valid of sector number p / 512. */
  lemma PutSplices(img: seq<Sector>, sects: seq<nat>, dirty: bool, dsect: nat, buf0: Sector, n: nat,
                   p: nat, data: seq<byte>, buf: Sector, n': nat)
    requires Shown(img, sects, n) && A.Distinct(sects) && p <= n && p / 512 < |sects|
    requires 0 < |data| && p % 512 + |data| <= 512
    requires n' == if p + |data| <= n then n else p + |data|
    requires dirty ==> dsect == sects[p / 512]
    requires forall i | 0 <= i < n && i / 512 == p / 512 :: buf[i % 512] == ByteAt(img, sects, dirty, dsect, buf0, i)
    ensures Shown(img, sects, n')
    ensures Bytes(img, sects, true, sects[p / 512], Splice(buf, p % 512, data), n')
         == Splice(Bytes(img, sects, dirty, dsect, buf0, n), p, data)
  {
  }

  /** A piece of the bytes, taken from the buffer. */
  lemma GetFromBuffer(img: seq<Sector>, sects: seq<nat>, dirty: bool, dsect: nat, buf: Sector, n: nat, p: nat, m: nat)
    requires Shown(img, sects, n) && p + m <= n && p % 512 + m <= 512 && p / 512 < |sects|
    requires sects[p / 512] == dsect && dsect < |img| && (!dirty ==> buf == img[dsect])
    ensures Slice(Bytes(img, sects, dirty, dsect, buf, n), p, m) == Slice(buf, p % 512, m)
  {
  }

  /** Byte j of a run of whole sectors of the file. */
  lemma RunByte(img: seq<Sector>, sects: seq<nat>, dirty: bool, dsect: nat, buf: Sector, n: nat, k: nat, cc: nat,
                j: nat)
    requires Shown(img, sects, n) && 512 * (k + cc) <= n && RunAt(sects, k, cc) && j < 512 * cc
    ensures sects[k] + j / 512 < |img|
    ensures Bytes(img, sects, dirty, dsect, buf, n)[512 * k + j]
         == if dirty && dsect == sects[k] + j / 512 then buf[j % 512] else img[sects[k] + j / 512][j % 512]
  {
    assert (512 * k + j) / 512 == k + j / 512 && (512 * k + j) % 512 == j % 512;
    var l := k + j / 512;
    assert sects[l] == sects[k] + (l - k);
  }

  lemma RunInImage(img: seq<Sector>, sects: seq<nat>, k: nat, cc: nat)
    requires InImage(img, sects) && RunAt(sects, k, cc) && cc > 0
    ensures sects[k] + cc <= |img|
  {
    var last := k + cc - 1;
    assert sects[last] == sects[k] + (last - k);
  }

  /** The bytes of a run with one of its sectors replaced. */
  function PatchedRun(run: seq<byte>, sect: nat, cc: nat, dirty: bool, dsect: nat, buf: Sector): (r: seq<byte>)
    requires |run| == 512 * cc
    ensures |r| == |run|
  {
    if dirty && sect <= dsect < sect + cc then Splice(run, 512 * (dsect - sect), buf) else run
  }

  lemma PatchNone(run: seq<byte>, sect: nat, cc: nat, dsect: nat, buf: Sector)
    requires |run| == 512 * cc
    ensures PatchedRun(run, sect, cc, false, dsect, buf) == run
  {
  }

  /** Patching the run after it was put in place. */
  lemma PatchInPlace(orig: seq<byte>, at: nat, run: seq<byte>, sect: nat, cc: nat, dsect: nat, buf: Sector)
    requires |run| == 512 * cc && at + |run| <= |orig| && sect <= dsect < sect + cc
    ensures |Splice(orig, at, run)| == |orig| && at + 512 * (dsect - sect) + 512 <= |orig|
    ensures Splice(Splice(orig, at, run), at + 512 * (dsect - sect), buf)
         == Splice(orig, at, PatchedRun(run, sect, cc, true, dsect, buf))
  {
  }

  lemma PatchedByte(run: seq<byte>, sect: nat, cc: nat, dirty: bool, dsect: nat, buf: Sector, j: nat)
    requires |run| == 512 * cc && j < |run|
    ensures PatchedRun(run, sect, cc, dirty, dsect, buf)[j]
         == if dirty && dsect == sect + j / 512 then buf[j % 512] else run[j]
  {
  }

  /** A run of whole sectors of the file: read from the device and patched from a dirty buffer. */
  lemma GetRun(img: seq<Sector>, sects: seq<nat>, dirty: bool, dsect: nat, buf: Sector, n: nat, k: nat, cc: nat)
    requires Shown(img, sects, n) && 512 * (k + cc) <= n && RunAt(sects, k, cc) && cc > 0
    ensures sects[k] + cc <= |img|
    ensures Slice(Bytes(img, sects, dirty, dsect, buf, n), 512 * k, 512 * cc)
         == PatchedRun(RunBytes(img, sects[k], cc), sects[k], cc, dirty, dsect, buf)
  {
    hide Bytes, InImage, RunAt, PatchedRun;
    RunInImage(img, sects, k, cc);
    var b := Bytes(img, sects, dirty, dsect, buf, n);
    var run := RunBytes(img, sects[k], cc);
    forall j | 0 <= j < 512 * cc
      ensures b[512 * k + j] == PatchedRun(run, sects[k], cc, dirty, dsect, buf)[j]
    {
      RunByte(img, sects, dirty, dsect, buf, n, k, cc, j);
      PatchedByte(run, sects[k], cc, dirty, dsect, buf, j);
    }
  }
}
