/**
 The mounted volume: its geometry, the one-sector write-back window over the
 device, the mirrored allocation table behind it and the cluster allocator.
 */
module Volume {
  import opened Bits
  import opened FatTable
  import opened BlockDevice
  import A = Allocator

  datatype Geometry = Geometry(
    fsType: FatType,     // FAT sub-type
    csize: nat,          // sectors per cluster
    nFats: nat,          // number of FAT copies
    nRootdir: nat,       // entries of the static root directory
    nFatent: nat,        // number of clusters + 2
    fsize: nat,          // sectors per FAT
    fatbase: nat,        // first FAT sector
    dirbase: nat,        // root directory sector (cluster on FAT32)
    database: nat)       // first data sector

  /** First sector after the FAT copies. */
  function FatEnd(g: Geometry): nat {
    g.fatbase + g.fsize + if g.nFats == 2 then g.fsize else 0
  }

  /** The number of sectors in n clusters: the product, kept out of the solver's arithmetic. */
  function Sectors(n: nat, csize: nat): nat {
    if n == 0 then 0 else Sectors(n - 1, csize) + csize
  }

  lemma {:induction false} SectorsIsProduct(n: nat, csize: nat)
    ensures Sectors(n, csize) == n * csize
  {
    if n > 0 {
      SectorsIsProduct(n - 1, csize);
    }
  }

  /** First sector of a valid cluster; 0 for any other number. */
  function Clust2Sect(g: Geometry, clst: nat): nat {
    if clst < 2 || clst >= g.nFatent then 0 else Sectors(clst - 2, g.csize) + g.database
  }

  /** What mounting establishes about the geometry of a device of total sectors. */
  predicate GeometryOk(g: Geometry, total: nat) {
    && IsPow2(g.csize) && g.csize <= 128
    && 1 <= g.nFats <= 2
    && 3 <= g.nFatent < Width(g.fsType)
    && 1 <= g.fatbase && FatEnd(g) <= g.database
    && Fits(g.fsType, 512 * g.fsize, g.nFatent - 1)
    && g.database + Sectors(g.nFatent - 2, g.csize) <= total <= TWO_TO_32
  }

  /** The bytes of the first FAT copy. */
  function FatBytes(img: seq<Sector>, g: Geometry): (b: seq<byte>)
    requires g.fatbase + g.fsize <= |img|
    ensures |b| == 512 * g.fsize
  {
    seq(512 * g.fsize, k requires 0 <= k < 512 * g.fsize => img[g.fatbase + k / 512][k % 512])
  }

  /** Byte k + j of the FAT lies in the sector of byte k, j bytes on. */
  lemma InOneSector(k: nat, j: nat)
    requires k % 512 + j < 512
    ensures (k + j) / 512 == k / 512 && (k + j) % 512 == k % 512 + j
  {
  }

  /** The first n entries of a packed table. */
  function Entries(t: FatType, b: seq<byte>, n: nat): (e: seq<nat>)
    requires n > 0 ==> Fits(t, |b|, n - 1)
    ensures |e| == n
  {
    if n == 0 then [] else Entries(t, b, n - 1) + [Load(t, b, n - 1)]
  }

  /** A table long enough for its last entry is long enough for all of them. */
  lemma FitsBelow(t: FatType, len: nat, n: nat, c: nat)
    requires c < n && Fits(t, len, n - 1)
    ensures Fits(t, len, c)
  {
  }

  lemma {:induction false} EntriesAt(t: FatType, b: seq<byte>, n: nat, c: nat)
    requires c < n && Fits(t, |b|, n - 1)
    ensures Fits(t, |b|, c) && Entries(t, b, n)[c] == Load(t, b, c)
  {
    if c < n - 1 {
      EntriesAt(t, b, n - 1, c);
    }
  }

  /** Storing one entry changes the table at that entry and nowhere else. */
  lemma StoreInTable(t: FatType, b: seq<byte>, n: nat, c: nat, val: nat)
    requires c < n && Fits(t, |b|, n - 1)
    ensures Fits(t, |b|, c)
    ensures Entries(t, Store(t, b, c, val), n) == Entries(t, b, n)[c := val % Width(t)]
  {
    EntriesAt(t, b, n, c);
    var b' := Store(t, b, c, val);
    var e, e' := Entries(t, b, n), Entries(t, b', n);
    forall d | 0 <= d < n
      ensures e'[d] == e[c := val % Width(t)][d]
    {
      EntriesAt(t, b, n, d);
      EntriesAt(t, b', n, d);
      if d == c {
        LoadOfStoreSame(t, b, c, val);
      } else {
        LoadOfStoreOther(t, b, c, val, d);
      }
    }
  }

  /** The sectors as seen through a dirty window: its own sector, and the FAT mirror of it. */
  function Overlay(d: seq<Sector>, g: Geometry, wflag: bool, winsect: nat, win: seq<byte>): (img: seq<Sector>)
    requires wflag ==> |win| == 512
    ensures |img| == |d|
  {
    if !wflag || winsect >= |d| then d
    else
      var d1 := d[winsect := win];
      if g.nFats == 2 && winsect < g.fatbase + g.fsize && winsect + g.fsize < |d| then d1[winsect + g.fsize := win]
        else d1
  }

  /** Both FAT copies of an image agree in these sectors. */
  ghost predicate Mirrored(img: seq<Sector>, g: Geometry, twins: set<nat>)
    requires FatEnd(g) <= |img|
  {
    g.nFats == 2 ==> forall s | s in twins && g.fatbase <= s < g.fatbase + g.fsize :: img[s + g.fsize] == img[s]
  }

  /** The sectors of the first FAT copy that the second one repeats. */
  function Twins(img: seq<Sector>, g: Geometry): set<nat> {
    set s | g.fatbase <= s < g.fatbase + g.fsize && Repeated(img, g, s)
  }

  predicate Repeated(img: seq<Sector>, g: Geometry, s: nat) {
    s + g.fsize < |img| && img[s + g.fsize] == img[s]
  }

  lemma TwinsMirrored(img: seq<Sector>, g: Geometry)
    requires GeometryOk(g, |img|)
    ensures FatEnd(g) <= |img| && g.fatbase + g.fsize <= |img| && g.nFatent > 0
              && Fits(g.fsType, 512 * g.fsize, g.nFatent - 1)
    ensures Mirrored(img, g, Twins(img, g))
  {
    forall s | s in Twins(img, g) ensures Repeated(img, g, s) { }
  }

  /** fat is the table an image encodes, and the second copy repeats these sectors of it. */
  ghost predicate TableOk(fat: seq<nat>, img: seq<Sector>, g: Geometry, twins: set<nat>) {
    && FatEnd(g) <= |img| && g.nFatent > 0
    && Fits(g.fsType, 512 * g.fsize, g.nFatent - 1)
    && Mirrored(img, g, twins)
    && fat == Entries(g.fsType, FatBytes(img, g), g.nFatent)
  }

  /** Two images that differ in the FAT copies only. */
  ghost predicate SameOutsideFat(a: seq<Sector>, b: seq<Sector>, g: Geometry) {
    |a| == |b| && forall s | 0 <= s < |a| && (s < g.fatbase || FatEnd(g) <= s) :: a[s] == b[s]
  }

  /** A change outside the FAT copies leaves the table alone. */
  lemma TableFrame(fat: seq<nat>, a: seq<Sector>, b: seq<Sector>, g: Geometry, twins: set<nat>)
    requires TableOk(fat, a, g, twins) && |b| == |a| && forall s | g.fatbase <= s < FatEnd(g) :: b[s] == a[s]
    ensures TableOk(fat, b, g, twins)
  {
    assert FatBytes(a, g) == FatBytes(b, g);
  }

  lemma EntryLoads(fat: seq<nat>, img: seq<Sector>, g: Geometry, twins: set<nat>, c: nat)
    requires TableOk(fat, img, g, twins) && c < g.nFatent
    ensures Fits(g.fsType, 512 * g.fsize, c) && |fat| == g.nFatent
    ensures fat[c] == Load(g.fsType, FatBytes(img, g), c)
  {
    FitsBelow(g.fsType, 512 * g.fsize, g.nFatent, c);
    EntriesAt(g.fsType, FatBytes(img, g), g.nFatent, c);
  }

  /** Byte k + j of the table lies in the sector of byte k while that sector lasts. */
  lemma ByteInSector(img: seq<Sector>, g: Geometry, k: nat, j: nat)
    requires g.fatbase + g.fsize <= |img| && k + j < 512 * g.fsize && k % 512 + j < 512
    ensures FatBytes(img, g)[k + j] == img[g.fatbase + k / 512][k % 512 + j]
  {
    InOneSector(k, j);
  }

  lemma Aligned2(c: nat)
    ensures c * 2 % 512 <= 510
  {
    assert c * 2 % 512 == c % 256 * 2;
  }

  lemma Aligned4(c: nat)
    ensures c * 4 % 512 <= 508 && (c * 4 + 2) % 512 == c * 4 % 512 + 2 && (c * 4 + 2) / 512 == c * 4 / 512
  {
    assert c * 4 % 512 == c % 128 * 4;
  }

  /** A FAT16 entry lies in one sector. */
  lemma WordInSector(img: seq<Sector>, g: Geometry, c: nat, w: Sector, o: nat)
    requires g.fatbase + g.fsize <= |img| && Fits(FAT16, 512 * g.fsize, c)
    requires w == img[g.fatbase + c * 2 / 512] && o == c * 2 % 512
    ensures o <= 510
    ensures Load(FAT16, FatBytes(img, g), c) == Word(w[o], w[o + 1])
  {
    hide FatBytes;
    Aligned2(c);
    ByteInSector(img, g, c * 2, 0);
    ByteInSector(img, g, c * 2, 1);
  }

  /** A FAT32 entry lies in one sector. */
  lemma DWordInSector(img: seq<Sector>, g: Geometry, c: nat, w: Sector, o: nat)
    requires g.fatbase + g.fsize <= |img| && Fits(FAT32, 512 * g.fsize, c)
    requires w == img[g.fatbase + c * 4 / 512] && o == c * 4 % 512
    ensures o <= 508
    ensures Load(FAT32, FatBytes(img, g), c) == DWord(w[o], w[o + 1], w[o + 2], w[o + 3]) % 0x1000_0000
  {
    hide FatBytes;
    Aligned4(c);
    ByteInSector(img, g, c * 4, 0);
    ByteInSector(img, g, c * 4, 1);
    ByteInSector(img, g, c * 4, 2);
    ByteInSector(img, g, c * 4, 3);
  }

  /** A window that is written to again: only its last contents matter. */
  lemma OverlayAgain(d: seq<Sector>, g: Geometry, wflag: bool, s: nat, w0: Sector, w1: Sector)
    ensures Overlay(Overlay(d, g, wflag, s, w0), g, true, s, w1) == Overlay(d, g, true, s, w1)
  {
  }

  /** Data written beside the window and its mirror is written to the logical device. */
  lemma DataBesideWindow(d: seq<Sector>, g: Geometry, wflag: bool, winsect: nat, win: Sector, fat: seq<nat>,
                         twins: set<nat>,
                         data: seq<byte>, sector: nat, count: nat)
    requires GeometryOk(g, |d|) && g.database <= sector && sector + count <= |d| && |data| == 512 * count
    requires winsect < |d| && !(sector <= winsect < sector + count)
    requires TableOk(fat, Overlay(d, g, wflag, winsect, win), g, twins)
    ensures Overlay(Overwrite(d, sector, data, count), g, wflag, winsect, win)
         == Overwrite(Overlay(d, g, wflag, winsect, win), sector, data, count)
    ensures Overwrite(d, sector, data, count)[winsect] == d[winsect]
    ensures TableOk(fat, Overwrite(Overlay(d, g, wflag, winsect, win), sector, data, count), g, twins)
  {
    hide TableOk;
    var img := Overlay(d, g, wflag, winsect, win);
    TableFrame(fat, img, Overwrite(img, sector, data, count), g, twins);
  }

  lemma SameTrans(a: seq<Sector>, b: seq<Sector>, c: seq<Sector>, g: Geometry)
    requires SameOutsideFat(a, b, g) && SameOutsideFat(b, c, g)
    ensures SameOutsideFat(a, c, g)
  {
  }

  lemma SameSelf(a: seq<Sector>, g: Geometry)
    ensures SameOutsideFat(a, a, g)
  {
  }

  function ZeroRunAt(img: seq<Sector>, s: nat, count: nat, k: nat): Sector
    requires k < |img|
  {
    if s <= k < s + count then ZeroSector() else img[k]
  }

  /** An image with count sectors from s on cleared. */
  function ZeroRun(img: seq<Sector>, s: nat, count: nat): (r: seq<Sector>)
    ensures |r| == |img|
  {
    seq(|img|, k requires 0 <= k < |img| => ZeroRunAt(img, s, count, k))
  }

  lemma OneSectorFrame(fat: seq<nat>, img: seq<Sector>, g: Geometry, twins: set<nat>, s: nat, w: Sector)
    requires TableOk(fat, img, g, twins) && FatEnd(g) <= s < |img|
    ensures TableOk(fat, img[s := w], g, twins)
  {
    TableFrame(fat, img, img[s := w], g, twins);
  }

  function ZeroSector(): Sector {
    seq(512, _ => 0)
  }

  lemma IsZero(w: seq<byte>)
    requires |w| == 512 && forall j | 0 <= j < 512 :: w[j] == 0
    ensures w == ZeroSector()
  {
  }

  lemma ZeroRunStart(img: seq<Sector>, s: nat)
    ensures ZeroRun(img, s, 0) == img
  {
  }

  lemma ZeroRunStep(img: seq<Sector>, s: nat, c: nat)
    requires s + c < |img|
    ensures ZeroRun(img, s, c)[s + c := ZeroSector()] == ZeroRun(img, s, c + 1)
  {
  }

  lemma ZeroRunFirst(img: seq<Sector>, s: nat, n: nat)
    requires n > 0 && s < |img|
    ensures ZeroRun(img, s, n)[s] == ZeroSector()
  {
  }

  lemma NotOverlaid(g: Geometry, d: seq<Sector>, winsect: nat, win: Sector)
    ensures Overlay(d, g, false, winsect, win) == d
  {
  }

  lemma BesideFat(img: seq<Sector>, g: Geometry, s: nat, w: Sector)
    requires FatEnd(g) <= s < |img|
    ensures Overlay(img, g, true, s, w) == img[s := w]
  {
  }

  lemma ClusterInVolume(g: Geometry, total: nat, c: nat)
    requires GeometryOk(g, total) && 2 <= c < g.nFatent
    ensures g.database <= Clust2Sect(g, c) && Clust2Sect(g, c) + g.csize <= total
  {
    SectorsGrow(c - 2, g.nFatent - 2, g.csize);
  }

  lemma {:induction false} SectorsGrow(a: nat, b: nat, csize: nat)
    requires a < b
    ensures Sectors(a, csize) + csize <= Sectors(b, csize)
  {
    if a + 1 < b {
      SectorsGrow(a, b - 1, csize);
    }
  }

  lemma ZeroFrame(fat: seq<nat>, img: seq<Sector>, g: Geometry, twins: set<nat>, s: nat)
    requires TableOk(fat, img, g, twins) && FatEnd(g) <= s
    ensures TableOk(fat, ZeroRun(img, s, g.csize), g, twins)
  {
    TableFrame(fat, img, ZeroRun(img, s, g.csize), g, twins);
  }

  /** The logical device after byte k of the FAT is set through the window. */
  function PokeFat(img: seq<Sector>, g: Geometry, k: nat, v: byte): (r: seq<Sector>)
    requires FatEnd(g) <= |img| && k < 512 * g.fsize
    ensures |r| == |img|
  {
    var s := g.fatbase + k / 512;
    Overlay(img, g, true, s, img[s][k % 512 := v])
  }

  /** It changes that byte of the table, in both copies, and nothing else. */
  lemma PokeFatChangesOneByte(img: seq<Sector>, g: Geometry, twins: set<nat>, k: nat, v: byte)
    requires FatEnd(g) <= |img| && k < 512 * g.fsize && Mirrored(img, g, twins)
    ensures FatBytes(PokeFat(img, g, k, v), g) == FatBytes(img, g)[k := v]
    ensures Mirrored(PokeFat(img, g, k, v), g, twins) && SameOutsideFat(img, PokeFat(img, g, k, v), g)
  {
    var s := g.fatbase + k / 512;
    var img' := PokeFat(img, g, k, v);
    forall j | 0 <= j < 512 * g.fsize
      ensures FatBytes(img', g)[j] == FatBytes(img, g)[k := v][j]
    {
      if j / 512 == k / 512 && j != k {
        assert j % 512 != k % 512;
      }
    }
  }

  /** The end mark is all ones in every entry width, and a smaller number is stored whole. */
  lemma EndMarkFits(t: FatType, c: nat)
    ensures 0x0FFF_FFFF % Width(t) == Width(t) - 1
    ensures c < Width(t) ==> c % Width(t) == c < TWO_TO_32
  {
  }

  /** The streaming count of FAT16 and FAT32 entries stands at entry c: i bytes of the window are left from p on. */
  predicate StreamAt(g: Geometry, c: nat, sect: nat, i: nat, p: nat, winsect: nat) {
    var k := EntryAt(g.fsType, c);
    if i == 0 then k % 512 == 0 && sect == g.fatbase + k / 512
    else
      && i <= 512 && i % EntryLen(g.fsType) == 0 && p + i == 512 && k % 512 == p
      && sect == g.fatbase + k / 512 + 1 && winsect == g.fatbase + k / 512
  }

  lemma StreamStarts(g: Geometry)
    requires !g.fsType.FAT12?
    ensures StreamAt(g, 0, g.fatbase, 0, 0, 0) && forall w: nat, p: nat :: StreamAt(g, 0, g.fatbase, 0, p, w)
  {
  }

  /** At the end of a sector the next one is due. */
  lemma StreamBoundary(g: Geometry, c: nat, sect: nat, i: nat, p: nat, winsect: nat)
    requires !g.fsType.FAT12? && StreamAt(g, c, sect, i, p, winsect)
    ensures i == 0 ==> sect == g.fatbase + EntryAt(g.fsType, c) / 512
    ensures i == 0 ==> StreamAt(g, c, sect + 1, 512, 0, sect)
  {
  }

  /** One entry on. */
  lemma StreamAdvance(g: Geometry, c: nat, sect: nat, i: nat, p: nat, winsect: nat)
    requires !g.fsType.FAT12? && i > 0 && StreamAt(g, c, sect, i, p, winsect)
    ensures p == EntryAt(g.fsType, c) % 512 && winsect == g.fatbase + EntryAt(g.fsType, c) / 512
    ensures i >= EntryLen(g.fsType)
    ensures StreamAt(g, c + 1, sect, i - EntryLen(g.fsType), p + EntryLen(g.fsType), winsect)
  {
  }

  /** The copies of the FAT lie one behind the other. */
  lemma FatCopies(g: Geometry)
    requires g.nFats == 1 || g.nFats == 2
    ensures FatEnd(g) == g.fatbase + g.nFats * g.fsize
  {
  }

  /** The sectors taken for mirrored: those of the first copy that the second one repeats on the card. */
  lemma TwinsAre(img: seq<Sector>, g: Geometry, s: nat)
    requires GeometryOk(g, |img|)
    ensures s in Twins(img, g) <==>
              g.fatbase <= s < g.fatbase + g.fsize && s + g.fsize < |img| && img[s] == img[s + g.fsize]
    ensures g.nFats == 2 && g.fatbase <= s < g.fatbase + g.fsize ==> s + g.fsize < |img|
  {
  }

  /** The table that an image encodes has what get_fat computes for every entry. */
  lemma EntryPlace(fat: seq<nat>, img: seq<Sector>, g: Geometry, twins: set<nat>, c: nat)
    requires TableOk(fat, img, g, twins) && c < g.nFatent
    ensures |fat| == g.nFatent && g.fatbase + g.fsize <= |img| && Fits(g.fsType, 512 * g.fsize, c)
    ensures fat[c] == Load(g.fsType, FatBytes(img, g), c)
  {
    EntriesAt(g.fsType, FatBytes(img, g), g.nFatent, c);
  }

  /** And what that is, in the bytes of the first FAT copy on the card: 12-bit entries, also across two sectors. */
  lemma LoadPlace12(img: seq<Sector>, g: Geometry, c: nat)
    requires g.fsType.FAT12? && g.fatbase + g.fsize <= |img| && Fits(FAT12, 512 * g.fsize, c)
    ensures var k := if c % 2 == 0 then c / 2 * 3 else c / 2 * 3 + 1;
            && (k + 1) / 512 < g.fsize
            && var b0: int, b1: int := img[g.fatbase + k / 512][k % 512], img[g.fatbase + (k + 1) / 512][(k + 1) % 512];
               Load(FAT12, FatBytes(img, g), c) == if c % 2 == 0 then b0 + 256 * (b1 % 16) else b0 / 16 + 16 * b1
  {
    hide Load;
    var b := FatBytes(img, g);
    LoadByBytes(FAT12, b, c);
    var k := if c % 2 == 0 then c / 2 * 3 else c / 2 * 3 + 1;
    assert b[k] == img[g.fatbase + k / 512][k % 512];
    assert b[k + 1] == img[g.fatbase + (k + 1) / 512][(k + 1) % 512];
  }

  lemma LoadPlace16(img: seq<Sector>, g: Geometry, c: nat)
    requires g.fsType.FAT16? && g.fatbase + g.fsize <= |img| && Fits(FAT16, 512 * g.fsize, c)
    ensures c / 256 < g.fsize
    ensures var w, o := img[g.fatbase + c / 256], c % 256 * 2;
            var b0: int, b1: int := w[o], w[o + 1];
            Load(FAT16, FatBytes(img, g), c) == b0 + 256 * b1
  {
    hide Load;
    var b := FatBytes(img, g);
    LoadByBytes(FAT16, b, c);
    Split2(c);
    assert b[2 * c] == img[g.fatbase + c / 256][c % 256 * 2];
    assert b[2 * c + 1] == img[g.fatbase + c / 256][c % 256 * 2 + 1];
  }

  lemma LoadPlace32(img: seq<Sector>, g: Geometry, c: nat)
    requires g.fsType.FAT32? && g.fatbase + g.fsize <= |img| && Fits(FAT32, 512 * g.fsize, c)
    ensures c / 128 < g.fsize
    ensures var w, o := img[g.fatbase + c / 128], c % 128 * 4;
            var b0: int, b1: int, b2: int, b3: int := w[o], w[o + 1], w[o + 2], w[o + 3];
            Load(FAT32, FatBytes(img, g), c) == b0 + 256 * b1 + 0x1_0000 * b2 + 0x100_0000 * (b3 % 16)
  {
    hide Load;
    LoadByBytes(FAT32, FatBytes(img, g), c);
    hide FatBytes;
    ByteOfEntry32(img, g, c, 0);
    ByteOfEntry32(img, g, c, 1);
    ByteOfEntry32(img, g, c, 2);
    ByteOfEntry32(img, g, c, 3);
  }

  lemma ByteOfEntry32(img: seq<Sector>, g: Geometry, c: nat, j: nat)
    requires g.fatbase + g.fsize <= |img| && Fits(FAT32, 512 * g.fsize, c) && j < 4
    ensures c / 128 < g.fsize && 4 * c + j < 512 * g.fsize
    ensures FatBytes(img, g)[4 * c + j] == img[g.fatbase + c / 128][c % 128 * 4 + j]
  {
    Split4(c, j);
  }

  /** Two bytes an entry, 256 entries a sector. */
  lemma Split2(c: nat)
    ensures 2 * c / 512 == c / 256 && 2 * c % 512 == c % 256 * 2
    ensures (2 * c + 1) / 512 == c / 256 && (2 * c + 1) % 512 == c % 256 * 2 + 1
  {
  }

  /** Four bytes an entry, 128 entries a sector. */
  lemma Split4(c: nat, j: nat)
    requires j < 4
    ensures (4 * c + j) / 512 == c / 128 && (4 * c + j) % 512 == c % 128 * 4 + j
  {
  }

  class FATFS {
    const g: Geometry
    const disk: Disk
    const win: array<byte>       // the window
    var winsect: nat             // sector appearing in it
    var wflag: bool              // it must be written back
    var fsiFlag: bool            // the FSInfo sector must be written back
    var lastClust: nat           // last allocated cluster
    var freeClust: nat           // number of free clusters, UNKNOWN if not known
    ghost var img: seq<Sector>   // the logical device: what the window overlays on the disk
    ghost var fat: seq<nat>      // the logical allocation table
    ghost const twins: set<nat>  // sectors of the first FAT copy that the second one repeated at mount time

    ghost predicate Valid()
      reads this`winsect, this`wflag, this`img, this`fat, win, disk
    {
      WindowOk() && TableOk(fat, img, g, twins)
    }

    /**
     A clean window holds its sector; a dirty one holds no boot or reserved sector;
     the logical device is the disk with the dirty window laid over it.
     */
    ghost predicate WindowOk()
      reads this`winsect, this`wflag, this`img, win, disk
    {
      && win.Length == 512
      && GeometryOk(g, |disk.sectors|)
      && winsect < |disk.sectors|
      && (wflag ==> Written(winsect))
      && (!wflag && winsect != 0 ==> win[..] == disk.sectors[winsect])
      && img == Overlay(disk.sectors, g, wflag, winsect, win[..])
    }

    /** The sectors written through the window: those of the first FAT copy and those behind the copies. */
    ghost predicate Written(s: nat) {
      g.fatbase <= s && (s < g.fatbase + g.fsize || FatEnd(g) <= s)
    }

    /** The state after mounting: nothing in the window. */
    constructor (g: Geometry, disk: Disk, lastClust: nat, freeClust: nat)
      requires GeometryOk(g, |disk.sectors|)
      ensures Valid() && this.g == g && this.disk == disk && fresh(win)
      ensures winsect == 0 && !wflag && !fsiFlag && this.lastClust == lastClust && this.freeClust == freeClust
      ensures img == disk.sectors
      ensures twins == Twins(disk.sectors, g)
    {
      hide Twins, GeometryOk;
      this.g, this.disk := g, disk;
      win := new byte[512];
      winsect, wflag, fsiFlag := 0, false, false;
      this.lastClust, this.freeClust := lastClust, freeClust;
      img := disk.sectors;
      TwinsMirrored(disk.sectors, g);
      fat := Entries(g.fsType, FatBytes(disk.sectors, g), g.nFatent);
      twins := Twins(disk.sectors, g);
    }

    /**
     On the disk itself the FAT copies agree where they did at mount time, but for the sector the window holds
     dirty.
    */
    lemma CopiesAgree(s: nat)
      requires Valid() && g.nFats == 2 && g.fatbase <= s < g.fatbase + g.fsize && s in twins
      requires !(wflag && winsect == s)
      ensures s + g.fsize < |disk.sectors| && disk.sectors[s + g.fsize] == disk.sectors[s]
    {
      assert img[s + g.fsize] == img[s];
    }

    /** Writes a dirty window to its sector and, inside the FAT, to the mirror of it. */
    method WriteBack()
      requires WindowOk() && wflag
      modifies this`wflag, disk
      ensures !wflag && disk.sectors == img
    {
      OverwriteOne(disk.sectors, winsect, win[..]);
      disk.Write(win[..], winsect, 1);
      wflag := false;
      if winsect < g.fatbase + g.fsize {
        var wsect := winsect;
        var nf := g.nFats;
        while nf > 1
          invariant 1 <= nf <= g.nFats && !wflag
          invariant nf == g.nFats ==> wsect == winsect && disk.sectors == old(disk.sectors)[winsect := win[..]]
          invariant nf < g.nFats ==> disk.sectors == img
        {
          wsect := wsect + g.fsize;
          OverwriteOne(disk.sectors, wsect, win[..]);
          disk.Write(win[..], wsect, 1);
          nf := nf - 1;
        }
      }
    }

    /** Brings a sector into the window, writing a dirty window back first; 0 only writes back. */
    method MoveWindow(sector: nat)
      requires WindowOk() && sector < |disk.sectors|
      modifies this`winsect, this`wflag, win, disk
      ensures WindowOk() && |disk.sectors| == old(|disk.sectors|)
      ensures sector != 0 ==> winsect == sector && win[..] == img[sector]
      ensures sector == 0 ==> winsect == old(winsect) && win[..] == old(win[..])
      ensures sector == old(winsect) ==>
                wflag == old(wflag) && win[..] == old(win[..]) && disk.sectors == old(disk.sectors)
      ensures sector != old(winsect) ==> !wflag && disk.sectors == img
    {
      if winsect != sector {
        if wflag {
          WriteBack();
        }
        if sector != 0 {
          RunOfOne(disk.sectors, sector);
          disk.Read(win, 0, sector, 1);
          assert win[..] == disk.sectors[sector];
          winsect := sector;
        }
      }
    }

    /** Brings byte k of the FAT into the window. */
    method SeekFat(k: nat) returns (o: nat)
      requires Valid() && k < 512 * g.fsize
      modifies this`winsect, this`wflag, win, disk
      ensures Valid() && |disk.sectors| == old(|disk.sectors|)
      ensures winsect == g.fatbase + k / 512 && FatEnd(g) <= |img| && win[..] == img[winsect]
      ensures win.Length == 512 && o == k % 512 && win[o] == FatBytes(img, g)[k]
    {
      MoveWindow(g.fatbase + k / 512);
      o := k % 512;
    }

    lemma ImageFits()
      requires Valid()
      ensures FatEnd(g) <= |img|
    {
    }

    /** Value of a FAT entry; 1 for a number that is no cluster. */
    method GetFat(clst: nat) returns (r: nat)
      requires Valid()
      modifies this`winsect, this`wflag, win, disk
      ensures Valid() && |disk.sectors| == old(|disk.sectors|)
      ensures r == if clst < 2 || clst >= g.nFatent then 1 else fat[clst]
      ensures 2 <= clst < g.nFatent ==> WindowInFat()
    {
      if clst < 2 || clst >= g.nFatent {
        return 1;
      }
      EntryLoads(fat, img, g, twins, clst);
      match g.fsType {
        case FAT12 => r := GetFat12(clst);
        case FAT16 => r := GetFat16(clst);
        case FAT32 => r := GetFat32(clst);
      }
    }

    method GetFat12(clst: nat) returns (r: nat)
      requires Valid() && g.fsType.FAT12? && Fits(FAT12, 512 * g.fsize, clst)
      modifies this`winsect, this`wflag, win, disk
      ensures Valid() && WindowInFat() && |disk.sectors| == old(|disk.sectors|)
      ensures r == Load(FAT12, FatBytes(img, g), clst)
    {
      hide Valid, WindowOk, FatBytes, Fits, EntryAt, EntryLen, Load, Word;
      ImageFits();
      Load12(FatBytes(img, g), clst);
      var bc := clst + clst / 2;
      var o := SeekFat(bc);
      var wc: byte := win[o];
      bc := bc + 1;
      o := SeekFat(bc);
      var w := Word(wc, win[o]);
      r := if clst % 2 == 1 then w / 16 else w % 0x1000;
    }

    method GetFat16(clst: nat) returns (r: nat)
      requires Valid() && g.fsType.FAT16? && Fits(FAT16, 512 * g.fsize, clst)
      modifies this`winsect, this`wflag, win, disk
      ensures Valid() && WindowInFat() && |disk.sectors| == old(|disk.sectors|)
      ensures r == Load(FAT16, FatBytes(img, g), clst)
    {
      hide Valid, WindowOk, FatBytes;
      var p := SeekFat(clst * 2);
      WordInSector(img, g, clst, win[..], p);
      r := Word(win[p], win[p + 1]);
    }

    method GetFat32(clst: nat) returns (r: nat)
      requires Valid() && g.fsType.FAT32? && Fits(FAT32, 512 * g.fsize, clst)
      modifies this`winsect, this`wflag, win, disk
      ensures Valid() && WindowInFat() && |disk.sectors| == old(|disk.sectors|)
      ensures r == Load(FAT32, FatBytes(img, g), clst)
    {
      hide Valid, WindowOk, FatBytes;
      var p := SeekFat(clst * 4);
      DWordInSector(img, g, clst, win[..], p);
      r := DWord(win[p], win[p + 1], win[p + 2], win[p + 3]) % 0x1000_0000;
    }

    /** Sets one byte of the window and marks it dirty. */
    method SetWindowByte(o: nat, v: byte)
      requires WindowOk() && Written(winsect) && o < 512
      modifies this`wflag, this`img, win
      ensures WindowOk() && wflag
      ensures win[..] == old(win[..])[o := v]
      ensures img == Overlay(old(img), g, true, winsect, win[..])
    {
      OverlayAgain(disk.sectors, g, wflag, winsect, win[..], win[..][o := v]);
      win[o] := v;
      wflag := true;
      assert win[..] == old(win[..])[o := v];
      img := Overlay(disk.sectors, g, true, winsect, win[..]);
    }

    /** Sets byte k of the FAT in the window, which shows its sector. */
    method SetFatByte(k: nat, o: nat, v: byte)
      requires Valid() && k < 512 * g.fsize && winsect == g.fatbase + k / 512 && o == k % 512
      requires win[..] == img[winsect]
      modifies this`wflag, this`img, this`fat, win
      ensures Valid() && wflag && win[..] == img[winsect]
      ensures FatBytes(img, g) == FatBytes(old(img), g)[k := v]
      ensures SameOutsideFat(old(img), img, g) && |img| == |old(img)|
    {
      PokeFatChangesOneByte(img, g, twins, k, v);
      SetWindowByte(o, v);
      assert img == PokeFat(old(img), g, k, v);
      fat := Entries(g.fsType, FatBytes(img, g), g.nFatent);
    }

    /** Changes a FAT entry: the table changes at that entry alone, the device in the FAT copies alone. */
    method PutFat(clst: nat, val: nat) returns (ok: bool)
      requires Valid() && val < TWO_TO_32
      modifies this`winsect, this`wflag, this`img, this`fat, win, disk
      ensures Valid() && |disk.sectors| == old(|disk.sectors|)
      ensures ok <==> 2 <= clst < g.nFatent
      ensures fat == if ok then old(fat)[clst := val % Width(g.fsType)] else old(fat)
      ensures SameOutsideFat(old(img), img, g) && |img| == |old(img)|
      ensures FatBytes(img, g) ==
                if ok && Fits(g.fsType, 512 * g.fsize, clst) then Store(g.fsType, FatBytes(old(img), g), clst, val)
                else FatBytes(old(img), g)
      ensures ok ==> WindowInFat()
    {
      if clst < 2 || clst >= g.nFatent {
        return false;
      }
      EntryLoads(fat, img, g, twins, clst);
      StoreInTable(g.fsType, FatBytes(img, g), g.nFatent, clst, val);
      match g.fsType {
        case FAT12 => PutFat12(clst, val);
        case FAT16 => PutFat16(clst, val);
        case FAT32 => PutFat32(clst, val);
      }
      ok := true;
    }

    method PutFat12(clst: nat, val: nat)
      requires Valid() && g.fsType.FAT12? && Fits(FAT12, 512 * g.fsize, clst)
      modifies this`winsect, this`wflag, this`img, this`fat, win, disk
      ensures Valid() && WindowInFat() && |disk.sectors| == old(|disk.sectors|)
      ensures FatBytes(img, g) == Store(FAT12, FatBytes(old(img), g), clst, val)
      ensures SameOutsideFat(old(img), img, g) && |img| == |old(img)|
    {
      hide Valid, WindowOk, FatBytes;
      var bc := clst + clst / 2;
      var p := SeekFat(bc);
      SetFatByte(bc, p, Low12(clst, win[p], val));
      bc := bc + 1;
      p := SeekFat(bc);
      SetFatByte(bc, p, High12(clst, win[p], val));
    }

    method PutFat16(clst: nat, val: nat)
      requires Valid() && g.fsType.FAT16? && Fits(FAT16, 512 * g.fsize, clst)
      modifies this`winsect, this`wflag, this`img, this`fat, win, disk
      ensures Valid() && WindowInFat() && |disk.sectors| == old(|disk.sectors|)
      ensures FatBytes(img, g) == Store(FAT16, FatBytes(old(img), g), clst, val)
      ensures SameOutsideFat(old(img), img, g) && |img| == |old(img)|
    {
      hide Valid, WindowOk, FatBytes;
      Aligned2(clst);
      var p := SeekFat(clst * 2);
      SetFatWord(clst * 2, p, val % 256, val / 256 % 256);
    }

    method PutFat32(clst: nat, val: nat)
      requires Valid() && g.fsType.FAT32? && Fits(FAT32, 512 * g.fsize, clst)
      modifies this`winsect, this`wflag, this`img, this`fat, win, disk
      ensures Valid() && WindowInFat() && |disk.sectors| == old(|disk.sectors|)
      ensures FatBytes(img, g) == Store(FAT32, FatBytes(old(img), g), clst, val)
      ensures SameOutsideFat(old(img), img, g) && |img| == |old(img)|
    {
      hide Valid, WindowOk, FatBytes, Store, EntryLen, Top32, SameOutsideFat;
      ImageFits();
      StoreDWord(FatBytes(img, g), clst, val);
      var k := clst * 4;
      var p := SeekFat(k);
      ByteInSector(img, g, k, 3);
      var top := Top32(win[p + 3], val);
      Aligned4(clst);
      SetFatWord(k, p, val % 256, val / 256 % 256);
      ghost var img1 := img;
      SetFatWord(k + 2, p + 2, val / 0x1_0000 % 256, top);
      SameTrans(old(img), img1, img, g);
    }

    /** Stores two bytes that lie in one sector of the FAT. */
    method SetFatWord(k: nat, o: nat, lo: byte, hi: byte)
      requires Valid() && k + 1 < 512 * g.fsize && winsect == g.fatbase + k / 512 && o == k % 512 && o < 511
      requires win[..] == img[winsect]
      modifies this`wflag, this`img, this`fat, win
      ensures Valid() && wflag && win[..] == img[winsect]
      ensures FatBytes(img, g) == FatBytes(old(img), g)[k := lo][k + 1 := hi]
      ensures SameOutsideFat(old(img), img, g) && |img| == |old(img)|
    {
      hide Valid, WindowOk, FatBytes;
      InOneSector(k, 1);
      SetFatByte(k, o, lo);
      SetFatByte(k + 1, o + 1, hi);
    }

    /** The window shows a sector of the first FAT copy. */
    ghost predicate WindowInFat()
      reads this`winsect
    {
      g.fatbase <= winsect < g.fatbase + g.fsize
    }

    /** The allocator's view of the volume. */
    ghost function Table(): A.Table
      reads this`fat, this`lastClust, this`freeClust, this`fsiFlag
    {
      A.Table(fat, Width(g.fsType) - 1, lastClust, freeClust, fsiFlag)
    }

    /** The logical device, sector by sector: the disk, but for a dirty window and its mirror. */
    lemma LogicalSector(s: nat)
      requires Valid() && s < |img|
      ensures |disk.sectors| == |img| && win.Length == 512
      ensures var mirror := g.nFats == 2 && winsect < g.fatbase + g.fsize && s == winsect + g.fsize;
              img[s] == if wflag && (s == winsect || mirror) then win[..] else disk.sectors[s]
    {
      hide TableOk, GeometryOk;
    }

    /** The end mark that create_chain stores has all bits of an entry set. */
    lemma EndMark()
      ensures Table().eoc == match g.fsType case FAT12 => 0xFFF case FAT16 => 0xFFFF case FAT32 => 0x0FFF_FFFF
    {
    }

    /** The table fits the allocator: every cluster number is below the end mark. */
    lemma TableFits()
      requires Valid()
      ensures A.TableOk(Table()) && |fat| == g.nFatent && g.nFatent < Width(g.fsType)
    {
    }

    /** Stretches the chain at clst, or starts one: 0 no free cluster, 1 bad table, else the cluster. */
    method CreateChain(clst: nat) returns (r: nat)
      requires Valid()
      modifies this`winsect, this`wflag, this`img, this`fat, this`lastClust, this`freeClust, this`fsiFlag, win, disk
      ensures Valid() && |disk.sectors| == old(|disk.sectors|)
      ensures A.TableOk(old(Table())) && (Table(), r) == A.CreateChain(old(Table()), clst)
      ensures SameOutsideFat(old(img), img, g) && |img| == |old(img)|
      ensures clst == 0 || 2 <= clst < g.nFatent ==> WindowInFat()
    {
      hide Valid, WindowOk;
      TableFits();
      var scl;
      if clst == 0 {
        scl := lastClust;
        if scl == 0 || scl >= g.nFatent {
          scl := 1;
        }
      } else {
        var cs := GetFat(clst);
        if cs < 2 {
          return 1;
        }
        if cs < g.nFatent {
          return cs;
        }
        scl := clst;
      }
      var ncl := ScanFree(scl);
      if ncl < 2 {
        return ncl;
      }
      TakeCluster(clst, ncl);
      r := ncl;
    }

    /** Marks ncl the last link, links it behind clst (unless 0) and updates the hints. */
    method TakeCluster(clst: nat, ncl: nat)
      requires Valid() && 2 <= ncl < g.nFatent && (clst == 0 || 2 <= clst < g.nFatent)
      modifies this`winsect, this`wflag, this`img, this`fat, this`lastClust, this`freeClust, this`fsiFlag, win, disk
      ensures Valid() && |disk.sectors| == old(|disk.sectors|) && |old(fat)| == g.nFatent
      ensures Table() == A.Take(old(Table()), clst, ncl)
      ensures SameOutsideFat(old(img), img, g) && |img| == |old(img)| && WindowInFat()
    {
      hide Valid, WindowOk, Width, FatBytes, Store, Fits, SameOutsideFat;
      TableFits();
      EndMarkFits(g.fsType, ncl);
      var ok := PutFat(ncl, 0x0FFF_FFFF);
      ghost var img1 := img;
      SameSelf(img, g);
      if clst != 0 {
        ok := PutFat(clst, ncl);
      }
      SameTrans(old(img), img1, img, g);
      lastClust := ncl;
      if freeClust != A.UNKNOWN {
        freeClust := Wrap32(freeClust - 1);
        fsiFlag := true;
      }
    }

    /** The scan loop of create_chain. */
    method ScanFree(scl: nat) returns (ncl: nat)
      requires Valid() && 1 <= scl < g.nFatent
      modifies this`winsect, this`wflag, win, disk
      ensures Valid() && |disk.sectors| == old(|disk.sectors|)
      ensures A.TableOk(Table()) && ncl == A.Scan(fat, scl, scl)
      ensures WindowInFat() && (ncl >= 2 ==> ncl < g.nFatent)
    {
      hide Valid, WindowOk;
      TableFits();
      ncl := scl;
      while true
        invariant Valid() && |disk.sectors| == old(|disk.sectors|) && 1 <= ncl < g.nFatent
        invariant ncl == scl || WindowInFat()
        invariant A.Scan(fat, scl, scl) == A.Scan(fat, scl, ncl)
        decreases if ncl >= scl then |fat| - ncl + scl else scl - ncl
      {
        ncl := ncl + 1;
        if ncl >= g.nFatent {
          ncl := 2;
          if ncl > scl {
            return 0;
          }
        }
        var cs := GetFat(ncl);
        if cs == 0 {
          return;
        }
        if cs == 1 {
          return 1;
        }
        if ncl == scl {
          return 0;
        }
      }
    }

    /** Sets the chain from clst on free; false on a number that is no cluster or an entry 1. */
    method RemoveChain(clst: nat) returns (ok: bool)
      requires Valid()
      modifies this`winsect, this`wflag, this`img, this`fat, this`freeClust, this`fsiFlag, win, disk
      ensures Valid() && |disk.sectors| == old(|disk.sectors|)
      ensures (Table(), ok) == A.RemoveChain(old(Table()), clst)
      ensures SameOutsideFat(old(img), img, g) && |img| == |old(img)|
      ensures ok ==> WindowInFat()
    {
      hide Valid, WindowOk;
      TableFits();
      if clst < 2 || clst >= g.nFatent {
        return false;
      }
      ok := true;
      var c := clst;
      while c < g.nFatent
        invariant c >= 2 && Valid() && |disk.sectors| == old(|disk.sectors|) && |fat| == g.nFatent && ok
        invariant (c == clst && fat == old(fat)) || WindowInFat()
        invariant A.Release(Table(), c) == A.Release(old(Table()), clst)
        invariant SameOutsideFat(old(img), img, g)
        decreases |fat| - A.Free(fat)
      {
        var nxt := GetFat(c);
        if nxt == 0 {
          break;
        }
        if nxt == 1 {
          ok := false;
          break;
        }
        A.FreeBelowUpdate(fat, |fat|, c, 0);
        A.FreeBelowBound(fat, |fat|);
        ReleaseCluster(c);
        c := nxt;
      }
    }

    /** Marks one cluster empty and counts it. */
    method ReleaseCluster(c: nat)
      requires Valid() && 2 <= c < g.nFatent
      modifies this`winsect, this`wflag, this`img, this`fat, this`freeClust, this`fsiFlag, win, disk
      ensures Valid() && |disk.sectors| == old(|disk.sectors|) && |old(fat)| == g.nFatent
      ensures Table() == old(Table()).(fat := old(fat)[c := 0], free := A.CountUp(old(freeClust)),
                                       fsi := old(fsiFlag) || old(freeClust) != A.UNKNOWN)
      ensures SameOutsideFat(old(img), img, g) && |img| == |old(img)| && WindowInFat()
    {
      hide Valid, WindowOk, Width, FatBytes, Store, Fits, SameOutsideFat;
      TableFits();
      EndMarkFits(g.fsType, 0);
      var done := PutFat(c, 0);
      if freeClust != A.UNKNOWN {
        freeClust := Wrap32(freeClust + 1);
        fsiFlag := true;
      }
    }

    /**
     f_getfree: the recorded count of free clusters, or a count of the zero entries.
     A FAT12 table is counted from entry 2, the others are streamed from entry 0.
     */
    method GetFree() returns (ok: bool, n: nat)
      requires Valid()
      modifies this`winsect, this`wflag, this`freeClust, this`fsiFlag, win, disk
      ensures Valid() && |disk.sectors| == old(|disk.sectors|) && |fat| == g.nFatent >= 2
      ensures ok <==> old(freeClust) <= g.nFatent - 2 || !g.fsType.FAT12? || !A.HasOne(fat)
      ensures ok ==> n == if old(freeClust) <= g.nFatent - 2 then old(freeClust)
                          else if g.fsType.FAT12? then A.Free(fat)
                          else A.ZerosBelow(fat, g.nFatent)
      ensures freeClust == n && fsiFlag == (old(fsiFlag) || (g.fsType.FAT32? && old(freeClust) > g.nFatent - 2))
    {
      hide Valid, WindowOk;
      TableFits();
      if freeClust <= g.nFatent - 2 {
        return true, freeClust;
      }
      if g.fsType.FAT12? {
        ok, n := CountFree12();
      } else {
        ok := true;
        n := StreamZeros();
      }
      freeClust := n;
      if g.fsType.FAT32? {
        fsiFlag := true;
      }
    }

    /** The scan of a 12-bit table, entry by entry; it stops at an entry 1. */
    method CountFree12() returns (ok: bool, n: nat)
      requires Valid()
      modifies this`winsect, this`wflag, win, disk
      ensures Valid() && |disk.sectors| == old(|disk.sectors|) && |fat| == g.nFatent
      ensures ok <==> !A.HasOne(fat)
      ensures ok ==> n == A.Free(fat)
    {
      hide Valid, WindowOk;
      TableFits();
      n := 0;
      var clst := 2;
      while clst < g.nFatent
        invariant 2 <= clst <= g.nFatent && Valid() && |disk.sectors| == old(|disk.sectors|)
        invariant n == A.FreeBelow(fat, clst) && forall c | 2 <= c < clst :: fat[c] != 1
      {
        var stat := GetFat(clst);
        if stat == 1 {
          assert A.IsCluster(fat, clst);
          return false, n;
        }
        if stat == 0 {
          n := n + 1;
        }
        clst := clst + 1;
      }
      ok := true;
    }

    /** The sector-wise scan of f_getfree: i bytes of the window are left, from offset p on. */
    method StreamZeros() returns (n: nat)
      requires Valid() && !g.fsType.FAT12?
      modifies this`winsect, this`wflag, win, disk
      ensures Valid() && |disk.sectors| == old(|disk.sectors|) && |fat| == g.nFatent
      ensures n == A.ZerosBelow(fat, g.nFatent)
    {
      hide Valid, WindowOk;
      TableFits();
      StreamStarts(g);
      hide StreamAt;
      var clst: nat := g.nFatent;
      var sect := g.fatbase;
      var i: nat, p: nat := 0, 0;
      n := 0;
      while clst > 0
        invariant clst <= g.nFatent == |fat| && Valid() && |disk.sectors| == old(|disk.sectors|)
        invariant StreamAt(g, g.nFatent - clst, sect, i, p, winsect)
        invariant n == A.ZerosBelow(fat, g.nFatent - clst)
        decreases clst
      {
        StreamBoundary(g, g.nFatent - clst, sect, i, p, winsect);
        if i == 0 {
          NextStreamSector(g.nFatent - clst, sect);
          sect := sect + 1;
          p := 0;
          i := 512;
        }
        StreamAdvance(g, g.nFatent - clst, sect, i, p, winsect);
        var e := StreamEntry(g.nFatent - clst, p);
        if e == 0 {
          n := n + 1;
        }
        p := p + EntryLen(g.fsType);
        i := i - EntryLen(g.fsType);
        clst := clst - 1;
      }
    }

    method NextStreamSector(c: nat, sect: nat)
      requires Valid() && c < g.nFatent && sect == g.fatbase + EntryAt(g.fsType, c) / 512
      modifies this`winsect, this`wflag, win, disk
      ensures Valid() && |disk.sectors| == old(|disk.sectors|) && winsect == sect
    {
      EntryLoads(fat, img, g, twins, c);
      MoveWindow(sect);
    }

    /** The entry at offset p of the window. */
    method StreamEntry(c: nat, p: nat) returns (e: nat)
      requires Valid() && c < g.nFatent && !g.fsType.FAT12? && p == EntryAt(g.fsType, c) % 512
      requires winsect == g.fatbase + EntryAt(g.fsType, c) / 512
      ensures |fat| == g.nFatent && e == fat[c]
    {
      EntryLoads(fat, img, g, twins, c);
      WindowShows();
      hide Valid, WindowOk, FatBytes;
      if g.fsType.FAT16? {
        WordInSector(img, g, c, win[..], p);
        e := Word(win[p], win[p + 1]);
      } else {
        DWordInSector(img, g, c, win[..], p);
        e := DWord(win[p], win[p + 1], win[p + 2], win[p + 3]) % 0x1000_0000;
      }
    }

    /** The window shows its sector of the logical device, dirty or not. */
    lemma WindowShows()
      requires WindowOk() && winsect != 0
      ensures win.Length == 512 && winsect < |img| && win[..] == img[winsect] && FatEnd(g) <= |img|
    {
    }

    // -------------------------------------------------------------- file data

    /** A run of data sectors that the window does not hold. */
    ghost predicate DataRun(sector: nat, count: nat)
      reads this`winsect, disk
    {
      g.database <= sector && sector + count <= |disk.sectors| && !(sector <= winsect < sector + count)
    }

    /** disk_write of file data, past the window. */
    method WriteData(data: seq<byte>, sector: nat, count: nat)
      requires Valid() && DataRun(sector, count) && |data| == 512 * count
      modifies this`img, disk
      ensures Valid() && |disk.sectors| == old(|disk.sectors|)
      ensures |img| == |old(img)| && sector + count <= |old(img)| && img == Overwrite(old(img), sector, data, count)
    {
      hide TableOk, Overlay, Overwrite, GeometryOk, FatEnd;
      DataBesideWindow(disk.sectors, g, wflag, winsect, win[..], fat, twins, data, sector, count);
      disk.Write(data, sector, count);
      img := Overwrite(img, sector, data, count);
    }

    /** disk_read of file data, past the window. */
    method ReadData(buf: array<byte>, at: nat, sector: nat, count: nat)
      requires Valid() && DataRun(sector, count) && at + 512 * count <= buf.Length && buf != win
      modifies buf
      ensures Valid() && sector + count <= |img|
      ensures buf[..] == Splice(old(buf[..]), at, RunBytes(img, sector, count))
    {
      assert forall s | sector <= s < sector + count :: img[s] == disk.sectors[s];
      RunFrame(img, disk.sectors, sector, count);
      disk.Read(buf, at, sector, count);
    }

    // -------------------------------------------------------------- directory sectors

    /** Puts bytes into a window behind the FAT copies and marks it dirty. */
    method SetWindow(o: nat, data: seq<byte>)
      requires Valid() && FatEnd(g) <= winsect && 0 < winsect && o + |data| <= 512
      modifies this`wflag, this`img, win
      ensures Valid() && win.Length == 512 && win[..] == Splice(old(win[..]), o, data) && wflag
      ensures winsect < |old(img)| && img == old(img)[winsect := Splice(old(img)[winsect], o, data)]
    {
      hide TableOk, GeometryOk, Overlay;
      WindowShows();
      ghost var w := Splice(win[..], o, data);
      OverlayAgain(disk.sectors, g, wflag, winsect, win[..], w);
      BesideFat(img, g, winsect, w);
      OneSectorFrame(fat, img, g, twins, winsect, w);
      PutWindow(o, data);
      wflag := true;
      img := img[winsect := w];
    }

    method PutWindow(o: nat, data: seq<byte>)
      requires win.Length == 512 && o + |data| <= 512
      modifies win
      ensures win[..] == Splice(old(win[..]), o, data)
    {
      forall j | 0 <= j < |data| {
        win[o + j] := data[j];
      }
    }

    /** One sector of a cluster being cleared, written from the zeroed window. */
    method ZeroOne()
      requires win.Length == 512 && GeometryOk(g, |disk.sectors|) && FatEnd(g) <= winsect < |disk.sectors|
      requires !wflag && disk.sectors == img
      modifies this`winsect, this`wflag, this`img, win, disk
      ensures winsect == old(winsect) + 1 && !wflag && win[..] == old(win[..])
      ensures old(winsect) < |old(img)| && disk.sectors == img == old(img)[old(winsect) := old(win[..])]
    {
      BesideFat(img, g, winsect, win[..]);
      wflag := true;
      img := img[winsect := win[..]];
      MoveWindow(0);
      winsect := winsect + 1;
    }

    /** Fills a cluster with zeros through the window and leaves the window on its first sector. */
    method ZeroCluster(clst: nat)
      requires Valid() && 2 <= clst < g.nFatent
      modifies this`winsect, this`wflag, this`img, win, disk
      ensures Valid() && |disk.sectors| == old(|disk.sectors|) && winsect == Clust2Sect(g, clst)
      ensures |img| == |old(img)| && img == ZeroRun(old(img), Clust2Sect(g, clst), g.csize)
    {
      hide Valid, WindowOk, TableOk, GeometryOk, ZeroSector, ZeroRun, Clust2Sect;
      ClusterFits(clst);
      FlushWindow();
      forall j | 0 <= j < 512 {
        win[j] := 0;
      }
      IsZero(win[..]);
      winsect := Clust2Sect(g, clst);
      ZeroLoop(img, winsect);
    }

    /** Writes back a dirty window. */
    method FlushWindow()
      requires Valid()
      modifies this`winsect, this`wflag, win, disk
      ensures Valid() && !wflag && disk.sectors == img && win.Length == 512 && |disk.sectors| == old(|disk.sectors|)
    {
      MoveWindow(0);
    }

    lemma ClusterFits(clst: nat)
      requires Valid() && 2 <= clst < g.nFatent
      ensures GeometryOk(g, |img|) && |disk.sectors| == |img| && g.csize > 0
      ensures FatEnd(g) <= Clust2Sect(g, clst) && Clust2Sect(g, clst) + g.csize <= |img|
      ensures TableOk(fat, ZeroRun(img, Clust2Sect(g, clst), g.csize), g, twins)
    {
      ClusterInVolume(g, |img|, clst);
      ZeroFrame(fat, img, g, twins, Clust2Sect(g, clst));
    }

    method ZeroLoop(ghost img0: seq<Sector>, start: nat)
      requires win.Length == 512 && GeometryOk(g, |disk.sectors|) && FatEnd(g) <= start == winsect
                 && start + g.csize <= |disk.sectors| && 0 < g.csize
      requires !wflag && disk.sectors == img == img0 && win[..] == ZeroSector()
      requires TableOk(fat, ZeroRun(img0, start, g.csize), g, twins)
      modifies this`winsect, this`wflag, this`img, win, disk
      ensures Valid() && winsect == start && |disk.sectors| == old(|disk.sectors|)
      ensures img == ZeroRun(img0, start, g.csize)
    {
      hide GeometryOk, TableOk, ZeroSector, ZeroRun;
      ZeroRunStart(img0, start);
      var c := 0;
      while c < g.csize
        invariant c <= g.csize && winsect == start + c && !wflag && win[..] == ZeroSector()
        invariant |disk.sectors| == |img0| && disk.sectors == img == ZeroRun(img0, start, c)
      {
        ZeroOne();
        ZeroRunStep(img0, start, c);
        c := c + 1;
      }
      winsect := winsect - c;
      ZeroRunFirst(img0, start, g.csize);
      NotOverlaid(g, img, winsect, win[..]);
    }
  }
}
