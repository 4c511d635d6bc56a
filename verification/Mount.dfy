/**
 Mounting: the geometry that chk_mounted derives from a boot record in 32-bit
 arithmetic, and which records lead to a usable volume.
 */
module Mount {
  import opened Bits
  import opened FatTable
  import opened Volume
  import opened Layout
  import opened Directory

  /** The fields of the boot record that the mount code reads. */
  datatype BootRecord = BootRecord(
    bytsPerSec: nat, secPerClus: nat, rsvdSecCnt: nat, numFats: nat, rootEntCnt: nat,
    totSec16: nat, fatSz16: nat, totSec32: nat, fatSz32: nat, rootClus: nat)

  datatype Option<T> = None | Some(value: T)

  const MIN_FAT16 := 4086
  const MIN_FAT32 := 65526

  /** The widths of the fields on disk. */
  predicate FieldsOk(b: BootRecord) {
    && b.bytsPerSec < 0x1_0000 && b.secPerClus < 256 && b.rsvdSecCnt < 0x1_0000 && b.numFats < 256
    && b.rootEntCnt < 0x1_0000 && b.totSec16 < 0x1_0000 && b.fatSz16 < 0x1_0000
    && b.totSec32 < TWO_TO_32 && b.fatSz32 < TWO_TO_32 && b.rootClus < TWO_TO_32
  }

  function FatSize(b: BootRecord): nat {
    if b.fatSz16 == 0 then b.fatSz32 else b.fatSz16
  }

  /** The sectors of all FAT copies. */
  function FatSectors(b: BootRecord): nat {
    FatSize(b) * b.numFats
  }

  function TotalSectors(b: BootRecord): nat {
    if b.totSec16 == 0 then b.totSec32 else b.totSec16
  }

  function TypeOf(nclst: nat): FatType {
    if nclst >= MIN_FAT32 then FAT32 else if nclst >= MIN_FAT16 then FAT16 else FAT12
  }

  function ClustersIn(sectors: nat, csize: nat): nat
    requires csize > 0
  {
    sectors / csize
  }

  /** The bytes a table of n entries takes. */
  function TableBytes(t: FatType, n: nat): nat {
    match t
    case FAT12 => Wrap32(Wrap32(n * 3) / 2 + n % 2)
    case FAT16 => Wrap32(n * 2)
    case FAT32 => Wrap32(n * 4)
  }

  /** The boot record of a partition that starts at sector bsect. */
  function ReadBootRecord(b: BootRecord, bsect: nat): Option<Geometry> {
    if b.bytsPerSec != 512 then None
    else if b.numFats != 1 && b.numFats != 2 then None
    else if b.secPerClus == 0 || BitAnd(b.secPerClus, b.secPerClus - 1) != 0 then None
    else if b.rootEntCnt % 16 != 0 then None
    else if b.rsvdSecCnt == 0 then None
    else
      var fasize := Wrap32(FatSize(b) * b.numFats);
      var sysect := Wrap32(b.rsvdSecCnt + fasize + b.rootEntCnt / 16);
      if TotalSectors(b) < sysect then None
      else
        var nclst := ClustersIn(TotalSectors(b) - sysect, b.secPerClus);
        var fmt := TypeOf(nclst);
        var n := Wrap32(nclst + 2);
        var fatbase := Wrap32(bsect + b.rsvdSecCnt);
        if nclst == 0 then None
        else if fmt.FAT32? && b.rootEntCnt != 0 then None
        else if !fmt.FAT32? && b.rootEntCnt == 0 then None
        else if FatSize(b) < Wrap32(TableBytes(fmt, n) + 511) / 512 then None
        else Some(Geometry(fmt, b.secPerClus, b.numFats, b.rootEntCnt, n, FatSize(b), fatbase,
                           if fmt.FAT32? then b.rootClus else Wrap32(fatbase + fasize), Wrap32(bsect + sysect)))
  }

  /** The sectors before the data area, in unbounded arithmetic. */
  function SystemSectors(b: BootRecord): nat {
    b.rsvdSecCnt + (if b.numFats == 2 then FatSize(b) + FatSize(b) else FatSize(b)) + b.rootEntCnt / 16
  }

  /** The volume that the record announces lies on the device. */
  predicate OnDevice(b: BootRecord, bsect: nat, total: nat) {
    FieldsOk(b) && bsect + TotalSectors(b) <= total <= TWO_TO_32
  }

  lemma {:induction false} Pow2Below(c: nat, d: nat)
    requires IsPow2(c) && IsPow2(d) && c < 2 * d
    ensures c <= d
  {
    if c > 1 && d > 1 {
      Pow2Below(c / 2, d / 2);
    }
  }

  lemma CsizeAccepted(c: nat)
    requires 0 < c < 256 && BitAnd(c, c - 1) == 0
    ensures IsPow2(c) && c <= 128
  {
    SingleBitTest(c);
    assert IsPow2(128);
    Pow2Below(c, 128);
  }

  /** The number of clusters, in unbounded arithmetic. */
  function ClusterCount(b: BootRecord): nat
    requires b.secPerClus > 0 && SystemSectors(b) <= TotalSectors(b)
  {
    ClustersIn(TotalSectors(b) - SystemSectors(b), b.secPerClus)
  }

  /** The system area lies in the volume, and the clusters can be numbered in 28 bits. */
  predicate Fitting(b: BootRecord) {
    && b.secPerClus > 0 && SystemSectors(b) <= TotalSectors(b)
    && ClusterCount(b) + 2 < 0x1000_0000
  }

  /** What is accepted if the system area lies in the volume: nothing wraps but the number of entries. */
  lemma Accepted(b: BootRecord, bsect: nat, total: nat)
    requires OnDevice(b, bsect, total) && ReadBootRecord(b, bsect).Some?
    requires SystemSectors(b) <= TotalSectors(b)
    ensures b.secPerClus > 0 && b.rsvdSecCnt > 0 && ClusterCount(b) > 0
    ensures var g := ReadBootRecord(b, bsect).value;
            && g.csize == b.secPerClus && IsPow2(g.csize) && g.csize <= 128
            && g.nFats == b.numFats && 1 <= g.nFats <= 2
            && g.nFatent == Wrap32(ClusterCount(b) + 2) && g.fsType == TypeOf(ClusterCount(b)) && g.fsize == FatSize(b)
            && g.fatbase == bsect + b.rsvdSecCnt && g.database == bsect + SystemSectors(b)
            && RootOk(g) && FatEnd(g) <= g.database
            && g.fsize >= Wrap32(TableBytes(g.fsType, g.nFatent) + 511) / 512
  {
    hide IsPow2, BitAnd, ClustersIn, TableBytes, TypeOf, Wrap32;
    CsizeAccepted(b.secPerClus);
    var fasize := if b.numFats == 2 then FatSize(b) + FatSize(b) else FatSize(b);
    assert fasize == FatSize(b) * b.numFats;
    WrapBelow(fasize);
    WrapBelow(SystemSectors(b));
    WrapBelow(bsect + b.rsvdSecCnt);
    WrapBelow(bsect + b.rsvdSecCnt + fasize);
    assert TotalSectors(b) > SystemSectors(b) by { NoClusters(b.secPerClus); }
    WrapBelow(bsect + SystemSectors(b));
    RecordGeometry(b, bsect, fasize);
  }

  /** The record without wrap-around. */
  lemma RecordGeometry(b: BootRecord, bsect: nat, fasize: nat)
    requires ReadBootRecord(b, bsect).Some? && fasize == FatSize(b) * b.numFats
    requires fasize == if b.numFats == 2 then FatSize(b) + FatSize(b) else FatSize(b)
    requires Wrap32(fasize) == fasize && Wrap32(SystemSectors(b)) == SystemSectors(b)
    ensures var g := ReadBootRecord(b, bsect).value;
            && g.fatbase == Wrap32(bsect + b.rsvdSecCnt) && g.database == Wrap32(bsect + SystemSectors(b))
            && (!g.fsType.FAT32? ==> g.dirbase == Wrap32(g.fatbase + fasize) && g.nRootdir > 0)
            && g.nFats == b.numFats && g.fsize == FatSize(b) && g.nRootdir == b.rootEntCnt && g.nRootdir % 16 == 0
  {
    hide IsPow2, BitAnd, ClustersIn, TableBytes, TypeOf, Wrap32;
  }

  lemma WrapBelow(x: nat)
    ensures x < TWO_TO_32 ==> Wrap32(x) == x
  {
  }

  /** The FAT is long enough for every entry. */
  lemma TableFits(t: FatType, n: nat, fsize: nat)
    requires 2 < n < Width(t) && fsize >= Wrap32(TableBytes(t, n) + 511) / 512
    requires t.FAT12? ==> n <= 4087
    ensures Fits(t, 512 * fsize, n - 1)
  {
    match t
    case FAT12 => Fits12(n, fsize);
    case FAT16 => Fits16(n, fsize);
    case FAT32 => Fits32(n, fsize);
  }

  lemma Fits12(n: nat, fsize: nat)
    requires 2 < n <= 4087 && fsize >= Wrap32(TableBytes(FAT12, n) + 511) / 512
    ensures Fits(FAT12, 512 * fsize, n - 1)
  {
    WrapBelow(n * 3);
    WrapBelow(n * 3 / 2 + n % 2);
    WrapBelow(n * 3 / 2 + n % 2 + 511);
    Half3(n);
    RoundUp(n * 3 / 2 + n % 2, fsize);
  }

  lemma Fits16(n: nat, fsize: nat)
    requires 2 < n < 0x1_0000 && fsize >= Wrap32(TableBytes(FAT16, n) + 511) / 512
    ensures Fits(FAT16, 512 * fsize, n - 1)
  {
    WrapBelow(n * 2);
    WrapBelow(n * 2 + 511);
    RoundUp(n * 2, fsize);
  }

  lemma Fits32(n: nat, fsize: nat)
    requires 2 < n < 0x1000_0000 && fsize >= Wrap32(TableBytes(FAT32, n) + 511) / 512
    ensures Fits(FAT32, 512 * fsize, n - 1)
  {
    WrapBelow(n * 4);
    WrapBelow(n * 4 + 511);
    RoundUp(n * 4, fsize);
  }

  lemma RoundUp(x: nat, fsize: nat)
    requires fsize >= (x + 511) / 512
    ensures x <= 512 * fsize
  {
  }

  lemma Half3(n: nat)
    requires n > 0
    ensures (n - 1) + (n - 1) / 2 + 2 <= n * 3 / 2 + n % 2
  {
  }

  // ---------------------------------------------------------------- what is accepted, in the fields of the record

  /** A FAT of this many sectors holds n + 2 entries: of 12 bits up to 4085 clusters, of 16 up to 65525, then of 32. */
  predicate LongEnough(fat: nat, n: nat) {
    var bytes := if n <= 4085 then (n + 2) * 3 / 2 + (n + 2) % 2
                 else if n <= 65525 then (n + 2) * 2
                 else (n + 2) % 0x1_0000_0000 * 4 % 0x1_0000_0000;
    fat >= (bytes + 511) % 0x1_0000_0000 / 512
  }

  /**
   What a record has to say to be mounted, field by field: sectors of 512 bytes, one or two FATs, a cluster of
   1 to 128 sectors, a root directory of whole sectors, reserved sectors, and behind the system area, reckoned
   in 32 bits, n clusters. Up to 65525 of them want a static root directory, more want none.
   */
  predicate Acceptable(b: BootRecord) {
    var fat := if b.fatSz16 != 0 then b.fatSz16 else b.fatSz32;
    var total := if b.totSec16 != 0 then b.totSec16 else b.totSec32;
    var system := (b.rsvdSecCnt + fat * b.numFats % 0x1_0000_0000 + b.rootEntCnt / 16) % 0x1_0000_0000;
    && b.bytsPerSec == 512 && (b.numFats == 1 || b.numFats == 2) && b.secPerClus in {1, 2, 4, 8, 16, 32, 64, 128}
    && b.rootEntCnt % 16 == 0 && b.rsvdSecCnt > 0
    && system <= total
    && var n := (total - system) / b.secPerClus;
       n >= 1 && (n >= 65526 <==> b.rootEntCnt == 0) && LongEnough(fat, n)
  }

  /** The cluster sizes that the test of the source accepts. */
  lemma ClusterSizes(c: nat)
    requires c < 256
    ensures c != 0 && BitAnd(c, c - 1) == 0 <==> c in {1, 2, 4, 8, 16, 32, 64, 128}
  {
    if c > 0 {
      SingleBitTest(c);
      PowersBelow256(c);
    }
  }

  lemma PowersBelow256(c: nat)
    requires 0 < c < 256
    ensures IsPow2(c) <==> c in {1, 2, 4, 8, 16, 32, 64, 128}
  {
    hide IsPow2;
    PowersBelow16(c);
    if c >= 16 {
      var q, r := c / 16, c % 16;
      OfSixteen(c, q, r);
      PowersBelow16(q);
    }
  }

  /** Four halvings at once. */
  lemma OfSixteen(c: nat, q: nat, r: nat)
    requires c >= 16 && c == 16 * q + r && r < 16
    ensures IsPow2(c) <==> r == 0 && IsPow2(q)
  {
    hide IsPow2;
    OfTwo(c);
    OfTwo(c / 2);
    OfTwo(c / 4);
    OfTwo(c / 8);
    Quarters(c, q, r);
  }

  lemma OfTwo(c: nat)
    requires c >= 2
    ensures IsPow2(c) <==> c % 2 == 0 && IsPow2(c / 2)
  {
  }

  lemma Quarters(c: nat, q: nat, r: nat)
    requires c == 16 * q + r && r < 16
    ensures c / 2 / 2 == c / 4 && c / 4 / 2 == c / 8 && c / 8 / 2 == q
    ensures c % 2 == 0 && c / 2 % 2 == 0 && c / 4 % 2 == 0 && c / 8 % 2 == 0 <==> r == 0
  {
  }

  lemma PowersBelow16(c: nat)
    requires 0 < c
    ensures c < 16 ==> (IsPow2(c) <==> c in {1, 2, 4, 8})
  {
    if c < 16 {
      assert IsPow2(1) && IsPow2(2) && IsPow2(4) && IsPow2(8);
      assert !IsPow2(3) && !IsPow2(5) && !IsPow2(6) && !IsPow2(7);
    }
  }

  /** The type of the FAT, by the number of clusters. */
  lemma TypeByCount(n: nat)
    ensures TypeOf(n).FAT12? <==> n <= 4085
    ensures TypeOf(n).FAT16? <==> 4086 <= n <= 65525
    ensures TypeOf(n).FAT32? <==> n >= 65526
  {
  }

  lemma LengthByCount(fat: nat, n: nat)
    requires n < 0x1_0000_0000
    ensures FatHolds(fat, n) <==> LongEnough(fat, n)
  {
    TypeByCount(n);
    hide TypeOf;
    if n <= 65525 {
      WrapBelow(n + 2);
      WrapBelow((n + 2) * 3);
      WrapBelow((n + 2) * 3 / 2 + (n + 2) % 2);
      WrapBelow((n + 2) * 2);
    }
  }

  /** The last test of the source. */
  predicate FatHolds(fat: nat, n: nat) {
    fat >= Wrap32(TableBytes(TypeOf(n), Wrap32(n + 2)) + 511) / 512
  }

  /** Exactly these records are mounted. */
  lemma MountsExactly(b: BootRecord, bsect: nat)
    requires FieldsOk(b)
    ensures ReadBootRecord(b, bsect).Some? <==> Acceptable(b)
  {
    hide BitAnd, TypeOf, TableBytes, LongEnough;
    ClusterSizes(b.secPerClus);
    if b.secPerClus in {1, 2, 4, 8, 16, 32, 64, 128} && (b.numFats == 1 || b.numFats == 2) {
      var system := Wrap32(b.rsvdSecCnt + Wrap32(FatSize(b) * b.numFats) + b.rootEntCnt / 16);
      if system <= TotalSectors(b) {
        CountBelow(TotalSectors(b) - system, b.secPerClus);
        var n := ClustersIn(TotalSectors(b) - system, b.secPerClus);
        TypeByCount(n);
        LengthByCount(FatSize(b), n);
      }
    }
  }

  /** A geometry, in the fields of the record: sums in 32 bits, the type by the number of clusters. */
  predicate LaidOut(b: BootRecord, bsect: nat, g: Geometry)
    requires b.secPerClus > 0
  {
    var fat := if b.fatSz16 != 0 then b.fatSz16 else b.fatSz32;
    var total := if b.totSec16 != 0 then b.totSec16 else b.totSec32;
    var fats := fat * b.numFats % 0x1_0000_0000;
    var system := (b.rsvdSecCnt + fats + b.rootEntCnt / 16) % 0x1_0000_0000;
    var n := (total - system) / b.secPerClus;
    && system <= total && n >= 1 && (g.fsType.FAT12? <==> n <= 4085) && (g.fsType.FAT32? <==> n >= 65526)
    && g.csize == b.secPerClus && g.nFats == b.numFats && g.nRootdir == b.rootEntCnt
    && g.nFatent == (n + 2) % 0x1_0000_0000 && g.fsize == fat
    && g.fatbase == (bsect + b.rsvdSecCnt) % 0x1_0000_0000 && g.database == (bsect + system) % 0x1_0000_0000
    && g.dirbase == if n >= 65526 then b.rootClus else (g.fatbase + fats) % 0x1_0000_0000
  }

  /** What every mounted record gives. */
  lemma GeometryByFields(b: BootRecord, bsect: nat, g: Geometry)
    requires FieldsOk(b) && ReadBootRecord(b, bsect) == Some(g)
    ensures b.secPerClus > 0 && LaidOut(b, bsect, g)
  {
    hide ReadBootRecord, Wrap32, ClustersIn, LaidOut, FatSectors, FatSize, TotalSectors;
    var n := RecordParts(b, bsect, g);
    var fats := Wrap32(FatSectors(b));
    var system := Wrap32(b.rsvdSecCnt + fats + b.rootEntCnt / 16);
    WrapIs(FatSectors(b));
    WrapIs(b.rsvdSecCnt + fats + b.rootEntCnt / 16);
    WrapIs(n + 2);
    WrapIs(bsect + b.rsvdSecCnt);
    WrapIs(bsect + system);
    WrapIs(g.fatbase + fats);
    LaidOutBy(b, bsect, g, fats, system, n);
  }

  lemma LaidOutBy(b: BootRecord, bsect: nat, g: Geometry, fats: nat, system: nat, n: nat)
    requires b.secPerClus > 0 && fats == FatSectors(b) % 0x1_0000_0000
    requires system == (b.rsvdSecCnt + fats + b.rootEntCnt / 16) % 0x1_0000_0000 && system <= TotalSectors(b)
    requires n == ClustersIn(TotalSectors(b) - system, b.secPerClus) && n >= 1
    requires (g.fsType.FAT12? <==> n <= 4085) && (g.fsType.FAT32? <==> n >= 65526)
    requires g.csize == b.secPerClus && g.nFats == b.numFats && g.nRootdir == b.rootEntCnt
    requires g.nFatent == (n + 2) % 0x1_0000_0000 && g.fsize == FatSize(b)
    requires g.fatbase == (bsect + b.rsvdSecCnt) % 0x1_0000_0000 && g.database == (bsect + system) % 0x1_0000_0000
    requires g.dirbase == if n >= 65526 then b.rootClus else (g.fatbase + fats) % 0x1_0000_0000
    ensures LaidOut(b, bsect, g)
  {
  }

  lemma WrapIs(x: nat)
    ensures Wrap32(x) == x % 0x1_0000_0000
  {
  }

  /** The records of sound mounting, in their fields. */
  lemma FittingByFields(b: BootRecord)
    requires b.numFats == 1 || b.numFats == 2
    ensures var fat := if b.fatSz16 != 0 then b.fatSz16 else b.fatSz32;
            var total := if b.totSec16 != 0 then b.totSec16 else b.totSec32;
            var system := b.rsvdSecCnt + fat * b.numFats + b.rootEntCnt / 16;
            Fitting(b) <==> b.secPerClus > 0 && system <= total && (total - system) / b.secPerClus + 2 < 0x1000_0000
  {
    hide ClustersIn;
    assert SystemSectors(b) == b.rsvdSecCnt + FatSize(b) * b.numFats + b.rootEntCnt / 16;
    if b.secPerClus > 0 {
      Quotient(TotalSectors(b) - SystemSectors(b), b.secPerClus);
    }
  }

  /** A geometry without wrap-around, in the fields of the record. */
  predicate LaidOutPlainly(b: BootRecord, bsect: nat, g: Geometry)
    requires b.secPerClus > 0
  {
    var fat := if b.fatSz16 != 0 then b.fatSz16 else b.fatSz32;
    var sectors := if b.totSec16 != 0 then b.totSec16 else b.totSec32;
    var system := b.rsvdSecCnt + fat * b.numFats + b.rootEntCnt / 16;
    var n := (sectors - system) / b.secPerClus;
    && system < sectors && (g.fsType.FAT12? <==> n <= 4085) && (g.fsType.FAT32? <==> n >= 65526)
    && g.csize == b.secPerClus && g.nFats == b.numFats && g.nRootdir == b.rootEntCnt
    && g.nFatent == n + 2 && g.fsize == fat
    && g.fatbase == bsect + b.rsvdSecCnt && g.database == bsect + system
    && g.dirbase == if n >= 65526 then b.rootClus else bsect + b.rsvdSecCnt + fat * b.numFats
  }

  /** The geometry of the records of sound mounting: no sum wraps. */
  lemma FittingGeometry(b: BootRecord, bsect: nat, total: nat, g: Geometry)
    requires OnDevice(b, bsect, total) && ReadBootRecord(b, bsect) == Some(g) && Fitting(b)
    ensures b.secPerClus > 0 && LaidOutPlainly(b, bsect, g)
  {
    hide ReadBootRecord, Fitting, Wrap32, ClustersIn, LaidOutPlainly, FatSectors, FatSize, TotalSectors;
    var n := RecordParts(b, bsect, g);
    FittingSums(b, bsect);
    var fats := FatSectors(b);
    var system := b.rsvdSecCnt + fats + b.rootEntCnt / 16;
    WrapBelow(fats);
    WrapBelow(system);
    Quotient(TotalSectors(b) - system, b.secPerClus);
    NoClusters(b.secPerClus);
    WrapBelow(n + 2);
    WrapBelow(bsect + b.rsvdSecCnt);
    WrapBelow(bsect + b.rsvdSecCnt + fats);
    WrapBelow(bsect + system);
    PlainlyBy(b, bsect, g, fats, system, n);
  }

  lemma FittingSums(b: BootRecord, bsect: nat)
    requires FieldsOk(b) && ReadBootRecord(b, bsect).Some? && Fitting(b)
    ensures b.secPerClus > 0 && TotalSectors(b) < TWO_TO_32
    ensures b.rsvdSecCnt + FatSectors(b) + b.rootEntCnt / 16 <= TotalSectors(b)
    ensures var system := b.rsvdSecCnt + FatSectors(b) + b.rootEntCnt / 16;
            ClustersIn(TotalSectors(b) - system, b.secPerClus) < 0x1000_0000
  {
    RecordSums(b, bsect);
    hide ReadBootRecord, ClustersIn, Wrap32;
    assert SystemSectors(b) == b.rsvdSecCnt + FatSectors(b) + b.rootEntCnt / 16;
  }

  lemma PlainlyBy(b: BootRecord, bsect: nat, g: Geometry, fats: nat, system: nat, n: nat)
    requires b.secPerClus > 0 && fats == FatSectors(b)
    requires system == b.rsvdSecCnt + fats + b.rootEntCnt / 16 && system < TotalSectors(b)
    requires n == ClustersIn(TotalSectors(b) - system, b.secPerClus)
    requires (g.fsType.FAT12? <==> n <= 4085) && (g.fsType.FAT32? <==> n >= 65526)
    requires g.csize == b.secPerClus && g.nFats == b.numFats && g.nRootdir == b.rootEntCnt
    requires g.nFatent == n + 2 && g.fsize == FatSize(b)
    requires g.fatbase == bsect + b.rsvdSecCnt && g.database == bsect + system
    requires g.dirbase == if n >= 65526 then b.rootClus else bsect + b.rsvdSecCnt + fats
    ensures LaidOutPlainly(b, bsect, g)
  {
  }

  /** The sums and the count of the source. */
  lemma RecordParts(b: BootRecord, bsect: nat, g: Geometry) returns (n: nat)
    requires FieldsOk(b) && ReadBootRecord(b, bsect) == Some(g)
    ensures b.secPerClus > 0
    ensures var fasize := Wrap32(FatSectors(b));
            var system := Wrap32(b.rsvdSecCnt + fasize + b.rootEntCnt / 16);
            && system <= TotalSectors(b) && n == ClustersIn(TotalSectors(b) - system, b.secPerClus) && n >= 1
            && (g.fsType.FAT12? <==> n <= 4085) && (g.fsType.FAT32? <==> n >= 65526)
            && g.csize == b.secPerClus && g.nFats == b.numFats && g.nRootdir == b.rootEntCnt
            && g.nFatent == Wrap32(n + 2) && g.fsize == FatSize(b)
            && g.fatbase == Wrap32(bsect + b.rsvdSecCnt) && g.database == Wrap32(bsect + system)
            && g.dirbase == if n >= 65526 then b.rootClus else Wrap32(g.fatbase + fasize)
  {
    hide BitAnd, TypeOf, TableBytes, Wrap32, ClustersIn;
    var system := Wrap32(b.rsvdSecCnt + Wrap32(FatSize(b) * b.numFats) + b.rootEntCnt / 16);
    n := ClustersIn(TotalSectors(b) - system, b.secPerClus);
    TypeByCount(n);
  }

  lemma Quotient(d: int, c: nat)
    requires c > 0
    ensures d >= 0 ==> ClustersIn(d, c) == d / c && (d / c >= 1 ==> d > 0)
  {
  }

  /** The sums of the source, wrapped. */
  lemma RecordSums(b: BootRecord, bsect: nat)
    requires ReadBootRecord(b, bsect).Some?
    ensures b.secPerClus > 0 && b.rsvdSecCnt > 0
    ensures var g, fasize := ReadBootRecord(b, bsect).value, FatSize(b) * b.numFats;
            && g.nFats == b.numFats && 1 <= g.nFats <= 2 && g.fsize == FatSize(b)
            && fasize == (if b.numFats == 2 then FatSize(b) + FatSize(b) else FatSize(b))
            && g.fatbase == Wrap32(bsect + b.rsvdSecCnt)
            && var sysect := Wrap32(b.rsvdSecCnt + Wrap32(fasize) + b.rootEntCnt / 16);
               sysect <= TotalSectors(b) && g.database == Wrap32(bsect + sysect)
  {
    hide IsPow2, BitAnd, ClustersIn, TableBytes, TypeOf, Wrap32;
  }

  /** Wrapping takes multiples of 2^32 off. */
  lemma WrapOff(x: nat)
    ensures Wrap32(x) <= x && (TWO_TO_32 <= x ==> Wrap32(x) <= x - TWO_TO_32) && Wrap32(x) < TWO_TO_32
  {
  }

  /** If the FATs lie behind the start of the volume and in front of the data, no sum wrapped. */
  lemma NothingWrapped(b: BootRecord, bsect: nat, total: nat)
    requires OnDevice(b, bsect, total) && ReadBootRecord(b, bsect).Some?
    requires var g := ReadBootRecord(b, bsect).value; bsect <= g.fatbase && FatEnd(g) <= g.database
    ensures SystemSectors(b) <= TotalSectors(b)
  {
    hide ReadBootRecord, Wrap32;
    RecordSums(b, bsect);
    var fasize, root := FatSize(b) * b.numFats, b.rootEntCnt / 16;
    WrapOff(bsect + b.rsvdSecCnt);
    WrapBelow(bsect + b.rsvdSecCnt);
    var sysect := Wrap32(b.rsvdSecCnt + Wrap32(fasize) + root);
    WrapOff(bsect + sysect);
    WrapBelow(fasize);
    WrapOff(SystemSectors(b));
    WrapBelow(SystemSectors(b));
  }

  /**
   Mounting is sound: on a device that holds the announced volume, an accepted boot record gives
   a usable geometry behind the start of the volume exactly when the system area lies in the
   volume and the clusters can be numbered in 28 bits.
   */
  lemma MountIsSound(b: BootRecord, bsect: nat, total: nat)
    requires OnDevice(b, bsect, total) && ReadBootRecord(b, bsect).Some?
    ensures var g := ReadBootRecord(b, bsect).value;
            && (GeometryOk(g, total) && bsect <= g.fatbase <==> Fitting(b))
            && (Fitting(b) ==> RootOk(g))
  {
    hide ReadBootRecord, IsPow2, RootOk, TableBytes, Wrap32, Fits, SystemSectors;
    var g := ReadBootRecord(b, bsect).value;
    if bsect <= g.fatbase && FatEnd(g) <= g.database {
      NothingWrapped(b, bsect, total);
    }
    if SystemSectors(b) <= TotalSectors(b) {
      UsableIfNumbered(b, bsect, total);
    }
  }

  /** The half about the clusters. */
  lemma UsableIfNumbered(b: BootRecord, bsect: nat, total: nat)
    requires OnDevice(b, bsect, total) && ReadBootRecord(b, bsect).Some?
    requires SystemSectors(b) <= TotalSectors(b)
    ensures b.secPerClus > 0 && RootOk(ReadBootRecord(b, bsect).value)
              && bsect <= ReadBootRecord(b, bsect).value.fatbase
    ensures GeometryOk(ReadBootRecord(b, bsect).value, total) <==> ClusterCount(b) + 2 < 0x1000_0000
  {
    hide ReadBootRecord, IsPow2, RootOk, ClustersIn, TableBytes, Wrap32, Fits;
    Accepted(b, bsect, total);
    var g := ReadBootRecord(b, bsect).value;
    CountBelow(TotalSectors(b) - SystemSectors(b), b.secPerClus);
    var n := ClusterCount(b) + 2;
    if n < 0x1000_0000 {
      WrapBelow(n);
      TableFits(g.fsType, n, g.fsize);
      SectorsIsProduct(n - 2, g.csize);
    } else {
      WrapHigh(n);
    }
  }

  lemma WrapHigh(n: nat)
    requires 0x1000_0000 <= n <= TWO_TO_32
    ensures Wrap32(n) == 0 || Wrap32(n) >= 0x1000_0000
  {
  }

  lemma Commutes(a: nat, b: nat)
    ensures a * b == b * a
  {
  }

  lemma NoClusters(csize: nat)
    requires csize > 0
    ensures ClustersIn(0, csize) == 0
  {
  }

  lemma CountBelow(d: nat, csize: nat)
    requires csize > 0
    ensures ClustersIn(d, csize) <= d && ClustersIn(d, csize) * csize <= d
  {
    var q := d / csize;
    assert d == q * csize + d % csize;
    MulGe(csize, q);
    Commutes(q, csize);
  }

  /** On such a volume every entry of a cluster lies in the first FAT copy, and clusters lie apart, behind it. */
  lemma MountedVolume(b: BootRecord, bsect: nat, total: nat, c: nat, d: nat)
    requires OnDevice(b, bsect, total) && ReadBootRecord(b, bsect).Some?
    requires var g := ReadBootRecord(b, bsect).value; GeometryOk(g, total) && bsect <= g.fatbase
    requires var n := ReadBootRecord(b, bsect).value.nFatent; 2 <= c < n && 2 <= d < n && c != d
    ensures var g := ReadBootRecord(b, bsect).value;
            && g.fatbase + (EntryAt(g.fsType, c) + EntryLen(g.fsType) - 1) / 512 < g.fatbase + g.fsize <= g.database
            && g.database <= Clust2Sect(g, c) && Clust2Sect(g, c) + g.csize <= bsect + TotalSectors(b)
            && (Clust2Sect(g, c) + g.csize <= Clust2Sect(g, d) || Clust2Sect(g, d) + g.csize <= Clust2Sect(g, c))
  {
    var g := ReadBootRecord(b, bsect).value;
    MountIsSound(b, bsect, total);
    MountIsSound(b, bsect, bsect + TotalSectors(b));
    hide ReadBootRecord, IsPow2, Clust2Sect;
    ClustersApart(g, bsect + TotalSectors(b), c, d);
    FitsBelow(g.fsType, 512 * g.fsize, g.nFatent, c);
  }

  /** A record with 2^28 entries is accepted all the same: one FAT, one sector per cluster. */
  const BIG := BootRecord(512, 1, 32, 1, 0, 0, 0, 32 + 0x20_0000 + 0x0FFF_FFFE, 0x20_0000, 2)

  /** On that volume the end mark that put_fat stores is the number of a cluster, so no chain ends. */
  lemma BigVolumeAccepted()
    ensures ReadBootRecord(BIG, 0).Some? && ReadBootRecord(BIG, 0).value.fsType == FAT32
    ensures OnDevice(BIG, 0, TWO_TO_32) && !GeometryOk(ReadBootRecord(BIG, 0).value, TWO_TO_32)
    ensures 2 <= 0x0FFF_FFFF % Width(FAT32) < ReadBootRecord(BIG, 0).value.nFatent
  {
    hide GeometryOk, RootOk, BitAnd;
    BigSizes();
    MountIsSound(BIG, 0, TWO_TO_32);
  }

  lemma BigSizes()
    ensures BitAnd(1, 0) == 0 && OnDevice(BIG, 0, TWO_TO_32)
    ensures SystemSectors(BIG) == 0x20_0020 && ClusterCount(BIG) == 0x0FFF_FFFE
    ensures TypeOf(0x0FFF_FFFE) == FAT32 && Wrap32(TableBytes(FAT32, 0x1000_0000) + 511) / 512 == 0x20_0000
  {
  }

  /** A 1.44 MB diskette. */
  const FLOPPY := BootRecord(512, 1, 1, 2, 224, 2880, 9, 0, 0, 0)

  lemma FloppyMounts()
    ensures ReadBootRecord(FLOPPY, 0).Some? && ReadBootRecord(FLOPPY, 0).value.fsType == FAT12
    ensures GeometryOk(ReadBootRecord(FLOPPY, 0).value, 2880) && ReadBootRecord(FLOPPY, 0).value.nFatent == 2849
  {
    hide GeometryOk, RootOk, BitAnd, TableBytes, TypeOf, Wrap32, ClustersIn;
    FloppyGeometry();
    FloppySizes();
    MountIsSound(FLOPPY, 0, 2880);
  }

  lemma FloppyGeometry()
    ensures ReadBootRecord(FLOPPY, 0) == Some(Geometry(FAT12, 1, 2, 224, 2849, 9, 1, 19, 33))
  {
    hide BitAnd, TableBytes, TypeOf, Wrap32, ClustersIn;
    FloppySizes();
    WrapBelow(18);
    WrapBelow(33);
    WrapBelow(2849);
    WrapBelow(1);
    WrapBelow(19);
  }

  lemma FloppySizes()
    ensures BitAnd(1, 0) == 0 && OnDevice(FLOPPY, 0, 2880)
    ensures SystemSectors(FLOPPY) == 33 && ClustersIn(2847, 1) == 2847
    ensures TypeOf(2847) == FAT12 && Wrap32(TableBytes(FAT12, 2849) + 511) / 512 == 9
  {
    hide SystemSectors, OnDevice;
    FloppyArea();
    assert TableBytes(FAT12, 2849) == 4274;
  }

  lemma FloppyArea()
    ensures SystemSectors(FLOPPY) == 33 && OnDevice(FLOPPY, 0, 2880)
  {
  }

  /** Two FATs of 2^31 sectors each: their product wraps to 0 and the record passes every test. */
  const WRAPPED := BootRecord(512, 1, 32, 2, 0, 0, 0, 100032, 0x8000_0000, 2)

  /** So such a record is accepted, but its geometry fits no device. */
  lemma WrappedFatAccepted()
    ensures OnDevice(WRAPPED, 0, 100032) && SystemSectors(WRAPPED) > TotalSectors(WRAPPED)
    ensures ReadBootRecord(WRAPPED, 0).Some? && !GeometryOk(ReadBootRecord(WRAPPED, 0).value, 100032)
  {
    hide IsPow2, BitAnd, Fits, Sectors;
    WrappedSizes();
  }

  lemma WrappedSizes()
    ensures BitAnd(1, 0) == 0 && Wrap32(FatSize(WRAPPED) * 2) == 0 && ClustersIn(100000, 1) == 100000
    ensures TypeOf(100000) == FAT32 && Wrap32(TableBytes(FAT32, 100002) + 511) / 512 <= 0x8000_0000
  {
  }

  /** One FAT of nearly 2^32 sectors behind 65535 reserved ones, on a volume of 10000 sectors. */
  const AROUND := BootRecord(512, 1, 65535, 1, 16, 10000, 0, 0, 0x1_0000_0000 - 65535, 0)

  /**
   At the end of a device of 2^32 sectors the FAT of such a record starts in front of the volume, at
   a sector of another one: the geometry is consistent in itself, and only its place gives it away.
   */
  lemma FatBeforeVolume()
    ensures OnDevice(AROUND, TWO_TO_32 - 10000, TWO_TO_32) && ReadBootRecord(AROUND, TWO_TO_32 - 10000).Some?
    ensures var g := ReadBootRecord(AROUND, TWO_TO_32 - 10000).value;
            GeometryOk(g, TWO_TO_32) && g.fatbase == 55535 < TWO_TO_32 - 10000
    ensures !Fitting(AROUND)
  {
    hide IsPow2, BitAnd, TableBytes, TypeOf, ClustersIn, Sectors, Fits;
    AroundSizes();
    SectorsIsProduct(9999, 1);
    TableFits(FAT16, 10001, AROUND.fatSz32);
  }

  lemma AroundSizes()
    ensures BitAnd(1, 0) == 0 && IsPow2(1) && ClustersIn(9999, 1) == 9999
    ensures TypeOf(9999) == FAT16 && Wrap32(TableBytes(FAT16, 10001) + 511) / 512 == 40
  {
  }
}
