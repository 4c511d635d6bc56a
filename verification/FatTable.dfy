/**
 The packed on-disk allocation table: how a FAT12, FAT16 or FAT32 entry is laid
 out in the bytes of the table, and what storing one entry does to all of them.
 */
module FatTable {
  import opened Bits

  datatype FatType = FAT12 | FAT16 | FAT32

  /** The number of values an entry can hold. */
  function Width(t: FatType): nat {
    match t
    case FAT12 => 0x1000
    case FAT16 => 0x1_0000
    case FAT32 => 0x1000_0000
  }

  /** Offset of the first byte of entry c. */
  function EntryAt(t: FatType, c: nat): nat {
    match t
    case FAT12 => c + c / 2
    case FAT16 => c * 2
    case FAT32 => c * 4
  }

  /** Number of bytes an entry touches. */
  function EntryLen(t: FatType): nat {
    match t
    case FAT12 => 2
    case FAT16 => 2
    case FAT32 => 4
  }

  predicate Fits(t: FatType, len: nat, c: nat) {
    EntryAt(t, c) + EntryLen(t) <= len
  }

  function Word(b0: byte, b1: byte): nat {
    b0 + 256 * b1
  }

  function DWord(b0: byte, b1: byte, b2: byte, b3: byte): nat {
    b0 + 256 * b1 + 0x1_0000 * b2 + 0x100_0000 * b3
  }

  /** What get_fat computes from the bytes of the table. */
  function Load(t: FatType, b: seq<byte>, c: nat): nat
    requires Fits(t, |b|, c)
  {
    var k := EntryAt(t, c);
    match t
    case FAT12 =>
      var wc := Word(b[k], b[k + 1]);
      if c % 2 == 1 then wc / 16 else wc % 0x1000
    case FAT16 => Word(b[k], b[k + 1])
    case FAT32 => DWord(b[k], b[k + 1], b[k + 2], b[k + 3]) % 0x1000_0000
  }

  /** First byte of a FAT12 entry after storing val: the entry shares it when c is odd. */
  function Low12(c: nat, p: byte, val: nat): byte {
    if c % 2 == 1 then p % 16 + val % 16 * 16 else val % 256
  }

  /** Second byte of a FAT12 entry after storing val: the entry shares it when c is even. */
  function High12(c: nat, p: byte, val: nat): byte {
    if c % 2 == 1 then val / 16 % 256 else p / 16 * 16 + val / 256 % 16
  }

  /** Top byte of a FAT32 entry after storing val: the old top four bits are or-ed in. */
  function Top32(p: byte, val: nat): byte
  {
    var top := BitOr(val / 0x1000_0000 % 16, p / 16);
    OrBelow(val / 0x1000_0000 % 16, p / 16, 16);
    val / 0x100_0000 % 16 + 16 * top
  }

  /** What put_fat does to the bytes of the table. */
  function Store(t: FatType, b: seq<byte>, c: nat, val: nat): (r: seq<byte>)
    requires Fits(t, |b|, c)
    ensures |r| == |b|
  {
    var k := EntryAt(t, c);
    match t
    case FAT12 => b[k := Low12(c, b[k], val)][k + 1 := High12(c, b[k + 1], val)]
    case FAT16 => b[k := val % 256][k + 1 := val / 256 % 256]
    case FAT32 =>
      b[k := val % 256][k + 1 := val / 256 % 256][k + 2 := val / 0x1_0000 % 256][k + 3 := Top32(b[k + 3], val)]
  }

  /** A FAT32 store, byte by byte. */
  lemma StoreDWord(b: seq<byte>, c: nat, val: nat)
    requires Fits(FAT32, |b|, c)
    ensures c * 4 + 4 <= |b|
    ensures Store(FAT32, b, c, val)
         == b[c * 4 := val % 256][c * 4 + 1 := val / 256 % 256][c * 4 + 2 := val / 0x1_0000 % 256]
             [c * 4 + 3 := Top32(b[c * 4 + 3], val)]
  {
  }

  /** A FAT12 entry from its two bytes. */
  lemma Load12(b: seq<byte>, c: nat)
    requires Fits(FAT12, |b|, c)
    ensures c + c / 2 + 1 < |b|
    ensures var w := Word(b[c + c / 2], b[c + c / 2 + 1]);
            Load(FAT12, b, c) == if c % 2 == 1 then w / 16 else w % 0x1000
  {
  }

  /**
   An entry from its bytes: twelve bits in one byte and a half, low half first, or two or four bytes,
   low byte first.
  */
  lemma LoadByBytes(t: FatType, b: seq<byte>, c: nat)
    requires Fits(t, |b|, c)
    ensures t.FAT12? && c % 2 == 0 ==>
              && c / 2 * 3 + 1 < |b|
              && var b0: int, b1: int := b[c / 2 * 3], b[c / 2 * 3 + 1];
                 Load(t, b, c) == b0 + 256 * (b1 % 16)
    ensures t.FAT12? && c % 2 == 1 ==>
              && c / 2 * 3 + 2 < |b|
              && var b1: int, b2: int := b[c / 2 * 3 + 1], b[c / 2 * 3 + 2];
                 Load(t, b, c) == b1 / 16 + 16 * b2
    ensures t.FAT16? ==>
              && 2 * c + 1 < |b|
              && var b0: int, b1: int := b[2 * c], b[2 * c + 1];
                 Load(t, b, c) == b0 + 256 * b1
    ensures t.FAT32? ==>
              && 4 * c + 3 < |b|
              && var b0: int, b1: int, b2: int, b3: int := b[4 * c], b[4 * c + 1], b[4 * c + 2], b[4 * c + 3];
                 Load(t, b, c) == b0 + 256 * b1 + 0x1_0000 * b2 + 0x100_0000 * (b3 % 16)
  {
    match t
    case FAT12 => Load12ByBytes(b, c);
    case FAT16 =>
    case FAT32 =>
      var b0: int, b1: int, b2: int, b3 := b[4 * c], b[4 * c + 1], b[4 * c + 2], b[4 * c + 3];
      CutTop(b0 + 256 * b1 + 0x1_0000 * b2, b3);
  }

  lemma Load12ByBytes(b: seq<byte>, c: nat)
    requires Fits(FAT12, |b|, c)
    ensures c % 2 == 0 ==>
              && c / 2 * 3 + 1 < |b|
              && var b0: int, b1: int := b[c / 2 * 3], b[c / 2 * 3 + 1];
                 Load(FAT12, b, c) == b0 + 256 * (b1 % 16)
    ensures c % 2 == 1 ==>
              && c / 2 * 3 + 2 < |b|
              && var b1: int, b2: int := b[c / 2 * 3 + 1], b[c / 2 * 3 + 2];
                 Load(FAT12, b, c) == b1 / 16 + 16 * b2
  {
    var k := c / 2 * 3;
    if c % 2 == 0 {
      assert c + c / 2 == k;
      Cut12(b[k], b[k + 1]);
    } else {
      assert c + c / 2 == k + 1;
    }
  }

  lemma Cut12(low: byte, high: byte)
    ensures var l: int, h: int := low, high; (l + 256 * h) % 0x1000 == l + 256 * (h % 16)
  {
    var l: int, h: int := low, high;
    assert l + 256 * h == 0x1000 * (h / 16) + (l + 256 * (h % 16));
  }

  lemma CutTop(low: nat, top: byte)
    requires low < 0x100_0000
    ensures var t: int := top; (low + 0x100_0000 * t) % 0x1000_0000 == low + 0x100_0000 * (t % 16)
  {
    var t: int := top;
    var q, r := t / 16, t % 16;
    assert low + 0x100_0000 * t == 0x1000_0000 * q + (low + 0x100_0000 * r);
  }

  /** Cutting to a product of two widths, one width at a time. */
  lemma SplitMod(v: nat, a: nat, b: nat)
    requires a > 0 && b > 0
    ensures a * b > 0 && v % (a * b) == v % a + a * (v / a % b)
  {
    var q, r := v / a, v % a;
    var q2, r2 := q / b, q % b;
    Recompose(v, a, b, q, r, q2, r2);
    ModUnique(v, a * b, q2, a * r2 + r);
  }

  lemma Recompose(v: nat, a: nat, b: nat, q: nat, r: nat, q2: nat, r2: nat)
    requires v == q * a + r && q == q2 * b + r2 && r < a && r2 < b
    ensures a * b > 0 && a * r2 + r < a * b && v == q2 * (a * b) + (a * r2 + r)
  {
    calc {
      q * a;
      (q2 * b + r2) * a;
      q2 * b * a + r2 * a;
      q2 * (a * b) + a * r2;
    }
    MulGe(b - r2, a);
    assert (b - r2) * a == a * b - a * r2;
  }

  /** A 28-bit value from its four stored pieces. */
  lemma Split28(v: nat)
    ensures v % 0x1000_0000
         == v % 256 + 256 * (v / 256 % 256) + 0x1_0000 * (v / 0x1_0000 % 256) + 0x100_0000 * (v / 0x100_0000 % 16)
  {
    SplitMod(v, 256, 0x10_0000);
    SplitMod(v / 256, 256, 0x1000);
    SplitMod(v / 0x1_0000, 256, 16);
    assert v / 256 / 256 == v / 0x1_0000;
    assert v / 0x1_0000 / 256 == v / 0x100_0000;
  }

  /** put_fat then get_fat of the same cluster gives the value cut to the entry width. */
  lemma LoadOfStoreSame(t: FatType, b: seq<byte>, c: nat, val: nat)
    requires Fits(t, |b|, c)
    ensures Load(t, Store(t, b, c, val), c) == val % Width(t)
  {
    match t
    case FAT12 => if c % 2 == 1 { SameOdd12(b, c, val); } else { SameEven12(b, c, val); }
    case FAT16 => SplitMod(val, 256, 256);
    case FAT32 => Same32(b, c, val);
  }

  lemma SameOdd12(b: seq<byte>, c: nat, val: nat)
    requires Fits(FAT12, |b|, c) && c % 2 == 1
    ensures Load(FAT12, Store(FAT12, b, c, val), c) == val % 0x1000
  {
    SplitMod(val, 16, 256);
    Top12(b[EntryAt(FAT12, c)] % 16, val % 16, val / 16 % 256);
  }

  lemma SameEven12(b: seq<byte>, c: nat, val: nat)
    requires Fits(FAT12, |b|, c) && c % 2 == 0
    ensures Load(FAT12, Store(FAT12, b, c, val), c) == val % 0x1000
  {
    SplitMod(val, 256, 16);
    Bottom12(val % 256, val / 256 % 16, b[EntryAt(FAT12, c) + 1] / 16);
  }

  lemma Same32(b: seq<byte>, c: nat, val: nat)
    requires Fits(FAT32, |b|, c)
    ensures Load(FAT32, Store(FAT32, b, c, val), c) == val % 0x1000_0000
  {
    Split28(val);
    var p := b[EntryAt(FAT32, c) + 3];
    LowNibble(val / 0x100_0000 % 16, BitOr(val / 0x1000_0000 % 16, p / 16), val % 256, val / 256 % 256,
      val / 0x1_0000 % 256);
  }

  /** The four low bits of the top byte are all that the entry mask keeps of it. */
  lemma LowNibble(low: nat, top: nat, b0: nat, b1: nat, b2: nat)
    requires low < 16 && b0 < 256 && b1 < 256 && b2 < 256
    ensures (b0 + 256 * b1 + 0x1_0000 * b2 + 0x100_0000 * (low + 16 * top)) % 0x1000_0000
         == b0 + 256 * b1 + 0x1_0000 * b2 + 0x100_0000 * low
  {
    var x := b0 + 256 * b1 + 0x1_0000 * b2 + 0x100_0000 * low;
    assert b0 + 256 * b1 + 0x1_0000 * b2 + 0x100_0000 * (low + 16 * top) == top * 0x1000_0000 + x;
    ModUnique(top * 0x1000_0000 + x, 0x1000_0000, top, x);
  }

  lemma Top12(low: nat, mid: nat, hi: nat)
    requires low < 16 && mid < 16 && hi < 256
    ensures (low + mid * 16 + 256 * hi) / 16 == mid + 16 * hi
  {
  }

  lemma Bottom12(lo: nat, mid: nat, hi: nat)
    requires lo < 256 && mid < 16 && hi < 16
    ensures (lo + 256 * (hi * 16 + mid)) % 0x1000 == lo + 256 * mid
  {
    assert lo + 256 * (hi * 16 + mid) == hi * 0x1000 + (lo + 256 * mid);
  }

  /** Every other cluster's entry is unchanged, neighbours that share a byte included. */
  lemma LoadOfStoreOther(t: FatType, b: seq<byte>, c: nat, val: nat, d: nat)
    requires Fits(t, |b|, c) && Fits(t, |b|, d) && c != d
    ensures Load(t, Store(t, b, c, val), d) == Load(t, b, d)
  {
    match t
    case FAT12 =>
      if c % 2 == 0 && d == c + 1 {
        SharedByteUp(b, c, val);
      } else if c % 2 == 1 && d == c - 1 {
        SharedByteDown(b, c, val);
      } else {
        Apart12(c, d);
      }
    case FAT16 =>
    case FAT32 =>
  }

  lemma Apart12(c: nat, d: nat)
    requires c != d && !(c % 2 == 0 && d == c + 1) && !(c % 2 == 1 && d == c - 1)
    ensures EntryAt(FAT12, d) + 1 < EntryAt(FAT12, c) || EntryAt(FAT12, c) + 1 < EntryAt(FAT12, d)
  {
    if c < d {
      assert d >= c + 2 || (c % 2 == 1 && d == c + 1);
    } else {
      assert c >= d + 2 || (d % 2 == 1 && c == d + 1);
    }
  }

  lemma SharedByteUp(b: seq<byte>, c: nat, val: nat)
    requires c % 2 == 0 && Fits(FAT12, |b|, c) && Fits(FAT12, |b|, c + 1)
    ensures Load(FAT12, Store(FAT12, b, c, val), c + 1) == Load(FAT12, b, c + 1)
  {
    var k := EntryAt(FAT12, c);
    assert EntryAt(FAT12, c + 1) == k + 1;
    var p := b[k + 1];
    Top12(p % 16, p / 16, b[k + 2]);
    Top12(val / 256 % 16, p / 16, b[k + 2]);
  }

  lemma SharedByteDown(b: seq<byte>, c: nat, val: nat)
    requires c % 2 == 1 && Fits(FAT12, |b|, c) && Fits(FAT12, |b|, c - 1)
    ensures Load(FAT12, Store(FAT12, b, c, val), c - 1) == Load(FAT12, b, c - 1)
  {
    var k := EntryAt(FAT12, c - 1);
    assert EntryAt(FAT12, c) == k + 1;
    var p := b[k + 1];
    Bottom12(b[k], p % 16, p / 16);
    Bottom12(b[k], p % 16, val % 16);
  }

  /** The top four bits of a FAT32 entry, which get_fat does not show. */
  function Reserved32(b: seq<byte>, c: nat): nat
    requires Fits(FAT32, |b|, c)
  {
    b[EntryAt(FAT32, c) + 3] / 16
  }

  /** They survive put_fat, for every value that fits the entry. */
  lemma StoreKeepsReserved32(b: seq<byte>, c: nat, val: nat, d: nat)
    requires Fits(FAT32, |b|, c) && Fits(FAT32, |b|, d)
    requires val < Width(FAT32)
    ensures Reserved32(Store(FAT32, b, c, val), d) == Reserved32(b, d)
  {
    assert val / 0x1000_0000 % 16 == 0;
  }
}
