/**
 Machine integers of the target (8, 16 and 32 bits, all unsigned) as ranges of
 mathematical integers, and the bit masks that the sources apply to them.
 */
module Bits {

  type byte = x: int | 0 <= x < 256

  const TWO_TO_32 := 0x1_0000_0000

  /** Reduction to 32 bits: the value a DWORD holds after an addition or subtraction. */
  function Wrap32(x: int): (r: nat) {
    x % TWO_TO_32
  }

  predicate IsPow2(n: nat) {
    n == 1 || (n > 1 && n % 2 == 0 && IsPow2(n / 2))
  }

  /** The C operator `&` on non-negative operands. */
  function BitAnd(a: nat, b: nat): (r: nat)
    ensures r <= a && r <= b
  {
    if a == 0 || b == 0 then 0
    else (if a % 2 == 1 && b % 2 == 1 then 1 else 0) + 2 * BitAnd(a / 2, b / 2)
  }

  /** The C expression `a & ~m` on non-negative operands. */
  function BitClear(a: nat, m: nat): nat {
    a - BitAnd(a, m)
  }

  /** The C operator `|` on non-negative operands. */
  function BitOr(a: nat, b: nat): (r: nat)
    ensures a == 0 ==> r == b
  {
    if a == 0 then b
    else if b == 0 then a
    else (if a % 2 == 1 || b % 2 == 1 then 1 else 0) + 2 * BitOr(a / 2, b / 2)
  }

  /** Bit number i. */
  predicate Bit(x: nat, i: nat)
    decreases i
  {
    if i == 0 then x % 2 == 1 else Bit(x / 2, i - 1)
  }

  lemma Halves(d: nat, r: nat)
    requires d < 2
    ensures (d + 2 * r) % 2 == d && (d + 2 * r) / 2 == r
  {
  }

  /** The lowest bit of a result, and the rest of it. */
  lemma AndLowest(a: nat, b: nat)
    ensures BitAnd(a, b) % 2 == (if a % 2 == 1 && b % 2 == 1 then 1 else 0)
    ensures BitAnd(a, b) / 2 == BitAnd(a / 2, b / 2)
  {
    var d := if a % 2 == 1 && b % 2 == 1 then 1 else 0;
    Halves(d, BitAnd(a / 2, b / 2));
    if a == 0 || b == 0 {
      assert BitAnd(a, b) == 0 && BitAnd(a / 2, b / 2) == 0;
    } else {
      assert BitAnd(a, b) == d + 2 * BitAnd(a / 2, b / 2);
    }
  }

  lemma OrLowest(a: nat, b: nat)
    ensures BitOr(a, b) % 2 == (if a % 2 == 1 || b % 2 == 1 then 1 else 0)
    ensures BitOr(a, b) / 2 == BitOr(a / 2, b / 2)
  {
    var d := if a % 2 == 1 || b % 2 == 1 then 1 else 0;
    Halves(d, BitOr(a / 2, b / 2));
    if a == 0 {
      assert BitOr(a, b) == b && BitOr(a / 2, b / 2) == b / 2;
    } else if b == 0 {
      assert BitOr(a, b) == a && BitOr(a / 2, b / 2) == a / 2;
    } else {
      assert BitOr(a, b) == d + 2 * BitOr(a / 2, b / 2);
    }
  }

  lemma ClearLowest(a: nat, b: nat)
    ensures BitClear(a, b) >= 0 && BitClear(a / 2, b / 2) >= 0
    ensures BitClear(a, b) % 2 == (if a % 2 == 1 && b % 2 == 0 then 1 else 0)
    ensures BitClear(a, b) / 2 == BitClear(a / 2, b / 2)
  {
    AndLowest(a, b);
    hide BitAnd;
    var x, y := BitAnd(a, b), BitAnd(a / 2, b / 2);
    var d, r := a % 2 - x % 2, a / 2 - y;
    assert x == 2 * y + x % 2 && a == 2 * (a / 2) + a % 2;
    Halves(d, r);
  }

  /** The operators act on every bit by itself. */
  lemma {:induction false} BitwiseOperators(a: nat, b: nat, i: nat)
    ensures Bit(BitAnd(a, b), i) <==> Bit(a, i) && Bit(b, i)
    ensures Bit(BitOr(a, b), i) <==> Bit(a, i) || Bit(b, i)
    ensures BitClear(a, b) >= 0 && (Bit(BitClear(a, b), i) <==> Bit(a, i) && !Bit(b, i))
    decreases i
  {
    hide BitAnd, BitOr, BitClear;
    AndLowest(a, b);
    OrLowest(a, b);
    ClearLowest(a, b);
    if i > 0 {
      BitwiseOperators(a / 2, b / 2, i - 1);
    }
  }

  /** `|` does not carry out of the width of its operands. */
  lemma {:induction false} OrBelow(a: nat, b: nat, c: nat)
    requires IsPow2(c) && a < c && b < c
    ensures BitOr(a, b) < c
  {
    if a > 0 && b > 0 {
      OrBelow(a / 2, b / 2, c / 2);
    }
  }

  lemma {:induction false} DoubleIsPow2(c: nat)
    requires IsPow2(c)
    ensures IsPow2(2 * c)
  {
    assert 2 * c / 2 == c;
  }

  /** bcs = csize * 512 is a power of two whenever csize is. */
  lemma ClusterBytesIsPow2(csize: nat)
    requires IsPow2(csize)
    ensures IsPow2(512 * csize)
  {
    hide IsPow2;
    DoubleIsPow2(csize);       DoubleIsPow2(2 * csize);   DoubleIsPow2(4 * csize);
    DoubleIsPow2(8 * csize);   DoubleIsPow2(16 * csize);  DoubleIsPow2(32 * csize);
    DoubleIsPow2(64 * csize);  DoubleIsPow2(128 * csize); DoubleIsPow2(256 * csize);
  }

  /** Doubling both the dividend (plus a low bit) and the divisor. */
  lemma ModDouble(h: nat, d: nat, bit: nat)
    requires d > 0 && bit < 2
    ensures (2 * h + bit) % (2 * d) == 2 * (h % d) + bit
  {
    var q, r := h / d, h % d;
    assert h == q * d + r;
    assert 2 * h + bit == q * (2 * d) + (2 * r + bit);
    ModUnique(2 * h + bit, 2 * d, q, 2 * r + bit);
  }

  /** Quotient and remainder are the only decomposition. */
  lemma ModUnique(x: nat, d: nat, q: nat, r: nat)
    requires d > 0 && x == q * d + r && r < d
    ensures x / d == q && x % d == r
  {
    var q', r' := x / d, x % d;
    assert x == q' * d + r';
    if q' < q {
      assert (q - q') * d >= d by { MulGe(q - q', d); }
      assert false;
    } else if q < q' {
      assert (q' - q) * d >= d by { MulGe(q' - q, d); }
      assert false;
    }
  }

  lemma MulGe(a: int, d: nat)
    requires a >= 1
    ensures a * d >= d
  {
    assert (a - 1) * d >= 0;
  }

  /** `x & (c - 1)` is the remainder by c, for every power of two c. */
  lemma {:induction false} MaskIsMod(x: nat, c: nat)
    requires IsPow2(c)
    ensures BitAnd(x, c - 1) == x % c
  {
    if c == 1 || x == 0 {
    } else {
      MaskIsMod(x / 2, c / 2);
      ModDouble(x / 2, c / 2, x % 2);
      assert (c - 1) % 2 == 1 && (c - 1) / 2 == c / 2 - 1;
      assert x == 2 * (x / 2) + x % 2 && c == 2 * (c / 2);
    }
  }

  /** The test `b & (b - 1)` of the mount code accepts exactly the powers of two. */
  lemma {:induction false} SingleBitTest(b: nat)
    requires b > 0
    ensures BitAnd(b, b - 1) == 0 <==> IsPow2(b)
  {
    if b == 1 {
    } else if b % 2 == 0 {
      SingleBitTest(b / 2);
      assert (b - 1) / 2 == b / 2 - 1;
    } else {
      assert (b - 1) / 2 == b / 2;
      AndSelf(b / 2);
    }
  }

  lemma {:induction false} AndSelf(x: nat)
    ensures BitAnd(x, x) == x
  {
    if x > 0 {
      AndSelf(x / 2);
    }
  }
}
