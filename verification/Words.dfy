/** Fixed-width unsigned values of the kernel's C code, and the bit operators that
    page-table entries are built with, over mathematical integers. */
module Words {

  const TWO64: int := 0x1_0000_0000_0000_0000
  const TWO32: int := 0x1_0000_0000

  type Byte = x: int | 0 <= x < 0x100
  type U16 = x: int | 0 <= x < 0x1_0000
  type U32 = x: int | 0 <= x < 0x1_0000_0000
  type U64 = x: int | 0 <= x < 0x1_0000_0000_0000_0000

  datatype Option<+T> = None | Some(value: T)

  function Wrap32(x: int): U32 { x % 0x1_0000_0000 }

  function Wrap64(x: int): U64 { x % 0x1_0000_0000_0000_0000 }

  /** Quotient and remainder of a product with a small addend. */
  lemma {:induction false} DivModOf(n: nat, k: nat, r: nat)
    requires r < n
    ensures (n * k + r) / n == k && (n * k + r) % n == r
  {
    var x := n * k + r;
    var q := x / n;
    assert x == n * q + x % n;
    if q < k {
      ProductStep(n, q, k);
    } else if q > k {
      ProductStep(n, k, q);
    }
  }

  lemma {:induction false} DivTwice(x: nat, a: nat, b: nat)
    requires a > 0 && b > 0
    ensures x / a / b == x / (a * b)
  {
    var q, r := x / a, x % a;
    var u, w := q / b, q % b;
    assert x == a * q + r && q == b * u + w;
    assert a * q == a * b * u + a * w;
    ProductStep(a, w, b);
    DivModOf(a * b, u, a * w + r);
  }

  lemma ProductStep(n: nat, a: nat, b: nat)
    requires a < b
    ensures n * a + n <= n * b
  {
    var d := b - a - 1;
    assert n * b == n * a + n + n * d;
  }

  function Pow2(k: nat): (r: nat)
    ensures r > 0
    decreases k
  {
    if k == 0 then 1 else 2 * Pow2(k - 1)
  }

  /** The C operator `|` on unsigned values. */
  function BitOr(a: nat, b: nat): nat
    decreases a
  {
    if a == 0 then b
    else if b == 0 then a
    else 2 * BitOr(a / 2, b / 2) + (if a % 2 == 1 || b % 2 == 1 then 1 else 0)
  }

  /** The recursion of `BitOr`, whichever operand is zero. */
  lemma BitOrStep(a: nat, b: nat)
    ensures BitOr(a, b) == 2 * BitOr(a / 2, b / 2) + (if a % 2 == 1 || b % 2 == 1 then 1 else 0)
  {
  }

  lemma BitOrParity(a: nat, b: nat)
    ensures BitOr(a, b) % 2 == (if a % 2 == 1 || b % 2 == 1 then 1 else 0)
  {
    hide BitOr;
    BitOrStep(a, b);
    Halved(BitOr(a / 2, b / 2), if a % 2 == 1 || b % 2 == 1 then 1 else 0);
  }

  lemma {:induction false} BitOrBound(a: nat, b: nat, k: nat)
    requires a < Pow2(k) && b < Pow2(k)
    ensures BitOr(a, b) < Pow2(k)
    decreases k
  {
    if k > 0 {
      BitOrBound(a / 2, b / 2, k - 1);
    }
  }

  /** `x << k` without a width. */
  function Shifted(x: nat, k: nat): nat
    decreases k
  {
    if k == 0 then x else 2 * Shifted(x, k - 1)
  }

  /** `|` with a right operand confined to the low `k` bits leaves the bits above alone. */
  lemma {:induction false} BitOrLow(hi: nat, lo: nat, b: nat, k: nat)
    requires lo < Pow2(k) && b < Pow2(k)
    ensures BitOr(Shifted(hi, k) + lo, b) == Shifted(hi, k) + BitOr(lo, b)
    decreases k
  {
    if k == 0 {
      BitOrZero(hi);
    } else {
      hide BitOr;
      BitOrLow(hi, lo / 2, b / 2, k - 1);
      BitOrHalves(Shifted(hi, k - 1), lo, b);
    }
  }

  lemma BitOrZero(a: nat)
    ensures BitOr(a, 0) == a
  {
  }

  lemma {:induction false} BitOrHalves(h: nat, lo: nat, b: nat)
    requires BitOr(h + lo / 2, b / 2) == h + BitOr(lo / 2, b / 2)
    ensures BitOr(2 * h + lo, b) == 2 * h + BitOr(lo, b)
  {
    BitOrStep(2 * h + lo, b);
    BitOrStep(lo, b);
    hide BitOr;
    assert (2 * h + lo) / 2 == h + lo / 2 && (2 * h + lo) % 2 == lo % 2;
  }

  /** The C operator `& ~` on unsigned values. */
  function BitAndNot(a: nat, b: nat): (r: nat)
    ensures r <= a
    decreases a
  {
    if a == 0 then 0 else 2 * BitAndNot(a / 2, b / 2) + (if a % 2 == 1 && b % 2 == 0 then 1 else 0)
  }

  /** Bit `c` of a value. */
  predicate BitOf(v: nat, c: nat)
    decreases c, v
  {
    if c == 0 then v % 2 == 1 else BitOf(v / 2, c - 1)
  }

  lemma Halved(h: nat, bit: nat)
    requires bit < 2
    ensures (2 * h + bit) / 2 == h && (2 * h + bit) % 2 == bit
  {
  }

  lemma {:induction false} BitOfOr(a: nat, b: nat, c: nat)
    ensures BitOf(BitOr(a, b), c) <==> BitOf(a, c) || BitOf(b, c)
    decreases c
  {
    hide BitOr;
    BitOrStep(a, b);
    Halved(BitOr(a / 2, b / 2), if a % 2 == 1 || b % 2 == 1 then 1 else 0);
    if c > 0 {
      BitOfOr(a / 2, b / 2, c - 1);
    }
  }

  lemma {:induction false} BitOfAndNot(a: nat, b: nat, c: nat)
    ensures BitOf(BitAndNot(a, b), c) <==> BitOf(a, c) && !BitOf(b, c)
    decreases c
  {
    hide BitAndNot;
    BitAndNotStep(a, b);
    Halved(BitAndNot(a / 2, b / 2), if a % 2 == 1 && b % 2 == 0 then 1 else 0);
    if c > 0 {
      BitOfAndNot(a / 2, b / 2, c - 1);
    }
  }

  lemma BitAndNotStep(a: nat, b: nat)
    ensures BitAndNot(a, b) == 2 * BitAndNot(a / 2, b / 2) + (if a % 2 == 1 && b % 2 == 0 then 1 else 0)
  {
  }

  lemma {:induction false} BitOfPow2(k: nat, c: nat)
    ensures BitOf(Pow2(k), c) <==> c == k
    decreases k, c
  {
    if k == 0 {
      if c > 0 {
        BitOfZero(c - 1);
      }
    } else if c > 0 {
      BitOfPow2(k - 1, c - 1);
    }
  }

  lemma {:induction false} BitOfZero(c: nat)
    ensures !BitOf(0, c)
    decreases c
  {
    if c > 0 {
      BitOfZero(c - 1);
    }
  }

  /** `1 << c` for a bit of a byte. */
  lemma ByteMask(c: nat)
    requires c < 8
    ensures Pow2(c) < 256 && Pow2(8) == 256
  {
    assert Pow2(3) == 8 && Pow2(5) == 32 && Pow2(7) == 128;
  }

  /** A value of `k` ones has each of its bits set. */
  lemma {:induction false} OnesBits(k: nat, c: nat)
    requires c < k
    ensures BitOf(Pow2(k) - 1, c)
    decreases k
  {
    assert Pow2(k) == 2 * Pow2(k - 1);
    if c > 0 {
      assert (Pow2(k) - 1) / 2 == Pow2(k - 1) - 1;
      OnesBits(k - 1, c - 1);
    }
  }

  lemma Pow2At10()
    ensures Pow2(10) == 1024
  {
    assert Pow2(5) == 32;
    assert Pow2(8) == 256;
  }

  lemma ShiftedAt10(x: nat)
    ensures Shifted(x, 10) == 1024 * x
  {
    assert Shifted(x, 3) == 8 * x;
    assert Shifted(x, 6) == 64 * x;
    assert Shifted(x, 9) == 512 * x;
  }

  lemma Pow2At64()
    ensures Pow2(64) == 0x1_0000_0000_0000_0000
  {
    assert Pow2(4) == 16;
    hide Pow2;
    Pow2Sum(4, 4);
    Pow2Sum(8, 8);
    Pow2Sum(16, 16);
    Pow2Sum(32, 32);
  }

  lemma {:induction false} Pow2Sum(j: nat, k: nat)
    ensures Pow2(j + k) == Pow2(j) * Pow2(k)
    decreases j
  {
    if j > 0 {
      Pow2Sum(j - 1, k);
    }
  }

  /** The 64-bit `|`. */
  function Or64(a: U64, b: U64): (r: U64)
    ensures r % 2 == (if a % 2 == 1 || b % 2 == 1 then 1 else 0)
  {
    Pow2At64();
    BitOrBound(a, b, 64);
    BitOrParity(a, b);
    BitOr(a, b)
  }

  /** A multiple of 1024 with low bits `lo`, or-ed with low bits `b`. */
  lemma OrLowBits(base: U64, lo: nat, b: nat)
    requires base % 1024 == 0 && lo < 1024 && b < 1024 && base + lo < TWO64
    ensures Or64(base + lo, b) == base + BitOr(lo, b)
    ensures BitOr(lo, b) < 1024
  {
    hide BitOr, Shifted;
    Pow2At10();
    hide Pow2;
    ShiftedAt10(base / 1024);
    BitOrLow(base / 1024, lo, b, 10);
    BitOrBound(lo, b, 10);
  }
}
