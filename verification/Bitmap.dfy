/** The block bitmap of kernel/mem/pmm_mem.c: bits packed into bytes, and the plain sequence of
    used flags they stand for. Marking and unmarking take their bit from the first block of the
    region, as the C code does, so they touch one column of the bytes the region spans. */
module Bitmap {
  import opened Words

  /** The bitmap as the C code keeps it. */
  type Packed = seq<bv8>
  /** Which blocks are in use. */
  type Bits = seq<bool>

  // ---- packed bits ----

  /** `1 << c` for a bit number of a byte. */
  function Mask(c: nat): bv8
    requires c < 8
  {
    if c == 0 then 1 else if c == 1 then 2 else if c == 2 then 4 else if c == 3 then 8
    else if c == 4 then 16 else if c == 5 then 32 else if c == 6 then 64 else 128
  }

  lemma MaskIsShift(c: nat)
    requires c < 8
    ensures Mask(c) as int == Pow2(c)
  {
    assert Pow2(3) == 8 && Pow2(5) == 32 && Pow2(7) == 128;
  }

  predicate Test(v: bv8, c: nat)
    requires c < 8
  {
    v & Mask(c) != 0
  }

  predicate IsMask(a: bv8)
  {
    a == 1 || a == 2 || a == 4 || a == 8 || a == 16 || a == 32 || a == 64 || a == 128
  }

  lemma SingleBitOps(v: bv8, a: bv8, b: bv8)
    requires IsMask(a) && IsMask(b)
    ensures (v | a) & b != 0 <==> a == b || v & b != 0
    ensures (v & !a) & b != 0 <==> a != b && v & b != 0
  {
  }

  lemma MasksDiffer(c: nat, j: nat)
    requires c < 8 && j < 8
    ensures IsMask(Mask(c)) && (Mask(c) == Mask(j) <==> c == j)
  {
  }

  lemma SetBit(v: bv8, c: nat, j: nat)
    requires c < 8 && j < 8
    ensures Test(v | Mask(c), j) <==> j == c || Test(v, j)
  {
    MasksDiffer(c, j);
    MasksDiffer(j, c);
    SingleBitOps(v, Mask(c), Mask(j));
  }

  lemma ClearBit(v: bv8, c: nat, j: nat)
    requires c < 8 && j < 8
    ensures Test(v & !Mask(c), j) <==> j != c && Test(v, j)
  {
    MasksDiffer(c, j);
    MasksDiffer(j, c);
    SingleBitOps(v, Mask(c), Mask(j));
  }

  /** The flags that a packed bitmap stands for. */
  function Unpack(m: Packed): (r: Bits)
    ensures |r| == 8 * |m|
    ensures forall q: nat :: q < |r| ==> r[q] == Test(m[q / 8], q % 8)
  {
    seq(8 * |m|, q requires 0 <= q < 8 * |m| => Test(m[q / 8], q % 8))
  }

  lemma BitsOfByte(v: bv8, w: bv8)
    requires v & 1 == w & 1 && v & 2 == w & 2 && v & 4 == w & 4 && v & 8 == w & 8
    requires v & 16 == w & 16 && v & 32 == w & 32 && v & 64 == w & 64 && v & 128 == w & 128
    ensures v == w
  {
  }

  lemma BitIsMask(v: bv8, w: bv8, c: nat)
    requires c < 8
    ensures (Test(v, c) <==> Test(w, c)) ==> v & Mask(c) == w & Mask(c)
  {
  }

  /** The packed form is determined by its flags: equal flags mean equal bytes. */
  lemma UnpackInjective(m: Packed, n: Packed)
    requires Unpack(m) == Unpack(n)
    ensures m == n
  {
    hide Test, Mask;
    assert |m| == |n|;
    forall k | 0 <= k < |m|
      ensures m[k] == n[k]
    {
      forall c: nat | c < 8
        ensures Test(m[k], c) <==> Test(n[k], c)
      {
        assert (8 * k + c) / 8 == k && (8 * k + c) % 8 == c;
        assert Unpack(m)[8 * k + c] == Unpack(n)[8 * k + c];
      }
      ByteExtensional(m[k], n[k]);
    }
  }

  lemma ByteExtensional(v: bv8, w: bv8)
    requires forall c: nat :: c < 8 ==> (Test(v, c) <==> Test(w, c))
    ensures v == w
  {
    hide Test;
    BitIsMask(v, w, 0);
    BitIsMask(v, w, 1);
    BitIsMask(v, w, 2);
    BitIsMask(v, w, 3);
    BitIsMask(v, w, 4);
    BitIsMask(v, w, 5);
    BitIsMask(v, w, 6);
    BitIsMask(v, w, 7);
    BitsOfByte(v, w);
  }

  // ---- free blocks ----

  /** Block `q` is covered by the bitmap and its bit is clear. */
  predicate Free(m: Bits, q: nat) { q < |m| && !m[q] }

  /** The scan bound `pmm_map_size * 8`, a 32-bit product. */
  function Limit(m: Bits): U32 { Wrap32(|m|) }

  /** The free blocks that the scan can hand out. */
  function FreeSet(m: Bits): set<nat> { set q: nat | q < Limit(m) && Free(m, q) }

  /** Equal free blocks mean equal flags. */
  lemma BitsExtensional(m: Bits, n: Bits)
    requires |m| == |n|
    requires forall q: nat :: Free(m, q) <==> Free(n, q)
    ensures m == n
  {
    forall q: nat | q < |m|
      ensures m[q] == n[q]
    {
      assert Free(m, q) <==> Free(n, q);
    }
  }

  // ---- marking and unmarking a region ----

  /** Byte `k` of the bitmap is one that the region [b, b + n) reaches; the block numbers of the loop
      are 32 bits wide, so a region that passes block 2^32 goes on at block 0. */
  predicate Touches(k: nat, b: nat, n: nat)
  {
    n > 0 && ((b / 8 <= k && 8 * k < b + n && 8 * k < TWO32) || 8 * k + TWO32 < b + n)
  }

  /** The byte that turn `i` of the loop changes: `(block+i)/8`. */
  function ByteAt(b: nat, i: nat): nat { Wrap32(b + i) / 8 }

  /** The blocks whose bit the marking loops change: one column of the touched bytes. */
  predicate InColumn(q: nat, b: nat, n: nat) { q % 8 == b % 8 && Touches(q / 8, b, n) }

  function Marked(m: Bits, b: nat, n: nat): (r: Bits)
    ensures |r| == |m|
    ensures forall q: nat :: Free(r, q) <==> Free(m, q) && !InColumn(q, b, n)
  {
    seq(|m|, q requires 0 <= q < |m| => m[q] || InColumn(q, b, n))
  }

  function Unmarked(m: Bits, b: nat, n: nat): (r: Bits)
    ensures |r| == |m|
    ensures forall q: nat :: Free(r, q) <==> Free(m, q) || (InColumn(q, b, n) && q < |m|)
  {
    seq(|m|, q requires 0 <= q < |m| => m[q] && !InColumn(q, b, n))
  }

  lemma {:induction false} ColumnStep(q: nat, b: U32, i: U32)
    ensures InColumn(q, b, i + 1) <==> InColumn(q, b, i) || (q / 8 == ByteAt(b, i) && q % 8 == b % 8)
  {
    var w := if b + i < TWO32 then b + i else b + i - TWO32;
    assert Wrap32(b + i) == w;
    hide Wrap32;
    assert w == 8 * (w / 8) + w % 8;
  }

  /** The column is what a loop over 32-bit block numbers visits: in each byte it comes to, the bit of
      the first block. */
  lemma {:induction false} ColumnVisits(q: nat, b: U32, n: U32)
    ensures InColumn(q, b, n) <==> exists i: nat :: i < n && q / 8 == ByteAt(b, i) && q % 8 == b % 8
    decreases n
  {
    hide InColumn, ByteAt;
    if n > 0 {
      ColumnStep(q, b, n - 1);
      ColumnVisits(q, b, n - 1);
    } else {
      NoColumn(q, b);
    }
  }

  lemma NoColumn(q: nat, b: U32)
    ensures !InColumn(q, b, 0)
  {
  }

  /** One turn of the marking loop, on bytes and on flags. */
  lemma MarkStep(m: Bits, now: Packed, b: U32, i: U32)
    requires Unpack(now) == Marked(m, b, i)
    ensures var k := ByteAt(b, i);
            Unpack(if k < |now| then now[k := now[k] | Mask(b % 8)] else now) == Marked(m, b, i + 1)
  {
    hide Mask, Test, Marked, Unpack, ByteAt;
    var k := ByteAt(b, i);
    var next := if k < |now| then now[k := now[k] | Mask(b % 8)] else now;
    forall q: nat | q < |m|
      ensures Unpack(next)[q] == Marked(m, b, i + 1)[q]
    {
      MarkAt(m, now, b, i, q);
    }
  }

  lemma MarkAt(m: Bits, now: Packed, b: U32, i: U32, q: nat)
    requires q < |m| && Unpack(now) == Marked(m, b, i)
    ensures var k := ByteAt(b, i);
            Unpack(if k < |now| then now[k := now[k] | Mask(b % 8)] else now)[q] == Marked(m, b, i + 1)[q]
  {
    hide Mask, Test, Touches, ByteAt;
    ColumnStep(q, b, i);
    assert Unpack(now)[q] == Marked(m, b, i)[q];
    if ByteAt(b, i) < |now| {
      SetBit(now[ByteAt(b, i)], b % 8, q % 8);
    }
  }

  lemma {:induction false} UnmarkStep(m: Bits, now: Packed, b: U32, i: U32)
    requires Unpack(now) == Unmarked(m, b, i)
    ensures var k := ByteAt(b, i);
            Unpack(if k < |now| then now[k := now[k] & !Mask(b % 8)] else now) == Unmarked(m, b, i + 1)
  {
    hide Mask, Test, Unmarked, Unpack, ByteAt;
    var k := ByteAt(b, i);
    var next := if k < |now| then now[k := now[k] & !Mask(b % 8)] else now;
    forall q: nat | q < |m|
      ensures Unpack(next)[q] == Unmarked(m, b, i + 1)[q]
    {
      UnmarkAt(m, now, b, i, q);
    }
  }

  lemma {:induction false} UnmarkAt(m: Bits, now: Packed, b: U32, i: U32, q: nat)
    requires q < |m| && Unpack(now) == Unmarked(m, b, i)
    ensures var k := ByteAt(b, i);
            Unpack(if k < |now| then now[k := now[k] & !Mask(b % 8)] else now)[q] == Unmarked(m, b, i + 1)[q]
  {
    hide Mask, Test, Touches, ByteAt;
    ColumnStep(q, b, i);
    assert Unpack(now)[q] == Unmarked(m, b, i)[q];
    if ByteAt(b, i) < |now| {
      ClearBit(now[ByteAt(b, i)], b % 8, q % 8);
    }
  }

  /** Marking b..b+n-1 is what the loop does exactly when the region has at most one block. */
  lemma ColumnIsRegionIff(b: U32, n: U32)
    ensures (forall q: nat :: InColumn(q, b, n) <==> b <= q < b + n) <==> n <= 1
  {
    if n <= 1 {
      forall q: nat
        ensures InColumn(q, b, n) <==> b <= q < b + n
      {
        SingleColumn(b, q);
      }
    } else {
      assert !InColumn(b + 1, b, n);
    }
  }

  lemma SingleColumn(b: U32, q: nat)
    ensures InColumn(q, b, 1) <==> q == b
  {
    assert b == 8 * (b / 8) + b % 8;
    assert q == 8 * (q / 8) + q % 8;
  }

  /** The highest block of the column; it lies past the region whenever the region wraps
      round the byte boundary before its column comes back. */
  function LastOfColumn(b: nat, n: nat): nat
    requires n > 0
  {
    8 * ((b + n - 1) / 8) + b % 8
  }

  lemma ColumnBounds(b: nat, n: nat, q: nat)
    requires n > 0 && b + n <= TWO32
    ensures InColumn(q, b, n) ==> b <= q <= LastOfColumn(b, n)
    ensures InColumn(q, b, n) && q >= b + n ==> q == LastOfColumn(b, n)
    ensures InColumn(LastOfColumn(b, n), b, n)
  {
    assert b == 8 * (b / 8) + b % 8;
    assert q == 8 * (q / 8) + q % 8;
    var last := LastOfColumn(b, n);
    assert last / 8 == (b + n - 1) / 8 && last % 8 == b % 8;
    if InColumn(q, b, n) {
      assert 8 * (q / 8) <= b + n - 1;
      assert q / 8 <= (b + n - 1) / 8;
    }
  }

  // ---- first fit ----

  predicate RunFree(m: Bits, p: nat, n: nat) { forall q: nat :: p <= q < p + n ==> Free(m, q) }

  /** `p` is the lowest start of `n` free blocks below `limit`. */
  ghost predicate IsFirstFit(m: Bits, limit: nat, n: nat, p: nat)
  {
    && p + n <= limit
    && RunFree(m, p, n)
    && forall q: nat :: q < p ==> !RunFree(m, q, n)
  }

  function FirstFit(m: Bits, limit: nat, n: nat): (r: Option<nat>)
    ensures r.Some? ==> IsFirstFit(m, limit, n, r.value)
    ensures r.None? ==> forall q: nat :: q + n <= limit ==> !RunFree(m, q, n)
  {
    FirstFitFrom(m, limit, n, 0)
  }

  function FirstFitFrom(m: Bits, limit: nat, n: nat, p: nat): (r: Option<nat>)
    requires forall q: nat :: q < p ==> !RunFree(m, q, n)
    ensures r.Some? ==> IsFirstFit(m, limit, n, r.value)
    ensures r.None? ==> forall q: nat :: q + n <= limit ==> !RunFree(m, q, n)
    decreases limit - p
  {
    if p + n > limit then None
    else if RunFree(m, p, n) then Some(p)
    else if p == limit then None
    else FirstFitFrom(m, limit, n, p + 1)
  }

  lemma FirstFitUnique(m: Bits, limit: nat, n: nat, p: nat)
    requires IsFirstFit(m, limit, n, p)
    ensures FirstFit(m, limit, n) == Some(p)
  {
  }
}
