/** pmm_init of kernel/mem/pmm_mem.c: the block bitmap built from the bootloader's memory map
    (kernel/stivale2.h:164-175). */
module Boot {
  import opened Words
  import opened Memory
  import opened Bitmap
  import opened Pmm

  datatype Region = Region(base: U64, length: U64, kind: U32)

  const USABLE: U32 := 1

  function End(r: Region): U64 { Wrap64(r.base + r.length) }

  /** What pmm_unreg takes of a region: 32 bits of its first block and of its number of blocks. */
  function FirstBlock(r: Region): U32 { Wrap32(ToBlocks(r.base)) }

  function BlockCount(r: Region): U32 { Wrap32(ToBlocks(r.length)) }

  /** The region ends within the 2^32 blocks that 32 bits can number. */
  predicate Addressable(r: Region)
  {
    ToBlocks(r.base) < TWO32 && ToBlocks(r.length) < TWO32 && ToBlocks(r.base) + ToBlocks(r.length) <= TWO32
  }

  lemma {:induction false} AddressableMeans(r: Region)
    requires Addressable(r)
    ensures FirstBlock(r) == r.base / 4096 && BlockCount(r) == r.length / 4096
    ensures FirstBlock(r) + BlockCount(r) <= TWO32
  {
    ToBlocksIsFloor(r.base);
    ToBlocksIsFloor(r.length);
  }

  // ---- size and place of the bitmap ----

  /** The highest end, started from the entry one past the map, which the code reads too. */
  function Highest(rs: seq<Region>, beyond: Region): U64
  {
    if rs == [] then End(beyond)
    else
      var h := Highest(rs[..|rs| - 1], beyond);
      if h < End(rs[|rs| - 1]) then End(rs[|rs| - 1]) else h
  }

  /** The greatest end of a map. */
  predicate IsTop(rs: seq<Region>, top: U64)
  {
    (forall i :: 0 <= i < |rs| ==> End(rs[i]) <= top) && exists i :: 0 <= i < |rs| && End(rs[i]) == top
  }

  /** Every map with an entry has one. */
  lemma {:induction false} TopExists(rs: seq<Region>) returns (top: U64)
    requires rs != []
    ensures IsTop(rs, top)
    ensures forall t: U64 :: IsTop(rs, t) ==> t == top
    decreases |rs|
  {
    var front, last := rs[..|rs| - 1], rs[|rs| - 1];
    top := End(last);
    if front != [] {
      var t := TopExists(front);
      hide End;
      if t > top {
        top := t;
        var i :| 0 <= i < |front| && End(front[i]) == t;
        assert rs[i] == front[i];
      }
      assert forall i :: 0 <= i < |front| ==> rs[i] == front[i];
    }
    assert rs[|rs| - 1] == last;
  }

  /** Reading one entry too many is harmless exactly when its end is no higher than the map's. */
  lemma HighestIff(rs: seq<Region>, beyond: Region, top: U64)
    requires IsTop(rs, top)
    ensures Highest(rs, beyond) == top <==> End(beyond) <= top
  {
    HighestBounds(rs, beyond);
    HighestAttained(rs, beyond);
  }

  lemma {:induction false} HighestBounds(rs: seq<Region>, beyond: Region)
    ensures Highest(rs, beyond) >= End(beyond)
    ensures forall i :: 0 <= i < |rs| ==> End(rs[i]) <= Highest(rs, beyond)
    decreases |rs|
  {
    hide End;
    if rs != [] {
      HighestBounds(rs[..|rs| - 1], beyond);
      forall i | 0 <= i < |rs| - 1
        ensures End(rs[i]) <= Highest(rs, beyond)
      {
        assert rs[..|rs| - 1][i] == rs[i];
      }
    }
  }

  lemma {:induction false} HighestAttained(rs: seq<Region>, beyond: Region)
    ensures Highest(rs, beyond) == End(beyond) || exists i :: 0 <= i < |rs| && End(rs[i]) == Highest(rs, beyond)
    decreases |rs|
  {
    hide End;
    if rs != [] {
      var front := rs[..|rs| - 1];
      HighestAttained(front, beyond);
      if i :| 0 <= i < |front| && End(front[i]) == Highest(front, beyond) {
        assert rs[i] == front[i];
      }
    }
  }

  /** The size of the bitmap in bytes, rounded down. */
  function BytesNeeded(rs: seq<Region>, beyond: Region): U32 { Wrap32(ToBlocks(Highest(rs, beyond)) / 8) }

  /** The region is usable and has room for the bitmap. */
  predicate Holds(r: Region, size: U32) { r.kind == USABLE && r.length >= size }

  /** Region `i` is the first that is usable and has at least `size` bytes. */
  ghost predicate FirstFitting(rs: seq<Region>, size: U32, i: nat)
  {
    && i < |rs| && rs[i].kind == 1 && rs[i].length >= size
    && forall j :: 0 <= j < i ==> !(rs[j].kind == 1 && rs[j].length >= size)
  }

  /** The first region that can hold the bitmap; none only if no region can. */
  function Home(rs: seq<Region>, size: U32): (r: Option<nat>)
    ensures r.Some? ==> r.value < |rs| && rs[r.value].kind == 1 && rs[r.value].length >= size
    ensures forall j :: 0 <= j < (if r.Some? then r.value else |rs|) ==> !(rs[j].kind == 1 && rs[j].length >= size)
  {
    HomeFrom(rs, size, 0)
  }

  function HomeFrom(rs: seq<Region>, size: U32, i: nat): (r: Option<nat>)
    requires i <= |rs|
    ensures r.Some? ==> i <= r.value < |rs| && rs[r.value].kind == 1 && rs[r.value].length >= size
    ensures forall j :: i <= j < (if r.Some? then r.value else |rs|) ==> !(rs[j].kind == 1 && rs[j].length >= size)
    decreases |rs| - i
  {
    if i == |rs| then None
    else if Holds(rs[i], size) then Some(i)
    else HomeFrom(rs, size, i + 1)
  }

  /** `pmm_map`: the home's base, moved into the higher half; a null pointer without a home. */
  function MapPointer(rs: seq<Region>, size: U32, hhdm: U64): U64
  {
    match Home(rs, size)
    case None => 0
    case Some(i) => Wrap64(rs[i].base + hhdm)
  }

  // ---- what is freed ----

  /** The test that a region is freed under: its physical bounds against the higher-half pointer. */
  predicate Passes(r: Region, ptr: U64, size: U32)
  {
    r.kind == USABLE && (r.base > Wrap64(ptr + size) || End(r) < ptr)
  }

  function Freed(bits: Bits, rs: seq<Region>, ptr: U64, size: U32): (r: Bits)
    ensures |r| == |bits|
    decreases |rs|, ptr
  {
    if rs == [] then bits
    else
      var before := Freed(bits, rs[..|rs| - 1], ptr, size);
      var last := rs[|rs| - 1];
      if Passes(last, ptr, size) then Unmarked(before, FirstBlock(last), BlockCount(last)) else before
  }

  function AllUsed(n: nat): (r: Bits)
    ensures |r| == n && forall q :: 0 <= q < n ==> r[q]
  {
    seq(n, _ => true)
  }

  /** The bitmap that pmm_init leaves. */
  function InitBits(rs: seq<Region>, beyond: Region, hhdm: U64): Bits
  {
    var size := BytesNeeded(rs, beyond);
    Freed(AllUsed(8 * size), rs, MapPointer(rs, size, hhdm), size)
  }

  /** Freeing region `r` clears the bit of block `q`. */
  predicate Reaches(r: Region, q: nat) { InColumn(q, FirstBlock(r), BlockCount(r)) }

  /** After pmm_init a block is free exactly when it lies in the marked column of a region that
      passes the test. */
  lemma {:induction false} FreedExactly(n: nat, rs: seq<Region>, ptr: U64, size: U32, q: nat)
    ensures Free(Freed(AllUsed(n), rs, ptr, size), q) <==>
            q < n && exists i :: 0 <= i < |rs| && Passes(rs[i], ptr, size) && Reaches(rs[i], q)
    decreases |rs|
  {
    hide Passes, FirstBlock, BlockCount, InColumn;
    if rs != [] {
      var front, last := rs[..|rs| - 1], rs[|rs| - 1];
      FreedExactly(n, front, ptr, size, q);
      if i :| 0 <= i < |rs| && Passes(rs[i], ptr, size) && Reaches(rs[i], q) {
        assert i < |front| ==> front[i] == rs[i];
      }
      if i :| 0 <= i < |front| && Passes(front[i], ptr, size) && Reaches(front[i], q) {
        assert rs[i] == front[i];
      }
    }
  }

  /** Two regions share no block. */
  predicate Apart(a: Region, b: Region)
  {
    FirstBlock(a) + BlockCount(a) <= FirstBlock(b) || FirstBlock(b) + BlockCount(b) <= FirstBlock(a)
  }

  /** The regions that pass share no block with each other; the rest of the map may overlap as it will. */
  ghost predicate Disjoint(rs: seq<Region>, ptr: U64, size: U32)
  {
    && (forall i :: 0 <= i < |rs| && Passes(rs[i], ptr, size) ==> Addressable(rs[i]))
    && forall i, j :: 0 <= i < j < |rs| && Passes(rs[i], ptr, size) && Passes(rs[j], ptr, size) ==> Apart(rs[i], rs[j])
  }

  /** Regions with a block each are apart exactly when no block is in both. */
  lemma ApartMeans(a: Region, b: Region)
    requires BlockCount(a) > 0 && BlockCount(b) > 0
    ensures Apart(a, b) <==> !exists q: nat :: Covers(a, q) && Covers(b, q)
  {
    hide FirstBlock, BlockCount;
    if !Apart(a, b) {
      var q := if FirstBlock(a) < FirstBlock(b) then FirstBlock(b) else FirstBlock(a);
      assert Covers(a, q) && Covers(b, q);
    }
  }

  predicate Covers(r: Region, q: nat) { FirstBlock(r) <= q < FirstBlock(r) + BlockCount(r) }

  /** What the loop is for: the free blocks of the bitmap are the blocks of the regions that pass. */
  ghost predicate FreesRegions(n: nat, rs: seq<Region>, ptr: U64, size: U32)
  {
    forall q: nat :: q < n ==>
      (Free(Freed(AllUsed(n), rs, ptr, size), q) <==>
        exists i :: 0 <= i < |rs| && Passes(rs[i], ptr, size) && Covers(rs[i], q))
  }

  /** Region `i` passes and has two blocks or more inside the bitmap. */
  predicate Large(n: nat, rs: seq<Region>, ptr: U64, size: U32, i: nat)
  {
    i < |rs| && Passes(rs[i], ptr, size) && BlockCount(rs[i]) >= 2 && FirstBlock(rs[i]) + 1 < n
  }

  lemma SmallColumn(n: nat, r: Region, q: nat)
    requires q < n && Addressable(r) && (BlockCount(r) < 2 || FirstBlock(r) + 1 >= n)
    ensures Reaches(r, q) <==> Covers(r, q)
  {
    AddressableMeans(r);
    hide FirstBlock, BlockCount, Addressable;
    var b, c := FirstBlock(r), BlockCount(r);
    if c == 0 {
    } else {
      ColumnBounds(b, c, q);
      SingleColumn(b, q);
      if q == b {
        assert InColumn(b, b, c);
      }
    }
  }

  /** The large region with the lowest start, searching the first `k`. */
  lemma {:induction false} LowestLarge(n: nat, rs: seq<Region>, ptr: U64, size: U32, k: nat) returns (m: nat)
    requires k <= |rs| && exists i: nat :: i < k && Large(n, rs, ptr, size, i)
    ensures m < k && Large(n, rs, ptr, size, m)
    ensures forall i: nat :: i < k && Large(n, rs, ptr, size, i) ==> FirstBlock(rs[m]) <= FirstBlock(rs[i])
    decreases k
  {
    hide Large, FirstBlock;
    if exists i: nat :: i < k - 1 && Large(n, rs, ptr, size, i) {
      m := LowestLarge(n, rs, ptr, size, k - 1);
      if Large(n, rs, ptr, size, k - 1) && FirstBlock(rs[k - 1]) < FirstBlock(rs[m]) {
        m := k - 1;
      }
    } else {
      m := k - 1;
    }
  }

  /** The second block of the lowest large region stays used. */
  lemma SecondBlockUsed(n: nat, rs: seq<Region>, ptr: U64, size: U32, m: nat)
    requires Disjoint(rs, ptr, size) && Large(n, rs, ptr, size, m)
    requires forall i: nat :: i < |rs| && Large(n, rs, ptr, size, i) ==> FirstBlock(rs[m]) <= FirstBlock(rs[i])
    ensures !Free(Freed(AllUsed(n), rs, ptr, size), FirstBlock(rs[m]) + 1)
  {
    hide FirstBlock, BlockCount, Passes, Freed;
    var q := FirstBlock(rs[m]) + 1;
    FreedExactly(n, rs, ptr, size, q);
    forall i | 0 <= i < |rs| && Passes(rs[i], ptr, size)
      ensures !Reaches(rs[i], q)
    {
      if i != m {
        assert Apart(rs[if i < m then i else m], rs[if i < m then m else i]);
        if BlockCount(rs[i]) > 0 {
          AddressableMeans(rs[i]);
          ColumnBounds(FirstBlock(rs[i]), BlockCount(rs[i]), q);
        }
        if !Large(n, rs, ptr, size, i) {
          SmallColumn(n, rs[i], q);
        }
      }
    }
  }

  /** pmm_init frees exactly the blocks of the regions that pass its test if and only if none of them
      has two blocks or more in the bitmap: of larger regions only every eighth block is freed. */
  lemma FreesRegionsIff(n: nat, rs: seq<Region>, ptr: U64, size: U32)
    requires Disjoint(rs, ptr, size)
    ensures FreesRegions(n, rs, ptr, size) <==> forall i: nat :: i < |rs| ==> !Large(n, rs, ptr, size, i)
  {
    hide FirstBlock, BlockCount, Passes, Freed, InColumn;
    if exists i: nat :: i < |rs| && Large(n, rs, ptr, size, i) {
      var m := LowestLarge(n, rs, ptr, size, |rs|);
      SecondBlockUsed(n, rs, ptr, size, m);
      assert Covers(rs[m], FirstBlock(rs[m]) + 1);
    } else {
      forall q: nat | q < n
        ensures Free(Freed(AllUsed(n), rs, ptr, size), q) <==>
                exists i :: 0 <= i < |rs| && Passes(rs[i], ptr, size) && Covers(rs[i], q)
      {
        FreedExactly(n, rs, ptr, size, q);
        forall i | 0 <= i < |rs| && Passes(rs[i], ptr, size)
          ensures Reaches(rs[i], q) <==> Covers(rs[i], q)
        {
          assert !Large(n, rs, ptr, size, i);
          SmallColumn(n, rs[i], q);
        }
      }
    }
  }

  // ---- the bitmap's own blocks ----

  /** The physical address of the bitmap: the base of its region, or 0 where no region can hold it. */
  function MapBase(rs: seq<Region>, size: U32): U64
  {
    match Home(rs, size)
    case None => 0
    case Some(i) => rs[i].base
  }

  /** Where the bitmap is, in RAM and for the code. */
  lemma BitmapPlaced(rs: seq<Region>, size: U32, hhdm: U64, i: nat)
    ensures FirstFitting(rs, size, i) ==>
              MapBase(rs, size) == rs[i].base &&
              MapPointer(rs, size, hhdm) == (rs[i].base + hhdm) % 0x1_0000_0000_0000_0000
    ensures (forall j: nat :: !FirstFitting(rs, size, j)) ==> MapBase(rs, size) == 0 == MapPointer(rs, size, hhdm)
  {
    if Home(rs, size).Some? {
      assert FirstFitting(rs, size, Home(rs, size).value);
    }
  }

  /** The greatest end among the entries of the map and the one past it. */
  ghost predicate IsHighest(rs: seq<Region>, beyond: Region, top: nat)
  {
    var es := rs + [beyond];
    && (forall i :: 0 <= i < |es| ==> (es[i].base + es[i].length) % 0x1_0000_0000_0000_0000 <= top)
    && exists i :: 0 <= i < |es| && (es[i].base + es[i].length) % 0x1_0000_0000_0000_0000 == top
  }

  /** pmm_init as a whole, on the entries of the map: how many flags there are, and which are clear. */
  lemma {:induction false} InitExactly(rs: seq<Region>, beyond: Region, hhdm: U64, top: nat, size: U32, ptr: U64,
                                       q: nat)
    requires IsHighest(rs, beyond, top) && size == top / 4096 / 8 % 0x1_0000_0000
    requires forall i: nat :: FirstFitting(rs, size, i) ==> ptr == (rs[i].base + hhdm) % 0x1_0000_0000_0000_0000
    requires (forall i: nat :: !FirstFitting(rs, size, i)) ==> ptr == 0
    ensures |InitBits(rs, beyond, hhdm)| == 8 * size
    ensures Free(InitBits(rs, beyond, hhdm), q) <==>
            q < 8 * size && exists i :: 0 <= i < |rs| && FreedBy(rs[i], ptr, size, q)
  {
    HighestIs(rs, beyond, top);
    ToBlocksIsFloor(top);
    hide Highest, ToBlocks, FirstFitting, IsHighest, Passes, Reaches, FreedBy, Freed, MapPointer;
    assert BytesNeeded(rs, beyond) == size;
    PointerIs(rs, size, hhdm, ptr);
    FreedExactly(8 * size, rs, ptr, size, q);
    forall i | 0 <= i < |rs|
      ensures Passes(rs[i], ptr, size) && Reaches(rs[i], q) <==> FreedBy(rs[i], ptr, size, q)
    {
      FreedByMeans(rs[i], ptr, size, q);
    }
  }

  lemma PointerIs(rs: seq<Region>, size: U32, hhdm: U64, ptr: U64)
    requires forall i: nat :: FirstFitting(rs, size, i) ==> ptr == (rs[i].base + hhdm) % 0x1_0000_0000_0000_0000
    requires (forall i: nat :: !FirstFitting(rs, size, i)) ==> ptr == 0
    ensures MapPointer(rs, size, hhdm) == ptr
  {
    BitmapPlaced(rs, size, hhdm, if Home(rs, size).Some? then Home(rs, size).value else 0);
    HomeFits(rs, size);
    hide MapPointer, Home, FirstFitting;
  }

  /** Region `r` is usable, lies above or below the higher-half pointer, and its column has block `q`. */
  ghost predicate FreedBy(r: Region, ptr: U64, size: U32, q: nat)
  {
    && r.kind == 1
    && (r.base > (ptr + size) % 0x1_0000_0000_0000_0000 || (r.base + r.length) % 0x1_0000_0000_0000_0000 < ptr)
    && InColumn(q, r.base / 4096 % 0x1_0000_0000, r.length / 4096 % 0x1_0000_0000)
  }

  lemma FreedByMeans(r: Region, ptr: U64, size: U32, q: nat)
    ensures Passes(r, ptr, size) && Reaches(r, q) <==> FreedBy(r, ptr, size, q)
  {
    ToBlocksIsFloor(r.base);
    ToBlocksIsFloor(r.length);
    hide ToBlocks, InColumn;
  }

  lemma HomeFits(rs: seq<Region>, size: U32)
    ensures Home(rs, size).Some? ==> FirstFitting(rs, size, Home(rs, size).value)
    ensures Home(rs, size).None? ==> forall i: nat :: !FirstFitting(rs, size, i)
  {
  }

  lemma HighestIs(rs: seq<Region>, beyond: Region, top: nat)
    requires IsHighest(rs, beyond, top)
    ensures Highest(rs, beyond) == top
  {
    HighestBounds(rs, beyond);
    HighestAttained(rs, beyond);
    hide Highest, End;
    var es := rs + [beyond];
    forall i | 0 <= i < |es|
      ensures End(es[i]) == (es[i].base + es[i].length) % 0x1_0000_0000_0000_0000
    {
      EndIs(es[i]);
    }
    assert es[|rs|] == beyond;
    assert forall i :: 0 <= i < |rs| ==> rs[i] == es[i];
  }

  lemma EndIs(r: Region)
    ensures End(r) == (r.base + r.length) % 0x1_0000_0000_0000_0000
  {
  }

  /** Block `q` holds a byte of the bitmap, which starts at `base`. */
  predicate HoldsMap(base: U64, size: U32, q: nat)
  {
    size > 0 && base / 4096 <= q <= (base + size - 1) / 4096
  }

  lemma HoldsMapMeans(base: U64, size: U32, q: nat)
    ensures HoldsMap(base, size, q) <==> exists b: nat :: base <= b < base + size && b / 4096 == q
  {
    if HoldsMap(base, size, q) {
      var b := if 4096 * q < base then base else 4096 * q;
      assert base <= b < base + size && b / 4096 == q;
    }
  }

  /** What the placement of the bitmap is for: none of the blocks that hold it is free. */
  ghost predicate BitmapKept(rs: seq<Region>, beyond: Region, hhdm: U64)
  {
    forall q: nat :: InMap(rs, beyond, q) ==> !Free(InitBits(rs, beyond, hhdm), q)
  }

  /** Block `q` holds a byte of the bitmap that is built from this map. */
  predicate InMap(rs: seq<Region>, beyond: Region, q: nat)
  {
    var size := BytesNeeded(rs, beyond);
    HoldsMap(MapBase(rs, size), size, q)
  }

  /** The first block at or after both `b` and `lo` in the column of `b`. */
  function ColumnFrom(b: nat, lo: nat): nat { if b >= lo then b else b + 8 * ((lo - b + 7) / 8) }

  lemma {:induction false} ColumnFromFirst(b: nat, lo: nat, q: nat)
    ensures ColumnFrom(b, lo) % 8 == b % 8 && ColumnFrom(b, lo) >= b && ColumnFrom(b, lo) >= lo
    ensures q >= b && q >= lo && q % 8 == b % 8 ==> q >= ColumnFrom(b, lo)
  {
    if b < lo {
      var k := (lo - b + 7) / 8;
      assert 8 * k <= lo - b + 7 < 8 * k + 8;
      SameColumn(b, b + 8 * k, k);
      if q >= lo && q % 8 == b % 8 {
        var m := q / 8 - b / 8;
        assert q == b + 8 * m;
        assert m >= k;
      }
    }
  }

  lemma SameColumn(b: nat, c: nat, k: nat)
    requires c == b + 8 * k
    ensures c % 8 == b % 8
  {
    assert c == 8 * (b / 8 + k) + b % 8;
  }

  /** Block `c` of the bitmap, which has bits up to `n`, is one that `HoldsMap` says holds part of it. */
  predicate HitsAt(base: U64, size: U32, n: nat, c: nat) { HoldsMap(base, size, c) && c < n }

  /** The column of region `r` comes to a block of the bitmap, the bitmap having bits up to `n`: from its
      first block on, or from block 0 on when it passes block 2^32. */
  predicate Hits(r: Region, base: U64, size: U32, n: nat)
  {
    && BlockCount(r) > 0
    && var b, last := FirstBlock(r), LastOfColumn(FirstBlock(r), BlockCount(r));
       var c, w := ColumnFrom(b, base / 4096), ColumnFrom(b % 8, base / 4096);
       (HitsAt(base, size, n, c) && c <= last && c < TWO32) || (HitsAt(base, size, n, w) && w + TWO32 <= last)
  }

  lemma {:induction false} ColumnIff(b: U32, k: U32, q: nat)
    requires k > 0
    ensures InColumn(q, b, k) <==>
            q % 8 == b % 8 && ((b <= q <= LastOfColumn(b, k) && q < TWO32) || q + TWO32 <= LastOfColumn(b, k))
  {
    var last := (b + k - 1) / 8;
    assert q == 8 * (q / 8) + q % 8 && b == 8 * (b / 8) + b % 8;
    assert 8 * last <= b + k - 1 < 8 * last + 8;
  }

  lemma {:induction false} HitsReaches(r: Region, base: U64, size: U32, n: nat)
    requires Hits(r, base, size, n)
    ensures exists q: nat :: HitsAt(base, size, n, q) && Reaches(r, q)
  {
    var b, k, lo := FirstBlock(r), BlockCount(r), base / 4096;
    hide FirstBlock, BlockCount, ColumnFrom, LastOfColumn, InColumn, HitsAt;
    var c, w := ColumnFrom(b, lo), ColumnFrom(b % 8, lo);
    ColumnFromFirst(b, lo, c);
    ColumnFromFirst(b % 8, lo, w);
    ColumnIff(b, k, c);
    ColumnIff(b, k, w);
    assert Reaches(r, c) || Reaches(r, w);
  }

  lemma {:induction false} ReachesHits(r: Region, base: U64, size: U32, n: nat, q: nat)
    requires HitsAt(base, size, n, q) && Reaches(r, q)
    ensures Hits(r, base, size, n)
  {
    var b, k, lo := FirstBlock(r), BlockCount(r), base / 4096;
    assert k > 0;
    hide FirstBlock, BlockCount, ColumnFrom, LastOfColumn, InColumn;
    ColumnIff(b, k, q);
    ColumnFromFirst(b, lo, q);
    ColumnFromFirst(b % 8, lo, q);
    HeldBefore(base, size, n, q, ColumnFrom(b, lo));
    HeldBefore(base, size, n, q, ColumnFrom(b % 8, lo));
  }

  lemma HeldBefore(base: U64, size: U32, n: nat, q: nat, c: nat)
    requires HitsAt(base, size, n, q)
    ensures base / 4096 <= c <= q ==> HitsAt(base, size, n, c)
  {
  }

  lemma HitsIff(r: Region, base: U64, size: U32, n: nat)
    ensures Hits(r, base, size, n) <==> exists q: nat :: HitsAt(base, size, n, q) && Reaches(r, q)
  {
    hide Hits, Reaches, HitsAt;
    if Hits(r, base, size, n) {
      HitsReaches(r, base, size, n);
    }
    forall q: nat | HitsAt(base, size, n, q) && Reaches(r, q)
      ensures Hits(r, base, size, n)
    {
      ReachesHits(r, base, size, n, q);
    }
  }

  /** For any memory map: the blocks of the bitmap are all kept exactly when the column of no region
      that passes comes to one of them. */
  lemma BitmapKeptIff(rs: seq<Region>, beyond: Region, hhdm: U64)
    ensures var size := BytesNeeded(rs, beyond);
            BitmapKept(rs, beyond, hhdm) <==>
            forall i :: 0 <= i < |rs| && Passes(rs[i], MapPointer(rs, size, hhdm), size) ==>
              !Hits(rs[i], MapBase(rs, size), size, 8 * size)
  {
    hide FirstBlock, BlockCount, Freed, BytesNeeded, Passes, Hits, HoldsMap, Reaches, MapPointer, MapBase;
    var size: nat := BytesNeeded(rs, beyond);
    var ptr, base := MapPointer(rs, size, hhdm), MapBase(rs, size);
    forall i | 0 <= i < |rs| && Passes(rs[i], ptr, size)
      ensures Hits(rs[i], base, size, 8 * size) <==>
              exists q: nat :: q < 8 * size && HoldsMap(base, size, q) && Reaches(rs[i], q)
    {
      HitsIff(rs[i], base, size, 8 * size);
    }
    forall q: nat
      ensures Free(InitBits(rs, beyond, hhdm), q) <==>
              q < 8 * size && exists i :: 0 <= i < |rs| && Passes(rs[i], ptr, size) && Reaches(rs[i], q)
    {
      FreedExactly(8 * size, rs, ptr, size, q);
    }
    forall q: nat
      ensures InMap(rs, beyond, q) <==> HoldsMap(base, size, q)
    {
    }
  }

  /** The test compares the home's physical bounds with a higher-half pointer, so it fails, as it
      should, exactly when the home is at least as long as the higher-half offset. */
  lemma HomePasses(rs: seq<Region>, size: U32, hhdm: U64)
    requires Home(rs, size).Some?
    requires var r := rs[Home(rs, size).value]; r.base + hhdm + size < TWO64 && r.base + r.length < TWO64
    ensures var r := rs[Home(rs, size).value];
            Passes(r, MapPointer(rs, size, hhdm), size) <==> r.length < hhdm
  {
  }

  /** Where no other passing region has a block of the bitmap, the bitmap is kept exactly when its own
      region is at least as long as the higher-half offset, or has no block of the bitmap's bits, and no
      other column spills over into its blocks. */
  lemma BitmapKeptApart(rs: seq<Region>, beyond: Region, hhdm: U64)
    requires var size := BytesNeeded(rs, beyond);
             && Home(rs, size).Some? && size > 0
             && var h := Home(rs, size).value;
                && rs[h].base + hhdm + size < TWO64 && rs[h].base + rs[h].length < TWO64 && Addressable(rs[h])
                && forall i :: 0 <= i < |rs| && i != h && Passes(rs[i], MapPointer(rs, size, hhdm), size) ==>
                     Addressable(rs[i]) && ApartFromMap(rs[i], rs[h].base, size)
    ensures var size := BytesNeeded(rs, beyond);
            var h := Home(rs, size).value;
            BitmapKept(rs, beyond, hhdm) <==>
            && (rs[h].length >= hhdm || BlockCount(rs[h]) == 0 || FirstBlock(rs[h]) >= 8 * size)
            && forall i :: 0 <= i < |rs| && i != h && BlockCount(rs[i]) > 0 &&
                           Passes(rs[i], MapPointer(rs, size, hhdm), size) ==>
                 !SpillsInto(rs[i], rs[h], size)
  {
    hide BytesNeeded, Home, MapPointer, Passes, Hits, HoldsMap, Addressable, SpillsInto, BitmapKept, FirstBlock,
      BlockCount, ApartFromMap;
    var size: nat := BytesNeeded(rs, beyond);
    var h := Home(rs, size).value;
    HomePasses(rs, size, hhdm);
    BitmapKeptIff(rs, beyond, hhdm);
    HitsApart(rs, MapPointer(rs, size, hhdm), size, h);
  }

  /** Region `r` has no block that holds part of the bitmap. */
  ghost predicate ApartFromMap(r: Region, base: U64, size: U32)
  {
    forall q: nat :: HoldsMap(base, size, q) ==> !Covers(r, q)
  }

  lemma HitsApart(rs: seq<Region>, ptr: U64, size: U32, h: nat)
    requires size > 0 && h < |rs| && rs[h].kind == USABLE && Addressable(rs[h])
    requires forall i :: 0 <= i < |rs| && i != h && Passes(rs[i], ptr, size) ==>
               Addressable(rs[i]) && ApartFromMap(rs[i], rs[h].base, size)
    ensures (forall i :: 0 <= i < |rs| && Passes(rs[i], ptr, size) ==> !Hits(rs[i], rs[h].base, size, 8 * size)) <==>
            && (!Passes(rs[h], ptr, size) || BlockCount(rs[h]) == 0 || FirstBlock(rs[h]) >= 8 * size)
            && forall i :: 0 <= i < |rs| && i != h && Passes(rs[i], ptr, size) && BlockCount(rs[i]) > 0 ==>
                 !SpillsInto(rs[i], rs[h], size)
  {
    hide Passes, Hits, HoldsMap, Addressable, SpillsInto, FirstBlock, BlockCount, ApartFromMap;
    HomeHits(rs[h], size);
    forall i | 0 <= i < |rs| && i != h && Passes(rs[i], ptr, size)
      ensures Hits(rs[i], rs[h].base, size, 8 * (size as int)) <==>
              BlockCount(rs[i]) > 0 && SpillsInto(rs[i], rs[h], size)
    {
      OtherHits(rs[i], rs[h], size);
    }
  }

  /** The one block of the column that can lie past region `r` holds part of the bitmap. */
  predicate SpillsInto(r: Region, home: Region, size: U32)
    requires BlockCount(r) > 0
  {
    var last := LastOfColumn(FirstBlock(r), BlockCount(r));
    HoldsMap(home.base, size, last) && last < 8 * size
  }

  lemma HomeHits(home: Region, size: U32)
    requires Addressable(home) && size > 0
    ensures Hits(home, home.base, size, 8 * size) <==> BlockCount(home) > 0 && FirstBlock(home) < 8 * size
  {
    AddressableMeans(home);
    HitsIff(home, home.base, size, 8 * size);
    var b, k := FirstBlock(home), BlockCount(home);
    hide FirstBlock, BlockCount, Hits, Addressable, LastOfColumn;
    assert HoldsMap(home.base, size, b);
    if k > 0 {
      ColumnBounds(b, k, b);
      assert InColumn(b, b, k);
      forall q: nat | Reaches(home, q)
        ensures q >= b
      {
        ColumnBounds(b, k, q);
      }
    }
  }

  lemma OtherHits(r: Region, home: Region, size: U32)
    requires Addressable(r) && ApartFromMap(r, home.base, size)
    ensures Hits(r, home.base, size, 8 * size) <==> BlockCount(r) > 0 && SpillsInto(r, home, size)
  {
    HitsIff(r, home.base, size, 8 * size);
    hide Hits, HoldsMap, Addressable, FirstBlock, BlockCount, LastOfColumn, Reaches, Covers;
    if BlockCount(r) > 0 {
      LastReached(r);
      forall q: nat | HitsAt(home.base, size, 8 * (size as int), q) && Reaches(r, q)
        ensures q == LastOfColumn(FirstBlock(r), BlockCount(r))
      {
        PastRegion(r, q);
      }
    } else {
      NothingReached(r);
    }
  }

  lemma LastReached(r: Region)
    requires Addressable(r) && BlockCount(r) > 0
    ensures Reaches(r, LastOfColumn(FirstBlock(r), BlockCount(r)))
  {
    AddressableMeans(r);
    hide Addressable, FirstBlock, BlockCount;
    ColumnBounds(FirstBlock(r), BlockCount(r), 0);
  }

  lemma PastRegion(r: Region, q: nat)
    requires Addressable(r) && BlockCount(r) > 0 && Reaches(r, q) && !Covers(r, q)
    ensures q == LastOfColumn(FirstBlock(r), BlockCount(r))
  {
    AddressableMeans(r);
    hide Addressable, FirstBlock, BlockCount, InColumn;
    ColumnBounds(FirstBlock(r), BlockCount(r), q);
  }

  lemma NothingReached(r: Region)
    requires BlockCount(r) == 0
    ensures forall q: nat :: !Reaches(r, q)
  {
  }

  /** The home's own test is not enough: with no offset at all, freeing blocks 7 and 8 of a low region
      clears the bit of block 15, where the bitmap of this 1 GiB machine lies. */
  lemma {:induction false} OtherColumnFreesBitmap()
    ensures var rs := [Region(0x7000, 0x2000, 1), Region(0xA000, 0x3FFF_6000, 1)];
            var none := Region(0, 0, 0);
            var size := BytesNeeded(rs, none);
            && Home(rs, size) == Some(1) && !Passes(rs[1], MapPointer(rs, size, 0), size)
            && HoldsMap(rs[1].base, size, 15) && Free(InitBits(rs, none, 0), 15)
  {
    var low, home, none := Region(0x7000, 0x2000, 1), Region(0xA000, 0x3FFF_6000, 1), Region(0, 0, 0);
    var rs := [low, home];
    assert rs[..1] == [low] && [low][..0] == [];
    assert Highest([low], none) == 0x9000;
    assert Highest(rs, none) == 0x4000_0000;
    SizeOf(rs, none);
    hide Highest, BytesNeeded, Freed, ToBlocks;
    var size := BytesNeeded(rs, none);
    assert size == 0x8000;
    assert HomeFrom(rs, size, 0) == HomeFrom(rs, size, 1) == Some(1);
    ToBlocksIsFloor(0x7000);
    ToBlocksIsFloor(0x2000);
    assert Reaches(rs[0], 15);
    assert Passes(rs[0], MapPointer(rs, size, 0), size);
    FreedExactly(0x4_0000, rs, MapPointer(rs, size, 0), size, 15);
  }

  // ---- the booted allocator and the bitmap's own memory ----

  /** Some run of one-block requests and releases after the boot is handed a block of the bitmap. */
  ghost predicate HandsOutMap(rs: seq<Region>, beyond: Region, hhdm: U64, ram: Ram)
  {
    exists reqs, q: nat :: AllSingle(reqs) && InMap(rs, beyond, q) &&
      4096 * q in ServeAll(Books(Phys(InitBits(rs, beyond, hhdm), ram), map[]), reqs).live
  }

  /** A block of the bitmap is handed out by some run of one-block requests exactly when one that the scan
      reaches is free after the boot; below 16 TiB, exactly when the bitmap was not kept. */
  lemma {:induction false} HandsOutMapIff(rs: seq<Region>, beyond: Region, hhdm: U64, ram: Ram)
    requires Covered(Phys(InitBits(rs, beyond, hhdm), ram))
    ensures HandsOutMap(rs, beyond, hhdm, ram) <==>
            exists q: nat :: InMap(rs, beyond, q) && q in FreeSet(InitBits(rs, beyond, hhdm))
    ensures Highest(rs, beyond) < 0x1000_0000_0000 ==>
              (HandsOutMap(rs, beyond, hhdm, ram) <==> !BitmapKept(rs, beyond, hhdm))
  {
    hide InMap, InitBits, BytesNeeded, Highest, ServeAll, AllSingle, Covered;
    var s := Phys(InitBits(rs, beyond, hhdm), ram);
    forall q: nat
      ensures (exists reqs :: AllSingle(reqs) && 4096 * q in ServeAll(Books(s, map[]), reqs).live) <==>
              q in FreeSet(s.bits)
    {
      HandsOutIff(s, q);
    }
    if Highest(rs, beyond) < 0x1000_0000_0000 {
      SizeOf(rs, beyond);
      BitsLength(rs, beyond, hhdm);
    }
  }

  lemma BitsLength(rs: seq<Region>, beyond: Region, hhdm: U64)
    ensures |InitBits(rs, beyond, hhdm)| == 8 * BytesNeeded(rs, beyond)
  {
  }

  /** From a boot that kept the bitmap, no run of one-block requests and releases marks, frees or writes a
      block that holds it. */
  lemma {:induction false} RunsLeaveMap(rs: seq<Region>, beyond: Region, hhdm: U64, ram: Ram, reqs: seq<Request>,
                                       q: nat)
    requires Covered(Phys(InitBits(rs, beyond, hhdm), ram)) && BitmapKept(rs, beyond, hhdm)
    requires AllSingle(reqs) && InMap(rs, beyond, q)
    ensures var b := ServeAll(Books(Phys(InitBits(rs, beyond, hhdm), ram), map[]), reqs);
            && !Free(b.s.bits, q) && 4096 * q !in b.live && |b.s.ram| == |ram|
            && forall x: nat :: x < |ram| && x / 4096 == q ==> b.s.ram[x] == ram[x]
  {
    hide InMap, InitBits, ServeAll, AllSingle;
    var s := Phys(InitBits(rs, beyond, hhdm), ram);
    SingleBlockRuns(s.bits, Books(s, map[]), reqs);
    assert (4096 * q) / 4096 == q;
  }

  /** With the usual offset, on a machine with one usable region below 1 GiB, the very first one-block
      request after the boot is handed, and zeroes, the first page of the bitmap. */
  lemma {:induction false} FirstRequestTakesMap()
    ensures var rs := [Region(0x1000, 0x3FFF_F000, 1)];
            var none := Region(0, 0, 0);
            var bits := InitBits(rs, none, 0xFFFF_8000_0000_0000);
            Pick(bits, 1) == Some(1) && InMap(rs, none, 1)
  {
    var home, none, hhdm: U64 := Region(0x1000, 0x3FFF_F000, 1), Region(0, 0, 0), 0xFFFF_8000_0000_0000;
    var rs := [home];
    assert rs[..0] == [];
    assert Highest(rs, none) == 0x4000_0000;
    SizeOf(rs, none);
    var size: nat := BytesNeeded(rs, none);
    assert size == 0x8000;
    hide Highest, BytesNeeded, Freed, ToBlocks;
    ToBlocksIsFloor(0x1000);
    ToBlocksIsFloor(0x3FFF_F000);
    var ptr := MapPointer(rs, size, hhdm);
    assert Passes(home, ptr, size);
    FreedExactly(8 * size, rs, ptr, size, 0);
    FreedExactly(8 * size, rs, ptr, size, 1);
    assert Reaches(rs[0], 1) && !Reaches(rs[0], 0);
    var bits := InitBits(rs, none, hhdm);
    assert Free(bits, 1) && !Free(bits, 0);
    BitsLength(rs, none, hhdm);
    assert RunFree(bits, 1, 1) && !RunFree(bits, 0, 1);
    FirstFitUnique(bits, Limit(bits), 1, 1);
  }

  /** With the usual offset the first block of the bitmap is marked free by the code that fills it. */
  lemma BitmapBlockFreed(rs: seq<Region>, beyond: Region, hhdm: U64)
    requires var size: U32 := BytesNeeded(rs, beyond);
             && Home(rs, size).Some?
             && var r := rs[Home(rs, size).value];
                && r.base + hhdm + size < TWO64 && r.base + r.length < TWO64 && r.length < hhdm
                && BlockCount(r) > 0 && FirstBlock(r) < |InitBits(rs, beyond, hhdm)|
    ensures var size: U32 := BytesNeeded(rs, beyond);
            Free(InitBits(rs, beyond, hhdm), FirstBlock(rs[Home(rs, size).value]))
  {
    hide FirstBlock, BlockCount, Freed, BytesNeeded, Passes;
    var size: U32 := BytesNeeded(rs, beyond);
    var i := Home(rs, size).value;
    HomePasses(rs, size, hhdm);
    FreedExactly(8 * size, rs, MapPointer(rs, size, hhdm), size, FirstBlock(rs[i]));
    assert Reaches(rs[i], FirstBlock(rs[i]));
  }

  // ---- the bounds of the bitmap ----

  /** Every store of the last loop of pmm_init is to a byte of the bitmap. */
  ghost predicate WritesInside(rs: seq<Region>, ptr: U64, size: U32)
  {
    forall i, k: nat ::
      0 <= i < |rs| && Passes(rs[i], ptr, size) && Touches(k, FirstBlock(rs[i]), BlockCount(rs[i])) ==> k < size
  }

  /** One past the last block that freeing region `r` counts up to. */
  function Reach(r: Region): nat
  {
    if FirstBlock(r) + BlockCount(r) <= TWO32 then FirstBlock(r) + BlockCount(r) else TWO32
  }

  lemma RegionInsideIff(size: U32, b: U32, n: U32)
    requires n > 0
    ensures (forall k: nat :: Touches(k, b, n) ==> k < size) <==>
            (if b + n <= TWO32 then b + n else TWO32) <= 8 * size
  {
    var top := if b + n <= TWO32 then b + n else TWO32;
    var last := (top - 1) / 8;
    assert top - 1 == 8 * last + (top - 1) % 8;
    assert Touches(last, b, n);
  }

  /** pmm_init stays inside its bitmap exactly when every non-empty region that passes ends within the
      bitmap's eight blocks per byte. */
  lemma WritesInsideIff(rs: seq<Region>, ptr: U64, size: U32)
    ensures WritesInside(rs, ptr, size) <==>
            forall i :: 0 <= i < |rs| && Passes(rs[i], ptr, size) && BlockCount(rs[i]) > 0 ==> Reach(rs[i]) <= 8 * size
  {
    hide Passes, FirstBlock, BlockCount, Touches;
    forall i | 0 <= i < |rs| && Passes(rs[i], ptr, size)
      ensures (forall k: nat :: Touches(k, FirstBlock(rs[i]), BlockCount(rs[i])) ==> k < size) <==>
              (BlockCount(rs[i]) > 0 ==> Reach(rs[i]) <= 8 * size)
    {
      if BlockCount(rs[i]) > 0 {
        RegionInsideIff(size, FirstBlock(rs[i]), BlockCount(rs[i]));
      } else {
        NothingTouched(FirstBlock(rs[i]));
      }
    }
  }

  lemma NothingTouched(b: U32)
    ensures forall k: nat :: !Touches(k, b, 0)
  {
  }

  /** The rounding is harmless whenever the top of memory is a multiple of eight blocks. */
  lemma {:induction false} WholeBytesInside(rs: seq<Region>, beyond: Region, hhdm: U64)
    requires Highest(rs, beyond) % 0x8000 == 0 && Highest(rs, beyond) < 0x1000_0000_0000
    requires forall i :: 0 <= i < |rs| && rs[i].kind == USABLE ==> rs[i].base + rs[i].length < TWO64
    ensures var size := BytesNeeded(rs, beyond); WritesInside(rs, MapPointer(rs, size, hhdm), size)
  {
    hide BytesNeeded, MapPointer, Highest, ToBlocks, Passes, Reach, Wrap64;
    var size: nat := BytesNeeded(rs, beyond);
    var ptr := MapPointer(rs, size, hhdm);
    SizeOf(rs, beyond);
    HighestBounds(rs, beyond);
    WritesInsideIff(rs, ptr, size);
    forall i | 0 <= i < |rs| && Passes(rs[i], ptr, size)
      ensures Reach(rs[i]) <= 8 * size
    {
      PassesMeans(rs[i], ptr, size);
      NoWrap(rs[i]);
      EndsInside(rs[i], size);
    }
  }

  lemma NoWrap(r: Region)
    requires r.base + r.length < TWO64
    ensures End(r) == r.base + r.length
  {
  }

  /** Below 16 TiB the bitmap has a byte for every 32 KiB below the top of memory. */
  lemma {:induction false} SizeOf(rs: seq<Region>, beyond: Region)
    requires Highest(rs, beyond) < 0x1000_0000_0000
    ensures BytesNeeded(rs, beyond) == Highest(rs, beyond) / 0x8000
    ensures 8 * BytesNeeded(rs, beyond) < TWO32
  {
    var high := Highest(rs, beyond);
    ToBlocksIsFloor(high);
    hide Highest, ToBlocks;
    assert high / 4096 / 8 == high / 0x8000 by {
      var q, r := high / 0x8000, high % 0x8000;
      assert high == 0x8000 * q + r;
      assert high / 4096 == 8 * q + r / 4096;
    }
  }

  lemma EndsInside(r: Region, size: U32)
    requires r.base + r.length <= 0x8000 * size
    ensures Reach(r) <= 8 * size
  {
    ToBlocksIsFloor(r.base);
    ToBlocksIsFloor(r.length);
    hide ToBlocks;
    assert 4096 * (r.base / 4096) + 4096 * (r.length / 4096) <= 4096 * (8 * size);
  }

  /** Where RAM ends with the map, the booted allocator hands out RAM only exactly when the entry past the
      map ends no higher, or its end has, below its bits from 16 TiB up, which the 32-bit size of the
      bitmap drops, no whole 32 KiB above the top. */
  lemma {:induction false} BootCoveredIff(rs: seq<Region>, beyond: Region, hhdm: U64, top: U64, ram: Ram)
    requires IsTop(rs, top) && |ram| == top
    ensures Covered(Phys(InitBits(rs, beyond, hhdm), ram)) <==>
            End(beyond) <= top || Cut(End(beyond)) <= top
  {
    hide Highest, End, InitBits, IsTop, Covered, Cut;
    MaximumIs(rs, beyond, top);
    BitsCovered(rs, beyond, hhdm, ram);
    CutBelow(top);
  }

  /** The low 44 bits of an address, rounded down to 32 KiB. */
  function Cut(x: nat): nat { x % 0x1000_0000_0000 / 0x8000 * 0x8000 }

  lemma CutBelow(x: nat)
    ensures Cut(x) <= x
  {
  }

  lemma MaximumIs(rs: seq<Region>, beyond: Region, top: U64)
    requires IsTop(rs, top)
    ensures Highest(rs, beyond) == if End(beyond) <= top then top else End(beyond)
  {
    hide End;
    HighestBounds(rs, beyond);
    HighestAttained(rs, beyond);
  }

  lemma BitsCovered(rs: seq<Region>, beyond: Region, hhdm: U64, ram: Ram)
    requires |ram| <= TWO64
    ensures Covered(Phys(InitBits(rs, beyond, hhdm), ram)) <==> Cut(Highest(rs, beyond)) <= |ram|
  {
    hide Highest, Freed, BytesNeeded, Cut;
    LimitOf(rs, beyond);
    assert |InitBits(rs, beyond, hhdm)| == 8 * BytesNeeded(rs, beyond);
  }

  /** What the scan of the booted allocator can reach, with the size cut to 32 bits and then eight times it. */
  lemma {:induction false} LimitOf(rs: seq<Region>, beyond: Region)
    ensures 4096 * Wrap32(8 * BytesNeeded(rs, beyond)) == Cut(Highest(rs, beyond))
  {
    var high := Highest(rs, beyond);
    ToBlocksIsFloor(high);
    hide Highest, ToBlocks;
    var q, r := high / 0x8000, high % 0x8000;
    assert high == 0x8000 * q + r;
    assert high / 4096 == 8 * q + r / 4096;
    assert BytesNeeded(rs, beyond) == Wrap32(q);
    TwiceCut(q, r, high);
  }

  lemma {:induction false} TwiceCut(q: nat, r: nat, high: nat)
    requires high == 0x8000 * q + r && r < 0x8000
    ensures 4096 * Wrap32(8 * Wrap32(q)) == Cut(high)
  {
    var k, u := q / 0x2000_0000, q % 0x2000_0000;
    var j, i := k / 8, k % 8;
    assert q == 0x1_0000_0000 * j + (0x2000_0000 * i + u);
    DivModOf(0x1_0000_0000, j, 0x2000_0000 * i + u);
    assert 8 * (0x2000_0000 * i + u) == 0x1_0000_0000 * i + 8 * u;
    DivModOf(0x1_0000_0000, i, 8 * u);
    assert high == 0x1000_0000_0000 * k + (0x8000 * u + r);
    DivModOf(0x1000_0000_0000, k, 0x8000 * u + r);
    DivModOf(0x8000, u, r);
  }

  // ---- the code ----

  lemma AllOnes(n: nat)
    ensures Unpack(seq(n, _ => 0xFF as bv8)) == AllUsed(8 * n)
  {
    var m: Packed := seq(n, _ => 0xFF as bv8);
    forall q: nat | q < 8 * n
      ensures Unpack(m)[q]
    {
      FullByte(q % 8);
    }
  }

  lemma FullByte(c: nat)
    requires c < 8
    ensures Test(0xFF, c)
  {
  }

  /** The first loop of pmm_init. */
  method FindHighest(rs: seq<Region>, beyond: Region) returns (highest: U64)
    ensures highest == Highest(rs, beyond)
  {
    hide End;
    highest := End(beyond);
    var i := 0;
    while i < |rs|
      invariant 0 <= i <= |rs| && highest == Highest(rs[..i], beyond)
    {
      assert rs[..i + 1][..i] == rs[..i];
      if highest < End(rs[i]) {
        highest := End(rs[i]);
      }
      i := i + 1;
    }
    assert rs[..|rs|] == rs;
  }

  /** The second loop: where the bitmap goes. */
  method FindHome(rs: seq<Region>, size: U32, hhdm: U64) returns (ptr: U64)
    ensures ptr == MapPointer(rs, size, hhdm)
    ensures forall i: nat :: FirstFitting(rs, size, i) ==> ptr == (rs[i].base + hhdm) % 0x1_0000_0000_0000_0000
    ensures (forall i :: 0 <= i < |rs| ==> !(rs[i].kind == 1 && rs[i].length >= size)) ==> ptr == 0
  {
    ptr := 0;
    var i := 0;
    while i < |rs|
      invariant 0 <= i <= |rs| && Home(rs, size) == HomeFrom(rs, size, i)
    {
      if rs[i].kind == USABLE && rs[i].length >= size {
        return Wrap64(rs[i].base + hhdm);
      }
      i := i + 1;
    }
  }

  /** pmm_init, on the bitmap as an array of its own. */
  method Initialize(rs: seq<Region>, beyond: Region, hhdm: U64, ram: array<Byte>) returns (pm: PhysicalMemory)
    ensures pm.ram == ram && fresh(pm.pmmMap) && pm.Valid()
    ensures pm.State() == Phys(InitBits(rs, beyond, hhdm), old(ram[..]))
  {
    hide Freed, Unpack, ToBlocks, Passes, Unmarked, Highest, MapPointer, End;
    var highest := FindHighest(rs, beyond);
    var size: U32 := Wrap32(ToBlocks(highest) / 8);
    var ptr := FindHome(rs, size, hhdm);
    var bytes := new bv8[size](_ => 0xFF);
    pm := new PhysicalMemory(bytes, ram);
    ghost var ones: Packed := seq(size, _ => 0xFF as bv8);
    assert bytes[..] == ones;
    AllOnes(size);
    FreeRegions(rs, ptr, size, pm, AllUsed(8 * (size as int)));
  }

  /** The last loop: free what passes. */
  method FreeRegions(rs: seq<Region>, ptr: U64, size: U32, pm: PhysicalMemory, ghost bits: Bits)
    requires pm.Valid() && Unpack(pm.pmmMap[..]) == bits
    modifies pm.pmmMap
    ensures Unpack(pm.pmmMap[..]) == Freed(bits, rs, ptr, size)
  {
    hide Freed, Unpack, Passes, Unmarked, End, FirstBlock, BlockCount, Wrap64;
    FreedNone(bits, ptr, size);
    var i := 0;
    while i < |rs|
      invariant 0 <= i <= |rs|
      invariant Unpack(pm.pmmMap[..]) == Freed(bits, rs[..i], ptr, size)
    {
      FreedNext(bits, rs, i, ptr, size);
      PassesMeans(rs[i], ptr, size);
      if rs[i].kind == USABLE && (rs[i].base > Wrap64(ptr + size) || End(rs[i]) < ptr) {
        pm.Unmark(FirstBlock(rs[i]), BlockCount(rs[i]));
      }
      i := i + 1;
    }
    assert rs[..|rs|] == rs;
  }

  lemma PassesMeans(r: Region, ptr: U64, size: U32)
    ensures Passes(r, ptr, size) <==> r.kind == USABLE && (r.base > Wrap64(ptr + size) || End(r) < ptr)
  {
  }

  lemma FreedNone(bits: Bits, ptr: U64, size: U32)
    ensures Freed(bits, [], ptr, size) == bits
  {
  }

  lemma FreedNext(bits: Bits, rs: seq<Region>, i: nat, ptr: U64, size: U32)
    requires i < |rs|
    ensures var before := Freed(bits, rs[..i], ptr, size);
            Freed(bits, rs[..i + 1], ptr, size) ==
              if Passes(rs[i], ptr, size) then Unmarked(before, FirstBlock(rs[i]), BlockCount(rs[i])) else before
  {
    hide Passes, Unmarked, FirstBlock, BlockCount;
    assert rs[..i + 1][..i] == rs[..i];
  }
}
