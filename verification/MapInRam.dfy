/** The block bitmap in the memory that it accounts for (kernel/mem/pmm_mem.c:9-66): the manager with its
    bitmap inside RAM, and when it does what the one with a bitmap beside RAM does. */
module MapInRam {
  import opened Words
  import opened Memory
  import opened Bitmap
  import opened Pmm
  import opened Boot

  // ---- the C code on one memory ----

  /** The flags of a bitmap of `size` bytes at `base`. */
  function BitsIn(m: Ram, base: nat, size: nat): (r: Bits)
    ensures |r| == 8 * size
    ensures forall q: nat :: q < |r| ==> r[q] == BitOf(Load(m, base + q / 8), q % 8)
  {
    seq(8 * size, q requires 0 <= q < 8 * size => BitOf(Load(m, base + q / 8), q % 8))
  }

  function WithBit(v: Byte, c: nat): Byte
    requires c < 8
  {
    ByteMask(c);
    BitOrBound(v, Pow2(c), 8);
    BitOr(v, Pow2(c))
  }

  function WithoutBit(v: Byte, c: nat): Byte
    requires c < 8
  {
    BitAndNot(v, Pow2(c))
  }

  /** The first `n` turns of pmm_ureg; a byte index past the bitmap is memory like any other. */
  function MarkIn(m: Ram, base: nat, b: U32, n: nat): (r: Ram)
    ensures |r| == |m|
    decreases n, b
  {
    if n == 0 then m
    else
      var before := MarkIn(m, base, b, n - 1);
      var a := base + ByteAt(b, n - 1);
      Store(before, a, WithBit(Load(before, a), b % 8))
  }

  /** pmm_unreg */
  function UnmarkIn(m: Ram, base: nat, b: U32, n: nat): (r: Ram)
    ensures |r| == |m|
    decreases n, b
  {
    if n == 0 then m
    else
      var before := UnmarkIn(m, base, b, n - 1);
      var a := base + ByteAt(b, n - 1);
      Store(before, a, WithoutBit(Load(before, a), b % 8))
  }

  function PmallocIn(m: Ram, base: nat, size: U32, blocks: U32): (Ram, U64)
  {
    match Pick(BitsIn(m, base, size), blocks)
    case None => (m, 0)
    case Some(p) => (MemSet(MarkIn(m, base, p, blocks), 4096 * p, 0, 4096), 4096 * p)
  }

  function PfreeIn(m: Ram, base: nat, p: U64, blocks: U32): Ram { UnmarkIn(m, base, Wrap32(ToBlocks(p)), blocks) }

  // ---- the two memories ----

  /** RAM with the bitmap in it, and a bitmap beside RAM, stand for the same. */
  ghost predicate Agrees(m: Ram, base: nat, size: nat, s: Phys)
  {
    && |m| == |s.ram| && base + size <= |m| && s.bits == BitsIn(m, base, size)
    && forall x: nat :: x < |m| && !(base <= x < base + size) ==> m[x] == s.ram[x]
  }

  lemma BitStored(v: Byte, c: nat, j: nat)
    requires c < 8 && j < 8
    ensures BitOf(WithBit(v, c), j) <==> j == c || BitOf(v, j)
    ensures BitOf(WithoutBit(v, c), j) <==> j != c && BitOf(v, j)
  {
    hide BitOf, BitOr, BitAndNot, Pow2;
    BitOfOr(v, Pow2(c), j);
    BitOfAndNot(v, Pow2(c), j);
    BitOfPow2(c, j);
  }

  /** One store into the bitmap, seen as flags. */
  lemma FlagsStored(m: Ram, base: nat, size: nat, k: nat, v: Byte)
    requires base + size <= |m| && k < size
    ensures forall q: nat :: q < 8 * size ==>
              BitsIn(Store(m, base + k, v), base, size)[q] ==
                if q / 8 == k then BitOf(v, q % 8) else BitsIn(m, base, size)[q]
  {
    hide BitOf;
  }

  /** The marking loop in RAM: within the bitmap it marks the same column, and outside it writes only
      where its byte index leads past the bitmap. */
  lemma {:induction false} MarkInAgrees(m: Ram, base: nat, size: nat, b: U32, n: U32)
    requires base + size <= |m| && forall k: nat :: Touches(k, b, n) ==> k < size
    ensures BitsIn(MarkIn(m, base, b, n), base, size) == Marked(BitsIn(m, base, size), b, n)
    ensures forall x: nat :: x < |m| && !(base <= x < base + size) ==> MarkIn(m, base, b, n)[x] == m[x]
    decreases n
  {
    hide BitOf, WithBit, ByteAt, BitsIn, Marked;
    if n == 0 {
      MarkedNone(BitsIn(m, base, size), b);
    } else {
      TouchesNext(b, n - 1);
      MarkInAgrees(m, base, size, b, n - 1);
      var before, k := MarkIn(m, base, b, n - 1), ByteAt(b, n - 1);
      var v := WithBit(Load(before, base + k), b % 8);
      FlagsStored(before, base, size, k, v);
      forall q: nat | q < 8 * size
        ensures BitsIn(Store(before, base + k, v), base, size)[q] == Marked(BitsIn(m, base, size), b, n)[q]
      {
        MarkedNext(BitsIn(m, base, size), b, n - 1, q);
        ByteOfFlag(before, base, size, q);
        BitStored(Load(before, base + k), b % 8, q % 8);
      }
    }
  }

  lemma ByteOfFlag(m: Ram, base: nat, size: nat, q: nat)
    requires q < 8 * size
    ensures BitsIn(m, base, size)[q] == BitOf(Load(m, base + q / 8), q % 8)
  {
  }

  lemma MarkedNone(m: Bits, b: U32)
    ensures Marked(m, b, 0) == m && Unmarked(m, b, 0) == m
  {
  }

  lemma MarkedNext(m: Bits, b: U32, i: U32, q: nat)
    requires q < |m| && i + 1 < TWO32
    ensures Marked(m, b, i + 1)[q] == (Marked(m, b, i)[q] || (q / 8 == ByteAt(b, i) && q % 8 == b % 8))
    ensures Unmarked(m, b, i + 1)[q] == (Unmarked(m, b, i)[q] && !(q / 8 == ByteAt(b, i) && q % 8 == b % 8))
  {
    hide ByteAt, InColumn;
    ColumnStep(q, b, i);
    assert InColumn(q, b, i + 1) == InColumn(q, b, i + 1);
  }

  lemma {:induction false} TouchesNext(b: U32, i: U32)
    requires i + 1 < TWO32
    ensures Touches(ByteAt(b, i), b, i + 1)
    ensures forall k: nat :: Touches(k, b, i) ==> Touches(k, b, i + 1)
  {
    var w := if b + i < TWO32 then b + i else b + i - TWO32;
    assert Wrap32(b + i) == w;
  }

  lemma {:induction false} UnmarkInAgrees(m: Ram, base: nat, size: nat, b: U32, n: U32)
    requires base + size <= |m| && forall k: nat :: Touches(k, b, n) ==> k < size
    ensures BitsIn(UnmarkIn(m, base, b, n), base, size) == Unmarked(BitsIn(m, base, size), b, n)
    ensures forall x: nat :: x < |m| && !(base <= x < base + size) ==> UnmarkIn(m, base, b, n)[x] == m[x]
    decreases n
  {
    hide BitOf, WithoutBit, ByteAt, BitsIn, Unmarked;
    if n == 0 {
      MarkedNone(BitsIn(m, base, size), b);
    } else {
      TouchesNext(b, n - 1);
      UnmarkInAgrees(m, base, size, b, n - 1);
      var before, k := UnmarkIn(m, base, b, n - 1), ByteAt(b, n - 1);
      var v := WithoutBit(Load(before, base + k), b % 8);
      FlagsStored(before, base, size, k, v);
      forall q: nat | q < 8 * size
        ensures BitsIn(Store(before, base + k, v), base, size)[q] == Unmarked(BitsIn(m, base, size), b, n)[q]
      {
        MarkedNext(BitsIn(m, base, size), b, n - 1, q);
        ByteOfFlag(before, base, size, q);
        BitStored(Load(before, base + k), b % 8, q % 8);
      }
    }
  }

  /** A flag of the bitmap whose byte lies in the page at `a`. */
  predicate InPage(base: nat, a: nat, q: nat) { a <= base + q / 8 < a + 4096 }

  /** A request on the memory that holds the bitmap does what it does beside it exactly when zeroing the
      page clears no flag that is set once the request is marked. */
  lemma {:induction false} PmallocAgreesIff(m: Ram, base: nat, size: U32, s: Phys, blocks: U32)
    requires Agrees(m, base, size, s) && |m| <= TWO64
    ensures PmallocIn(m, base, size, blocks).1 == Pmalloc(s, blocks).1
    ensures Agrees(PmallocIn(m, base, size, blocks).0, base, size, Pmalloc(s, blocks).0) <==>
            (Pick(s.bits, blocks).Some? ==>
               var p := Pick(s.bits, blocks).value;
               forall q: nat :: q < 8 * size && InPage(base, 4096 * p, q) ==> !Marked(s.bits, p, blocks)[q])
  {
    hide BitsIn, Marked, Pick, MarkIn, MemSet, BitOf, Touches;
    if Pick(s.bits, blocks).Some? {
      var p := Pick(s.bits, blocks).value;
      PickInside(s.bits, blocks);
      TouchesInside(p, blocks, size);
      MarkInAgrees(m, base, size, p, blocks);
      var n := MarkIn(m, base, p, blocks);
      ZeroedPage(n, base, size, 4096 * p);
      MemSetRange(n, 4096 * p, 0, 4096);
      MemSetRange(s.ram, 4096 * p, 0, 4096);
      SameFlagsIff(BitsIn(MemSet(n, 4096 * p, 0, 4096), base, size), BitsIn(n, base, size), base, 4096 * p);
    }
  }

  lemma PickInside(m: Bits, blocks: U32)
    requires Pick(m, blocks).Some?
    ensures blocks > 0 && Pick(m, blocks).value + blocks <= Limit(m) <= |m|
  {
  }

  lemma TouchesInside(b: nat, n: nat, size: nat)
    requires b + n <= 8 * size && b + n <= TWO32
    ensures forall k: nat :: Touches(k, b, n) ==> k < size
  {
  }

  /** Zeroing a page clears the flags whose bytes lie in it. */
  lemma ZeroedPage(m: Ram, base: nat, size: nat, a: U64)
    requires base + size <= |m| <= TWO64 && a + 4096 <= TWO64
    ensures forall q: nat :: q < 8 * size ==>
              BitsIn(MemSet(m, a, 0, 4096), base, size)[q] == (!InPage(base, a, q) && BitsIn(m, base, size)[q])
  {
    hide BitOf;
    MemSetRange(m, a, 0, 4096);
    forall q: nat | q < 8 * size
      ensures BitsIn(MemSet(m, a, 0, 4096), base, size)[q] == (!InPage(base, a, q) && BitsIn(m, base, size)[q])
    {
      if InPage(base, a, q) {
        assert Load(MemSet(m, a, 0, 4096), base + q / 8) == 0;
        BitOfZero(q % 8);
      }
    }
  }

  lemma SameFlagsIff(c: Bits, d: Bits, base: nat, a: nat)
    requires |c| == |d| && forall q: nat :: q < |d| ==> c[q] == (!InPage(base, a, q) && d[q])
    ensures c == d <==> forall q: nat :: q < |d| && InPage(base, a, q) ==> !d[q]
  {
    hide InPage;
  }

  /** When a request is served from the bitmap's own memory, every block whose flag was in that page is
      free afterwards, whoever had it. */
  lemma {:induction false} HandedOutFreesAll(m: Ram, base: nat, size: U32, s: Phys, blocks: U32, q: nat)
    requires Agrees(m, base, size, s) && |m| <= TWO64 && Pick(s.bits, blocks).Some?
    requires q < 8 * size && InPage(base, 4096 * Pick(s.bits, blocks).value, q)
    ensures Free(BitsIn(PmallocIn(m, base, size, blocks).0, base, size), q)
  {
    hide BitsIn, Pick, MarkIn, MemSet, BitOf;
    PickInside(s.bits, blocks);
    ZeroedPage(MarkIn(m, base, Pick(s.bits, blocks).value, blocks), base, size, 4096 * Pick(s.bits, blocks).value);
  }

  // ---- runs in one memory ----

  /** The machine: all of its memory, and the caller's books. */
  datatype RamBooks = RamBooks(m: Ram, live: map<U64, U32>)

  function ServeIn(b: RamBooks, base: nat, size: U32, r: Request): RamBooks
  {
    match r
    case Take(n) =>
      var (t, a) := PmallocIn(b.m, base, size, n);
      RamBooks(t, if Pick(BitsIn(b.m, base, size), n).Some? then b.live[a := n] else b.live)
    case Give(a) =>
      if a in b.live then RamBooks(PfreeIn(b.m, base, a, b.live[a]), b.live - {a}) else b
  }

  function ServeAllIn(b: RamBooks, base: nat, size: U32, rs: seq<Request>): RamBooks
    decreases |rs|
  {
    if rs == [] then b else ServeAllIn(ServeIn(b, base, size, rs[0]), base, size, rs[1..])
  }

  /** The blocks that hold the bitmap are in use in `bits`. */
  ghost predicate MapUsed(bits: Bits, base: U64, size: U32)
  {
    |bits| == 8 * size && forall q: nat :: HoldsMap(base, size, q) ==> !Free(bits, q)
  }

  /** The machine and the model with the bitmap beside RAM are in the same state. */
  ghost predicate InStep(c: RamBooks, base: nat, size: nat, b: Books)
  {
    Agrees(c.m, base, size, b.s) && c.live == b.live
  }

  lemma {:induction false} ServeAgrees(bits: Bits, b: Books, c: RamBooks, base: U64, size: U32, r: Request)
    requires Accounted(bits, b) && (r.Take? ==> r.blocks <= 1) && InStep(c, base, size, b) && MapUsed(bits, base, size)
    ensures InStep(ServeIn(c, base, size, r), base, size, Serve(b, r))
  {
    hide BitsIn, Marked, Unmarked, MemSet, MarkIn, UnmarkIn, ToBlocks, FirstFit, FreeSet, HoldsMap;
    match r
    case Take(n) =>
      PmallocAgreesIff(c.m, base, size, b.s, n);
      if Pick(b.s.bits, n).Some? {
        TakenApart(bits, b, base, size, n);
      }
    case Give(a) =>
      if a in b.live {
        GivenBlock(bits, b, a);
        TouchesInside(a / 4096, 1, size);
        UnmarkInAgrees(c.m, base, size, a / 4096, 1);
      }
  }

  lemma GivenBlock(bits: Bits, b: Books, a: U64)
    requires Accounted(bits, b) && a in b.live
    ensures b.live[a] == 1 && Wrap32(ToBlocks(a)) == a / 4096 && a / 4096 + 1 <= |bits| && a / 4096 < TWO32
  {
    hide ToBlocks, Covered, Free, Wrap32, Limit;
    ToBlocksIsFloor(a);
    LimitBelow(bits);
    assert a / 4096 in FreeSet(bits);
    SmallWrap(a / 4096);
  }

  lemma LimitBelow(m: Bits)
    ensures Limit(m) <= |m|
  {
  }

  lemma SmallWrap(x: nat)
    requires x < TWO32
    ensures Wrap32(x) == x
  {
  }

  lemma TakenApart(bits: Bits, b: Books, base: U64, size: U32, n: U32)
    requires Accounted(bits, b) && MapUsed(bits, base, size) && Pick(b.s.bits, n).Some?
    ensures forall q: nat :: q < 8 * size ==> !InPage(base, 4096 * Pick(b.s.bits, n).value, q)
  {
    var p := Pick(b.s.bits, n).value;
    assert Free(b.s.bits, p);
    forall q: nat | q < 8 * size
      ensures !InPage(base, 4096 * p, q)
    {
      InPageHolds(base, size, p, q);
    }
  }

  lemma InPageHolds(base: U64, size: U32, p: nat, q: nat)
    requires q < 8 * size
    ensures InPage(base, 4096 * p, q) ==> HoldsMap(base, size, p)
  {
  }

  /** As long as the blocks of the bitmap are in use, every run of one-block requests and releases does in
      the memory that holds the bitmap what it does beside it. */
  lemma {:induction false} SingleRunsAgree(bits: Bits, b: Books, c: RamBooks, base: U64, size: U32, rs: seq<Request>)
    requires Accounted(bits, b) && AllSingle(rs) && InStep(c, base, size, b) && MapUsed(bits, base, size)
    ensures InStep(ServeAllIn(c, base, size, rs), base, size, ServeAll(b, rs))
    decreases |rs|
  {
    hide Accounted, InStep, MapUsed, ServeIn, Serve;
    if rs != [] {
      ServeAgrees(bits, b, c, base, size, rs[0]);
      ServeAccounted(bits, b, rs[0]);
      SingleRunsAgree(bits, Serve(b, rs[0]), ServeIn(c, base, size, rs[0]), base, size, rs[1..]);
    }
  }

  // ---- the boot in one memory ----

  /** The last loop of pmm_init. */
  function FreedIn(m: Ram, base: nat, rs: seq<Region>, ptr: U64, size: U32): (r: Ram)
    ensures |r| == |m|
    decreases |rs|, ptr
  {
    if rs == [] then m
    else
      var before := FreedIn(m, base, rs[..|rs| - 1], ptr, size);
      var last := rs[|rs| - 1];
      if Passes(last, ptr, size) then UnmarkIn(before, base, FirstBlock(last), BlockCount(last)) else before
  }

  /** pmm_init */
  function InitIn(m: Ram, rs: seq<Region>, beyond: Region, hhdm: U64): Ram
  {
    var size := BytesNeeded(rs, beyond);
    var base := MapBase(rs, size);
    FreedIn(MemSet(m, base, 0xFF, size), base, rs, MapPointer(rs, size, hhdm), size)
  }

  lemma FilledMap(m: Ram, base: U64, size: U32)
    requires base + size <= |m| <= TWO64
    ensures BitsIn(MemSet(m, base, 0xFF, size), base, size) == AllUsed(8 * size)
    ensures forall x: nat :: x < |m| && !(base <= x < base + size) ==> MemSet(m, base, 0xFF, size)[x] == m[x]
  {
    MemSetRange(m, base, 0xFF, size);
    ByteMask(0);
    forall q: nat | q < 8 * (size as int)
      ensures BitsIn(MemSet(m, base, 0xFF, size), base, size)[q]
    {
      OnesBits(8, q % 8);
    }
  }

  lemma {:induction false} FreedInAgrees(m: Ram, base: nat, rs: seq<Region>, ptr: U64, size: U32)
    requires base + size <= |m| && WritesInside(rs, ptr, size)
    ensures BitsIn(FreedIn(m, base, rs, ptr, size), base, size) == Freed(BitsIn(m, base, size), rs, ptr, size)
    ensures forall x: nat :: x < |m| && !(base <= x < base + size) ==> FreedIn(m, base, rs, ptr, size)[x] == m[x]
    decreases |rs|
  {
    hide BitsIn, UnmarkIn, Unmarked, Passes, FirstBlock, BlockCount, Touches;
    if rs != [] {
      var front, last := rs[..|rs| - 1], rs[|rs| - 1];
      FrontInside(rs, ptr, size);
      FreedInAgrees(m, base, front, ptr, size);
      if Passes(last, ptr, size) {
        UnmarkInAgrees(FreedIn(m, base, front, ptr, size), base, size, FirstBlock(last), BlockCount(last));
      }
    }
  }

  lemma FrontInside(rs: seq<Region>, ptr: U64, size: U32)
    requires rs != [] && WritesInside(rs, ptr, size)
    ensures WritesInside(rs[..|rs| - 1], ptr, size)
    ensures var last := rs[|rs| - 1];
            Passes(last, ptr, size) ==> forall k: nat :: Touches(k, FirstBlock(last), BlockCount(last)) ==> k < size
  {
    hide Passes, FirstBlock, BlockCount, Touches;
    var front := rs[..|rs| - 1];
    forall i, k: nat | 0 <= i < |front| && Passes(front[i], ptr, size) &&
                       Touches(k, FirstBlock(front[i]), BlockCount(front[i]))
      ensures k < size
    {
      assert front[i] == rs[i];
    }
  }

  /** pmm_init in the memory that holds the bitmap leaves the bitmap that the other results are about, and
      every other byte as it was, when its stores stay inside the bitmap. */
  lemma {:induction false} InitAgrees(m: Ram, rs: seq<Region>, beyond: Region, hhdm: U64)
    requires var size := BytesNeeded(rs, beyond);
             MapBase(rs, size) + size <= |m| <= TWO64 && WritesInside(rs, MapPointer(rs, size, hhdm), size)
    ensures var size := BytesNeeded(rs, beyond);
            Agrees(InitIn(m, rs, beyond, hhdm), MapBase(rs, size), size, Phys(InitBits(rs, beyond, hhdm), m))
  {
    hide BitsIn, BytesNeeded, MapBase, MapPointer, WritesInside, Freed, FreedIn, MemSet;
    var size := BytesNeeded(rs, beyond);
    var base, ptr := MapBase(rs, size), MapPointer(rs, size, hhdm);
    FilledMap(m, base, size);
    FreedInAgrees(MemSet(m, base, 0xFF, size), base, rs, ptr, size);
  }

  /** From a boot that kept the bitmap and stayed inside it, every run of one-block requests and releases
      in the memory that holds the bitmap is one on the bitmap beside it: all that is proved there holds
      of the machine. */
  lemma {:induction false} BootedRunsAgree(m: Ram, rs: seq<Region>, beyond: Region, hhdm: U64, reqs: seq<Request>)
    requires var size := BytesNeeded(rs, beyond);
             MapBase(rs, size) + size <= |m| && WritesInside(rs, MapPointer(rs, size, hhdm), size)
    requires Covered(Phys(InitBits(rs, beyond, hhdm), m)) && BitmapKept(rs, beyond, hhdm)
    requires AllSingle(reqs)
    ensures var size := BytesNeeded(rs, beyond);
            InStep(ServeAllIn(RamBooks(InitIn(m, rs, beyond, hhdm), map[]), MapBase(rs, size), size, reqs),
                   MapBase(rs, size), size,
                   ServeAll(Books(Phys(InitBits(rs, beyond, hhdm), m), map[]), reqs))
  {
    hide BytesNeeded, MapBase, MapPointer, WritesInside, InitBits, InitIn, ServeAll, ServeAllIn, Agrees,
      AllSingle;
    var size := BytesNeeded(rs, beyond);
    var base, bits := MapBase(rs, size), InitBits(rs, beyond, hhdm);
    InitAgrees(m, rs, beyond, hhdm);
    BitsLength(rs, beyond, hhdm);
    SingleRunsAgree(bits, Books(Phys(bits, m), map[]), RamBooks(InitIn(m, rs, beyond, hhdm), map[]), base, size, reqs);
  }

  // ---- the loops ----

  /** pmm_ureg */
  method Mark(pm: PhysicalMemory, base: U64, block: U32, blocks: U32)
    modifies pm.ram
    ensures pm.ram[..] == MarkIn(old(pm.ram[..]), base, block, blocks)
  {
    hide WithBit;
    var i := 0;
    while i < blocks
      invariant 0 <= i <= blocks
      invariant pm.ram[..] == MarkIn(old(pm.ram[..]), base, block, i)
    {
      var a := base + Wrap32(block + i) / 8;
      var v := pm.LoadAt(a);
      pm.StoreByte(a, WithBit(v, block % 8));
      i := i + 1;
    }
  }

  /** pmm_unreg */
  method Unmark(pm: PhysicalMemory, base: U64, block: U32, blocks: U32)
    modifies pm.ram
    ensures pm.ram[..] == UnmarkIn(old(pm.ram[..]), base, block, blocks)
  {
    hide WithoutBit;
    var i := 0;
    while i < blocks
      invariant 0 <= i <= blocks
      invariant pm.ram[..] == UnmarkIn(old(pm.ram[..]), base, block, i)
    {
      var a := base + Wrap32(block + i) / 8;
      var v := pm.LoadAt(a);
      pm.StoreByte(a, WithoutBit(v, block % 8));
      i := i + 1;
    }
  }

  /** pmalloc */
  method Allocate(pm: PhysicalMemory, base: U64, size: U32, blocks: U32) returns (addr: U64)
    modifies pm.ram
    ensures (pm.ram[..], addr) == PmallocIn(old(pm.ram[..]), base, size, blocks)
  {
    hide Scanned, RunFree, MarkIn, MemSet, BitsIn, Pick, FirstFit, BitOf;
    ghost var m := BitsIn(pm.ram[..], base, size);
    var freebl: U32, p: U64 := 0, 0;
    var limit: U32 := Wrap32(size * 8);
    var i: U32 := 0;
    ScanStart(m, blocks);
    while i < limit
      invariant 0 <= i <= limit
      invariant Scanned(m, blocks, i, freebl)
      invariant freebl > 0 ==> p == i - freebl
      invariant pm.ram[..] == old(pm.ram[..])
    {
      var v := pm.LoadAt(base + i / 8);
      ByteOfFlag(pm.ram[..], base, size, i);
      if BitOf(v, i % 8) {
        ScanUsed(m, blocks, i, freebl);
        freebl := 0;
        p := 0;
      } else {
        if freebl == 0 {
          p := i;
        }
        ScanFree(m, blocks, i, freebl);
        freebl := freebl + 1;
        if freebl == blocks {
          PickIs(m, blocks, p);
          Mark(pm, base, p, freebl);
          addr := p * 4096;
          pm.SetBytes(addr, 0, 4096);
          return;
        }
      }
      i := i + 1;
    }
    ScanEnds(m, blocks, freebl);
    addr := 0;
  }

  /** pfree */
  method Release(pm: PhysicalMemory, base: U64, p: U64, blocks: U32)
    modifies pm.ram
    ensures pm.ram[..] == PfreeIn(old(pm.ram[..]), base, p, blocks)
  {
    Unmark(pm, base, Wrap32(ToBlocks(p)), blocks);
  }

  /** pmm_init */
  method Initialize(pm: PhysicalMemory, rs: seq<Region>, beyond: Region, hhdm: U64) returns (base: U64, size: U32)
    modifies pm.ram
    ensures size == BytesNeeded(rs, beyond) && base == MapBase(rs, size)
    ensures pm.ram[..] == InitIn(old(pm.ram[..]), rs, beyond, hhdm)
  {
    hide FreedIn, ToBlocks, Passes, MemSet, Highest, MapPointer, MapBase, End;
    var highest := FindHighest(rs, beyond);
    size := Wrap32(ToBlocks(highest) / 8);
    var ptr := FindHome(rs, size, hhdm);
    base := PhysicalBase(rs, size);
    pm.SetBytes(base, 0xFF, size);
    FreeRegionsIn(pm, base, rs, ptr, size);
  }

  /** The physical address that the pointer stands for. */
  method PhysicalBase(rs: seq<Region>, size: U32) returns (base: U64)
    ensures base == MapBase(rs, size)
  {
    base := 0;
    var i := 0;
    while i < |rs|
      invariant 0 <= i <= |rs| && Home(rs, size) == HomeFrom(rs, size, i)
    {
      if rs[i].kind == USABLE && rs[i].length >= size {
        return rs[i].base;
      }
      i := i + 1;
    }
  }

  method FreeRegionsIn(pm: PhysicalMemory, base: U64, rs: seq<Region>, ptr: U64, size: U32)
    modifies pm.ram
    ensures pm.ram[..] == FreedIn(old(pm.ram[..]), base, rs, ptr, size)
  {
    hide FreedIn, Passes, UnmarkIn, End, FirstBlock, BlockCount, Wrap64;
    FreedInNone(pm.ram[..], base, ptr, size);
    var i := 0;
    while i < |rs|
      invariant 0 <= i <= |rs|
      invariant pm.ram[..] == FreedIn(old(pm.ram[..]), base, rs[..i], ptr, size)
    {
      FreedInNext(old(pm.ram[..]), base, rs, i, ptr, size);
      PassesMeans(rs[i], ptr, size);
      if rs[i].kind == USABLE && (rs[i].base > Wrap64(ptr + size) || End(rs[i]) < ptr) {
        Unmark(pm, base, FirstBlock(rs[i]), BlockCount(rs[i]));
      }
      i := i + 1;
    }
    assert rs[..|rs|] == rs;
  }

  lemma FreedInNone(m: Ram, base: U64, ptr: U64, size: U32)
    ensures FreedIn(m, base, [], ptr, size) == m
  {
  }

  lemma FreedInNext(m: Ram, base: U64, rs: seq<Region>, i: nat, ptr: U64, size: U32)
    requires i < |rs|
    ensures var before := FreedIn(m, base, rs[..i], ptr, size);
            FreedIn(m, base, rs[..i + 1], ptr, size) ==
              if Passes(rs[i], ptr, size) then UnmarkIn(before, base, FirstBlock(rs[i]), BlockCount(rs[i])) else before
  {
    hide Passes, UnmarkIn, FirstBlock, BlockCount;
    assert rs[..i + 1][..i] == rs[..i];
  }
}
