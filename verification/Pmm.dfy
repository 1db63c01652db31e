/** The physical memory manager of kernel/mem/pmm_mem.c: the bitmap of 4 KiB blocks, the first-fit
    scan, and release. */
module Pmm {
  import opened Words
  import opened Memory
  import opened Bitmap

  /** The value of the manager's state: its bitmap and all of RAM. */
  datatype Phys = Phys(bits: Bits, ram: Ram)

  /** RAM reaches as far as the blocks that the bitmap can hand out. */
  predicate Covered(s: Phys) { PAGE * Limit(s.bits) <= |s.ram| <= TWO64 }

  /** `ALIGN`, which clears ten bits (kernel/mem/pmm_mem.h:6). */
  function Align(addr: U64): U64 { addr - addr % 1024 }

  /** `TOBLOCKS` (kernel/mem/pmm_mem.h:8). */
  function ToBlocks(addr: U64): U64 { Align(addr) / 4096 }

  /** Clearing ten bits where twelve are meant does not show after the division. */
  lemma {:induction false} ToBlocksIsFloor(addr: U64)
    ensures ToBlocks(addr) == addr / 4096
  {
    var q := addr / 1024;
    assert Align(addr) == 1024 * q;
    assert (1024 * q) / 4096 == q / 4 == addr / 4096;
  }

  /** The block where `pmalloc` finds its run; a request for none finds none. */
  function Pick(m: Bits, blocks: U32): (r: Option<nat>)
    ensures r.Some? ==> blocks > 0 && IsFirstFit(m, Limit(m), blocks, r.value)
    ensures r.None? && blocks > 0 ==> forall q: nat :: q + blocks <= Limit(m) ==> !RunFree(m, q, blocks)
  {
    if blocks == 0 then None else FirstFit(m, Limit(m), blocks)
  }

  function Pmalloc(s: Phys, blocks: U32): (Phys, U64)
  {
    match Pick(s.bits, blocks)
    case None => (s, 0)
    case Some(p) => (Phys(Marked(s.bits, p, blocks), MemSet(s.ram, 4096 * p, 0, 4096)), 4096 * p)
  }

  function Pfree(s: Phys, p: U64, blocks: U32): Phys
  {
    s.(bits := Unmarked(s.bits, Wrap32(ToBlocks(p)), blocks))
  }

  // ---- single blocks ----

  /** What a one-block allocation does when some block is free: it takes the lowest free block out
      of the free set, zeroes that page and touches nothing else. */
  lemma PmallocOne(s: Phys)
    requires Covered(s) && FreeSet(s.bits) != {}
    ensures var (t, a) := Pmalloc(s, 1);
            && a % 4096 == 0
            && a / 4096 in FreeSet(s.bits)
            && (forall q: nat :: q < a / 4096 ==> !Free(s.bits, q))
            && (forall q: nat :: Free(t.bits, q) <==> Free(s.bits, q) && q != a / 4096)
            && FreeSet(t.bits) == FreeSet(s.bits) - {a / 4096}
            && |t.bits| == |s.bits| && |t.ram| == |s.ram|
            && a + 4096 <= |s.ram|
            && (forall b :: a <= b < a + 4096 ==> t.ram[b] == 0)
            && (forall b :: 0 <= b < |s.ram| && !(a <= b < a + 4096) ==> t.ram[b] == s.ram[b])
  {
    var q0 :| q0 in FreeSet(s.bits);
    assert RunFree(s.bits, q0, 1);
    var p := Pick(s.bits, 1).value;
    assert Free(s.bits, p);
    forall q: nat
      ensures InColumn(q, p, 1) <==> q == p
    {
      SingleColumn(p, q);
    }
    forall q: nat | q < p
      ensures !Free(s.bits, q)
    {
      assert !RunFree(s.bits, q, 1);
    }
    MemSetRange(s.ram, 4096 * p, 0, 4096);
  }

  lemma PickedIsFree(m: Bits)
    ensures Pick(m, 1).Some? ==> Pick(m, 1).value in FreeSet(m)
  {
    assert Pick(m, 1).Some? ==> Free(m, Pick(m, 1).value);
  }

  lemma PmallocOneFails(s: Phys)
    requires FreeSet(s.bits) == {}
    ensures Pmalloc(s, 1) == (s, 0) && Pick(s.bits, 1).None?
  {
    PickedIsFree(s.bits);
  }

  lemma {:induction false} PfreeOne(s: Phys, a: U64)
    requires a % 4096 == 0 && a / 4096 < Limit(s.bits)
    ensures var t := Pfree(s, a, 1);
            && t.ram == s.ram && |t.bits| == |s.bits|
            && (forall q: nat :: Free(t.bits, q) <==> Free(s.bits, q) || q == a / 4096)
            && FreeSet(t.bits) == FreeSet(s.bits) + {a / 4096}
  {
    ToBlocksIsFloor(a);
    hide ToBlocks, InColumn;
    assert Wrap32(ToBlocks(a)) == a / 4096;
    forall q: nat
      ensures InColumn(q, a / 4096, 1) <==> q == a / 4096
    {
      SingleColumn(a / 4096, q);
    }
  }

  // ---- any number of blocks ----

  /** Exact first fit for every request, and failure only when no run of that length exists. */
  lemma PmallocFirstFit(s: Phys, blocks: U32)
    requires blocks > 0
    ensures var (t, a) := Pmalloc(s, blocks);
            if exists p: nat :: p + blocks <= Limit(s.bits) && RunFree(s.bits, p, blocks)
            then a % 4096 == 0 && IsFirstFit(s.bits, Limit(s.bits), blocks, a / 4096) && t != s
            else a == 0 && t == s
  {
    var r := Pick(s.bits, blocks);
    if r.Some? {
      var p := r.value;
      assert p + blocks <= Limit(s.bits) && RunFree(s.bits, p, blocks);
      assert InColumn(p, p, blocks);
      assert Free(s.bits, p) && !Free(Pmalloc(s, blocks).0.bits, p);
    }
  }

  /** What a successful request of any length leaves: its start's column marked, its first page zeroed
      and no other byte changed, so later pages of a longer run keep what they held. */
  lemma PmallocEffect(s: Phys, blocks: U32)
    requires Covered(s) && Pick(s.bits, blocks).Some?
    ensures var (t, a) := Pmalloc(s, blocks);
            && |t.bits| == |s.bits| && |t.ram| == |s.ram|
            && (forall q: nat :: Free(t.bits, q) <==> Free(s.bits, q) && !InColumn(q, a / 4096, blocks))
            && (forall b: nat :: b < |s.ram| ==> t.ram[b] == if a <= b < a + 4096 then 0 else s.ram[b])
  {
    MemSetRange(s.ram, 4096 * Pick(s.bits, blocks).value, 0, 4096);
  }

  /** A successful request reserves all of its blocks exactly when it asked for one block: of a
      longer run, the second block stays free. */
  lemma ReservesIffSingle(s: Phys, blocks: U32)
    requires Pick(s.bits, blocks).Some?
    ensures var p := Pick(s.bits, blocks).value;
            (forall q: nat :: p <= q < p + blocks ==> !Free(Pmalloc(s, blocks).0.bits, q)) <==> blocks == 1
    ensures var p := Pick(s.bits, blocks).value;
            blocks > 1 ==> Free(Pmalloc(s, blocks).0.bits, p + 1)
  {
    var p := Pick(s.bits, blocks).value;
    assert InColumn(p, p, blocks);
    if blocks > 1 {
      assert Free(s.bits, p + 1);
      assert !InColumn(p + 1, p, blocks);
      assert Free(Pmalloc(s, blocks).0.bits, p + 1);
    } else {
      assert !Free(Pmalloc(s, blocks).0.bits, p);
    }
  }

  /** After a request for two or more blocks, the next one-block request is served from inside the
      range just handed out, unless an even lower block is free. */
  lemma MultiBlockHandedOutTwice(s: Phys, blocks: U32)
    requires blocks > 1 && Pick(s.bits, blocks).Some?
    ensures var (t, a) := Pmalloc(s, blocks);
            var r := Pick(t.bits, 1);
            && r.Some? && r.value <= a / 4096 + 1
            && ((forall q: nat :: q < a / 4096 ==> !Free(s.bits, q)) ==> Pmalloc(t, 1).1 == a + 4096)
  {
    var (t, a) := Pmalloc(s, blocks);
    var p := Pick(s.bits, blocks).value;
    ReservesIffSingle(s, blocks);
    assert InColumn(p, p, blocks);
    hide MemSet, InColumn, FirstFit, Limit, Marked;
    NextPicked(s.bits, t.bits, p);
  }

  /** The next single block, once `p` is taken and `p + 1` is not. */
  lemma NextPicked(m: Bits, n: Bits, p: nat)
    requires p + 2 <= Limit(n) && Free(n, p + 1) && !Free(n, p) && forall q: nat :: Free(n, q) ==> Free(m, q)
    ensures Pick(n, 1).Some? && Pick(n, 1).value <= p + 1
    ensures (forall q: nat :: q < p ==> !Free(m, q)) ==> Pick(n, 1).value == p + 1
  {
    assert RunFree(n, p + 1, 1);
    var r := Pick(n, 1);
    assert Free(n, r.value);
  }

  /** Releasing a fresh allocation restores the bitmap bit for bit exactly when the highest block of
      the marked column was free or lies inside the run; otherwise the release frees a block that
      belongs to someone else. */
  lemma {:induction false} ReleaseRestoresIff(s: Phys, blocks: U32)
    requires Pick(s.bits, blocks).Some?
    ensures var (t, a) := Pmalloc(s, blocks);
            var last := LastOfColumn(a / 4096, blocks);
            Pfree(t, a, blocks).bits == s.bits <==>
            last < a / 4096 + blocks || last >= |s.bits| || Free(s.bits, last)
  {
    var (t, a) := Pmalloc(s, blocks);
    var p := a / 4096;
    var last := LastOfColumn(p, blocks);
    var u := Pfree(t, a, blocks).bits;
    ColumnBounds(p, blocks, last);
    ReleasedFree(s, blocks, last);
    if last < p + blocks || last >= |s.bits| || Free(s.bits, last) {
      forall q: nat
        ensures Free(u, q) <==> Free(s.bits, q)
      {
        ColumnBounds(p, blocks, q);
        ReleasedFree(s, blocks, q);
        if p <= q < p + blocks {
          assert Free(s.bits, q);
        }
      }
      BitsExtensional(u, s.bits);
    }
  }

  lemma ReleasedFree(s: Phys, blocks: U32, q: nat)
    requires Pick(s.bits, blocks).Some?
    ensures var (t, a) := Pmalloc(s, blocks);
            Free(Pfree(t, a, blocks).bits, q) <==>
            (if InColumn(q, a / 4096, blocks) then q < |s.bits| else Free(s.bits, q))
  {
    hide Unmarked, Marked, FirstFit, Limit, ToBlocks, InColumn, MemSet;
    var p := Pick(s.bits, blocks).value;
    ToBlocksIsFloor(4096 * p);
    assert Wrap32(ToBlocks(4096 * p)) == p;
    hide Wrap32;
    RemarkedFree(s.bits, p, blocks, q);
  }

  lemma RemarkedFree(m: Bits, p: nat, n: nat, q: nat)
    ensures Free(Unmarked(Marked(m, p, n), p, n), q) <==>
            (if InColumn(q, p, n) then q < |m| else Free(m, q))
  {
  }

  // ---- runs of single-block requests ----

  datatype Request = Take(blocks: U32) | Give(addr: U64)

  /** The manager and the caller's books: the size of every allocation not yet given back. */
  datatype Books = Books(s: Phys, live: map<U64, U32>)

  /** One request. Giving back something that is not live is not a request the books allow. */
  function Serve(b: Books, r: Request): Books
  {
    match r
    case Take(n) =>
      var (t, a) := Pmalloc(b.s, n);
      Books(t, if Pick(b.s.bits, n).Some? then b.live[a := n] else b.live)
    case Give(a) =>
      if a in b.live then Books(Pfree(b.s, a, b.live[a]), b.live - {a}) else b
  }

  function ServeAll(b: Books, rs: seq<Request>): Books
    decreases |rs|
  {
    if rs == [] then b else ServeAll(Serve(b, rs[0]), rs[1..])
  }

  predicate AllSingle(rs: seq<Request>) { forall r :: r in rs && r.Take? ==> r.blocks <= 1 }

  /** Live allocations are single blocks that were free in `bits` and are marked now; every other
      block is as free as it was in `bits`. */
  ghost predicate Accounted(bits: Bits, b: Books)
  {
    && Covered(b.s) && |b.s.bits| == |bits|
    && (forall a :: a in b.live ==> a % 4096 == 0 && b.live[a] == 1 && a / 4096 in FreeSet(bits))
    && (forall q: nat :: Free(b.s.bits, q) <==> Free(bits, q) && 4096 * q !in b.live)
  }

  /** From `m` to `n` bytes change only in blocks that are free in `bits`. */
  ghost predicate OnlyFreeWritten(bits: Bits, m: Ram, n: Ram)
  {
    |n| == |m| && forall x: nat :: x < |m| && !Free(bits, x / 4096) ==> n[x] == m[x]
  }

  lemma {:induction false} ServeAccounted(bits: Bits, b: Books, r: Request)
    requires Accounted(bits, b) && (r.Take? ==> r.blocks <= 1)
    ensures Accounted(bits, Serve(b, r)) && OnlyFreeWritten(bits, b.s.ram, Serve(b, r).s.ram)
  {
    match r
    case Take(n) =>
      if n == 1 {
        if FreeSet(b.s.bits) == {} {
          PmallocOneFails(b.s);
        } else {
          PmallocOne(b.s);
        }
      }
    case Give(a) =>
      if a in b.live {
        PfreeOne(b.s, a);
        assert a == 4096 * (a / 4096);
      }
  }

  /** A release takes the address out of the books and frees its block, and nothing else. */
  lemma {:induction false} GiveMeans(bits: Bits, b: Books, a: U64)
    requires Accounted(bits, b)
    ensures var c := Serve(b, Give(a));
            if a in b.live then
              && c.live == b.live - {a} && c.s.ram == b.s.ram
              && forall q: nat :: Free(c.s.bits, q) <==> Free(b.s.bits, q) || 4096 * q == a
            else c == b
  {
    if a in b.live {
      PfreeOne(b.s, a);
      assert a == 4096 * (a / 4096);
    }
  }

  /** A request enters the lowest free block in the books and takes it, and without one changes nothing. */
  lemma {:induction false} TakeMeans(bits: Bits, b: Books) returns (p: nat)
    requires Accounted(bits, b)
    ensures var c := Serve(b, Take(1));
            if FreeSet(b.s.bits) == {} then c == b
            else
              && p in FreeSet(b.s.bits) && (forall q :: q in FreeSet(b.s.bits) ==> p <= q)
              && c.live == b.live[4096 * p := 1]
              && forall q: nat :: Free(c.s.bits, q) <==> Free(b.s.bits, q) && q != p
  {
    p := 0;
    if FreeSet(b.s.bits) == {} {
      PmallocOneFails(b.s);
    } else {
      PmallocOne(b.s);
      p := Pick(b.s.bits, 1).value;
      hide FreeSet, Pick, Limit;
    }
  }

  /** Over any run of one-block requests and releases the live blocks stay marked and distinct, no other
      block changes, and no byte is written outside the blocks that were free; once everything is given
      back the bitmap is bit for bit the first one. */
  lemma {:induction false} SingleBlockRuns(bits: Bits, b: Books, rs: seq<Request>)
    requires Accounted(bits, b) && AllSingle(rs)
    ensures Accounted(bits, ServeAll(b, rs)) && OnlyFreeWritten(bits, b.s.ram, ServeAll(b, rs).s.ram)
    ensures ServeAll(b, rs).live == map[] ==> ServeAll(b, rs).s.bits == bits
    decreases |rs|
  {
    if rs == [] {
      if b.live == map[] {
        BitsExtensional(b.s.bits, bits);
      }
    } else {
      ServeAccounted(bits, b, rs[0]);
      SingleBlockRuns(bits, Serve(b, rs[0]), rs[1..]);
    }
  }

  function Takes(n: nat): seq<Request> { if n == 0 then [] else [Take(1)] + Takes(n - 1) }

  /** One more request takes one more free block, until there is none. */
  lemma TakeOne(bits: Bits, b: Books)
    requires Accounted(bits, b)
    ensures var c := Serve(b, Take(1));
            && Accounted(bits, c)
            && (if FreeSet(b.s.bits) == {} then FreeSet(c.s.bits) == {}
                else |FreeSet(c.s.bits)| == |FreeSet(b.s.bits)| - 1)
  {
    ServeAccounted(bits, b, Take(1));
    if FreeSet(b.s.bits) == {} {
      PmallocOneFails(b.s);
    } else {
      PmallocOne(b.s);
    }
  }

  /** Enough one-block requests hand out every free block. */
  lemma {:induction false} Exhausted(bits: Bits, b: Books, n: nat)
    requires Accounted(bits, b) && |FreeSet(b.s.bits)| <= n
    ensures AllSingle(Takes(n)) && Accounted(bits, ServeAll(b, Takes(n)))
    ensures FreeSet(ServeAll(b, Takes(n)).s.bits) == {}
    decreases n
  {
    hide Accounted, Serve, FreeSet;
    if n > 0 {
      assert Takes(n)[0] == Take(1) && Takes(n)[1..] == Takes(n - 1);
      TakeOne(bits, b);
      Exhausted(bits, Serve(b, Take(1)), n - 1);
      AllSingleFirst(Takes(n));
    }
  }

  lemma AllSingleFirst(rs: seq<Request>)
    requires rs != [] && (rs[0].Take? ==> rs[0].blocks <= 1) && AllSingle(rs[1..])
    ensures AllSingle(rs)
  {
    assert rs == [rs[0]] + rs[1..];
  }

  /** Which blocks one-block requests can hand out: those that are free at the start, all of them, and no
      others. */
  lemma {:induction false} HandsOutIff(s: Phys, q: nat)
    requires Covered(s)
    ensures (exists rs :: AllSingle(rs) && 4096 * q in ServeAll(Books(s, map[]), rs).live) <==> q in FreeSet(s.bits)
  {
    var b := Books(s, map[]);
    if rs :| AllSingle(rs) && 4096 * q in ServeAll(b, rs).live {
      SingleBlockRuns(s.bits, b, rs);
      assert (4096 * q) / 4096 == q;
    }
    if q in FreeSet(s.bits) {
      var n := |FreeSet(s.bits)|;
      Exhausted(s.bits, b, n);
      var last := ServeAll(b, Takes(n));
      assert !Free(last.s.bits, q) by {
        assert q !in FreeSet(last.s.bits);
      }
      assert AllSingle(Takes(n)) && 4096 * q in last.live;
    }
  }

  // ---- the manager in memory ----

  /** What the scan knows at block `i`: the current run of free blocks, and that no run of the
      requested length ended before. */
  ghost predicate Scanned(m: Bits, blocks: nat, i: nat, freebl: nat)
  {
    && freebl <= i
    && RunFree(m, i - freebl, freebl)
    && (freebl < i ==> !Free(m, i - freebl - 1))
    && (blocks > 0 ==> freebl < blocks)
    && (blocks > 0 ==> forall q: nat :: q + blocks <= i ==> !RunFree(m, q, blocks))
  }

  lemma ScanStart(m: Bits, blocks: nat)
    ensures Scanned(m, blocks, 0, 0)
  {
  }

  lemma ScanUsed(m: Bits, blocks: nat, i: nat, freebl: nat)
    requires Scanned(m, blocks, i, freebl) && !Free(m, i)
    ensures Scanned(m, blocks, i + 1, 0)
  {
  }

  lemma PickIs(m: Bits, blocks: U32, p: nat)
    requires blocks > 0 && p + blocks <= Limit(m) && RunFree(m, p, blocks)
    requires forall q: nat :: q < p ==> !RunFree(m, q, blocks)
    ensures Pick(m, blocks) == Some(p)
  {
    FirstFitUnique(m, Limit(m), blocks, p);
  }

  lemma ScanEnds(m: Bits, blocks: U32, freebl: nat)
    requires Scanned(m, blocks, Limit(m), freebl)
    ensures Pick(m, blocks).None?
  {
  }

  lemma ScanFree(m: Bits, blocks: nat, i: nat, freebl: nat)
    requires Scanned(m, blocks, i, freebl) && Free(m, i)
    ensures freebl + 1 == blocks ==>
              RunFree(m, i - freebl, blocks) && forall q: nat :: q < i - freebl ==> !RunFree(m, q, blocks)
    ensures freebl + 1 != blocks ==> Scanned(m, blocks, i + 1, freebl + 1)
  {
    forall q: nat | freebl + 1 != blocks && blocks > 0 && q + blocks == i + 1
      ensures !RunFree(m, q, blocks)
    {
      assert q <= i - freebl - 1 < q + blocks;
    }
  }

  class PhysicalMemory {
    const pmmMap: array<bv8>
    const ram: array<Byte>

    constructor (pmmMap: array<bv8>, ram: array<Byte>)
      ensures this.pmmMap == pmmMap && this.ram == ram
    {
      this.pmmMap := pmmMap;
      this.ram := ram;
    }

    ghost predicate Valid() { pmmMap as object != ram }

    ghost function State(): Phys
      reads pmmMap, ram
    {
      Phys(Unpack(pmmMap[..]), ram[..])
    }

    /** pmm_ureg */
    method Mark(block: U32, blocks: U32)
      requires Valid()
      modifies pmmMap
      ensures Unpack(pmmMap[..]) == Marked(old(Unpack(pmmMap[..])), block, blocks)
    {
      var i := 0;
      while i < blocks
        invariant 0 <= i <= blocks
        invariant Unpack(pmmMap[..]) == Marked(old(Unpack(pmmMap[..])), block, i)
      {
        var k := Wrap32(block + i) / 8;
        ghost var before := pmmMap[..];
        if k < pmmMap.Length {
          pmmMap[k] := pmmMap[k] | Mask(block % 8);
        }
        MarkStep(old(Unpack(pmmMap[..])), before, block, i);
        i := i + 1;
      }
    }

    /** pmm_unreg */
    method Unmark(block: U32, blocks: U32)
      requires Valid()
      modifies pmmMap
      ensures Unpack(pmmMap[..]) == Unmarked(old(Unpack(pmmMap[..])), block, blocks)
    {
      var i := 0;
      while i < blocks
        invariant 0 <= i <= blocks
        invariant Unpack(pmmMap[..]) == Unmarked(old(Unpack(pmmMap[..])), block, i)
      {
        var k := Wrap32(block + i) / 8;
        ghost var before := pmmMap[..];
        if k < pmmMap.Length {
          pmmMap[k] := pmmMap[k] & !Mask(block % 8);
        }
        UnmarkStep(old(Unpack(pmmMap[..])), before, block, i);
        i := i + 1;
      }
    }

    method InUse(block: U64) returns (used: bool)
      requires block / 8 < pmmMap.Length
      ensures used <==> !Free(Unpack(pmmMap[..]), block)
    {
      used := pmmMap[block / 8] & Mask(block % 8) != 0;
    }

    method Allocate(blocks: U32) returns (addr: U64)
      requires Valid()
      modifies pmmMap, ram
      ensures (State(), addr) == Pmalloc(old(State()), blocks)
    {
      hide Scanned, RunFree, Free, Marked, MemSet, Unpack, Pick, FirstFit;
      var freebl: U32, p: U64 := 0, 0;
      var limit: U32 := Wrap32(pmmMap.Length * 8);
      ghost var m := Unpack(pmmMap[..]);
      var i: U32 := 0;
      ScanStart(m, blocks);
      while i < limit
        invariant 0 <= i <= limit
        invariant Scanned(m, blocks, i, freebl)
        invariant freebl > 0 ==> p == i - freebl
        invariant State() == old(State())
      {
        var used := InUse(i);
        if used {
          ScanUsed(m, blocks, i, freebl);
          freebl := 0;
          p := 0;
        } else {
          if freebl == 0 {
            p := i;
          }
          ScanFree(m, blocks, i, freebl);
          freebl := freebl + 1;
          if freebl == blocks {
            PickIs(m, blocks, p);
            Mark(p, freebl);
            addr := p * 4096;
            SetBytes(addr, 0, 4096);
            assert State() == Phys(Marked(m, p, blocks), MemSet(old(ram[..]), 4096 * p, 0, 4096));
            return;
          }
        }
        i := i + 1;
      }
      ScanEnds(m, blocks, freebl);
      addr := 0;
    }

    /** pfree */
    method Release(p: U64, blocks: U32)
      requires Valid()
      modifies pmmMap
      ensures State() == Pfree(old(State()), p, blocks)
    {
      Unmark(Wrap32(ToBlocks(p)), blocks);
    }

    // ---- loads, stores and the loops of kernel/misc/utils.c ----

    method StoreByte(a: nat, v: Byte)
      modifies ram
      ensures ram[..] == Store(old(ram[..]), a, v)
    {
      if a < ram.Length {
        ram[a] := v;
      }
    }

    method LoadAt(a: nat) returns (v: Byte)
      ensures v == Load(ram[..], a)
    {
      v := if a < ram.Length then ram[a] else 0xFF;
    }

    /** memset */
    method SetBytes(dest: U64, val: Byte, len: U64)
      modifies ram
      ensures ram[..] == MemSet(old(ram[..]), dest, val, len)
    {
      var i: U64 := 0;
      while i < len
        invariant 0 <= i <= len
        invariant ram[..] == MemSet(old(ram[..]), dest, val, i)
      {
        ghost var before := ram[..];
        StoreByte(Advance(dest, i), val);
        MemSetStep(old(ram[..]), before, dest, val, i);
        i := i + 1;
      }
    }

    /** memcpy from a boot module */
    method CopyBytesIn(dest: U64, src: Image, off: nat, len: U64)
      modifies ram
      ensures ram[..] == CopyIn(old(ram[..]), dest, src, off, len)
    {
      var i: U64 := 0;
      while i < len
        invariant 0 <= i <= len
        invariant ram[..] == CopyIn(old(ram[..]), dest, src, off, i)
      {
        ghost var before := ram[..];
        StoreByte(Advance(dest, i), src(off + i));
        CopyInStep(old(ram[..]), before, dest, src, off, i);
        i := i + 1;
      }
    }

    /** memcpy inside RAM */
    method CopyBytes(dest: nat, src: nat, len: nat)
      modifies ram
      ensures ram[..] == MemCpy(old(ram[..]), dest, src, len)
    {
      var d, s, n := dest, src, len;
      while n > 0
        invariant MemCpy(ram[..], d, s, n) == MemCpy(old(ram[..]), dest, src, len)
      {
        var v := LoadAt(s);
        StoreByte(d, v);
        d, s, n := d + 1, s + 1, n - 1;
      }
    }

    method WriteWord(a: nat, v: U64)
      modifies ram
      ensures ram[..] == StoreWord(old(ram[..]), a, v)
    {
      var d, w, k := a, v, 8;
      while k > 0
        invariant 0 <= k <= 8 && w >= 0
        invariant StoreLE(ram[..], d, w, k) == StoreWord(old(ram[..]), a, v)
      {
        StoreByte(d, w % 256);
        d, w, k := d + 1, w / 256, k - 1;
      }
    }

    method ReadWord(a: nat) returns (v: U64)
      ensures v == Word(ram[..], a)
    {
      v := Word(ram[..], a);
    }
  }

  lemma WithinStep(a: nat, d: U64, i: nat)
    requires i + 1 < TWO64
    ensures Within(a, d, i + 1) <==> Within(a, d, i) || a == Advance(d, i)
    ensures a == Advance(d, i) ==> Distance(d, a) == i
  {
  }

  lemma MemSetStep(m: Ram, before: Ram, d: U64, v: Byte, i: nat)
    requires i + 1 < TWO64 && before == MemSet(m, d, v, i)
    ensures Store(before, Advance(d, i), v) == MemSet(m, d, v, i + 1)
  {
    var after := Store(before, Advance(d, i), v);
    forall a | 0 <= a < |m|
      ensures after[a] == MemSet(m, d, v, i + 1)[a]
    {
      WithinStep(a, d, i);
    }
  }

  lemma CopyInStep(m: Ram, before: Ram, d: U64, f: Image, off: nat, i: nat)
    requires i + 1 < TWO64 && before == CopyIn(m, d, f, off, i)
    ensures Store(before, Advance(d, i), f(off + i)) == CopyIn(m, d, f, off, i + 1)
  {
    var after := Store(before, Advance(d, i), f(off + i));
    forall a | 0 <= a < |m|
      ensures after[a] == CopyIn(m, d, f, off, i + 1)[a]
    {
      WithinStep(a, d, i);
    }
  }
}
