/** The page tables of kernel/mem/vmm_mem.c: four levels built on demand
    (AMD64 Architecture Programmer's Manual, volume 2, section 5.3), as a transformation of
    physical memory. */
module Vmm {
  import opened Words
  import opened Memory
  import opened Bitmap
  import opened Pmm

  const PRESENT: U64 := 1
  const WRITABLE: U64 := 2
  const USER: U64 := 4

  // ---- the operations of the C code ----

  /** getidx: `(virt >> (12 + (level - 1) * 9)) & 0x1ff`, nine bits of the shift at a time. */
  function Idx(virt: nat, level: nat): (i: nat)
    requires 1 <= level <= 4
    ensures i < 512
    decreases level, virt
  {
    if level == 1 then (virt / 4096) % 512 else Idx(virt / 512, level - 1)
  }

  /** Entry `i` of the table at `p`. */
  function Entry(m: Ram, p: nat, i: nat): U64 { Word(m, p + 8 * i) }

  function SetEntry(m: Ram, p: nat, i: nat, e: U64): Ram { StoreWord(m, p + 8 * i, e) }

  /** get_alloc_next */
  function GetAllocNext(s: Phys, cur: U64, idx: nat): (Phys, U64)
  {
    if Entry(s.ram, cur, idx) % 2 == 1 then (s, Align(Entry(s.ram, cur, idx)))
    else
      var (t, a) := Pmalloc(s, 1);
      var u := t.(ram := SetEntry(t.ram, cur, idx, Or64(Or64(Or64(a, PRESENT), WRITABLE), USER)));
      (u, Align(Entry(u.ram, cur, idx)))
  }

  /** The entry that `map_block` writes. */
  function LeafEntry(phys: U64, flags: U64): (e: U64)
    ensures e % 2 == 1
  {
    Or64(Or64(Align(phys), flags), PRESENT)
  }

  /** map_block */
  function MapBlock(s: Phys, pt: U64, virt: U64, phys: U64, flags: U64): Phys
  {
    var v := Align(virt);
    var (s3, p3) := GetAllocNext(s, pt, Idx(v, 4));
    var (s2, p2) := GetAllocNext(s3, p3, Idx(v, 3));
    var (s1, p1) := GetAllocNext(s2, p2, Idx(v, 2));
    s1.(ram := SetEntry(s1.ram, p1, Idx(v, 1), LeafEntry(phys, flags)))
  }

  /** newpml4; `start` is the address of the kernel's upper 256 entries. */
  function NewPml4(s: Phys, start: U64): (Phys, U64)
  {
    var (t, a) := Pmalloc(s, 1);
    (t.(ram := MemCpy(MemSet(t.ram, a, 0, 2048), a + 2048, start, 2048)), a)
  }

  // ---- the processor's walk ----

  /** Bits 12 to 51 of an entry. */
  function FrameOf(e: U64): nat { (e / 4096) % 0x100_0000_0000 * 4096 }

  /** The frame of an entry is the entry without its low twelve and its high twelve bits. */
  lemma {:induction false} FrameIs(e: U64)
    ensures FrameOf(e) == e % 0x10_0000_0000_0000 - e % 4096
  {
    var k, r := e / 0x10_0000_0000_0000, e % 0x10_0000_0000_0000;
    var q, u := r / 4096, r % 4096;
    assert e == 0x10_0000_0000_0000 * k + r && r == 4096 * q + u;
    assert e == 4096 * (0x100_0000_0000 * k + q) + u;
    DivModOf(4096, 0x100_0000_0000 * k + q, u);
    DivModOf(0x100_0000_0000, k, q);
  }

  /** The four table indices of an address, from level 4 down. */
  function Indices(virt: U64): (path: seq<nat>)
    ensures |path| == 4 && forall k :: 0 <= k < 4 ==> path[k] < 512
  {
    [Idx(virt, 4), Idx(virt, 3), Idx(virt, 2), Idx(virt, 1)]
  }

  /** The last-level entry found by following `path` down from the table `p`. */
  function WalkFrom(m: Ram, p: nat, path: seq<nat>): Option<U64>
    requires |path| > 0
    decreases |path|
  {
    var e := Entry(m, p, path[0]);
    if e % 2 == 0 then None
    else if |path| == 1 then Some(e)
    else WalkFrom(m, FrameOf(e), path[1..])
  }

  function Walk(m: Ram, root: nat, virt: U64): Option<U64> { WalkFrom(m, root, Indices(virt)) }

  /** The physical address of `virt`. */
  function Translate(m: Ram, root: nat, virt: U64): Option<nat>
  {
    match Walk(m, root, virt)
    case None => None
    case Some(e) => Some(FrameOf(e) + virt % 4096)
  }

  /** Addresses below the kernel half. */
  predicate Low(virt: U64) { Indices(virt)[0] < 256 }

  /** The virtual page: the 36 bits that the four indices are taken from. */
  function PageNo(virt: U64): nat { (virt / 4096) % 0x10_0000_0000 }

  lemma {:induction false} SamePageIff(v: U64, w: U64)
    ensures PageNo(v) == PageNo(w) <==> Indices(v) == Indices(w)
  {
    PageSplit(v);
    PageSplit(w);
    SamePath(Indices(v), Indices(w));
  }

  function Mixed(path: seq<nat>): nat
    requires |path| == 4
  {
    path[3] + 512 * path[2] + 0x4_0000 * path[1] + 0x800_0000 * path[0]
  }

  lemma {:induction false} SamePath(a: seq<nat>, b: seq<nat>)
    requires |a| == 4 && |b| == 4
    requires forall k :: 0 <= k < 4 ==> a[k] < 512 && b[k] < 512
    ensures Mixed(a) == Mixed(b) <==> a == b
  {
    if Mixed(a) == Mixed(b) {
      LowDigit(a[2] + 512 * a[1] + 0x4_0000 * a[0], a[3], b[2] + 512 * b[1] + 0x4_0000 * b[0], b[3]);
      LowDigit(a[1] + 512 * a[0], a[2], b[1] + 512 * b[0], b[2]);
      LowDigit(a[0], a[1], b[0], b[1]);
    }
  }

  lemma LowDigit(x: nat, r: nat, y: nat, u: nat)
    requires 512 * x + r == 512 * y + u && r < 512 && u < 512
    ensures x == y && r == u
  {
  }

  lemma SwapDivisions(v: nat)
    ensures (v / 512) / 4096 == (v / 4096) / 512
  {
    var q := v / 0x20_0000;
    var r := v % 0x20_0000;
    assert v == 0x20_0000 * q + r;
    assert v / 512 == 4096 * q + r / 512;
    assert v / 4096 == 512 * q + r / 4096;
    assert (4096 * q + r / 512) / 4096 == q;
    assert (512 * q + r / 4096) / 512 == q;
  }

  lemma PageSplit(v: U64)
    ensures PageNo(v) == Mixed(Indices(v))
  {
    var x1 := v / 4096;
    var x2, x3, x4 := x1 / 512, x1 / 512 / 512, x1 / 512 / 512 / 512;
    SwapDivisions(v);
    SwapDivisions(v / 512);
    SwapDivisions(v / 512 / 512);
    assert Idx(v, 2) == Idx(v / 512, 1) == x2 % 512;
    assert Idx(v, 3) == Idx(v / 512, 2) == Idx(v / 512 / 512, 1) == x3 % 512;
    assert Idx(v / 512, 3) == Idx(v / 512 / 512, 2) == Idx(v / 512 / 512 / 512, 1);
    assert Idx(v, 4) == Idx(v / 512, 3) == x4 % 512;
    MixedOf(x1);
  }

  /** The indices of an address, written out: nine bits each, from bit 39, 30, 21 and 12 on. */
  lemma {:induction false} IndicesAre(v: U64)
    ensures Indices(v) ==
            [v / 0x80_0000_0000 % 512, v / 0x4000_0000 % 512, v / 0x20_0000 % 512, v / 4096 % 512]
    ensures Low(v) <==> v / 0x80_0000_0000 % 512 < 256
  {
    DivTwice(v, 512, 4096);
    DivTwice(v, 512, 512);
    DivTwice(v, 512 * 512, 4096);
    DivTwice(v, 512 * 512, 512);
    DivTwice(v, 512 * 512 * 512, 4096);
    assert Idx(v, 2) == Idx(v / 512, 1) == v / 0x20_0000 % 512;
    assert Idx(v, 3) == Idx(v / 512, 2) == Idx(v / 512 / 512, 1) == v / 0x4000_0000 % 512;
    assert Idx(v / 512, 3) == Idx(v / 512 / 512, 2) == Idx(v / 512 / 512 / 512, 1);
    assert Idx(v, 4) == Idx(v / 512, 3) == v / 0x80_0000_0000 % 512;
  }

  /** What the processor finds behind an address, step by step: a table entry is the eight bytes at its
      index, absent when it is even, and its frame is the entry without its low and its high twelve bits. */
  lemma {:induction false} WalkIs(m: Ram, root: nat, v: U64)
    ensures var e4 := Word(m, root + 8 * (v / 0x80_0000_0000 % 512));
            var e3 := Word(m, FrameOf(e4) + 8 * (v / 0x4000_0000 % 512));
            var e2 := Word(m, FrameOf(e3) + 8 * (v / 0x20_0000 % 512));
            var e1 := Word(m, FrameOf(e2) + 8 * (v / 4096 % 512));
            && (Walk(m, root, v) == if e4 % 2 == 0 || e3 % 2 == 0 || e2 % 2 == 0 || e1 % 2 == 0 then None else Some(e1))
            && (Walk(m, root, v).Some? ==> Translate(m, root, v) == Some(FrameOf(e1) + v % 4096))
  {
    IndicesAre(v);
    hide Word, FrameOf, Indices;
    var path := Indices(v);
    var p3 := FrameOf(Word(m, root + 8 * path[0]));
    var p2 := FrameOf(Word(m, p3 + 8 * path[1]));
    var p1 := FrameOf(Word(m, p2 + 8 * path[2]));
    WalkStep(m, p1, path[3..]);
    WalkStep(m, p2, path[2..]);
    WalkStep(m, p3, path[1..]);
    WalkStep(m, root, path);
  }

  lemma WalkStep(m: Ram, p: nat, path: seq<nat>)
    requires |path| > 0
    ensures var e := Word(m, p + 8 * path[0]);
            WalkFrom(m, p, path) ==
            if e % 2 == 0 then None else if |path| == 1 then Some(e) else WalkFrom(m, FrameOf(e), path[1..])
  {
  }

  lemma MixedOf(x: nat)
    ensures x % 0x10_0000_0000 ==
            x % 512 + 512 * (x / 512 % 512) + 0x4_0000 * (x / 512 / 512 % 512)
            + 0x800_0000 * (x / 512 / 512 / 512 % 512)
  {
    var a := x / 512;
    var b := a / 512;
    var c := b / 512;
    var hi := c / 512;
    MixedParts(x, a, b, c, hi, x % 512, a % 512, b % 512, c % 512);
  }

  lemma MixedParts(x: nat, a: nat, b: nat, c: nat, hi: nat, r0: nat, r1: nat, r2: nat, r3: nat)
    requires x == 512 * a + r0 && a == 512 * b + r1 && b == 512 * c + r2 && c == 512 * hi + r3
    requires r0 < 512 && r1 < 512 && r2 < 512 && r3 < 512
    ensures x % 0x10_0000_0000 == r0 + 512 * r1 + 0x4_0000 * r2 + 0x800_0000 * r3
  {
    assert x == 0x10_0000_0000 * hi + (r0 + 512 * r1 + 0x4_0000 * r2 + 0x800_0000 * r3);
  }

  /** Addresses below 2^47 are below the kernel half. */
  lemma LowAddress(v: U64)
    requires v < 0x8000_0000_0000
    ensures Low(v)
  {
    var w := v / 512 / 512 / 512;
    assert w < 0x10_0000;
    assert Idx(v, 4) == Idx(v / 512, 3);
    assert Idx(v / 512, 3) == Idx(v / 512 / 512, 2) == Idx(w, 1);
  }

  /** The indices depend on the page only. */
  lemma {:induction false} IdxOfPage(v: nat, w: nat, level: nat)
    requires 1 <= level <= 4 && v / 4096 == w / 4096
    ensures Idx(v, level) == Idx(w, level)
    decreases level
  {
    if level > 1 {
      SwapDivisions(v);
      SwapDivisions(w);
      IdxOfPage(v / 512, w / 512, level - 1);
    }
  }

  lemma AlignKeepsIndices(v: U64)
    ensures forall l | 1 <= l <= 4 :: Idx(Align(v), l) == Idx(v, l)
  {
    var x := v / 1024;
    assert Align(v) == 1024 * x;
    assert (1024 * x) / 4096 == x / 4 == v / 4096;
    forall l | 1 <= l <= 4
      ensures Idx(Align(v), l) == Idx(v, l)
    {
      IdxOfPage(Align(v), v, l);
    }
  }

  // ---- entries as bits ----

  lemma SmallOrs()
    ensures BitOr(0, 1) == 1 && BitOr(1, 2) == 3 && BitOr(3, 4) == 7
  {
  }

  lemma OrSeven(a: U64)
    requires a % 1024 == 0 && a + 7 < TWO64
    ensures Or64(Or64(Or64(a, PRESENT), WRITABLE), USER) == a + 7
  {
    SmallOrs();
    OrLowBits(a, 0, 1);
    OrLowBits(a, 1, 2);
    OrLowBits(a, 3, 4);
  }

  lemma {:induction false} AlignedLowBits(a: U64, low: nat)
    requires a % 4096 == 0 && a < 0x10_0000_0000_0000 && low < 1024
    ensures Align(a + low) == a == FrameOf(a + low)
    ensures (a + low) % 1024 == low
  {
    LowBits(a / 4096, low);
    assert a == 4096 * (a / 4096);
  }

  lemma LowBits(k: nat, low: nat)
    requires k < 0x100_0000_0000 && low < 1024
    ensures Align(4096 * k + low) == 4096 * k == FrameOf(4096 * k + low)
    ensures (4096 * k + low) % 1024 == low
  {
    assert (4096 * k + low) / 4096 == k;
    assert (1024 * (4 * k) + low) % 1024 == low;
  }

  /** A present table entry is the table's address plus 7, and both masks recover the address. */
  lemma {:induction false} TableEntry(a: U64)
    requires a % 4096 == 0 && a < 0x10_0000_0000_0000
    ensures Or64(Or64(Or64(a, PRESENT), WRITABLE), USER) == a + 7
    ensures Align(a + 7) == a == FrameOf(a + 7)
    ensures (a + 7) % 2 == 1
  {
    hide BitOr, FrameOf, Align;
    AlignedLowBits(a, 0);
    AlignedLowBits(a, 7);
    OrSeven(a);
  }

  lemma OrOne(x: nat)
    ensures BitOr(x, 1) == if x % 2 == 1 then x else x + 1
  {
    assert x > 0 ==> BitOr(x, 1) == 2 * BitOr(x / 2, 0) + 1;
  }

  /** With a page-aligned frame and flags below bit 10, the leaf entry carries exactly that frame
      and those flags, with the present bit added. */
  lemma LeafEntryFields(phys: U64, flags: U64)
    requires phys % 4096 == 0 && phys < 0x10_0000_0000_0000 && flags < 1024
    ensures FrameOf(LeafEntry(phys, flags)) == phys
    ensures LeafEntry(phys, flags) % 1024 == (if flags % 2 == 1 then flags else flags + 1)
  {
    hide LeafEntry, FrameOf, Align;
    AlignedLowBits(phys, 0);
    AlignedLowBits(phys, if flags % 2 == 1 then flags else flags + 1);
    LeafEntryValue(phys, flags);
  }

  lemma LeafEntryValue(phys: U64, flags: U64)
    requires Align(phys) == phys && phys % 1024 == 0 && phys < 0x10_0000_0000_0000 && flags < 1024
    ensures LeafEntry(phys, flags) == phys + if flags % 2 == 1 then flags else flags + 1
  {
    assert BitOr(0, flags) == flags;
    hide BitOr;
    OrLowBits(phys, 0, flags);
    OrLowBits(phys, flags, 1);
    OrOne(flags);
  }

  // ---- the tree of tables ----

  /** Where a table page sits: its root, and the indices that lead to it. */
  datatype Pos = Pos(root: nat, path: seq<nat>)

  type Tables = map<nat, Pos>

  /** Entries that lead to further tables: all but those of the last level and the kernel half. */
  predicate Interior(pos: Pos, i: nat) { |pos.path| < 3 && (pos.path == [] ==> i < 256) }

  /** An interior entry is absent or leads to the table whose position extends this one. */
  ghost predicate EntryOk(m: Ram, tab: Tables, p: nat, i: nat)
    requires p in tab
  {
    var e := Entry(m, p, i);
    e % 2 == 1 ==> e >= 7 && e - 7 in tab && tab[e - 7] == Pos(tab[p].root, tab[p].path + [i])
  }

  ghost predicate TableOk(s: Phys, tab: Tables, p: nat)
    requires p in tab
  {
    && p % 4096 == 0 && p / 4096 < Limit(s.bits) && !Free(s.bits, p / 4096)
    && |tab[p].path| <= 3
    && (tab[p].path == [] ==> p == tab[p].root)
    && forall i: nat {:trigger EntryOk(s.ram, tab, p, i)} :: i < 512 && Interior(tab[p], i) ==>
         EntryOk(s.ram, tab, p, i)
  }

  ghost predicate WF(s: Phys, tab: Tables)
  {
    && Covered(s)
    && forall p {:trigger TableOk(s, tab, p)} :: p in tab ==> TableOk(s, tab, p)
  }

  predicate IsRoot(tab: Tables, r: nat) { r in tab && tab[r].path == [] }

  /** From (s, tab) to (t, tab2): new tables come from at most `k` blocks that were free, old ones
      stay, and no byte changes in a used page that is not a table. */
  ghost predicate Grew(s: Phys, tab: Tables, t: Phys, tab2: Tables, k: nat)
  {
    && WF(t, tab2)
    && |t.bits| == |s.bits| && |t.ram| == |s.ram|
    && FreeSet(t.bits) <= FreeSet(s.bits) && |FreeSet(t.bits)| + k >= |FreeSet(s.bits)|
    && (forall q: nat :: Free(t.bits, q) ==> Free(s.bits, q))
    && (forall p :: p in tab2 && p !in tab ==> Free(s.bits, p / 4096))
    && (forall p :: p in tab ==> p in tab2 && tab2[p] == tab[p])
    && (forall b: nat :: b < |s.ram| && !Free(s.bits, b / 4096) && 4096 * (b / 4096) !in tab ==> t.ram[b] == s.ram[b])
  }

  lemma {:induction false} GrewTrans(s: Phys, tab: Tables, t: Phys, tab2: Tables, u: Phys, tab3: Tables, j: nat, k: nat)
    requires Grew(s, tab, t, tab2, j) && Grew(t, tab2, u, tab3, k)
    ensures Grew(s, tab, u, tab3, j + k)
  {
    forall b: nat | b < |s.ram| && !Free(s.bits, b / 4096) && 4096 * (b / 4096) !in tab
      ensures u.ram[b] == s.ram[b]
    {
      assert t.ram[b] == s.ram[b];
      assert (4096 * (b / 4096)) / 4096 == b / 4096;
    }
  }

  /** From (s, tab) to (t, tab2): every page in use that is no table stays so, and keeps every byte. */
  ghost predicate Framed(s: Phys, tab: Tables, t: Phys, tab2: Tables)
  {
    && |t.bits| == |s.bits| && |t.ram| == |s.ram|
    && (forall q: nat :: !Free(s.bits, q) && 4096 * q !in tab ==> !Free(t.bits, q) && 4096 * q !in tab2)
    && (forall b: nat :: b < |s.ram| && !Free(s.bits, b / 4096) && 4096 * (b / 4096) !in tab ==> t.ram[b] == s.ram[b])
  }

  lemma GrewFrames(s: Phys, tab: Tables, t: Phys, tab2: Tables, k: nat)
    requires Grew(s, tab, t, tab2, k)
    ensures Framed(s, tab, t, tab2)
  {
    hide WF;
    forall q: nat | !Free(s.bits, q) && 4096 * q !in tab
      ensures !Free(t.bits, q) && 4096 * q !in tab2
    {
      assert (4096 * q) / 4096 == q;
    }
  }

  lemma FramedTrans(s: Phys, tab: Tables, t: Phys, tab2: Tables, u: Phys, tab3: Tables)
    requires Framed(s, tab, t, tab2) && Framed(t, tab2, u, tab3)
    ensures Framed(s, tab, u, tab3)
  {
    hide Free;
    forall b: nat | b < |s.ram| && !Free(s.bits, b / 4096) && 4096 * (b / 4096) !in tab
      ensures u.ram[b] == s.ram[b]
    {
      assert t.ram[b] == s.ram[b];
    }
  }

  /** From (s, tab) to (t, tab2) `cr3` is the one new root, and the earlier roots keep their upper half. */
  ghost predicate RootsKept(s: Phys, tab: Tables, t: Phys, tab2: Tables, cr3: nat)
  {
    && (forall r: nat :: IsRoot(tab2, r) <==> IsRoot(tab, r) || r == cr3)
    && (forall r: nat, i: nat :: IsRoot(tab, r) && 256 <= i < 512 ==> Entry(t.ram, r, i) == Entry(s.ram, r, i))
  }

  /** Every root's upper half is that of the table at `base` in `m0`. */
  ghost predicate UpperIs(m: Ram, tab: Tables, m0: Ram, base: nat)
  {
    forall r: nat, i: nat :: IsRoot(tab, r) && 256 <= i < 512 ==> Entry(m, r, i) == Entry(m0, base, i)
  }

  lemma SetEntryEffect(m: Ram, p: nat, i: nat, e: U64)
    requires p % 4096 == 0 && i < 512 && p + 4096 <= |m|
    ensures |SetEntry(m, p, i, e)| == |m|
    ensures Entry(SetEntry(m, p, i, e), p, i) == e
    ensures forall q: nat, j: nat :: q % 4096 == 0 && j < 512 && !(q == p && j == i) ==>
              Entry(SetEntry(m, p, i, e), q, j) == Entry(m, q, j)
    ensures forall b: nat :: b < |m| && b / 4096 != p / 4096 ==> SetEntry(m, p, i, e)[b] == m[b]
  {
    StoreWordEffect(m, p + 8 * i, e);
    hide Word, StoreWord;
    var n := SetEntry(m, p, i, e);
    forall q: nat, j: nat | q % 4096 == 0 && j < 512 && !(q == p && j == i)
      ensures Entry(n, q, j) == Entry(m, q, j)
    {
      SlotsApart(p, i, q, j);
    }
    forall b: nat | b < |m| && b / 4096 != p / 4096
      ensures n[b] == m[b]
    {
      assert b < p || p + 4096 <= b;
    }
  }

  lemma SlotsApart(p: nat, i: nat, q: nat, j: nat)
    requires p % 4096 == 0 && q % 4096 == 0 && i < 512 && j < 512 && !(q == p && j == i)
    ensures q + 8 * j + 8 <= p + 8 * i || p + 8 * i + 8 <= q + 8 * j
  {
    if p != q {
      PagesApart(p, q);
    }
  }

  /** A fresh page seen as a table: all its entries are absent, and no other page changes. */
  lemma FreshTable(s: Phys)
    requires Covered(s) && FreeSet(s.bits) != {}
    ensures var (t, a) := Pmalloc(s, 1);
            && (forall i: nat :: i < 512 ==> Entry(t.ram, a, i) == 0)
            && (forall q: nat, i: nat :: q % 4096 == 0 && q != a && i < 512 ==>
                  Entry(t.ram, q, i) == Entry(s.ram, q, i))
  {
    PmallocOne(s);
    var (t, a) := Pmalloc(s, 1);
    forall i: nat | i < 512
      ensures Entry(t.ram, a, i) == 0
    {
      ZeroLE(t.ram, a + 8 * i, 8);
    }
    forall q: nat, i: nat | q % 4096 == 0 && q != a && i < 512
      ensures Entry(t.ram, q, i) == Entry(s.ram, q, i)
    {
      assert q + 4096 <= a || a + 4096 <= q by {
        assert q == 4096 * (q / 4096) && a == 4096 * (a / 4096);
      }
      WordSame(t.ram, s.ram, q + 8 * i);
    }
  }

  // ---- get_alloc_next ----

  /** The tables after `get_alloc_next`. */
  ghost function NextTables(s: Phys, tab: Tables, cur: U64, idx: nat): Tables
    requires cur in tab
  {
    if Entry(s.ram, cur, idx) % 2 == 1 then tab
    else tab[Pmalloc(s, 1).1 := Pos(tab[cur].root, tab[cur].path + [idx])]
  }

  /** What `get_alloc_next` does when the entry is absent: the lowest free block becomes a table of
      absent entries hanging at (cur, idx). */
  lemma AllocNextEffect(s: Phys, cur: U64, idx: nat)
    requires Covered(s) && FreeSet(s.bits) != {}
    requires cur % 4096 == 0 && cur / 4096 < Limit(s.bits) && !Free(s.bits, cur / 4096) && idx < 512
    requires Entry(s.ram, cur, idx) % 2 == 0
    ensures var (u, q) := GetAllocNext(s, cur, idx);
            && q == Pmalloc(s, 1).1 && q % 4096 == 0 && q / 4096 < Limit(s.bits) && Free(s.bits, q / 4096)
            && |u.bits| == |s.bits| && |u.ram| == |s.ram|
            && (forall b: nat :: Free(u.bits, b) <==> Free(s.bits, b) && b != q / 4096)
            && FreeSet(u.bits) == FreeSet(s.bits) - {q / 4096}
            && Entry(u.ram, cur, idx) == q + 7
            && (forall i: nat :: i < 512 ==> Entry(u.ram, q, i) == 0)
            && (forall p: nat, i: nat :: p % 4096 == 0 && p != q && i < 512 && !(p == cur && i == idx) ==>
                  Entry(u.ram, p, i) == Entry(s.ram, p, i))
            && (forall b: nat :: b < |s.ram| && b / 4096 != q / 4096 && b / 4096 != cur / 4096 ==> u.ram[b] == s.ram[b])
  {
    PmallocOne(s);
    FreshTable(s);
    var (t, a) := Pmalloc(s, 1);
    TableEntry(a);
    SetEntryEffect(t.ram, cur, idx, a + 7);
    var u := t.(ram := SetEntry(t.ram, cur, idx, a + 7));
    assert GetAllocNext(s, cur, idx) == (u, a);
    forall p: nat, i: nat | p % 4096 == 0 && p != a && i < 512 && !(p == cur && i == idx)
      ensures Entry(u.ram, p, i) == Entry(s.ram, p, i)
    {
      assert Entry(t.ram, p, i) == Entry(s.ram, p, i);
    }
    forall b: nat | b < |s.ram| && b / 4096 != a / 4096 && b / 4096 != cur / 4096
      ensures u.ram[b] == s.ram[b]
    {
      assert t.ram[b] == s.ram[b];
    }
  }

  /** `get_alloc_next` keeps the tree, and the table it returns hangs at (cur, idx). */
  lemma GetAllocNextGrows(s: Phys, tab: Tables, cur: U64, idx: nat)
    requires WF(s, tab) && cur in tab && idx < 512 && Interior(tab[cur], idx)
    requires Entry(s.ram, cur, idx) % 2 == 1 || FreeSet(s.bits) != {}
    ensures var (u, q) := GetAllocNext(s, cur, idx);
            var tab2 := NextTables(s, tab, cur, idx);
            && Grew(s, tab, u, tab2, Taken(s.ram, cur, idx))
            && q in tab2 && tab2[q] == Pos(tab[cur].root, tab[cur].path + [idx])
            && Entry(u.ram, cur, idx) == q + 7
  {
    assert TableOk(s, tab, cur);
    assert EntryOk(s.ram, tab, cur, idx);
    var e := Entry(s.ram, cur, idx);
    if e % 2 == 1 {
      assert TableOk(s, tab, e - 7);
      TableEntry(e - 7);
    } else {
      AllocNextEffect(s, cur, idx);
      var (u, q) := GetAllocNext(s, cur, idx);
      NewTableHung(s, tab, u, cur, idx, q);
    }
  }

  /** A zeroed fresh page `q`, hung at (cur, idx). */
  ghost predicate Hung(s: Phys, tab: Tables, u: Phys, cur: nat, idx: nat, q: nat)
  {
    && WF(s, tab) && cur in tab && idx < 512 && Interior(tab[cur], idx)
    && q % 4096 == 0 && q / 4096 < Limit(s.bits) && Free(s.bits, q / 4096)
    && |u.bits| == |s.bits| && |u.ram| == |s.ram|
    && (forall b: nat :: Free(u.bits, b) <==> Free(s.bits, b) && b != q / 4096)
    && FreeSet(u.bits) == FreeSet(s.bits) - {q / 4096}
    && Entry(s.ram, cur, idx) % 2 == 0
    && Entry(u.ram, cur, idx) == q + 7
    && (forall i: nat :: i < 512 ==> Entry(u.ram, q, i) == 0)
    && (forall p: nat, i: nat :: p % 4096 == 0 && p != q && i < 512 && !(p == cur && i == idx) ==>
          Entry(u.ram, p, i) == Entry(s.ram, p, i))
    && (forall b: nat :: b < |s.ram| && b / 4096 != q / 4096 && b / 4096 != cur / 4096 ==> u.ram[b] == s.ram[b])
  }

  lemma NewTableHung(s: Phys, tab: Tables, u: Phys, cur: nat, idx: nat, q: nat)
    requires Hung(s, tab, u, cur, idx, q)
    ensures Grew(s, tab, u, tab[q := Pos(tab[cur].root, tab[cur].path + [idx])], 1)
  {
    hide Entry;
    assert TableOk(s, tab, cur);
    assert q !in tab by {
      TablesAreUsed(s, tab);
    }
    var tab2 := tab[q := Pos(tab[cur].root, tab[cur].path + [idx])];
    forall p | p in tab2
      ensures TableOk(u, tab2, p)
    {
      if p != q {
        assert TableOk(s, tab, p);
        forall i: nat | i < 512 && Interior(tab2[p], i)
          ensures EntryOk(u.ram, tab2, p, i)
        {
          assert EntryOk(s.ram, tab, p, i);
        }
      }
    }
    forall b: nat | b < |s.ram| && !Free(s.bits, b / 4096) && 4096 * (b / 4096) !in tab
      ensures u.ram[b] == s.ram[b]
    {
      assert cur == 4096 * (cur / 4096);
    }
  }

  /** A path of in-range indices; a path from a root starts in the low half. */
  predicate LowPath(path: seq<nat>)
  {
    && 1 <= |path| <= 4
    && (forall k :: 0 <= k < |path| ==> path[k] < 512)
    && (|path| == 4 ==> path[0] < 256)
  }

  /** Following a present interior entry. */
  lemma Follow(s: Phys, tab: Tables, p: nat, path: seq<nat>) returns (q: nat)
    requires WF(s, tab) && p in tab && LowPath(path) && |path| > 1 && |tab[p].path| + |path| == 4
    requires Entry(s.ram, p, path[0]) % 2 == 1
    ensures Entry(s.ram, p, path[0]) == q + 7 && FrameOf(q + 7) == q && q in tab
    ensures tab[q] == Pos(tab[p].root, tab[p].path + [path[0]])
    ensures LowPath(path[1..])
  {
    assert TableOk(s, tab, p);
    assert EntryOk(s.ram, tab, p, path[0]);
    q := Entry(s.ram, p, path[0]) - 7;
    assert TableOk(s, tab, q);
    TableEntry(q);
  }

  /** Hanging an empty table changes no walk from the tables that were there. */
  lemma {:induction false} HungKeepsWalks(s: Phys, tab: Tables, u: Phys, cur: nat, idx: nat, q: nat, p: nat,
                                          path: seq<nat>)
    requires Hung(s, tab, u, cur, idx, q)
    requires p in tab && LowPath(path) && |tab[p].path| + |path| == 4
    ensures WalkFrom(u.ram, p, path) == WalkFrom(s.ram, p, path)
    decreases |path|
  {
    hide Entry, FrameOf;
    assert TableOk(s, tab, cur) && TableOk(s, tab, p);
    if p == cur && path[0] == idx {
      TableEntry(q);
      assert Entry(u.ram, q, path[1..][0]) == 0;
    } else {
      assert Entry(u.ram, p, path[0]) == Entry(s.ram, p, path[0]);
      if Entry(s.ram, p, path[0]) % 2 == 1 && |path| > 1 {
        var next := Follow(s, tab, p, path);
        HungKeepsWalks(s, tab, u, cur, idx, q, next, path[1..]);
      }
    }
  }

  /** Walks from any table that was there before are unchanged by `get_alloc_next`. */
  lemma {:induction false} GetAllocNextKeepsWalks(s: Phys, tab: Tables, cur: U64, idx: nat, p: nat, path: seq<nat>)
    requires WF(s, tab) && cur in tab && idx < 512 && Interior(tab[cur], idx)
    requires Entry(s.ram, cur, idx) % 2 == 1 || FreeSet(s.bits) != {}
    requires p in tab && LowPath(path) && |tab[p].path| + |path| == 4
    ensures WalkFrom(GetAllocNext(s, cur, idx).0.ram, p, path) == WalkFrom(s.ram, p, path)
  {
    if Entry(s.ram, cur, idx) % 2 == 0 {
      assert TableOk(s, tab, cur);
      AllocNextEffect(s, cur, idx);
      var (u, q) := GetAllocNext(s, cur, idx);
      HungKeepsWalks(s, tab, u, cur, idx, q, p, path);
    }
  }

  // ---- the leaf store ----

  lemma LeafStoreGrows(s: Phys, tab: Tables, p1: nat, i1: nat, e: U64)
    requires WF(s, tab) && p1 in tab && |tab[p1].path| == 3 && i1 < 512
    ensures Grew(s, tab, s.(ram := SetEntry(s.ram, p1, i1, e)), tab, 0)
  {
    hide Entry, SetEntry;
    assert TableOk(s, tab, p1);
    SetEntryEffect(s.ram, p1, i1, e);
    var t := s.(ram := SetEntry(s.ram, p1, i1, e));
    forall p | p in tab
      ensures TableOk(t, tab, p)
    {
      assert TableOk(s, tab, p);
      forall i: nat | i < 512 && Interior(tab[p], i)
        ensures EntryOk(t.ram, tab, p, i)
      {
        assert EntryOk(s.ram, tab, p, i);
      }
    }
  }

  /** A leaf store changes no walk that does not end in the stored slot. */
  lemma {:induction false} LeafStoreKeepsWalks(s: Phys, tab: Tables, p1: nat, i1: nat, e: U64, p: nat, path: seq<nat>)
    requires WF(s, tab) && p1 in tab && |tab[p1].path| == 3 && i1 < 512
    requires p in tab && LowPath(path) && |tab[p].path| + |path| == 4
    requires Pos(tab[p1].root, tab[p1].path + [i1]) != Pos(tab[p].root, tab[p].path + path)
    ensures WalkFrom(SetEntry(s.ram, p1, i1, e), p, path) == WalkFrom(s.ram, p, path)
    decreases |path|
  {
    hide Entry, SetEntry, FrameOf;
    assert TableOk(s, tab, p1) && TableOk(s, tab, p);
    SetEntryEffect(s.ram, p1, i1, e);
    if |path| == 1 {
      assert path == [path[0]];
    } else {
      assert Entry(SetEntry(s.ram, p1, i1, e), p, path[0]) == Entry(s.ram, p, path[0]);
      if Entry(s.ram, p, path[0]) % 2 == 1 {
        var next := Follow(s, tab, p, path);
        assert tab[next].path + path[1..] == tab[p].path + path;
        LeafStoreKeepsWalks(s, tab, p1, i1, e, next, path[1..]);
      }
    }
  }

  // ---- map_block ----

  /** `get_alloc_next` rewrites no entry that is present, of the kernel half, or of the last level. */
  lemma GetAllocNextKeepsEntries(s: Phys, tab: Tables, cur: U64, idx: nat)
    requires WF(s, tab) && cur in tab && idx < 512 && Interior(tab[cur], idx)
    requires Entry(s.ram, cur, idx) % 2 == 1 || FreeSet(s.bits) != {}
    ensures forall p: nat, i: nat :: p in tab && i < 512 && (Entry(s.ram, p, i) % 2 == 1 || !Interior(tab[p], i)) ==>
              Entry(GetAllocNext(s, cur, idx).0.ram, p, i) == Entry(s.ram, p, i)
  {
    if Entry(s.ram, cur, idx) % 2 == 0 {
      assert TableOk(s, tab, cur);
      AllocNextEffect(s, cur, idx);
      var (u, q) := GetAllocNext(s, cur, idx);
      TablesAreUsed(s, tab);
      forall p: nat, i: nat | p in tab && i < 512 && (Entry(s.ram, p, i) % 2 == 1 || !Interior(tab[p], i))
        ensures Entry(u.ram, p, i) == Entry(s.ram, p, i)
      {
        assert TableOk(s, tab, p);
      }
    }
  }

  /** One `get_alloc_next`, with everything the descent needs from it. */
  ghost predicate Stepped(s: Phys, tab: Tables, t: Phys, tab2: Tables, k: nat)
  {
    && Grew(s, tab, t, tab2, k)
    && (forall p: nat, i: nat :: p in tab && i < 512 && (Entry(s.ram, p, i) % 2 == 1 || !Interior(tab[p], i)) ==>
          Entry(t.ram, p, i) == Entry(s.ram, p, i))
    && (forall p: nat, path: seq<nat> :: p in tab && LowPath(path) && |tab[p].path| + |path| == 4 ==>
          WalkFrom(t.ram, p, path) == WalkFrom(s.ram, p, path))
    && (forall r: nat :: IsRoot(tab2, r) <==> IsRoot(tab, r))
  }

  lemma {:induction false} SteppedTrans(s: Phys, tab: Tables, t: Phys, tab2: Tables, u: Phys, tab3: Tables, j: nat,
                                        k: nat)
    requires Stepped(s, tab, t, tab2, j) && Stepped(t, tab2, u, tab3, k)
    ensures Stepped(s, tab, u, tab3, j + k)
  {
    GrewTrans(s, tab, t, tab2, u, tab3, j, k);
    forall p: nat, i: nat | p in tab && i < 512 && (Entry(s.ram, p, i) % 2 == 1 || !Interior(tab[p], i))
      ensures Entry(u.ram, p, i) == Entry(s.ram, p, i)
    {
      assert Entry(t.ram, p, i) == Entry(s.ram, p, i);
      assert p in tab2 && tab2[p] == tab[p];
    }
    forall p: nat, path: seq<nat> | p in tab && LowPath(path) && |tab[p].path| + |path| == 4
      ensures WalkFrom(u.ram, p, path) == WalkFrom(s.ram, p, path)
    {
      assert WalkFrom(t.ram, p, path) == WalkFrom(s.ram, p, path);
      assert p in tab2 && tab2[p] == tab[p];
    }
  }

  /** Blocks that one `get_alloc_next` takes. */
  function Taken(m: Ram, cur: nat, idx: nat): nat { if Entry(m, cur, idx) % 2 == 1 then 0 else 1 }

  /** The tables that are missing between the table `p` and the last level, along `path`. */
  function Missing(m: Ram, p: nat, path: seq<nat>): (k: nat)
    requires |path| > 0
    ensures k < |path|
    decreases |path|
  {
    if |path| == 1 then 0
    else if Entry(m, p, path[0]) % 2 == 0 then |path| - 1
    else Missing(m, FrameOf(Entry(m, p, path[0])), path[1..])
  }

  /** `get_alloc_next` takes a block exactly when the next table is missing, and then all below it are. */
  lemma {:induction false} MissingStep(s: Phys, tab: Tables, cur: U64, path: seq<nat>)
    requires WF(s, tab) && cur in tab && |path| > 1 && path[0] < 512 && path[1] < 512 && Interior(tab[cur], path[0])
    requires Entry(s.ram, cur, path[0]) % 2 == 1 || FreeSet(s.bits) != {}
    ensures var (t, q) := GetAllocNext(s, cur, path[0]);
            && Missing(t.ram, q, path[1..]) + Taken(s.ram, cur, path[0]) == Missing(s.ram, cur, path)
            && |FreeSet(t.bits)| + Taken(s.ram, cur, path[0]) == |FreeSet(s.bits)|
  {
    hide Entry, FreeSet, Align;
    assert TableOk(s, tab, cur);
    if Entry(s.ram, cur, path[0]) % 2 == 1 {
      assert EntryOk(s.ram, tab, cur, path[0]);
      var q := Entry(s.ram, cur, path[0]) - 7;
      assert TableOk(s, tab, q);
      TableEntry(q);
    } else {
      AllocNextEffect(s, cur, path[0]);
      PmallocOne(s);
      var (t, q) := GetAllocNext(s, cur, path[0]);
      assert Entry(t.ram, q, path[1..][0]) == 0;
    }
  }

  lemma {:induction false} StepDown(s: Phys, tab: Tables, cur: U64, path: seq<nat>)
    returns (t: Phys, q: U64, tab2: Tables, k: nat)
    requires WF(s, tab) && cur in tab && |path| > 1 && path[0] < 512 && path[1] < 512 && Interior(tab[cur], path[0])
    requires Missing(s.ram, cur, path) <= |FreeSet(s.bits)|
    ensures (t, q) == GetAllocNext(s, cur, path[0])
    ensures Stepped(s, tab, t, tab2, k)
    ensures Missing(t.ram, q, path[1..]) + k == Missing(s.ram, cur, path) && |FreeSet(t.bits)| + k == |FreeSet(s.bits)|
    ensures q in tab2 && tab2[q] == Pos(tab[cur].root, tab[cur].path + [path[0]])
    ensures Entry(t.ram, cur, path[0]) == q + 7 && FrameOf(q + 7) == q && (q + 7) % 2 == 1
  {
    var idx := path[0];
    k := Taken(s.ram, cur, idx);
    assert Entry(s.ram, cur, idx) % 2 == 1 || FreeSet(s.bits) != {} by {
      assert Entry(s.ram, cur, idx) % 2 == 0 ==> Missing(s.ram, cur, path) > 0;
    }
    MissingStep(s, tab, cur, path);
    t, q := GetAllocNext(s, cur, idx).0, GetAllocNext(s, cur, idx).1;
    tab2 := NextTables(s, tab, cur, idx);
    hide Missing, Taken;
    StepKeeps(s, tab, cur, idx);
    assert TableOk(t, tab2, q);
    TableEntry(q);
  }

  lemma {:induction false} StepKeeps(s: Phys, tab: Tables, cur: U64, idx: nat)
    requires WF(s, tab) && cur in tab && idx < 512 && Interior(tab[cur], idx)
    requires Entry(s.ram, cur, idx) % 2 == 1 || FreeSet(s.bits) != {}
    ensures var (t, q) := GetAllocNext(s, cur, idx);
            var tab2 := NextTables(s, tab, cur, idx);
            && Stepped(s, tab, t, tab2, Taken(s.ram, cur, idx))
            && q in tab2 && tab2[q] == Pos(tab[cur].root, tab[cur].path + [idx])
            && Entry(t.ram, cur, idx) == q + 7
  {
    var t, tab2 := GetAllocNext(s, cur, idx).0, NextTables(s, tab, cur, idx);
    GetAllocNextGrows(s, tab, cur, idx);
    GetAllocNextKeepsEntries(s, tab, cur, idx);
    forall p: nat, path: seq<nat> | p in tab && LowPath(path) && |tab[p].path| + |path| == 4
      ensures WalkFrom(t.ram, p, path) == WalkFrom(s.ram, p, path)
    {
      GetAllocNextKeepsWalks(s, tab, cur, idx, p, path);
    }
    forall r: nat
      ensures IsRoot(tab2, r) <==> IsRoot(tab, r)
    {
      assert r in tab ==> TableOk(s, tab, r);
      if Entry(s.ram, cur, idx) % 2 == 0 {
        FreshIsNew(s, tab);
      }
    }
  }

  /** The block that the allocator hands out next is not a table. */
  lemma FreshIsNew(s: Phys, tab: Tables)
    requires WF(s, tab) && FreeSet(s.bits) != {}
    ensures Pmalloc(s, 1).1 !in tab
  {
    PmallocOne(s);
    TablesAreUsed(s, tab);
  }

  lemma TablesAreUsed(s: Phys, tab: Tables)
    requires WF(s, tab)
    ensures forall p :: p in tab ==> p % 4096 == 0 && p / 4096 < Limit(s.bits) && !Free(s.bits, p / 4096)
  {
    forall p | p in tab
      ensures p % 4096 == 0 && p / 4096 < Limit(s.bits) && !Free(s.bits, p / 4096)
    {
      assert TableOk(s, tab, p);
    }
  }

  /** The tables p3, p2, p1 lead from `root` along `path`. */
  ghost predicate Chain(m: Ram, root: nat, path: seq<nat>, p3: nat, p2: nat, p1: nat)
    requires |path| == 4
  {
    && Entry(m, root, path[0]) == p3 + 7 && FrameOf(p3 + 7) == p3
    && Entry(m, p3, path[1]) == p2 + 7 && FrameOf(p2 + 7) == p2
    && Entry(m, p2, path[2]) == p1 + 7 && FrameOf(p1 + 7) == p1
    && (p3 + 7) % 2 == (p2 + 7) % 2 == (p1 + 7) % 2 == 1
  }

  /** The first two descents of `map_block`. */
  lemma {:induction false} DescendTwo(s: Phys, tab: Tables, root: U64, path: seq<nat>)
    returns (t2: Phys, p3: U64, p2: U64, tab2: Tables, k: nat)
    requires WF(s, tab) && IsRoot(tab, root) && tab[root].root == root && LowPath(path) && |path| == 4
    requires Missing(s.ram, root, path) <= |FreeSet(s.bits)|
    ensures var (t3, q3) := GetAllocNext(s, root, path[0]);
            q3 == p3 && (t2, p2) == GetAllocNext(t3, p3, path[1])
    ensures Stepped(s, tab, t2, tab2, k)
    ensures Missing(t2.ram, p2, path[2..]) + k == Missing(s.ram, root, path)
    ensures |FreeSet(t2.bits)| + k == |FreeSet(s.bits)|
    ensures p3 in tab2 && tab2[p3] == Pos(root, [path[0]]) && p2 in tab2 && tab2[p2] == Pos(root, [path[0], path[1]])
    ensures Entry(t2.ram, root, path[0]) == p3 + 7 && FrameOf(p3 + 7) == p3 && (p3 + 7) % 2 == 1
    ensures Entry(t2.ram, p3, path[1]) == p2 + 7 && FrameOf(p2 + 7) == p2 && (p2 + 7) % 2 == 1
  {
    hide Entry, GetAllocNext, WF, Missing, FreeSet;
    var t3, tab3, j, k2;
    t3, p3, tab3, j := StepDown(s, tab, root, path);
    assert tab3[p3].path == [path[0]];
    t2, p2, tab2, k2 := StepDown(t3, tab3, p3, path[1..]);
    k := j + k2;
    assert path[1..][1..] == path[2..];
    assert tab2[p2].path == [path[0], path[1]];
    SteppedTrans(s, tab, t3, tab3, t2, tab2, j, k2);
    assert root in tab3 && p3 in tab3;
    assert Entry(t2.ram, root, path[0]) == Entry(t3.ram, root, path[0]);
  }

  /** The three descents of `map_block`, which take one block for every table that is missing. */
  lemma {:induction false} Descend(s: Phys, tab: Tables, root: U64, path: seq<nat>)
    returns (s1: Phys, p3: U64, p2: U64, p1: U64, tab1: Tables)
    requires WF(s, tab) && IsRoot(tab, root) && tab[root].root == root && LowPath(path) && |path| == 4
    requires Missing(s.ram, root, path) <= |FreeSet(s.bits)|
    ensures var (t3, q3) := GetAllocNext(s, root, path[0]);
            var (t2, q2) := GetAllocNext(t3, q3, path[1]);
            (s1, p1) == GetAllocNext(t2, q2, path[2])
    ensures Stepped(s, tab, s1, tab1, Missing(s.ram, root, path))
    ensures |FreeSet(s1.bits)| + Missing(s.ram, root, path) == |FreeSet(s.bits)|
    ensures p3 in tab1 && |tab1[p3].path| == 1 && p2 in tab1 && |tab1[p2].path| == 2
    ensures p1 in tab1 && tab1[p1] == Pos(root, path[..3])
    ensures Chain(s1.ram, root, path, p3, p2, p1)
  {
    hide Entry, GetAllocNext, WF, FreeSet;
    var t2, tab2, j, k;
    t2, p3, p2, tab2, j := DescendTwo(s, tab, root, path);
    s1, p1, tab1, k := StepDown(t2, tab2, p2, path[2..]);
    assert |path[2..][1..]| == 1 && Missing(s1.ram, p1, path[2..][1..]) == 0;
    hide Missing;
    SteppedTrans(s, tab, t2, tab2, s1, tab1, j, k);
    assert tab1[p1].path == path[..3];
    assert root in tab2 && p3 in tab2;
    assert Entry(s1.ram, root, path[0]) == Entry(t2.ram, root, path[0]);
    assert Entry(s1.ram, p3, path[1]) == Entry(t2.ram, p3, path[1]);
  }

  lemma FollowChain(m: Ram, root: nat, path: seq<nat>, p3: nat, p2: nat, p1: nat)
    requires |path| == 4 && Chain(m, root, path, p3, p2, p1)
    requires Entry(m, p1, path[3]) % 2 == 1
    ensures WalkFrom(m, root, path) == Some(Entry(m, p1, path[3]))
  {
    assert path[1..][0] == path[1] && path[1..][1..] == path[2..] && path[2..][0] == path[2];
    assert path[2..][1..] == path[3..] && path[3..][0] == path[3];
    assert WalkFrom(m, p1, path[3..]) == Some(Entry(m, p1, path[3]));
    assert WalkFrom(m, p2, path[2..]) == WalkFrom(m, p1, path[3..]);
    assert WalkFrom(m, p3, path[1..]) == WalkFrom(m, p2, path[2..]);
  }

  lemma LeafReached(s: Phys, tab: Tables, root: nat, path: seq<nat>, p3: nat, p2: nat, p1: nat, e: U64)
    requires WF(s, tab) && |path| == 4 && Chain(s.ram, root, path, p3, p2, p1)
    requires forall k :: 0 <= k < 4 ==> path[k] < 512
    requires root in tab && tab[root].path == [] && p3 in tab && |tab[p3].path| == 1 && p2 in tab && |tab[p2].path| == 2
    requires p1 in tab && |tab[p1].path| == 3 && e % 2 == 1
    ensures WalkFrom(SetEntry(s.ram, p1, path[3], e), root, path) == Some(e)
  {
    hide Entry, SetEntry, FrameOf;
    assert TableOk(s, tab, p1);
    SetEntryEffect(s.ram, p1, path[3], e);
    LeafKeepsUpper(s, tab, p1, path[3], e);
    FollowChain(SetEntry(s.ram, p1, path[3], e), root, path, p3, p2, p1);
  }

  lemma {:induction false} MapBlockSteps(s: Phys, root: U64, virt: U64, phys: U64, flags: U64)
    ensures var path := Indices(virt);
            var (t3, p3) := GetAllocNext(s, root, path[0]);
            var (t2, p2) := GetAllocNext(t3, p3, path[1]);
            var (s1, p1) := GetAllocNext(t2, p2, path[2]);
            MapBlock(s, root, virt, phys, flags) == s1.(ram := SetEntry(s1.ram, p1, path[3], LeafEntry(phys, flags)))
  {
    hide GetAllocNext, SetEntry, LeafEntry, Align;
    AlignKeepsIndices(virt);
  }

  /** The main law of `map_block`, for a low address and a free block for each table that is missing
      on its path: the page of `virt` in this space now has exactly the requested entry; every other
      page, of this space and of every other, translates as before; the kernel half of every root
      keeps its entries; and the missing tables are all that memory is taken for. */
  lemma {:induction false} MapBlockRefines(s: Phys, tab: Tables, root: U64, virt: U64, phys: U64, flags: U64)
    returns (tab2: Tables)
    requires WF(s, tab) && IsRoot(tab, root) && Low(virt)
    requires Missing(s.ram, root, Indices(virt)) <= |FreeSet(s.bits)|
    ensures var t := MapBlock(s, root, virt, phys, flags);
            && Grew(s, tab, t, tab2, Missing(s.ram, root, Indices(virt)))
            && |FreeSet(t.bits)| + Missing(s.ram, root, Indices(virt)) == |FreeSet(s.bits)|
            && (forall r: nat :: IsRoot(tab2, r) <==> IsRoot(tab, r))
            && (forall r: nat, v: U64 :: IsRoot(tab, r) && Low(v) ==>
                  Walk(t.ram, r, v) ==
                    if r == root && PageNo(v) == PageNo(virt) then Some(LeafEntry(phys, flags)) else Walk(s.ram, r, v))
            && (forall r: nat, i: nat :: IsRoot(tab, r) && 256 <= i < 512 ==> Entry(t.ram, r, i) == Entry(s.ram, r, i))
  {
    hide Entry, SetEntry, LeafEntry, GetAllocNext, PageNo, MapBlock, Idx, Free, FreeSet, EntryOk, Missing;
    MapBlockSteps(s, root, virt, phys, flags);
    var path := Indices(virt);
    assert TableOk(s, tab, root);
    var s1, p3, p2, p1, tab1 := Descend(s, tab, root, path);
    var e := LeafEntry(phys, flags);
    var t := MapBlock(s, root, virt, phys, flags);
    assert t == s1.(ram := SetEntry(s1.ram, p1, path[3], e));
    tab2 := tab1;
    LeafStoreGrows(s1, tab1, p1, path[3], e);
    GrewTrans(s, tab, s1, tab1, t, tab1, Missing(s.ram, root, path), 0);
    LeafKeepsUpper(s1, tab1, p1, path[3], e);
    LeafReached(s1, tab1, root, path, p3, p2, p1, e);
    forall r: nat, v: U64 | IsRoot(tab, r) && Low(v)
      ensures Walk(t.ram, r, v) == if r == root && PageNo(v) == PageNo(virt) then Some(e) else Walk(s.ram, r, v)
    {
      SamePageIff(v, virt);
      assert TableOk(s, tab, r);
      assert WalkFrom(s1.ram, r, Indices(v)) == WalkFrom(s.ram, r, Indices(v));
      if !(r == root && PageNo(v) == PageNo(virt)) {
        LeafElsewhere(s1, tab1, p1, path, e, root, r, v);
      }
    }
    forall r: nat, i: nat | IsRoot(tab, r) && 256 <= i < 512
      ensures Entry(t.ram, r, i) == Entry(s.ram, r, i)
    {
      assert r in tab1 && tab1[r] == tab[r];
      assert Entry(t.ram, r, i) == Entry(s1.ram, r, i);
    }
  }

  /** The same with three blocks to spare, which is enough for any address. */
  lemma MapBlockSpare(s: Phys, tab: Tables, root: U64, virt: U64, phys: U64, flags: U64) returns (tab2: Tables)
    requires WF(s, tab) && IsRoot(tab, root) && Low(virt) && |FreeSet(s.bits)| >= 3
    ensures var t := MapBlock(s, root, virt, phys, flags);
            && Grew(s, tab, t, tab2, 3)
            && (forall r: nat :: IsRoot(tab2, r) <==> IsRoot(tab, r))
            && (forall r: nat, v: U64 :: IsRoot(tab, r) && Low(v) ==>
                  Walk(t.ram, r, v) ==
                    if r == root && PageNo(v) == PageNo(virt) then Some(LeafEntry(phys, flags)) else Walk(s.ram, r, v))
            && (forall r: nat, i: nat :: IsRoot(tab, r) && 256 <= i < 512 ==> Entry(t.ram, r, i) == Entry(s.ram, r, i))
  {
    hide MapBlock, Walk, LeafEntry, Entry, PageNo, WF, Low, Missing;
    tab2 := MapBlockRefines(s, tab, root, virt, phys, flags);
  }

  /** A leaf store rewrites no entry of the upper three levels. */
  lemma LeafKeepsUpper(s: Phys, tab: Tables, p1: nat, i1: nat, e: U64)
    requires WF(s, tab) && p1 in tab && |tab[p1].path| == 3 && i1 < 512
    ensures forall p: nat, i: nat :: p in tab && i < 512 && |tab[p].path| < 3 ==>
              Entry(SetEntry(s.ram, p1, i1, e), p, i) == Entry(s.ram, p, i)
  {
    TablesAreUsed(s, tab);
    assert TableOk(s, tab, p1);
    SetEntryEffect(s.ram, p1, i1, e);
  }

  lemma {:induction false} LeafElsewhere(s: Phys, tab: Tables, p1: nat, path: seq<nat>, e: U64, root: nat, r: nat,
                                         v: U64)
    requires WF(s, tab) && LowPath(path) && |path| == 4 && p1 in tab && tab[p1] == Pos(root, path[..3])
    requires r in tab && tab[r] == Pos(r, []) && Low(v) && !(r == root && Indices(v) == path)
    ensures Walk(SetEntry(s.ram, p1, path[3], e), r, v) == Walk(s.ram, r, v)
  {
    assert path[..3] + [path[3]] == path;
    assert tab[r].path + Indices(v) == Indices(v);
    LeafStoreKeepsWalks(s, tab, p1, path[3], e, r, Indices(v));
  }

  /** With no block free, a missing table is not noticed: the entry points to address 0. */
  lemma GetAllocNextUncheckedFailure(s: Phys, cur: U64, idx: nat)
    requires Entry(s.ram, cur, idx) % 2 == 0 && FreeSet(s.bits) == {}
    ensures var u := GetAllocNext(s, cur, idx).0;
            u.bits == s.bits && u.ram == SetEntry(s.ram, cur, idx, 7)
  {
    hide Entry, SetEntry, Or64;
    PmallocOneFails(s);
    OrSeven(0);
  }

  // ---- the tables in memory ----

  class VirtualMemory {
    const pm: PhysicalMemory
    var basePml4: U64
    var startPml4: U64

    /** vmm_init, given the root in use; pointer arithmetic on 8-byte entries */
    constructor (pm: PhysicalMemory, cr3: U64)
      ensures this.pm == pm && basePml4 == cr3 && startPml4 == Wrap64(cr3 + 2048)
    {
      this.pm := pm;
      basePml4 := cr3;
      startPml4 := Wrap64(cr3 + 256 * 8);
    }

    /** newpml4 */
    method NewRoot() returns (pml4: U64)
      requires pm.Valid()
      modifies pm.pmmMap, pm.ram
      ensures (pm.State(), pml4) == NewPml4(old(pm.State()), startPml4)
    {
      hide MemSet, MemCpy, Pmalloc;
      pml4 := pm.Allocate(1);
      pm.SetBytes(pml4, 0, 2048);
      pm.CopyBytes(pml4 + 2048, startPml4, 2048);
    }

    method NextTable(cur: U64, idx: nat) returns (next: U64)
      requires pm.Valid()
      modifies pm.pmmMap, pm.ram
      ensures (pm.State(), next) == GetAllocNext(old(pm.State()), cur, idx)
    {
      hide StoreWord, Or64;
      var e := pm.ReadWord(cur + 8 * idx);
      if e % 2 == 0 {
        var a := pm.Allocate(1);
        pm.WriteWord(cur + 8 * idx, Or64(Or64(Or64(a, PRESENT), WRITABLE), USER));
        e := pm.ReadWord(cur + 8 * idx);
      }
      next := Align(e);
    }

    /** map_block */
    method Map(pt: U64, virt: U64, phys: U64, flags: U64)
      requires pm.Valid()
      modifies pm.pmmMap, pm.ram
      ensures pm.State() == MapBlock(old(pm.State()), pt, virt, phys, flags)
    {
      hide StoreWord, Or64, GetAllocNext;
      var v, frame := Align(virt), Align(phys);
      var p3 := NextTable(pt, Idx(v, 4));
      var p2 := NextTable(p3, Idx(v, 3));
      var p1 := NextTable(p2, Idx(v, 2));
      pm.WriteWord(p1 + 8 * Idx(v, 1), Or64(Or64(frame, flags), PRESENT));
    }
  }
}
