/** Address spaces over whole runs: the tables built by newpml4 and map_block
    (kernel/mem/vmm_mem.c) refine one finite map per root, and the spaces stay apart. */
module Spaces {
  import opened Words
  import opened Memory
  import opened Bitmap
  import opened Pmm
  import opened Vmm

  /** The kernel's own top-level table: a used page that is none of ours. */
  ghost predicate KernelPage(s: Phys, tab: Tables, base: nat)
  {
    base % 4096 == 0 && base + 4096 <= |s.ram| && !Free(s.bits, base / 4096) && base !in tab
  }

  /** From `m` to `n` the page at `a` becomes zeros below its middle and a copy of the page at
      `base` above; the other bytes stay. */
  ghost predicate Pml4Shape(m: Ram, n: Ram, a: nat, base: nat)
  {
    && |n| == |m| && a + 4096 <= |m| && base + 4096 <= |m|
    && (base + 4096 <= a || a + 4096 <= base)
    && (forall b: nat :: b < |m| && !(a <= b < a + 4096) ==> n[b] == m[b])
    && (forall b: nat :: a <= b < a + 2048 ==> n[b] == 0)
    && (forall b: nat :: a + 2048 <= b < a + 4096 ==> n[b] == m[b - a + base])
  }

  lemma Pml4Filled(m: Ram, a: U64, base: U64)
    requires a + 4096 <= |m| <= TWO64 && base + 4096 <= |m|
    requires base + 4096 <= a || a + 4096 <= base
    ensures Pml4Shape(m, MemCpy(MemSet(m, a, 0, 2048), a + 2048, base + 2048, 2048), a, base)
  {
    var z := MemSet(m, a, 0, 2048);
    MemSetRange(m, a, 0, 2048);
    MemCpyDisjoint(z, a + 2048, base + 2048, 2048);
    var n := MemCpy(z, a + 2048, base + 2048, 2048);
    forall b: nat | a + 2048 <= b < a + 4096
      ensures n[b] == m[b - a + base]
    {
      assert n[b] == z[b - (a + 2048) + (base + 2048)];
      assert b - (a + 2048) + (base + 2048) == b - a + base;
    }
  }

  lemma Pml4Shaped(s: Phys, tab: Tables, base: U64)
    requires Covered(s) && FreeSet(s.bits) != {} && KernelPage(s, tab, base) && base + 2048 < TWO64
    ensures var (t, a) := NewPml4(s, base + 2048);
            a == Pmalloc(s, 1).1 && t.bits == Pmalloc(s, 1).0.bits && Pml4Shape(s.ram, t.ram, a, base)
  {
    hide Pmalloc, MemSet, MemCpy, Limit, Pml4Shape, FreeSet;
    PageTaken(s);
    var (t0, a) := Pmalloc(s, 1);
    BaseIsOther(s, tab, base, a);
    PagesApart(a, base);
    Pml4Filled(t0.ram, a, base);
    ShapeAfterZeroing(s.ram, t0.ram, NewPml4(s, base + 2048).0.ram, a, base);
  }

  /** What a one-block request does to memory. */
  lemma PageTaken(s: Phys)
    requires Covered(s) && FreeSet(s.bits) != {}
    ensures var (t, a) := Pmalloc(s, 1);
            && a % 4096 == 0 && Free(s.bits, a / 4096) && a + 4096 <= |s.ram| == |t.ram|
            && forall b: nat :: b < |s.ram| && !(a <= b < a + 4096) ==> t.ram[b] == s.ram[b]
  {
    hide Pmalloc;
    PmallocOne(s);
  }

  lemma BaseIsOther(s: Phys, tab: Tables, base: nat, a: nat)
    requires KernelPage(s, tab, base) && Free(s.bits, a / 4096)
    ensures a != base
  {
  }

  lemma ShapeAfterZeroing(m: Ram, z: Ram, n: Ram, a: nat, base: nat)
    requires Pml4Shape(z, n, a, base) && |z| == |m|
    requires forall b: nat :: b < |m| && !(a <= b < a + 4096) ==> z[b] == m[b]
    ensures Pml4Shape(m, n, a, base)
  {
    forall b: nat | a + 2048 <= b < a + 4096
      ensures n[b] == m[b - a + base]
    {
      assert n[b] == z[b - a + base];
    }
  }

  /** The entries of a new top-level table: the low half is empty and the kernel half is the
      kernel's; no entry of any other page changes. */
  lemma Pml4Entries(m: Ram, n: Ram, a: nat, base: nat)
    requires Pml4Shape(m, n, a, base) && a % 4096 == 0
    ensures forall i: nat :: i < 256 ==> Entry(n, a, i) == 0
    ensures forall i: nat :: 256 <= i < 512 ==> Entry(n, a, i) == Entry(m, base, i)
    ensures forall p: nat, i: nat :: p % 4096 == 0 && p != a && i < 512 ==> Entry(n, p, i) == Entry(m, p, i)
  {
    forall i: nat | i < 256
      ensures Entry(n, a, i) == 0
    {
      ZeroLE(n, a + 8 * i, 8);
    }
    forall i: nat | 256 <= i < 512
      ensures Entry(n, a, i) == Entry(m, base, i)
    {
      forall b | a + 8 * i <= b < a + 8 * i + 8
        ensures n[b] == m[b - (a + 8 * i) + (base + 8 * i)]
      {
        assert b - (a + 8 * i) + (base + 8 * i) == b - a + base;
      }
      ShiftedLE(n, m, a + 8 * i, base + 8 * i, 8);
    }
    forall p: nat, i: nat | p % 4096 == 0 && p != a && i < 512
      ensures Entry(n, p, i) == Entry(m, p, i)
    {
      assert p + 4096 <= a || a + 4096 <= p by {
        assert p == 4096 * (p / 4096) && a == 4096 * (a / 4096);
      }
      WordSame(n, m, p + 8 * i);
    }
  }

  /** A walk changes only when some entry on the tables it can visit changes. */
  lemma {:induction false} WalkSame(s: Phys, tab: Tables, m: Ram, p: nat, path: seq<nat>)
    requires WF(s, tab) && p in tab && LowPath(path) && |tab[p].path| + |path| == 4
    requires forall q: nat, i: nat :: q in tab && i < 512 ==> Entry(m, q, i) == Entry(s.ram, q, i)
    ensures WalkFrom(m, p, path) == WalkFrom(s.ram, p, path)
    decreases |path|
  {
    assert Entry(m, p, path[0]) == Entry(s.ram, p, path[0]);
    if |path| > 1 && Entry(s.ram, p, path[0]) % 2 == 1 {
      var q := Follow(s, tab, p, path);
      WalkSame(s, tab, m, q, path[1..]);
    }
  }

  /** Tables whose entries all carry over are still a tree, with the same walks. */
  lemma SameEntriesWF(s: Phys, tab: Tables, t: Phys)
    requires WF(s, tab) && |t.bits| == |s.bits| && |t.ram| == |s.ram|
    requires forall q: nat :: Free(t.bits, q) ==> Free(s.bits, q)
    requires forall p: nat, i: nat :: p in tab && i < 512 ==> Entry(t.ram, p, i) == Entry(s.ram, p, i)
    ensures WF(t, tab)
    ensures forall r: nat, v: U64 :: IsRoot(tab, r) && Low(v) ==> Walk(t.ram, r, v) == Walk(s.ram, r, v)
  {
    hide Entry;
    forall p | p in tab
      ensures TableOk(t, tab, p)
    {
      assert TableOk(s, tab, p);
      forall i: nat | i < 512 && Interior(tab[p], i)
        ensures EntryOk(t.ram, tab, p, i)
      {
        assert EntryOk(s.ram, tab, p, i);
      }
    }
    forall r: nat, v: U64 | IsRoot(tab, r) && Low(v)
      ensures Walk(t.ram, r, v) == Walk(s.ram, r, v)
    {
      WalkSame(s, tab, t.ram, r, Indices(v));
    }
  }

  /** newpml4: one more root, mapping nothing below the kernel half; nothing else changes. */
  lemma {:induction false} NewPml4Refines(s: Phys, tab: Tables, base: U64) returns (tab2: Tables)
    requires WF(s, tab) && FreeSet(s.bits) != {} && KernelPage(s, tab, base) && base + 2048 < TWO64
    ensures var (t, a) := NewPml4(s, base + 2048);
            && a == Pmalloc(s, 1).1 && a !in tab && tab2 == tab[a := Pos(a, [])]
            && Grew(s, tab, t, tab2, 1)
            && (forall v: U64 :: Low(v) ==> Walk(t.ram, a, v) == None)
            && (forall r: nat, v: U64 :: IsRoot(tab, r) && Low(v) ==> Walk(t.ram, r, v) == Walk(s.ram, r, v))
            && (forall i: nat :: 256 <= i < 512 ==> Entry(t.ram, a, i) == Entry(s.ram, base, i))
            && (forall r: nat, i: nat :: r in tab && i < 512 ==> Entry(t.ram, r, i) == Entry(s.ram, r, i))
  {
    PmallocOne(s);
    Pml4Shaped(s, tab, base);
    FreshIsNew(s, tab);
    TablesAreUsed(s, tab);
    var (t, a) := NewPml4(s, base + 2048);
    tab2 := tab[a := Pos(a, [])];
    Pml4Entries(s.ram, t.ram, a, base);
    RootAdded(s, tab, t, a);
    forall v: U64 | Low(v)
      ensures Walk(t.ram, a, v) == None
    {
      assert Entry(t.ram, a, Indices(v)[0]) == 0;
    }
    forall r: nat, v: U64 | IsRoot(tab, r) && Low(v)
      ensures Walk(t.ram, r, v) == Walk(s.ram, r, v)
    {
      WalkSame(s, tab, t.ram, r, Indices(v));
    }
  }

  lemma RootAdded(s: Phys, tab: Tables, t: Phys, a: nat)
    requires WF(s, tab) && a !in tab && a % 4096 == 0 && a / 4096 < Limit(s.bits) && Free(s.bits, a / 4096)
    requires |t.bits| == |s.bits| && |t.ram| == |s.ram|
    requires forall q: nat :: Free(t.bits, q) <==> Free(s.bits, q) && q != a / 4096
    requires FreeSet(t.bits) == FreeSet(s.bits) - {a / 4096}
    requires forall i: nat :: i < 256 ==> Entry(t.ram, a, i) == 0
    requires forall p: nat, i: nat :: p % 4096 == 0 && p != a && i < 512 ==> Entry(t.ram, p, i) == Entry(s.ram, p, i)
    requires forall b: nat :: b < |s.ram| && !(a <= b < a + 4096) ==> t.ram[b] == s.ram[b]
    ensures Grew(s, tab, t, tab[a := Pos(a, [])], 1)
  {
    var tab2 := tab[a := Pos(a, [])];
    forall p | p in tab2
      ensures TableOk(t, tab2, p)
    {
      if p != a {
        assert TableOk(s, tab, p);
        forall i: nat | i < 512 && Interior(tab2[p], i)
          ensures EntryOk(t.ram, tab2, p, i)
        {
          assert EntryOk(s.ram, tab, p, i);
        }
      }
    }
    forall b: nat | b < |s.ram| && !Free(s.bits, b / 4096)
      ensures t.ram[b] == s.ram[b]
    {
      assert b / 4096 != a / 4096;
    }
  }

  // ---- runs ----

  /** Physical memory, and for every root the finite map that its tables stand for: from virtual
      page to the entry last mapped there. */
  datatype Vm = Vm(s: Phys, spaces: map<nat, map<nat, U64>>)

  datatype VmOp = NewSpace | MapPage(root: U64, virt: U64, phys: U64, flags: U64)

  function MapIn(spaces: map<nat, map<nat, U64>>, root: nat, page: nat, e: U64): map<nat, map<nat, U64>>
  {
    var m: map<nat, U64> := if root in spaces then spaces[root] else map[];
    spaces[root := m[page := e]]
  }

  /** `start` is the kernel's upper half, as `vmm_init` sets it: 2048 bytes into its top-level table. */
  function Play(vm: Vm, start: U64, op: VmOp): Vm
  {
    match op
    case NewSpace =>
      var (t, a) := NewPml4(vm.s, start);
      Vm(t, vm.spaces[a := map[]])
    case MapPage(root, virt, phys, flags) =>
      Vm(MapBlock(vm.s, root, virt, phys, flags), MapIn(vm.spaces, root, PageNo(virt), LeafEntry(phys, flags)))
  }

  function PlayAll(vm: Vm, start: U64, ops: seq<VmOp>): Vm
    decreases |ops|
  {
    if ops == [] then vm else PlayAll(Play(vm, start, ops[0]), start, ops[1..])
  }

  /** The call finds the blocks it needs, one for a new root and one for every table that is missing
      on the path of a page; a mapping is for a root made before and a page below the kernel half. */
  predicate Served(vm: Vm, op: VmOp)
  {
    match op
    case NewSpace => FreeSet(vm.s.bits) != {}
    case MapPage(root, virt, _, _) =>
      root in vm.spaces && Low(virt) && Missing(vm.s.ram, root, Indices(virt)) <= |FreeSet(vm.s.bits)|
  }

  /** No call of the run meets a failed allocation. */
  predicate Proper(vm: Vm, start: U64, ops: seq<VmOp>)
    decreases |ops|
  {
    ops != [] ==>
      && Served(vm, ops[0])
      && Proper(Play(vm, start, ops[0]), start, ops[1..])
  }

  function Lookup(m: map<nat, U64>, page: nat): Option<U64> { if page in m then Some(m[page]) else None }

  /** The tables agree with the finite maps; whatever was in use when `s0` had no spaces yet is as it
      was; and the kernel half of every root is what the kernel's own table held then. */
  ghost predicate Refines(s0: Phys, vm: Vm, tab: Tables, base: nat)
  {
    && WF(vm.s, tab)
    && KernelPage(s0, map[], base) && Framed(s0, map[], vm.s, tab)
    && (forall r: nat :: r in vm.spaces <==> IsRoot(tab, r))
    && (forall r: nat, v: U64 :: r in vm.spaces && Low(v) ==> Walk(vm.s.ram, r, v) == Lookup(vm.spaces[r], PageNo(v)))
    && UpperIs(vm.s.ram, tab, s0.ram, base)
  }

  /** Before the first newpml4 there are no spaces, and the kernel's own table is just a used page. */
  lemma NoSpaces(s: Phys, base: nat)
    requires Covered(s) && KernelPage(s, map[], base)
    ensures Refines(s, Vm(s, map[]), map[], base)
  {
  }

  lemma KernelPageKept(s: Phys, tab: Tables, t: Phys, tab2: Tables, base: nat)
    requires Framed(s, tab, t, tab2) && KernelPage(s, tab, base)
    ensures KernelPage(t, tab2, base)
    ensures forall i: nat :: i < 512 ==> Entry(t.ram, base, i) == Entry(s.ram, base, i)
  {
    forall i: nat | i < 512
      ensures Entry(t.ram, base, i) == Entry(s.ram, base, i)
    {
      forall b | base + 8 * i <= b < base + 8 * i + 8
        ensures t.ram[b] == s.ram[b]
      {
        assert b / 4096 == base / 4096 && 4096 * (b / 4096) == base;
      }
      WordSame(t.ram, s.ram, base + 8 * i);
    }
  }

  lemma {:induction false} PlayNewRefines(s0: Phys, vm: Vm, tab: Tables, start: U64) returns (tab2: Tables)
    requires start >= 2048 && Refines(s0, vm, tab, start - 2048) && FreeSet(vm.s.bits) != {}
    ensures Refines(s0, Play(vm, start, NewSpace), tab2, start - 2048)
  {
    hide NewPml4, Walk, Entry, WF, Framed, KernelPage, Grew;
    KernelPageKept(s0, map[], vm.s, tab, start - 2048);
    tab2 := NewPml4Refines(vm.s, tab, start - 2048);
    var (t, a) := NewPml4(vm.s, start);
    FramedOn(s0, vm.s, tab, t, tab2, 1);
    var w := Play(vm, start, NewSpace);
    assert w == Vm(t, vm.spaces[a := map[]]);
    forall r: nat, v: U64 | r in w.spaces && Low(v)
      ensures Walk(w.s.ram, r, v) == Lookup(w.spaces[r], PageNo(v))
    {
      assert r != a ==> IsRoot(tab, r);
    }
    forall r: nat, i: nat | IsRoot(tab2, r) && 256 <= i < 512
      ensures Entry(w.s.ram, r, i) == Entry(s0.ram, start - 2048, i)
    {
      assert r != a ==> IsRoot(tab, r) && Entry(t.ram, r, i) == Entry(vm.s.ram, r, i);
    }
  }

  lemma FramedOn(s0: Phys, s: Phys, tab: Tables, t: Phys, tab2: Tables, k: nat)
    requires Framed(s0, map[], s, tab) && Grew(s, tab, t, tab2, k)
    ensures Framed(s0, map[], t, tab2) && WF(t, tab2)
  {
    hide Framed, WF;
    GrewFrames(s, tab, t, tab2, k);
    FramedTrans(s0, map[], s, tab, t, tab2);
  }

  lemma {:induction false} PlayMapRefines(s0: Phys, vm: Vm, tab: Tables, start: U64, op: VmOp) returns (tab2: Tables)
    requires start >= 2048 && Refines(s0, vm, tab, start - 2048) && op.MapPage? && Served(vm, op)
    ensures Refines(s0, Play(vm, start, op), tab2, start - 2048)
  {
    hide MapBlock, Walk, Entry, LeafEntry, WF, Missing, Framed, KernelPage, Grew;
    tab2 := MapBlockRefines(vm.s, tab, op.root, op.virt, op.phys, op.flags);
    var w := Play(vm, start, op);
    FramedOn(s0, vm.s, tab, w.s, tab2, Missing(vm.s.ram, op.root, Indices(op.virt)));
    MappedRefines(s0, vm, tab, w, tab2, start - 2048, op);
  }

  lemma MappedRefines(s0: Phys, vm: Vm, tab: Tables, w: Vm, tab2: Tables, base: nat, op: VmOp)
    requires Refines(s0, vm, tab, base) && op.MapPage? && op.root in vm.spaces
    requires w.spaces == MapIn(vm.spaces, op.root, PageNo(op.virt), LeafEntry(op.phys, op.flags))
    requires WF(w.s, tab2) && Framed(s0, map[], w.s, tab2)
    requires forall r: nat :: IsRoot(tab2, r) <==> IsRoot(tab, r)
    requires forall r: nat, v: U64 :: IsRoot(tab, r) && Low(v) ==>
               Walk(w.s.ram, r, v) ==
                 if r == op.root && PageNo(v) == PageNo(op.virt) then Some(LeafEntry(op.phys, op.flags))
                 else Walk(vm.s.ram, r, v)
    requires forall r: nat, i: nat :: IsRoot(tab, r) && 256 <= i < 512 ==> Entry(w.s.ram, r, i) == Entry(vm.s.ram, r, i)
    ensures Refines(s0, w, tab2, base)
  {
    hide Framed, KernelPage, WF, Entry, Walk;
    forall r: nat, v: U64 | r in w.spaces && Low(v)
      ensures Walk(w.s.ram, r, v) == Lookup(w.spaces[r], PageNo(v))
    {
      assert IsRoot(tab, r);
    }
  }

  /** After any run of newpml4 and map_block calls in which no allocation fails, however long, the walk
      of every low page in every space is the entry last mapped there by that space, or nothing; the
      kernel half of every space is what the kernel's table held at the start; and every page in use
      at the start has every byte it had. */
  lemma {:induction false} RunsRefine(s0: Phys, vm: Vm, tab: Tables, start: U64, ops: seq<VmOp>) returns (tab2: Tables)
    requires start >= 2048 && Refines(s0, vm, tab, start - 2048) && Proper(vm, start, ops)
    ensures Refines(s0, PlayAll(vm, start, ops), tab2, start - 2048)
    decreases |ops|
  {
    hide Refines, Served;
    tab2 := tab;
    if ops != [] {
      var w := Play(vm, start, ops[0]);
      tab2 := PlayRefines(s0, vm, tab, start, ops[0]);
      tab2 := RunsRefine(s0, w, tab2, start, ops[1..]);
    }
  }

  lemma PlayRefines(s0: Phys, vm: Vm, tab: Tables, start: U64, op: VmOp) returns (tab2: Tables)
    requires start >= 2048 && Refines(s0, vm, tab, start - 2048) && Served(vm, op)
    ensures Refines(s0, Play(vm, start, op), tab2, start - 2048)
  {
    hide Refines;
    if op.NewSpace? {
      tab2 := PlayNewRefines(s0, vm, tab, start);
    } else {
      tab2 := PlayMapRefines(s0, vm, tab, start, op);
    }
  }

  // ---- the spaces share no table ----

  /** The table reached from `p` along `path`. */
  function TableAt(m: Ram, p: nat, path: seq<nat>): Option<nat>
    decreases |path|
  {
    if path == [] then Some(p)
    else if Entry(m, p, path[0]) % 2 == 0 then None
    else TableAt(m, FrameOf(Entry(m, p, path[0])), path[1..])
  }

  /** A prefix of a low path: it ends at one of the four tables of a walk. */
  predicate TablePath(path: seq<nat>)
  {
    |path| <= 3 && (forall k :: 0 <= k < |path| ==> path[k] < 512) && (path != [] ==> path[0] < 256)
  }

  /** The tables on the way of a walk are at the prefixes of its path, and the last has its entry. */
  lemma {:induction false} WalkPasses(m: Ram, root: nat, v: U64, k: nat)
    requires Low(v) && k <= 3 && Walk(m, root, v).Some?
    ensures var path := Indices(v);
            && TablePath(path[..k]) && TableAt(m, root, path[..k]).Some?
            && (k == 3 ==> Walk(m, root, v) == Some(Entry(m, TableAt(m, root, path[..k]).value, path[3])))
  {
    PrefixPasses(m, root, Indices(v), k);
  }

  lemma {:induction false} PrefixPasses(m: Ram, p: nat, path: seq<nat>, k: nat)
    requires k < |path| && WalkFrom(m, p, path).Some?
    ensures var q := TableAt(m, p, path[..k]);
            && q.Some?
            && (k == |path| - 1 ==> WalkFrom(m, p, path) == Some(Entry(m, q.value, path[k])))
    decreases k
  {
    hide Entry, FrameOf;
    if k > 0 {
      PrefixPasses(m, FrameOf(Entry(m, p, path[0])), path[1..], k - 1);
      assert path[..k][0] == path[0] && path[..k][1..] == path[1..][..k - 1];
    }
  }

  lemma {:induction false} TableAtPosition(s: Phys, tab: Tables, p: nat, path: seq<nat>)
    requires WF(s, tab) && p in tab && |tab[p].path| + |path| <= 3
    requires TablePath(tab[p].path + path)
    requires TableAt(s.ram, p, path).Some?
    ensures var q := TableAt(s.ram, p, path).value; q in tab && tab[q] == Pos(tab[p].root, tab[p].path + path)
    decreases |path|
  {
    hide Entry, FrameOf, Limit;
    if path == [] {
      assert tab[p].path + path == tab[p].path;
    } else {
      assert TableOk(s, tab, p);
      var full := tab[p].path + path;
      assert full[|tab[p].path|] == path[0];
      assert EntryOk(s.ram, tab, p, path[0]);
      var q := Entry(s.ram, p, path[0]) - 7;
      assert TableOk(s, tab, q);
      TableEntry(q);
      assert tab[q].path + path[1..] == full;
      TableAtPosition(s, tab, q, path[1..]);
    }
  }

  /** The tables below the roots form disjoint trees: one page is reached from one root only, and
      along one path only. */
  lemma TablesDisjoint(s: Phys, tab: Tables, r1: nat, path1: seq<nat>, r2: nat, path2: seq<nat>)
    requires WF(s, tab) && IsRoot(tab, r1) && IsRoot(tab, r2) && TablePath(path1) && TablePath(path2)
    requires TableAt(s.ram, r1, path1).Some? && TableAt(s.ram, r1, path1) == TableAt(s.ram, r2, path2)
    ensures r1 == r2 && path1 == path2
  {
    assert TableOk(s, tab, r1) && TableOk(s, tab, r2);
    assert tab[r1].path + path1 == path1 && tab[r2].path + path2 == path2;
    TableAtPosition(s, tab, r1, path1);
    TableAtPosition(s, tab, r2, path2);
  }
}
