/** Kernel addresses: the upper half of every address space, whose tables the bootloader built
    (kernel/mem/vmm_mem.c:24-29), stays the kernel's over every run. */
module KernelHalf {
  import opened Words
  import opened Memory
  import opened Bitmap
  import opened Pmm
  import opened Vmm
  import opened Spaces

  /** Where the processor's walk ends: the entry, and how many levels it maps. */
  datatype Stop = Stop(entry: U64, level: nat)

  /** The page-size bit, which ends a walk at level 3 or 2 (AMD64 Architecture Programmer's Manual,
      volume 2, section 5.3). */
  predicate Large(e: U64) { e / 128 % 2 == 1 }

  /** The walk of the processor goes on below an entry with `n` levels left. */
  predicate GoesOn(e: U64, n: nat) { e % 2 == 1 && n > 1 && !(n <= 3 && Large(e)) }

  /** The processor's walk, large pages included. */
  function FullWalk(m: Ram, p: nat, path: seq<nat>): Option<Stop>
    requires |path| > 0
    decreases |path|
  {
    var e := Entry(m, p, path[0]);
    if e % 2 == 0 then None
    else if GoesOn(e, |path|) then FullWalk(m, FrameOf(e), path[1..])
    else Some(Stop(e, |path|))
  }

  /** The processor's walk, step by step: bit 7 of an entry at level 3 or 2 ends it there. */
  lemma {:induction false} FullWalkIs(m: Ram, root: nat, v: U64)
    ensures var e4 := Word(m, root + 8 * (v / 0x80_0000_0000 % 512));
            var e3 := Word(m, FrameOf(e4) + 8 * (v / 0x4000_0000 % 512));
            var e2 := Word(m, FrameOf(e3) + 8 * (v / 0x20_0000 % 512));
            var e1 := Word(m, FrameOf(e2) + 8 * (v / 4096 % 512));
            FullWalk(m, root, Indices(v)) ==
            if e4 % 2 == 0 || e3 % 2 == 0 then None
            else if e3 / 128 % 2 == 1 then Some(Stop(e3, 3))
            else if e2 % 2 == 0 then None
            else if e2 / 128 % 2 == 1 then Some(Stop(e2, 2))
            else if e1 % 2 == 0 then None
            else Some(Stop(e1, 1))
  {
    IndicesAre(v);
    hide Word, FrameOf, Indices;
    var path := Indices(v);
    var p3 := FrameOf(Word(m, root + 8 * path[0]));
    var p2 := FrameOf(Word(m, p3 + 8 * path[1]));
    var p1 := FrameOf(Word(m, p2 + 8 * path[2]));
    FullStep(m, p1, path[3..]);
    FullStep(m, p2, path[2..]);
    FullStep(m, p3, path[1..]);
    FullStep(m, root, path);
  }

  lemma FullStep(m: Ram, p: nat, path: seq<nat>)
    requires |path| > 0
    ensures var e := Word(m, p + 8 * path[0]);
            FullWalk(m, p, path) ==
            if e % 2 == 0 then None
            else if |path| == 1 || (|path| <= 3 && e / 128 % 2 == 1) then Some(Stop(e, |path|))
            else FullWalk(m, FrameOf(e), path[1..])
  {
  }

  /** The tables with `n` levels that the entries from `lo` on of the one at `p` lead to: pages in use,
      none of them built by map_block. */
  ghost predicate KernelTables(s: Phys, p: nat, lo: nat, n: nat)
    decreases n
  {
    && KernelPage(s, map[], p)
    && forall i: nat :: lo <= i < 512 && GoesOn(Entry(s.ram, p, i), n) ==>
         KernelTables(s, FrameOf(Entry(s.ram, p, i)), 0, n - 1)
  }

  /** Walks through the kernel's tables stay, whatever happens outside the pages then in use. */
  lemma {:induction false} KernelWalkKept(s0: Phys, s: Phys, tab: Tables, p: nat, lo: nat, path: seq<nat>)
    requires Framed(s0, map[], s, tab) && |path| > 0 && KernelTables(s0, p, lo, |path|)
    requires path[0] >= lo && forall k :: 0 <= k < |path| ==> path[k] < 512
    ensures FullWalk(s.ram, p, path) == FullWalk(s0.ram, p, path)
    decreases |path|
  {
    hide Framed, Entry, FrameOf, KernelPage, Large;
    KernelPageKept(s0, map[], s, tab, p);
    var e := Entry(s0.ram, p, path[0]);
    if GoesOn(e, |path|) {
      KernelWalkKept(s0, s, tab, FrameOf(e), 0, path[1..]);
    }
  }

  /** A root with the kernel's upper half translates every kernel address as the kernel's own table did
      at the start. */
  lemma {:induction false} KernelSeen(s0: Phys, s: Phys, tab: Tables, base: nat, r: nat, v: U64)
    requires Framed(s0, map[], s, tab) && KernelTables(s0, base, 256, 4) && !Low(v)
    requires forall i: nat :: 256 <= i < 512 ==> Entry(s.ram, r, i) == Entry(s0.ram, base, i)
    ensures FullWalk(s.ram, r, Indices(v)) == FullWalk(s0.ram, base, Indices(v))
  {
    hide Framed, Entry, FrameOf, KernelPage, Large;
    var path := Indices(v);
    var e := Entry(s0.ram, base, path[0]);
    assert Entry(s.ram, r, path[0]) == e;
    if GoesOn(e, 4) {
      KernelWalkKept(s0, s, tab, FrameOf(e), 0, path[1..]);
    }
  }

  /** A low address has no large pages: the full walk is the one the other results are about. */
  lemma {:induction false} LowWalkFull(s: Phys, tab: Tables, p: nat, path: seq<nat>)
    requires WF(s, tab) && p in tab && LowPath(path) && |tab[p].path| + |path| == 4
    ensures FullWalk(s.ram, p, path) ==
            match WalkFrom(s.ram, p, path) { case None => None case Some(e) => Some(Stop(e, 1)) }
    decreases |path|
  {
    hide Entry, FrameOf, WF;
    if |path| > 1 && Entry(s.ram, p, path[0]) % 2 == 1 {
      var q := Follow(s, tab, p, path);
      assert TableOk(s, tab, q) by { TableIn(s, tab, q); }
      assert !Large(q + 7) by { NotLarge(q); }
      LowWalkFull(s, tab, q, path[1..]);
    }
  }

  lemma TableIn(s: Phys, tab: Tables, q: nat)
    requires WF(s, tab) && q in tab
    ensures TableOk(s, tab, q)
  {
  }

  lemma NotLarge(q: nat)
    requires q % 4096 == 0 && q + 7 < TWO64
    ensures !Large(q + 7)
  {
    var k := q / 4096;
    assert q + 7 == 128 * (32 * k) + 7;
    assert (q + 7) / 128 == 32 * k;
  }

  /** Over any run of newpml4 and map_block in which no allocation fails, every space translates every
      kernel address as the kernel's own table did when there were no spaces, large pages included. */
  lemma {:induction false} RunsKeepKernel(s0: Phys, vm: Vm, tab: Tables, start: U64, ops: seq<VmOp>)
    requires start >= 2048 && Refines(s0, vm, tab, start - 2048) && Proper(vm, start, ops)
    requires KernelTables(s0, start - 2048, 256, 4)
    ensures var w := PlayAll(vm, start, ops);
            forall r: nat, v: U64 :: (r in w.spaces || r == start - 2048) && !Low(v) ==>
              FullWalk(w.s.ram, r, Indices(v)) == FullWalk(s0.ram, start - 2048, Indices(v))
  {
    hide FullWalk, KernelTables, Framed, KernelPage, WF, Walk, Entry, Proper, PlayAll;
    var tab2 := RunsRefine(s0, vm, tab, start, ops);
    var w := PlayAll(vm, start, ops);
    KernelPageKept(s0, map[], w.s, tab2, start - 2048);
    forall r: nat, v: U64 | (r in w.spaces || r == start - 2048) && !Low(v)
      ensures FullWalk(w.s.ram, r, Indices(v)) == FullWalk(s0.ram, start - 2048, Indices(v))
    {
      KernelSeen(s0, w.s, tab2, start - 2048, r, v);
    }
  }

  // ---- mappings in the kernel half ----

  /** A present entry that the code and the processor follow to the same page `q`, which is the kernel's. */
  ghost predicate LeadsTo(s: Phys, tab: Tables, e: U64, q: nat, n: nat)
  {
    GoesOn(e, n) && Align(e) == q == FrameOf(e) && KernelPage(s, tab, q)
  }

  lemma {:induction false} FollowPresent(s: Phys, tab: Tables, p: U64, idx: nat, q: nat, n: nat)
    requires LeadsTo(s, tab, Entry(s.ram, p, idx), q, n)
    ensures GetAllocNext(s, p, idx) == (s, q)
  {
    hide Entry, FrameOf, Align, Large;
  }

  /** map_block on a kernel address whose tables are there: one entry of one kernel table is written, so
      every space that shares the way to it has the mapping, no low translation of any space changes, and
      the spaces' own tables stay as they are. */
  lemma {:induction false} MapHighShared(s: Phys, tab: Tables, root: U64, virt: U64, phys: U64, flags: U64,
                                         p3: nat, p2: nat, p1: nat)
    requires WF(s, tab) && !Low(virt)
    requires var path := Indices(virt);
             && LeadsTo(s, tab, Entry(s.ram, root, path[0]), p3, 4)
             && LeadsTo(s, tab, Entry(s.ram, p3, path[1]), p2, 3)
             && LeadsTo(s, tab, Entry(s.ram, p2, path[2]), p1, 2)
             && p1 != p2 && p1 != p3
    ensures var t := MapBlock(s, root, virt, phys, flags);
            && t.bits == s.bits && WF(t, tab)
            && (forall r: nat, i: nat :: IsRoot(tab, r) && 256 <= i < 512 ==> Entry(t.ram, r, i) == Entry(s.ram, r, i))
            && (forall r: nat, v: U64 :: IsRoot(tab, r) && Low(v) ==> Walk(t.ram, r, v) == Walk(s.ram, r, v))
            && (forall r: nat ::
                  IsRoot(tab, r) && Entry(s.ram, r, Indices(virt)[0]) == Entry(s.ram, root, Indices(virt)[0]) ==>
                  FullWalk(t.ram, r, Indices(virt)) == Some(Stop(LeafEntry(phys, flags), 1)))
  {
    hide Entry, SetEntry, LeafEntry, GetAllocNext, MapBlock, Idx, Large, FrameOf, Align, Free;
    MapBlockSteps(s, root, virt, phys, flags);
    var path, e := Indices(virt), LeafEntry(phys, flags);
    FollowPresent(s, tab, root, path[0], p3, 4);
    FollowPresent(s, tab, p3, path[1], p2, 3);
    FollowPresent(s, tab, p2, path[2], p1, 2);
    var t := MapBlock(s, root, virt, phys, flags);
    assert t == s.(ram := SetEntry(s.ram, p1, path[3], e));
    SetEntryEffect(s.ram, p1, path[3], e);
    TablesAreUsed(s, tab);
    SameEntriesWF(s, tab, t);
    forall r: nat | IsRoot(tab, r) && Entry(s.ram, r, path[0]) == Entry(s.ram, root, path[0])
      ensures FullWalk(t.ram, r, path) == Some(Stop(e, 1))
    {
      assert Entry(t.ram, r, path[0]) == Entry(s.ram, r, path[0]);
      HighWalk(t.ram, r, path, p3, p2, p1, e);
    }
  }

  lemma {:induction false} HighWalk(m: Ram, r: nat, path: seq<nat>, p3: nat, p2: nat, p1: nat, e: U64)
    requires |path| == 4 && e % 2 == 1
    requires GoesOn(Entry(m, r, path[0]), 4) && FrameOf(Entry(m, r, path[0])) == p3
    requires GoesOn(Entry(m, p3, path[1]), 3) && FrameOf(Entry(m, p3, path[1])) == p2
    requires GoesOn(Entry(m, p2, path[2]), 2) && FrameOf(Entry(m, p2, path[2])) == p1
    requires Entry(m, p1, path[3]) == e
    ensures FullWalk(m, r, path) == Some(Stop(e, 1))
  {
    hide Entry, FrameOf, Large;
    assert path[1..][0] == path[1] && path[1..][1..] == path[2..] && path[2..][0] == path[2];
    assert path[2..][1..] == path[3..] && path[3..][0] == path[3];
    assert FullWalk(m, p1, path[3..]) == Some(Stop(e, 1));
    assert FullWalk(m, p2, path[2..]) == FullWalk(m, p1, path[3..]);
    assert FullWalk(m, p3, path[1..]) == FullWalk(m, p2, path[2..]);
  }
}
