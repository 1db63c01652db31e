/** The slab allocator of kernel/mem/pmm_mem.c over whole runs of allocation, release and writes
    into live objects. */
module SlabRuns {
  import opened Words
  import opened Memory
  import opened Bitmap
  import opened Pmm
  import opened Slab

  /** Take an object, give one back, let its owner write one of its 64 bytes, or let the rest of the
      kernel take and give back blocks and write memory of its own, up to the state `s`. */
  datatype Op = New | Delete(addr: U64) | Poke(addr: U64, off: nat, v: Byte) | Others(s: Phys)

  /** The allocator and the objects that its callers hold. */
  datatype Run = Run(h: Heap, live: set<nat>)

  function Act(mode: Mode, r: Run, op: Op): Run
  {
    match op
    case New =>
      var (h, x) := Spmalloc(mode, r.h);
      Run(h, r.live + {x})
    case Delete(addr) => Run(Spfree(mode, r.h, addr), r.live - {addr})
    case Poke(addr, off, v) => r.(h := r.h.(s := r.h.s.(ram := Store(r.h.s.ram, addr + off, v))))
    case Others(s) => r.(h := r.h.(s := s))
  }

  /** From `s` to `t` no page that holds a live object is freed or written. */
  ghost predicate Leaves(s: Phys, t: Phys, live: set<nat>)
  {
    && Covered(t) && |t.bits| == |s.bits| && |t.ram| == |s.ram|
    && (forall x :: x in live ==> !Free(t.bits, PageOf(x) / 4096))
    && (forall x, b: nat :: x in live && PageOf(x) <= b < PageOf(x) + 4096 && b < |s.ram| ==> t.ram[b] == s.ram[b])
  }

  /** Callers give back and write only what they hold, an empty list finds a free block, and the rest of
      the kernel leaves the slab's pages alone. */
  ghost predicate Proper(r: Run, op: Op)
  {
    match op
    case New => r.h.slabH != 0 || FreeSet(r.h.s.bits) != {}
    case Delete(addr) => addr in r.live
    case Poke(addr, off, v) => addr in r.live && off < 64
    case Others(s) => Leaves(r.h.s, s, r.live)
  }

  function ActAll(mode: Mode, r: Run, ops: seq<Op>): Run
    decreases |ops|
  {
    if ops == [] then r else ActAll(mode, Act(mode, r, ops[0]), ops[1..])
  }

  ghost predicate AllProper(mode: Mode, r: Run, ops: seq<Op>)
    decreases |ops|
  {
    ops != [] ==> Proper(r, ops[0]) && AllProper(mode, Act(mode, r, ops[0]), ops[1..])
  }

  // ---- a write into a live object ----

  lemma {:induction false} PokeKeeps(base: Bits, h: Heap, bk: Ledger, addr: U64, off: nat, v: Byte)
    requires Inv(base, h, bk) && addr in bk.live && off < 64
    ensures Inv(base, h.(s := h.s.(ram := Store(h.s.ram, addr + off, v))), bk)
    ensures ObjectsKept(h.s.ram, Store(h.s.ram, addr + off, v), bk.live - {addr})
  {
    hide Word, IsSlot, Owned;
    var m := h.s.ram;
    var n := Store(m, addr + off, v);
    OwnedAnyRam(base, h.s, bk.pages, n);
    forall p | p in bk.pages
      ensures Word(n, p) == Word(m, p)
    {
      HeaderApart(p, addr);
      WordSame(n, m, p);
    }
    forall i | 0 <= i < |bk.chain|
      ensures Word(n, bk.chain[i]) == Word(m, bk.chain[i])
    {
      SlotsApart(bk.chain[i], addr);
      WordSame(n, m, bk.chain[i]);
    }
    forall x, b: nat | x in bk.live - {addr} && x <= b < x + 64 && b < |m|
      ensures n[b] == m[b]
    {
      SlotsApart(x, addr);
    }
  }

  /** The byte that an owner writes is the only thing that changes. */
  lemma PokeWrites(mode: Mode, base: Bits, r: Run, bk: Ledger, addr: U64, off: nat, v: Byte)
    requires Inv(base, r.h, bk) && addr in bk.live && off < 64
    ensures var u := Act(mode, r, Poke(addr, off, v));
            && u.live == r.live && u.h.slabH == r.h.slabH && u.h.s.bits == r.h.s.bits
            && addr + off < |r.h.s.ram| == |u.h.s.ram| && u.h.s.ram[addr + off] == v
            && forall b: nat :: b < |r.h.s.ram| && b != addr + off ==> u.h.s.ram[b] == r.h.s.ram[b]
  {
  }

  // ---- what others do ----

  function PagesOf(live: set<nat>): set<nat> { set x | x in live :: PageOf(x) }

  /** The bitmap as it would be without the slab: what others marked, with the slab's pages free. */
  function BaseAfter(base: Bits, r: Run, op: Op): (c: Bits)
    ensures op.Others? ==> |c| == |op.s.bits|
    ensures op.Others? ==>
              forall q: nat :: Free(c, q) <==> q < |c| && (Free(op.s.bits, q) || 4096 * q in PagesOf(r.live))
  {
    if op.Others? then
      var pages := PagesOf(r.live);
      seq(|op.s.bits|, q requires 0 <= q < |op.s.bits| => op.s.bits[q] && 4096 * q !in pages)
    else base
  }

  function BaseAtEnd(base: Bits, r: Run, ops: seq<Op>): Bits
    decreases |ops|
  {
    if ops == [] then base else BaseAtEnd(BaseAfter(base, r, ops[0]), Act(PageAligned, r, ops[0]), ops[1..])
  }

  lemma {:induction false} NoOthers(base: Bits, r: Run, ops: seq<Op>)
    requires forall op :: op in ops ==> !op.Others?
    ensures BaseAtEnd(base, r, ops) == base
    decreases |ops|
  {
    if ops != [] {
      NoOthers(base, Act(PageAligned, r, ops[0]), ops[1..]);
    }
  }

  lemma PagesHeld(bk: Ledger)
    requires LedgerOk(bk)
    ensures PagesOf(bk.live) == bk.pages
  {
    hide IsSlot, PageOf;
    forall p | p in bk.pages
      ensures p in PagesOf(bk.live)
    {
      var x :| x in LiveIn(bk.live, p);
    }
  }

  lemma {:induction false} OthersKeep(base: Bits, r: Run, bk: Ledger, t: Phys)
    requires Inv(base, r.h, bk) && bk.live == r.live && Leaves(r.h.s, t, r.live)
    ensures Inv(BaseAfter(base, r, Others(t)), Heap(t, r.h.slabH), bk)
    ensures ObjectsKept(r.h.s.ram, t.ram, r.live)
  {
    PagesHeld(bk);
    PagesUnwritten(r.h.s, t, bk);
    OthersOwned(base, r, bk, t);
    hide Owned, BaseAfter, Leaves;
    SameWords(r.h.s.ram, t.ram, r.h.slabH, bk);
  }

  /** The slab's words carry over where the bytes of its pages do. */
  lemma SameWords(m: Ram, n: Ram, head: nat, bk: Ledger)
    requires LedgerOk(bk) && |n| == |m|
    requires forall p: nat, b: nat :: p in bk.pages && p <= b < p + 4096 && b < |m| ==> n[b] == m[b]
    ensures Linked(m, head, bk.chain) ==> Linked(n, head, bk.chain)
    ensures Counted(m, bk) ==> Counted(n, bk)
    ensures ObjectsKept(m, n, bk.live)
  {
    hide Word, IsSlot, PageOf, LiveIn;
    forall p | p in bk.pages
      ensures Word(n, p) == Word(m, p)
    {
      WordSame(n, m, p);
    }
    forall i | 0 <= i < |bk.chain|
      ensures Word(n, bk.chain[i]) == Word(m, bk.chain[i])
    {
      SlotInPage(bk.chain[i]);
      assert PageOf(bk.chain[i]) in bk.pages;
      WordSame(n, m, bk.chain[i]);
    }
    forall x, b: nat | x in bk.live && x <= b < x + 64 && b < |m|
      ensures n[b] == m[b]
    {
      SlotInPage(x);
    }
  }

  lemma PagesUnwritten(s: Phys, t: Phys, bk: Ledger)
    requires PagesOf(bk.live) == bk.pages && Leaves(s, t, bk.live)
    ensures forall p: nat, b: nat :: p in bk.pages && p <= b < p + 4096 && b < |s.ram| ==> t.ram[b] == s.ram[b]
    ensures forall p: nat :: p in bk.pages ==> !Free(t.bits, p / 4096)
  {
    hide PageOf;
    forall p: nat | p in bk.pages
      ensures exists x :: x in bk.live && PageOf(x) == p
    {
      assert p in PagesOf(bk.live);
    }
  }

  lemma OthersOwned(base: Bits, r: Run, bk: Ledger, t: Phys)
    requires Owned(base, r.h.s, bk.pages) && bk.live == r.live && PagesOf(bk.live) == bk.pages
    requires Covered(t) && |t.bits| == |r.h.s.bits| && forall p: nat :: p in bk.pages ==> !Free(t.bits, p / 4096)
    requires forall p :: p in bk.pages ==> p % 4096 == 0
    ensures Owned(BaseAfter(base, r, Others(t)), t, bk.pages)
  {
    hide PagesOf;
    var c := BaseAfter(base, r, Others(t));
    forall p | p in bk.pages
      ensures p / 4096 in FreeSet(c)
    {
      assert p / 4096 in FreeSet(base) && 4096 * (p / 4096) == p;
    }
    forall q: nat
      ensures Free(t.bits, q) <==> Free(c, q) && 4096 * q !in bk.pages
    {
      assert (4096 * q) / 4096 == q;
    }
  }

  // ---- safety of every run ----

  /** The ledger after one step. */
  ghost function LedgerAfter(r: Run, bk: Ledger, op: Op): Ledger
  {
    match op
    case New =>
      if bk.chain == [] then
        var a := Pmalloc(r.h.s, 1).1;
        Ledger(bk.pages + {a}, bk.live + {a + 8}, FreshChain(a))
      else Ledger(bk.pages, bk.live + {bk.chain[0]}, bk.chain[1..])
    case Delete(addr) => Given(bk, addr)
    case Poke(_, _, _) => bk
    case Others(_) => bk
  }

  /** The objects that an operation may write: the one it names. */
  function Named(op: Op): set<nat> { if op.Delete? || op.Poke? then {op.addr} else {} }

  /** One proper step under page alignment keeps the ledger; a new object was not live; and no byte
      of a live object changes, except those of the object the caller itself gave back or wrote. */
  lemma {:induction false} StepSafe(base: Bits, r: Run, bk: Ledger, op: Op)
    requires Inv(base, r.h, bk) && bk.live == r.live && Proper(r, op)
    ensures var q := Act(PageAligned, r, op);
            && Inv(BaseAfter(base, r, op), q.h, LedgerAfter(r, bk, op)) && LedgerAfter(r, bk, op).live == q.live
            && ObjectsKept(r.h.s.ram, q.h.s.ram, r.live - Named(op))
            && (op.New? ==> exists x :: x !in r.live && IsSlot(x) && q.live == r.live + {x})
  {
    hide Spmalloc, Spfree, IsSlot, Owned, Counted, LiveIn, PageOf, Pmalloc;
    match op
    case New =>
      HeadTells(r.h.s.ram, r.h.slabH, bk);
      hide Linked, LedgerOk;
      if r.h.slabH == 0 {
        GrowKeeps(base, r.h, bk);
      } else {
        PopKeeps(base, r.h, bk);
      }
      var x := Spmalloc(PageAligned, r.h).1;
      NewObject(base, r.h, Act(PageAligned, r, op).h, bk, LedgerAfter(r, bk, op), x);
      assert r.live - Named(op) == r.live;
    case Delete(addr) =>
      FreeKeeps(base, r.h, bk, addr);
    case Poke(addr, off, v) =>
      PokeKeeps(base, r.h, bk, addr, off, v);
    case Others(t) =>
      OthersKeep(base, r, bk, t);
      assert r.live - Named(op) == r.live;
  }

  lemma {:induction false} NewObject(base: Bits, h: Heap, k: Heap, bk: Ledger, bk2: Ledger, x: nat)
    requires Inv(base, h, bk) && Inv(base, k, bk2) && bk2.live == bk.live + {x}
    requires x !in bk.live || (bk.chain != [] && x == bk.chain[0])
    ensures x !in bk.live && IsSlot(x)
  {
    assert x in bk2.live;
  }

  /** Slab safety: from any state that satisfies the ledger, in particular from a heap that owns no
      page, every proper run of any length keeps it. */
  lemma {:induction false} RunsSafe(base: Bits, r: Run, bk: Ledger, ops: seq<Op>) returns (bk2: Ledger)
    requires Inv(base, r.h, bk) && bk.live == r.live && AllProper(PageAligned, r, ops)
    ensures var q := ActAll(PageAligned, r, ops); Inv(BaseAtEnd(base, r, ops), q.h, bk2) && bk2.live == q.live
    decreases |ops|
  {
    bk2 := bk;
    if ops != [] {
      StepSafe(base, r, bk, ops[0]);
      bk2 := RunsSafe(BaseAfter(base, r, ops[0]), Act(PageAligned, r, ops[0]), LedgerAfter(r, bk, ops[0]), ops[1..]);
    }
  }

  /** A heap that owns no page satisfies the ledger. */
  lemma EmptyHeap(s: Phys)
    requires Covered(s)
    ensures Inv(s.bits, Heap(s, 0), Ledger({}, {}, []))
  {
  }

  // ---- reclamation ----

  /** Pages never outnumber live objects. */
  lemma PagesAtMostLive(bk: Ledger)
    requires LedgerOk(bk)
    ensures |bk.pages| <= |bk.live|
  {
    hide IsSlot;
    forall p | p in bk.pages
      ensures exists x :: x in bk.live && PageOf(x) == p
    {
      var x :| x in LiveIn(bk.live, p);
    }
    CoverCard(bk.pages, bk.live);
  }

  lemma {:induction false} CoverCard(pages: set<nat>, live: set<nat>)
    requires forall p :: p in pages ==> exists x :: x in live && PageOf(x) == p
    ensures |pages| <= |live|
    decreases pages
  {
    if pages != {} {
      var p :| p in pages;
      var x :| x in live && PageOf(x) == p;
      forall q | q in pages - {p}
        ensures exists y :: y in live - {x} && PageOf(y) == q
      {
        var y :| y in live && PageOf(y) == q;
        assert y in live - {x};
      }
      CoverCard(pages - {p}, live - {x});
    }
  }

  lemma NoPagesNoChain(bk: Ledger)
    requires LedgerOk(bk)
    ensures bk.pages == {} ==> bk.chain == []
  {
    if bk.chain != [] {
      assert PageOf(bk.chain[0]) in bk.pages;
    }
  }

  /** A run from an empty heap that has given everything back holds no page, has an empty list, and
      leaves the bitmap as others left it; without others, exactly as it was. */
  lemma {:induction false} RunsReclaim(s: Phys, ops: seq<Op>)
    requires Covered(s) && AllProper(PageAligned, Run(Heap(s, 0), {}), ops)
    ensures var q := ActAll(PageAligned, Run(Heap(s, 0), {}), ops);
            q.live == {} ==>
              && q.h.s.bits == BaseAtEnd(s.bits, Run(Heap(s, 0), {}), ops) && q.h.slabH == 0
              && ((forall op :: op in ops ==> !op.Others?) ==> q.h.s.bits == s.bits)
  {
    hide ActAll, AllProper, BaseAtEnd;
    EmptyHeap(s);
    var bk := RunsSafe(s.bits, Run(Heap(s, 0), {}), Ledger({}, {}, []), ops);
    PagesAtMostLive(bk);
    var q := ActAll(PageAligned, Run(Heap(s, 0), {}), ops);
    if q.live == {} {
      assert bk.pages == {};
      NoPagesNoChain(bk);
      BitsExtensional(q.h.s.bits, BaseAtEnd(s.bits, Run(Heap(s, 0), {}), ops));
      if forall op :: op in ops ==> !op.Others? {
        NoOthers(s.bits, Run(Heap(s, 0), {}), ops);
      }
    }
  }

  // ---- conservation ----

  /** Every object of every owned page is live or on the free list. */
  ghost predicate NothingLost(bk: Ledger)
  {
    forall x: nat :: IsSlot(x) && PageOf(x) in bk.pages ==> x in bk.live || x in bk.chain
  }

  /** Fresh pages, pops and pushes lose nothing. */
  lemma TakeLosesNothing(base: Bits, h: Heap, bk: Ledger)
    requires Inv(base, h, bk) && NothingLost(bk) && (h.slabH != 0 || FreeSet(h.s.bits) != {})
    ensures h.slabH != 0 ==> bk.chain != [] && NothingLost(Ledger(bk.pages, bk.live + {bk.chain[0]}, bk.chain[1..]))
    ensures h.slabH == 0 ==>
              var a := Pmalloc(h.s, 1).1; NothingLost(Ledger(bk.pages + {a}, bk.live + {a + 8}, FreshChain(a)))
  {
    hide Pmalloc, LedgerOk, Linked, Counted, Owned, IsSlot, PageOf, FreshChain, FreeSet;
    HeadTells(h.s.ram, h.slabH, bk);
    if h.slabH != 0 {
      assert bk.chain == [bk.chain[0]] + bk.chain[1..];
    } else {
      FreshLosesNothing(bk, Pmalloc(h.s, 1).1);
    }
  }

  lemma FreshLosesNothing(bk: Ledger, a: nat)
    requires NothingLost(bk) && bk.chain == []
    ensures NothingLost(Ledger(bk.pages + {a}, bk.live + {a + 8}, FreshChain(a)))
  {
    forall x: nat | IsSlot(x) && PageOf(x) == a
      ensures x == a + 8 || x in FreshChain(a)
    {
      var k := SlotIndex(x);
      if k > 0 {
        assert FreshChain(a)[k - 1] == x;
      }
    }
  }

  /** `spfree` loses free objects exactly when it releases a page while the dropped list still holds
      an object of another page. */
  lemma {:induction false} GiveLosesIff(base: Bits, h: Heap, bk: Ledger, addr: U64)
    requires Inv(base, h, bk) && NothingLost(bk) && addr in bk.live
    ensures var p := PageOf(addr);
            NothingLost(Given(bk, addr)) <==>
            !(LiveIn(bk.live - {addr}, p) == {} && exists i :: 0 <= i < |bk.chain| && PageOf(bk.chain[i]) != p)
  {
    hide IsSlot, PageOf;
    var p := PageOf(addr);
    var bk2 := Given(bk, addr);
    if LiveIn(bk.live - {addr}, p) == {} {
      if i :| 0 <= i < |bk.chain| && PageOf(bk.chain[i]) != p {
        assert IsSlot(bk.chain[i]) && PageOf(bk.chain[i]) in bk2.pages;
        assert bk.chain[i] !in bk2.live && bk.chain[i] !in bk2.chain;
      }
    } else {
      forall x: nat | IsSlot(x) && PageOf(x) in bk2.pages
        ensures x in bk2.live || x in bk2.chain
      {
        assert x in bk.live || x in bk.chain;
        assert bk2.chain[0] == addr;
        if x in bk.chain {
          var i :| 0 <= i < |bk.chain| && bk.chain[i] == x;
          assert bk2.chain[i + 1] == x;
        }
      }
    }
  }

  /** At no step of the run does the slab own more than one page. */
  ghost predicate OnePage(r: Run, bk: Ledger, ops: seq<Op>)
    decreases |ops|
  {
    |bk.pages| <= 1 && (ops != [] ==> OnePage(Act(PageAligned, r, ops[0]), LedgerAfter(r, bk, ops[0]), ops[1..]))
  }

  /** The ledger at the end of a run. */
  ghost function LedgerAtEnd(r: Run, bk: Ledger, ops: seq<Op>): Ledger
    decreases |ops|
  {
    if ops == [] then bk else LedgerAtEnd(Act(PageAligned, r, ops[0]), LedgerAfter(r, bk, ops[0]), ops[1..])
  }

  lemma OnlyThatPage(bk: Ledger, addr: nat)
    requires LedgerOk(bk) && |bk.pages| <= 1 && addr in bk.live
    ensures forall i :: 0 <= i < |bk.chain| ==> PageOf(bk.chain[i]) == PageOf(addr)
  {
    hide IsSlot, PageOf, LiveIn;
    forall i | 0 <= i < |bk.chain|
      ensures PageOf(bk.chain[i]) == PageOf(addr)
    {
      SubsetCard({PageOf(addr), PageOf(bk.chain[i])}, bk.pages);
    }
  }

  lemma OnePageStep(base: Bits, r: Run, bk: Ledger, op: Op)
    requires Inv(base, r.h, bk) && bk.live == r.live && Proper(r, op) && NothingLost(bk) && |bk.pages| <= 1
    ensures NothingLost(LedgerAfter(r, bk, op))
  {
    hide NothingLost, Owned, Counted;
    match op
    case New =>
      HeadTells(r.h.s.ram, r.h.slabH, bk);
      TakeLosesNothing(base, r.h, bk);
    case Delete(addr) =>
      GiveLosesIff(base, r.h, bk, addr);
      OnlyThatPage(bk, addr);
    case Poke(_, _, _) =>
    case Others(_) =>
  }

  /** While at most one page is owned, free list and live objects partition its 63 objects, under any
      order of allocation and release. */
  lemma {:induction false} OnePagePartition(base: Bits, r: Run, bk: Ledger, ops: seq<Op>)
    requires Inv(base, r.h, bk) && bk.live == r.live && AllProper(PageAligned, r, ops)
    requires NothingLost(bk) && OnePage(r, bk, ops)
    ensures var end := LedgerAtEnd(r, bk, ops);
            forall x: nat :: IsSlot(x) && PageOf(x) in end.pages ==> (x in end.live <==> x !in end.chain)
    decreases |ops|
  {
    hide Act, LedgerAfter, IsSlot, PageOf, Owned, Counted, Linked;
    if ops != [] {
      StepSafe(base, r, bk, ops[0]);
      OnePageStep(base, r, bk, ops[0]);
      OnePagePartition(BaseAfter(base, r, ops[0]), Act(PageAligned, r, ops[0]), LedgerAfter(r, bk, ops[0]), ops[1..]);
    }
  }

  // ---- when no block is free ----

  /** `spmalloc` on an empty list takes a block exactly when one is free; when none is, it does not
      notice, and threads its slab through the page at address 0. */
  lemma SpmallocUncheckedFailure(h: Heap)
    requires Covered(h.s) && h.slabH == 0
    ensures var (k, x) := Spmalloc(AsWritten, h);
            && (k.s.bits != h.s.bits <==> FreeSet(h.s.bits) != {})
            && (FreeSet(h.s.bits) == {} ==> x == 8 && k.slabH == 72 && k.s.ram == NewSlab(h.s.ram, 0))
  {
    hide NewSlab, Pmalloc;
    if FreeSet(h.s.bits) == {} {
      PmallocOneFails(h.s);
    } else {
      PmallocOne(h.s);
      var (t, a) := Pmalloc(h.s, 1);
      assert Free(h.s.bits, a / 4096) && !Free(t.bits, a / 4096);
    }
  }
}
