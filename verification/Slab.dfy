/** The slab allocator of kernel/mem/pmm_mem.c: 63 objects of 64 bytes to a page, a free list
    threaded through the free objects, and a count of free objects in the first word of the page.
    The C code finds that word by clearing ten bits of an object's address where twelve are meant.
    Each operation is given with either alignment; the second is what the code was written to do. */
module Slab {
  import opened Words
  import opened Memory
  import opened Bitmap
  import opened Pmm

  /** The value of the allocator's state: physical memory and `slabH`, the head of the free list. */
  datatype Heap = Heap(s: Phys, slabH: U64)

  datatype Mode = AsWritten | PageAligned

  function PageOf(a: nat): nat { a - a % 4096 }

  /** The address taken for the header of the page that holds `a`. */
  function HeaderOf(mode: Mode, a: U64): U64 { if mode.AsWritten? then Align(a) else PageOf(a) }

  function Dec(w: U64): U64 { if w == 0 then TWO64 - 1 else w - 1 }

  function Inc(w: U64): U64 { if w == TWO64 - 1 then 0 else w + 1 }

  /** `--` and `++` on a 64-bit count. */
  lemma CountSteps(w: U64)
    ensures Dec(w) == (w - 1) % 0x1_0000_0000_0000_0000 && Inc(w) == (w + 1) % 0x1_0000_0000_0000_0000
  {
  }

  /** Object addresses: 8, 72, ..., 3976 bytes into a page. */
  predicate IsSlot(x: nat) { x % 64 == 8 && x % 4096 <= 3976 }

  // ---- the operations of the C code ----

  /** The loop that threads a fresh page: link `n` objects from `first` on, each to the next. */
  function Threaded(m: Ram, first: nat, n: nat): (r: Ram)
    requires first + 64 * n < TWO64
    ensures |r| == |m|
    decreases n, first
  {
    if n == 0 then m
    else
      var before := Threaded(m, first, n - 1);
      StoreWordEffect(before, first + 64 * (n - 1), first + 64 * n);
      StoreWord(before, first + 64 * (n - 1), first + 64 * n)
  }

  /** A fresh slab page at `a`: count, links, and the end of the list. */
  function NewSlab(m: Ram, a: U64): Ram
    requires a + 4096 < TWO64
  {
    StoreWord(Threaded(StoreWord(m, a, 62), a + 72, 61), a + 72 + 61 * 64, 0)
  }

  /** spmalloc */
  function Spmalloc(mode: Mode, h: Heap): (Heap, U64)
  {
    if h.slabH == 0 then
      var (t, a) := Pmalloc(h.s, 1);
      (Heap(t.(ram := NewSlab(t.ram, a)), a + 72), a + 8)
    else
      var hd := HeaderOf(mode, h.slabH);
      var m := StoreWord(h.s.ram, hd, Dec(Word(h.s.ram, hd)));
      (Heap(h.s.(ram := m), Word(m, h.slabH)), h.slabH)
  }

  /** spfree */
  function Spfree(mode: Mode, h: Heap, addr: U64): Heap
  {
    var hd := HeaderOf(mode, addr);
    var m := StoreWord(h.s.ram, hd, Inc(Word(h.s.ram, hd)));
    if Word(m, hd) == 63 then Heap(Pfree(h.s.(ram := m), hd, 1), 0)
    else Heap(h.s.(ram := StoreWord(m, addr, h.slabH)), addr)
  }

  // ---- the ledger ----

  /** The pages the slab owns, the live objects, and the free list from its head. */
  datatype Ledger = Ledger(pages: set<nat>, live: set<nat>, chain: seq<nat>)

  function LiveIn(live: set<nat>, p: nat): set<nat> { set x | x in live && PageOf(x) == p }

  /** Every object is in an owned page, and the free ones are not live and listed once. */
  ghost predicate LedgerOk(bk: Ledger)
  {
    && (forall p :: p in bk.pages ==> p % 4096 == 0)
    && (forall x :: x in bk.live ==> IsSlot(x) && PageOf(x) in bk.pages)
    && (forall i :: 0 <= i < |bk.chain| ==>
          IsSlot(bk.chain[i]) && PageOf(bk.chain[i]) in bk.pages && bk.chain[i] !in bk.live)
    && (forall i, j :: 0 <= i < j < |bk.chain| ==> bk.chain[i] != bk.chain[j])
    && (forall p :: p in bk.pages ==> LiveIn(bk.live, p) != {})
  }

  /** What the object at position `i` of the list points to. */
  function NextIn(chain: seq<nat>, i: nat): nat { if i + 1 < |chain| then chain[i + 1] else 0 }

  /** The free list in memory is the chain: head, links, and end. */
  ghost predicate Linked(m: Ram, head: nat, chain: seq<nat>)
  {
    && head == (if chain == [] then 0 else chain[0])
    && forall i: nat {:trigger NextIn(chain, i)} :: i < |chain| ==> Word(m, chain[i]) == NextIn(chain, i)
  }

  /** Each owned page counts its objects that are not live. */
  ghost predicate Counted(m: Ram, bk: Ledger)
  {
    forall p :: p in bk.pages ==> Word(m, p) == 63 - |LiveIn(bk.live, p)|
  }

  /** The bitmap is the one the slab started from, with the owned pages marked. */
  ghost predicate Owned(base: Bits, s: Phys, pages: set<nat>)
  {
    && Covered(s) && |s.bits| == |base|
    && (forall p :: p in pages ==> p / 4096 in FreeSet(base))
    && (forall q: nat :: Free(s.bits, q) <==> Free(base, q) && 4096 * q !in pages)
  }

  ghost predicate Inv(base: Bits, h: Heap, bk: Ledger)
  {
    LedgerOk(bk) && Owned(base, h.s, bk.pages) && Linked(h.s.ram, h.slabH, bk.chain) && Counted(h.s.ram, bk)
  }

  // ---- where words and objects can lie ----

  lemma SlotsApart(x: nat, y: nat)
    requires IsSlot(x) && IsSlot(y) && x != y
    ensures x + 64 <= y || y + 64 <= x
  {
    assert x == 64 * (x / 64) + 8 && y == 64 * (y / 64) + 8;
  }

  lemma SlotInPage(x: nat)
    requires IsSlot(x)
    ensures PageOf(x) + 8 <= x && x + 64 <= PageOf(x) + 4096
    ensures PageOf(x) % 4096 == 0
  {
    assert PageOf(x) == 4096 * (x / 4096);
  }

  /** A header word and an object never overlap. */
  lemma HeaderApart(p: nat, x: nat)
    requires p % 4096 == 0 && IsSlot(x)
    ensures p + 8 <= x || x + 64 <= p
  {
    SlotInPage(x);
    if PageOf(x) != p {
      PagesApart(p, PageOf(x));
    }
  }

  lemma OwnedInRam(base: Bits, s: Phys, pages: set<nat>, p: nat)
    requires Owned(base, s, pages) && p in pages && p % 4096 == 0
    ensures p + 4096 <= |s.ram|
  {
    assert p == 4096 * (p / 4096);
  }

  // ---- counting ----

  /** The first `k` objects of page `p`. */
  function Slots(p: nat, k: nat): (r: set<nat>)
    ensures |r| == k
    ensures forall x :: x in r ==> x < p + 8 + 64 * k
  {
    if k == 0 then {} else Slots(p, k - 1) + {p + 8 + 64 * (k - 1)}
  }

  lemma {:induction false} SlotsHas(p: nat, k: nat, i: nat)
    requires i < k
    ensures p + 8 + 64 * i in Slots(p, k)
    decreases k
  {
    if i < k - 1 {
      SlotsHas(p, k - 1, i);
    }
  }

  lemma SubsetCard(a: set<nat>, b: set<nat>)
    requires a <= b
    ensures |a| <= |b|
    ensures |a| == |b| ==> a == b
  {
    assert |b| == |a| + |b - a| by { assert b == a + (b - a); }
    if |a| == |b| {
      assert b - a == {};
    }
  }

  lemma SlotIndex(y: nat) returns (k: nat)
    requires IsSlot(y)
    ensures k < 63 && y == PageOf(y) + 8 + 64 * k
  {
    var hi, o := y / 4096, y % 4096;
    assert y == 64 * (64 * hi) + o;
    k := o / 64;
    assert y / 64 == 64 * hi + k;
    assert o == 64 * k + 8;
  }

  /** A page with an object that is not live has at most 62 live ones. */
  lemma RoomLeft(live: set<nat>, p: nat, x: nat)
    requires p % 4096 == 0 && IsSlot(x) && PageOf(x) == p && x !in live
    requires forall y :: y in live ==> IsSlot(y)
    ensures |LiveIn(live, p)| <= 62
  {
    hide IsSlot, PageOf;
    var all := LiveIn(live, p) + {x};
    forall y | y in all
      ensures y in Slots(p, 63)
    {
      var k := SlotIndex(y);
      SlotsHas(p, 63, k);
    }
    SubsetCard(all, Slots(p, 63));
  }

  lemma LiveInAdd(live: set<nat>, x: nat, p: nat)
    requires x !in live
    ensures |LiveIn(live + {x}, p)| == |LiveIn(live, p)| + if PageOf(x) == p then 1 else 0
  {
    if PageOf(x) == p {
      assert LiveIn(live + {x}, p) == LiveIn(live, p) + {x};
    } else {
      assert LiveIn(live + {x}, p) == LiveIn(live, p);
    }
  }

  lemma LiveInRemove(live: set<nat>, x: nat, p: nat)
    requires x in live
    ensures |LiveIn(live - {x}, p)| == |LiveIn(live, p)| - if PageOf(x) == p then 1 else 0
    ensures LiveIn(live - {x}, p) == if PageOf(x) == p then LiveIn(live, p) - {x} else LiveIn(live, p)
  {
    if PageOf(x) == p {
      assert LiveIn(live - {x}, p) == LiveIn(live, p) - {x};
    } else {
      assert LiveIn(live - {x}, p) == LiveIn(live, p);
    }
  }

  // ---- a fresh page ----

  lemma {:induction false} ThreadedLinks(m: Ram, first: nat, n: nat)
    requires first + 64 * n <= |m| && first + 64 * n < TWO64
    ensures forall b: nat :: b < |m| && !(first <= b < first + 64 * n) ==> Threaded(m, first, n)[b] == m[b]
    ensures forall i: nat :: i < n ==> Word(Threaded(m, first, n), first + 64 * i) == first + 64 * (i + 1)
    decreases n
  {
    hide Word, StoreWord;
    if n > 0 {
      ThreadedLinks(m, first, n - 1);
      StoreWordEffect(Threaded(m, first, n - 1), first + 64 * (n - 1), first + 64 * n);
    }
  }

  /** The chain of a fresh page: every object but the first, in address order. */
  function FreshChain(a: nat): (r: seq<nat>)
    ensures |r| == 62 && forall i :: 0 <= i < 62 ==> r[i] == a + 72 + 64 * i
  {
    seq(62, i => a + 72 + 64 * i)
  }

  /** First use threads exactly the 62 objects at offsets 72 to 3976 into one chain that ends in 0,
      sets the count to 62, and writes nothing outside the page or in its first object. */
  lemma NewSlabThreads(m: Ram, a: U64)
    requires a % 4096 == 0 && a + 4096 <= |m| && a + 4096 < TWO64
    ensures |NewSlab(m, a)| == |m|
    ensures Word(NewSlab(m, a), a) == 62
    ensures Linked(NewSlab(m, a), a + 72, FreshChain(a))
    ensures forall b: nat :: b < |m| && !(a <= b < a + 4096) ==> NewSlab(m, a)[b] == m[b]
    ensures forall i :: 0 <= i < 62 ==> IsSlot(FreshChain(a)[i]) && PageOf(FreshChain(a)[i]) == a
    ensures IsSlot(a + 8) && PageOf(a + 8) == a
  {
    hide Word, StoreWord, Threaded, IsSlot, PageOf;
    var m0 := StoreWord(m, a, 62);
    StoreWordEffect(m, a, 62);
    var m1 := Threaded(m0, a + 72, 61);
    ThreadedLinks(m0, a + 72, 61);
    WordSame(m1, m0, a);
    var m2 := StoreWord(m1, a + 72 + 61 * 64, 0);
    StoreWordEffect(m1, a + 72 + 61 * 64, 0);
    FreshLinked(m1, m2, a);
    FreshSlots(a);
  }

  lemma FreshLinked(m1: Ram, m2: Ram, a: nat)
    requires forall i: nat :: i < 61 ==> Word(m1, a + 72 + 64 * i) == a + 72 + 64 * (i + 1)
    requires Word(m2, a + 72 + 61 * 64) == 0
    requires forall b: nat :: b + 8 <= a + 72 + 61 * 64 ==> Word(m2, b) == Word(m1, b)
    ensures Linked(m2, a + 72, FreshChain(a))
  {
    hide Word;
    var chain := FreshChain(a);
    forall i: nat | i < 62
      ensures Word(m2, chain[i]) == NextIn(chain, i)
    {
      assert chain[i] == a + 72 + 64 * i;
      if i < 61 {
        assert Word(m1, a + 72 + 64 * i) == a + 72 + 64 * (i + 1);
        assert chain[i + 1] == a + 72 + 64 * (i + 1);
      }
    }
  }

  lemma {:induction false} FreshSlots(a: nat)
    requires a % 4096 == 0
    ensures forall i :: 0 <= i < 62 ==> IsSlot(FreshChain(a)[i]) && PageOf(FreshChain(a)[i]) == a
    ensures IsSlot(a + 8) && PageOf(a + 8) == a
  {
    hide IsSlot, PageOf;
    forall i | 0 <= i < 62
      ensures IsSlot(FreshChain(a)[i]) && PageOf(FreshChain(a)[i]) == a
    {
      SlotAt(a, i + 1);
    }
    SlotAt(a, 0);
  }

  lemma SlotAt(a: nat, i: nat)
    requires a % 4096 == 0 && i < 63
    ensures IsSlot(a + 8 + 64 * i) && PageOf(a + 8 + 64 * i) == a
  {
    SlotArithmetic(a / 4096, i);
    assert a == 4096 * (a / 4096);
  }

  lemma SlotArithmetic(k: nat, i: nat)
    requires i < 63
    ensures (4096 * k + 8 + 64 * i) % 4096 == 8 + 64 * i && (4096 * k + 8 + 64 * i) % 64 == 8
  {
    assert (4096 * k + 8 + 64 * i) / 4096 == k;
    assert (4096 * k + 8 + 64 * i) / 64 == 64 * k + i;
  }

  /** The head is 0 exactly when the list is empty. */
  lemma {:induction false} HeadTells(m: Ram, head: nat, bk: Ledger)
    requires LedgerOk(bk) && Linked(m, head, bk.chain)
    ensures head == 0 <==> bk.chain == []
  {
    if bk.chain != [] {
      assert IsSlot(bk.chain[0]);
    }
  }

  // ---- one step keeps the invariant ----

  /** The ledger after `spfree`: the page that loses its last live object goes, and the whole free
      list is dropped with it. */
  ghost function Given(bk: Ledger, addr: nat): Ledger
  {
    if LiveIn(bk.live - {addr}, PageOf(addr)) == {} then Ledger(bk.pages - {PageOf(addr)}, bk.live - {addr}, [])
    else Ledger(bk.pages, bk.live - {addr}, [addr] + bk.chain)
  }

  /** No byte of an object in `live` differs. */
  ghost predicate ObjectsKept(m: Ram, n: Ram, live: set<nat>)
  {
    |n| == |m| && forall x, b: nat :: x in live && x <= b < x + 64 && b < |m| ==> n[b] == m[b]
  }

  /** A store to a page header touches no object and no other header. */
  lemma HeaderStore(m: Ram, p: nat, w: U64)
    requires p % 4096 == 0 && p + 8 <= |m|
    ensures var n := StoreWord(m, p, w);
            && |n| == |m| && Word(n, p) == w
            && (forall x: nat :: IsSlot(x) ==> Word(n, x) == Word(m, x))
            && (forall q: nat :: q % 4096 == 0 && q != p ==> Word(n, q) == Word(m, q))
            && (forall x: nat, b: nat :: IsSlot(x) && x <= b < x + 64 && b < |m| ==> n[b] == m[b])
  {
    hide Word, StoreWord, IsSlot;
    StoreWordEffect(m, p, w);
    forall x: nat | IsSlot(x)
      ensures p + 8 <= x || x + 64 <= p
    {
      HeaderApart(p, x);
    }
    forall q: nat | q % 4096 == 0 && q != p
      ensures Word(StoreWord(m, p, w), q) == Word(m, q)
    {
      PagesApart(p, q);
    }
  }

  /** A store to the first word of an object touches no header and no other object. */
  lemma SlotStore(m: Ram, x: nat, w: U64)
    requires IsSlot(x) && x + 8 <= |m|
    ensures var n := StoreWord(m, x, w);
            && |n| == |m| && Word(n, x) == w
            && (forall y: nat :: IsSlot(y) && y != x ==> Word(n, y) == Word(m, y))
            && (forall q: nat :: q % 4096 == 0 ==> Word(n, q) == Word(m, q))
            && (forall y: nat, b: nat :: IsSlot(y) && y != x && y <= b < y + 64 && b < |m| ==> n[b] == m[b])
  {
    hide Word, StoreWord, IsSlot;
    StoreWordEffect(m, x, w);
    forall y: nat | IsSlot(y) && y != x
      ensures x + 64 <= y || y + 64 <= x
    {
      SlotsApart(x, y);
    }
    forall q: nat | q % 4096 == 0
      ensures Word(StoreWord(m, x, w), q) == Word(m, q)
    {
      HeaderApart(q, x);
    }
  }

  /** Words of objects carry over. */
  ghost predicate SlotWordsKept(m: Ram, n: Ram) { forall x: nat :: IsSlot(x) ==> Word(n, x) == Word(m, x) }

  lemma {:induction false} TailLinked(m: Ram, n: Ram, head: nat, bk: Ledger)
    requires LedgerOk(bk) && Linked(m, head, bk.chain) && bk.chain != [] && SlotWordsKept(m, n)
    ensures Linked(n, Word(n, head), bk.chain[1..])
  {
    hide Word, IsSlot;
    var rest := bk.chain[1..];
    assert IsSlot(bk.chain[0]) && Word(n, head) == Word(m, bk.chain[0]) == NextIn(bk.chain, 0);
    forall i: nat | i < |rest|
      ensures Word(n, rest[i]) == NextIn(rest, i)
    {
      assert rest[i] == bk.chain[i + 1] && IsSlot(bk.chain[i + 1]);
      assert Word(m, bk.chain[i + 1]) == NextIn(bk.chain, i + 1);
    }
  }

  /** The counts after object `x` of page `p` becomes live. */
  lemma CountTaken(m: Ram, n: Ram, bk: Ledger, x: nat)
    requires LedgerOk(bk) && Counted(m, bk) && x !in bk.live && IsSlot(x) && PageOf(x) in bk.pages
    requires Word(n, PageOf(x)) == Dec(Word(m, PageOf(x)))
    requires forall q: nat :: q % 4096 == 0 && q != PageOf(x) ==> Word(n, q) == Word(m, q)
    ensures Counted(n, Ledger(bk.pages, bk.live + {x}, bk.chain))
    ensures forall q :: q in bk.pages ==> LiveIn(bk.live + {x}, q) != {}
  {
    hide Word, IsSlot;
    RoomLeft(bk.live, PageOf(x), x);
    forall q | q in bk.pages
      ensures Word(n, q) == 63 - |LiveIn(bk.live + {x}, q)| && LiveIn(bk.live + {x}, q) != {}
    {
      LiveInAdd(bk.live, x, q);
      assert LiveIn(bk.live, q) <= LiveIn(bk.live + {x}, q);
    }
  }

  /** `spmalloc` from a nonempty list: its head becomes live. */
  lemma {:induction false} PopKeeps(base: Bits, h: Heap, bk: Ledger)
    requires Inv(base, h, bk) && h.slabH != 0
    ensures bk.chain != []
    ensures var (k, x) := Spmalloc(PageAligned, h);
            && x == bk.chain[0]
            && Inv(base, k, Ledger(bk.pages, bk.live + {x}, bk.chain[1..]))
            && ObjectsKept(h.s.ram, k.s.ram, bk.live)
  {
    hide Word, StoreWord, IsSlot, LiveIn, Owned, Counted;
    HeadTells(h.s.ram, h.slabH, bk);
    var x := bk.chain[0];
    var p := PageOf(x);
    OwnedInRam(base, h.s, bk.pages, p);
    HeaderStore(h.s.ram, p, Dec(Word(h.s.ram, p)));
    var m := StoreWord(h.s.ram, p, Dec(Word(h.s.ram, p)));
    hide PageOf;
    CountTaken(h.s.ram, m, bk, x);
    TailLinked(h.s.ram, m, h.slabH, bk);
    hide Linked;
    OwnedAnyRam(base, h.s, bk.pages, m);
    CountedAnyChain(m, bk.pages, bk.live + {x}, bk.chain, bk.chain[1..]);
  }

  lemma OwnedAnyRam(base: Bits, s: Phys, pages: set<nat>, m: Ram)
    requires Owned(base, s, pages) && |m| == |s.ram|
    ensures Owned(base, s.(ram := m), pages)
  {
  }

  lemma CountedAnyChain(m: Ram, pages: set<nat>, live: set<nat>, c: seq<nat>, d: seq<nat>)
    requires Counted(m, Ledger(pages, live, c))
    ensures Counted(m, Ledger(pages, live, d))
  {
    hide Word, LiveIn;
  }

  /** `spmalloc` on an empty list: a free block becomes a slab page. */
  lemma GrowKeeps(base: Bits, h: Heap, bk: Ledger)
    requires Inv(base, h, bk) && h.slabH == 0 && FreeSet(h.s.bits) != {}
    ensures var a := Pmalloc(h.s, 1).1;
            var (k, x) := Spmalloc(PageAligned, h);
            && x == a + 8 && a !in bk.pages && x !in bk.live
            && Inv(base, k, Ledger(bk.pages + {a}, bk.live + {x}, FreshChain(a)))
            && ObjectsKept(h.s.ram, k.s.ram, bk.live)
  {
    hide Word, StoreWord, IsSlot, NewSlab, PageOf, LiveIn, Linked, Counted, Pmalloc, FreshChain, LedgerOk,
      ObjectsKept, Limit;
    PmallocOne(h.s);
    var (t, a) := Pmalloc(h.s, 1);
    NewSlabThreads(t.ram, a);
    assert a !in bk.pages by {
      assert Free(h.s.bits, a / 4096) && 4096 * (a / 4096) == a;
    }
    GrowOwned(base, h.s, bk.pages, t, a);
    hide Owned;
    GrowLedger(h.s.ram, NewSlab(t.ram, a), bk, a);
  }

  lemma GrowLedger(m: Ram, n: Ram, bk: Ledger, a: nat)
    requires LedgerOk(bk) && Counted(m, bk) && a % 4096 == 0 && a !in bk.pages && |n| == |m|
    requires Word(n, a) == 62 && IsSlot(a + 8) && PageOf(a + 8) == a
    requires forall i :: 0 <= i < 62 ==> IsSlot(FreshChain(a)[i]) && PageOf(FreshChain(a)[i]) == a
    requires forall b: nat :: b < |m| && !(a <= b < a + 4096) ==> n[b] == m[b]
    ensures var bk2 := Ledger(bk.pages + {a}, bk.live + {a + 8}, FreshChain(a));
            LedgerOk(bk2) && Counted(n, bk2) && a + 8 !in bk.live && ObjectsKept(m, n, bk.live)
  {
    hide Word, IsSlot, LiveIn, PageOf;
    var bk2 := Ledger(bk.pages + {a}, bk.live + {a + 8}, FreshChain(a));
    FreshPageCounts(bk.live, a);
    forall q | q in bk.pages
      ensures Word(n, q) == Word(m, q) && LiveIn(bk2.live, q) == LiveIn(bk.live, q)
    {
      PagesApart(a, q);
      WordSame(n, m, q);
      LiveInOther(bk.live, a + 8, q);
    }
    forall x, b: nat | x in bk.live && x <= b < x + 64 && b < |m|
      ensures n[b] == m[b]
    {
      SlotInPage(x);
      PagesApart(a, PageOf(x));
    }
    forall i | 0 <= i < 62
      ensures FreshChain(a)[i] !in bk2.live
    {
      assert PageOf(FreshChain(a)[i]) == a;
    }
  }

  lemma LiveInOther(live: set<nat>, x: nat, p: nat)
    requires PageOf(x) != p
    ensures LiveIn(live + {x}, p) == LiveIn(live, p)
  {
  }

  lemma FreshPageCounts(live: set<nat>, a: nat)
    requires forall x :: x in live ==> PageOf(x) != a
    requires PageOf(a + 8) == a
    ensures LiveIn(live + {a + 8}, a) == {a + 8} && |LiveIn(live + {a + 8}, a)| == 1
  {
    assert LiveIn(live + {a + 8}, a) == {a + 8};
  }

  lemma GrowOwned(base: Bits, s: Phys, pages: set<nat>, t: Phys, a: nat)
    requires Owned(base, s, pages) && a % 4096 == 0 && a / 4096 in FreeSet(s.bits)
    requires |t.bits| == |s.bits| && |t.ram| == |s.ram|
    requires forall q: nat :: Free(t.bits, q) <==> Free(s.bits, q) && q != a / 4096
    ensures forall u: Phys :: u.bits == t.bits && |u.ram| == |t.ram| ==> Owned(base, u, pages + {a})
  {
    assert a / 4096 in FreeSet(base);
    forall q: nat
      ensures Free(t.bits, q) <==> Free(base, q) && 4096 * q !in pages + {a}
    {
    }
  }

  /** `spfree` of a live object. */
  lemma {:induction false} FreeKeeps(base: Bits, h: Heap, bk: Ledger, addr: U64)
    requires Inv(base, h, bk) && addr in bk.live
    ensures Inv(base, Spfree(PageAligned, h, addr), Given(bk, addr))
    ensures ObjectsKept(h.s.ram, Spfree(PageAligned, h, addr).s.ram, bk.live - {addr})
  {
    hide Word, StoreWord, IsSlot, Owned, LedgerOk, Linked;
    var p := PageOf(addr);
    assert p in bk.pages && p % 4096 == 0 by { LivePage(bk, addr); }
    OwnedInRam(base, h.s, bk.pages, p);
    HeaderStore(h.s.ram, p, Inc(Word(h.s.ram, p)));
    var m := StoreWord(h.s.ram, p, Inc(Word(h.s.ram, p)));
    CountGiven(h.s.ram, m, bk, addr);
    hide LiveIn, PageOf;
    if LiveIn(bk.live - {addr}, p) == {} {
      ReleaseKeeps(base, h, bk, addr, m);
      LiveSlots(bk);
    } else {
      EmptyIsNone(LiveIn(bk.live - {addr}, p));
      PushKeeps(base, h, bk, addr, m);
      LiveSlots(bk);
    }
  }

  lemma EmptyIsNone(s: set<nat>)
    requires s != {}
    ensures |s| > 0
  {
  }

  lemma LivePage(bk: Ledger, x: nat)
    requires LedgerOk(bk) && x in bk.live
    ensures IsSlot(x) && PageOf(x) in bk.pages && PageOf(x) % 4096 == 0
  {
  }

  lemma LiveSlots(bk: Ledger)
    requires LedgerOk(bk)
    ensures forall x :: x in bk.live ==> IsSlot(x)
  {
  }

  /** The counts after object `x` stops being live. */
  lemma CountGiven(m: Ram, n: Ram, bk: Ledger, x: nat)
    requires LedgerOk(bk) && Counted(m, bk) && x in bk.live
    requires Word(n, PageOf(x)) == Inc(Word(m, PageOf(x)))
    requires forall q: nat :: q % 4096 == 0 && q != PageOf(x) ==> Word(n, q) == Word(m, q)
    ensures forall q :: q in bk.pages ==> Word(n, q) == 63 - |LiveIn(bk.live - {x}, q)|
    ensures forall q :: q in bk.pages && q != PageOf(x) ==> LiveIn(bk.live - {x}, q) != {}
  {
    hide Word, IsSlot;
    LivePage(bk, x);
    assert x in LiveIn(bk.live, PageOf(x));
    forall q | q in bk.pages
      ensures Word(n, q) == 63 - |LiveIn(bk.live - {x}, q)|
      ensures q != PageOf(x) ==> LiveIn(bk.live - {x}, q) != {}
    {
      LiveInRemove(bk.live, x, q);
    }
  }

  /** The page of the last live object is released and the list dropped. */
  lemma {:induction false} ReleaseKeeps(base: Bits, h: Heap, bk: Ledger, addr: U64, m: Ram)
    requires Inv(base, h, bk) && addr in bk.live && |m| == |h.s.ram|
    requires LiveIn(bk.live - {addr}, PageOf(addr)) == {}
    requires forall q :: q in bk.pages ==> Word(m, q) == 63 - |LiveIn(bk.live - {addr}, q)|
    requires forall q :: q in bk.pages && q != PageOf(addr) ==> LiveIn(bk.live - {addr}, q) != {}
    ensures Inv(base, Heap(Pfree(h.s.(ram := m), PageOf(addr), 1), 0), Given(bk, addr))
  {
    hide Word, IsSlot;
    var p := PageOf(addr);
    PfreeOne(h.s.(ram := m), p);
    var bk2 := Given(bk, addr);
    forall x | x in bk2.live
      ensures PageOf(x) in bk2.pages
    {
      assert x in LiveIn(bk.live - {addr}, PageOf(x));
    }
    forall q: nat
      ensures Free(Pfree(h.s.(ram := m), p, 1).bits, q) <==> Free(base, q) && 4096 * q !in bk2.pages
    {
      assert p == 4096 * (p / 4096);
    }
  }

  lemma {:induction false} ConsLinked(m0: Ram, m: Ram, n: Ram, head: nat, bk: Ledger, addr: nat)
    requires LedgerOk(bk) && Linked(m0, head, bk.chain) && addr in bk.live
    requires SlotWordsKept(m0, m) && Word(n, addr) == head
    requires forall y: nat :: IsSlot(y) && y != addr ==> Word(n, y) == Word(m, y)
    ensures Linked(n, addr, [addr] + bk.chain)
  {
    hide Word, IsSlot;
    var chain := [addr] + bk.chain;
    HeadTells(m0, head, bk);
    forall i: nat | i < |chain|
      ensures Word(n, chain[i]) == NextIn(chain, i)
    {
      if i > 0 {
        assert chain[i] == bk.chain[i - 1] && IsSlot(bk.chain[i - 1]);
        assert Word(m0, bk.chain[i - 1]) == NextIn(bk.chain, i - 1);
      }
    }
  }

  /** The object goes to the head of the list. */
  lemma {:induction false} PushKeeps(base: Bits, h: Heap, bk: Ledger, addr: U64, m: Ram)
    requires Inv(base, h, bk) && addr in bk.live && |m| == |h.s.ram|
    requires LiveIn(bk.live - {addr}, PageOf(addr)) != {}
    requires forall q :: q in bk.pages ==> Word(m, q) == 63 - |LiveIn(bk.live - {addr}, q)|
    requires forall q :: q in bk.pages && q != PageOf(addr) ==> LiveIn(bk.live - {addr}, q) != {}
    requires forall x: nat :: IsSlot(x) ==> Word(m, x) == Word(h.s.ram, x)
    ensures Inv(base, Heap(h.s.(ram := StoreWord(m, addr, h.slabH)), addr), Given(bk, addr))
    ensures forall x, b: nat :: x in bk.live && x != addr && x <= b < x + 64 && b < |m| ==>
              StoreWord(m, addr, h.slabH)[b] == m[b]
  {
    hide Word, StoreWord, IsSlot, LiveIn, PageOf, Owned, Linked;
    OwnedInRam(base, h.s, bk.pages, PageOf(addr));
    SlotInPage(addr);
    SlotStore(m, addr, h.slabH);
    var n := StoreWord(m, addr, h.slabH);
    var bk2 := Given(bk, addr);
    OwnedAnyRam(base, h.s, bk.pages, n);
    forall i | 0 <= i < |bk2.chain|
      ensures IsSlot(bk2.chain[i]) && PageOf(bk2.chain[i]) in bk2.pages && bk2.chain[i] !in bk2.live
    {
      assert i > 0 ==> bk2.chain[i] == bk.chain[i - 1];
    }
    ConsLinked(h.s.ram, m, n, h.slabH, bk, addr);
  }

  // ---- the allocator in memory ----

  lemma ThreadedStart()
    ensures forall m: Ram, first: nat :: first < TWO64 ==> Threaded(m, first, 0) == m
  {
  }

  lemma ThreadedNext(m: Ram, first: nat, n: nat)
    requires n > 0 && first + 64 * n < TWO64
    ensures Threaded(m, first, n) == StoreWord(Threaded(m, first, n - 1), first + 64 * (n - 1), first + 64 * n)
  {
  }

  class SlabAllocator {
    const pm: PhysicalMemory
    var slabH: U64

    constructor (pm: PhysicalMemory)
      ensures this.pm == pm && slabH == 0
    {
      this.pm := pm;
      slabH := 0;
    }

    ghost function State(): Heap
      reads this, pm.pmmMap, pm.ram
    {
      Heap(pm.State(), slabH)
    }

    /** spmalloc */
    method Take() returns (addr: U64)
      requires pm.Valid()
      modifies this, pm.pmmMap, pm.ram
      ensures (State(), addr) == Spmalloc(AsWritten, old(State()))
    {
      hide StoreWord, Word, Threaded, Align;
      if slabH == 0 {
        ThreadedStart();
        var a := pm.Allocate(1);
        ghost var m := pm.ram[..];
        pm.WriteWord(a, 62);
        addr := a + 8;
        slabH := a + 72;
        var i := 0;
        while i < 61
          invariant 0 <= i <= 61 && slabH == a + 72
          invariant pm.ram[..] == Threaded(StoreWord(m, a, 62), a + 72, i)
          invariant pm.State().bits == Pmalloc(old(pm.State()), 1).0.bits
        {
          pm.WriteWord(slabH + i * 64, slabH + (i + 1) * 64);
          ThreadedNext(StoreWord(m, a, 62), a + 72, i + 1);
          i := i + 1;
        }
        pm.WriteWord(slabH + 61 * 64, 0);
      } else {
        var hd := Align(slabH);
        var w := pm.ReadWord(hd);
        pm.WriteWord(hd, Dec(w));
        addr := slabH;
        slabH := pm.ReadWord(slabH);
      }
    }

    /** spfree */
    method Give(addr: U64)
      requires pm.Valid()
      modifies this, pm.pmmMap, pm.ram
      ensures State() == Spfree(AsWritten, old(State()), addr)
    {
      hide StoreWord, Word;
      var hd := Align(addr);
      var w := pm.ReadWord(hd);
      pm.WriteWord(hd, Inc(w));
      w := pm.ReadWord(hd);
      if w == 63 {
        pm.Release(hd, 1);
        slabH := 0;
      } else {
        pm.WriteWord(addr, slabH);
        slabH := addr;
      }
    }
  }
}
