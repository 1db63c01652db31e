/** When the slab allocator is right as written (kernel/mem/pmm_mem.c with kernel/mem/pmm_mem.h:6).
    Clearing ten address bits finds the page header only for the first sixteen objects of a page. */
module SlabAlignment {
  import opened Words
  import opened Memory
  import opened Bitmap
  import opened Pmm
  import opened Slab
  import opened SlabRuns

  /** The object that the step looks a header up for lies in the first kilobyte of its page. */
  predicate Near(r: Run, op: Op)
  {
    match op
    case New => r.h.slabH % 4096 < 1024
    case Delete(addr) => addr % 4096 < 1024
    case Poke(_, _, _) => true
    case Others(_) => true
  }

  lemma HeadersAgreeIff(x: U64)
    ensures Align(x) == PageOf(x) <==> x % 4096 < 1024
    ensures x % 4096 >= 1024 ==> PageOf(x) + 1024 <= Align(x)
  {
    var hi, o := x / 4096, x % 4096;
    assert x == 1024 * (4 * hi) + o;
    assert x / 1024 == 4 * hi + o / 1024;
    assert x % 1024 == o % 1024;
  }

  lemma {:induction false} TakeDiffers(base: Bits, h: Heap, bk: Ledger)
    requires Inv(base, h, bk) && h.slabH != 0 && h.slabH % 4096 >= 1024
    ensures Spmalloc(AsWritten, h).0.s.ram != Spmalloc(PageAligned, h).0.s.ram
  {
    hide Word, StoreWord, IsSlot, Owned, PageOf, Align;
    var x := h.slabH;
    HeadersAgreeIff(x);
    HeadTells(h.s.ram, x, bk);
    SlotInPage(bk.chain[0]);
    OwnedInRam(base, h.s, bk.pages, PageOf(x));
    HeaderUntouched(h.s.ram, PageOf(x), Align(x));
  }

  /** A store away from the header at `p` leaves the count there, a step of the count does not. */
  lemma HeaderUntouched(m: Ram, p: nat, hd: U64)
    requires p + 1024 <= hd && p + 8 <= |m|
    ensures forall v: U64 :: Word(StoreWord(m, hd, v), p) == Word(m, p)
    ensures Word(StoreWord(m, p, Dec(Word(m, p))), p) != Word(m, p)
    ensures Word(StoreWord(m, p, Inc(Word(m, p))), p) != Word(m, p)
  {
    hide Word, StoreWord;
    forall v: U64
      ensures Word(StoreWord(m, hd, v), p) == Word(m, p)
    {
      StoreWordEffect(m, hd, v);
    }
    StoreWordEffect(m, p, Dec(Word(m, p)));
    StoreWordEffect(m, p, Inc(Word(m, p)));
  }

  lemma {:induction false} GiveDiffers(base: Bits, h: Heap, bk: Ledger, addr: U64)
    requires Inv(base, h, bk) && addr in bk.live && addr % 4096 >= 1024
    ensures Spfree(AsWritten, h, addr).s.ram != Spfree(PageAligned, h, addr).s.ram
  {
    hide Word, StoreWord, Owned, PageOf, Align, Linked, Counted;
    LivePage(bk, addr);
    HeadersAgreeIff(addr);
    var p := PageOf(addr);
    SlotInPage(addr);
    OwnedInRam(base, h.s, bk.pages, p);
    HeaderUntouched(h.s.ram, p, Align(addr));
    hide IsSlot;
    FinalHeader(h, addr, p, HeaderOf(AsWritten, addr), AsWritten);
    FinalHeader(h, addr, p, HeaderOf(PageAligned, addr), PageAligned);
  }

  /** After `spfree` the header at `p` holds what the first of its stores left there. */
  lemma FinalHeader(h: Heap, addr: U64, p: nat, hd: U64, mode: Mode)
    requires hd == HeaderOf(mode, addr) && IsSlot(addr) && p % 4096 == 0 && addr + 8 <= |h.s.ram|
    ensures Word(Spfree(mode, h, addr).s.ram, p) == Word(StoreWord(h.s.ram, hd, Inc(Word(h.s.ram, hd))), p)
  {
    hide Word, StoreWord, IsSlot, HeaderOf;
    var m := StoreWord(h.s.ram, hd, Inc(Word(h.s.ram, hd)));
    SlotStore(m, addr, h.slabH);
  }

  /** One step as written equals the page-aligned step exactly when its object is near. */
  lemma {:induction false} StepAgreesIff(base: Bits, r: Run, bk: Ledger, op: Op)
    requires Inv(base, r.h, bk) && bk.live == r.live && Proper(r, op)
    ensures Act(AsWritten, r, op) == Act(PageAligned, r, op) <==> Near(r, op)
  {
    hide Inv, Align, PageOf, Word, StoreWord, NewSlab;
    match op
    case New =>
      HeadersAgreeIff(r.h.slabH);
      if r.h.slabH % 4096 >= 1024 {
        TakeDiffers(base, r.h, bk);
      }
    case Delete(addr) =>
      HeadersAgreeIff(addr);
      if addr % 4096 >= 1024 {
        GiveDiffers(base, r.h, bk, addr);
      }
    case Poke(_, _, _) =>
    case Others(_) =>
  }

  // ---- whole runs ----

  /** Every step of the run is the same either way. */
  predicate Agrees(r: Run, ops: seq<Op>)
    decreases |ops|
  {
    ops != [] ==>
      && Act(AsWritten, r, ops[0]) == Act(PageAligned, r, ops[0])
      && Agrees(Act(PageAligned, r, ops[0]), ops[1..])
  }

  /** At no point of the run are more than `n` objects live. */
  predicate PeakAtMost(r: Run, ops: seq<Op>, n: nat)
    decreases |ops|
  {
    |r.live| <= n && (ops != [] ==> PeakAtMost(Act(PageAligned, r, ops[0]), ops[1..], n))
  }

  /** The objects of page `p` from number `k` on. */
  function RestFrom(p: nat, k: nat): (r: seq<nat>)
    requires k <= 63
    ensures |r| == 63 - k && forall i :: 0 <= i < 63 - k ==> r[i] == p + 8 + 64 * (k + i)
  {
    seq(63 - k, i requires 0 <= i < 63 - k => p + 8 + 64 * (k + i))
  }

  /** One page of which the first `k` objects have been used: they are live or on the front part
      of the list, and the others follow in order. */
  ghost predicate Compact(bk: Ledger, p: nat, front: seq<nat>, k: nat)
  {
    && k <= 16 && bk.pages == {p}
    && bk.chain == front + RestFrom(p, k)
    && |bk.live| + |front| == k
    && (forall x :: x in bk.live || x in front ==> x < p + 8 + 64 * k)
  }

  ghost predicate Few(bk: Ledger)
  {
    (bk.pages == {} && bk.live == {} && bk.chain == []) ||
    exists p: nat, front: seq<nat>, k: nat :: Compact(bk, p, front, k)
  }

  lemma NearSlot(x: nat, p: nat, k: nat)
    requires IsSlot(x) && PageOf(x) == p && p % 4096 == 0 && k < 63
    ensures x < p + 8 + 64 * 16 ==> x % 4096 < 1024
    ensures x == p + 8 + 64 * 16 ==> x % 4096 >= 1024
  {
    var i := SlotIndex(x);
    assert x % 4096 == x - p;
  }

  lemma SeqTail(front: seq<nat>, rest: seq<nat>)
    ensures front != [] ==> (front + rest)[1..] == front[1..] + rest && (front + rest)[0] == front[0]
    ensures front == [] ==> front + rest == rest
  {
  }

  /** A step while at most 16 objects are live: it agrees unless it makes a seventeenth live, and
      otherwise the ledger stays compact. */
  lemma {:induction false} FewStep(base: Bits, r: Run, bk: Ledger, op: Op)
    requires Inv(base, r.h, bk) && bk.live == r.live && Proper(r, op) && Few(bk)
    ensures var bk2 := LedgerAfter(r, bk, op);
            if |bk2.live| <= 16 then Near(r, op) && Few(bk2) else !Near(r, op)
  {
    hide IsSlot, PageOf, Owned, Counted, Word;
    match op
    case Poke(_, _, _) =>
      FewBound(bk);
    case Others(_) =>
      FewBound(bk);
    case New =>
      HeadTells(r.h.s.ram, r.h.slabH, bk);
      if bk.chain == [] {
        FewNewPage(bk, Pmalloc(r.h.s, 1).1);
      } else {
        FewTake(bk, r.h.slabH);
      }
    case Delete(addr) =>
      FewGive(bk, addr);
  }

  lemma FewBound(bk: Ledger)
    requires Few(bk)
    ensures |bk.live| <= 16
  {
  }

  lemma CompactIsLong(bk: Ledger)
    ensures forall p: nat, front: seq<nat>, k: nat :: Compact(bk, p, front, k) ==> |bk.chain| >= 47
  {
  }

  lemma FewNewPage(bk: Ledger, a: nat)
    requires Few(bk) && bk.chain == []
    ensures var bk2 := Ledger(bk.pages + {a}, bk.live + {a + 8}, FreshChain(a)); Few(bk2) && |bk2.live| == 1
  {
    CompactIsLong(bk);
    var bk2 := Ledger(bk.pages + {a}, bk.live + {a + 8}, FreshChain(a));
    assert bk2.live == {a + 8} && bk2.pages == {a};
    assert bk2.chain == [] + RestFrom(a, 1);
    assert Compact(bk2, a, [], 1);
  }

  lemma FewTake(bk: Ledger, head: U64)
    requires LedgerOk(bk) && Few(bk) && bk.chain != [] && head == bk.chain[0]
    ensures var bk2 := Ledger(bk.pages, bk.live + {head}, bk.chain[1..]);
            && |bk2.live| == |bk.live| + 1
            && if |bk2.live| <= 16 then head % 4096 < 1024 && Few(bk2) else head % 4096 >= 1024
  {
    hide IsSlot, PageOf, Compact;
    var p: nat, front: seq<nat>, k: nat :| Compact(bk, p, front, k);
    CompactPage(bk, p, front, k);
    NearSlot(head, p, 0);
    var bk2 := Ledger(bk.pages, bk.live + {head}, bk.chain[1..]);
    if front != [] {
      TakeFront(bk, p, front, k);
      assert Compact(bk2, p, front[1..], k);
    } else {
      TakeRest(bk, p, k);
      assert k < 16 ==> Compact(bk2, p, [], k + 1);
    }
  }

  lemma CompactPage(bk: Ledger, p: nat, front: seq<nat>, k: nat)
    requires LedgerOk(bk) && Compact(bk, p, front, k)
    ensures bk.pages == {p} && p % 4096 == 0 && k <= 16
    ensures bk.chain != [] ==> PageOf(bk.chain[0]) == p && IsSlot(bk.chain[0])
  {
    hide IsSlot, PageOf;
    assert p in bk.pages;
  }

  lemma TakeFront(bk: Ledger, p: nat, front: seq<nat>, k: nat)
    requires LedgerOk(bk) && Compact(bk, p, front, k) && front != []
    ensures bk.chain != [] && bk.chain[0] < p + 8 + 64 * 16 && bk.chain[0] !in bk.live && |bk.live| < 16
    ensures Compact(Ledger(bk.pages, bk.live + {bk.chain[0]}, bk.chain[1..]), p, front[1..], k)
  {
    hide IsSlot, PageOf;
    SeqTail(front, RestFrom(p, k));
    assert forall x :: x in front[1..] ==> x in front;
  }

  lemma TakeRest(bk: Ledger, p: nat, k: nat)
    requires LedgerOk(bk) && Compact(bk, p, [], k)
    ensures bk.chain != [] && bk.chain[0] == p + 8 + 64 * k && bk.chain[0] !in bk.live && |bk.live| == k
    ensures k < 16 ==> Compact(Ledger(bk.pages, bk.live + {bk.chain[0]}, bk.chain[1..]), p, [], k + 1)
  {
    HeadNotLive(bk);
    RestSplit(p, k);
    hide LedgerOk, RestFrom;
    SeqTail([], RestFrom(p, k));
    if k < 16 {
      assert bk.chain[1..] == [] + RestFrom(p, k + 1);
    }
  }

  lemma HeadNotLive(bk: Ledger)
    requires LedgerOk(bk) && bk.chain != []
    ensures bk.chain[0] !in bk.live
  {
  }

  lemma RestSplit(p: nat, k: nat)
    requires k < 63
    ensures RestFrom(p, k) == [p + 8 + 64 * k] + RestFrom(p, k + 1)
  {
  }

  lemma FewGive(bk: Ledger, addr: nat)
    requires LedgerOk(bk) && Few(bk) && addr in bk.live
    ensures addr % 4096 < 1024 && Few(Given(bk, addr)) && |Given(bk, addr).live| <= 16
  {
    hide IsSlot, PageOf;
    var p: nat, front: seq<nat>, k: nat :| Compact(bk, p, front, k);
    assert PageOf(addr) == p && IsSlot(addr);
    NearSlot(addr, p, 0);
    var bk2 := Given(bk, addr);
    if LiveIn(bk.live - {addr}, p) == {} {
      assert LiveIn(bk.live - {addr}, p) == bk.live - {addr};
    } else {
      assert [addr] + (front + RestFrom(p, k)) == ([addr] + front) + RestFrom(p, k);
      assert Compact(bk2, p, [addr] + front, k);
    }
  }

  /** The allocator as written does what was meant, at every step of a proper run, exactly when no
      more than sixteen objects are ever live at once. */
  lemma {:induction false} AsWrittenIffPeak(base: Bits, r: Run, bk: Ledger, ops: seq<Op>)
    requires Inv(base, r.h, bk) && bk.live == r.live && Few(bk) && AllProper(PageAligned, r, ops)
    ensures Agrees(r, ops) <==> PeakAtMost(r, ops, 16)
    decreases |ops|
  {
    hide Inv, Few, Act, LedgerAfter, Near;
    FewBound(bk);
    if ops != [] {
      StepSafe(base, r, bk, ops[0]);
      StepAgreesIff(base, r, bk, ops[0]);
      FewStep(base, r, bk, ops[0]);
      var q := Act(PageAligned, r, ops[0]);
      if |q.live| <= 16 {
        AsWrittenIffPeak(BaseAfter(base, r, ops[0]), q, LedgerAfter(r, bk, ops[0]), ops[1..]);
      }
    }
  }

  /** From a heap that owns no page. */
  lemma {:induction false} AsWrittenFromEmpty(s: Phys, ops: seq<Op>)
    requires Covered(s) && AllProper(PageAligned, Run(Heap(s, 0), {}), ops)
    ensures Agrees(Run(Heap(s, 0), {}), ops) <==> PeakAtMost(Run(Heap(s, 0), {}), ops, 16)
  {
    hide Agrees, PeakAtMost, AllProper;
    EmptyHeap(s);
    AsWrittenIffPeak(s.bits, Run(Heap(s, 0), {}), Ledger({}, {}, []), ops);
  }

  /** Where the steps agree, so do the runs, and the guarantees of the page-aligned allocator are
      those of the code. */
  lemma {:induction false} AgreeingRuns(r: Run, ops: seq<Op>)
    requires Agrees(r, ops)
    ensures ActAll(AsWritten, r, ops) == ActAll(PageAligned, r, ops)
    decreases |ops|
  {
    if ops != [] {
      AgreeingRuns(Act(PageAligned, r, ops[0]), ops[1..]);
    }
  }

  /** So the code as written is safe, and gives everything back, in every proper run from an empty heap
      that never has more than sixteen objects live. */
  lemma {:induction false} AsWrittenSafe(s: Phys, ops: seq<Op>) returns (bk: Ledger)
    requires Covered(s) && AllProper(PageAligned, Run(Heap(s, 0), {}), ops)
    requires PeakAtMost(Run(Heap(s, 0), {}), ops, 16)
    ensures var q := ActAll(AsWritten, Run(Heap(s, 0), {}), ops);
            var base := BaseAtEnd(s.bits, Run(Heap(s, 0), {}), ops);
            && Inv(base, q.h, bk) && bk.live == q.live
            && (q.live == {} ==> q.h.s.bits == base && q.h.slabH == 0)
            && (q.live == {} && (forall op :: op in ops ==> !op.Others?) ==> q.h.s.bits == s.bits)
  {
    hide Agrees, PeakAtMost, AllProper, ActAll, Inv, BaseAtEnd;
    AsWrittenFromEmpty(s, ops);
    AgreeingRuns(Run(Heap(s, 0), {}), ops);
    EmptyHeap(s);
    bk := RunsSafe(s.bits, Run(Heap(s, 0), {}), Ledger({}, {}, []), ops);
    RunsReclaim(s, ops);
  }

  /** What goes wrong at the seventeenth: with sixteen live objects on the first page, the next
      `spmalloc` takes one off the last word of the sixteenth, which its owner holds. */
  lemma {:induction false} SeventeenthCorrupts(base: Bits, r: Run, bk: Ledger, p: nat)
    requires Inv(base, r.h, bk) && bk.live == r.live && Compact(bk, p, [], 16)
    ensures var q := Act(AsWritten, r, New);
            && p + 968 in r.live && PageOf(p + 968) == p
            && Word(q.h.s.ram, p + 1024) == Dec(Word(r.h.s.ram, p + 1024))
            && !ObjectsKept(r.h.s.ram, q.h.s.ram, r.live)
  {
    hide Word, StoreWord, Owned, Counted, Align, PageOf, IsSlot, LiveIn, NewSlab, ObjectsKept;
    HeadTells(r.h.s.ram, r.h.slabH, bk);
    assert bk.chain[0] == p + 8 + 64 * 16;
    assert p in bk.pages && p % 4096 == 0;
    OwnedInRam(base, r.h.s, bk.pages, p);
    FirstSixteenLive(bk, p);
    SlotAt(p, 15);
    SeventeenthHeader(p);
    LastWordHit(r.h.s.ram, p, r.live);
  }

  /** A store into the last word of the object at `p + 968` changes that object. */
  lemma LastWordHit(m: Ram, p: nat, live: set<nat>)
    requires p + 4096 <= |m| && p + 968 in live
    ensures var n := StoreWord(m, p + 1024, Dec(Word(m, p + 1024)));
            Word(n, p + 1024) == Dec(Word(m, p + 1024)) && !ObjectsKept(m, n, live)
  {
    hide Word, StoreWord;
    var hd := p + 1024;
    var n := StoreWord(m, hd, Dec(Word(m, hd)));
    StoreWordEffect(m, hd, Dec(Word(m, hd)));
    if ObjectsKept(m, n, live) {
      forall b | hd <= b < hd + 8
        ensures n[b] == m[b]
      {
        assert p + 968 <= b < p + 968 + 64;
      }
      WordSame(n, m, hd);
    }
  }

  lemma {:induction false} SeventeenthHeader(p: nat)
    requires p % 4096 == 0 && p + 1032 < TWO64
    ensures Align(p + 1032) == p + 1024
  {
    var k := p / 4096;
    assert p == 4096 * k;
    DivModOf(1024, 4 * k + 1, 8);
  }

  lemma FirstSixteenLive(bk: Ledger, p: nat)
    requires LedgerOk(bk) && Compact(bk, p, [], 16)
    ensures p + 968 in bk.live
  {
    hide IsSlot, PageOf, LiveIn, Slots;
    forall x | x in bk.live
      ensures x in Slots(p, 16)
    {
      var i := SlotIndex(x);
      SlotsHas(p, 16, i);
    }
    SubsetCard(bk.live, Slots(p, 16));
    SlotsHas(p, 16, 15);
  }
}
