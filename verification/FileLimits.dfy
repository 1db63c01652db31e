/** Which files run_elf (kernel/tasks/tasks.c) places right: of those with one-page segments of the low
    half, exactly the ones whose segments are page-aligned and take pages apart from each other and
    from the stack. */
module FileLimits {
  import opened Words
  import opened Memory
  import opened Bitmap
  import opened Pmm
  import opened Vmm
  import opened Spaces
  import opened Elf
  import opened Loader
  import opened Process
  import opened LoaderLimits

  /** The loading entries from `i` to `n` are small. */
  ghost predicate SmallTable(f: Image, i: nat, n: nat)
  {
    forall k: nat :: i <= k < n && Loads(SegmentAt(f, k)) ==> Small(SegmentAt(f, k))
  }

  /** The memory that the loop, from entry `i` on, takes for entry `k`. */
  function AreaOf(s: Phys, root: U64, f: Image, i: nat, k: nat): U64
    requires i <= k
    decreases k - i
  {
    if i == k then Pmalloc(s, AlignUp(SegmentAt(f, i).memsz)).1
    else AreaOf(LoadSegment(s, root, f, SegmentAt(f, i)), root, f, i + 1, k)
  }

  /** The page behind `virt`, if any. */
  function FrameBehind(m: Ram, root: nat, virt: U64): Option<nat>
  {
    match Walk(m, root, virt)
    case None => None
    case Some(e) => Some(FrameOf(e))
  }

  lemma SamePageFrame(m: Ram, root: nat, v: U64, w: U64)
    requires PageNo(v) == PageNo(w)
    ensures FrameBehind(m, root, v) == FrameBehind(m, root, w)
  {
    hide Walk, PageNo;
    SamePageIff(v, w);
    assert Indices(v) == Indices(w);
    SameIndices(m, root, v, w);
  }

  lemma SameIndices(m: Ram, root: nat, v: U64, w: U64)
    requires Indices(v) == Indices(w)
    ensures Walk(m, root, v) == Walk(m, root, w)
  {
  }

  /** One turn of the loop on a small segment: the page of its address is now backed by the memory taken
      for it, which was free; no other low page is touched. */
  ghost predicate Turned(s: Phys, tab: Tables, t: Phys, tab2: Tables, root: nat, g: Segment, a: nat)
  {
    && WF(t, tab2) && IsRoot(tab2, root) && Framed(s, tab, t, tab2) && |FreeSet(t.bits)| + 4 >= |FreeSet(s.bits)|
    && (forall q: nat :: Free(t.bits, q) ==> Free(s.bits, q))
    && (forall v: U64 :: Low(v) && !(Loads(g) && PageNo(v) == PageNo(g.vaddr)) ==>
          FrameBehind(t.ram, root, v) == FrameBehind(s.ram, root, v))
    && (Loads(g) ==>
          && a % 4096 == 0 && Free(s.bits, a / 4096) && !Free(t.bits, a / 4096)
          && (forall v: U64 :: PageNo(v) == PageNo(g.vaddr) ==> FrameBehind(t.ram, root, v) == Some(a)))
  }

  lemma {:induction false} SmallTurned(s: Phys, tab: Tables, root: U64, f: Image, g: Segment) returns (tab2: Tables)
    requires WF(s, tab) && IsRoot(tab, root) && (Loads(g) ==> Small(g)) && |FreeSet(s.bits)| >= 4
    ensures Turned(s, tab, LoadSegment(s, root, f, g), tab2, root, g, Pmalloc(s, AlignUp(g.memsz)).1)
  {
    hide Walk, PageNo, WF, Entry, FrameOf, LoadSegment, Filled, AlignUp, Low, Pmalloc;
    LoadsMeans(g);
    if Loads(g) {
      var a;
      tab2, a := SegmentPlaced(s, tab, root, f, g);
      OneBlock(g.memsz);
      var t := LoadSegment(s, root, f, g);
      GrewFrames(s, tab, t, tab2, 4);
      forall v: U64 | PageNo(v) == PageNo(g.vaddr)
        ensures FrameBehind(t.ram, root, v) == Some(a)
      {
        SamePageFrame(t.ram, root, v, g.vaddr);
      }
    } else {
      NotLoaded(s, root, f, g);
      tab2 := tab;
    }
  }

  /** The loop on small segments: exactly the pages of loading entries change, and what is behind them
      now was free before. */
  lemma {:induction false} TableFrames(s: Phys, tab: Tables, root: U64, f: Image, i: nat, n: nat) returns (tab2: Tables)
    requires i <= n && WF(s, tab) && IsRoot(tab, root) && SmallTable(f, i, n) && |FreeSet(s.bits)| >= 4 * (n - i)
    ensures var t := LoadSegments(s, root, f, i, n);
            && WF(t, tab2) && IsRoot(tab2, root) && Framed(s, tab, t, tab2)
            && (forall v: U64 :: Low(v) ==>
                  if PageNo(v) in LoadedPages(f, i, n)
                  then FrameBehind(t.ram, root, v).Some? && Free(s.bits, FrameBehind(t.ram, root, v).value / 4096)
                  else FrameBehind(t.ram, root, v) == FrameBehind(s.ram, root, v))
    decreases n - i
  {
    hide LoadSegment, FrameBehind, PageNo, SegmentAt, WF, Loads, Small, Free, FreeSet, Low, Framed, AlignUp, Pmalloc;
    if i == n {
      tab2 := tab;
      FramedSame(s, tab);
    } else {
      var g := SegmentAt(f, i);
      var u := LoadSegment(s, root, f, g);
      FirstPage(f, i, n);
      var tab1 := SmallTurned(s, tab, root, f, g);
      tab2 := TableFrames(u, tab1, root, f, i + 1, n);
      FramedTrans(s, tab, u, tab1, LoadSegments(u, root, f, i + 1, n), tab2);
    }
  }

  lemma FramedSame(s: Phys, tab: Tables)
    ensures Framed(s, tab, s, tab)
  {
  }

  /** A small segment is mapped in place exactly when it is aligned and its page is the one behind its
      address. */
  lemma {:induction false} InPlaceIffFrame(m: Ram, root: nat, g: Segment, a: nat)
    requires Loads(g) && Small(g) && a % 4096 == 0
    ensures MappedInPlace(m, root, g, a) <==> g.vaddr % 4096 == 0 && FrameBehind(m, root, g.vaddr) == Some(a)
  {
    hide Walk, FrameOf, Low;
    if MappedInPlace(m, root, g, a) {
      assert Translate(m, root, Advance(g.vaddr, 0)) == Some(a + 0);
      FrameAligned(m, root, g.vaddr, a);
    }
    if g.vaddr % 4096 == 0 && FrameBehind(m, root, g.vaddr) == Some(a) {
      forall o: nat | o < g.memsz
        ensures Translate(m, root, Advance(g.vaddr, o)) == Some(a + o)
      {
        PageRoom(g.vaddr, o);
        SamePageWalk(m, root, g.vaddr, o);
      }
    }
  }

  lemma FrameAligned(m: Ram, root: nat, v: U64, a: nat)
    requires Translate(m, root, v) == Some(a) && a % 4096 == 0
    ensures v % 4096 == 0 && FrameBehind(m, root, v) == Some(a)
  {
    hide Walk;
    var e := Walk(m, root, v).value;
    assert FrameOf(e) == 4096 * ((e / 4096) % 0x100_0000_0000);
  }

  /** Entry `i` on top of a table that is good from `i + 1` on. */
  lemma GoodTableSplit(f: Image, i: nat, n: nat)
    requires i < n && SmallTable(f, i, n)
    ensures var g := SegmentAt(f, i);
            GoodTable(f, i, n) <==>
            && GoodTable(f, i + 1, n)
            && (Loads(g) ==> g.vaddr % 4096 == 0 && PageNo(g.vaddr) !in LoadedPages(f, i + 1, n))
  {
    hide PageNo, SegmentAt, Loads, Small;
  }

  /** The loop places every loading entry of a table of small segments for good exactly when all are
      page-aligned and no two have a page in common: of two on one page, the first is unmapped by the
      second. The translations may be looked up in any later memory `m` that kept them. */
  lemma {:induction false} TableInPlaceIff(s: Phys, tab: Tables, root: U64, f: Image, i: nat, n: nat, m: Ram)
    requires i <= n && WF(s, tab) && IsRoot(tab, root) && SmallTable(f, i, n) && |FreeSet(s.bits)| >= 4 * (n - i)
    requires var t := LoadSegments(s, root, f, i, n);
             forall v: U64 :: Low(v) ==> FrameBehind(m, root, v) == FrameBehind(t.ram, root, v)
    ensures (forall k: nat :: i <= k < n && Loads(SegmentAt(f, k)) ==>
               MappedInPlace(m, root, SegmentAt(f, k), AreaOf(s, root, f, i, k))) <==> GoodTable(f, i, n)
    decreases n - i
  {
    hide LoadSegment, FrameBehind, PageNo, SegmentAt, WF, Loads, Small, Good, Free, FreeSet, Low, Framed, MappedInPlace,
      LoadedPages, Pmalloc, AlignUp;
    if i < n {
      var g := SegmentAt(f, i);
      var u := LoadSegment(s, root, f, g);
      var a := AreaOf(s, root, f, i, i);
      var tab1 := SmallTurned(s, tab, root, f, g);
      TableInPlaceIff(u, tab1, root, f, i + 1, n, m);
      var tab2 := TableFrames(u, tab1, root, f, i + 1, n);
      if Loads(g) {
        SmallIsLow(g);
        InPlaceIffFrame(m, root, g, a);
      }
      GoodTableSplit(f, i, n);
      forall k: nat | i < k < n
        ensures AreaOf(s, root, f, i, k) == AreaOf(u, root, f, i + 1, k)
      {
      }
    } else {
      hide GoodTable;
      NothingInTable(f, n);
    }
  }

  lemma SmallIsLow(g: Segment)
    requires Small(g)
    ensures Low(g.vaddr)
  {
  }

  lemma NothingInTable(f: Image, n: nat)
    ensures GoodTable(f, n, n)
  {
  }

  // ---- the whole call ----

  /** What run_elf has when it comes to the segments: memory, the new root, and the stack's memory. */
  function AfterStack(s: Phys, start: U64): (Phys, U64, U64)
  {
    var (s1, cr3) := NewPml4(s, start);
    var (s2, region) := Pmalloc(s1, 1);
    (MapStack(s2, cr3, region, 1), cr3, region)
  }

  /** Each loading segment is mapped where its bytes were copied, and the saved stack pointer leads to
      where the frame was. */
  ghost predicate FileInPlace(m: Ram, s3: Phys, cr3: U64, region: U64, f: Image)
  {
    && (forall k: nat :: 0 <= k < SegmentCount(f) && Loads(SegmentAt(f, k)) ==>
          MappedInPlace(m, cr3, SegmentAt(f, k), AreaOf(s3, cr3, f, 0, k)))
    && Translate(m, cr3, STACK_TOP - FRAME_BYTES) == Some(FrameAddress(region, 4096))
  }

  /** Writing a page that is no table changes no translation. */
  lemma {:induction false} PageFrames(s: Phys, tab: Tables, root: nat, a: nat, m: Ram)
    requires WF(s, tab) && IsRoot(tab, root) && OnlyPage(s.ram, m, a) && a % 4096 == 0 && a !in tab
    ensures forall v: U64 :: Low(v) ==> FrameBehind(m, root, v) == FrameBehind(s.ram, root, v)
  {
    hide Entry, FrameOf, Low;
    TablesAreUsed(s, tab);
    forall p: nat, i: nat | p in tab && i < 512
      ensures Entry(m, p, i) == Entry(s.ram, p, i)
    {
      EntryElsewhere(s.ram, m, a, p, i);
    }
    SameEntriesWF(s, tab, s.(ram := m));
  }

  /** The stack page leads to the frame exactly when it still has its own memory behind it. */
  lemma {:induction false} StackIffFrame(m: Ram, cr3: nat, region: U64)
    requires region % 4096 == 0 && region + 4096 <= TWO64
    ensures Translate(m, cr3, STACK_TOP - FRAME_BYTES) == Some(FrameAddress(region, 4096)) <==>
            FrameBehind(m, cr3, STACK_PAGE) == Some(region)
  {
    hide Walk, FrameOf;
    StackPageLow();
    SamePageWalk(m, cr3, STACK_PAGE, 3920);
    assert FrameAddress(region, 4096) == region + 3920;
    assert STACK_TOP - FRAME_BYTES == STACK_PAGE + 3920;
  }

  lemma {:induction false} SegmentsInPlaceIff(s: Phys, tab: Tables, s1: Phys, tab1: Tables, s3: Phys, tab3: Tables,
                                              cr3: U64, region: U64, f: Image, r: Frame)
    requires StackReady(s, tab, s1, tab1, s3, tab3, cr3, region)
    requires SmallTable(f, 0, SegmentCount(f)) && |FreeSet(s.bits)| >= Cost(f)
    ensures var t := LoadSegments(s3, cr3, f, 0, SegmentCount(f));
            var m := CopyIn(t.ram, FrameAddress(region, 4096), FrameImage(r), 0, FRAME_BYTES);
            FileInPlace(m, s3, cr3, region, f) <==>
            GoodTable(f, 0, SegmentCount(f)) && PageNo(STACK_PAGE) !in LoadedPages(f, 0, SegmentCount(f))
  {
    hide LoadSegments, FrameBehind, PageNo, SegmentAt, SegmentCount, WF, Loads, Small, Free, FreeSet, Low,
      MappedInPlace, LoadedPages, CopyIn, FrameImage, FrameAddress, GoodTable, Translate, AreaOf, SmallTable, Isolated,
      Walk;
    var n: nat := SegmentCount(f);
    StackFacts(s3, tab3, cr3, region);
    StackBehind(s3, tab3, cr3, region);
    var t := LoadSegments(s3, cr3, f, 0, n);
    var tab4 := TableFrames(s3, tab3, cr3, f, 0, n);
    RegionKept(s3, tab3, t, tab4, region);
    FrameCopied(t.ram, region, r);
    var m := CopyIn(t.ram, FrameAddress(region, 4096), FrameImage(r), 0, FRAME_BYTES);
    PageFrames(t, tab4, cr3, region, m);
    TableInPlaceIff(s3, tab3, cr3, f, 0, n, m);
    StackIffFrame(m, cr3, region);
    StackPageLow();
  }

  lemma StackBehind(s: Phys, tab: Tables, root: nat, region: nat)
    requires Backed(s, tab, root, STACK_PAGE, region, 7)
    ensures FrameBehind(s.ram, root, STACK_PAGE) == Some(region)
  {
    hide Walk, FrameOf;
  }

  lemma RegionKept(s: Phys, tab: Tables, t: Phys, tab2: Tables, region: nat)
    requires Framed(s, tab, t, tab2) && region % 4096 == 0 && !Free(s.bits, region / 4096) && region !in tab
    ensures region !in tab2 && |t.ram| == |s.ram|
  {
    hide Free;
    assert 4096 * (region / 4096) == region;
  }

  /** Among the accepted files whose loading segments are small, and with memory to spare, run_elf leaves
      every segment and the stack mapped to where it put them exactly for the good ones. */
  lemma {:induction false} GoodFileIff(s: Phys, tab: Tables, start: U64, f: Image, bytes: U32, junk: Frame)
    requires start >= 2048 && WF(s, tab) && KernelPage(s, tab, start - 2048) && |FreeSet(s.bits)| >= Cost(f)
    requires Refusal(f, bytes) == 0 && SmallTable(f, 0, SegmentCount(f))
    ensures var (t, res) := RunElf(s, start, f, bytes, 4096, junk);
            var (s3, cr3, region) := AfterStack(s, start);
            FileInPlace(t.ram, s3, cr3, region, f) <==> GoodFile(f, bytes)
  {
    hide NewPml4, Pmalloc, MapStack, LoadSegments, CopyIn, FrameImage, Walk, WF, Entry, PageNo, SegmentAt, SegmentCount,
      EntryPoint, InitialFrame, Refusal, FrameAddress, Free, FreeSet, LoadedPages, GoodTable, SmallTable, FileInPlace,
      Grew, KernelPage, StackReady;
    var tab1, tab3 := PrepareStack(s, tab, start);
    var (s1, cr3) := NewPml4(s, start);
    var (s3, _, region) := AfterStack(s, start);
    SegmentsInPlaceIff(s, tab, s1, tab1, s3, tab3, cr3, region, f, InitialFrame(junk, EntryPoint(f)));
  }
}
