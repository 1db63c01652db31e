/** What run_elf (kernel/tasks/tasks.c) leaves behind when it accepts a file: the image in the new
    address space, the register frame where the saved stack pointer points, and everyone else as
    they were; and when the stack and segment sizes make the code as written miss that. */
module Process {
  import opened Words
  import opened Memory
  import opened Bitmap
  import opened Pmm
  import opened Vmm
  import opened Spaces
  import opened Elf
  import opened Loader

  // ---- reading through the tables ----

  lemma {:induction false} SamePageWalk(m: Ram, root: nat, page: U64, o: nat)
    requires page % 4096 == 0 && o < 4096 && page + o < TWO64
    ensures Walk(m, root, page + o) == Walk(m, root, page)
    ensures PageNo(page + o) == PageNo(page) && (page + o) % 4096 == o
  {
    hide Entry, Indices, WalkFrom;
    assert page == 4096 * (page / 4096);
    assert (4096 * (page / 4096) + o) / 4096 == page / 4096;
    SamePageIff(page + o, page);
  }

  lemma PageRoom(page: U64, o: nat)
    requires page % 4096 == 0 && o < 4096
    ensures page + o < TWO64
  {
    assert page == 4096 * (page / 4096);
    assert page / 4096 < 0x10_0000_0000_0000;
  }

  /** A placed segment reads back byte for byte through the page tables. */
  lemma {:induction false} ReadPlaced(bits: Bits, t: Phys, tab: Tables, root: nat, f: Image, g: Segment, o: nat)
    requires Placed(bits, t, tab, root, f, g) && Good(g) && o < g.memsz
    ensures SegmentReads(t.ram, root, f, g, o)
  {
    hide Walk, FrameOf, Free, Low;
    var a: nat :| Free(bits, a / 4096) && Backed(t, tab, root, g.vaddr, a, 3) && Filled(t.ram, a, f, g);
    PageRoom(g.vaddr, o);
    SamePageWalk(t.ram, root, g.vaddr, o);
    assert t.ram[a + o] == SegmentByte(f, g, o);
  }

  // ---- the parts of run_elf ----

  /** The new space and its one-page stack. */
  ghost predicate StackReady(s: Phys, tab: Tables, s1: Phys, tab1: Tables, s3: Phys, tab3: Tables, cr3: U64,
                             region: U64)
  {
    && cr3 !in tab && tab1 == tab[cr3 := Pos(cr3, [])]
    && Grew(s, tab, s1, tab1, 1)
    && Moved(s1, tab1, s3, tab3, 4)
    && RootsKept(s, tab, s3, tab3, cr3)
    && Free(s1.bits, region / 4096) && Backed(s3, tab3, cr3, STACK_PAGE, region, 7)
    && (forall r: nat, v: U64 :: IsRoot(tab, r) && Low(v) ==> Walk(s3.ram, r, v) == Walk(s.ram, r, v))
    && (Isolated(s, tab) ==> Isolated(s3, tab3))
  }

  lemma StackPageLow()
    ensures Low(STACK_PAGE) && STACK_PAGE % 4096 == 0
  {
  }

  lemma {:induction false} OneStackPage(s: Phys, root: U64, region: U64)
    ensures MapStack(s, root, region, 1) == MapBlock(s, root, STACK_PAGE, region, 7)
  {
    hide MapBlock;
    assert MapStack(s, root, region, 0) == s;
  }

  lemma {:induction false} PrepareStack(s: Phys, tab: Tables, start: U64) returns (tab1: Tables, tab3: Tables)
    requires start >= 2048 && WF(s, tab) && KernelPage(s, tab, start - 2048) && |FreeSet(s.bits)| >= 5
    ensures var (s1, cr3) := NewPml4(s, start);
            var (s2, region) := Pmalloc(s1, 1);
            var s3 := MapStack(s2, cr3, region, 1);
            && StackReady(s, tab, s1, tab1, s3, tab3, cr3, region)
            && (forall i: nat :: 256 <= i < 512 ==> Entry(s3.ram, cr3, i) == Entry(s.ram, start - 2048, i))
  {
    hide MapBlock, NewPml4, Walk, Entry, FrameOf, LeafEntry, PageNo, MapStack, Pmalloc, Free, FreeSet, Isolated;
    tab1 := NewPml4Refines(s, tab, start - 2048);
    var (s1, cr3) := NewPml4(s, start);
    if Isolated(s, tab) {
      RootIsolated(s, tab, s1, tab1, cr3);
    }
    tab3 := OneStackMapped(s1, tab1, cr3);
    hide Grew;
    var (s2, region) := Pmalloc(s1, 1);
    var s3 := MapStack(s2, cr3, region, 1);
    forall r: nat, v: U64 | IsRoot(tab, r) && Low(v)
      ensures Walk(s3.ram, r, v) == Walk(s.ram, r, v)
    {
      assert IsRoot(tab1, r) && r != cr3;
    }
  }

  /** A new root that maps nothing leaves the spaces isolated. */
  lemma RootIsolated(s: Phys, tab: Tables, s1: Phys, tab1: Tables, cr3: nat)
    requires Isolated(s, tab) && cr3 !in tab && tab1 == tab[cr3 := Pos(cr3, [])] && Grew(s, tab, s1, tab1, 1)
    requires forall v: U64 :: Low(v) ==> Walk(s1.ram, cr3, v) == None
    requires forall r: nat, v: U64 :: IsRoot(tab, r) && Low(v) ==> Walk(s1.ram, r, v) == Walk(s.ram, r, v)
    ensures Isolated(s1, tab1)
  {
    forall r: nat, v: U64 | Maps(s1, tab1, r, v)
      ensures Carried(s, tab, s1, tab1, r, v)
    {
      hide Walk, FrameOf, WF;
      assert r != cr3;
    }
    hide Isolated, Maps, PageBehind, WF, PageNo, Walk, FrameOf;
    IsolatedStep(s, tab, s1, tab1, 1, cr3, 0, 0);
  }

  /** So does any change of memory that leaves all translations. */
  lemma SameIsolated(s: Phys, tab: Tables, m: Ram)
    requires Isolated(s, tab)
    requires forall r: nat, v: U64 :: IsRoot(tab, r) && Low(v) ==> Walk(m, r, v) == Walk(s.ram, r, v)
    ensures Isolated(s.(ram := m), tab)
  {
    var t := s.(ram := m);
    forall r: nat, v: U64 | Maps(t, tab, r, v)
      ensures Carried(s, tab, t, tab, r, v)
    {
      hide Walk, FrameOf;
    }
    hide Maps, PageBehind, PageNo;
  }

  lemma {:induction false} OneStackMapped(s: Phys, tab: Tables, cr3: U64) returns (tab3: Tables)
    requires WF(s, tab) && IsRoot(tab, cr3) && |FreeSet(s.bits)| >= 4
    ensures var (s2, region) := Pmalloc(s, 1);
            var s3 := MapStack(s2, cr3, region, 1);
            && Moved(s, tab, s3, tab3, 4) && IsRoot(tab3, cr3)
            && Free(s.bits, region / 4096) && Backed(s3, tab3, cr3, STACK_PAGE, region, 7)
            && (forall r: nat, v: U64 :: IsRoot(tab, r) && Low(v) && r != cr3 ==>
                  Walk(s3.ram, r, v) == Walk(s.ram, r, v))
            && (Isolated(s, tab) ==> Isolated(s3, tab3))
  {
    hide Isolated, MapBlock, Walk, Entry, FrameOf, LeafEntry, PageNo, MapStack, Pmalloc, Free, FreeSet, EntryOk;
    DataPage(s, tab);
    var (s2, region) := Pmalloc(s, 1);
    OneStackPage(s2, cr3, region);
    StackPageLow();
    tab3 := MapBlockSpare(s2, tab, cr3, STACK_PAGE, region, 7);
    LeafEntryFields(region, 7);
    hide WF;
    var s3 := MapStack(s2, cr3, region, 1);
    MovedTrans(s, tab, s2, tab, s3, tab3, 1, 3);
    if Isolated(s, tab) {
      PageMapped(s, tab, s3, tab3, 4, cr3, STACK_PAGE, region, 7);
    }
  }

  /** Writing inside the stack page: the tables, all translations and every placed segment stay. */
  lemma {:induction false} StackWritten(s1: Phys, tab1: Tables, s3: Phys, s4: Phys, tab4: Tables, k: nat, cr3: U64,
                                        region: U64, m: Ram)
    requires Moved(s1, tab1, s4, tab4, k) && OnlyPage(s4.ram, m, region)
    requires Free(s1.bits, region / 4096) && !Free(s3.bits, region / 4096) && region !in tab4 && region % 4096 == 0
    ensures Moved(s1, tab1, s4.(ram := m), tab4, k)
    ensures forall r: nat, v: U64 :: IsRoot(tab4, r) && Low(v) ==> Walk(m, r, v) == Walk(s4.ram, r, v)
    ensures forall f: Image, g: Segment :: Placed(s3.bits, s4, tab4, cr3, f, g) && Good(g) && IsRoot(tab4, cr3) ==>
              Placed(s3.bits, s4.(ram := m), tab4, cr3, f, g)
  {
    hide Walk, WF, Entry, FrameOf;
    PageWritten(s1, tab1, s4, tab4, k, region, m);
    var t := s4.(ram := m);
    forall f: Image, g: Segment | Placed(s3.bits, s4, tab4, cr3, f, g) && Good(g) && IsRoot(tab4, cr3)
      ensures Placed(s3.bits, t, tab4, cr3, f, g)
    {
      var a: nat :| Free(s3.bits, a / 4096) && Backed(s4, tab4, cr3, g.vaddr, a, 3) && Filled(s4.ram, a, f, g);
      PagesApart(a, region);
      FilledKept(s4.ram, m, a, f, g);
      assert Backed(t, tab4, cr3, g.vaddr, a, 3);
    }
  }

  /** The frame copy stays in the top of the one stack page. */
  lemma FrameCopiedAt(m: Ram, d: U64, r: Frame)
    requires d + 176 <= |m| <= TWO64
    ensures var n := CopyIn(m, d, FrameImage(r), 0, FRAME_BYTES);
            && (forall b: nat :: b < |m| && !(d <= b < d + 176) ==> n[b] == m[b])
            && forall k: nat :: k < 22 ==> Word(n, d + 8 * k) == r[k]
  {
    hide Word, FrameImage;
    CopyInRange(m, d, FrameImage(r), 0, FRAME_BYTES);
    var n := CopyIn(m, d, FrameImage(r), 0, FRAME_BYTES);
    forall k: nat | k < 22
      ensures Word(n, d + 8 * k) == r[k]
    {
      forall b: nat | d <= b < d + 176
        ensures n[b] == FrameImage(r)(b - d)
      {
        assert n[b] == FrameImage(r)(0 + (b - d));
      }
      FrameWord(n, d, r, k);
    }
  }

  lemma FrameCopied(m: Ram, region: U64, r: Frame)
    requires region + 4096 <= |m| <= TWO64
    ensures var n := CopyIn(m, FrameAddress(region, 4096), FrameImage(r), 0, FRAME_BYTES);
            && OnlyPage(m, n, region)
            && forall k: nat :: k < 22 ==> Word(n, region + 3920 + 8 * k) == r[k]
  {
    hide Word, FrameImage, CopyIn;
    assert FrameAddress(region, 4096) == region + 3920;
    FrameCopiedAt(m, region + 3920, r);
  }

  // ---- the whole call ----

  /** Every PT_LOAD segment reads back through the tables: at each of its p_memsz addresses the byte of the
      file up to p_filesz, and zero from there on. */
  ghost predicate ImageReads(m: Ram, cr3: nat, f: Image)
  {
    forall k: nat, o: nat :: k < SegmentCount(f) && SegmentAt(f, k).kind == 1 && o < SegmentAt(f, k).memsz ==>
      SegmentReads(m, cr3, f, SegmentAt(f, k), o)
  }

  ghost predicate SegmentReads(m: Ram, cr3: nat, f: Image, g: Segment, o: nat)
    requires o < g.memsz
  {
    ReadVirt(m, cr3, Advance(g.vaddr, o)) == Some(if o < g.filesz then f(g.offset + o) else 0)
  }

  /** The page of every PT_LOAD segment is present and writable, but for the kernel only; the stack page is
      for user code too. */
  ghost predicate PagesAllow(m: Ram, cr3: nat, f: Image)
  {
    && (forall k: nat :: k < SegmentCount(f) && SegmentAt(f, k).kind == 1 && SegmentAt(f, k).memsz > 0 ==>
          LowBitsAre(m, cr3, SegmentAt(f, k).vaddr, 3))
    && LowBitsAre(m, cr3, 0x7FF_F000, 7)
  }

  /** The low ten bits of the entry that maps `virt`. */
  ghost predicate LowBitsAre(m: Ram, cr3: nat, virt: U64, flags: nat)
  {
    Walk(m, cr3, virt).Some? && Walk(m, cr3, virt).value % 1024 == flags
  }

  /** The stack page at `region` is mapped and has the frame at its top. */
  ghost predicate StackHolds(t: Phys, tab: Tables, cr3: nat, region: nat, r: Frame)
  {
    Backed(t, tab, cr3, STACK_PAGE, region, 7) && forall k: nat :: k < 22 ==> Word(t.ram, region + 3920 + 8 * k) == r[k]
  }

  /** A loaded process: each segment in a page of its own, and the stack with the initial frame. */
  ghost predicate Intact(bits: Bits, t: Phys, tab: Tables, cr3: nat, f: Image, r: Frame)
  {
    && (forall k: nat :: 0 <= k < SegmentCount(f) && Loads(SegmentAt(f, k)) ==>
          Placed(bits, t, tab, cr3, f, SegmentAt(f, k)))
    && exists region: nat :: StackHolds(t, tab, cr3, region, r)
  }

  /** The files that run_elf places right: accepted, with loading segments that are page-aligned, of
      one page each, apart from each other and from the stack page. */
  ghost predicate GoodFile(f: Image, bytes: U32)
  {
    && Refusal(f, bytes) == 0
    && GoodTable(f, 0, SegmentCount(f))
    && PageNo(STACK_PAGE) !in LoadedPages(f, 0, SegmentCount(f))
  }

  /** Blocks that loading the file may take. */
  function Cost(f: Image): nat
  {
    var n: nat := SegmentCount(f);
    5 + 4 * n
  }

  /** run_elf with the one-page stack that the kernel asks for, on a good file and with memory to
      spare: a new root whose space holds the image and the initial frame, whose kernel half is the
      kernel's; no low translation and no kernel half of an earlier space changes, and no used page but
      tables. */
  lemma {:induction false} RunElfLoads(s: Phys, tab: Tables, start: U64, f: Image, bytes: U32, junk: Frame)
    returns (tab2: Tables)
    requires start >= 2048 && WF(s, tab) && KernelPage(s, tab, start - 2048)
    requires GoodFile(f, bytes) && |FreeSet(s.bits)| >= Cost(f)
    ensures var (t, res) := RunElf(s, start, f, bytes, 4096, junk);
            && res.Loaded? && res.rsp == 0x7FF_FF50 && res.cr3 !in tab && RootsKept(s, tab, t, tab2, res.cr3)
            && Grew(s, tab, t, tab2, Cost(f))
            && Intact(s.bits, t, tab2, res.cr3, f, InitialFrame(junk, EntryPoint(f)))
            && (forall r: nat, v: U64 :: IsRoot(tab, r) && Low(v) ==> Walk(t.ram, r, v) == Walk(s.ram, r, v))
            && (forall i: nat :: 256 <= i < 512 ==> Entry(t.ram, res.cr3, i) == Entry(s.ram, start - 2048, i))
            && (Isolated(s, tab) ==> Isolated(t, tab2))
  {
    hide Isolated, NewPml4, Pmalloc, MapStack, LoadSegments, CopyIn, FrameImage, Walk, WF, Entry, PageNo, Intact,
      Backed, Placed, SegmentAt, SegmentCount, EntryPoint, InitialFrame, Refusal, FrameAddress, Free, FreeSet,
      LoadedPages, GoodTable, Grew;
    var tab1, tab3 := PrepareStack(s, tab, start);
    var (s1, cr3) := NewPml4(s, start);
    var (s2, region) := Pmalloc(s1, 1);
    var s3 := MapStack(s2, cr3, region, 1);
    tab2 := PlaceOnStack(s, tab, s1, tab1, s3, tab3, cr3, region, f, bytes);
    var s4 := LoadSegments(s3, cr3, f, 0, SegmentCount(f));
    FrameOnStack(s, tab, s1, tab1, s3, s4, tab2, cr3, region, f, InitialFrame(junk, EntryPoint(f)));
    assert RunElf(s, start, f, bytes, 4096, junk).1 == Loaded(cr3, STACK_TOP - FRAME_BYTES);
  }

  /** The segments are placed, and the stack is where it was. */
  ghost predicate SegmentsReady(s: Phys, tab: Tables, s1: Phys, tab1: Tables, s3: Phys, s4: Phys, tab4: Tables,
                                cr3: U64, region: U64, f: Image)
  {
    && Grew(s, tab, s1, tab1, 1) && Moved(s1, tab1, s4, tab4, 4 + 4 * SegmentCount(f) as nat)
    && (forall q: nat :: Free(s3.bits, q) ==> Free(s.bits, q))
    && RootsKept(s, tab, s4, tab4, cr3)
    && Free(s1.bits, region / 4096) && !Free(s3.bits, region / 4096)
    && Backed(s4, tab4, cr3, STACK_PAGE, region, 7)
    && (forall k: nat :: k < SegmentCount(f) && Loads(SegmentAt(f, k)) ==>
          Placed(s3.bits, s4, tab4, cr3, f, SegmentAt(f, k)))
    && (forall r: nat, v: U64 :: IsRoot(tab, r) && Low(v) ==> Walk(s4.ram, r, v) == Walk(s.ram, r, v))
    && (Isolated(s, tab) ==> Isolated(s4, tab4))
  }

  lemma {:induction false} PlaceOnStack(s: Phys, tab: Tables, s1: Phys, tab1: Tables, s3: Phys, tab3: Tables,
                                        cr3: U64, region: U64, f: Image, bytes: U32) returns (tab4: Tables)
    requires StackReady(s, tab, s1, tab1, s3, tab3, cr3, region)
    requires GoodFile(f, bytes) && |FreeSet(s.bits)| >= Cost(f)
    ensures var s4 := LoadSegments(s3, cr3, f, 0, SegmentCount(f));
            && SegmentsReady(s, tab, s1, tab1, s3, s4, tab4, cr3, region, f)
            && (forall i: nat :: 256 <= i < 512 ==> Entry(s4.ram, cr3, i) == Entry(s3.ram, cr3, i))
  {
    hide Isolated, LoadSegments, Walk, WF, Entry, PageNo, Placed, Backed, SegmentAt, SegmentCount, Free, FreeSet,
      LoadedPages, Refusal;
    var n: nat := SegmentCount(f);
    StackFacts(s3, tab3, cr3, region);
    tab4 := SegmentsPlaced(s3, tab3, cr3, f, 0, n);
    var s4 := LoadSegments(s3, cr3, f, 0, n);
    StackPageLow();
    BackedKept(s3, tab3, s4, tab4, 4 * n, cr3, STACK_PAGE, region, 7);
    MovedTrans(s1, tab1, s3, tab3, s4, tab4, 4, 4 * n);
  }

  lemma {:induction false} FrameOnStack(s: Phys, tab: Tables, s1: Phys, tab1: Tables, s3: Phys, s4: Phys, tab4: Tables,
                                        cr3: U64, region: U64, f: Image, r: Frame)
    requires SegmentsReady(s, tab, s1, tab1, s3, s4, tab4, cr3, region, f) && GoodTable(f, 0, SegmentCount(f))
    ensures var m := CopyIn(s4.ram, FrameAddress(region, 4096), FrameImage(r), 0, FRAME_BYTES);
            var t := s4.(ram := m);
            && Grew(s, tab, t, tab4, Cost(f))
            && Intact(s.bits, t, tab4, cr3, f, r)
            && (forall q: nat, v: U64 :: IsRoot(tab, q) && Low(v) ==> Walk(m, q, v) == Walk(s.ram, q, v))
            && (forall i: nat :: 256 <= i < 512 ==> Entry(m, cr3, i) == Entry(s4.ram, cr3, i))
            && RootsKept(s, tab, t, tab4, cr3)
            && (Isolated(s, tab) ==> Isolated(t, tab4))
  {
    hide Isolated, CopyIn, FrameImage, Walk, WF, Entry, PageNo, Placed, Backed, SegmentAt, SegmentCount, FrameAddress,
      Free, FreeSet;
    var n: nat := SegmentCount(f);
    StackFacts(s4, tab4, cr3, region);
    FrameCopied(s4.ram, region, r);
    var m := CopyIn(s4.ram, FrameAddress(region, 4096), FrameImage(r), 0, FRAME_BYTES);
    StackPageLow();
    StackWritten(s1, tab1, s3, s4, tab4, 4 + 4 * n, cr3, region, m);
    var t := s4.(ram := m);
    GrewTrans(s, tab, s1, tab1, t, tab4, 1, 4 + 4 * n);
    if Isolated(s4, tab4) {
      SameIsolated(s4, tab4, m);
    }
    StackBacked(s4, m, tab4, cr3, region);
    assert StackHolds(t, tab4, cr3, region, r);
    RootEntries(s4, tab4, region, m);
    IntactFrom(s.bits, s3.bits, t, tab4, cr3, f, r);
  }

  /** Writing a page that is no table keeps the entries of every root. */
  lemma RootEntries(s: Phys, tab: Tables, a: nat, m: Ram)
    requires WF(s, tab) && OnlyPage(s.ram, m, a) && a % 4096 == 0 && a !in tab
    ensures forall r: nat, i: nat :: IsRoot(tab, r) && i < 512 ==> Entry(m, r, i) == Entry(s.ram, r, i)
  {
    hide Entry;
    TablesAreUsed(s, tab);
    forall r: nat, i: nat | IsRoot(tab, r) && i < 512
      ensures Entry(m, r, i) == Entry(s.ram, r, i)
    {
      EntryElsewhere(s.ram, m, a, r, i);
    }
  }

  lemma StackFacts(s: Phys, tab: Tables, root: nat, region: U64)
    requires Backed(s, tab, root, STACK_PAGE, region, 7) && WF(s, tab)
    ensures region % 4096 == 0 && region !in tab && !Free(s.bits, region / 4096) && region + 4096 <= |s.ram| <= TWO64
  {
    hide Walk, FrameOf;
  }

  lemma {:induction false} StackBacked(s: Phys, m: Ram, tab: Tables, cr3: nat, region: nat)
    requires Backed(s, tab, cr3, STACK_PAGE, region, 7) && Walk(m, cr3, STACK_PAGE) == Walk(s.ram, cr3, STACK_PAGE) &&
             |m| == |s.ram|
    ensures Backed(s.(ram := m), tab, cr3, STACK_PAGE, region, 7)
  {
    hide Walk, FrameOf;
  }

  lemma IntactFrom(bits: Bits, bits3: Bits, t: Phys, tab: Tables, cr3: nat, f: Image, r: Frame)
    requires forall q: nat :: Free(bits3, q) ==> Free(bits, q)
    requires forall k: nat :: 0 <= k < SegmentCount(f) && Loads(SegmentAt(f, k)) ==>
               Placed(bits3, t, tab, cr3, f, SegmentAt(f, k))
    requires exists region: nat :: StackHolds(t, tab, cr3, region, r)
    ensures Intact(bits, t, tab, cr3, f, r)
  {
    hide Placed, SegmentAt, SegmentCount, StackHolds;
    forall k: nat | 0 <= k < SegmentCount(f) && Loads(SegmentAt(f, k))
      ensures Placed(bits, t, tab, cr3, f, SegmentAt(f, k))
    {
      PlacedWeaken(bits, bits3, t, tab, cr3, f, SegmentAt(f, k));
    }
  }

  // ---- what an intact process sees ----

  /** The word at the virtual address `virt` is `w`. */
  ghost predicate WordAt(m: Ram, cr3: nat, virt: U64, w: U64)
  {
    exists d: nat :: Translate(m, cr3, virt) == Some(d) && Word(m, d) == w
  }

  /** Word `k` of the initial frame: rbp is the top of the stack, rip the entry point, rsp the frame
      itself, and the other nineteen are what the stack held. */
  function Field(junk: Frame, entry: U64, k: nat): U64
    requires k < 22
  {
    if k == 8 then 0x800_0000 else if k == 17 then entry else if k == 20 then 0x7FF_FF50 else junk[k]
  }

  /** The 22 words from the saved stack pointer on. */
  ghost predicate FrameFields(m: Ram, cr3: nat, junk: Frame, entry: U64)
  {
    forall k: nat :: k < 22 ==> WordAt(m, cr3, 0x7FF_FF50 + 8 * k, Field(junk, entry, k))
  }

  /** Reading through its page tables, an intact process finds every byte of its segments, the file's
      up to p_filesz and zero from there to p_memsz, and at its saved stack pointer the initial frame. */
  lemma {:induction false} IntactReads(bits: Bits, t: Phys, tab: Tables, cr3: nat, f: Image, junk: Frame)
    requires GoodTable(f, 0, SegmentCount(f)) && Intact(bits, t, tab, cr3, f, InitialFrame(junk, EntryPoint(f)))
    ensures ImageReads(t.ram, cr3, f) && PagesAllow(t.ram, cr3, f)
    ensures FrameFields(t.ram, cr3, junk, EntryPoint(f))
  {
    hide Placed, SegmentAt, SegmentCount, SegmentReads, Good, StackHolds, FrameFields, InitialFrame, EntryPoint,
      LowBitsAre;
    forall k: nat, o: nat | k < SegmentCount(f) && SegmentAt(f, k).kind == 1 && o < SegmentAt(f, k).memsz
      ensures SegmentReads(t.ram, cr3, f, SegmentAt(f, k), o)
    {
      LoadsMeans(SegmentAt(f, k));
      ReadPlaced(bits, t, tab, cr3, f, SegmentAt(f, k), o);
    }
    forall k: nat | k < SegmentCount(f) && SegmentAt(f, k).kind == 1 && SegmentAt(f, k).memsz > 0
      ensures LowBitsAre(t.ram, cr3, SegmentAt(f, k).vaddr, 3)
    {
      LoadsMeans(SegmentAt(f, k));
      PlacedFlags(bits, t, tab, cr3, f, SegmentAt(f, k));
    }
    var r := InitialFrame(junk, EntryPoint(f));
    var region: nat :| StackHolds(t, tab, cr3, region, r);
    FieldsReached(t, tab, cr3, region, junk, EntryPoint(f));
  }

  /** run_elf on a good file, as the new process sees it: the root and the stack pointer that run_elf
      records lead to the image of the file, in pages that allow access, and to the initial frame. */
  lemma {:induction false} RunElfReads(s: Phys, tab: Tables, start: U64, f: Image, bytes: U32, junk: Frame)
    requires start >= 2048 && WF(s, tab) && KernelPage(s, tab, start - 2048)
    requires GoodFile(f, bytes) && |FreeSet(s.bits)| >= Cost(f)
    ensures var (t, res) := RunElf(s, start, f, bytes, 4096, junk);
            && res.Loaded? && res.rsp == 0x7FF_FF50
            && ImageReads(t.ram, res.cr3, f) && PagesAllow(t.ram, res.cr3, f)
            && FrameFields(t.ram, res.cr3, junk, EntryPoint(f))
  {
    hide RunElf, WF, KernelPage, Intact, GoodTable, ImageReads, PagesAllow, FrameFields, InitialFrame, Walk, Grew;
    var tab2 := RunElfLoads(s, tab, start, f, bytes, junk);
    var (t, res) := RunElf(s, start, f, bytes, 4096, junk);
    IntactReads(s.bits, t, tab2, res.cr3, f, junk);
  }

  lemma PlacedFlags(bits: Bits, t: Phys, tab: Tables, root: nat, f: Image, g: Segment)
    requires Placed(bits, t, tab, root, f, g)
    ensures LowBitsAre(t.ram, root, g.vaddr, 3)
  {
    hide Walk, FrameOf, Free;
  }

  lemma {:induction false} FieldsReached(t: Phys, tab: Tables, cr3: nat, region: nat, junk: Frame, entry: U64)
    requires StackHolds(t, tab, cr3, region, InitialFrame(junk, entry))
    ensures FrameFields(t.ram, cr3, junk, entry) && LowBitsAre(t.ram, cr3, 0x7FF_F000, 7)
  {
    hide Walk, FrameOf, Word, Field, InitialFrame;
    StackPageLow();
    forall k: nat | k < 22
      ensures WordAt(t.ram, cr3, 0x7FF_FF50 + 8 * k, Field(junk, entry, k))
    {
      FrameEntry(junk, entry, k);
      SamePageWalk(t.ram, cr3, STACK_PAGE, 3920 + 8 * k);
      assert STACK_PAGE + (3920 + 8 * k) == 0x7FF_FF50 + 8 * k;
      assert Translate(t.ram, cr3, 0x7FF_FF50 + 8 * k) == Some(region + (3920 + 8 * k));
      assert Word(t.ram, region + 3920 + 8 * k) == InitialFrame(junk, entry)[k];
    }
  }

  /** What run_elf puts into the frame, and what it leaves as the stack held it. */
  lemma FrameEntry(junk: Frame, entry: U64, k: nat)
    requires k < 22
    ensures InitialFrame(junk, entry)[k] == Field(junk, entry, k)
  {
  }
}
