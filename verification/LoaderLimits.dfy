/** Where run_elf (kernel/tasks/tasks.c) is right as written, and where not: the exact conditions on
    segment sizes, alignment and stack size under which its mappings meet its copies. */
module LoaderLimits {
  import opened Words
  import opened Memory
  import opened Bitmap
  import opened Pmm
  import opened Vmm
  import opened Spaces
  import opened Elf
  import opened Loader
  import opened Process

  // ---- segments ----

  /** Every address of the segment translates to the byte of its memory that the copy will fill. */
  ghost predicate MappedInPlace(m: Ram, root: nat, g: Segment, a: nat)
  {
    forall o: nat :: o < g.memsz ==> Translate(m, root, Advance(g.vaddr, o)) == Some(a + o)
  }

  /** The one entry that a segment's mapping writes. */
  lemma OnePageMapped(s: Phys, tab: Tables, root: U64, g: Segment) returns (tab2: Tables)
    requires WF(s, tab) && IsRoot(tab, root) && Low(g.vaddr) && |FreeSet(s.bits)| >= 4 && AlignUp(g.memsz) == 1
    ensures var (u, a) := MapSegment(s, root, g);
            && a % 4096 == 0 && a < 0x10_0000_0000_0000
            && Walk(u.ram, root, g.vaddr) == Some(LeafEntry(a, 3))
            && (forall v: U64 :: Low(v) && PageNo(v) != PageNo(g.vaddr) ==>
                  Walk(u.ram, root, v) == Walk(s.ram, root, v))
  {
    hide MapBlock, Walk, Entry, LeafEntry, PageNo, AlignUp;
    DataPage(s, tab);
    var (t, a) := Pmalloc(s, 1);
    assert MapRange(t, root, g.vaddr, a, 0, 3) == t;
    assert MapRange(t, root, g.vaddr, a, 1, 3) == MapBlock(t, root, g.vaddr, a, 3);
    tab2 := MapBlockSpare(t, tab, root, g.vaddr, a, 3);
  }

  /** What a segment has behind its first page was in place before. */
  ghost predicate RestInPlace(s: Phys, root: nat, g: Segment, a: nat)
  {
    forall o: nat :: 4096 <= o < g.memsz ==> Translate(s.ram, root, Advance(g.vaddr, o)) == Some(a + o)
  }

  /** A loading segment of the low half is mapped where its bytes will be exactly when its address is
      page-aligned and what it has behind its first page happened to be mapped there before; so it never
      is when it needs more than one page and the second was not mapped. */
  lemma {:induction false} MappedInPlaceIff(s: Phys, tab: Tables, root: U64, g: Segment)
    requires WF(s, tab) && IsRoot(tab, root) && Loads(g) && |FreeSet(s.bits)| >= 4
    requires Low(g.vaddr) && (g.memsz > 4096 ==> g.vaddr + g.memsz <= 0x8000_0000_0000)
    ensures var (u, a) := MapSegment(s, root, g);
            && (MappedInPlace(u.ram, root, g, a) <==> g.vaddr % 4096 == 0 && RestInPlace(s, root, g, a))
            && (g.memsz <= 4096 ==> (MappedInPlace(u.ram, root, g, a) <==> g.vaddr % 4096 == 0))
            && (g.memsz > 4096 && Walk(s.ram, root, g.vaddr + 4096) == None ==> !MappedInPlace(u.ram, root, g, a))
  {
    hide MapSegment, Walk, Entry, LeafEntry, PageNo, FrameOf, WF, Low, AlignUp;
    var (u, a) := MapSegment(s, root, g);
    OneBlock(g.memsz);
    var tab2 := OnePageMapped(s, tab, root, g);
    LeafEntryFields(a, 3);
    FirstByte(u, root, g, a);
    if g.vaddr % 4096 == 0 {
      forall o: nat | o < g.memsz && o < 4096
        ensures Translate(u.ram, root, Advance(g.vaddr, o)) == Some(a + o)
      {
        PageRoom(g.vaddr, o);
        SamePageWalk(u.ram, root, g.vaddr, o);
      }
      forall o: nat | 4096 <= o < g.memsz
        ensures Translate(u.ram, root, Advance(g.vaddr, o)) == Translate(s.ram, root, Advance(g.vaddr, o))
      {
        LaterPage(g.vaddr, o);
      }
      if g.memsz > 4096 && Walk(s.ram, root, g.vaddr + 4096) == None {
        assert Translate(s.ram, root, Advance(g.vaddr, 4096)) == None;
      }
    }
  }

  lemma {:induction false} OneBlock(n: U64)
    requires n != 0 && (n > 4096 ==> n <= 0x8000_0000_0000)
    ensures AlignUp(n) == 1
  {
  }

  lemma {:induction false} LaterPage(v: U64, o: nat)
    requires v % 4096 == 0 && o >= 4096 && v + o < 0x8000_0000_0000
    ensures Advance(v, o) == v + o && Low(v + o) && PageNo(v + o) != PageNo(v)
  {
    LowAddress(v + o);
    assert v == 4096 * (v / 4096);
    assert (v + o) / 4096 >= v / 4096 + 1;
  }

  lemma {:induction false} FirstByte(u: Phys, root: nat, g: Segment, a: U64)
    requires Loads(g) && Walk(u.ram, root, g.vaddr) == Some(LeafEntry(a, 3)) && FrameOf(LeafEntry(a, 3)) == a
    ensures MappedInPlace(u.ram, root, g, a) ==> g.vaddr % 4096 == 0
  {
    hide Walk, FrameOf, LeafEntry;
    assert MappedInPlace(u.ram, root, g, a) ==> Translate(u.ram, root, Advance(g.vaddr, 0)) == Some(a + 0);
  }

  // ---- more file bytes than memory ----

  /** With p_filesz above p_memsz, the length of the clearing memset wraps, and it clears all of RAM
      outside a window of the segment's own page. */
  lemma WrappedClear(m: Ram, a: U64, f: Image, g: Segment)
    requires a + 4096 <= |m| <= TWO64 && g.memsz < g.filesz <= 4096
    ensures var n := MemSet(CopyIn(m, a, f, g.offset, g.filesz), Advance(a, g.filesz), 0, Wrap64(g.memsz - g.filesz));
            forall b: nat :: b < |m| && !(a + g.memsz <= b < a + g.filesz) ==> n[b] == 0
  {
    assert Wrap64(g.memsz - g.filesz) == TWO64 - (g.filesz - g.memsz);
  }

  /** A page-aligned segment with at most a page of memory and of file bytes stays mapped after its
      load exactly when it has no more file bytes than memory. */
  lemma {:induction false} StaysMappedIff(s: Phys, tab: Tables, root: U64, f: Image, g: Segment)
    requires WF(s, tab) && IsRoot(tab, root) && Loads(g) && Low(g.vaddr) && g.vaddr % 4096 == 0
    requires g.memsz <= 4096 && g.filesz <= 4096 && |FreeSet(s.bits)| >= 4
    ensures Walk(LoadSegment(s, root, f, g).ram, root, g.vaddr).Some? <==> g.filesz <= g.memsz
  {
    hide Walk, WF, LoadSegment, Filled;
    if g.filesz <= g.memsz {
      var tab2, a := SegmentPlaced(s, tab, root, f, g);
    } else {
      MappingLost(s, tab, root, f, g);
    }
  }

  lemma MappingLost(s: Phys, tab: Tables, root: U64, f: Image, g: Segment)
    requires WF(s, tab) && IsRoot(tab, root) && g.kind == 1 && Low(g.vaddr)
    requires 0 < g.memsz < g.filesz <= 4096 && |FreeSet(s.bits)| >= 4
    ensures Walk(LoadSegment(s, root, f, g).ram, root, g.vaddr) == None
  {
    hide Walk, WF, LoadSegment, MapBlock, FillSegment;
    LoadSegmentSteps(s, root, f, g);
    DataPage(s, tab);
    var (t, a) := Pmalloc(s, 1);
    var u := MapBlock(t, root, g.vaddr, a, 3);
    var tab2 := MapBlockSpare(t, tab, root, g.vaddr, a, 3);
    hide Pmalloc;
    PageOnly(u.ram, a, f, g);
    RootCleared(s, tab, root, a, LoadSegment(s, root, f, g).ram, g.vaddr);
  }

  lemma PageOnly(m: Ram, a: U64, f: Image, g: Segment)
    requires a + 4096 <= |m| <= TWO64 && g.memsz < g.filesz <= 4096
    ensures forall b: nat :: b < |m| && !(a <= b < a + 4096) ==> FillSegment(m, a, f, g)[b] == 0
  {
    WrappedClear(m, a, f, g);
  }

  lemma RootCleared(s: Phys, tab: Tables, root: nat, a: nat, m: Ram, v: U64)
    requires WF(s, tab) && IsRoot(tab, root) && |m| == |s.ram| && a % 4096 == 0 && root != a
    requires forall b: nat :: b < |m| && !(a <= b < a + 4096) ==> m[b] == 0
    ensures Walk(m, root, v) == None
  {
    hide EntryOk;
    assert TableOk(s, tab, root);
    assert root + 4096 <= a || a + 4096 <= root by {
      assert root == 4096 * (root / 4096) && a == 4096 * (a / 4096);
    }
    ZeroLE(m, root + 8 * Indices(v)[0], 8);
  }

  // ---- the stack ----

  /** Memory taken for the stack, however many blocks: tables and translations stay. */
  lemma DataRun(s: Phys, tab: Tables, n: U32)
    requires WF(s, tab)
    ensures var (t, a) := Pmalloc(s, n);
            && WF(t, tab) && a % 4096 == 0 && a < 0x10_0000_0000_0000
            && (forall r: nat, v: U64 :: IsRoot(tab, r) && Low(v) ==> Walk(t.ram, r, v) == Walk(s.ram, r, v))
  {
    hide Walk, Entry, EntryOk;
    var (t, a) := Pmalloc(s, n);
    if Pick(s.bits, n).Some? {
      var p := Pick(s.bits, n).value;
      assert Free(s.bits, p);
      TablesAreUsed(s, tab);
      MemSetRange(s.ram, 4096 * p, 0, 4096);
      hide MemSet, Marked, Limit;
      forall q: nat, i: nat | q in tab && i < 512
        ensures Entry(t.ram, q, i) == Entry(s.ram, q, i)
      {
        EntryElsewhere(s.ram, t.ram, 4096 * p, q, i);
      }
      SameEntriesWF(s, tab, t);
    }
  }

  lemma StackPagesApart(i: nat, j: nat)
    requires i < j < 0x10_0000
    ensures Low(Wrap32(STACK_PAGE - 4096 * j))
    ensures PageNo(Wrap32(STACK_PAGE - 4096 * i)) != PageNo(Wrap32(STACK_PAGE - 4096 * j))
  {
    var v, w := Wrap32(STACK_PAGE - 4096 * i), Wrap32(STACK_PAGE - 4096 * j);
    LowAddress(w);
    assert w == STACK_PAGE - 4096 * j || w == STACK_PAGE - 4096 * j + TWO32;
    assert v == STACK_PAGE - 4096 * i || v == STACK_PAGE - 4096 * i + TWO32;
    assert w / 4096 == 0x7FFF - j || w / 4096 == 0x7FFF - j + 0x10_0000;
    assert v / 4096 == 0x7FFF - i || v / 4096 == 0x7FFF - i + 0x10_0000;
  }

  /** The page of the stack that is `j` below the highest is mapped to the frame that is `j` above the
      lowest. */
  ghost predicate StackLink(m: Ram, root: nat, region: U64, j: nat)
  {
    Walk(m, root, (0x7FF_F000 - 4096 * j) % 0x1_0000_0000) ==
    Some(LeafEntry((region + 4096 * j) % 0x1_0000_0000_0000_0000, 7))
  }

  lemma LinkKept(m: Ram, t: Ram, root: nat, region: U64, j: nat, k: nat)
    requires j < k < 0x10_0000 && StackLink(m, root, region, j)
    requires forall v: U64 :: Low(v) && PageNo(v) != PageNo(Wrap32(STACK_PAGE - 4096 * k)) ==>
               Walk(t, root, v) == Walk(m, root, v)
    ensures StackLink(t, root, region, j)
  {
    hide Walk, PageNo, Low, LeafEntry;
    StackPageLow();
    StackPagesApart(j, k);
    if j > 0 {
      StackPagesApart(0, j);
    }
  }

  /** The stack loop links every page of the stack. */
  lemma {:induction false} StackMapped(s: Phys, tab: Tables, root: U64, region: U64, n: nat) returns (tab2: Tables)
    requires WF(s, tab) && IsRoot(tab, root) && n < 0x10_0000 && |FreeSet(s.bits)| >= 3 * n
    ensures var t := MapStack(s, root, region, n);
            && WF(t, tab2) && IsRoot(tab2, root) && |FreeSet(t.bits)| + 3 * n >= |FreeSet(s.bits)|
            && (n == 0 ==> t == s)
            && (forall j: nat :: j < n ==> StackLink(t.ram, root, region, j))
    decreases n
  {
    hide MapBlock, Walk, PageNo, LeafEntry, Entry, WF, StackLink;
    if n == 0 {
      tab2 := tab;
    } else {
      var tab1 := StackMapped(s, tab, root, region, n - 1);
      var u := MapStack(s, root, region, n - 1);
      var t := MapStack(s, root, region, n);
      var v := Wrap32(STACK_PAGE - 4096 * (n - 1));
      StackPageLow();
      if n > 1 {
        StackPagesApart(0, n - 1);
      }
      tab2 := MapBlockSpare(u, tab1, root, v, Advance(region, Wrap32(4096 * (n - 1))), 7);
      assert StackLink(t.ram, root, region, n - 1) by { NewLink(t.ram, root, region, n - 1); }
      forall j: nat | j < n - 1
        ensures StackLink(t.ram, root, region, j)
      {
        LinkKept(u.ram, t.ram, root, region, j, n - 1);
      }
    }
  }

  lemma NewLink(m: Ram, root: nat, region: U64, j: nat)
    requires j < 0x10_0000
    requires Walk(m, root, Wrap32(STACK_PAGE - 4096 * j)) == Some(LeafEntry(Advance(region, Wrap32(4096 * j)), 7))
    ensures StackLink(m, root, region, j)
  {
    hide Walk, LeafEntry;
    assert Wrap32(4096 * j) == 4096 * j;
    AdvanceIs(region, 4096 * j);
  }

  /** With a stack of any size, the frame goes to the last 176 bytes of the memory that is taken for its whole
      pages and the rest, when all of that is RAM; and the stack pointer is the same for every size. */
  lemma {:induction false} FrameGoes(s: Phys, start: U64, f: Image, bytes: U32, n: nat, r: nat, junk: Frame)
    requires Refusal(f, bytes) == 0 && r < 4096 && 4096 * n + r < 0x1_0000_0000
    ensures var (s1, cr3) := NewPml4(s, start);
            var (s2, region) := Pmalloc(s1, n);
            var u := LoadSegments(MapStack(s2, cr3, region, n), cr3, f, 0, SegmentCount(f));
            var (t, res) := RunElf(s, start, f, bytes, 4096 * n + r, junk);
            var d := region + 4096 * n + r - 176;
            && res == Loaded(cr3, 0x7FF_FF50) && t.bits == u.bits && |t.ram| == |u.ram|
            && (0 <= d && d + 176 <= |u.ram| <= TWO64 ==>
                  && (forall b: nat :: b < |u.ram| && !(d <= b < d + 176) ==> t.ram[b] == u.ram[b])
                  && forall k: nat :: k < 22 ==> Word(t.ram, d + 8 * k) == Field(junk, EntryPoint(f), k))
  {
    hide NewPml4, Pmalloc, LoadSegments, MapStack, CopyIn, Refusal, SegmentCount, EntryPoint, FrameImage, InitialFrame,
      Field, Word;
    DivModOf(4096, n, r);
    var (s1, cr3) := NewPml4(s, start);
    var (s2, region) := Pmalloc(s1, n);
    var u := LoadSegments(MapStack(s2, cr3, region, n), cr3, f, 0, SegmentCount(f));
    var d := region + 4096 * n + r - 176;
    if 0 <= d && d + 176 <= |u.ram| <= TWO64 {
      var frame := InitialFrame(junk, EntryPoint(f));
      FrameCopiedAt(u.ram, d, frame);
      forall k: nat | k < 22
        ensures frame[k] == Field(junk, EntryPoint(f), k)
      {
        FrameEntry(junk, EntryPoint(f), k);
      }
    }
  }

  /** In a space that maps nothing at the stack yet, and with memory for its tables, the saved stack
      pointer reaches the frame exactly when the stack is one page. */
  lemma {:induction false} FrameReachedIff(s: Phys, tab: Tables, root: U64, stackbytes: U32)
    requires WF(s, tab) && IsRoot(tab, root) && Walk(s.ram, root, STACK_PAGE) == None
    requires |FreeSet(Pmalloc(s, stackbytes / 4096).0.bits)| >= 3 * (stackbytes / 4096)
    ensures var (t, region) := Pmalloc(s, stackbytes / 4096);
            var u := MapStack(t, root, region, stackbytes / 4096);
            Translate(u.ram, root, STACK_TOP - FRAME_BYTES) == Some(FrameAddress(region, stackbytes)) <==>
              stackbytes == 4096
  {
    hide Walk, Entry, WF, MapStack, Pmalloc, LeafEntry, FrameOf, FreeSet;
    var n := stackbytes / 4096;
    StackPageLow();
    DataRun(s, tab, n);
    var (t, region) := Pmalloc(s, n);
    var tab2 := StackMapped(t, tab, root, region, n);
    var u := MapStack(t, root, region, n);
    assert n > 0 ==> Walk(u.ram, root, STACK_PAGE) == Some(LeafEntry(region, 7)) by {
      assert n > 0 ==> StackLink(u.ram, root, region, 0);
    }
    SamePageWalk(u.ram, root, STACK_PAGE, 3920);
    LeafEntryFields(region, 7);
  }
}
