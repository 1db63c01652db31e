/** run_elf of kernel/tasks/tasks.c: a new address space, a stack, the segments of the file and the
    initial register frame. The byte-for-byte guarantee follows the "Program Header" section of
    chapter 5 of the System V gABI: file bytes first, zeros up to p_memsz. */
module Loader {
  import opened Words
  import opened Memory
  import opened Bitmap
  import opened Pmm
  import opened Vmm
  import opened Spaces
  import opened Elf

  datatype LoadResult = Refused(code: nat) | Loaded(cr3: U64, rsp: U64)

  // ---- the C code ----

  /** The loop that maps `n` consecutive pages of a segment. */
  function MapRange(s: Phys, root: U64, virt: U64, phys: U64, n: nat, flags: U64): Phys
    requires 4096 * n < TWO64
  {
    if n == 0 then s
    else
      var d := 4096 * (n - 1);
      MapBlock(MapRange(s, root, virt, phys, n - 1, flags), root, Advance(virt, d), Advance(phys, d), flags)
  }

  /** The memory taken for a segment, and the state once it is mapped. */
  function MapSegment(s: Phys, root: U64, g: Segment): (Phys, U64)
  {
    var n := AlignUp(g.memsz);
    var (t, a) := Pmalloc(s, n);
    (MapRange(t, root, g.vaddr, a, n, 3), a)
  }

  /** The bytes of the file, and the clearing behind them. */
  function FillSegment(m: Ram, a: U64, f: Image, g: Segment): (r: Ram)
    ensures |r| == |m|
  {
    MemSet(CopyIn(m, a, f, g.offset, g.filesz), Advance(a, g.filesz), 0, Wrap64(g.memsz - g.filesz))
  }

  function LoadSegment(s: Phys, root: U64, f: Image, g: Segment): Phys
  {
    if !Loads(g) then s
    else
      var (u, a) := MapSegment(s, root, g);
      u.(ram := FillSegment(u.ram, a, f, g))
  }

  function LoadSegments(s: Phys, root: U64, f: Image, i: nat, n: nat): Phys
    requires i <= n
    decreases n - i
  {
    if i == n then s else LoadSegments(LoadSegment(s, root, f, SegmentAt(f, i)), root, f, i + 1, n)
  }

  /** The loop that maps the stack, from its highest page down, to ascending frames. */
  function MapStack(s: Phys, root: U64, region: U64, n: nat): Phys
  {
    if n == 0 then s
    else
      MapBlock(MapStack(s, root, region, n - 1), root, Wrap32(STACK_PAGE - 4096 * (n - 1)),
               Advance(region, Wrap32(4096 * (n - 1))), 7)
  }

  /** The address that the frame is copied to. */
  function FrameAddress(region: U64, stackbytes: U32): U64 { Wrap64(region + stackbytes - FRAME_BYTES) }

  function RunElf(s: Phys, start: U64, f: Image, bytes: U32, stackbytes: U32, junk: Frame): (Phys, LoadResult)
  {
    if Refusal(f, bytes) != 0 then (s, Refused(Refusal(f, bytes)))
    else
      var (s1, cr3) := NewPml4(s, start);
      var (s2, region) := Pmalloc(s1, stackbytes / 4096);
      var s3 := MapStack(s2, cr3, region, stackbytes / 4096);
      var s4 := LoadSegments(s3, cr3, f, 0, SegmentCount(f));
      var frame := InitialFrame(junk, EntryPoint(f));
      (s4.(ram := CopyIn(s4.ram, FrameAddress(region, stackbytes), FrameImage(frame), 0, FRAME_BYTES)),
       Loaded(cr3, STACK_TOP - FRAME_BYTES))
  }

  /** The byte that a program running in the space `root` reads at `virt`. */
  function ReadVirt(m: Ram, root: nat, virt: U64): Option<Byte>
  {
    match Translate(m, root, virt)
    case None => None
    case Some(a) => Some(Load(m, a))
  }

  // ---- steps that keep the tables ----

  /** From (s, tab) to (t, tab2) with at most `k` blocks taken: the same roots, and their kernel
      halves untouched. */
  ghost predicate Moved(s: Phys, tab: Tables, t: Phys, tab2: Tables, k: nat)
  {
    && Grew(s, tab, t, tab2, k)
    && (forall r: nat :: IsRoot(tab2, r) <==> IsRoot(tab, r))
    && (forall r: nat, i: nat :: IsRoot(tab, r) && 256 <= i < 512 ==> Entry(t.ram, r, i) == Entry(s.ram, r, i))
  }

  lemma MovedTrans(s: Phys, tab: Tables, t: Phys, tab2: Tables, u: Phys, tab3: Tables, j: nat, k: nat)
    requires Moved(s, tab, t, tab2, j) && Moved(t, tab2, u, tab3, k)
    ensures Moved(s, tab, u, tab3, j + k)
  {
    hide Entry, Grew;
    GrewTrans(s, tab, t, tab2, u, tab3, j, k);
  }

  /** A page taken for data: no table, no translation and no byte elsewhere changes. */
  lemma DataPage(s: Phys, tab: Tables)
    requires WF(s, tab) && FreeSet(s.bits) != {}
    ensures var (t, a) := Pmalloc(s, 1);
            && Moved(s, tab, t, tab, 1)
            && a !in tab && a % 4096 == 0 && a / 4096 < Limit(s.bits)
            && Free(s.bits, a / 4096) && !Free(t.bits, a / 4096)
            && a + 4096 <= |s.ram| <= TWO64
            && (forall b: nat :: a <= b < a + 4096 ==> t.ram[b] == 0)
            && (forall r: nat, v: U64 :: IsRoot(tab, r) && Low(v) ==> Walk(t.ram, r, v) == Walk(s.ram, r, v))
  {
    hide Entry, EntryOk, Walk;
    PmallocOne(s);
    FreshTable(s);
    FreshIsNew(s, tab);
    TablesAreUsed(s, tab);
    var (t, a) := Pmalloc(s, 1);
    SameEntriesWF(s, tab, t);
    forall b: nat | b < |s.ram| && !Free(s.bits, b / 4096)
      ensures t.ram[b] == s.ram[b]
    {
      assert b / 4096 != a / 4096;
    }
  }

  /** `n` differs from `m` in the page at `a` only. */
  ghost predicate OnlyPage(m: Ram, n: Ram, a: nat)
  {
    |n| == |m| && forall b: nat :: b < |m| && !(a <= b < a + 4096) ==> n[b] == m[b]
  }

  /** Writing a page that was free to begin with and is no table. */
  lemma {:induction false} PageWritten(s: Phys, tab: Tables, t: Phys, tab2: Tables, k: nat, a: nat, m: Ram)
    requires Moved(s, tab, t, tab2, k) && OnlyPage(t.ram, m, a)
    requires a % 4096 == 0 && a !in tab2 && Free(s.bits, a / 4096)
    ensures Moved(s, tab, t.(ram := m), tab2, k)
    ensures forall r: nat, v: U64 :: IsRoot(tab2, r) && Low(v) ==> Walk(m, r, v) == Walk(t.ram, r, v)
  {
    hide Entry, Walk, EntryOk;
    TablesAreUsed(t, tab2);
    forall p: nat, i: nat | p in tab2 && i < 512
      ensures Entry(m, p, i) == Entry(t.ram, p, i)
    {
      EntryElsewhere(t.ram, m, a, p, i);
    }
    SameEntriesWF(t, tab2, t.(ram := m));
    forall b: nat | b < |s.ram| && !Free(s.bits, b / 4096)
      ensures m[b] == t.ram[b]
    {
      assert b / 4096 != a / 4096;
    }
  }

  lemma EntryElsewhere(m: Ram, n: Ram, a: nat, p: nat, i: nat)
    requires OnlyPage(m, n, a) && a % 4096 == 0 && p % 4096 == 0 && p != a && i < 512
    ensures Entry(n, p, i) == Entry(m, p, i)
  {
    hide Word;
    assert p + 4096 <= a || a + 4096 <= p by {
      assert p == 4096 * (p / 4096) && a == 4096 * (a / 4096);
    }
    WordSame(n, m, p + 8 * i);
  }

  // ---- pages behind virtual pages ----

  /** `virt` is mapped to the used page `a`, which is no table, with the given low bits in its entry. */
  ghost predicate Backed(s: Phys, tab: Tables, root: nat, virt: U64, a: nat, flags: nat)
  {
    && a % 4096 == 0 && a + 4096 <= |s.ram| && !Free(s.bits, a / 4096) && a !in tab
    && Walk(s.ram, root, virt).Some? && FrameOf(Walk(s.ram, root, virt).value) == a
    && Walk(s.ram, root, virt).value % 1024 == flags
  }

  /** Byte `o` of a segment in memory: from the file up to p_filesz, then zero. */
  function SegmentByte(f: Image, g: Segment, o: nat): Byte { if o < g.filesz then f(g.offset + o) else 0 }

  /** The bytes of segment `g` stand at `a`. */
  ghost predicate Filled(m: Ram, a: nat, f: Image, g: Segment)
  {
    a + g.memsz <= |m| && forall o: nat :: o < g.memsz ==> m[a + o] == SegmentByte(f, g, o)
  }

  lemma BackedKept(s: Phys, tab: Tables, t: Phys, tab2: Tables, k: nat, root: nat, virt: U64, a: nat, flags: nat)
    requires Backed(s, tab, root, virt, a, flags) && Grew(s, tab, t, tab2, k)
    requires Walk(t.ram, root, virt) == Walk(s.ram, root, virt)
    ensures Backed(t, tab2, root, virt, a, flags)
    ensures forall b: nat :: a <= b < a + 4096 ==> t.ram[b] == s.ram[b]
  {
    hide Walk, WF, FrameOf;
    forall b: nat | a <= b < a + 4096
      ensures t.ram[b] == s.ram[b]
    {
      assert b / 4096 == a / 4096 && 4096 * (b / 4096) == a;
    }
  }

  lemma FilledKept(m: Ram, n: Ram, a: nat, f: Image, g: Segment)
    requires Filled(m, a, f, g) && g.memsz <= 4096
    requires |n| == |m| && forall b: nat :: a <= b < a + 4096 && b < |m| ==> n[b] == m[b]
    ensures Filled(n, a, f, g)
  {
    forall o: nat | o < g.memsz
      ensures n[a + o] == SegmentByte(f, g, o)
    {
      assert m[a + o] == SegmentByte(f, g, o);
      assert n[a + o] == m[a + o];
    }
  }

  // ---- one segment ----

  /** Segments of the low half, of at most one page, with no more file bytes than memory. */
  predicate Small(g: Segment) { Low(g.vaddr) && g.memsz <= 4096 && g.filesz <= g.memsz }

  /** The segments that run_elf places right are those that are page-aligned as well. */
  predicate Good(g: Segment) { Small(g) && g.vaddr % 4096 == 0 }

  /** Translations of all spaces carry over, but for one page of one space. */
  ghost predicate WalksKeptBut(m: Ram, n: Ram, tab: Tables, root: nat, pages: set<nat>)
  {
    forall r: nat, v: U64 :: IsRoot(tab, r) && Low(v) && !(r == root && PageNo(v) in pages) ==>
      Walk(n, r, v) == Walk(m, r, v)
  }

  // ---- one page behind one page ----

  /** `virt` is a low address that the space `r` maps. */
  ghost predicate Maps(s: Phys, tab: Tables, r: nat, v: U64) { IsRoot(tab, r) && Low(v) && Walk(s.ram, r, v).Some? }

  /** The physical page behind it. */
  ghost function PageBehind(s: Phys, tab: Tables, r: nat, v: U64): nat
    requires Maps(s, tab, r, v)
  {
    FrameOf(Walk(s.ram, r, v).value)
  }

  /** Every mapped physical page is in use, is no table, and is behind one page of one space only. */
  ghost predicate Isolated(s: Phys, tab: Tables)
  {
    && (forall r: nat, v: U64 :: Maps(s, tab, r, v) ==>
          !Free(s.bits, PageBehind(s, tab, r, v) / 4096) && PageBehind(s, tab, r, v) !in tab)
    && (forall r: nat, v: U64, q: nat, w: U64 ::
          Maps(s, tab, r, v) && Maps(s, tab, q, w) && PageBehind(s, tab, r, v) == PageBehind(s, tab, q, w) ==>
            r == q && PageNo(v) == PageNo(w))
  }

  /** A mapping of the later state is one of the earlier state. */
  ghost predicate Carried(s: Phys, tab: Tables, t: Phys, tab2: Tables, r: nat, v: U64)
    requires Maps(t, tab2, r, v)
  {
    Maps(s, tab, r, v) && PageBehind(t, tab2, r, v) == PageBehind(s, tab, r, v)
  }

  /** Spaces stay isolated when every mapping is an earlier one, or the one of a page `virt` to a page
      that was free and is no table. */
  lemma IsolatedStep(s: Phys, tab: Tables, t: Phys, tab2: Tables, k: nat, root: nat, virt: U64, a: nat)
    requires Isolated(s, tab) && Grew(s, tab, t, tab2, k)
    requires forall r: nat, v: U64 :: Maps(t, tab2, r, v) ==>
               Carried(s, tab, t, tab2, r, v) ||
               (r == root && PageNo(v) == PageNo(virt) && PageBehind(t, tab2, r, v) == a &&
                Free(s.bits, a / 4096) && !Free(t.bits, a / 4096) && a !in tab2)
    ensures Isolated(t, tab2)
  {
    hide Maps, PageBehind, WF, PageNo;
    forall r: nat, v: U64 | Maps(t, tab2, r, v)
      ensures !Free(t.bits, PageBehind(t, tab2, r, v) / 4096) && PageBehind(t, tab2, r, v) !in tab2
    {
    }
  }

  lemma PageMapped(s: Phys, tab: Tables, t: Phys, tab2: Tables, k: nat, root: nat, virt: U64, a: nat,
                   flags: nat)
    requires Isolated(s, tab) && Moved(s, tab, t, tab2, k) && WalksKeptBut(s.ram, t.ram, tab, root, {PageNo(virt)})
    requires Free(s.bits, a / 4096) && Backed(t, tab2, root, virt, a, flags)
    ensures Isolated(t, tab2)
  {
    forall r: nat, v: U64 | Maps(t, tab2, r, v) && !Carried(s, tab, t, tab2, r, v)
      ensures r == root && PageNo(v) == PageNo(virt) && PageBehind(t, tab2, r, v) == a
    {
      hide PageNo, FrameOf, WF;
      SamePageIff(v, virt);
    }
    hide Isolated, Maps, PageBehind, WF, PageNo, Walk, FrameOf;
    IsolatedStep(s, tab, t, tab2, k, root, virt, a);
  }

  /** Copying the file bytes and clearing the rest: the bytes of the segment stand in the memory behind
      `a`, however long it is and whatever was there, and no other byte changes. */
  lemma FillRange(m: Ram, a: U64, f: Image, g: Segment)
    requires a + g.memsz <= |m| <= TWO64 && g.filesz <= g.memsz
    ensures var n := FillSegment(m, a, f, g);
            forall b: nat :: b < |m| ==> n[b] == if a <= b < a + g.memsz then SegmentByte(f, g, b - a) else m[b]
  {
    var c := CopyIn(m, a, f, g.offset, g.filesz);
    CopyInRange(m, a, f, g.offset, g.filesz);
    if g.memsz > g.filesz {
      MemSetRange(c, a + g.filesz, 0, g.memsz - g.filesz);
    } else {
      NothingSet(c, Advance(a, g.filesz));
    }
  }

  lemma FillPage(m: Ram, a: U64, f: Image, g: Segment)
    requires a + 4096 <= |m| <= TWO64 && g.memsz <= 4096 && g.filesz <= g.memsz
    ensures OnlyPage(m, FillSegment(m, a, f, g), a) && Filled(FillSegment(m, a, f, g), a, f, g)
  {
    hide FillSegment;
    FillRange(m, a, f, g);
  }

  lemma NothingSet(m: Ram, d: U64)
    ensures MemSet(m, d, 0, 0) == m
  {
  }

  lemma {:induction false} LoadSegmentSteps(s: Phys, root: U64, f: Image, g: Segment)
    requires g.kind == 1 && g.memsz != 0 && g.memsz <= 4096
    ensures var (t, a) := Pmalloc(s, 1);
            var u := MapBlock(t, root, g.vaddr, a, 3);
            LoadSegment(s, root, f, g) == u.(ram := FillSegment(u.ram, a, f, g))
  {
    hide MapBlock, FillSegment, Pmalloc, AlignUp;
    AlignUpIff(g.memsz);
    var (t, a) := Pmalloc(s, 1);
    assert MapRange(t, root, g.vaddr, a, 0, 3) == t;
  }

  /** A small segment gets one fresh page, mapped at the page of its address and holding its bytes;
      nothing else in any space changes. */
  lemma {:induction false} SegmentPlaced(s: Phys, tab: Tables, root: U64, f: Image, g: Segment)
    returns (tab2: Tables, a: nat)
    requires WF(s, tab) && IsRoot(tab, root) && g.kind == 1 && g.memsz != 0 && Small(g) && |FreeSet(s.bits)| >= 4
    ensures var t := LoadSegment(s, root, f, g);
            && Moved(s, tab, t, tab2, 4)
            && WalksKeptBut(s.ram, t.ram, tab, root, {PageNo(g.vaddr)})
            && a == Pmalloc(s, 1).1
            && Free(s.bits, a / 4096) && Backed(t, tab2, root, g.vaddr, a, 3) && Filled(t.ram, a, f, g)
  {
    hide MapBlock, FillSegment, Walk, WF, PageNo, LeafEntry, FrameOf, LoadSegment, Entry;
    LoadSegmentSteps(s, root, f, g);
    DataPage(s, tab);
    var (t, p) := Pmalloc(s, 1);
    a := p;
    var u := MapBlock(t, root, g.vaddr, p, 3);
    tab2 := MapBlockSpare(t, tab, root, g.vaddr, p, 3);
    MovedTrans(s, tab, t, tab, u, tab2, 1, 3);
    FillPage(u.ram, p, f, g);
    var m := FillSegment(u.ram, p, f, g);
    PageWritten(s, tab, u, tab2, 4, a, m);
    assert Walk(m, root, g.vaddr) == Walk(u.ram, root, g.vaddr) == Some(LeafEntry(p, 3));
    LeafEntryFields(p, 3);
  }

  /** For any loading entry, one page or more: the segment is mapped, and then its bytes are filled in from
      the start of the memory taken for it on. */
  lemma LoadedIs(s: Phys, root: U64, f: Image, g: Segment)
    requires g.kind == 1 && g.memsz != 0 && g.filesz <= g.memsz
    ensures var (u, a) := MapSegment(s, root, g);
            var t := LoadSegment(s, root, f, g);
            && t.bits == u.bits && |t.ram| == |u.ram|
            && (a + g.memsz <= |u.ram| <= TWO64 ==>
                  forall b: nat :: b < |u.ram| ==>
                    t.ram[b] == if a <= b < a + g.memsz then SegmentByte(f, g, b - a) else u.ram[b])
  {
    hide MapSegment, FillSegment;
    var (u, a) := MapSegment(s, root, g);
    if a + g.memsz <= |u.ram| <= TWO64 {
      FillRange(u.ram, a, f, g);
    }
  }

  // ---- all segments ----

  /** The pages that the loading entries from `i` to `n` of the table take. */
  function LoadedPages(f: Image, i: nat, n: nat): set<nat>
  {
    set k: nat | i <= k < n && Loads(SegmentAt(f, k)) :: PageNo(SegmentAt(f, k).vaddr)
  }

  /** Every entry that loads is good, and no two take the same page. */
  ghost predicate GoodTable(f: Image, i: nat, n: nat)
  {
    && (forall k: nat :: i <= k < n && Loads(SegmentAt(f, k)) ==> Good(SegmentAt(f, k)))
    && (forall j: nat, k: nat :: i <= j < k < n && Loads(SegmentAt(f, j)) && Loads(SegmentAt(f, k)) ==>
          PageNo(SegmentAt(f, j).vaddr) != PageNo(SegmentAt(f, k).vaddr))
  }

  /** Segment `g` is mapped to some page `a`, free in `bits`, that holds its bytes. */
  ghost predicate Placed(bits: Bits, t: Phys, tab: Tables, root: nat, f: Image, g: Segment)
  {
    exists a: nat :: Free(bits, a / 4096) && Backed(t, tab, root, g.vaddr, a, 3) && Filled(t.ram, a, f, g)
  }

  lemma PlacedKept(bits: Bits, s: Phys, tab: Tables, t: Phys, tab2: Tables, k: nat, root: nat, f: Image, g: Segment)
    requires Placed(bits, s, tab, root, f, g) && Grew(s, tab, t, tab2, k) && g.memsz <= 4096
    requires Walk(t.ram, root, g.vaddr) == Walk(s.ram, root, g.vaddr)
    ensures Placed(bits, t, tab2, root, f, g)
  {
    hide Walk, WF, Backed, Filled;
    var a: nat :| Free(bits, a / 4096) && Backed(s, tab, root, g.vaddr, a, 3) && Filled(s.ram, a, f, g);
    BackedKept(s, tab, t, tab2, k, root, g.vaddr, a, 3);
    FilledKept(s.ram, t.ram, a, f, g);
  }

  lemma PlacedWeaken(bits: Bits, bits2: Bits, t: Phys, tab: Tables, root: nat, f: Image, g: Segment)
    requires Placed(bits2, t, tab, root, f, g) && forall q: nat :: Free(bits2, q) ==> Free(bits, q)
    ensures Placed(bits, t, tab, root, f, g)
  {
    hide Backed, Filled;
  }

  lemma FirstPage(f: Image, i: nat, n: nat)
    requires i < n
    ensures LoadedPages(f, i, n) ==
            LoadedPages(f, i + 1, n) + if Loads(SegmentAt(f, i)) then {PageNo(SegmentAt(f, i).vaddr)} else {}
  {
    hide PageNo, SegmentAt, Loads;
  }

  /** The loop over the program header table: every loading entry ends up placed, and outside their
      pages no translation changes in any space. */
  lemma {:induction false} SegmentsPlaced(s: Phys, tab: Tables, root: U64, f: Image, i: nat, n: nat)
    returns (tab2: Tables)
    requires i <= n && WF(s, tab) && IsRoot(tab, root) && GoodTable(f, i, n) && |FreeSet(s.bits)| >= 4 * (n - i)
    ensures var t := LoadSegments(s, root, f, i, n);
            && Moved(s, tab, t, tab2, 4 * (n - i))
            && WalksKeptBut(s.ram, t.ram, tab, root, LoadedPages(f, i, n))
            && (forall k: nat :: i <= k < n && Loads(SegmentAt(f, k)) ==>
                  Placed(s.bits, t, tab2, root, f, SegmentAt(f, k)))
            && (forall k: nat :: i <= k < n && SegmentAt(f, k).kind == 1 && SegmentAt(f, k).memsz > 0 ==>
                  Placed(s.bits, t, tab2, root, f, SegmentAt(f, k)))
            && (Isolated(s, tab) ==> Isolated(t, tab2))
    decreases n - i
  {
    hide Isolated, LoadSegment, Walk, PageNo, SegmentAt, WF, Placed, Loads, Small, Entry, Free, FreeSet;
    if i == n {
      tab2 := tab;
      GrewSame(s, tab);
    } else {
      var g := SegmentAt(f, i);
      var u := LoadSegment(s, root, f, g);
      FirstPage(f, i, n);
      var tab1 := OneSegment(s, tab, root, f, g);
      tab2 := SegmentsPlaced(u, tab1, root, f, i + 1, n);
      JoinLoads(s, tab, u, tab1, tab2, root, f, i, n);
    }
    forall k: nat | i <= k < n
      ensures Loads(SegmentAt(f, k)) <==> SegmentAt(f, k).kind == 1 && SegmentAt(f, k).memsz != 0
    {
      LoadsMeans(SegmentAt(f, k));
    }
  }

  lemma GrewSame(s: Phys, tab: Tables)
    requires WF(s, tab)
    ensures Moved(s, tab, s, tab, 0)
  {
    hide WF, Entry;
  }

  /** One turn of the loop, loading or not. */
  lemma OneSegment(s: Phys, tab: Tables, root: U64, f: Image, g: Segment) returns (tab2: Tables)
    requires WF(s, tab) && IsRoot(tab, root) && (Loads(g) ==> Small(g)) && |FreeSet(s.bits)| >= 4
    ensures var t := LoadSegment(s, root, f, g);
            && Moved(s, tab, t, tab2, 4)
            && WalksKeptBut(s.ram, t.ram, tab, root, if Loads(g) then {PageNo(g.vaddr)} else {})
            && (Loads(g) ==> Placed(s.bits, t, tab2, root, f, g))
            && (Isolated(s, tab) ==> Isolated(t, tab2))
            && WF(t, tab2) && |FreeSet(t.bits)| + 4 >= |FreeSet(s.bits)| && IsRoot(tab2, root)
  {
    hide Walk, PageNo, WF, Entry, Backed, Filled, Loads, Small, Isolated;
    LoadsMeans(g);
    if Loads(g) {
      var a;
      tab2, a := SegmentPlaced(s, tab, root, f, g);
      if Isolated(s, tab) {
        PageMapped(s, tab, LoadSegment(s, root, f, g), tab2, 4, root, g.vaddr, a, 3);
      }
    } else {
      NotLoaded(s, root, f, g);
      tab2 := tab;
      GrewSame(s, tab);
    }
  }

  /** An entry of another kind, or without memory, is passed over. */
  lemma NotLoaded(s: Phys, root: U64, f: Image, g: Segment)
    requires g.kind != 1 || g.memsz == 0
    ensures LoadSegment(s, root, f, g) == s
  {
  }

  lemma LoadsMeans(g: Segment)
    ensures Loads(g) <==> g.kind == 1 && g.memsz != 0
  {
  }

  lemma {:induction false} JoinLoads(s: Phys, tab: Tables, u: Phys, tab1: Tables, tab2: Tables, root: U64, f: Image,
                                     i: nat, n: nat)
    requires i < n && GoodTable(f, i, n) && IsRoot(tab, root)
    requires LoadedPages(f, i, n) ==
             LoadedPages(f, i + 1, n) + if Loads(SegmentAt(f, i)) then {PageNo(SegmentAt(f, i).vaddr)} else {}
    requires Moved(s, tab, u, tab1, 4)
    requires WalksKeptBut(s.ram, u.ram, tab, root,
                          if Loads(SegmentAt(f, i)) then {PageNo(SegmentAt(f, i).vaddr)} else {})
    requires Loads(SegmentAt(f, i)) ==> Placed(s.bits, u, tab1, root, f, SegmentAt(f, i))
    requires var t := LoadSegments(u, root, f, i + 1, n);
             && Moved(u, tab1, t, tab2, 4 * (n - (i + 1)))
             && WalksKeptBut(u.ram, t.ram, tab1, root, LoadedPages(f, i + 1, n))
             && (forall k: nat :: i + 1 <= k < n && Loads(SegmentAt(f, k)) ==>
                   Placed(u.bits, t, tab2, root, f, SegmentAt(f, k)))
    ensures var t := LoadSegments(u, root, f, i + 1, n);
            && Moved(s, tab, t, tab2, 4 * (n - i))
            && WalksKeptBut(s.ram, t.ram, tab, root, LoadedPages(f, i, n))
            && (forall k: nat :: i <= k < n && Loads(SegmentAt(f, k)) ==>
                  Placed(s.bits, t, tab2, root, f, SegmentAt(f, k)))
  {
    hide LoadSegments, Walk, PageNo, SegmentAt, WF, Placed, Entry, Free, FreeSet, Low;
    var t := LoadSegments(u, root, f, i + 1, n);
    var g := SegmentAt(f, i);
    MovedTrans(s, tab, u, tab1, t, tab2, 4, 4 * (n - (i + 1)));
    if Loads(g) {
      assert PageNo(g.vaddr) !in LoadedPages(f, i + 1, n);
      PlacedKept(s.bits, u, tab1, t, tab2, 4 * (n - (i + 1)), root, f, g);
    }
    forall k: nat | i < k < n && Loads(SegmentAt(f, k))
      ensures Placed(s.bits, t, tab2, root, f, SegmentAt(f, k))
    {
      PlacedWeaken(s.bits, u.bits, t, tab2, root, f, SegmentAt(f, k));
    }
    forall r: nat, v: U64 | IsRoot(tab, r) && Low(v) && !(r == root && PageNo(v) in LoadedPages(f, i, n))
      ensures Walk(t.ram, r, v) == Walk(s.ram, r, v)
    {
      assert Walk(u.ram, r, v) == Walk(s.ram, r, v);
    }
  }
}
