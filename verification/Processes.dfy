/** Many processes: run_elf (kernel/tasks/tasks.c) called again and again leaves every process that
    it loaded before as it was. */
module Processes {
  import opened Words
  import opened Memory
  import opened Bitmap
  import opened Pmm
  import opened Vmm
  import opened Spaces
  import opened Elf
  import opened Loader
  import opened Process

  /** A file to load, its size, and what the stack held where the frame is built. */
  datatype Job = Job(f: Image, bytes: U32, junk: Frame)

  function FrameOfJob(j: Job): Frame { InitialFrame(j.junk, EntryPoint(j.f)) }

  function TotalCost(jobs: seq<Job>): nat
  {
    if jobs == [] then 0 else Cost(jobs[0].f) + TotalCost(jobs[1..])
  }

  /** The final state, and the root of each process. */
  function LoadAll(s: Phys, start: U64, jobs: seq<Job>): (r: (Phys, seq<nat>))
    ensures |r.1| == |jobs|
    decreases |jobs|
  {
    hide RunElf;
    if jobs == [] then (s, [])
    else
      var (t, res) := RunElf(s, start, jobs[0].f, jobs[0].bytes, 4096, jobs[0].junk);
      var (u, roots) := LoadAll(t, start, jobs[1..]);
      (u, [if res.Loaded? then res.cr3 else 0] + roots)
  }

  /** An intact process stays intact while memory grows elsewhere and its translations stay. */
  lemma {:induction false} IntactKept(bits: Bits, s: Phys, tab: Tables, t: Phys, tab2: Tables, k: nat, cr3: nat,
                                      f: Image, r: Frame)
    requires Intact(bits, s, tab, cr3, f, r) && Grew(s, tab, t, tab2, k) && GoodTable(f, 0, SegmentCount(f))
    requires forall v: U64 :: Low(v) ==> Walk(t.ram, cr3, v) == Walk(s.ram, cr3, v)
    ensures Intact(bits, t, tab2, cr3, f, r)
  {
    hide Placed, SegmentAt, SegmentCount, StackHolds, Walk, WF, Low;
    forall i: nat | 0 <= i < SegmentCount(f) && Loads(SegmentAt(f, i))
      ensures Placed(bits, t, tab2, cr3, f, SegmentAt(f, i))
    {
      PlacedKept(bits, s, tab, t, tab2, k, cr3, f, SegmentAt(f, i));
    }
    var region: nat :| StackHolds(s, tab, cr3, region, r);
    StackKept(s, tab, t, tab2, k, cr3, region, r);
  }

  lemma {:induction false} StackKept(s: Phys, tab: Tables, t: Phys, tab2: Tables, k: nat, cr3: nat, region: nat,
                                     r: Frame)
    requires StackHolds(s, tab, cr3, region, r) && Grew(s, tab, t, tab2, k)
    requires forall v: U64 :: Low(v) ==> Walk(t.ram, cr3, v) == Walk(s.ram, cr3, v)
    ensures StackHolds(t, tab2, cr3, region, r)
  {
    hide Word, Backed, WF, Walk;
    StackPageLow();
    BackedKept(s, tab, t, tab2, k, cr3, STACK_PAGE, region, 7);
    StackInRam(s, tab, cr3, region);
    forall i: nat | i < 22
      ensures Word(t.ram, region + 3920 + 8 * i) == r[i]
    {
      WordSame(t.ram, s.ram, region + 3920 + 8 * i);
    }
  }

  lemma StackInRam(s: Phys, tab: Tables, cr3: nat, region: nat)
    requires Backed(s, tab, cr3, STACK_PAGE, region, 7)
    ensures region + 4096 <= |s.ram|
  {
  }

  lemma IntactWeaken(bits: Bits, bits2: Bits, t: Phys, tab: Tables, cr3: nat, f: Image, r: Frame)
    requires Intact(bits2, t, tab, cr3, f, r) && forall q: nat :: Free(bits2, q) ==> Free(bits, q)
    ensures Intact(bits, t, tab, cr3, f, r)
  {
    hide StackHolds, Placed;
    IntactFrom(bits, bits2, t, tab, cr3, f, r);
  }

  /** From (s, tab) to (u, tab2): each job has an intact process under a new root of its own. */
  ghost predicate Hosted(bits: Bits, tab: Tables, u: Phys, tab2: Tables, roots: seq<nat>, jobs: seq<Job>)
  {
    && |roots| == |jobs|
    && (forall i :: 0 <= i < |jobs| ==>
          roots[i] !in tab && IsRoot(tab2, roots[i]) &&
          Intact(bits, u, tab2, roots[i], jobs[i].f, FrameOfJob(jobs[i])))
    && (forall i, j :: 0 <= i < j < |jobs| ==> roots[i] != roots[j])
  }

  /** From (s, tab) to (u, tab2): the jobs are hosted; no low translation of an earlier space has changed;
      where it was so before, no physical page is behind two pages, and every root has the upper half
      that the kernel's table at `base` had in `s`. */
  ghost predicate Accumulated(s: Phys, tab: Tables, u: Phys, tab2: Tables, roots: seq<nat>, jobs: seq<Job>, base: nat)
  {
    && Grew(s, tab, u, tab2, TotalCost(jobs))
    && (forall r: nat, v: U64 :: IsRoot(tab, r) && Low(v) ==> IsRoot(tab2, r) && Walk(u.ram, r, v) == Walk(s.ram, r, v))
    && Hosted(s.bits, tab, u, tab2, roots, jobs)
    && (Isolated(s, tab) ==> Isolated(u, tab2))
    && (UpperIs(s.ram, tab, s.ram, base) ==> UpperIs(u.ram, tab2, s.ram, base))
  }

  /** However many good files are loaded, with memory for all of them, in the end every one of their
      processes is intact under a root of its own, no translation of an earlier space has changed, and
      still no physical page is behind two pages, of one process or of two. Where the earlier spaces had
      the kernel's upper half, all spaces have the one that the kernel had at the start. */
  lemma {:induction false} LoadsAccumulate(s: Phys, tab: Tables, start: U64, jobs: seq<Job>) returns (tab2: Tables)
    requires start >= 2048 && WF(s, tab) && KernelPage(s, tab, start - 2048)
    requires forall i :: 0 <= i < |jobs| ==> GoodFile(jobs[i].f, jobs[i].bytes)
    requires |FreeSet(s.bits)| >= TotalCost(jobs)
    ensures var (u, roots) := LoadAll(s, start, jobs); Accumulated(s, tab, u, tab2, roots, jobs, start - 2048)
    decreases |jobs|
  {
    hide RunElf, WF, GoodFile, FreeSet, KernelPage, Accumulated, FirstLoaded, LoadAll, Cost;
    LoadAllStep(s, start, jobs);
    if jobs == [] {
      tab2 := tab;
      NoneAccumulated(s, tab, start - 2048);
    } else {
      var (t, res) := RunElf(s, start, jobs[0].f, jobs[0].bytes, 4096, jobs[0].junk);
      var tab1 := OneLoaded(s, tab, start, jobs[0]);
      tab2 := LoadsAccumulate(t, tab1, start, jobs[1..]);
      var (u, rest) := LoadAll(t, start, jobs[1..]);
      OneMore(s, tab, t, tab1, u, tab2, res.cr3, rest, jobs, start - 2048);
    }
  }

  lemma LoadAllStep(s: Phys, start: U64, jobs: seq<Job>)
    ensures jobs == [] ==> LoadAll(s, start, jobs) == (s, [])
    ensures jobs != [] ==>
              var (t, res) := RunElf(s, start, jobs[0].f, jobs[0].bytes, 4096, jobs[0].junk);
              var (u, rest) := LoadAll(t, start, jobs[1..]);
              LoadAll(s, start, jobs) == (u, [if res.Loaded? then res.cr3 else 0] + rest)
  {
    hide RunElf;
  }

  lemma NoneAccumulated(s: Phys, tab: Tables, base: nat)
    requires WF(s, tab)
    ensures Accumulated(s, tab, s, tab, [], [], base)
  {
    hide WF, Isolated, UpperIs;
    GrewSame(s, tab);
  }

  /** What loading one job leaves, for the rest to start from. */
  ghost predicate FirstLoaded(s: Phys, tab: Tables, t: Phys, tab1: Tables, cr3: nat, j: Job, base: nat)
  {
    && cr3 !in tab && RootsKept(s, tab, t, tab1, cr3) && Grew(s, tab, t, tab1, Cost(j.f))
    && Intact(s.bits, t, tab1, cr3, j.f, FrameOfJob(j))
    && (forall r: nat, v: U64 :: IsRoot(tab, r) && Low(v) ==> Walk(t.ram, r, v) == Walk(s.ram, r, v))
    && (Isolated(s, tab) ==> Isolated(t, tab1))
    && (UpperIs(s.ram, tab, s.ram, base) ==> UpperIs(t.ram, tab1, s.ram, base))
    && forall i: nat :: i < 512 ==> Entry(t.ram, base, i) == Entry(s.ram, base, i)
  }

  lemma OneLoaded(s: Phys, tab: Tables, start: U64, j: Job) returns (tab1: Tables)
    requires start >= 2048 && WF(s, tab) && KernelPage(s, tab, start - 2048)
    requires GoodFile(j.f, j.bytes) && |FreeSet(s.bits)| >= Cost(j.f)
    ensures var (t, res) := RunElf(s, start, j.f, j.bytes, 4096, j.junk);
            && res.Loaded? && FirstLoaded(s, tab, t, tab1, res.cr3, j, start - 2048)
            && WF(t, tab1) && KernelPage(t, tab1, start - 2048) && |FreeSet(t.bits)| + Cost(j.f) >= |FreeSet(s.bits)|
  {
    hide Isolated, RunElf, Walk, WF, Entry, Intact, GoodFile, Low, Cost, FreeSet, Free, Framed, UpperIs, KernelPage;
    var (t, res) := RunElf(s, start, j.f, j.bytes, 4096, j.junk);
    tab1 := RunElfLoads(s, tab, start, j.f, j.bytes, j.junk);
    GrewFrames(s, tab, t, tab1, Cost(j.f));
    KernelPageKept(s, tab, t, tab1, start - 2048);
    UpperStep(s, tab, t, tab1, s.ram, start - 2048, res.cr3);
  }

  lemma {:induction false} OneMore(s: Phys, tab: Tables, t: Phys, tab1: Tables, u: Phys, tab2: Tables, cr3: nat,
                                   rest: seq<nat>, jobs: seq<Job>, base: nat)
    requires jobs != [] && GoodFile(jobs[0].f, jobs[0].bytes)
    requires FirstLoaded(s, tab, t, tab1, cr3, jobs[0], base)
    requires Accumulated(t, tab1, u, tab2, rest, jobs[1..], base)
    ensures Accumulated(s, tab, u, tab2, [cr3] + rest, jobs, base)
  {
    hide Isolated, Walk, WF, Entry, Intact, GoodFile, Low, Cost, FreeSet, UpperIs, Hosted;
    UpperBase(t.ram, tab1, s.ram, t.ram, base);
    UpperBase(u.ram, tab2, s.ram, t.ram, base);
    GrewTrans(s, tab, t, tab1, u, tab2, Cost(jobs[0].f), TotalCost(jobs[1..]));
    FirstHosted(s, tab, t, tab1, u, tab2, TotalCost(jobs[1..]), cr3, rest, jobs);
  }

  lemma UpperBase(m: Ram, tab: Tables, m0: Ram, m1: Ram, base: nat)
    requires forall i: nat :: i < 512 ==> Entry(m1, base, i) == Entry(m0, base, i)
    ensures UpperIs(m, tab, m0, base) <==> UpperIs(m, tab, m1, base)
  {
    hide Entry;
  }

  lemma UpperStep(s: Phys, tab: Tables, t: Phys, tab2: Tables, m0: Ram, base: nat, cr3: nat)
    requires RootsKept(s, tab, t, tab2, cr3)
    requires forall i: nat :: 256 <= i < 512 ==> Entry(t.ram, cr3, i) == Entry(m0, base, i)
    ensures UpperIs(s.ram, tab, m0, base) ==> UpperIs(t.ram, tab2, m0, base)
  {
    hide Entry;
    if UpperIs(s.ram, tab, m0, base) {
      forall r: nat, i: nat | IsRoot(tab2, r) && 256 <= i < 512
        ensures Entry(t.ram, r, i) == Entry(m0, base, i)
      {
        assert IsRoot(tab, r) ==> Entry(t.ram, r, i) == Entry(s.ram, r, i);
      }
    }
  }

  lemma {:induction false} FirstStays(bits: Bits, t: Phys, tab1: Tables, u: Phys, tab2: Tables, k: nat,
                                      cr3: nat, j: Job)
    requires GoodFile(j.f, j.bytes) && IsRoot(tab1, cr3) && Grew(t, tab1, u, tab2, k)
    requires Intact(bits, t, tab1, cr3, j.f, FrameOfJob(j))
    requires forall v: U64 :: Low(v) ==> Walk(u.ram, cr3, v) == Walk(t.ram, cr3, v)
    ensures IsRoot(tab2, cr3) && Intact(bits, u, tab2, cr3, j.f, FrameOfJob(j))
  {
    hide Walk, WF, Intact, FrameOfJob, Low, FreeSet, Free;
    IntactKept(bits, t, tab1, u, tab2, k, cr3, j.f, FrameOfJob(j));
    assert tab2[cr3] == tab1[cr3];
  }

  lemma {:induction false} FirstHosted(s: Phys, tab: Tables, t: Phys, tab1: Tables, u: Phys, tab2: Tables, k: nat,
                                       cr3: nat, rest: seq<nat>, jobs: seq<Job>)
    requires jobs != [] && GoodFile(jobs[0].f, jobs[0].bytes)
    requires cr3 !in tab && IsRoot(tab1, cr3) && (forall p :: p in tab ==> p in tab1)
    requires Intact(s.bits, t, tab1, cr3, jobs[0].f, FrameOfJob(jobs[0]))
    requires Grew(t, tab1, u, tab2, k) && forall q: nat :: Free(t.bits, q) ==> Free(s.bits, q)
    requires forall r: nat, v: U64 :: IsRoot(tab1, r) && Low(v) ==>
               IsRoot(tab2, r) && Walk(u.ram, r, v) == Walk(t.ram, r, v)
    requires Hosted(t.bits, tab1, u, tab2, rest, jobs[1..])
    ensures Hosted(s.bits, tab, u, tab2, [cr3] + rest, jobs)
  {
    hide Walk, Intact, FrameOfJob, Low, Free, Grew, GoodFile;
    var roots := [cr3] + rest;
    FirstStays(s.bits, t, tab1, u, tab2, k, cr3, jobs[0]);
    forall i | 1 <= i < |jobs|
      ensures roots[i] !in tab1 && IsRoot(tab2, roots[i]) &&
              Intact(s.bits, u, tab2, roots[i], jobs[i].f, FrameOfJob(jobs[i]))
    {
      assert jobs[i] == jobs[1..][i - 1] && roots[i] == rest[i - 1];
      IntactWeaken(s.bits, t.bits, u, tab2, roots[i], jobs[i].f, FrameOfJob(jobs[i]));
    }
    forall i, j | 0 <= i < j < |jobs|
      ensures roots[i] != roots[j]
    {
      assert i > 0 ==> roots[i] == rest[i - 1];
      assert roots[j] == rest[j - 1];
    }
  }

  /** Whatever file run_elf accepts, in whatever state of memory, the root that it records is one that
      the clock handler's write_cr3 accepts. */
  lemma {:induction false} RootAccepted(s: Phys, start: U64, f: Image, bytes: U32, stackbytes: U32, junk: Frame)
    requires RunElf(s, start, f, bytes, stackbytes, junk).1.Loaded?
    ensures var r := RunElf(s, start, f, bytes, stackbytes, junk).1.cr3; Align(r) == r
  {
    hide MapStack, LoadSegments, CopyIn, MemCpy, MemSet, Align;
    var r := RunElf(s, start, f, bytes, stackbytes, junk).1.cr3;
    assert r == Pmalloc(s, 1).1;
    PageAddress(s);
    AlignedMultiple(r);
  }

  lemma PageAddress(s: Phys)
    ensures Pmalloc(s, 1).1 % 4096 == 0
  {
  }

  lemma AlignedMultiple(r: U64)
    requires r % 4096 == 0
    ensures Align(r) == r
  {
    var k := r / 4096;
    assert r == 4096 * k;
    assert r / 1024 == 4 * k;
  }
}
