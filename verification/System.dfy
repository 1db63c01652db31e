/** The loader and the clock handler of kernel/tasks/tasks.c on one machine: run_elf calls and clock
    interrupts in any order, and what a process finds when an interrupt returns to it. */
module System {
  import opened Words
  import opened Memory
  import opened Bitmap
  import opened Pmm
  import opened Vmm
  import opened Spaces
  import opened KernelHalf
  import opened Elf
  import opened Loader
  import opened Process
  import opened Processes
  import opened Boot
  import S = Scheduler

  /** Physical memory, the state of the clock handler, and whether the kernel has panicked. */
  datatype Machine = Machine(s: Phys, sched: S.Sched, halted: bool)

  datatype Action = Run(j: Job) | Interrupt(stack: U64)

  predicate IsAccepted(j: Job) { Refusal(j.f, j.bytes) == 0 }

  /** The jobs whose files are accepted, in order. */
  function Accepted(acts: seq<Action>): seq<Job>
  {
    if acts == [] then []
    else (if acts[0].Run? && IsAccepted(acts[0].j) then [acts[0].j] else []) + Accepted(acts[1..])
  }

  /** No panic yet, and the process table has room for `n` more. */
  predicate HasRoom(m: Machine, n: nat) { m.halted || (S.InTable(m.sched) && m.sched.processnum + n < S.TABLE) }

  lemma LoadedIffAccepted(s: Phys, start: U64, j: Job)
    ensures RunElf(s, start, j.f, j.bytes, 4096, j.junk).1.Loaded? <==> IsAccepted(j)
    ensures !IsAccepted(j) ==> RunElf(s, start, j.f, j.bytes, 4096, j.junk).0 == s
    ensures IsAccepted(j) ==> RunElf(s, start, j.f, j.bytes, 4096, j.junk).1.rsp == 0x7FF_FF50
  {
    hide NewPml4, Pmalloc, MapStack, LoadSegments, CopyIn, Refusal;
  }

  /** One run_elf, with the one-page stack that the kernel asks for. */
  function Load(m: Machine, start: U64, j: Job): Machine
    requires S.InTable(m.sched) && (IsAccepted(j) ==> m.sched.processnum + 1 < S.TABLE)
  {
    LoadedIffAccepted(m.s, start, j);
    hide RunElf;
    var (t, res) := RunElf(m.s, start, j.f, j.bytes, 4096, j.junk);
    Machine(t, if res.Loaded? then S.Enter(m.sched, S.Process(res.rsp, res.cr3)) else m.sched, false)
  }

  /** One action; nothing happens after a panic. */
  function Act(m: Machine, start: U64, a: Action): Machine
    requires HasRoom(m, |Accepted([a])|)
  {
    AcceptedOne(a);
    if m.halted then m
    else if a.Run? then Load(m, start, a.j)
    else Machine(m.s, S.Tick(m.sched, a.stack).0, S.Tick(m.sched, a.stack).1.None?)
  }

  lemma RoomLeft(m: Machine, start: U64, a: Action, n: nat)
    requires HasRoom(m, |Accepted([a])| + n)
    ensures HasRoom(Act(m, start, a), n)
  {
    hide RunElf;
    AcceptedOne(a);
    if a.Run? {
      LoadedIffAccepted(m.s, start, a.j);
    }
  }

  function ActAll(m: Machine, start: U64, acts: seq<Action>): Machine
    requires HasRoom(m, |Accepted(acts)|)
    decreases |acts|
  {
    if acts == [] then m
    else
      AcceptedSplit([], acts);
      RoomLeft(m, start, acts[0], |Accepted(acts[1..])|);
      ActAll(Act(m, start, acts[0]), start, acts[1..])
  }

  /** A file that is accepted is one that run_elf places right and finds memory for. */
  ghost predicate Admits(m: Machine, a: Action)
  {
    a.Run? && IsAccepted(a.j) ==> GoodFile(a.j.f, a.j.bytes) && |FreeSet(m.s.bits)| >= Cost(a.j.f)
  }

  ghost predicate AdmitsAll(m: Machine, start: U64, acts: seq<Action>)
    requires HasRoom(m, |Accepted(acts)|)
    decreases |acts|
  {
    acts != [] ==>
      && Admits(m, acts[0])
      && (AcceptedSplit([], acts); RoomLeft(m, start, acts[0], |Accepted(acts[1..])|);
          AdmitsAll(Act(m, start, acts[0]), start, acts[1..]))
  }

  lemma AcceptedOne(a: Action)
    ensures Accepted([a]) == if a.Run? && IsAccepted(a.j) then [a.j] else []
  {
    assert Accepted([a][1..]) == [];
  }

  lemma AcceptedSplit(jobs: seq<Job>, acts: seq<Action>)
    requires acts != []
    ensures jobs + Accepted(acts) == (jobs + Accepted([acts[0]])) + Accepted(acts[1..])
    ensures |Accepted(acts)| == |Accepted([acts[0]])| + |Accepted(acts[1..])|
  {
    AcceptedOne(acts[0]);
  }

  // ---- no panic, whatever the files ----

  /** Whatever files are given to run_elf, good or not, and however much memory there is: as long as the
      table has room, no clock interrupt finds a root that write_cr3 refuses. */
  lemma {:induction false} NeverPanics(m: Machine, start: U64, acts: seq<Action>)
    requires !m.halted && S.Ok(m.sched) && HasRoom(m, |Accepted(acts)|)
    ensures var w := ActAll(m, start, acts); !w.halted && S.Ok(w.sched)
    decreases |acts|
  {
    if acts != [] {
      AcceptedSplit([], acts);
      RoomLeft(m, start, acts[0], |Accepted(acts[1..])|);
      ActNoPanic(m, start, acts[0]);
      hide Act, S.Ok, Accepted;
      NeverPanics(Act(m, start, acts[0]), start, acts[1..]);
    }
  }

  lemma ActNoPanic(m: Machine, start: U64, a: Action)
    requires !m.halted && S.Ok(m.sched) && HasRoom(m, |Accepted([a])|)
    ensures var w := Act(m, start, a); !w.halted && S.Ok(w.sched)
  {
    hide RunElf, Accepted;
    AcceptedOne(a);
    match a
    case Run(j) =>
      LoadedIffAccepted(m.s, start, j);
      if IsAccepted(j) {
        RootAccepted(m.s, start, j.f, j.bytes, 4096, j.junk);
      }
    case Interrupt(stack) => S.TickOk(m.sched, stack);
  }

  // ---- what every action keeps ----

  /** The recorded process `p` is job `j`, intact under its root. */
  ghost predicate Runs(bits: Bits, s: Phys, tab: Tables, p: S.Process, j: Job)
  {
    && GoodFile(j.f, j.bytes) && IsRoot(tab, p.cr3) && p.rsp == 0x7FF_FF50
    && Intact(bits, s, tab, p.cr3, j.f, FrameOfJob(j))
  }

  /** Each entry of the process table runs its own job; the spaces are apart; whatever was in use when
      `s0` had no spaces yet is as it was, and every root has the kernel's upper half of then. */
  ghost predicate Running(s0: Phys, m: Machine, tab: Tables, base: nat, jobs: seq<Job>)
  {
    && !m.halted && WF(m.s, tab) && Isolated(m.s, tab) && S.Ok(m.sched)
    && KernelPage(s0, map[], base) && Framed(s0, map[], m.s, tab) && UpperIs(m.s.ram, tab, s0.ram, base)
    && |jobs| == m.sched.processnum
    && (forall i :: 1 <= i <= |jobs| ==> Runs(s0.bits, m.s, tab, m.sched.table[i], jobs[i - 1]))
    && (forall i, k :: 1 <= i < k <= |jobs| ==> m.sched.table[i].cr3 != m.sched.table[k].cr3)
  }

  /** The machine before the first run_elf. */
  function Fresh(s: Phys): Machine { Machine(s, S.START, false) }

  /** So it is after vmm_init. */
  lemma Booted(s: Phys, base: nat)
    requires Covered(s) && KernelPage(s, map[], base)
    ensures Running(s, Fresh(s), map[], base, [])
  {
  }

  lemma {:induction false} RunKeeps(s0: Phys, m: Machine, tab: Tables, start: U64, jobs: seq<Job>, j: Job)
    returns (tab2: Tables)
    requires start >= 2048 && Running(s0, m, tab, start - 2048, jobs)
    requires Admits(m, Run(j)) && IsAccepted(j) && HasRoom(m, |Accepted([Run(j)])|)
    ensures Running(s0, Act(m, start, Run(j)), tab2, start - 2048, jobs + [j])
  {
    hide RunElf, Walk, WF, Entry, Intact, GoodFile, Low, Cost, FreeSet, Isolated, Refusal, Framed, Grew, KernelPage,
      UpperIs, Accepted;
    AcceptedOne(Run(j));
    LoadedIffAccepted(m.s, start, j);
    KernelPageKept(s0, map[], m.s, tab, start - 2048);
    var (t, res) := RunElf(m.s, start, j.f, j.bytes, 4096, j.junk);
    tab2 := RunElfLoads(m.s, tab, start, j.f, j.bytes, j.junk);
    FramedOn(s0, m.s, tab, t, tab2, Cost(j.f));
    UpperStep(m.s, tab, t, tab2, s0.ram, start - 2048, res.cr3);
    RootAccepted(m.s, start, j.f, j.bytes, 4096, j.junk);
    StillUsed(s0, m.s, tab);
    IntactWeaken(s0.bits, m.s.bits, t, tab2, res.cr3, j.f, FrameOfJob(j));
    forall i | 1 <= i <= |jobs|
      ensures Runs(s0.bits, t, tab2, m.sched.table[i], jobs[i - 1]) && m.sched.table[i].cr3 in tab
    {
      var p, job := m.sched.table[i], jobs[i - 1];
      assert Runs(s0.bits, m.s, tab, p, job);
      FilePlaced(job);
      IntactKept(s0.bits, m.s, tab, t, tab2, Cost(j.f), p.cr3, job.f, FrameOfJob(job));
    }
    hide Runs;
    EnteredLast(s0.bits, m, t, res, tab, tab2, jobs, j);
  }

  lemma StillUsed(s0: Phys, s: Phys, tab: Tables)
    requires Framed(s0, map[], s, tab)
    ensures forall q: nat :: Free(s.bits, q) ==> Free(s0.bits, q)
  {
    forall q: nat | !Free(s0.bits, q)
      ensures !Free(s.bits, q)
    {
      var none: Tables := map[];
      assert 4096 * q !in none;
    }
  }

  lemma FilePlaced(j: Job)
    requires GoodFile(j.f, j.bytes)
    ensures GoodTable(j.f, 0, SegmentCount(j.f))
  {
  }

  /** The table after the new process is recorded. */
  lemma EnteredLast(bits: Bits, m: Machine, t: Phys, res: LoadResult, tab: Tables, tab2: Tables, jobs: seq<Job>, j: Job)
    requires S.Ok(m.sched) && |jobs| == m.sched.processnum && m.sched.processnum + 1 < S.TABLE
    requires res.Loaded? && res.cr3 !in tab && Align(res.cr3) == res.cr3
    requires Runs(bits, t, tab2, S.Process(res.rsp, res.cr3), j)
    requires forall i :: 1 <= i <= |jobs| ==>
               Runs(bits, t, tab2, m.sched.table[i], jobs[i - 1]) && m.sched.table[i].cr3 in tab
    requires forall i, k :: 1 <= i < k <= |jobs| ==> m.sched.table[i].cr3 != m.sched.table[k].cr3
    ensures var st := S.Enter(m.sched, S.Process(res.rsp, res.cr3));
            && S.Ok(st) && st.processnum == |jobs + [j]|
            && (forall i :: 1 <= i <= |jobs + [j]| ==> Runs(bits, t, tab2, st.table[i], (jobs + [j])[i - 1]))
            && (forall i, k :: 1 <= i < k <= |jobs + [j]| ==> st.table[i].cr3 != st.table[k].cr3)
  {
    hide Runs, Align;
  }

  lemma {:induction false} ActKeeps(s0: Phys, m: Machine, tab: Tables, start: U64, jobs: seq<Job>, a: Action)
    returns (tab2: Tables)
    requires start >= 2048 && Running(s0, m, tab, start - 2048, jobs)
    requires Admits(m, a) && HasRoom(m, |Accepted([a])|)
    ensures Running(s0, Act(m, start, a), tab2, start - 2048, jobs + Accepted([a]))
  {
    hide Runs, WF, RunElf, Refusal, GoodFile, Isolated, Cost, FreeSet, Framed, KernelPage, UpperIs;
    AcceptedOne(a);
    assert jobs + [] == jobs;
    tab2 := tab;
    if a.Interrupt? {
      S.TickOk(m.sched, a.stack);
    } else {
      LoadedIffAccepted(m.s, start, a.j);
      if IsAccepted(a.j) {
        tab2 := RunKeeps(s0, m, tab, start, jobs, a.j);
      }
    }
  }

  /** Over every interleaving of run_elf calls and clock interrupts, refused files included: the kernel
      does not panic; each entry of the process table is an accepted job, in order, intact under a root
      of its own; no physical page is behind two pages; and neither the kernel half of any root nor any
      page that was in use before the first space has changed. */
  lemma {:induction false} EveryInterleaving(s0: Phys, m: Machine, tab: Tables, start: U64, jobs: seq<Job>,
                                             acts: seq<Action>) returns (tab2: Tables)
    requires start >= 2048 && Running(s0, m, tab, start - 2048, jobs)
    requires HasRoom(m, |Accepted(acts)|) && AdmitsAll(m, start, acts)
    ensures Running(s0, ActAll(m, start, acts), tab2, start - 2048, jobs + Accepted(acts))
    decreases |acts|
  {
    hide Running, Act, Admits, Accepted;
    if acts == [] {
      assert Accepted(acts) == [] by { AcceptedNone(); }
      assert jobs + [] == jobs;
      tab2 := tab;
    } else {
      AcceptedSplit([], acts);
      AcceptedSplit(jobs, acts);
      RoomLeft(m, start, acts[0], |Accepted(acts[1..])|);
      tab2 := ActKeeps(s0, m, tab, start, jobs, acts[0]);
      var w, more := Act(m, start, acts[0]), jobs + Accepted([acts[0]]);
      tab2 := EveryInterleaving(s0, w, tab2, start, more, acts[1..]);
    }
  }

  lemma AcceptedNone()
    ensures Accepted([]) == []
  {
  }

  // ---- what every tick leaves ----

  /** Under the root `cr3`: the image of job `j`, its initial frame with its entry point, and at every
      kernel address what the kernel's own table in `s0` leads to. */
  ghost predicate Reads(s0: Phys, base: nat, m: Ram, cr3: nat, j: Job)
  {
    && ImageReads(m, cr3, j.f) && PagesAllow(m, cr3, j.f) && FrameFields(m, cr3, j.junk, EntryPoint(j.f))
    && (KernelTables(s0, base, 256, 4) ==>
          forall v: U64 :: !Low(v) ==> FullWalk(m, cr3, Indices(v)) == FullWalk(s0.ram, base, Indices(v)))
  }

  /** A tick does not panic. With no process it returns on the stack that it interrupted; once a process
      has been entered, it leaves the root and the stack pointer of one of the entered processes, under
      which all that its file promises is in memory. */
  lemma {:induction false} TickFinds(s0: Phys, m: Machine, tab: Tables, base: nat, jobs: seq<Job>, stack: U64)
    requires Running(s0, m, tab, base, jobs)
    ensures var (u, rsp) := S.Tick(m.sched, stack);
            && rsp.Some?
            && (jobs == [] ==> rsp == Some(stack) && u.cr3 == m.sched.cr3)
            && (jobs != [] ==>
                  && 1 <= u.process <= |jobs| && rsp.value == 0x7FF_FF50
                  && Reads(s0, base, m.s.ram, u.cr3, jobs[u.process - 1]))
  {
    hide WF, Intact, GoodFile, Isolated, Reads, Framed, KernelPage, UpperIs;
    S.TickOk(m.sched, stack);
    if jobs != [] {
      var u := S.Tick(m.sched, stack).0;
      var j := jobs[u.process - 1];
      assert Runs(s0.bits, m.s, tab, m.sched.table[u.process], j);
      FilePlaced(j);
      JobReads(s0, m.s, tab, base, u.cr3, j);
    }
  }

  lemma {:induction false} JobReads(s0: Phys, s: Phys, tab: Tables, base: nat, cr3: nat, j: Job)
    requires GoodTable(j.f, 0, SegmentCount(j.f)) && Intact(s0.bits, s, tab, cr3, j.f, FrameOfJob(j))
    requires Framed(s0, map[], s, tab) && UpperIs(s.ram, tab, s0.ram, base) && IsRoot(tab, cr3)
    ensures Reads(s0, base, s.ram, cr3, j)
  {
    hide Intact, ImageReads, PagesAllow, FrameFields, FullWalk, KernelTables, Framed, Entry, Low;
    IntactReads(s0.bits, s, tab, cr3, j.f, j.junk);
    forall v: U64 | KernelTables(s0, base, 256, 4) && !Low(v)
      ensures FullWalk(s.ram, cr3, Indices(v)) == FullWalk(s0.ram, base, Indices(v))
    {
      KernelSeen(s0, s, tab, base, cr3, v);
    }
  }

  // ---- the bitmap in its own memory ----

  /** From a boot that kept the blocks of the bitmap, no run_elf and no interrupt ever frees such a block
      or writes to it: the bitmap may lie in the memory that it accounts for. */
  lemma {:induction false} BitmapUntouched(rs: seq<Region>, beyond: Region, hhdm: U64, ram: Ram, start: U64,
                                           acts: seq<Action>, q: nat)
    requires var s0 := Phys(InitBits(rs, beyond, hhdm), ram);
             && Covered(s0) && BitmapKept(rs, beyond, hhdm) && start >= 2048 && KernelPage(s0, map[], start - 2048)
             && HasRoom(Fresh(s0), |Accepted(acts)|) && AdmitsAll(Fresh(s0), start, acts)
    requires InMap(rs, beyond, q)
    ensures var w := ActAll(Fresh(Phys(InitBits(rs, beyond, hhdm), ram)), start, acts);
            && !Free(w.s.bits, q) && |w.s.ram| == |ram|
            && forall b: nat :: b < |ram| && b / 4096 == q ==> w.s.ram[b] == ram[b]
  {
    hide InitBits, InMap, AdmitsAll, ActAll, Accepted, WF, Isolated, Runs, UpperIs, KernelPage;
    var s0 := Phys(InitBits(rs, beyond, hhdm), ram);
    Booted(s0, start - 2048);
    var tab := EveryInterleaving(s0, Fresh(s0), map[], start, [], acts);
    var none: Tables := map[];
    assert 4096 * q !in none;
  }
}
