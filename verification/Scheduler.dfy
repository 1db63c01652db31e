/** The clock interrupt of kernel/tasks/tasks.c: tick counters and a round robin over the processes
    that run_elf has entered, and the two together as one state machine. */
module Scheduler {
  import opened Words
  import opened Pmm

  /** The entries of `processes` and `processesinfo`; number 0 is never used. */
  const TABLE := 100

  /** What run_elf records of a process. */
  datatype Process = Process(rsp: U64, cr3: U64)

  /** The globals of the clock handler, the tables, and the cr3 register. */
  datatype Sched = Sched(tticks: U64, ticks: U64, process: U32, processnum: U32, table: seq<Process>, cr3: U64)

  function NoProcesses(): seq<Process> { seq(TABLE, _ => Process(0, 0)) }

  const START := Sched(0, 0, 0, 0, NoProcesses(), 0)

  /** Before a panic, within the table: the current process is one of those entered. */
  predicate InTable(st: Sched) { |st.table| == TABLE && st.process <= st.processnum < TABLE }

  /** And every entered process has a root that `write_cr3` accepts. */
  ghost predicate Ok(st: Sched)
  {
    && InTable(st)
    && forall i: nat :: 1 <= i <= st.processnum ==> Align(st.table[i].cr3) == st.table[i].cr3
  }

  /** The process that the next tick makes current. */
  function Next(st: Sched): U32
    requires st.process < TABLE
  {
    if st.processnum == st.process then 1 else st.process + 1
  }

  /** clock_handler: the new state, and the stack pointer that the interrupt returns on. A root that
      `ALIGN` changes makes `write_cr3` panic: no process is left and the handler never returns. */
  function Tick(st: Sched, stack: U64): (Sched, Option<U64>)
    requires InTable(st)
  {
    var tt := Wrap64(st.tticks + 1);
    var counted := st.(tticks := tt, ticks := if tt % 10 == 0 then Wrap64(st.ticks + 1) else st.ticks);
    if st.processnum == 0 then (counted, Some(stack))
    else
      var p := Next(st);
      if Align(st.table[p].cr3) == st.table[p].cr3
      then (counted.(process := p, cr3 := st.table[p].cr3), Some(st.table[p].rsp))
      else (counted.(process := p, processnum := 0), None)
  }

  /** The end of run_elf: enter a process. */
  function Enter(st: Sched, p: Process): Sched
    requires |st.table| == TABLE && st.processnum + 1 < TABLE
  {
    st.(table := st.table[st.processnum + 1 := p], processnum := st.processnum + 1)
  }

  lemma TickOk(st: Sched, stack: U64)
    requires Ok(st)
    ensures Ok(Tick(st, stack).0) && Tick(st, stack).1.Some?
  {
  }

  /** With no process a tick returns on the stack it interrupted, and only counts. */
  lemma IdleTick(st: Sched, stack: U64)
    requires InTable(st) && st.processnum == 0
    ensures var (u, rsp) := Tick(st, stack);
            && rsp == Some(stack)
            && u.process == st.process && u.processnum == 0 && u.table == st.table && u.cr3 == st.cr3
  {
  }

  /** With processes, the tick after the last number goes back to number 1 and any other to the next; it
      returns on that process's stack and loads its root if the root is a multiple of 1024, and panics
      with cr3 as it was if not. */
  lemma {:induction false} BusyTick(st: Sched, stack: U64)
    requires InTable(st) && st.processnum > 0
    ensures var (u, rsp) := Tick(st, stack);
            var p := if st.process == st.processnum then 1 else st.process + 1;
            && u.process == p && u.table == st.table
            && (if st.table[p].cr3 % 1024 == 0
                then rsp == Some(st.table[p].rsp) && u.cr3 == st.table[p].cr3 && u.processnum == st.processnum
                else rsp == None && u.cr3 == st.cr3 && u.processnum == 0)
  {
  }

  // ---- round robin ----

  /** `t` ticks in a row. */
  function Ticks(st: Sched, t: nat): (r: Sched)
    requires Ok(st)
    ensures Ok(r) && r.processnum == st.processnum && r.table == st.table
  {
    if t == 0 then st
    else
      TickOk(Ticks(st, t - 1), 0);
      Tick(Ticks(st, t - 1), 0).0
  }

  /** With n processes and no loads, t >= 1 ticks make number ((process - 1 + t) mod n) + 1 current. */
  lemma {:induction false} RoundRobin(st: Sched, t: nat)
    requires Ok(st) && st.processnum > 0 && t > 0
    ensures var n := st.processnum; Ticks(st, t).process == (st.process + n - 1 + t) % n + 1
    decreases t
  {
    var n := st.processnum;
    var before := Ticks(st, t - 1);
    if t == 1 {
      if st.process == n {
        ModWrap(n, 2);
      } else {
        ModStep(st.process, n);
      }
    } else {
      RoundRobin(st, t - 1);
      ModNext(st.process + n - 1 + (t - 1), n);
    }
  }

  lemma {:induction false} ModWrap(n: nat, k: nat)
    requires n > 0
    ensures (n * k) % n == 0
  {
    DivModOf(n, k, 0);
  }

  lemma ModStep(p: nat, n: nat)
    requires p < n
    ensures (p + n) % n == p
  {
    DivModOf(n, 1, p);
  }

  lemma {:induction false} ModNext(x: nat, n: nat)
    requires n > 0
    ensures (x + 1) % n == if x % n + 1 == n then 0 else x % n + 1
  {
    var k, r := x / n, x % n;
    assert x == n * k + r;
    if r + 1 == n {
      assert x + 1 == n * (k + 1) by { assert n * (k + 1) == n * k + n; }
      DivModOf(n, k + 1, 0);
    } else {
      DivModOf(n, k, r + 1);
    }
  }

  /** Within one lap the current number only counts up and wraps once. */
  lemma {:induction false} WithinLap(st: Sched, j: nat)
    requires Ok(st) && j <= st.processnum
    ensures Ticks(st, j).process ==
              if st.process + j <= st.processnum then st.process + j else st.process + j - st.processnum
    decreases j
  {
    if j > 0 {
      WithinLap(st, j - 1);
    }
  }

  /** How many ticks process `k` waits for its turn, when nothing is loaded meanwhile. */
  function Turn(st: Sched, k: nat): int
  {
    if k > st.process then k - st.process else k - st.process + st.processnum
  }

  /** From any state, the next n ticks run each of the n processes exactly once. */
  lemma EachOnce(st: Sched, k: nat)
    requires Ok(st) && 1 <= k <= st.processnum
    ensures 1 <= Turn(st, k) <= st.processnum
    ensures forall i: nat :: 1 <= i <= st.processnum ==> (Ticks(st, i).process == k <==> i == Turn(st, k))
  {
    hide Tick, Ticks;
    forall i: nat | 1 <= i <= st.processnum
      ensures Ticks(st, i).process == k <==> i == Turn(st, k)
    {
      WithinLap(st, i);
    }
  }

  // ---- ticks and loads interleaved ----

  datatype Event = Clock(stack: U64) | Load(p: Process)

  function React(st: Sched, e: Event): Sched
    requires Ok(st) && (e.Load? ==> st.processnum + 1 < TABLE)
  {
    match e
    case Clock(stack) => Tick(st, stack).0
    case Load(p) => Enter(st, p)
  }

  /** Loads stay within the table, and their roots are aligned, as the roots of run_elf are. */
  ghost predicate Fits(st: Sched, es: seq<Event>)
    requires Ok(st)
    decreases |es|
  {
    es != [] ==>
      && (es[0].Load? ==> st.processnum + 1 < TABLE && Align(es[0].p.cr3) == es[0].p.cr3)
      && (ReactOk(st, es[0]); Fits(React(st, es[0]), es[1..]))
  }

  lemma ReactOk(st: Sched, e: Event)
    requires Ok(st) && (e.Load? ==> st.processnum + 1 < TABLE && Align(e.p.cr3) == e.p.cr3)
    ensures Ok(React(st, e))
  {
  }

  function ReactAll(st: Sched, es: seq<Event>): (r: Sched)
    requires Ok(st) && Fits(st, es)
    ensures Ok(r)
    decreases |es|
  {
    if es == [] then st
    else
      ReactOk(st, es[0]);
      ReactAll(React(st, es[0]), es[1..])
  }

  /** The processes that the events enter, in order. */
  function Entered(es: seq<Event>): seq<Process>
  {
    if es == [] then [] else (if es[0].Load? then [es[0].p] else []) + Entered(es[1..])
  }

  function Clocks(es: seq<Event>): nat
  {
    if es == [] then 0 else (if es[0].Clock? then 1 else 0) + Clocks(es[1..])
  }

  /** The table holds exactly the processes entered so far. */
  ghost predicate Filled(st: Sched, ps: seq<Process>)
    requires Ok(st)
  {
    |ps| == st.processnum && forall i: nat :: 1 <= i <= st.processnum ==> st.table[i] == ps[i - 1]
  }

  lemma FilledStep(st: Sched, ps: seq<Process>, e: Event)
    requires Ok(st) && Filled(st, ps) && (e.Load? ==> st.processnum + 1 < TABLE && Align(e.p.cr3) == e.p.cr3)
    ensures Ok(React(st, e)) && Filled(React(st, e), ps + if e.Load? then [e.p] else [])
  {
  }

  /** Over every interleaving, the table holds the entered processes in order; so every number that
      a tick makes current was filled by a load. */
  lemma {:induction false} TableFilled(st: Sched, ps: seq<Process>, es: seq<Event>)
    requires Ok(st) && Fits(st, es) && Filled(st, ps)
    ensures Filled(ReactAll(st, es), ps + Entered(es))
    decreases |es|
  {
    EnteredSplit(ps, es);
    if es != [] {
      ReactOk(st, es[0]);
      FilledStep(st, ps, es[0]);
      hide React, Filled, Ok, Entered;
      TableFilled(React(st, es[0]), ps + if es[0].Load? then [es[0].p] else [], es[1..]);
    }
  }

  lemma EnteredSplit(ps: seq<Process>, es: seq<Event>)
    ensures es == [] ==> ps + Entered(es) == ps
    ensures es != [] ==> ps + Entered(es) == (ps + if es[0].Load? then [es[0].p] else []) + Entered(es[1..])
  {
  }

  /** A tick with at least one process returns on the stack of a process that was entered, and leaves
      that same process's root in cr3. */
  lemma TickRunsEntered(st: Sched, ps: seq<Process>, stack: U64)
    requires Ok(st) && Filled(st, ps) && st.processnum > 0
    ensures var (u, rsp) := Tick(st, stack);
            1 <= u.process <= |ps| && rsp.Some? && Process(rsp.value, u.cr3) == ps[u.process - 1]
  {
  }

  lemma CounterStep(st: Sched, e: Event)
    requires Ok(st) && (e.Load? ==> st.processnum + 1 < TABLE) && st.ticks == st.tticks / 10
    requires e.Clock? ==> st.tticks + 1 < TWO64
    ensures var u := React(st, e);
            u.tticks == st.tticks + (if e.Clock? then 1 else 0) && u.ticks == u.tticks / 10
  {
  }

  /** The slow counter is a tenth of the fast one, over every interleaving of fewer than 2^64 ticks. */
  lemma {:induction false} TickCounters(st: Sched, es: seq<Event>)
    requires Ok(st) && Fits(st, es) && st.ticks == st.tticks / 10 && st.tticks + Clocks(es) < TWO64
    ensures var r := ReactAll(st, es); r.tticks == st.tticks + Clocks(es) && r.ticks == r.tticks / 10
    decreases |es|
  {
    if es != [] {
      ReactOk(st, es[0]);
      CounterStep(st, es[0]);
      hide React, Ok;
      TickCounters(React(st, es[0]), es[1..]);
    }
  }

  /** The counters start so, with no process, nothing in cr3, and room for 99 processes. */
  lemma StartsCounting()
    ensures START.tticks == 0 && START.ticks == START.tticks / 10 && START.process == 0 && START.processnum == 0
    ensures START.cr3 == 0 && |START.table| == 100 && Ok(START)
    ensures forall i :: 0 <= i < 100 ==> START.table[i].rsp == 0 && START.table[i].cr3 == 0
  {
  }

  /** And no longer: the tick that wraps the fast counter to 0 leaves the slow one above 0. */
  lemma TickCountersWrap(st: Sched, stack: U64)
    requires Ok(st) && st.tticks == TWO64 - 1 && st.ticks == st.tticks / 10
    ensures var r := Tick(st, stack).0; r.tticks == 0 && r.ticks == st.ticks + 1 && r.ticks != r.tticks / 10
  {
  }

  // ---- waiting ----

  /** Some tick among the events makes process `k` current. */
  predicate Reaches(st: Sched, es: seq<Event>, k: nat)
    requires Ok(st) && Fits(st, es)
    decreases |es|
  {
    es != [] &&
    (ReactOk(st, es[0]);
     (es[0].Clock? && React(st, es[0]).process == k) || Reaches(React(st, es[0]), es[1..], k))
  }

  /** The most ticks that process `k` can wait, whatever is loaded meanwhile. */
  function MaxWait(st: Sched, k: nat): int
  {
    if st.process < k then k - st.process else TABLE - 1 - st.process + k
  }

  /** An entered process gets its turn within MaxWait ticks, never more than 99, however many loads
      come in between. */
  lemma {:induction false} BoundedWait(st: Sched, es: seq<Event>, k: nat)
    requires Ok(st) && Fits(st, es) && 1 <= k <= st.processnum
    requires Clocks(es) >= MaxWait(st, k)
    ensures MaxWait(st, k) <= 99
    ensures Reaches(st, es, k)
    decreases |es|
  {
    ReactOk(st, es[0]);
    var u := React(st, es[0]);
    if es[0].Clock? {
      if u.process != k {
        BoundedWait(u, es[1..], k);
      }
    } else {
      BoundedWait(u, es[1..], k);
    }
  }
}
