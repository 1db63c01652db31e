/** The loader and the clock handler of kernel/tasks/tasks.c as they run: their loops, and the
    process tables and counters that they update. */
module Tasks {
  import opened Words
  import opened Memory
  import opened Pmm
  import opened Vmm
  import opened Elf
  import opened Loader
  import opened Scheduler

  class TaskManager {
    const vm: VirtualMemory
    const processes: array<U64>
    const infos: array<U64>
    var tticks: U64
    var ticks: U64
    var process: U32
    var processnum: U32
    var cr3: U64

    constructor (vm: VirtualMemory)
      requires vm.pm.Valid()
      ensures this.vm == vm && fresh(processes) && fresh(infos) && Valid() && State() == START
    {
      this.vm := vm;
      processes := new U64[TABLE](_ => 0);
      infos := new U64[TABLE](_ => 0);
      tticks, ticks, process, processnum, cr3 := 0, 0, 0, 0, 0;
      new;
      assert Table() == START.table;
    }

    ghost predicate Valid()
    {
      && processes.Length == TABLE && infos.Length == TABLE
      && processes != infos
      && vm.pm.Valid()
      && {processes as object, infos} !! {vm.pm.pmmMap as object, vm.pm.ram}
      && this as object !in {processes as object, infos, vm.pm.pmmMap, vm.pm.ram}
    }

    ghost function Table(): (r: seq<Process>)
      requires Valid()
      reads processes, infos
      ensures |r| == TABLE && forall i :: 0 <= i < TABLE ==> r[i] == Process(processes[i], infos[i])
    {
      seq(TABLE, i requires 0 <= i < TABLE reads processes, infos => Process(processes[i], infos[i]))
    }

    ghost function State(): Sched
      requires Valid()
      reads this, processes, infos
    {
      Sched(tticks, ticks, process, processnum, Table(), cr3)
    }

    /** write_cr3: an address that `ALIGN` changes is refused with a panic, from which there is no return. */
    method WriteCr3(v: U64) returns (back: bool)
      modifies this`cr3, this`processnum
      ensures back <==> Align(v) == v
      ensures if back then cr3 == v && processnum == old(processnum) else cr3 == old(cr3) && processnum == 0
    {
      if v == Align(v) {
        cr3 := v;
        return true;
      } else {
        processnum := 0;
        return false;
      }
    }

    /** clock_handler; no stack pointer when it does not return. */
    method ClockHandler(stack: U64) returns (rsp: Option<U64>)
      requires Valid() && InTable(State())
      modifies this
      ensures Valid() && (State(), rsp) == Tick(old(State()), stack)
      ensures old(processnum) == 0 ==> rsp == Some(stack)
    {
      hide Align;
      ghost var st := State();
      tticks := Wrap64(tticks + 1);
      if tticks % 10 == 0 {
        ticks := Wrap64(ticks + 1);
      }
      if processnum == 0 {
        return Some(stack);
      }
      if processnum == process {
        process := 1;
      } else {
        process := process + 1;
      }
      assert st.table[process] == Process(processes[process], infos[process]);
      var back := WriteCr3(infos[process]);
      rsp := if back then Some(processes[process]) else None;
    }

    /** The loop of a segment's pages. */
    method MapPages(root: U64, virt: U64, phys: U64, n: nat, flags: U64)
      requires Valid() && 4096 * n < TWO64
      modifies vm.pm.pmmMap, vm.pm.ram
      ensures vm.pm.State() == MapRange(old(vm.pm.State()), root, virt, phys, n, flags)
    {
      hide MapBlock;
      var j := 0;
      while j < n
        invariant 0 <= j <= n
        invariant vm.pm.State() == MapRange(old(vm.pm.State()), root, virt, phys, j, flags)
      {
        vm.Map(root, Advance(virt, 4096 * j), Advance(phys, 4096 * j), flags);
        j := j + 1;
      }
    }

    /** The body of the loop over the program header table. */
    method PlaceSegment(root: U64, f: Image, g: Segment)
      requires Valid()
      modifies vm.pm.pmmMap, vm.pm.ram
      ensures vm.pm.State() == LoadSegment(old(vm.pm.State()), root, f, g)
      ensures g.kind != 1 || g.memsz == 0 ==> vm.pm.State() == old(vm.pm.State())
    {
      hide MapRange, CopyIn, MemSet, Pmalloc, AlignUp;
      if g.kind == 1 && g.memsz != 0 {
        AlignUpSmall(g.memsz);
        var n := AlignUp(g.memsz);
        var area := vm.pm.Allocate(n);
        MapPages(root, g.vaddr, area, n, 3);
        vm.pm.CopyBytesIn(area, f, g.offset, g.filesz);
        vm.pm.SetBytes(Advance(area, g.filesz), 0, Wrap64(g.memsz - g.filesz));
      }
    }

    /** run_elf */
    method RunFile(f: Image, bytes: U32, stackbytes: U32, junk: Frame) returns (res: LoadResult)
      requires Valid() && processnum + 1 < TABLE
      modifies this, processes, infos, vm.pm.pmmMap, vm.pm.ram
      ensures Valid()
      ensures (vm.pm.State(), res) == RunElf(old(vm.pm.State()), vm.startPml4, f, bytes, stackbytes, junk)
      ensures State() == if res.Loaded? then Enter(old(State()), Process(res.rsp, res.cr3)) else old(State())
    {
      hide Pmalloc, NewPml4, MapBlock, CopyIn, LoadSegment, FrameImage, InitialFrame, SegmentAt, SegmentCount,
        EntryPoint, Refusal;
      if Refusal(f, bytes) != 0 {
        return Refused(Refusal(f, bytes));
      }
      var root := vm.NewRoot();
      var region := vm.pm.Allocate(stackbytes / 4096);
      MapStackPages(root, region, stackbytes / 4096);
      PlaceSegments(root, f);
      var frame := InitialFrame(junk, EntryPoint(f));
      vm.pm.CopyBytesIn(FrameAddress(region, stackbytes), FrameImage(frame), 0, FRAME_BYTES);
      hide RunElf;
      res := Loaded(root, STACK_TOP - FRAME_BYTES);
      processes[processnum + 1] := STACK_TOP - FRAME_BYTES;
      infos[processnum + 1] := root;
      processnum := processnum + 1;
    }

    method MapStackPages(root: U64, region: U64, n: U32)
      requires Valid()
      modifies vm.pm.pmmMap, vm.pm.ram
      ensures vm.pm.State() == MapStack(old(vm.pm.State()), root, region, n)
    {
      hide MapBlock;
      var i := 0;
      while i < n
        invariant 0 <= i <= n
        invariant vm.pm.State() == MapStack(old(vm.pm.State()), root, region, i)
      {
        vm.Map(root, Wrap32(STACK_PAGE - 4096 * i), Advance(region, Wrap32(4096 * i)), 7);
        i := i + 1;
      }
    }

    method PlaceSegments(root: U64, f: Image)
      requires Valid()
      modifies vm.pm.pmmMap, vm.pm.ram
      ensures vm.pm.State() == LoadSegments(old(vm.pm.State()), root, f, 0, SegmentCount(f))
    {
      hide LoadSegment, SegmentAt, SegmentCount;
      var n: nat := SegmentCount(f);
      var i := 0;
      while i < n
        invariant 0 <= i <= n
        invariant LoadSegments(vm.pm.State(), root, f, i, n) == LoadSegments(old(vm.pm.State()), root, f, 0, n)
      {
        PlaceSegment(root, f, SegmentAt(f, i));
        i := i + 1;
      }
    }
  }

  lemma AlignUpSmall(n: U64)
    ensures AlignUp(n) <= 1
  {
  }
}
