/** The code of src/multitasking.c and src/program.c over its global arrays, proved against the
    state machine of module Scheduler. */
module SchedulerKernel {
  import opened Scheduler

  class Kernel {
    const layout: Layout
    const tasks: array<Task>
    const fpuSave: array<Fpu>
    const slotUsed: array<bool>
    const pages: array<nat>
    var current: int
    var pids: int
    var locked: bool
    var focus: nat
    var cpu: Registers
    var fpu: Fpu
    var activeSlot: nat

    ghost function View(): State
      reads this, tasks, fpuSave, slotUsed, pages
    {
      State(tasks[..], current, pids, locked, focus, fpuSave[..], cpu, fpu, slotUsed[..], activeSlot, pages[..])
    }

    ghost predicate Valid()
      reads this, tasks, fpuSave, slotUsed, pages
    {
      && layout.Valid() && Shape(View())
      && fpuSave as object != pages as object
    }

    constructor (l: Layout, s: State)
      requires l.Valid() && Shape(s)
      ensures Valid() && layout == l && View() == s
    {
      layout := l;
      tasks := new Task[MAX_TASKS](i requires 0 <= i < MAX_TASKS => s.tasks[i]);
      fpuSave := new Fpu[MAX_TASKS](i requires 0 <= i < MAX_TASKS => s.fpuSave[i]);
      slotUsed := new bool[PROGRAM_MAX](i requires 0 <= i < PROGRAM_MAX => s.slotUsed[i]);
      pages := new nat[NUM_PAGES](i requires 0 <= i < NUM_PAGES => s.pages[i]);
      current, pids, locked, focus := s.current, s.pids, s.locked, s.focus;
      cpu, fpu, activeSlot := s.cpu, s.fpu, s.activeSlot;
      new;
      assert tasks[..] == s.tasks && fpuSave[..] == s.fpuSave && slotUsed[..] == s.slotUsed && pages[..] == s.pages;
    }

    /** taskID_fromPID */
    method TaskIdFromPid(pid: int) returns (id: int)
      requires Valid()
      ensures id == TaskOf(View().tasks, pid, 0)
    {
      if pid == 0 { return -1; }
      for i := 0 to MAX_TASKS
        invariant TaskOf(tasks[..], pid, 0) == TaskOf(tasks[..], pid, i)
      {
        if tasks[i].active && tasks[i].pid == pid { return i; }
      }
      return -1;
    }

    /** task_get_available */
    method TaskGetAvailable() returns (id: int)
      requires Valid()
      ensures id == Available(View().tasks, 0)
    {
      for i := 0 to MAX_TASKS
        invariant Available(tasks[..], 0) == Available(tasks[..], i)
      {
        if !tasks[i].active { return i; }
      }
      return -1;
    }

    /** start_task. The name, console, directory and file descriptors are not modelled. */
    method StartTask(address: nat, slot: int, esi: nat, edi: nat) returns (pid: int)
      requires Valid() && -1 <= slot < PROGRAM_MAX
      modifies this`pids, tasks
      ensures Valid() && View() == AfterStart(layout, old(View()), address, slot, esi, edi)
      ensures pid == if Available(old(View()).tasks, 0) == -1 then -1 else old(pids)
    {
      var i := TaskGetAvailable();
      if i == -1 { return -1; }
      var ebp := layout.stacks[i] + STACK_SIZE - 3 * 4;
      var task := tasks[i];
      task := task.(regs := Registers(address, 0, 0, 0, 0, ebp, esi, edi, ebp - 8 * 4));
      task := task.(slot := slot, schedule := Always, window := tasks[current].window, active := true);
      task := task.(pid := pids, waitpid := 0);
      tasks[i] := task;
      pid := pids;
      pids := pids + 1;
    }

    /** stop_task */
    method StopTask(i: nat)
      requires Valid() && i < MAX_TASKS
      modifies tasks, slotUsed
      ensures Valid() && View() == AfterStop(old(View()), i)
    {
      tasks[i] := tasks[i].(active := false);
      if tasks[i].slot != -1 {
        slotUsed[tasks[i].slot] := false;
        tasks[i] := tasks[i].(window := 0);
      }
    }

    /** program_findSlot */
    method ProgramFindSlot() returns (slot: int)
      requires Valid()
      modifies slotUsed
      ensures Valid() && slot == FreeSlot(old(View()).slotUsed, 0)
      ensures View() == Next(layout, old(View()), FindSlot)
    {
      slot := -1;
      for i := 0 to PROGRAM_MAX
        invariant slotUsed[..] == old(slotUsed[..]) && slot == -1
        invariant FreeSlot(slotUsed[..], 0) == FreeSlot(slotUsed[..], i)
      {
        if !slotUsed[i] {
          slot := i;
          slotUsed[i] := true;
          break;
        }
      }
    }

    /** select_program */
    method SelectProgram(slot: nat)
      requires Valid() && slot < PROGRAM_MAX
      modifies this`activeSlot, pages
      ensures Valid() && View() == Select(layout, old(View()), slot)
      ensures Shows(pages[0], layout.physical + slot)
      ensures Shows(pages[layout.window + old(activeSlot)], layout.physical + old(activeSlot))
    {
      pages[layout.window + activeSlot] := PageEntry(layout.physical + activeSlot);
      pages[0] := PageEntry(layout.physical + slot);
      EntryShows(layout.physical + activeSlot);
      EntryShows(layout.physical + slot);
      activeSlot := slot;
    }

    /** switch_to_task */
    method SwitchToTask(r: nat, j: nat)
      requires Valid() && r < MAX_TASKS && j < MAX_TASKS && r != j
      modifies this, tasks, fpuSave, pages
      ensures Valid() && View() == SwitchContext(layout, old(View()), r, j)
    {
      tasks[r] := tasks[r].(regs := cpu);
      fpuSave[r] := fpu;
      if tasks[j].slot != -1 { SelectProgram(tasks[j].slot); }
      fpu := fpuSave[j];
      cpu := tasks[j].regs;
    }

    /** task_callback. The search gives up after MAX_TASKS + 5 checks, which is enough to see
        every entry. */
    method TaskCallback()
      requires Valid() && Running(View().tasks, 0) != -1
      modifies this, tasks, fpuSave, pages
      ensures Valid() && View() == AfterTick(layout, old(View()))
    {
      hide Switch, Available, Eligible, Scan, Reached;
      if locked { return; }
      var r := RunningIndex();
      var other := OtherActive(r);
      if !other { NoneWithoutOther(View(), r); return; }
      ghost var s := View();
      var next, checks := r + 1, 0;
      ReachedSteps(r);
      ghost var wraps := 0;
      while checks < MAX_TASKS + 5
        invariant Valid() && View() == s && 0 <= next <= MAX_TASKS && wraps <= 2
        invariant wraps == 0 ==> next == r + 1 + checks
        invariant wraps == 1 ==> next == checks - (MAX_TASKS - r)
        invariant Scan(s, r, 1) == Scan(s, r, Reached(r, next, wraps))
        decreases MAX_TASKS + 5 - checks
      {
        checks := checks + 1;
        if next == MAX_TASKS {
          next := 0;
          wraps := if wraps < 2 then wraps + 1 else 2;
          continue;
        }
        var resume := MayResume(next);
        if resume {
          FoundNext(s, r, next, wraps);
          Dispatch(r, next);
          return;
        }
        PassedEntry(s, r, next, wraps);
        next := next + 1;
      }
      ScanEnds(s, r);
    }

    /** The tests on one entry: active and not running, its schedule, its wait. */
    method MayResume(next: nat) returns (b: bool)
      requires Valid() && next < MAX_TASKS
      ensures b == Eligible(View(), next)
    {
      hide TaskOf;
      var t := tasks[next];
      if !t.active || t.running { return false; }
      if t.schedule == Always || (t.schedule == OnFocus && t.window == focus) {
        if t.waitpid > 0 {
          var waitTask := TaskIdFromPid(t.waitpid);
          return waitTask == -1;
        }
        return true;
      }
      return false;
    }

    /** A finished wait is cleared, the context switched, and the running flag handed over. */
    method Dispatch(r: nat, next: nat)
      requires Valid() && r < MAX_TASKS && next < MAX_TASKS && r != next
      modifies this, tasks, fpuSave, pages
      ensures Valid() && View() == Switch(layout, old(View()), r, next)
    {
      hide SwitchContext;
      if tasks[next].waitpid > 0 { tasks[next] := tasks[next].(waitpid := 0); }
      assert View() == Release(old(View()), next);
      SwitchToTask(r, next);
      tasks[r] := tasks[r].(running := false);
      tasks[next] := tasks[next].(running := true);
      current := next;
    }

    method RunningIndex() returns (r: int)
      requires Valid()
      ensures r == Running(View().tasks, 0)
    {
      for i := 0 to MAX_TASKS
        invariant Running(tasks[..], 0) == Running(tasks[..], i)
      {
        if tasks[i].running { return i; }
      }
      return -1;
    }

    method OtherActive(r: int) returns (b: bool)
      requires Valid()
      ensures b <==> exists i :: 0 <= i < MAX_TASKS && tasks[i].active && i != r
    {
      for i := 0 to MAX_TASKS
        invariant forall k :: 0 <= k < i ==> !(tasks[k].active && k != r)
      {
        if tasks[i].active && i != r { return true; }
      }
      return false;
    }
  }

  /** The distance up to which the search has seen every entry; all of them after the second
      wrap, or once it is back at the running one. */
  function Reached(r: nat, next: nat, wraps: nat): (d: nat)
    requires r < MAX_TASKS
    ensures d >= 1
  {
    if wraps == 0 then (if next > r then next - r else 1)
    else if wraps == 1 && next < r then next + MAX_TASKS - r
    else MAX_TASKS
  }

  lemma ScanEnds(s: State, r: nat)
    requires |s.tasks| == MAX_TASKS
    ensures Scan(s, r, MAX_TASKS) == -1
  {
  }

  lemma ReachedSteps(r: nat)
    requires r < MAX_TASKS
    ensures Reached(r, r + 1, 0) == 1 && Reached(r, 0, 1) == Reached(r, MAX_TASKS, 0)
    ensures forall next :: 0 <= next ==> Reached(r, next, 2) == MAX_TASKS
    ensures forall next :: r <= next ==> Reached(r, next, 1) == MAX_TASKS
  {
  }

  /** An eligible entry that the search arrives at is the first one. */
  lemma FoundNext(s: State, r: nat, next: nat, wraps: nat)
    requires Shape(s) && r < MAX_TASKS && next < MAX_TASKS && s.tasks[r].running && Eligible(s, next)
    requires wraps == 0 ==> next > r
    requires Scan(s, r, 1) == Scan(s, r, Reached(r, next, wraps))
    ensures Scan(s, r, 1) == next && next != r
  {
    hide Eligible, Scan;
    var d := Distance(r, next);
    EligibleIsNotRunning(s, next);
    DistanceReaches(r, next);
    ScanIsNearest(s, r, 1, d);
    ScanEnds(s, r);
    ScanStops(s, r, d);
    var reached := Reached(r, next, wraps);
    assert reached == d || reached == MAX_TASKS;
  }

  lemma EligibleIsNotRunning(s: State, i: nat)
    requires Shape(s) && i < MAX_TASKS && Eligible(s, i)
    ensures !s.tasks[i].running
  {
  }

  lemma DistanceReaches(r: nat, i: nat)
    requires r < MAX_TASKS && i < MAX_TASKS && i != r
    ensures 1 <= Distance(r, i) < MAX_TASKS && At(r, Distance(r, i)) == i
  {
  }

  lemma ScanStops(s: State, r: nat, d: nat)
    requires |s.tasks| == MAX_TASKS && 1 <= d < MAX_TASKS && Eligible(s, At(r, d))
    ensures Scan(s, r, d) == At(r, d)
  {
    hide Eligible;
  }

  lemma PassedEntry(s: State, r: nat, next: nat, wraps: nat)
    requires Shape(s) && r < MAX_TASKS && next < MAX_TASKS && !Eligible(s, next)
    requires wraps == 0 ==> next > r
    ensures Scan(s, r, Reached(r, next, wraps)) == Scan(s, r, Reached(r, next + 1, wraps))
  {
    hide Eligible;
    if wraps == 0 || (wraps == 1 && next < r) { assert At(r, Reached(r, next, wraps)) == next; }
  }

  lemma NoneWithoutOther(s: State, r: nat)
    requires Shape(s) && r < MAX_TASKS && s.tasks[r].running
    requires forall i :: 0 <= i < MAX_TASKS && s.tasks[i].active ==> i == r
    ensures Scan(s, r, 1) == -1
  {
  }
}
