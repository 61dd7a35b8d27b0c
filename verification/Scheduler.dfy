/** The task table, the timer switch and the program window of src/multitasking.c and
    src/program.c, as a state machine over values. */
module Scheduler {

  const MAX_TASKS: nat := 30
  const PROGRAM_MAX: nat := 30
  const NUM_PAGES: nat := 1024
  const PAGE_SIZE: nat := 0x40_0000
  const STACK_SIZE: nat := 0x8_0000

  datatype Registers = Registers(eip: nat, eax: nat, ebx: nat, ecx: nat, edx: nat, ebp: nat, esi: nat, edi: nat,
                                 esp: nat)

  /** The image that fxsave writes and fxrstor loads. */
  type Fpu = nat

  datatype Schedule = Always | OnFocus | NoChild | Never

  /** struct task_state. `slot` is -1 for kernel tasks. */
  datatype Task = Task(regs: Registers, slot: int, active: bool, running: bool, schedule: Schedule,
                       window: nat, pid: int, waitpid: int)

  /** Where the program region lies: first page of its windows and first physical block. */
  datatype Layout = Layout(window: nat, physical: nat, stacks: seq<nat>)
  {
    ghost predicate Valid() {
      0 < window && window + PROGRAM_MAX <= NUM_PAGES && |stacks| == MAX_TASKS
    }
  }

  /** The globals of the scheduler with the interrupted CPU context and the page directory. */
  datatype State = State(
    tasks: seq<Task>, current: int, pids: int, locked: bool, focus: nat,
    fpuSave: seq<Fpu>, cpu: Registers, fpu: Fpu,
    slotUsed: seq<bool>, activeSlot: nat, pages: seq<nat>)

  ghost predicate Shape(s: State) {
    && |s.tasks| == MAX_TASKS && |s.fpuSave| == MAX_TASKS
    && |s.slotUsed| == PROGRAM_MAX && |s.pages| == NUM_PAGES && s.activeSlot < PROGRAM_MAX
    && 0 <= s.current < MAX_TASKS
    && forall i :: 0 <= i < MAX_TASKS ==> -1 <= s.tasks[i].slot < PROGRAM_MAX
  }

  // ---- Lookups

  /** taskID_fromPID */
  function TaskOf(tasks: seq<Task>, pid: int, i: nat): (r: int)
    requires i <= |tasks|
    ensures r == -1 || (i <= r < |tasks| && tasks[r].active && tasks[r].pid == pid)
    ensures r == -1 ==> forall k :: i <= k < |tasks| ==> !(tasks[k].active && tasks[k].pid == pid) || pid == 0
    decreases |tasks| - i
  {
    if pid == 0 || i == |tasks| then -1
    else if tasks[i].active && tasks[i].pid == pid then i
    else TaskOf(tasks, pid, i + 1)
  }

  /** task_get_available: the first inactive entry. */
  function Available(tasks: seq<Task>, i: nat): (r: int)
    requires i <= |tasks|
    ensures r == -1 || (i <= r < |tasks| && !tasks[r].active)
    ensures forall k :: i <= k < (if r == -1 then |tasks| else r) ==> tasks[k].active
    decreases |tasks| - i
  {
    if i == |tasks| then -1 else if !tasks[i].active then i else Available(tasks, i + 1)
  }

  /** The first entry whose running flag is set. */
  function Running(tasks: seq<Task>, i: nat): (r: int)
    requires i <= |tasks|
    ensures r == -1 || (i <= r < |tasks| && tasks[r].running)
    ensures forall k :: i <= k < (if r == -1 then |tasks| else r) ==> !tasks[k].running
    decreases |tasks| - i
  {
    if i == |tasks| then -1 else if tasks[i].running then i else Running(tasks, i + 1)
  }

  // ---- The choice of the next task

  /** May be resumed: active, not running, scheduled, and not waiting for an active task. */
  predicate Eligible(s: State, i: nat)
    requires i < |s.tasks|
  {
    var t := s.tasks[i];
    && t.active && !t.running
    && (t.schedule == Always || (t.schedule == OnFocus && t.window == s.focus))
    && (t.waitpid > 0 ==> TaskOf(s.tasks, t.waitpid, 0) == -1)
  }

  function At(r: nat, d: nat): (i: nat)
    ensures i < MAX_TASKS
  {
    (r + d) % MAX_TASKS
  }

  /** The first eligible entry at distance `d` or more cyclically after `r`, or -1. */
  function Scan(s: State, r: nat, d: nat): (j: int)
    requires |s.tasks| == MAX_TASKS && 1 <= d
    ensures j == -1 || (0 <= j < MAX_TASKS && Eligible(s, j))
    decreases MAX_TASKS - d
  {
    if d >= MAX_TASKS then -1
    else if Eligible(s, At(r, d)) then At(r, d)
    else Scan(s, r, d + 1)
  }

  // ---- Steps

  /** A page directory entry for block `b` with flag 0x83. */
  function PageEntry(b: nat): nat { b * PAGE_SIZE + 0x83 }

  /** select_program */
  function Select(l: Layout, s: State, slot: nat): State
    requires l.Valid() && Shape(s) && slot < PROGRAM_MAX
  {
    s.(pages := s.pages[l.window + s.activeSlot := PageEntry(l.physical + s.activeSlot)]
                       [0 := PageEntry(l.physical + slot)],
       activeSlot := slot)
  }

  /** switch_to_task: save the interrupted context of `r`, load that of `j`. */
  function SwitchContext(l: Layout, s: State, r: nat, j: nat): State
    requires l.Valid() && Shape(s) && r < MAX_TASKS && j < MAX_TASKS && r != j
  {
    var saved := s.(tasks := s.tasks[r := s.tasks[r].(regs := s.cpu)], fpuSave := s.fpuSave[r := s.fpu]);
    var slot := saved.tasks[j].slot;
    var paged := if slot != -1 then Select(l, saved, slot) else saved;
    paged.(fpu := paged.fpuSave[j], cpu := paged.tasks[j].regs)
  }

  /** A wait that has come to its end is cleared. */
  function Release(s: State, j: nat): State
    requires Shape(s) && j < MAX_TASKS
  {
    if s.tasks[j].waitpid > 0 then s.(tasks := s.tasks[j := s.tasks[j].(waitpid := 0)]) else s
  }

  /** The running flag and the running index move from `r` to `j`. */
  function HandOver(s: State, r: nat, j: nat): State
    requires Shape(s) && r < MAX_TASKS && j < MAX_TASKS && r != j
  {
    s.(tasks := s.tasks[r := s.tasks[r].(running := false)][j := s.tasks[j].(running := true)], current := j)
  }

  function Switch(l: Layout, s: State, r: nat, j: nat): State
    requires l.Valid() && Shape(s) && r < MAX_TASKS && j < MAX_TASKS && r != j
  {
    HandOver(SwitchContext(l, Release(s, j), r, j), r, j)
  }

  /** All of a switch at once: which entries, images and pages it sets. */
  ghost function Switched(l: Layout, s: State, r: nat, j: nat): State
    requires l.Valid() && Shape(s) && r < MAX_TASKS && j < MAX_TASKS && r != j
  {
    var next := s.tasks[j];
    var paged := if next.slot != -1 then Select(l, s, next.slot) else s;
    paged.(tasks := s.tasks[r := s.tasks[r].(regs := s.cpu, running := false)]
                           [j := next.(running := true, waitpid := if next.waitpid > 0 then 0 else next.waitpid)],
           fpuSave := s.fpuSave[r := s.fpu], fpu := s.fpuSave[j], cpu := next.regs, current := j)
  }

  lemma SwitchIsSwitched(l: Layout, s: State, r: nat, j: nat)
    requires l.Valid() && Shape(s) && r < MAX_TASKS && j < MAX_TASKS && r != j
    ensures Switch(l, s, r, j) == Switched(l, s, r, j)
  {
    var a, b := Switch(l, s, r, j), Switched(l, s, r, j);
    assert a.tasks == b.tasks;
    assert a.fpuSave == b.fpuSave;
  }

  /** task_callback, in a state with a running task. */
  function AfterTick(l: Layout, s: State): State
    requires l.Valid() && Shape(s)
  {
    var r := Running(s.tasks, 0);
    if s.locked || r == -1 then s
    else
      var j := Scan(s, r, 1);
      if j == -1 then s else Switch(l, s, r, j)
  }

  /** The context a new task starts with; esi and edi are whatever the caller left in them. */
  function EntryRegisters(l: Layout, i: nat, address: nat, esi: nat, edi: nat): Registers
    requires l.Valid() && i < MAX_TASKS
  {
    var ebp := l.stacks[i] + STACK_SIZE - 12;
    Registers(address, 0, 0, 0, 0, ebp, esi, edi, ebp - 32)
  }

  /** start_task; the FPU image and the running flag of the entry are left as they were. */
  function AfterStart(l: Layout, s: State, address: nat, slot: int, esi: nat, edi: nat): State
    requires l.Valid() && Shape(s)
  {
    var i := Available(s.tasks, 0);
    if i == -1 then s
    else
      var t := s.tasks[i].(regs := EntryRegisters(l, i, address, esi, edi), slot := slot, schedule := Always,
                           window := s.tasks[s.current].window, active := true, pid := s.pids, waitpid := 0);
      s.(tasks := s.tasks[i := t], pids := s.pids + 1)
  }

  /** stop_task, and the bookkeeping of task_end. Window 0 is the null window. */
  function AfterStop(s: State, i: nat): State
    requires Shape(s) && i < MAX_TASKS
  {
    var t := s.tasks[i];
    if t.slot == -1 then s.(tasks := s.tasks[i := t.(active := false)])
    else s.(tasks := s.tasks[i := t.(active := false, window := 0)], slotUsed := s.slotUsed[t.slot := false])
  }

  /** program_findSlot: the first free slot, or -1. */
  function FreeSlot(used: seq<bool>, i: nat): (r: int)
    requires i <= |used|
    ensures r == -1 || (i <= r < |used| && !used[r])
    ensures forall k :: i <= k < (if r == -1 then |used| else r) ==> used[k]
    decreases |used| - i
  {
    if i == |used| then -1 else if !used[i] then i else FreeSlot(used, i + 1)
  }

  datatype Step =
    | Tick
    | Start(address: nat, slot: int, esi: nat, edi: nat)
    | Stop(i: nat)
    | SetSchedule(i: nat, schedule: Schedule)
    | Wait(i: nat, pid: int)
    | FindSlot
    | Execute(cpu: Registers, fpu: Fpu)   // the running task computes until the next interrupt
    | Focus(window: nat)
    | Lock(on: bool)

  ghost predicate WellFormed(step: Step) {
    && (step.Stop? || step.SetSchedule? || step.Wait? ==> step.i < MAX_TASKS)
    && (step.Start? ==> -1 <= step.slot < PROGRAM_MAX)
  }

  function Next(l: Layout, s: State, step: Step): State
    requires l.Valid() && Shape(s) && WellFormed(step)
  {
    match step
    case Tick => AfterTick(l, s)
    case Start(address, slot, esi, edi) => AfterStart(l, s, address, slot, esi, edi)
    case Stop(i) => AfterStop(s, i)
    case SetSchedule(i, schedule) => s.(tasks := s.tasks[i := s.tasks[i].(schedule := schedule)])
    case Wait(i, pid) => s.(tasks := s.tasks[i := s.tasks[i].(waitpid := pid)])
    case FindSlot =>
      var slot := FreeSlot(s.slotUsed, 0);
      if slot == -1 then s else s.(slotUsed := s.slotUsed[slot := true])
    case Execute(cpu, fpu) => s.(cpu := cpu, fpu := fpu)
    case Focus(window) => s.(focus := window)
    case Lock(on) => s.(locked := on)
  }

  function Run(l: Layout, s: State, steps: seq<Step>): (r: State)
    requires l.Valid() && Shape(s) && forall step :: step in steps ==> WellFormed(step)
    ensures Shape(r)
    decreases |steps|
  {
    if steps == [] then s
    else
      ShapeKept(l, s, steps[0]);
      Run(l, Next(l, s, steps[0]), steps[1..])
  }

  lemma ShapeKept(l: Layout, s: State, step: Step)
    requires l.Valid() && Shape(s) && WellFormed(step)
    ensures Shape(Next(l, s, step))
  {
    hide SwitchContext, Release, HandOver, Switch, Eligible;
    var r := Running(s.tasks, 0);
    if step.Tick? && r != -1 && Scan(s, r, 1) != -1 {
      assert Eligible(s, Scan(s, r, 1));
      ScanNotRunning(s, r);
      SwitchIsSwitched(l, s, r, Scan(s, r, 1));
    }
  }

  lemma ScanNotRunning(s: State, r: nat)
    requires |s.tasks| == MAX_TASKS && r < MAX_TASKS && s.tasks[r].running
    ensures Scan(s, r, 1) != r
  {
  }

  // ---- One running task, unique pids

  ghost predicate Inv(s: State) {
    Shape(s) && s.pids > 0 && OneRunning(s.tasks, s.current) && UniquePids(s.tasks, s.pids)
  }

  ghost predicate OneRunning(tasks: seq<Task>, current: int) {
    forall i :: 0 <= i < |tasks| ==> tasks[i].running == (i == current)
  }

  /** Active tasks have pairwise different pids, all handed out already. */
  ghost predicate UniquePids(tasks: seq<Task>, pids: int) {
    && (forall i :: 0 <= i < |tasks| && tasks[i].active ==> 0 < tasks[i].pid < pids)
    && (forall i, j :: 0 <= i < j < |tasks| && tasks[i].active && tasks[j].active ==> tasks[i].pid != tasks[j].pid)
  }

  lemma RunningIsCurrent(s: State)
    requires Inv(s)
    ensures Running(s.tasks, 0) == s.current
  {
    assert s.tasks[s.current].running;
    var r := Running(s.tasks, 0);
    if r != -1 { assert s.tasks[r].running == (r == s.current); }
  }

  lemma InvKept(l: Layout, s: State, step: Step)
    requires l.Valid() && Inv(s) && WellFormed(step)
    ensures Inv(Next(l, s, step))
  {
    hide OneRunning, UniquePids, Eligible, Select, Switch;
    ShapeKept(l, s, step);
    match step
    case Tick =>
      RunningIsCurrent(s);
      if AfterTick(l, s) != s { InvSwitch(l, s); }
    case Start(address, slot, esi, edi) => InvStart(l, s, address, slot, esi, edi);
    case Stop(i) => InvUpdate(s, AfterStop(s, i), i);
    case SetSchedule(i, schedule) => InvUpdate(s, Next(l, s, step), i);
    case Wait(i, pid) => InvUpdate(s, Next(l, s, step), i);
    case _ => assert Next(l, s, step).tasks == s.tasks;
  }

  /** Updates of one entry that keep its running flag and its pid, and activate nothing. */
  lemma InvUpdate(s: State, t: State, i: nat)
    requires Inv(s) && Shape(t) && t.current == s.current && t.pids == s.pids && i < MAX_TASKS
    requires t.tasks == s.tasks[i := t.tasks[i]]
    requires t.tasks[i].running == s.tasks[i].running && t.tasks[i].pid == s.tasks[i].pid
    requires t.tasks[i].active ==> s.tasks[i].active
    ensures Inv(t)
  {
  }

  /** A switch goes to another entry and is the update that Switched says. */
  lemma SwitchTo(l: Layout, s: State) returns (j: nat)
    requires l.Valid() && Inv(s) && Scan(s, s.current, 1) != -1
    ensures j == Scan(s, s.current, 1) && j < MAX_TASKS && j != s.current
    ensures Switch(l, s, s.current, j) == Switched(l, s, s.current, j) && Shape(Switched(l, s, s.current, j))
  {
    hide Switch, UniquePids, Select, Eligible;
    j := Scan(s, s.current, 1);
    ScanNotRunning(s, s.current);
    SwitchIsSwitched(l, s, s.current, j);
    SwitchedShape(l, s, s.current, j);
  }

  lemma SwitchedShape(l: Layout, s: State, r: nat, j: nat)
    requires l.Valid() && Shape(s) && r < MAX_TASKS && j < MAX_TASKS && r != j
    ensures Shape(Switched(l, s, r, j))
  {
  }

  lemma InvSwitch(l: Layout, s: State)
    requires l.Valid() && Inv(s) && !s.locked && Scan(s, s.current, 1) != -1
    ensures Inv(Switch(l, s, s.current, Scan(s, s.current, 1)))
  {
    hide Switch, UniquePids, Scan;
    var j := SwitchTo(l, s);
    SamePids(s.tasks, Switched(l, s, s.current, j).tasks, s.pids);
  }

  lemma SamePids(tasks: seq<Task>, tasks': seq<Task>, pids: int)
    requires |tasks'| == |tasks| && UniquePids(tasks, pids)
    requires forall i :: 0 <= i < |tasks| ==> tasks'[i].active == tasks[i].active && tasks'[i].pid == tasks[i].pid
    ensures UniquePids(tasks', pids)
  {
  }

  lemma InvStart(l: Layout, s: State, address: nat, slot: int, esi: nat, edi: nat)
    requires l.Valid() && Inv(s) && -1 <= slot < PROGRAM_MAX
    ensures Inv(AfterStart(l, s, address, slot, esi, edi))
  {
    hide EntryRegisters;
  }

  /** Over every run one entry is running, the running index names it, and the active tasks
      have pairwise different pids. */
  lemma {:induction false} InvAlways(l: Layout, s: State, steps: seq<Step>)
    requires l.Valid() && Inv(s) && forall step :: step in steps ==> WellFormed(step)
    ensures Inv(Run(l, s, steps))
    decreases |steps|
  {
    hide Next;
    if steps != [] {
      InvKept(l, s, steps[0]);
      InvAlways(l, Next(l, s, steps[0]), steps[1..]);
    }
  }

  // ---- Context isolation

  /** The context of task `i`: in the CPU while it runs, in its entry otherwise. */
  ghost function Context(s: State, i: nat): (Registers, Fpu)
    requires Shape(s) && i < MAX_TASKS
  {
    if i == s.current then (s.cpu, s.fpu) else (s.tasks[i].regs, s.fpuSave[i])
  }

  /** The step is a computation of task `i`, or starts a new task in its entry. */
  ghost predicate Concerns(s: State, step: Step, i: nat)
    requires Shape(s)
  {
    (step.Execute? && s.current == i) || (step.Start? && Available(s.tasks, 0) == i)
  }

  /** Every step leaves the context and the program slot of all other tasks alone, switches
      included. */
  lemma ContextKept(l: Layout, s: State, step: Step, i: nat)
    requires l.Valid() && Inv(s) && WellFormed(step) && i < MAX_TASKS && !Concerns(s, step, i)
    ensures Shape(Next(l, s, step)) && Context(Next(l, s, step), i) == Context(s, i)
    ensures Next(l, s, step).tasks[i].slot == s.tasks[i].slot
  {
    hide UniquePids, Eligible, EntryRegisters, Switch;
    ShapeKept(l, s, step);
    if step.Tick? {
      RunningIsCurrent(s);
      if AfterTick(l, s) != s { ContextSwitch(l, s, i); }
    }
  }

  lemma ContextSwitch(l: Layout, s: State, i: nat)
    requires l.Valid() && Inv(s) && i < MAX_TASKS && Scan(s, s.current, 1) != -1
    ensures var t := Switch(l, s, s.current, Scan(s, s.current, 1));
            Shape(t) && Context(t, i) == Context(s, i) && t.tasks[i].slot == s.tasks[i].slot
  {
    hide OneRunning, UniquePids, Switch, Scan;
    var j := SwitchTo(l, s);
  }

  /** No step of the run is a computation of task `i` or a start in its entry. */
  ghost predicate Undisturbed(l: Layout, s: State, steps: seq<Step>, i: nat)
    requires l.Valid() && Shape(s) && forall step :: step in steps ==> WellFormed(step)
    decreases |steps|
  {
    steps == [] ||
    (!Concerns(s, steps[0], i) && (ShapeKept(l, s, steps[0]); Undisturbed(l, Next(l, s, steps[0]), steps[1..], i)))
  }

  /** Isolation over every run: between two computations of a task its registers and FPU image
      do not change, however starts, stops, waits and ticks interleave. */
  lemma {:induction false} Isolation(l: Layout, s: State, steps: seq<Step>, i: nat)
    requires l.Valid() && Inv(s) && (forall step :: step in steps ==> WellFormed(step)) && i < MAX_TASKS
    requires Undisturbed(l, s, steps, i)
    ensures Context(Run(l, s, steps), i) == Context(s, i)
    ensures Run(l, s, steps).tasks[i].slot == s.tasks[i].slot
    decreases |steps|
  {
    hide Next, Context, Concerns;
    if steps != [] {
      ContextKept(l, s, steps[0], i);
      InvKept(l, s, steps[0]);
      Isolation(l, Next(l, s, steps[0]), steps[1..], i);
    }
  }

  /** A task that was preempted and is running again sees in the CPU what it left there. */
  lemma ResumeRestores(l: Layout, s: State, steps: seq<Step>, i: nat)
    requires l.Valid() && Inv(s) && (forall step :: step in steps ==> WellFormed(step)) && i < MAX_TASKS
    requires s.current == i && Undisturbed(l, s, steps, i)
    ensures Run(l, s, steps).current == i ==> Run(l, s, steps).cpu == s.cpu && Run(l, s, steps).fpu == s.fpu
  {
    hide Next;
    Isolation(l, s, steps, i);
  }

  /** A new task keeps its entry context through a switch exactly when it did not land in the
      running entry (or the CPU happened to hold the same registers). */
  lemma EntryContextKept(l: Layout, s: State, address: nat, slot: int, esi: nat, edi: nat)
    requires l.Valid() && Inv(s) && -1 <= slot < PROGRAM_MAX && Available(s.tasks, 0) != -1
    requires (InvStart(l, s, address, slot, esi, edi);
              AfterTick(l, AfterStart(l, s, address, slot, esi, edi)).current != s.current)
    ensures EntryKept(l, s, address, slot, esi, edi) <==>
            Available(s.tasks, 0) != s.current || s.cpu == EntryRegisters(l, Available(s.tasks, 0), address, esi, edi)
  {
    hide EntryRegisters, Switch, Scan, Select, UniquePids, OneRunning, Available;
    var t := AfterStart(l, s, address, slot, esi, edi);
    InvStart(l, s, address, slot, esi, edi);
    RunningIsCurrent(t);
    var j := SwitchTo(l, t);
  }

  /** The context of a task just started, after the next tick, is the one it was to start with. */
  ghost predicate EntryKept(l: Layout, s: State, address: nat, slot: int, esi: nat, edi: nat)
    requires l.Valid() && Shape(s) && -1 <= slot < PROGRAM_MAX && Available(s.tasks, 0) != -1
  {
    var i: nat, t := Available(s.tasks, 0), AfterStart(l, s, address, slot, esi, edi);
    ShapeKept(l, s, Step.Start(address, slot, esi, edi));
    ShapeKept(l, t, Tick);
    Context(AfterTick(l, t), i).0 == EntryRegisters(l, i, address, esi, edi)
  }

  // ---- The program window

  /** What the hardware makes of a page directory entry: frame `b`, present, writable, of 4 MiB, and
      nothing else. */
  predicate Shows(page: nat, b: nat) {
    && page / PAGE_SIZE == b
    && page % PAGE_SIZE == PRESENT + WRITABLE + LARGE
  }

  const PRESENT: nat := 0x01
  const WRITABLE: nat := 0x02
  const LARGE: nat := 0x80

  lemma EntryShows(b: nat)
    ensures Shows(PageEntry(b), b)
  {
  }

  ghost predicate OwnWindow(l: Layout, s: State, k: nat)
    requires l.Valid() && Shape(s) && k < PROGRAM_MAX
  {
    Shows(s.pages[l.window + k], l.physical + k)
  }

  /** Every slot's own window shows its block; page 0 shows the slot of the running program. */
  ghost predicate Mapped(l: Layout, s: State)
    requires l.Valid() && Shape(s)
  {
    && (forall k :: 0 <= k < PROGRAM_MAX ==> OwnWindow(l, s, k))
    && (var slot := s.tasks[s.current].slot;
        slot != -1 ==> s.activeSlot == slot && Shows(s.pages[0], l.physical + slot))
  }

  lemma MappedSwitch(l: Layout, s: State)
    requires l.Valid() && Inv(s) && Mapped(l, s) && Scan(s, s.current, 1) != -1
    ensures var t := Switch(l, s, s.current, Scan(s, s.current, 1)); Shape(t) && Mapped(l, t)
  {
    hide PageEntry, Shows, OneRunning, UniquePids, Switch, Scan;
    var j := SwitchTo(l, s);
    var t := Switched(l, s, s.current, j);
    EntryShows(l.physical + s.activeSlot);
    if s.tasks[j].slot != -1 { EntryShows(l.physical + s.tasks[j].slot); }
    forall k | 0 <= k < PROGRAM_MAX ensures OwnWindow(l, t, k) { assert OwnWindow(l, s, k); }
  }

  /** A start breaks the mapping exactly when it reuses the running entry for another program. */
  lemma StartKeepsMapped(l: Layout, s: State, address: nat, slot: int, esi: nat, edi: nat)
    requires l.Valid() && Inv(s) && Mapped(l, s) && -1 <= slot < PROGRAM_MAX
    ensures Mapped(l, AfterStart(l, s, address, slot, esi, edi)) <==>
            Available(s.tasks, 0) != s.current || slot == -1 ||
            (s.activeSlot == slot && Shows(s.pages[0], l.physical + slot))
  {
    hide Shows, EntryRegisters;
    var t := AfterStart(l, s, address, slot, esi, edi);
    forall k | 0 <= k < PROGRAM_MAX ensures OwnWindow(l, t, k) { assert OwnWindow(l, s, k); }
  }

  /** The guard a caller of start_task can check: the running entry is not up for reuse, or not by a
      program other than the one that is mapped. */
  predicate StartSafe(l: Layout, s: State, step: Step)
    requires l.Valid() && Shape(s)
  {
    step.Start? && step.slot != -1 && Available(s.tasks, 0) == s.current ==>
      s.activeSlot == step.slot && Shows(s.pages[0], l.physical + step.slot)
  }

  lemma MappedKept(l: Layout, s: State, step: Step)
    requires l.Valid() && Inv(s) && WellFormed(step) && Mapped(l, s)
    ensures Shape(Next(l, s, step)) && (Mapped(l, Next(l, s, step)) <==> StartSafe(l, s, step))
  {
    hide Shows, UniquePids, Eligible, EntryRegisters, Switch;
    RunningIsCurrent(s);
    ShapeKept(l, s, step);
    if step.Start? {
      StartKeepsMapped(l, s, step.address, step.slot, step.esi, step.edi);
    } else if step.Tick? && AfterTick(l, s) != s {
      MappedSwitch(l, s);
    } else {
      forall k | 0 <= k < PROGRAM_MAX ensures OwnWindow(l, Next(l, s, step), k) { assert OwnWindow(l, s, k); }
    }
  }

  ghost predicate AllStartsSafe(l: Layout, s: State, steps: seq<Step>)
    requires l.Valid() && Shape(s) && forall step :: step in steps ==> WellFormed(step)
    decreases |steps|
  {
    steps == [] ||
    (StartSafe(l, s, steps[0]) && (ShapeKept(l, s, steps[0]); AllStartsSafe(l, Next(l, s, steps[0]), steps[1..])))
  }

  /** The mapping holds after each of the steps. */
  ghost predicate MappedThroughout(l: Layout, s: State, steps: seq<Step>)
    requires l.Valid() && Shape(s) && forall step :: step in steps ==> WellFormed(step)
    decreases |steps|
  {
    && Mapped(l, s)
    && (steps == [] || (ShapeKept(l, s, steps[0]); MappedThroughout(l, Next(l, s, steps[0]), steps[1..])))
  }

  /** Over every run, the running program is mapped at page 0 and all windows stay mapped, exactly when
      no start gives the running entry to a program that is not mapped. */
  lemma {:induction false} MappedAlways(l: Layout, s: State, steps: seq<Step>)
    requires l.Valid() && Inv(s) && Mapped(l, s) && forall step :: step in steps ==> WellFormed(step)
    ensures MappedThroughout(l, s, steps) <==> AllStartsSafe(l, s, steps)
    decreases |steps|
  {
    hide Next, Mapped, StartSafe;
    if steps != [] {
      MappedKept(l, s, steps[0]);
      InvKept(l, s, steps[0]);
      var next := Next(l, s, steps[0]);
      if Mapped(l, next) { MappedAlways(l, next, steps[1..]); } else { assert !MappedThroughout(l, next, steps[1..]); }
    }
  }

  /** At the end of a run whose starts are all safe, page 0 shows the frame of the running program's slot,
      and the window of any slot `k` the frame of that slot. */
  lemma {:induction false} FramesAlways(l: Layout, s: State, steps: seq<Step>, k: nat)
    requires l.Valid() && Inv(s) && Mapped(l, s) && forall step :: step in steps ==> WellFormed(step)
    requires AllStartsSafe(l, s, steps) && k < PROGRAM_MAX
    ensures var r := Run(l, s, steps);
            && Inv(r)
            && r.pages[l.window + k] / PAGE_SIZE == l.physical + k && r.pages[l.window + k] % PAGE_SIZE == 0x83
            && (var slot := r.tasks[r.current].slot;
                slot != -1 ==> r.pages[0] / PAGE_SIZE == l.physical + slot && r.pages[0] % PAGE_SIZE == 0x83)
    decreases |steps|
  {
    hide Next, StartSafe;
    if steps == [] {
      assert OwnWindow(l, s, k);
    } else {
      hide Mapped;
      MappedKept(l, s, steps[0]);
      InvKept(l, s, steps[0]);
      FramesAlways(l, Next(l, s, steps[0]), steps[1..], k);
    }
  }

  /** Programs in different slots, running at two times of such runs, have different memory at page 0. */
  lemma SlotsNeverShare(l: Layout, s: State, steps: seq<Step>, more: seq<Step>)
    requires l.Valid() && Inv(s) && Mapped(l, s)
    requires forall step :: step in steps || step in more ==> WellFormed(step)
    requires AllStartsSafe(l, s, steps) && AllStartsSafe(l, s, more)
    ensures var a, b := Run(l, s, steps), Run(l, s, more);
            var i, j := a.tasks[a.current].slot, b.tasks[b.current].slot;
            i != -1 && j != -1 ==> (a.pages[0] / PAGE_SIZE == b.pages[0] / PAGE_SIZE <==> i == j)
  {
    hide Run, AllStartsSafe, Inv, Mapped;
    FramesAlways(l, s, steps, 0);
    FramesAlways(l, s, more, 0);
  }

  // ---- A start into the running entry

  const NO_REGISTERS := Registers(0, 0, 0, 0, 0, 0, 0, 0, 0)

  /** Task 0 was stopped while it runs, task 1 may run next, all other entries are free. */
  function Stopped(): State {
    State(seq(MAX_TASKS, i => Task(NO_REGISTERS, -1, i == 1, i == 0, Always, 0, if i == 1 then 1 else 0, 0)),
          0, 2, false, 0, seq(MAX_TASKS, _ => 0), NO_REGISTERS, 0, seq(PROGRAM_MAX, _ => false), 0,
          seq(NUM_PAGES, k requires 0 <= k => if k == 0 then 0 else PageEntry(k - 1)))
  }

  /** There a program started at address 7 in slot 3 loses its entry context at the next tick, and is
      not mapped until then. */
  lemma ReuseBreaks(stacks: seq<nat>)
    requires |stacks| == MAX_TASKS
    ensures var l, s := Layout(1, 0, stacks), Stopped();
            && Inv(s) && Mapped(l, s)
            && !EntryKept(l, s, 7, 3, 0, 0) && !Mapped(l, AfterStart(l, s, 7, 3, 0, 0))
  {
    var l, s := Layout(1, 0, stacks), Stopped();
    assert Available(s.tasks, 0) == 0 && !s.tasks[0].active;
    var t := AfterStart(l, s, 7, 3, 0, 0);
    assert Running(t.tasks, 0) == 0 && At(0, 1) == 1 && Eligible(t, 1) && Scan(t, 0, 1) == 1;
    EntryContextKept(l, s, 7, 3, 0, 0);
    StartKeepsMapped(l, s, 7, 3, 0, 0);
  }

  // ---- Round robin

  /** How far task `i` is after the running one, cyclically. */
  function Distance(r: int, i: int): int { if i > r then i - r else i + MAX_TASKS - r }

  /** What Scan returns is the nearest eligible entry. */
  lemma {:induction false} ScanIsNearest(s: State, r: nat, d: nat, e: nat)
    requires |s.tasks| == MAX_TASKS && 1 <= d <= e < MAX_TASKS && r < MAX_TASKS && Eligible(s, At(r, e))
    ensures Scan(s, r, d) != -1 && d <= Distance(r, Scan(s, r, d)) <= e
    decreases e - d
  {
    hide Eligible, At, Distance;
    DistanceAt(r, d);
    if d < e && !Eligible(s, At(r, d)) { ScanIsNearest(s, r, d + 1, e); }
  }

  lemma DistanceAt(r: nat, d: nat)
    requires r < MAX_TASKS && 1 <= d < MAX_TASKS
    ensures Distance(r, At(r, d)) == d
  {
  }

  /** An unlocked tick switches exactly when some task is eligible; then it resumes the first
      one cyclically after the running task, and one that waits only if the awaited pid is gone. */
  lemma TickPicksFirst(l: Layout, s: State)
    requires l.Valid() && Inv(s) && !s.locked
    ensures AfterTick(l, s).current != s.current <==> SomeEligible(s)
    ensures AfterTick(l, s).current != s.current ==> Nearest(s, AfterTick(l, s).current)
  {
    hide Eligible, UniquePids, Select, SwitchContext, Release;
    RunningIsCurrent(s);
    NearestFound(s);
  }

  ghost predicate SomeEligible(s: State)
    requires |s.tasks| == MAX_TASKS
  {
    exists i :: 0 <= i < MAX_TASKS && Eligible(s, i)
  }

  /** `j` is eligible, nothing eligible is nearer, and what it waits for has ended. */
  ghost predicate Nearest(s: State, j: int)
    requires Shape(s)
  {
    && 0 <= j < MAX_TASKS && Eligible(s, j)
    && (forall i :: 0 <= i < MAX_TASKS && Eligible(s, i) ==> Distance(s.current, j) <= Distance(s.current, i))
    && (s.tasks[j].waitpid > 0 ==>
          forall k :: 0 <= k < MAX_TASKS && s.tasks[k].active ==> s.tasks[k].pid != s.tasks[j].waitpid)
  }

  lemma NearestFound(s: State)
    requires Inv(s)
    ensures Scan(s, s.current, 1) != -1 <==> SomeEligible(s)
    ensures Scan(s, s.current, 1) != -1 ==> Nearest(s, Scan(s, s.current, 1)) && Scan(s, s.current, 1) != s.current
  {
    hide UniquePids, Scan, TaskOf;
    forall i | 0 <= i < MAX_TASKS && Eligible(s, i)
      ensures Scan(s, s.current, 1) != -1 && Distance(s.current, Scan(s, s.current, 1)) <= Distance(s.current, i)
    {
      var e := Distance(s.current, i);
      assert i != s.current && At(s.current, e) == i;
      ScanIsNearest(s, s.current, 1, e);
    }
  }

  /** Task `i` is eligible in every state of the run, so no tick of the run resumed it. */
  ghost predicate PassedOver(l: Layout, s: State, steps: seq<Step>, i: nat)
    requires l.Valid() && Shape(s) && i < MAX_TASKS && forall step :: step in steps ==> WellFormed(step)
    decreases |steps|
  {
    Eligible(s, i) &&
    (steps == [] || (ShapeKept(l, s, steps[0]); PassedOver(l, Next(l, s, steps[0]), steps[1..], i)))
  }

  ghost function UnlockedTicks(l: Layout, s: State, steps: seq<Step>): nat
    requires l.Valid() && Shape(s) && forall step :: step in steps ==> WellFormed(step)
    decreases |steps|
  {
    if steps == [] then 0
    else
      ShapeKept(l, s, steps[0]);
      (if steps[0].Tick? && !s.locked then 1 else 0) + UnlockedTicks(l, Next(l, s, steps[0]), steps[1..])
  }

  /** Bounded waiting: a task that stays eligible is passed over by fewer unlocked ticks than its
      distance from the running task, so it runs within MAX_TASKS - 1 of them. */
  lemma {:induction false} BoundedWaiting(l: Layout, s: State, steps: seq<Step>, i: nat)
    requires l.Valid() && Inv(s) && i < MAX_TASKS && forall step :: step in steps ==> WellFormed(step)
    requires PassedOver(l, s, steps, i)
    ensures UnlockedTicks(l, s, steps) < Distance(s.current, i) <= MAX_TASKS - 1
    decreases |steps|
  {
    hide Next, Eligible;
    NotRunning(s, i);
    if steps != [] {
      var next := Next(l, s, steps[0]);
      InvKept(l, s, steps[0]);
      BoundedWaiting(l, next, steps[1..], i);
      StepCloser(l, s, steps[0], i);
    }
  }

  lemma NotRunning(s: State, i: nat)
    requires Inv(s) && i < MAX_TASKS && Eligible(s, i)
    ensures i != s.current
  {
  }

  lemma StepCloser(l: Layout, s: State, step: Step, i: nat)
    requires l.Valid() && Inv(s) && i < MAX_TASKS && WellFormed(step) && Eligible(s, i)
    requires Shape(Next(l, s, step)) && Next(l, s, step).current != i
    ensures Distance(Next(l, s, step).current, i) + (if step.Tick? && !s.locked then 1 else 0) <= Distance(s.current, i)
  {
    hide Eligible, Switch;
    NotRunning(s, i);
    if step.Tick? && !s.locked {
      TickPicksFirst(l, s);
      assert SomeEligible(s) && Nearest(s, AfterTick(l, s).current);
    } else {
      RunningIsCurrent(s);
    }
  }
}
