/** What starting, stopping, focusing and locking mean for the runs of the scheduler. */
module SchedulerLaws {
  import opened Scheduler

  // ---- Stopping

  /** No start of the run takes entry `i`. */
  ghost predicate NotReused(l: Layout, s: State, steps: seq<Step>, i: nat)
    requires l.Valid() && Shape(s) && forall step :: step in steps ==> WellFormed(step)
    decreases |steps|
  {
    steps == [] ||
    (&& !(steps[0].Start? && Available(s.tasks, 0) == i)
     && (ShapeKept(l, s, steps[0]); NotReused(l, Next(l, s, steps[0]), steps[1..], i)))
  }

  /** Stopping takes the task out of the table and gives its slot back, and nothing else. */
  lemma StopTakesOut(s: State, i: nat)
    requires Shape(s) && i < MAX_TASKS
    ensures var r := AfterStop(s, i);
            && Shape(r) && !r.tasks[i].active && r.current == s.current && r.pages == s.pages && r.pids == s.pids
            && (forall k :: 0 <= k < MAX_TASKS && k != i ==> r.tasks[k] == s.tasks[k])
            && (forall k :: 0 <= k < PROGRAM_MAX ==> r.slotUsed[k] == (s.slotUsed[k] && k != s.tasks[i].slot))
  {
  }

  /** A stopped task stays out of the table, and once it is preempted it never runs again, over every run
      in which its entry is not given to a new task. */
  lemma {:induction false} StopIsFinal(l: Layout, s: State, steps: seq<Step>, i: nat)
    requires l.Valid() && Inv(s) && i < MAX_TASKS && forall step :: step in steps ==> WellFormed(step)
    requires !s.tasks[i].active && NotReused(l, s, steps, i)
    ensures !Run(l, s, steps).tasks[i].active
    ensures s.current != i ==> Run(l, s, steps).current != i
    decreases |steps|
  {
    hide Next, Available;
    if steps != [] {
      InvKept(l, s, steps[0]);
      StaysOut(l, s, steps[0], i);
      StopIsFinal(l, Next(l, s, steps[0]), steps[1..], i);
    }
  }

  lemma StaysOut(l: Layout, s: State, step: Step, i: nat)
    requires l.Valid() && Inv(s) && WellFormed(step) && i < MAX_TASKS && !s.tasks[i].active
    requires !(step.Start? && Available(s.tasks, 0) == i)
    ensures Shape(Next(l, s, step)) && !Next(l, s, step).tasks[i].active
    ensures s.current != i ==> Next(l, s, step).current != i
  {
    hide Switch, Scan, UniquePids, Available, EntryRegisters;
    ShapeKept(l, s, step);
    if step.Tick? {
      RunningIsCurrent(s);
      if AfterTick(l, s) != s { var j := SwitchTo(l, s); }
    }
  }

  // ---- Starting

  /** No step of the run stops task `i`, changes its schedule or makes it wait. */
  predicate LeftAlone(steps: seq<Step>, i: nat) {
    forall step :: step in steps ==> !((step.Stop? || step.SetSchedule? || step.Wait?) && step.i == i)
  }

  /** The state in which task `i` runs for the first time, or the last one of the run. */
  ghost function UntilRuns(l: Layout, s: State, steps: seq<Step>, i: nat): (r: State)
    requires l.Valid() && Shape(s) && forall step :: step in steps ==> WellFormed(step)
    ensures Shape(r)
    decreases |steps|
  {
    if s.current == i || steps == [] then s
    else
      ShapeKept(l, s, steps[0]);
      UntilRuns(l, Next(l, s, steps[0]), steps[1..], i)
  }

  /** Active, scheduled always, waiting for nobody, and not running. */
  predicate Pending(s: State, i: nat)
    requires Shape(s) && i < MAX_TASKS
  {
    && s.tasks[i].active && !s.tasks[i].running && s.tasks[i].schedule == Always && s.tasks[i].waitpid == 0
  }

  /** A start adds a task with a new pid that may run at once; no other entry changes. */
  lemma StartAdds(l: Layout, s: State, address: nat, slot: int, esi: nat, edi: nat)
    requires l.Valid() && Inv(s) && -1 <= slot < PROGRAM_MAX && Available(s.tasks, 0) != -1
    ensures var i, t := Available(s.tasks, 0), AfterStart(l, s, address, slot, esi, edi);
            && Inv(t) && t.tasks[i].slot == slot && t.tasks[i].pid == s.pids && t.current == s.current
            && t.tasks[i].window == s.tasks[s.current].window
            && (i != s.current ==> Pending(t, i))
            && (forall k :: 0 <= k < MAX_TASKS && k != i ==> t.tasks[k] == s.tasks[k])
            && (forall k :: 0 <= k < MAX_TASKS && k != i && t.tasks[k].active ==> t.tasks[k].pid != t.tasks[i].pid)
  {
    hide EntryRegisters, Available;
    InvStart(l, s, address, slot, esi, edi);
  }

  /** A program started in another entry than the running one runs within MAX_TASKS - 1 unlocked ticks,
      and then from its entry address, with cleared registers and the stack of its entry. */
  lemma StartedRuns(l: Layout, s: State, address: nat, slot: int, esi: nat, edi: nat, steps: seq<Step>)
    requires l.Valid() && Inv(s) && -1 <= slot < PROGRAM_MAX && forall step :: step in steps ==> WellFormed(step)
    requires var i := Available(s.tasks, 0); i != -1 && i != s.current && LeftAlone(steps, i)
    requires var t := AfterStart(l, s, address, slot, esi, edi);
             (InvStart(l, s, address, slot, esi, edi); UnlockedTicks(l, t, steps) >= MAX_TASKS - 1)
    ensures var i, t := Available(s.tasks, 0), AfterStart(l, s, address, slot, esi, edi);
            (InvStart(l, s, address, slot, esi, edi);
             var r := UntilRuns(l, t, steps, i);
             && r.current == i && r.cpu.eip == address
             && r.cpu.eax == r.cpu.ebx == r.cpu.ecx == r.cpu.edx == 0
             && l.stacks[i] < r.cpu.esp < r.cpu.ebp < l.stacks[i] + STACK_SIZE)
  {
    hide AfterStart, UnlockedTicks, UntilRuns, Available, Pending;
    var i: nat, t := Available(s.tasks, 0), AfterStart(l, s, address, slot, esi, edi);
    StartAdds(l, s, address, slot, esi, edi);
    StartedContext(l, s, address, slot, esi, edi);
    PendingRuns(l, t, steps, i);
  }

  lemma StartedContext(l: Layout, s: State, address: nat, slot: int, esi: nat, edi: nat)
    requires l.Valid() && Inv(s) && -1 <= slot < PROGRAM_MAX && Available(s.tasks, 0) != -1
    ensures var i, t := Available(s.tasks, 0), AfterStart(l, s, address, slot, esi, edi);
            var r := t.tasks[i].regs;
            && r.eip == address && r.eax == r.ebx == r.ecx == r.edx == 0
            && l.stacks[i] < r.esp < r.ebp < l.stacks[i] + STACK_SIZE
  {
  }

  /** A pending task runs with the registers in its entry as soon as enough ticks were unlocked. */
  lemma PendingRuns(l: Layout, s: State, steps: seq<Step>, i: nat)
    requires l.Valid() && Inv(s) && i < MAX_TASKS && forall step :: step in steps ==> WellFormed(step)
    requires Pending(s, i) && LeftAlone(steps, i) && UnlockedTicks(l, s, steps) >= MAX_TASKS - 1
    ensures UntilRuns(l, s, steps, i).current == i && UntilRuns(l, s, steps, i).cpu == s.tasks[i].regs
  {
    hide UntilRuns, UnlockedTicks, PassedOver;
    PassedOrRuns(l, s, steps, i);
    if UntilRuns(l, s, steps, i).current != i { BoundedWaiting(l, s, steps, i); }
  }

  lemma {:induction false} PassedOrRuns(l: Layout, s: State, steps: seq<Step>, i: nat)
    requires l.Valid() && Inv(s) && i < MAX_TASKS && forall step :: step in steps ==> WellFormed(step)
    requires Pending(s, i) && LeftAlone(steps, i)
    ensures var r := UntilRuns(l, s, steps, i);
            if r.current == i then r.cpu == s.tasks[i].regs else PassedOver(l, s, steps, i)
    decreases |steps|
  {
    hide Next, Eligible, Pending;
    PendingIsEligible(s, i);
    NotRunning(s, i);
    if steps != [] {
      InvKept(l, s, steps[0]);
      var next := Next(l, s, steps[0]);
      PendingStep(l, s, steps[0], i);
      if next.current != i { PassedOrRuns(l, next, steps[1..], i); }
    }
  }

  lemma PendingIsEligible(s: State, i: nat)
    requires Shape(s) && i < MAX_TASKS && Pending(s, i)
    ensures Eligible(s, i)
  {
  }

  /** A step resumes a pending task with the registers in its entry, or leaves it pending with them. */
  lemma PendingStep(l: Layout, s: State, step: Step, i: nat)
    requires l.Valid() && Inv(s) && WellFormed(step) && i < MAX_TASKS && Pending(s, i) && LeftAlone([step], i)
    ensures var next := Next(l, s, step);
            && Shape(next)
            && if next.current == i then next.cpu == s.tasks[i].regs
               else Pending(next, i) && next.tasks[i].regs == s.tasks[i].regs
  {
    hide Switch, Scan, UniquePids, EntryRegisters;
    assert step in [step];
    ShapeKept(l, s, step);
    if step.Tick? {
      RunningIsCurrent(s);
      if AfterTick(l, s) != s { var j := SwitchTo(l, s); }
    }
  }

  // ---- Choosing

  /** What a tick resumes: a task scheduled always, or on focus in the focused window, that waits for no
      task that is still there. */
  predicate Resumable(s: State, t: Task) {
    && t.active && !t.running && t.schedule != Never && t.schedule != NoChild
    && (t.schedule == OnFocus ==> t.window == s.focus)
    && (t.waitpid > 0 ==> forall k :: 0 <= k < |s.tasks| && s.tasks[k].active ==> s.tasks[k].pid != t.waitpid)
  }

  /** An unlocked tick switches exactly when there is such a task, resumes one, and ends its wait. */
  lemma TickResumes(l: Layout, s: State)
    requires l.Valid() && Inv(s) && !s.locked
    ensures var r := AfterTick(l, s);
            && Shape(r)
            && (r.current != s.current <==> exists t :: t in s.tasks && Resumable(s, t))
            && (r.current != s.current ==> Resumable(s, s.tasks[r.current]) && r.tasks[r.current].waitpid <= 0)
  {
    hide UniquePids, Switch, Scan, TaskOf;
    RunningIsCurrent(s);
    ShapeKept(l, s, Tick);
    NearestFound(s);
    forall i | 0 <= i < MAX_TASKS ensures Eligible(s, i) <==> Resumable(s, s.tasks[i]) { EligibleResumable(s, i); }
    if Scan(s, s.current, 1) != -1 { var j := SwitchTo(l, s); }
  }

  lemma EligibleResumable(s: State, i: nat)
    requires Shape(s) && i < MAX_TASKS
    ensures Eligible(s, i) <==> Resumable(s, s.tasks[i])
  {
  }

  lemma LockKept(l: Layout, s: State, step: Step)
    requires l.Valid() && Shape(s) && s.locked && WellFormed(step) && step != Lock(false)
    ensures Next(l, s, step).locked && Next(l, s, step).current == s.current
  {
    hide EntryRegisters, Available, FreeSlot;
  }

  /** A task that never is to run is not resumed; one that always may, or has the focus, and waits for nobody
      can be; and the lock stops every tick. */
  lemma StepsDecide(l: Layout, s: State, i: nat)
    requires l.Valid() && Inv(s) && i < MAX_TASKS
    ensures var t := Next(l, s, SetSchedule(i, Never)); Shape(t) && !Resumable(t, t.tasks[i])
    ensures var t := Next(l, s, SetSchedule(i, Always));
            Shape(t) && (s.tasks[i].active && i != s.current && s.tasks[i].waitpid <= 0 ==> Resumable(t, t.tasks[i]))
    ensures var t := Next(l, s, Lock(true)); Shape(t) && AfterTick(l, t) == t
    ensures var t := Next(l, s, Focus(s.tasks[i].window));
            && Shape(t)
            && (s.tasks[i].active && i != s.current && s.tasks[i].schedule == OnFocus && s.tasks[i].waitpid <= 0 ==>
                  Resumable(t, t.tasks[i]))
  {
    hide UniquePids;
  }

  /** A task that waits for one that is there is not resumed. */
  lemma WaitBlocks(l: Layout, s: State, i: nat, k: nat)
    requires l.Valid() && Shape(s) && i < MAX_TASKS && k < MAX_TASKS && s.tasks[k].active && s.tasks[k].pid > 0
    ensures var t := Next(l, s, Wait(i, s.tasks[k].pid)); Shape(t) && !Resumable(t, t.tasks[i])
  {
    var t := Next(l, s, Wait(i, s.tasks[k].pid));
    assert t.tasks[k].active && t.tasks[k].pid == s.tasks[k].pid;
  }

  /** While the lock is held, the same task runs, over every run that does not give it back. */
  lemma {:induction false} LockHolds(l: Layout, s: State, steps: seq<Step>)
    requires l.Valid() && Inv(s) && s.locked && forall step :: step in steps ==> WellFormed(step)
    requires forall step :: step in steps ==> step != Lock(false)
    ensures Run(l, s, steps).current == s.current
    decreases |steps|
  {
    hide Next;
    if steps != [] {
      InvKept(l, s, steps[0]);
      assert steps[0] in steps;
      LockKept(l, s, steps[0]);
      assert forall step :: step in steps[1..] ==> step in steps;
      LockHolds(l, Next(l, s, steps[0]), steps[1..]);
    }
  }

  // ---- Program slots

  /** Searching twice without a stop in between gives two different slots, as long as there are two. */
  lemma SlotsDiffer(l: Layout, s: State)
    requires l.Valid() && Shape(s)
    ensures var i := FreeSlot(s.slotUsed, 0);
            var r := Next(l, s, FindSlot);
            var j := FreeSlot(r.slotUsed, 0);
            && (i == -1 <==> forall k :: 0 <= k < PROGRAM_MAX ==> s.slotUsed[k])
            && (i != -1 ==> !s.slotUsed[i] && i != j && forall k :: 0 <= k < i ==> s.slotUsed[k])
            && (i != -1 ==> forall k :: 0 <= k < PROGRAM_MAX ==> r.slotUsed[k] == (s.slotUsed[k] || k == i))
  {
  }
}
