/** What the table functions do are steps of the interleaving model. */
module SchedulerLink {
  import Blocks
  import BlockFacts
  import opened Tasks
  import opened TaskTables
  import opened Allocators
  import opened Scheduler

  /** The table `t` is in state `s`, as far as its globals and its heap go. */
  ghost predicate Matches(t: TaskTable, s: State)
    reads t, t.slots, t.heap, t.heap.mem
  {
    t.Valid() && t.List() == s.tasks && t.current == s.current && t.started == s.started && t.heap.State() == s.heap
  }

  method Tick(t: TaskTable, frame: Frame, ghost s: State) returns (r: Frame, ghost s': State)
    requires Matches(t, s) && TableOk(s)
    modifies t, t.slots
    ensures Matches(t, s') && TickStep(s, frame, s')
    ensures r == if |s.tasks| == 0 then frame else s'.log[|s'.log| - 1].frame
  {
    hide Represents;
    r := t.Schedule(frame);
    s' := s;
    if |s.tasks| > 0 {
      var e := Resumed(s.who[t.current], t.List()[t.current].frame);
      s' := s.(tasks := t.List(), current := t.current, started := true,
               log := if s.started then s.log + [Preempted(s.who[s.current], frame)] + [e] else s.log + [e]);
    }
  }

  method Create(t: TaskTable, entry: nat, template: Frame, ghost s: State) returns (ghost s': State)
    requires Matches(t, s) && TableOk(s)
    modifies t, t.slots, t.heap, t.heap.mem
    ensures Matches(t, s') && CreateStep(s, entry, template, s')
    ensures |s.tasks| < 10 ==>
      |s'.tasks| == |s.tasks| + 1 && FreshTask(s'.tasks[|s.tasks|], |s.tasks|, entry, Blocks.Malloc(s.heap, 4096).1, template)
  {
    hide Represents, Blocks.Malloc;
    t.TaskCreate(entry, template);
    s' := s;
    if |s.tasks| < MAX_TASKS {
      s' := s.(tasks := t.List(), who := s.who + [s.nextWho], nextWho := s.nextWho + 1, heap := t.heap.State(),
               log := s.log + [Created(s.nextWho, t.List()[|s.tasks|].frame)]);
    }
  }

  method Exit(t: TaskTable, ghost s: State) returns (ghost s': State)
    requires Matches(t, s) && TableOk(s) && s.started && |s.tasks| > 0
    requires s.tasks[s.current].state != Done && s.who[s.current] != s.reaperWho
    modifies t.slots
    ensures Matches(t, s') && ExitStep(s, s')
  {
    hide Represents;
    t.TaskExit();
    s' := s.(tasks := t.List());
  }

  /** The loop head of `task_reap`: the reaper looks at slot `i` and either starts to reap it or moves on. */
  method Scan(t: TaskTable, i: nat, ghost s: State) returns (done: bool, next: nat, ghost s': State)
    requires Matches(t, s) && TableOk(s) && s.started && |s.tasks| > 0 && s.who[s.current] == s.reaperWho
    requires s.reaper == Reaper.Scan(i)
    ensures ReapStep(s, s') && Matches(t, s') && s'.reaper == if done then ToFree(next) else Reaper.Scan(next)
    ensures done <==> i < |s.tasks| && s.tasks[i].state == Done
    ensures next == if i >= |s.tasks| then 0 else if done then i else i + 1
  {
    hide Represents;
    done, next := false, 0;
    if i < t.count {
      assert t.slots[i] == t.List()[i];
      done := t.slots[i].state == Done;
      next := if done then i else i + 1;
    }
    s' := s.(reaper := if done then ToFree(next) else Reaper.Scan(next));
  }

  /** The `free` of `reap`, after which ticks may come, is a step of its own. */
  method FreeStack(t: TaskTable, task: nat, ghost s: State) returns (ghost s': State)
    requires Matches(t, s) && Safe(s) && s.started && |s.tasks| > 0 && s.who[s.current] == s.reaperWho
    requires s.reaper == ToFree(task)
    modifies t.heap, t.heap.mem
    ensures ReapStep(s, s') && Matches(t, s') && s'.reaper == Freed(task)
  {
    hide Represents, Blocks.Free, Freeings, FrameOf, Faithful;
    if s.tasks[task].stackStart != 0 {
      BlockFactsLive(s, task);
    }
    assert t.slots[task] == t.List()[task];
    t.FreeStack(task);
    s' := s.(heap := Blocks.Free(s.heap, s.tasks[task].stackStart), reaper := Freed(task),
             log := s.log + [StackFreed(s.who[task])]);
  }

  /** The stretch of `reap` under `cli` is one step, whatever happened since the `free`. */
  method RemoveSlot(t: TaskTable, task: nat, ghost s: State) returns (ghost s': State)
    requires Matches(t, s) && Safe(s) && s.started && |s.tasks| > 0 && s.who[s.current] == s.reaperWho
    requires s.reaper == Freed(task)
    modifies t, t.slots
    ensures ReapStep(s, s') && Matches(t, s') && s'.reaper == Reaper.Scan(task)
  {
    hide Represents, RemoveAt, Freeings, FrameOf, Faithful, StacksOk, FramesOk, FreeingsOk;
    t.RemoveSlot(task);
    s' := s.(tasks := RemoveAt(s.tasks, task), who := s.who[..task] + s.who[task + 1..],
             current := CurrentAfter(|s.tasks|, s.current, task), reaper := Reaper.Scan(task));
  }

  /** An uninterrupted `reap` is the reaper's two steps one after the other, each realised by its own call. */
  method Reap(t: TaskTable, task: nat, ghost s: State) returns (ghost mid: State, ghost s': State)
    requires Matches(t, s) && Safe(s) && s.started && |s.tasks| > 0 && s.who[s.current] == s.reaperWho
    requires s.reaper == ToFree(task)
    modifies t, t.slots, t.heap, t.heap.mem
    ensures ReapStep(s, mid) && ReapStep(mid, s') && Matches(t, s') && s'.reaper == Reaper.Scan(task)
  {
    hide Represents, ReapStep, Safe;
    mid := FreeStack(t, task, s);
    StepSafe(s, Label.Reap, mid);
    Unmoved(s, mid);
    s' := RemoveSlot(t, task, mid);
  }

  lemma Unmoved(s: State, mid: State)
    requires ReapStep(s, mid) && s.reaper.ToFree?
    ensures mid.started && |mid.tasks| > 0 && mid.who == s.who && mid.current == s.current
    ensures mid.reaperWho == s.reaperWho && |mid.who| == |mid.tasks| && mid.current < |mid.tasks|
  {
  }

  lemma BlockFactsLive(s: State, task: nat)
    requires StacksOk(s) && Owns(s, task)
    ensures Blocks.Live(s.heap, s.tasks[task].stackStart)
  {
    BlockFacts.LiveIsContents(s.heap, s.tasks[task].stackStart);
  }
}
