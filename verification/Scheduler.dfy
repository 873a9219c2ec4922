/**
 The scheduler under interleaving: timer ticks, creations, exits, heap calls of the running task and the
 separate steps of the reaper, in any order.

 A task's index changes when an earlier task is reaped, so every task also has a number, `who`, given at its
 creation and never changed. The log speaks only of these numbers.
 */
module Scheduler {
  import opened Bytes
  import opened Blocks
  import opened BlockFacts
  import opened HeapLaws
  import opened HeapRuns
  import opened Tasks

  datatype Event =
    | Created(who: nat, frame: Frame)
    | Preempted(who: nat, frame: Frame)
    | Resumed(who: nat, frame: Frame)
    | StackFreed(who: nat)

  /** Where the reaper is: looking at slot `i`, about to free its stack, or about to remove it under `cli`. */
  datatype Reaper = Scan(i: nat) | ToFree(i: nat) | Freed(i: nat)

  datatype State = State(
    tasks: seq<Task>, who: seq<nat>, current: nat, started: bool, heap: Heap,
    reaper: Reaper, reaperWho: nat, nextWho: nat, log: seq<Event>)

  datatype Label =
    | Tick(frame: Frame)
    | Create(entry: nat, template: Frame)
    | Exit
    | Reap
    | Use(call: Call)

  predicate Init(s: State) {
    && |s.tasks| == 0 && |s.who| == 0 && s.current == 0 && !s.started && Blocks.Inv(s.heap)
    && s.reaper == Scan(0) && s.nextWho == 0 && |s.log| == 0
  }

  // ---------------------------------------------------------------- the steps

  predicate TickStep(s: State, frame: Frame, s': State) {
    if s.current >= |s.tasks| || |s.who| != |s.tasks| then s' == s
    else if !s.started then
      s' == s.(started := true, log := s.log + [Resumed(s.who[s.current], s.tasks[s.current].frame)])
    else
      var ts := s.tasks[s.current := s.tasks[s.current].(frame := frame)];
      && IsNext(ts, s.current, s'.current)
      && s' == s.(tasks := ts, current := s'.current,
                  log := s.log + [Preempted(s.who[s.current], frame)]
                             + [Resumed(s.who[s'.current], ts[s'.current].frame)])
  }

  /** Creation; if the stack allocation fails, the task is created all the same, with a null stack. */
  predicate CreateStep(s: State, entry: nat, template: Frame, s': State) {
    if |s.tasks| >= MAX_TASKS then s' == s
    else
      var (h, p) := Malloc(s.heap, STACK_SIZE);
      var t := NewTask(|s.tasks|, entry, p, template);
      s' == s.(tasks := s.tasks + [t], who := s.who + [s.nextWho], nextWho := s.nextWho + 1, heap := h,
               log := s.log + [Created(s.nextWho, t.frame)])
  }

  /** The running task, which is not the reaper, marks itself done and then waits for the next tick. */
  predicate ExitStep(s: State, s': State) {
    && s.started && s.current < |s.tasks| == |s.who|
    && s.tasks[s.current].state != Done && s.who[s.current] != s.reaperWho
    && s' == s.(tasks := s.tasks[s.current := s.tasks[s.current].(state := Done)])
  }

  /** One step of the reaper task, taken while it is the running task. */
  predicate ReapStep(s: State, s': State) {
    && s.started && s.current < |s.tasks| == |s.who| && s.who[s.current] == s.reaperWho
    && match s.reaper
       case Scan(i) =>
         s' == s.(reaper := if i >= |s.tasks| then Scan(0)
                            else if s.tasks[i].state == Done then ToFree(i) else Scan(i + 1))
       case ToFree(i) =>
         i < |s.tasks|
         && s' == s.(heap := Free(s.heap, s.tasks[i].stackStart), reaper := Freed(i),
                     log := s.log + [StackFreed(s.who[i])])
       case Freed(i) =>
         i < |s.tasks|
         && s' == s.(tasks := RemoveAt(s.tasks, i), who := s.who[..i] + s.who[i + 1..],
                     current := CurrentAfter(|s.tasks|, s.current, i), reaper := Scan(i))
  }

  /** A task owns its stack, if it got one, until the reaper has freed it. */
  predicate Owns(s: State, k: nat) {
    k < |s.tasks| && s.tasks[k].stackStart != 0 && s.reaper != Freed(k)
  }

  /** The running code calls the heap, but not to release the stack of a task. */
  ghost predicate UseStep(s: State, c: Call, s': State) {
    && Allowed(s.heap, c)
    && (forall k: nat :: Owns(s, k) ==> c != FreeCall(s.tasks[k].stackStart))
    && (forall k: nat :: Owns(s, k) && c.ReallocCall? ==> c.p != s.tasks[k].stackStart)
    && s' == s.(heap := Apply(s.heap, c).0)
  }

  ghost predicate Step(s: State, l: Label, s': State) {
    match l
    case Tick(frame) => TickStep(s, frame, s')
    case Create(entry, template) => CreateStep(s, entry, template, s')
    case Exit => ExitStep(s, s')
    case Reap => ReapStep(s, s')
    case Use(call) => UseStep(s, call, s')
  }

  // ---------------------------------------------------------------- the history

  datatype LastFrame = Nothing | Last(frame: Frame)

  /** The frame a task was last created or preempted with, by the log alone. */
  function FrameOf(log: seq<Event>, w: nat): LastFrame {
    if |log| == 0 then Nothing
    else match log[|log| - 1]
      case Created(x, f) => if x == w then Last(f) else FrameOf(log[..|log| - 1], w)
      case Preempted(x, f) => if x == w then Last(f) else FrameOf(log[..|log| - 1], w)
      case _ => FrameOf(log[..|log| - 1], w)
  }

  /** Every resumed task got exactly the frame it was last preempted or created with. */
  ghost predicate Faithful(log: seq<Event>) {
    forall k :: 0 <= k < |log| && log[k].Resumed? ==> FrameOf(log[..k], log[k].who) == Last(log[k].frame)
  }

  /** How often the stack of `w` was freed. */
  function Freeings(log: seq<Event>, w: nat): nat {
    if |log| == 0 then 0
    else Freeings(log[..|log| - 1], w) + if log[|log| - 1] == StackFreed(w) then 1 else 0
  }

  lemma LogStep(log: seq<Event>, e: Event, w: nat)
    ensures Freeings(log + [e], w) == Freeings(log, w) + if e == StackFreed(w) then 1 else 0
    ensures FrameOf(log + [e], w)
         == if (e.Created? || e.Preempted?) && e.who == w then Last(e.frame) else FrameOf(log, w)
  {
    assert (log + [e])[..|log + [e]| - 1] == log;
  }

  lemma FaithfulStep(log: seq<Event>, e: Event)
    requires Faithful(log) && (e.Resumed? ==> FrameOf(log, e.who) == Last(e.frame))
    ensures Faithful(log + [e])
  {
    var l := log + [e];
    forall k | 0 <= k < |l| && l[k].Resumed?
      ensures FrameOf(l[..k], l[k].who) == Last(l[k].frame)
    {
      assert l[..k] == log[..k];
      assert log[..|log|] == log;
    }
  }

  // ---------------------------------------------------------------- the invariant

  predicate TableOk(s: State) {
    && |s.who| == |s.tasks| <= MAX_TASKS
    && (s.current < |s.tasks| || s.current == |s.tasks| == 0)
    && IdsAreIndices(s.tasks)
    && (forall k :: 0 <= k < |s.who| ==> s.who[k] < s.nextWho)
    && (forall j, k :: 0 <= j < k < |s.who| ==> s.who[j] != s.who[k])
  }

  /** The reaper is never done, and the slot it is at holds a task that is done and not running. */
  predicate ReaperOk(s: State)
    requires |s.who| == |s.tasks|
  {
    && (forall k :: 0 <= k < |s.tasks| && s.who[k] == s.reaperWho ==> s.tasks[k].state != Done)
    && (!s.reaper.Scan? ==>
          && s.reaper.i < |s.tasks| && s.tasks[s.reaper.i].state == Done && s.current != s.reaper.i
          && exists k :: 0 <= k < |s.who| && s.who[k] == s.reaperWho)
  }

  /** Every owned stack is a live heap block of its own. */
  ghost predicate StacksOk(s: State) {
    && Blocks.Inv(s.heap)
    && (forall k: nat :: Owns(s, k) ==>
          && s.tasks[k].stackStart in Contents(s.heap)
          && |Contents(s.heap)[s.tasks[k].stackStart]| >= STACK_SIZE
          && s.tasks[k].stackTop == s.tasks[k].stackStart + STACK_SIZE)
    && (forall j: nat, k: nat :: j < k && Owns(s, j) && Owns(s, k) ==> s.tasks[j].stackStart != s.tasks[k].stackStart)
  }

  /** What is saved in slot `k` is what the log says of its task. */
  ghost predicate FramesOk(s: State)
    requires |s.who| == |s.tasks|
  {
    && Faithful(s.log)
    && forall k :: 0 <= k < |s.tasks| ==> FrameOf(s.log, s.who[k]) == Last(s.tasks[k].frame)
  }

  /** Stacks of present tasks are not freed yet (but for the one being removed), those of gone tasks once. */
  ghost predicate FreeingsOk(s: State)
    requires |s.who| == |s.tasks|
  {
    && (forall k :: 0 <= k < |s.who| ==> Freeings(s.log, s.who[k]) == if s.reaper == Freed(k) then 1 else 0)
    && (forall w: nat :: w < s.nextWho && w !in s.who ==> Freeings(s.log, w) == 1)
    && (forall w: nat :: w >= s.nextWho ==> Freeings(s.log, w) == 0)
  }

  ghost predicate Safe(s: State) {
    TableOk(s) && ReaperOk(s) && StacksOk(s) && FramesOk(s) && FreeingsOk(s)
  }

  lemma InitSafe(s: State)
    requires Init(s)
    ensures Safe(s)
  {
  }

  /** The stacks do not care about frames, states and the log. */
  lemma SameStacks(s: State, s': State)
    requires StacksOk(s) && s'.heap == s.heap && |s'.tasks| == |s.tasks|
    requires s'.reaper == s.reaper || !s'.reaper.Freed?
    requires s.reaper.Freed? ==> s'.reaper == s.reaper
    requires forall k :: 0 <= k < |s.tasks| ==>
      s'.tasks[k].stackStart == s.tasks[k].stackStart && s'.tasks[k].stackTop == s.tasks[k].stackTop
    ensures StacksOk(s')
  {
    assert forall k: nat :: Owns(s', k) ==> Owns(s, k);
  }

  // ---------------------------------------------------------------- ticks

  lemma TickSafe(s: State, frame: Frame, s': State)
    requires Safe(s) && TickStep(s, frame, s')
    ensures Safe(s')
  {
    hide Faithful, FrameOf, Freeings, ContentsFrom, Blocks.Inv, IsNext;
    if s.current < |s.tasks| {
      SameStacks(s, s');
      TickTable(s, frame, s');
      TickLog(s, frame, s');
    }
  }

  lemma TickTable(s: State, frame: Frame, s': State)
    requires TableOk(s) && ReaperOk(s) && TickStep(s, frame, s')
    ensures TableOk(s') && ReaperOk(s')
  {
    if s.current < |s.tasks| && s.started {
      NeverPicksDone(s, s'.tasks, s'.current);
    }
  }

  lemma TickLog(s: State, frame: Frame, s': State)
    requires TableOk(s) && s.current < |s.tasks| && FramesOk(s) && FreeingsOk(s) && TickStep(s, frame, s')
    ensures |s'.who| == |s'.tasks| && FramesOk(s') && FreeingsOk(s')
  {
    hide Faithful, FrameOf, Freeings, FramesOk, FreeingsOk;
    if !s.started {
      var s1 := s.(started := true);
      assert FramesOk(s1) && FreeingsOk(s1) by { SameLog(s, s1); }
      LogResumed(s1, s.log, s.current, s.tasks[s.current].frame);
    } else {
      LogPreempted(s, frame);
      var s1 := s.(tasks := s'.tasks, log := s.log + [Preempted(s.who[s.current], frame)]);
      var s2 := s1.(current := s'.current);
      assert FramesOk(s2) && FreeingsOk(s2) by { SameLog(s1, s2); }
      LogResumed(s2, s2.log, s'.current, s'.tasks[s'.current].frame);
    }
  }

  lemma SameLog(s: State, s': State)
    requires |s.who| == |s.tasks| && s'.tasks == s.tasks && s'.who == s.who && s'.log == s.log
    requires s'.reaper == s.reaper && s'.nextWho == s.nextWho
    ensures FramesOk(s) ==> FramesOk(s')
    ensures FreeingsOk(s) ==> FreeingsOk(s')
  {
    hide Faithful, FrameOf, Freeings;
  }

  lemma LogResumed(s: State, log: seq<Event>, c: nat, f: Frame)
    requires log == s.log && |s.who| == |s.tasks| && c < |s.tasks| && f == s.tasks[c].frame
    requires FramesOk(s) && FreeingsOk(s)
    ensures FramesOk(s.(log := log + [Resumed(s.who[c], f)])) && FreeingsOk(s.(log := log + [Resumed(s.who[c], f)]))
  {
    hide Faithful, FrameOf, Freeings;
    var e := Resumed(s.who[c], f);
    FaithfulStep(log, e);
    forall x: nat { LogStep(log, e, x); }
  }

  lemma LogPreempted(s: State, f: Frame)
    requires TableOk(s) && s.current < |s.tasks| && FramesOk(s) && FreeingsOk(s)
    ensures var s1 := s.(tasks := s.tasks[s.current := s.tasks[s.current].(frame := f)],
                         log := s.log + [Preempted(s.who[s.current], f)]);
      FramesOk(s1) && FreeingsOk(s1)
  {
    hide Faithful, FrameOf, Freeings;
    var e := Preempted(s.who[s.current], f);
    FaithfulStep(s.log, e);
    forall x: nat { LogStep(s.log, e, x); }
  }

  /** A done task is not picked while one that is not done exists. */
  lemma NeverPicksDone(s: State, ts: seq<Task>, r: nat)
    requires TableOk(s) && ReaperOk(s) && |ts| == |s.tasks| > 0
    requires forall k :: 0 <= k < |ts| ==> ts[k].state == s.tasks[k].state
    requires IsNext(ts, s.current, r)
    ensures (exists k :: 0 <= k < |ts| && ts[k].state != Done) ==> ts[r].state != Done
    ensures !s.reaper.Scan? ==> r != s.reaper.i
  {
  }

  // ---------------------------------------------------------------- creation, exit, heap use

  lemma CreateSafe(s: State, entry: nat, template: Frame, s': State)
    requires Safe(s) && CreateStep(s, entry, template, s')
    ensures Safe(s')
  {
    if |s.tasks| < MAX_TASKS {
      CreateTable(s, entry, template, s');
      CreateStacks(s, entry, template, s');
      CreateLog(s, entry, template, s');
    }
  }

  lemma CreateTable(s: State, entry: nat, template: Frame, s': State)
    requires TableOk(s) && ReaperOk(s) && CreateStep(s, entry, template, s')
    ensures TableOk(s') && ReaperOk(s')
  {
    hide Malloc;
    if k :| 0 <= k < |s.who| && s.who[k] == s.reaperWho {
      assert s'.who[k] == s.reaperWho;
    }
  }

  lemma CreateStacks(s: State, entry: nat, template: Frame, s': State)
    requires TableOk(s) && ReaperOk(s) && StacksOk(s) && CreateStep(s, entry, template, s')
    ensures StacksOk(s')
  {
    hide Malloc, ContentsFrom, Blocks.Inv, FreePairs, UsedBytes;
    if |s.tasks| < MAX_TASKS {
      MallocLaw(s.heap, STACK_SIZE);
      assert forall k: nat :: k < |s.tasks| ==> s'.tasks[k] == s.tasks[k] && (Owns(s', k) ==> Owns(s, k));
    }
  }

  lemma CreateLog(s: State, entry: nat, template: Frame, s': State)
    requires TableOk(s) && ReaperOk(s) && FramesOk(s) && FreeingsOk(s) && |s.tasks| < MAX_TASKS
    requires CreateStep(s, entry, template, s')
    ensures FramesOk(s') && FreeingsOk(s')
  {
    hide Faithful, FrameOf, Freeings, Malloc;
    var e := s'.log[|s.log|];
    FaithfulStep(s.log, e);
    forall x: nat { LogStep(s.log, e, x); }
    assert forall k :: 0 <= k < |s.tasks| ==> s'.tasks[k] == s.tasks[k] && s'.who[k] == s.who[k];
    assert s.nextWho !in s.who && s'.who[|s.who|] == s.nextWho;
    assert forall w: nat :: w in s'.who <==> w in s.who || w == s.nextWho;
  }

  lemma ExitSafe(s: State, s': State)
    requires Safe(s) && ExitStep(s, s')
    ensures Safe(s')
  {
    hide Faithful, FrameOf, Freeings, ContentsFrom, Blocks.Inv;
    SameStacks(s, s');
  }

  lemma UseSafe(s: State, c: Call, s': State)
    requires Safe(s) && UseStep(s, c, s')
    ensures Safe(s')
  {
    hide Faithful, FrameOf, Freeings, ContentsFrom, Blocks.Inv, Apply, Allowed;
    StepRefines(s.heap, c);
    assert forall k: nat :: Owns(s', k) ==> Owns(s, k);
  }

  // ---------------------------------------------------------------- the reaper

  lemma ReapSafe(s: State, s': State)
    requires Safe(s) && ReapStep(s, s')
    ensures Safe(s')
  {
    hide Faithful, FrameOf, Freeings, ContentsFrom, Blocks.Inv;
    match s.reaper
    case Scan(i) => SameStacks(s, s');
    case ToFree(i) => FreeStackSafe(s, s', i);
    case Freed(i) => RemoveSafe(s, s', i);
  }

  lemma FreeStackSafe(s: State, s': State, i: nat)
    requires Safe(s) && ReapStep(s, s') && s.reaper == ToFree(i)
    ensures Safe(s')
  {
    hide Faithful, FrameOf, Freeings, ContentsFrom, Blocks.Inv, Free;
    var e := StackFreed(s.who[i]);
    FreeStackStacks(s, s', i);
    FaithfulStep(s.log, e);
    forall x: nat { LogStep(s.log, e, x); }
  }

  lemma FreeStackStacks(s: State, s': State, i: nat)
    requires TableOk(s) && ReaperOk(s) && StacksOk(s) && ReapStep(s, s') && s.reaper == ToFree(i)
    ensures StacksOk(s')
  {
    hide ContentsFrom, Blocks.Inv, Free;
    FreeLaw(s.heap, s.tasks[i].stackStart);
    assert forall k: nat :: Owns(s', k) ==> Owns(s, k) && k != i;
    assert s.tasks[i].stackStart != 0 ==> Owns(s, i);
  }

  /** Removal moves slots and numbers together. */
  lemma RemoveSafe(s: State, s': State, i: nat)
    requires Safe(s) && ReapStep(s, s') && s.reaper == Freed(i)
    ensures Safe(s')
    ensures s'.current < |s'.who| && s'.who[s'.current] == s.who[s.current]
  {
    hide Faithful, FrameOf, Freeings, ContentsFrom, Blocks.Inv;
    RemoveTable(s, s', i);
    RemoveStacks(s, s', i);
    RemoveLog(s, s', i);
  }

  lemma RemoveStacks(s: State, s': State, i: nat)
    requires StacksOk(s) && ReapStep(s, s') && s.reaper == Freed(i)
    ensures StacksOk(s')
  {
    hide ContentsFrom, Blocks.Inv, RemoveAt;
    forall k: nat | Owns(s', k)
      ensures Owns(s, if k < i then k else k + 1)
      ensures s'.tasks[k].stackStart == s.tasks[if k < i then k else k + 1].stackStart
      ensures s'.tasks[k].stackTop == s.tasks[if k < i then k else k + 1].stackTop
    {
      MovedStack(s.tasks, i, k);
    }
  }

  lemma MovedStack(ts: seq<Task>, i: nat, k: nat)
    requires i < |ts| && k < |ts| - 1
    ensures var t, u := RemoveAt(ts, i)[k], ts[if k < i then k else k + 1];
      t.stackStart == u.stackStart && t.stackTop == u.stackTop
  {
  }

  lemma RemoveLog(s: State, s': State, i: nat)
    requires TableOk(s) && FramesOk(s) && FreeingsOk(s) && ReapStep(s, s') && s.reaper == Freed(i)
    ensures |s'.who| == |s'.tasks| && FramesOk(s') && FreeingsOk(s')
  {
    RemoveFrames(s, s', i);
    RemoveFreeings(s, s', i);
  }

  lemma RemoveFrames(s: State, s': State, i: nat)
    requires TableOk(s) && FramesOk(s) && ReapStep(s, s') && s.reaper == Freed(i)
    ensures |s'.who| == |s'.tasks| && FramesOk(s')
  {
    hide Faithful, FrameOf, RemoveAt;
    forall k | 0 <= k < |s'.who|
      ensures FrameOf(s'.log, s'.who[k]) == Last(s'.tasks[k].frame)
    {
      Moved(s, s', i, k);
    }
  }

  lemma RemoveFreeings(s: State, s': State, i: nat)
    requires TableOk(s) && FreeingsOk(s) && ReapStep(s, s') && s.reaper == Freed(i)
    ensures |s'.who| == |s'.tasks| && FreeingsOk(s')
  {
    hide Freeings, RemoveAt, FreeingsOk, TableOk;
    assert s'.log == s.log && s'.nextWho == s.nextWho && s'.reaper == Scan(i);
    PresentFreeings(s, s', i);
    assert forall w: nat :: w < s'.nextWho && w !in s'.who ==> Freeings(s'.log, w) == 1 by {
      forall w: nat | w < s'.nextWho && w !in s'.who
        ensures Freeings(s'.log, w) == 1
      {
        GoneFreed(s, s', i, w);
      }
    }
    FreeingsParts(s, s');
  }

  lemma PresentFreeings(s: State, s': State, i: nat)
    requires |s.who| == |s.tasks| && FreeingsOk(s) && ReapStep(s, s') && s.reaper == Freed(i)
    ensures |s'.who| == |s'.tasks| && forall k :: 0 <= k < |s'.who| ==> Freeings(s'.log, s'.who[k]) == 0
  {
    hide Freeings, RemoveAt;
    forall k | 0 <= k < |s'.who|
      ensures Freeings(s'.log, s'.who[k]) == 0
    {
      Moved(s, s', i, k);
    }
  }

  lemma FreeingsParts(s: State, s': State)
    requires |s.who| == |s.tasks| && FreeingsOk(s) && s'.log == s.log && s'.nextWho == s.nextWho && s'.reaper.Scan?
    requires |s'.who| == |s'.tasks| && forall k :: 0 <= k < |s'.who| ==> Freeings(s'.log, s'.who[k]) == 0
    requires forall w: nat :: w < s'.nextWho && w !in s'.who ==> Freeings(s'.log, w) == 1
    ensures FreeingsOk(s')
  {
    hide Freeings;
  }

  lemma GoneFreed(s: State, s': State, i: nat, w: nat)
    requires TableOk(s) && FreeingsOk(s) && s.reaper == Freed(i) && i < |s.who| && w < s.nextWho
    requires s'.who == s.who[..i] + s.who[i + 1..] && w !in s'.who
    ensures Freeings(s.log, w) == 1
  {
    hide Freeings;
    assert Freeings(s.log, s.who[i]) == 1;
    if w in s.who {
      GoneWho(s.who, i, w);
    }
  }

  /** Slot `k` after the removal of `i` holds what slot `k` or `k + 1` held before. */
  lemma Moved(s: State, s': State, i: nat, k: nat)
    requires |s.who| == |s.tasks| && ReapStep(s, s') && s.reaper == Freed(i) && k < |s'.who|
    ensures |s'.who| == |s'.tasks| == |s.tasks| - 1
    ensures var j := if k < i then k else k + 1;
      && s'.who[k] == s.who[j] && s'.tasks[k].frame == s.tasks[j].frame && s'.tasks[k].state == s.tasks[j].state
      && (s.tasks[j].id == j ==> s'.tasks[k].id == k)
  {
  }

  lemma RemoveTable(s: State, s': State, i: nat)
    requires TableOk(s) && ReaperOk(s) && ReapStep(s, s') && s.reaper == Freed(i)
    ensures TableOk(s') && ReaperOk(s')
    ensures s'.current < |s'.who| && s'.who[s'.current] == s.who[s.current]
  {
    hide RemoveAt;
    forall k | 0 <= k < |s'.who|
      ensures s'.tasks[k].id == k && s'.who[k] < s'.nextWho
      ensures s'.who[k] == s.who[if k < i then k else k + 1]
      ensures s'.who[k] == s'.reaperWho ==> s'.tasks[k].state != Done
    {
      Moved(s, s', i, k);
    }
  }

  lemma GoneWho(who: seq<nat>, i: nat, w: nat)
    requires i < |who| && w in who && w !in who[..i] + who[i + 1..]
    ensures w == who[i]
  {
    assert who == who[..i] + [who[i]] + who[i + 1..];
  }

  // ---------------------------------------------------------------- whole runs

  ghost predicate IsRun(ss: seq<State>, ls: seq<Label>) {
    |ss| == |ls| + 1 && forall k :: 0 <= k < |ls| ==> Step(ss[k], ls[k], ss[k + 1])
  }

  lemma StepSafe(s: State, l: Label, s': State)
    requires Safe(s) && Step(s, l, s')
    ensures Safe(s')
  {
    match l
    case Tick(frame) => TickSafe(s, frame, s');
    case Create(entry, template) => CreateSafe(s, entry, template, s');
    case Exit => ExitSafe(s, s');
    case Reap => ReapSafe(s, s');
    case Use(call) => UseSafe(s, call, s');
  }

  /** Whatever the interleaving, every state of a run is safe. */
  lemma {:induction false} RunSafe(ss: seq<State>, ls: seq<Label>, k: nat)
    requires IsRun(ss, ls) && Init(ss[0]) && k < |ss|
    ensures Safe(ss[k])
  {
    if k == 0 {
      InitSafe(ss[0]);
    } else {
      RunSafe(ss, ls, k - 1);
      StepSafe(ss[k - 1], ls[k - 1], ss[k]);
    }
  }

  /** No context is lost or swapped: in every run each resumed frame is the one its task was stopped with. */
  lemma NoLostContext(ss: seq<State>, ls: seq<Label>, k: nat)
    requires IsRun(ss, ls) && Init(ss[0]) && k < |ss|
    ensures Faithful(ss[k].log)
  {
    RunSafe(ss, ls, k);
  }

  /** No stack is freed twice, and every task that has left the table had its stack freed. */
  lemma FreedExactlyOnce(ss: seq<State>, ls: seq<Label>, k: nat, w: nat)
    requires IsRun(ss, ls) && Init(ss[0]) && k < |ss|
    ensures Freeings(ss[k].log, w) <= 1
    ensures w < ss[k].nextWho && w !in ss[k].who ==> Freeings(ss[k].log, w) == 1
  {
    hide Freeings;
    RunSafe(ss, ls, k);
    if w in ss[k].who {
      var i :| 0 <= i < |ss[k].who| && ss[k].who[i] == w;
    }
  }

  /**
   In every run the running task still owns its stack, if it was given one at all, and the stack ranges of any two
   tasks that own theirs lie apart inside the heap.
   */
  lemma StackSafety(ss: seq<State>, ls: seq<Label>, k: nat, i: nat, j: nat)
    requires IsRun(ss, ls) && Init(ss[0]) && k < |ss|
    ensures var s := ss[k];
      && (|s.tasks| > 0 ==> s.current < |s.tasks| && (Owns(s, s.current) || s.tasks[s.current].stackStart == 0))
      && (Owns(s, i) ==> s.tasks[i].stackStart in Contents(s.heap))
      && (i != j && Owns(s, i) && Owns(s, j) ==>
            s.tasks[i].stackTop <= s.tasks[j].stackStart || s.tasks[j].stackTop <= s.tasks[i].stackStart)
  {
    hide ContentsFrom;
    RunSafe(ss, ls, k);
    var s := ss[k];
    if i != j && Owns(s, i) && Owns(s, j) {
      var p, q := s.tasks[i].stackStart, s.tasks[j].stackStart;
      assert p != q by { if i < j {} else {} }
      if p < q {
        Separation(s.heap.begin, s.heap.blocks, p, q);
      } else {
        Separation(s.heap.begin, s.heap.blocks, q, p);
      }
    }
  }

  // ---------------------------------------------------------------- bounded waiting

  /** Task number `w` is in slot `k` and not done. */
  predicate Waits(s: State, w: nat, k: nat) {
    k < |s.who| == |s.tasks| && s.who[k] == w && s.tasks[k].state != Done
  }

  predicate Runs(s: State, w: nat) {
    s.current < |s.who| && s.who[s.current] == w
  }

  function Ticks(ls: seq<Label>): nat {
    if |ls| == 0 then 0 else (if ls[0].Tick? then 1 else 0) + Ticks(ls[1..])
  }

  function Creates(ls: seq<Label>): nat {
    if |ls| == 0 then 0 else (if ls[0].Create? then 1 else 0) + Creates(ls[1..])
  }

  lemma DistSplit(n: nat, cur: nat, r: nat, k: nat)
    requires cur < n && r < n && k < n && k != cur && Dist(n, cur, r) < Dist(n, cur, k)
    ensures Dist(n, r, k) + Dist(n, cur, r) == Dist(n, cur, k)
  {
  }

  /** A tick brings every waiting task strictly nearer, or makes it current. */
  lemma TickNearer(s: State, frame: Frame, s': State, w: nat, k: nat)
    requires TableOk(s) && s.started && Waits(s, w, k) && k != s.current && TickStep(s, frame, s')
    ensures Waits(s', w, k) && s'.current < |s'.tasks| == |s.tasks| && s'.started
    ensures s'.current == k
         || Dist(|s.tasks|, s'.current, k) < Dist(|s.tasks|, s.current, k)
  {
    var ts := s'.tasks;
    assert ts[k].state != Done;
    if s'.current != k {
      DistSplit(|s.tasks|, s.current, s'.current, k);
    }
  }

  /** Reaping another task never takes a waiting one further away. */
  lemma RemoveNearer(s: State, s': State, i: nat, w: nat, k: nat) returns (k': nat)
    requires TableOk(s) && ReaperOk(s) && Waits(s, w, k) && k != s.current
    requires ReapStep(s, s') && s.reaper == Freed(i)
    ensures Waits(s', w, k') && s'.current < |s'.tasks| && s'.started
    ensures k' != s'.current && Dist(|s'.tasks|, s'.current, k') <= Dist(|s.tasks|, s.current, k)
  {
    hide RemoveAt, Blocks.Free;
    k' := if k > i then k - 1 else k;
    Moved(s, s', i, k');
    DistAfter(|s.tasks|, s.current, i, k);
  }

  lemma DistAfter(n: nat, cur: nat, i: nat, k: nat)
    requires cur < n && i < n && k < n && cur != i && k != i && k != cur
    ensures var cur', k' := CurrentAfter(n, cur, i), if k > i then k - 1 else k;
      cur' < n - 1 && k' < n - 1 && k' != cur' && Dist(n - 1, cur', k') <= Dist(n, cur, k)
  {
  }

  lemma StepNearer(s: State, l: Label, s': State, w: nat, k: nat) returns (k': nat)
    requires Safe(s) && s.started && Waits(s, w, k) && k != s.current && Step(s, l, s')
    ensures Waits(s', w, k') && s'.current < |s'.tasks| && s'.started
    ensures s'.current == k'
         || Dist(|s'.tasks|, s'.current, k') + (if l.Tick? then 1 else 0)
              <= Dist(|s.tasks|, s.current, k) + (if l.Create? then 1 else 0)
  {
    hide FrameOf, Freeings, Faithful, ContentsFrom, Blocks.Inv, Malloc, Free, Apply, Allowed, IsNext, RemoveAt;
    k' := k;
    match l
    case Tick(frame) => TickNearer(s, frame, s', w, k);
    case Create(entry, template) =>
    case Exit =>
    case Use(call) =>
    case Reap =>
      if s.reaper.Freed? {
        k' := RemoveNearer(s, s', s.reaper.i, w, k);
      }
  }

  /**
   A task that is not done runs after at most its distance in ticks, plus one for every task created meanwhile,
   whatever exits, reaps and heap calls come between.
   */
  lemma {:induction false} BoundedWaiting(ss: seq<State>, ls: seq<Label>, w: nat, k: nat)
    requires IsRun(ss, ls) && Safe(ss[0]) && ss[0].started && Waits(ss[0], w, k)
    requires Ticks(ls) >= Dist(|ss[0].tasks|, ss[0].current, k) + Creates(ls)
    ensures exists m :: 0 <= m < |ss| && Runs(ss[m], w)
    decreases |ls|
  {
    hide Safe, Step;
    if ss[0].current == k {
      assert Runs(ss[0], w);
    } else {
      StepSafe(ss[0], ls[0], ss[1]);
      var k' := StepNearer(ss[0], ls[0], ss[1], w, k);
      if ss[1].current == k' {
        assert Runs(ss[1], w);
      } else {
        forall m | 0 <= m < |ls[1..]|
          ensures Step(ss[1..][m], ls[1..][m], ss[1..][m + 1])
        {
          assert Step(ss[m + 1], ls[m + 1], ss[m + 1 + 1]);
        }
        BoundedWaiting(ss[1..], ls[1..], w, k');
        var m :| 0 <= m < |ss[1..]| && Runs(ss[1..][m], w);
        assert Runs(ss[m + 1], w);
      }
    }
  }
}
