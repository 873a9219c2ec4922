/** Where tasks begin: what the first frame a task is resumed with has to do with the call that created it. */
module Creations {
  import opened Blocks
  import opened HeapRuns
  import opened Tasks
  import opened Scheduler

  /** Task `w` was resumed before place `i` of the log. */
  ghost predicate ResumedBefore(log: seq<Event>, w: nat, i: nat) {
    exists j: nat :: j < i && j < |log| && log[j].Resumed? && log[j].who == w
  }

  /** Only a task that was resumed is preempted, and the current task was resumed. */
  ghost predicate Alternates(s: State) {
    && (forall i :: 0 <= i < |s.log| && s.log[i].Preempted? ==> ResumedBefore(s.log, s.log[i].who, i))
    && (s.started ==> s.current < |s.who| && ResumedBefore(s.log, s.who[s.current], |s.log|))
  }

  lemma ResumedExtend(log: seq<Event>, more: seq<Event>, w: nat, i: nat)
    requires i <= |log|
    ensures ResumedBefore(log + more, w, i) <==> ResumedBefore(log, w, i)
    ensures ResumedBefore(log, w, i) ==> ResumedBefore(log + more, w, |log + more|)
  {
    if j: nat :| j < i && j < |log| && log[j].Resumed? && log[j].who == w {
      assert (log + more)[j] == log[j];
    }
    if j: nat :| j < i && j < |log + more| && (log + more)[j].Resumed? && (log + more)[j].who == w {
      assert (log + more)[j] == log[j];
    }
  }

  /** The log grows by `more`, and what is new in it keeps the order. */
  lemma AlternatesStep(s: State, s': State, more: seq<Event>)
    requires Alternates(s) && s'.log == s.log + more
    requires forall i :: 0 <= i < |more| && more[i].Preempted? ==> ResumedBefore(s.log, more[i].who, |s.log|)
    requires s'.started ==> s'.current < |s'.who| && ResumedBefore(s'.log, s'.who[s'.current], |s'.log|)
    ensures Alternates(s')
  {
    forall i | 0 <= i < |s'.log| && s'.log[i].Preempted?
      ensures ResumedBefore(s'.log, s'.log[i].who, i)
    {
      if i < |s.log| {
        ResumedExtend(s.log, more, s.log[i].who, i);
      } else {
        var w := more[i - |s.log|].who;
        var j: nat :| j < |s.log| && s.log[j].Resumed? && s.log[j].who == w;
        assert s'.log[j] == s.log[j];
      }
    }
  }

  lemma TickAlternates(s: State, frame: Frame, s': State)
    requires Safe(s) && Alternates(s) && TickStep(s, frame, s')
    ensures Alternates(s')
  {
    hide Safe;
    assert TableOk(s) by { SafeTable(s); }
    if s.current < |s.tasks| {
      var e := Resumed(s'.who[s'.current], s'.tasks[s'.current].frame);
      var more := if s.started then [Preempted(s.who[s.current], frame), e] else [e];
      assert s'.log == s.log + more;
      assert s'.log[|s'.log| - 1] == e;
      AlternatesStep(s, s', more);
    }
  }

  lemma SafeTable(s: State)
    requires Safe(s)
    ensures TableOk(s) && ReaperOk(s)
  {
  }

  /** A step that leaves the current task alone. */
  lemma QuietAlternates(s: State, s': State, more: seq<Event>)
    requires Alternates(s) && s'.log == s.log + more && s'.started == s.started
    requires forall i :: 0 <= i < |more| ==> !more[i].Preempted?
    requires s.started ==> s.current < |s.who| && s'.current < |s'.who| && s'.who[s'.current] == s.who[s.current]
    ensures Alternates(s')
  {
    if s.started {
      ResumedExtend(s.log, more, s.who[s.current], |s.log|);
    }
    AlternatesStep(s, s', more);
  }

  lemma StepAlternates(s: State, l: Label, s': State)
    requires Safe(s) && Alternates(s) && Step(s, l, s')
    ensures Alternates(s')
  {
    hide Safe, Malloc, Free;
    SafeTable(s);
    match l
    case Tick(frame) => TickAlternates(s, frame, s');
    case Create(entry, template) =>
      QuietAlternates(s, s', if |s.tasks| >= MAX_TASKS then [] else [s'.log[|s.log|]]);
    case Exit => assert s'.log == s.log + []; QuietAlternates(s, s', []);
    case Use(call) => assert s'.log == s.log + []; QuietAlternates(s, s', []);
    case Reap =>
      if s.reaper.Freed? {
        RemoveSafe(s, s', s.reaper.i);
      }
      QuietAlternates(s, s', if s.reaper.ToFree? then [StackFreed(s.who[s.reaper.i])] else []);
  }

  lemma {:induction false} RunAlternates(ss: seq<State>, ls: seq<Label>, k: nat)
    requires IsRun(ss, ls) && Init(ss[0]) && k < |ss|
    ensures Alternates(ss[k])
  {
    hide Safe, Step;
    if k > 0 {
      RunAlternates(ss, ls, k - 1);
      RunSafe(ss, ls, k - 1);
      StepAlternates(ss[k - 1], ls[k - 1], ss[k]);
    }
  }

  /** Without a preemption in between, the last frame of a task is the one it was created with. */
  lemma {:induction false} CreatedFrame(log: seq<Event>, w: nat, f: Frame)
    requires FrameOf(log, w) == LastFrame.Last(f)
    requires forall i :: 0 <= i < |log| ==> !(log[i].Preempted? && log[i].who == w)
    ensures exists i :: 0 <= i < |log| && log[i] == Created(w, f)
  {
    var init, e := log[..|log| - 1], log[|log| - 1];
    if e != Created(w, f) {
      CreatedFrame(init, w, f);
      var i :| 0 <= i < |init| && init[i] == Created(w, f);
      assert log[i] == Created(w, f);
    }
  }

  /** The label `l` at state `s` creates task `w` with the frame `f`: its own entry, on top of the stack it allocates. */
  ghost predicate Makes(s: State, l: Label, w: nat, f: Frame) {
    l.Create? && |s.tasks| < 10 && s.nextWho == w && Enters(f, l.entry, Malloc(s.heap, 4096).1 + 4096, l.template)
  }

  lemma CreateMakes(s: State, l: Label, s': State, i: nat, w: nat, f: Frame)
    requires TableOk(s) && Step(s, l, s') && |s.log| <= i < |s'.log| && s'.log[i] == Created(w, f)
    ensures Makes(s, l, w, f)
  {
    hide Malloc, Free, Apply, Allowed;
    assert l.Create?;
    NewTaskIsFresh(|s.tasks|, l.entry, Malloc(s.heap, 4096).1, l.template);
  }

  lemma LogGrows(s: State, l: Label, s': State)
    requires TableOk(s) && Step(s, l, s')
    ensures |s.log| <= |s'.log| && s'.log[..|s.log|] == s.log
    ensures s.nextWho <= s'.nextWho
  {
    hide Malloc, Free, Apply, Allowed;
  }

  lemma {:induction false} CreatedByLabel(ss: seq<State>, ls: seq<Label>, k: nat, i: nat, w: nat, f: Frame)
    requires IsRun(ss, ls) && Init(ss[0]) && k < |ss| && i < |ss[k].log| && ss[k].log[i] == Created(w, f)
    ensures exists j :: 0 <= j < k && Makes(ss[j], ls[j], w, f)
  {
    hide Safe, Step;
    var s, l, s' := ss[k - 1], ls[k - 1], ss[k];
    assert TableOk(s) by { RunSafe(ss, ls, k - 1); SafeTable(s); }
    assert Step(s, l, s');
    LogGrows(s, l, s');
    if i < |s.log| {
      assert s.log[i] == s'.log[i];
      CreatedByLabel(ss, ls, k - 1, i, w, f);
    } else {
      CreateMakes(s, l, s', i, w, f);
    }
  }

  /**
   In every run the first time a task is resumed it enters the function it was created with, on top of the stack that
   was allocated for it, with the segments and flags of the template and all registers zero.
   */
  lemma FirstResumed(ss: seq<State>, ls: seq<Label>, k: nat, e: nat)
    requires IsRun(ss, ls) && Init(ss[0]) && k < |ss| && e < |ss[k].log| && ss[k].log[e].Resumed?
    requires forall i :: 0 <= i < e && ss[k].log[i].Resumed? ==> ss[k].log[i].who != ss[k].log[e].who
    ensures exists j :: 0 <= j < k && Makes(ss[j], ls[j], ss[k].log[e].who, ss[k].log[e].frame)
  {
    hide Step, FrameOf, Makes;
    var log := ss[k].log;
    var w, f := log[e].who, log[e].frame;
    NoLostContext(ss, ls, k);
    RunAlternates(ss, ls, k);
    var before := log[..e];
    forall i | 0 <= i < |before|
      ensures !(before[i].Preempted? && before[i].who == w)
    {
      assert before[i] == log[i];
    }
    CreatedFrame(before, w, f);
    var i :| 0 <= i < |before| && before[i] == Created(w, f);
    CreatedByLabel(ss, ls, k, i, w, f);
  }

  /** One task number comes from one creation only. */
  lemma {:induction false} MadeOnce(ss: seq<State>, ls: seq<Label>, i: nat, j: nat)
    requires IsRun(ss, ls) && Init(ss[0]) && i < j < |ls| && ls[i].Create? && |ss[i].tasks| < 10
    ensures ss[i].nextWho < ss[j].nextWho
  {
    hide Safe, Step;
    assert TableOk(ss[j - 1]) by { RunSafe(ss, ls, j - 1); SafeTable(ss[j - 1]); }
    assert Step(ss[j - 1], ls[j - 1], ss[j]);
    if i < j - 1 {
      MadeOnce(ss, ls, i, j - 1);
      LogGrows(ss[j - 1], ls[j - 1], ss[j]);
    } else {
      NumberTaken(ss[i], ls[i], ss[j]);
    }
  }

  lemma NumberTaken(s: State, l: Label, s': State)
    requires Step(s, l, s') && l.Create? && |s.tasks| < 10
    ensures s'.nextWho == s.nextWho + 1
  {
  }
}
