/** The task table: what the scheduler and the reaper do to a list of tasks. */
module Tasks {

  const MAX_TASKS: nat := 10
  const STACK_SIZE: nat := 4096

  datatype TaskState = Ready | Running | Blocked | Done

  /** The saved registers; the general ones, the interrupt number and the error code are `regs`. */
  datatype Frame = Frame(regs: seq<nat>, rip: nat, cs: nat, rflags: nat, rsp: nat, ss: nat)

  datatype Task = Task(frame: Frame, stackStart: nat, stackTop: nat, state: TaskState, id: int)

  /** A new task's frame: all zero but for entry, stack top and the flags of the template. */
  function CreationFrame(entry: nat, stackTop: nat, template: Frame): Frame {
    Frame(seq(17, _ => 0), entry, template.cs, template.rflags, stackTop, template.ss)
  }

  function NewTask(id: nat, entry: nat, stack: nat, template: Frame): Task {
    Task(CreationFrame(entry, stack + STACK_SIZE, template), stack, stack + STACK_SIZE, Ready, id)
  }

  /** A frame that enters `entry` with the stack pointer `top`, the template's segments and flags, and zero registers. */
  predicate Enters(f: Frame, entry: nat, top: nat, template: Frame) {
    && f.rip == entry && f.rsp == top
    && f.cs == template.cs && f.ss == template.ss && f.rflags == template.rflags
    && |f.regs| == 17 && forall i :: 0 <= i < 17 ==> f.regs[i] == 0
  }

  /** A task that is ready to enter `entry` on the 4096 bytes at `stack`. */
  predicate FreshTask(t: Task, id: nat, entry: nat, stack: nat, template: Frame) {
    && Enters(t.frame, entry, stack + 4096, template)
    && t.stackStart == stack && t.stackTop == stack + 4096 && t.state == Ready && t.id == id
  }

  lemma NewTaskIsFresh(id: nat, entry: nat, stack: nat, template: Frame)
    ensures FreshTask(NewTask(id, entry, stack, template), id, entry, stack, template)
  {
  }

  /** How many places round-robin has to move from `cur` to reach `i`; a full turn for `cur` itself. */
  function Dist(n: nat, cur: nat, i: nat): (d: nat)
    requires cur < n && i < n
    ensures 1 <= d <= n && (d == n <==> i == cur)
  {
    if i > cur then i - cur else i + n - cur
  }

  /** Round-robin goes upwards: `d` steps from `cur` lead to the index `d` above it, or past the end to the start. */
  lemma DistForward(n: nat, cur: nat, d: nat)
    requires cur < n && 1 <= d <= n
    ensures Dist(n, cur, if cur + d < n then cur + d else cur + d - n) == d
  {
  }

  /** `r` is the next task after `cur`: the nearest one that is not done, or `cur` if all are done. */
  predicate IsNext(ts: seq<Task>, cur: nat, r: nat)
    requires cur < |ts|
  {
    && r < |ts|
    && (forall j :: 0 <= j < |ts| && ts[j].state != Done ==>
          ts[r].state != Done && Dist(|ts|, cur, r) <= Dist(|ts|, cur, j))
    && ((forall j :: 0 <= j < |ts| ==> ts[j].state == Done) ==> r == cur)
  }

  lemma NextUnique(ts: seq<Task>, cur: nat, r: nat, q: nat)
    requires cur < |ts| && IsNext(ts, cur, r) && IsNext(ts, cur, q)
    ensures r == q
  {
    if j :| 0 <= j < |ts| && ts[j].state != Done {
      assert Dist(|ts|, cur, r) == Dist(|ts|, cur, q);
    }
  }

  /** The table without task `i`: the later ones move down one slot and get their new index as id. */
  function RemoveAt(ts: seq<Task>, i: nat): (r: seq<Task>)
    requires i < |ts|
    ensures |r| == |ts| - 1
  {
    seq(|ts| - 1, k requires 0 <= k < |ts| - 1 => if k < i then ts[k] else ts[k + 1].(id := k))
  }

  /** Where `current_task` points after task `i` is removed from a table of `n`. */
  function CurrentAfter(n: nat, cur: nat, i: nat): nat
    requires i < n
  {
    if cur > i then cur - 1 else if cur >= n - 1 then 0 else cur
  }

  /**
   The task that was current still is, wherever it moved to, unless it is the one removed. Then the task behind it
   becomes current, or the first one if there is none behind it.
   */
  lemma CurrentFollows(ts: seq<Task>, cur: nat, i: nat)
    requires cur < |ts| && i < |ts| && |ts| > 1
    ensures var r, c := RemoveAt(ts, i), CurrentAfter(|ts|, cur, i);
      && c < |r|
      && (cur != i ==> r[c] == ts[cur].(id := if cur > i then c else ts[cur].id))
      && (cur == i < |ts| - 1 ==> r[c] == ts[i + 1].(id := c))
      && (cur == i == |ts| - 1 ==> c == 0)
  {
  }

  predicate IdsAreIndices(ts: seq<Task>) {
    forall k :: 0 <= k < |ts| ==> ts[k].id == k
  }

  /** The tasks that are not done, in order, as they are. */
  function Survivors(ts: seq<Task>): (r: seq<Task>)
    ensures |r| <= |ts|
  {
    if |ts| == 0 then [] else
      Survivors(ts[..|ts| - 1]) + if ts[|ts| - 1].state == Done then [] else [ts[|ts| - 1]]
  }

  /** The done tasks, in order. */
  function DoneTasks(ts: seq<Task>): (r: seq<Task>)
    ensures |r| <= |ts|
  {
    if |ts| == 0 then [] else
      DoneTasks(ts[..|ts| - 1]) + if ts[|ts| - 1].state == Done then [ts[|ts| - 1]] else []
  }

  function Renumber(ts: seq<Task>): (r: seq<Task>)
    ensures |r| == |ts| && IdsAreIndices(r)
  {
    seq(|ts|, k requires 0 <= k < |ts| => ts[k].(id := k))
  }
}
