/** The task table in place: a fixed array of slots, shifted down when a task is reaped. */
module TaskTables {
  import opened Bytes
  import opened Blocks
  import opened BlockFacts
  import opened HeapLaws
  import opened HeapRuns
  import opened Tasks
  import opened Allocators

  /** The heap after the stacks of `ds` are freed in order. */
  function FreeStacks(h: Heap, ds: seq<Task>): Heap {
    if |ds| == 0 then h else Blocks.Free(FreeStacks(h, ds[..|ds| - 1]), ds[|ds| - 1].stackStart)
  }

  /** The done tasks from index `k` on own pairwise different live blocks, or none if their allocation failed. */
  ghost predicate StacksLive(h: Heap, ts: seq<Task>, k: nat) {
    && (forall i :: k <= i < |ts| && ts[i].state == Done ==> ts[i].stackStart == 0 || Live(h, ts[i].stackStart))
    && (forall i, j :: k <= i < j < |ts| && ts[i].state == Done && ts[j].state == Done && ts[i].stackStart != 0 ==>
          ts[i].stackStart != ts[j].stackStart)
  }

  lemma NoStacks(h: Heap, ds: seq<Task>)
    requires |ds| == 0
    ensures FreeStacks(h, ds) == h
  {
  }

  lemma HeapInv(a: Allocator)
    requires a.Valid()
    ensures Blocks.Inv(a.State())
  {
  }

  lemma StacksLiveAfter(h: Heap, ts: seq<Task>, k: nat)
    requires Blocks.Inv(h) && k < |ts| && ts[k].state == Done && StacksLive(h, ts, k)
    ensures Blocks.Inv(Blocks.Free(h, ts[k].stackStart))
    ensures StacksLive(Blocks.Free(h, ts[k].stackStart), ts, k + 1)
  {
    hide ContentsFrom, IndexOf, Blocks.Inv, FreeAt, Span;
    var h' := Blocks.Free(h, ts[k].stackStart);
    FreeLaw(h, ts[k].stackStart);
    NullIsNotLive(h);
    forall i | k + 1 <= i < |ts| && ts[i].state == Done && ts[i].stackStart != 0
      ensures Live(h', ts[i].stackStart)
    {
      LiveIsContents(h, ts[i].stackStart);
      LiveIsContents(h', ts[i].stackStart);
    }
  }

  /** The stack of a done task may be freed, and the others are not affected. */
  lemma NextStack(a: Allocator, ts: seq<Task>, k: nat)
    requires a.Valid() && k < |ts| && ts[k].state == Done && StacksLive(a.State(), ts, k)
    ensures a.MayFree(ts[k].stackStart)
    ensures StacksLive(Blocks.Free(a.State(), ts[k].stackStart), ts, k + 1)
  {
    hide Represents;
    HeapInv(a);
    StacksLiveAfter(a.State(), ts, k);
  }

  lemma StacksKept(h: Heap, ts: seq<Task>, k: nat)
    requires k < |ts| && ts[k].state != Done && StacksLive(h, ts, k)
    ensures StacksLive(h, ts, k + 1)
  {
  }

  /** The table in the middle of a reaping pass: the first `k` tasks are done with, the rest is as it was. */
  function Swept(ts: seq<Task>, k: nat): (r: seq<Task>)
    requires k <= |ts|
  {
    Renumber(Survivors(ts[..k]) + ts[k..])
  }

  lemma SweptStart(ts: seq<Task>)
    requires IdsAreIndices(ts)
    ensures Swept(ts, 0) == ts && |Survivors(ts[..0])| == 0 && |DoneTasks(ts[..0])| == 0
  {
    assert Survivors(ts[..0]) + ts[0..] == ts;
  }

  lemma SweptEnd(ts: seq<Task>)
    ensures Swept(ts, |ts|) == Renumber(Survivors(ts)) && ts[..|ts|] == ts
  {
    assert ts[..|ts|] == ts && Survivors(ts) + ts[|ts|..] == Survivors(ts);
  }

  /** In the middle of a pass the next task to look at is `ts[k]`, at the place after the survivors. */
  lemma SweptAt(ts: seq<Task>, k: nat)
    requires k <= |ts|
    ensures |Swept(ts, k)| == |Survivors(ts[..k])| + |ts| - k
    ensures k < |ts| ==> Swept(ts, k)[|Survivors(ts[..k])|] == ts[k].(id := |Survivors(ts[..k])|)
  {
  }

  lemma SweptKeep(ts: seq<Task>, k: nat)
    requires k < |ts| && ts[k].state != Done
    ensures Swept(ts, k + 1) == Swept(ts, k) && |Survivors(ts[..k + 1])| == |Survivors(ts[..k])| + 1
    ensures DoneTasks(ts[..k + 1]) == DoneTasks(ts[..k])
  {
    assert ts[..k + 1][..k] == ts[..k];
    assert Survivors(ts[..k + 1]) + ts[k + 1..] == Survivors(ts[..k]) + ts[k..];
  }

  lemma SweptDrop(ts: seq<Task>, k: nat, h: Heap)
    requires k < |ts| && ts[k].state == Done
    ensures |Survivors(ts[..k])| < |Swept(ts, k)|
    ensures Swept(ts, k + 1) == RemoveAt(Swept(ts, k), |Survivors(ts[..k])|)
    ensures |Survivors(ts[..k + 1])| == |Survivors(ts[..k])|
    ensures FreeStacks(h, DoneTasks(ts[..k + 1])) == Blocks.Free(FreeStacks(h, DoneTasks(ts[..k])), ts[k].stackStart)
  {
    assert ts[..k + 1][..k] == ts[..k];
    var s, d := Survivors(ts[..k]), DoneTasks(ts[..k + 1]);
    assert Survivors(ts[..k + 1]) == s;
    assert (s + ts[k..])[..|s|] == (s + ts[k + 1..])[..|s|];
    assert d == DoneTasks(ts[..k]) + [ts[k]] && d[..|d| - 1] == DoneTasks(ts[..k]);
  }

  /** A task that is not done ends up at the place its predecessors leave to it. */
  lemma {:induction false} SurvivorPlace(ts: seq<Task>, c: nat)
    requires c < |ts| && ts[c].state != Done
    ensures |Survivors(ts[..c])| < |Survivors(ts)| && Survivors(ts)[|Survivors(ts[..c])|] == ts[c]
    decreases |ts|
  {
    var init := ts[..|ts| - 1];
    if c < |ts| - 1 {
      assert init[..c] == ts[..c];
      SurvivorPlace(init, c);
    }
  }

  /** Survivors and done tasks divide the table between them. */
  lemma {:induction false} SurvivorsDivide(ts: seq<Task>)
    ensures |Survivors(ts)| + |DoneTasks(ts)| == |ts|
    ensures forall k :: 0 <= k < |Survivors(ts)| ==> Survivors(ts)[k].state != Done
    ensures forall k :: 0 <= k < |DoneTasks(ts)| ==> DoneTasks(ts)[k].state == Done
  {
    if |ts| > 0 {
      SurvivorsDivide(ts[..|ts| - 1]);
    }
  }

  /** Freeing the stacks of a list of tasks takes exactly those pointers from the heap's clients. */
  lemma {:induction false} FreeStacksContents(h: Heap, ds: seq<Task>)
    requires Blocks.Inv(h)
    ensures Blocks.Inv(FreeStacks(h, ds))
    ensures Contents(FreeStacks(h, ds)) == Contents(h) - (set i | 0 <= i < |ds| :: ds[i].stackStart)
  {
    if |ds| > 0 {
      var init := ds[..|ds| - 1];
      FreeStacksContents(h, init);
      hide ContentsFrom, Blocks.Free, Blocks.Inv;
      FreeLaw(FreeStacks(h, init), ds[|ds| - 1].stackStart);
      StackSetStep(ds);
    }
  }

  lemma StackSetStep(ds: seq<Task>)
    requires |ds| > 0
    ensures var init := ds[..|ds| - 1];
      (set i | 0 <= i < |ds| :: ds[i].stackStart)
        == (set i | 0 <= i < |init| :: init[i].stackStart) + {ds[|ds| - 1].stackStart}
  {
    var init := ds[..|ds| - 1];
    var was, now := set i | 0 <= i < |init| :: init[i].stackStart, set i | 0 <= i < |ds| :: ds[i].stackStart;
    forall p | p in was
      ensures p in now
    {
      var i :| 0 <= i < |init| && init[i].stackStart == p;
      assert ds[i].stackStart == p;
    }
    forall p | p in now
      ensures p in was || p == ds[|ds| - 1].stackStart
    {
      var i :| 0 <= i < |ds| && ds[i].stackStart == p;
      assert i < |init| ==> init[i].stackStart == p;
    }
  }

  lemma ModStep(x: nat, n: nat)
    requires x < n
    ensures (x + 1) % n == if x + 1 == n then 0 else x + 1
  {
  }

  class TaskTable {
    const slots: array<Task>
    const heap: Allocator
    var current: nat
    var count: nat
    var started: bool

    ghost predicate Valid()
      reads this, slots, heap, heap.mem
    {
      && slots.Length == MAX_TASKS && count <= MAX_TASKS
      && (current < count || current == count == 0)
      && IdsAreIndices(slots[..count])
      && heap.Valid()
    }

    ghost function List(): seq<Task>
      requires count <= slots.Length
      reads this, slots
    {
      slots[..count]
    }

    constructor (memory: Allocator, blank: Task)
      requires memory.Valid()
      ensures Valid() && fresh(slots) && heap == memory && List() == [] && !started
    {
      slots := new Task[MAX_TASKS](_ => blank);
      heap := memory;
      current, count, started := 0, 0, false;
    }

    method GetNextTask() returns (r: nat)
      requires Valid()
      ensures count > 0 ==> IsNext(List(), current, r)
      ensures count == 0 ==> r == current
    {
      var task := current;
      for i := 0 to count
        invariant task == if current + i < count then current + i else current + i - count
        invariant forall j :: 0 <= j < count && Dist(count, current, j) <= i ==> slots[j].state == Done
      {
        ModStep(task, count);
        task := (task + 1) % count;
        if slots[task].state != Done {
          return task;
        }
      }
      return current;
    }

    /** One timer tick: freezes the running frame and returns the one to resume. */
    method Schedule(frame: Frame) returns (r: Frame)
      requires Valid()
      modifies this, slots
      ensures Valid() && count == old(count)
      ensures count == 0 ==> r == frame && started == old(started) && List() == old(List())
      ensures count > 0 ==> started && r == List()[current].frame
      ensures count > 0 && !old(started) ==> current == old(current) && List() == old(List())
      ensures count > 0 && old(started) ==>
        && List() == old(List())[old(current) := old(List())[old(current)].(frame := frame)]
        && IsNext(List(), old(current), current)
    {
      if count == 0 {
        return frame;
      }
      if started {
        slots[current] := slots[current].(frame := frame);
        assert List() == old(List())[old(current) := old(List())[old(current)].(frame := frame)];
        current := GetNextTask();
      } else {
        started := true;
      }
      r := slots[current].frame;
    }

    method TaskExit()
      requires Valid()
      modifies slots
      ensures Valid()
      ensures List() == if count == 0 then [] else old(List())[current := old(List())[current].(state := Done)]
    {
      slots[current] := slots[current].(state := Done);
    }

    method TaskCreate(entry: nat, template: Frame)
      requires Valid()
      modifies this, slots, heap, heap.mem
      ensures Valid() && current == old(current) && started == old(started)
      ensures old(count) >= 10 ==> List() == old(List()) && heap.State() == old(heap.State())
      ensures old(count) < 10 ==>
        var (h, p) := Blocks.Malloc(old(heap.State()), 4096);
        && heap.State() == h && count == old(count) + 1
        && List() == old(List()) + [NewTask(old(count), entry, p, template)]
        && FreshTask(List()[old(count)], old(count), entry, p, template)
    {
      if count >= MAX_TASKS {
        return;
      }
      var stack := heap.Malloc(STACK_SIZE);
      NewTaskIsFresh(count, entry, stack, template);
      slots[count] := NewTask(count, entry, stack, template);
      count := count + 1;
    }

    method ShiftDown(start: nat)
      requires slots.Length == MAX_TASKS && start < count <= MAX_TASKS
      modifies slots
      ensures slots[..count - 1] == RemoveAt(old(slots[..count]), start)
    {
      for i := start to count - 1
        invariant forall k :: 0 <= k < start || i <= k < count ==> slots[k] == old(slots[k])
        invariant forall k :: start <= k < i ==> slots[k] == old(slots[..count])[k + 1].(id := k)
      {
        slots[i] := slots[i + 1];
        slots[i] := slots[i].(id := i);
      }
    }

    /** The part of `reap` that interrupts may follow. */
    method FreeStack(task: nat)
      requires Valid() && task < count && heap.MayFree(slots[task].stackStart)
      modifies heap, heap.mem
      ensures Valid() && heap.State() == Blocks.Free(old(heap.State()), slots[task].stackStart)
    {
      hide Represents, Blocks.Free;
      heap.Free(slots[task].stackStart);
    }

    /** The part of `reap` between `cli` and `sti`. */
    method RemoveSlot(task: nat)
      requires Valid() && task < count
      modifies this, slots
      ensures Valid() && started == old(started) && count == old(count) - 1
      ensures List() == RemoveAt(old(List()), task)
      ensures current == CurrentAfter(old(count), old(current), task)
    {
      hide Represents;
      ShiftDown(task);
      count := count - 1;
      if current > task {
        current := current - 1;
      } else if current >= count {
        current := 0;
      }
    }

    method Reap(task: nat)
      requires Valid() && task < count && heap.MayFree(slots[task].stackStart)
      modifies this, slots, heap, heap.mem
      ensures Valid() && started == old(started) && count == old(count) - 1
      ensures heap.State() == Blocks.Free(old(heap.State()), old(slots[task].stackStart))
      ensures List() == RemoveAt(old(List()), task)
      ensures current == CurrentAfter(old(count), old(current), task)
    {
      hide Represents, Blocks.Free, RemoveAt;
      FreeStack(task);
      RemoveSlot(task);
    }

    /**
     In the middle of a pass over the table `ts` with heap `h`: `k` tasks are done with, the next one is in slot `i`,
     and the task that was at `cur`, if it is not done, is still the current one.
     */
    ghost predicate Sweeping(ts: seq<Task>, h: Heap, cur: nat, k: nat, i: int)
      reads this, slots, heap, heap.mem
    {
      && k <= |ts| && i == |Survivors(ts[..k])| && count == i + |ts| - k
      && Valid() && List() == Swept(ts, k)
      && heap.State() == FreeStacks(h, DoneTasks(ts[..k])) && StacksLive(heap.State(), ts, k)
      && (cur < |ts| && ts[cur].state != Done ==>
            current == if cur < k then |Survivors(ts[..cur])| else cur - (k - i))
    }

    /** The loop body for a done task: its slot is filled by the next one. */
    method SweepDone(i: nat, ghost ts: seq<Task>, ghost h: Heap, ghost cur: nat, ghost k: nat)
      requires Sweeping(ts, h, cur, k, i) && i < count && slots[i].state == Done
      modifies this, slots, heap, heap.mem
      ensures Sweeping(ts, h, cur, k + 1, i) && started == old(started) && count == old(count) - 1
    {
      hide Represents, Swept, Survivors, DoneTasks, FreeStacks, RemoveAt, Blocks.Free, Blocks.Inv, StacksLive, Live;
      SweptAt(ts, k);
      assert slots[i] == List()[i];
      SweptDrop(ts, k, h);
      if cur < k && ts[cur].state != Done {
        assert ts[..k][..cur] == ts[..cur];
        SurvivorPlace(ts[..k], cur);
      }
      NextStack(heap, ts, k);
      Reap(i);
    }

    lemma SweepOther(i: nat, ts: seq<Task>, h: Heap, cur: nat, k: nat)
      requires Sweeping(ts, h, cur, k, i) && i < count && slots[i].state != Done
      ensures Sweeping(ts, h, cur, k + 1, i + 1)
    {
      hide Represents, Swept, Survivors, DoneTasks, FreeStacks, RemoveAt, Blocks.Free, Blocks.Inv, StacksLive, Live;
      SweptAt(ts, k);
      assert slots[i] == List()[i];
      SweptKeep(ts, k);
      StacksKept(heap.State(), ts, k);
    }

    lemma SweepStart(ts: seq<Task>, h: Heap)
      requires Valid() && ts == List() && h == heap.State() && StacksLive(h, ts, 0)
      ensures Sweeping(ts, h, current, 0, 0)
    {
      hide Represents, Swept, Survivors, DoneTasks, FreeStacks, StacksLive;
      SweptStart(ts);
      NoStacks(h, DoneTasks(ts[..0]));
    }

    /** One uninterrupted pass: exactly the tasks that are not done remain, in order and renumbered. */
    method TaskReap()
      requires Valid() && StacksLive(heap.State(), List(), 0)
      modifies this, slots, heap, heap.mem
      ensures Valid() && started == old(started)
      ensures List() == Renumber(Survivors(old(List())))
      ensures heap.State() == FreeStacks(old(heap.State()), DoneTasks(old(List())))
      ensures old(current < count && List()[current].state != Done) ==>
        current < count && List()[current] == old(List()[current]).(id := current)
    {
      hide Represents, Swept, Survivors, DoneTasks, FreeStacks, StacksLive;
      ghost var ts, h, k := List(), heap.State(), 0;
      SweepStart(ts, h);
      var i: int := 0;
      while i < count
        invariant Sweeping(ts, h, old(current), k, i) && started == old(started)
        decreases count - i
      {
        if slots[i].state == Done {
          SweepDone(i, ts, h, old(current), k);
          i := i - 1;
        } else {
          SweepOther(i, ts, h, old(current), k);
        }
        k := k + 1;
        i := i + 1;
      }
      SweptEnd(ts);
      if old(current) < |ts| && ts[old(current)].state != Done {
        SurvivorPlace(ts, old(current));
      }
    }
  }
}
