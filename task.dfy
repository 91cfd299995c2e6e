/** The scheduler of task.c: four slots of deferred callbacks, each
    run once its time has passed and resubmitted by what it returns, for a
    bounded or (retries 0) unbounded number of attempts. */
module Task {
  const MAX_TASKS: nat := 4

  /** A slot: `valid` is the TF_VALID flag; `callback` names the function
      to call. */
  datatype Task = Task(valid: bool, nextRun: nat, callback: nat, retries: nat, data: nat)

  /** The callbacks the slots name, as one function of the callback, the
      time handed to it and its data word: it returns the next run time (0
      to stop) and the new data word. */
  type Callbacks = (nat, nat, nat) -> (nat, nat)

  // ---------------------------------------------------------------------
  // Specification functions
  // ---------------------------------------------------------------------

  /** The first slot at or after `i` without TF_VALID, or -1. */
  function FirstFree(s: seq<Task>, i: nat): (r: int)
    requires i <= |s|
    ensures r == -1 || (i <= r < |s| && !s[r].valid)
    ensures forall j :: i <= j < |s| && (r == -1 || j < r) ==> s[j].valid
    decreases |s| - i
  {
    if i == |s| then -1
    else if !s[i].valid then i
    else FirstFree(s, i + 1)
  }

  /** The table after task_submit: the first free slot takes the scheduled task; with
      every slot taken the scheduled task is dropped. */
  function Submitted(s: seq<Task>, nextRun: nat, retries: nat, callback: nat, data: nat): seq<Task>
  {
    var f := FirstFree(s, 0);
    if f < 0 then s else s[f := Task(true, nextRun, callback, retries, data)]
  }

  /** A slot that task_run_ready calls at tick `now`: valid and due strictly
      before `now`. */
  predicate Due(t: Task, now: nat)
  {
    t.valid && t.nextRun < now
  }

  /** A slot after task_run_ready at tick `now`. The callback is handed the
      slot's own `nextRun`, not `now`. A result of 0, or a last retry, deletes
      the scheduled task; otherwise the result is the next run, and a bounded retry
      count goes down by one. */
  function Ran(t: Task, now: nat, cb: Callbacks): Task
  {
    if !Due(t, now) then t
    else
      var res := cb(t.callback, t.nextRun, t.data);
      if t.retries != 1 && res.0 != 0 then
        t.(nextRun := res.0, data := res.1, retries := if t.retries != 0 then t.retries - 1 else 0)
      else
        t.(valid := false, data := res.1)
  }

  /** The slots among the first `n` that task_run_ready calls at tick
      `now`, in increasing order. */
  function Calls(s: seq<Task>, now: nat, n: nat): (r: seq<nat>)
    requires n <= |s|
    ensures forall k :: 0 <= k < |r| ==> r[k] < n && Due(s[r[k]], now)
    ensures forall j :: 0 <= j < n && Due(s[j], now) ==> j in r
    ensures forall k, l :: 0 <= k < l < |r| ==> r[k] < r[l]
  {
    if n == 0 then []
    else Calls(s, now, n - 1) + (if Due(s[n - 1], now) then [n - 1] else [])
  }

  // ---------------------------------------------------------------------
  // Properties
  // ---------------------------------------------------------------------

  /** task_submit fills the lowest free slot and no other; on a full table
      the scheduled task is silently dropped. */
  lemma SubmitFillsLowestFree(s: seq<Task>, nextRun: nat, retries: nat, callback: nat, data: nat)
    ensures var r := Submitted(s, nextRun, retries, callback, data);
      |r| == |s| &&
      ((forall j :: 0 <= j < |s| ==> s[j].valid) ==> r == s) &&
      forall j :: 0 <= j < |s| && !s[j].valid && (forall k :: 0 <= k < j ==> s[k].valid) ==>
        r == s[j := Task(true, nextRun, callback, retries, data)]
  {
    var f := FirstFree(s, 0);
    forall j | 0 <= j < |s| && !s[j].valid && (forall k :: 0 <= k < j ==> s[k].valid)
      ensures f == j
    {
      assert f >= 0;
    }
  }

  /** Only due slots change, and a slot that changes either is deleted or
      holds the callback's result as its next run. */
  lemma RunChangesOnlyDueSlots(t: Task, now: nat, cb: Callbacks)
    ensures !Due(t, now) ==> Ran(t, now, cb) == t
    ensures Due(t, now) ==> !Ran(t, now, cb).valid || Ran(t, now, cb).nextRun == cb(t.callback, t.nextRun, t.data).0
    ensures Due(t, now) && t.retries == 0 && cb(t.callback, t.nextRun, t.data).0 != 0 ==>
      Ran(t, now, cb).valid && Ran(t, now, cb).retries == 0
  {
  }

  /** How many times a task is called over successive task_run_ready calls
      at the ticks `nows`. */
  function CallCount(t: Task, nows: seq<nat>, cb: Callbacks): nat
    decreases |nows|
  {
    if |nows| == 0 then 0
    else (if Due(t, nows[0]) then 1 else 0) + CallCount(Ran(t, nows[0], cb), nows[1..], cb)
  }

  /** A task submitted with `retries = r >= 1` is called at most `r` times,
      whatever its callback returns and whenever the scheduler runs. */
  lemma {:induction false} RetriesBoundCalls(t: Task, nows: seq<nat>, cb: Callbacks)
    requires t.retries >= 1 || !t.valid
    ensures CallCount(t, nows, cb) <= (if t.valid then t.retries else 0)
    decreases |nows|
  {
    if |nows| > 0 {
      var u := Ran(t, nows[0], cb);
      RetriesBoundCalls(u, nows[1..], cb);
      if !t.valid {
        assert u == t;
      }
    }
  }

  // ---------------------------------------------------------------------
  // The table
  // ---------------------------------------------------------------------

  class Scheduler {
    const tasks: array<Task>

    predicate Valid()
      reads this
    {
      tasks.Length == MAX_TASKS
    }

    constructor ()
      ensures Valid() && fresh(tasks)
      ensures forall i :: 0 <= i < MAX_TASKS ==> !tasks[i].valid
    {
      tasks := new Task[MAX_TASKS](_ => Task(false, 0, 0, 0, 0));
    }

    /** task_init: clears the valid flag of every slot. */
    method Init()
      requires Valid()
      modifies tasks
      ensures forall i :: 0 <= i < MAX_TASKS ==> tasks[i] == old(tasks[i]).(valid := false)
    {
      var i := 0;
      while i < MAX_TASKS
        invariant 0 <= i <= MAX_TASKS
        invariant forall j :: 0 <= j < i ==> tasks[j] == old(tasks[j]).(valid := false)
        invariant forall j :: i <= j < MAX_TASKS ==> tasks[j] == old(tasks[j])
      {
        tasks[i] := tasks[i].(valid := false);
        i := i + 1;
      }
    }

    /** task_submit */
    method Submit(nextRun: nat, retries: nat, callback: nat, data: nat)
      requires Valid()
      modifies tasks
      ensures tasks[..] == Submitted(old(tasks[..]), nextRun, retries, callback, data)
    {
      var i := 0;
      while i < MAX_TASKS
        invariant 0 <= i <= MAX_TASKS
        invariant tasks[..] == old(tasks[..])
        invariant FirstFree(tasks[..], i) == FirstFree(tasks[..], 0)
      {
        if !tasks[i].valid {
          tasks[i] := Task(true, nextRun, callback, retries, data);
          return;
        }
        i := i + 1;
      }
    }

    /** task_run_ready at tick `now`; `calls` lists the slots whose callback
        was called, in order. */
    method RunReady(now: nat, cb: Callbacks) returns (calls: seq<nat>)
      requires Valid()
      modifies tasks
      ensures forall i :: 0 <= i < MAX_TASKS ==> tasks[i] == Ran(old(tasks[i]), now, cb)
      ensures calls == Calls(old(tasks[..]), now, MAX_TASKS)
    {
      ghost var s := tasks[..];
      calls := [];
      var i := 0;
      while i < MAX_TASKS
        invariant 0 <= i <= MAX_TASKS
        invariant forall j :: 0 <= j < i ==> tasks[j] == Ran(s[j], now, cb)
        invariant forall j :: i <= j < MAX_TASKS ==> tasks[j] == s[j]
        invariant calls == Calls(s, now, i)
      {
        var called := RunSlot(i, now, cb);
        if called {
          calls := calls + [i];
        }
        i := i + 1;
      }
    }

    /** The body of the task_run_ready loop for slot `i`. */
    method RunSlot(i: nat, now: nat, cb: Callbacks) returns (called: bool)
      requires Valid() && i < MAX_TASKS
      modifies tasks
      ensures called == Due(old(tasks[i]), now)
      ensures tasks[i] == Ran(old(tasks[i]), now, cb)
      ensures forall j :: 0 <= j < MAX_TASKS && j != i ==> tasks[j] == old(tasks[j])
    {
      var t := tasks[i];
      called := t.valid && t.nextRun < now;
      if called {
        var res := cb(t.callback, t.nextRun, t.data);
        var next := res.0;
        t := t.(data := res.1);
        if t.retries != 1 && next != 0 {
          t := t.(nextRun := next);
          if t.retries != 0 {
            t := t.(retries := t.retries - 1);
          }
        } else {
          t := t.(valid := false);
        }
        tasks[i] := t;
      }
    }
  }
}
