/** The dispatcher `check_collatz_until(n)`: it builds the work items
    `(i, "Collatz was right!")` for `i = 1..n` and hands them to a worker
    pool's `starmap`, whose contract is one result per item, in item order,
    available once every item has been computed. The pool is modelled by that
    contract alone: a sequential, order-preserving map. */
module Dispatch {
  import opened Decimal
  import opened Collatz

  /** An argument tuple for one call of `collatz`. */
  type WorkItem = (int, string)

  /** The fixed message every work item carries. */
  const RightMsg: string := "Collatz was right!"

  /** The task list for bound `n`: reference definition of what the build
      loop produces. */
  function TaskList(n: int): (tasks: seq<WorkItem>)
    ensures |tasks| == if n > 0 then n else 0
    ensures forall k :: 0 <= k < |tasks| ==> tasks[k].0 == k + 1 && tasks[k].1 == RightMsg
  {
    seq(if n > 0 then n else 0, k => (k + 1, RightMsg))
  }

  /** The build loop of `check_collatz_until`: one appended item per
      `i` in `range(1, n + 1)`, so nothing at all when `n <= 0`. */
  method BuildTaskList(n: int) returns (tasks: seq<WorkItem>)
    ensures |tasks| == if n > 0 then n else 0
    ensures forall k :: 0 <= k < |tasks| ==> tasks[k] == (k + 1, RightMsg)
    ensures forall j, k :: 0 <= j < k < |tasks| ==> 1 <= tasks[j].0 < tasks[k].0
    ensures tasks == TaskList(n)
  {
    tasks := [];
    var i := 1;
    while i <= n
      invariant 1 <= i <= if n > 0 then n + 1 else 1
      invariant |tasks| == i - 1
      invariant forall k :: 0 <= k < |tasks| ==> tasks[k] == (k + 1, RightMsg)
    {
      tasks := tasks + [(i, RightMsg)];
      i := i + 1;
    }
  }

  /** `starmap(f, tasks)`: `f` applied to the unpacked arguments of every
      task, one result per task, in task order. */
  function StarMap<A, B, R>(f: (A, B) -> R, tasks: seq<(A, B)>): (results: seq<R>)
    ensures |results| == |tasks|
    ensures forall k :: 0 <= k < |tasks| ==> results[k] == f(tasks[k].0, tasks[k].1)
  {
    if tasks == [] then [] else [f(tasks[0].0, tasks[0].1)] + StarMap(f, tasks[1..])
  }

  /** Mapping consecutive chunks of the tasks and concatenating the results in
      order equals mapping the whole list. */
  lemma StarMapChunks<A, B, R>(f: (A, B) -> R, front: seq<(A, B)>, back: seq<(A, B)>)
    ensures StarMap(f, front + back) == StarMap(f, front) + StarMap(f, back)
  {
  }

  /** Waiting for the pool: the list of results exists only once every task
      has returned; a task that runs out of fuel holds up the whole batch. */
  function Collect<T>(outcomes: seq<Outcome<T>>): (r: Outcome<seq<T>>)
    ensures r.Returned? <==> forall k :: 0 <= k < |outcomes| ==> outcomes[k].Returned?
    ensures r.Returned? ==>
      |r.value| == |outcomes| && forall k :: 0 <= k < |outcomes| ==> r.value[k] == outcomes[k].value
  {
    if outcomes == [] then Returned([])
    else match Collect(outcomes[1..])
      case OutOfFuel => OutOfFuel
      case Returned(rest) =>
        if outcomes[0].Returned? then Returned([outcomes[0].value] + rest) else OutOfFuel
  }

  /** What a pool worker runs for one task: `collatz` under the bound. */
  function Worker(fuel: nat): (run: (int, string) -> Outcome<string>)
    ensures forall m: int, msg: string :: run(m, msg).Returned? ==> run(m, msg).value == Message(m, msg)
    ensures forall m: int, msg: string :: m <= 1 ==> run(m, msg).Returned?
  {
    (m: int, msg: string) => CollatzOutcome(m, msg, fuel)
  }

  /** The whole of `check_collatz_until(n)` when each call of `collatz` may
      take at most `fuel` loop steps. */
  function Batch(n: int, fuel: nat): (r: Outcome<seq<string>>)
    ensures r.Returned? ==> |r.value| == if n > 0 then n else 0
  {
    Collect(StarMap(Worker(fuel), TaskList(n)))
  }

  /** The batch returns exactly when every `i` in `1..n` leaves the loop within
      the bound, and then its element `i - 1` is the message for `i`. */
  lemma BatchAt(n: int, fuel: nat)
    ensures Batch(n, fuel).Returned? <==> forall i :: 1 <= i <= n ==> ReachesOne(i, fuel)
    ensures Batch(n, fuel).Returned? ==>
      |Batch(n, fuel).value| == (if n > 0 then n else 0) &&
      forall i :: 1 <= i <= n ==> Batch(n, fuel).value[i - 1] == Message(i, RightMsg)
  {
    var tasks := TaskList(n);
    var outcomes := StarMap(Worker(fuel), tasks);
    assert Batch(n, fuel) == Collect(outcomes);
    forall i | 1 <= i <= n
      ensures outcomes[i - 1].Returned? <==> ReachesOne(i, fuel)
      ensures outcomes[i - 1].Returned? ==> outcomes[i - 1].value == Message(i, RightMsg)
    {
      assert tasks[i - 1] == (i, RightMsg);
      assert outcomes[i - 1] == CollatzOutcome(i, RightMsg, fuel);
    }
    if forall i :: 1 <= i <= n ==> ReachesOne(i, fuel) {
      forall k | 0 <= k < |outcomes|
        ensures outcomes[k].Returned?
      {
        assert outcomes[(k + 1) - 1].Returned?;
      }
    }
  }

  /** With a bound `n <= 0` the range is empty: nothing is checked at all and the batch is empty. */
  lemma BatchNonPositive(n: int, fuel: nat)
    requires n <= 0
    ensures Batch(n, fuel) == Returned([])
  {
  }

  /** `check_collatz_until(1)` is `["Checked for 1: Collatz was right!"]`, under
      any bound: 1 takes the early return. */
  lemma BatchOfOne(fuel: nat)
    ensures Batch(1, fuel) == Returned(["Checked for 1: Collatz was right!"])
  {
    assert IntToString(1) == "1";
    assert ReachesOne(1, fuel);
    BatchAt(1, fuel);
    var results := Batch(1, fuel).value;
    assert |results| == 1 && results[0] == Message(1, RightMsg);
    assert Message(1, RightMsg) == "Checked for 1: Collatz was right!";
    assert results == ["Checked for 1: Collatz was right!"];
  }

  /** A batch that finished gives the same list under any larger bound, so the
      bound never changes the output of a run that completes. */
  lemma BatchFuelMonotone(n: int, fuel: nat, fuel': nat)
    requires Batch(n, fuel).Returned? && fuel <= fuel'
    ensures Batch(n, fuel') == Batch(n, fuel)
  {
    BatchAt(n, fuel);
    BatchAt(n, fuel');
    forall i | 1 <= i <= n
      ensures ReachesOne(i, fuel')
    {
      IterateFuelMonotone(i, fuel, fuel');
    }
    assert Batch(n, fuel').Returned?;
    var a, b := Batch(n, fuel).value, Batch(n, fuel').value;
    assert |a| == |b|;
    forall k | 0 <= k < |a|
      ensures a[k] == b[k]
    {
      assert a[(k + 1) - 1] == b[(k + 1) - 1];
    }
    assert a == b;
  }

  /** Messages for the inputs `1, 2, ...` with one fixed `msg` are pairwise
      different. */
  lemma MessagesDistinct(results: seq<string>, msg: string)
    requires forall k :: 0 <= k < |results| ==> results[k] == Message(k + 1, msg)
    ensures forall j, k :: 0 <= j < k < |results| ==> results[j] != results[k]
  {
    forall j, k | 0 <= j < k < |results|
      ensures results[j] != results[k]
    {
      assert Message(j + 1, msg) != Message(k + 1, msg) by {
        MessagesDiffer(j + 1, k + 1, msg);
      }
    }
  }

  /** The results of a finished batch are pairwise different, so the order
      the pool keeps is visible in its output. */
  lemma BatchDistinct(n: int, fuel: nat)
    requires Batch(n, fuel).Returned?
    ensures forall j, k :: 0 <= j < k < |Batch(n, fuel).value| ==>
      Batch(n, fuel).value[j] != Batch(n, fuel).value[k]
  {
    BatchAt(n, fuel);
    var results := Batch(n, fuel).value;
    forall k | 0 <= k < |results|
      ensures results[k] == Message(k + 1, RightMsg)
    {
      assert results[(k + 1) - 1] == Message(k + 1, RightMsg);
    }
    MessagesDistinct(results, RightMsg);
  }

  /** `check_collatz_until(n)`: build the task list, then map `collatz` over it
      with the pool's order-preserving `starmap`. */
  method CheckCollatzUntil(n: int, fuel: nat) returns (r: Outcome<seq<string>>)
    ensures r == Batch(n, fuel)
    ensures r.Returned? <==> forall i :: 1 <= i <= n ==> ReachesOne(i, fuel)
    ensures r.Returned? ==> |r.value| == (if n > 0 then n else 0)
    ensures r.Returned? ==>
      forall i :: 1 <= i <= n ==> r.value[i - 1] == "Checked for " + IntToString(i) + ": " + RightMsg
    ensures n <= 0 ==> r == Returned([])
  {
    var tasks := BuildTaskList(n);
    r := Collect(StarMap(Worker(fuel), tasks));
    BatchAt(n, fuel);
    if n <= 0 {
      BatchNonPositive(n, fuel);
    }
  }
}
