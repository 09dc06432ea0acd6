/** Cross-thread dispatch of io/event_loop_pool.hpp: dispatchers store a task in the worker's pending map
    and try MSG_RING; if that fails they take it out again and post it to the worker's queue instead. The
    worker runs whatever it finds in the map, so it can get there first. */
module EventLoopPool {
  import opened Sequences
  import opened Modular
  import opened Balance
  import LoadBalancer

  type TaskId = nat
  type Dispatcher = nat

  /** Which task: one handed to `dispatch_to_worker`, or one posted directly. */
  datatype Ticket = Dispatched(id: TaskId) | Direct(n: nat)

  datatype Pc =
    | Ready
    | Numbered(id: TaskId)  // has its task id, not yet in pending_tasks_
    | Stored(id: TaskId)    // in pending_tasks_, MSG_RING not yet submitted
    | Fallback(id: TaskId)  // submit threw, entry erased, about to post to the queue

  datatype State = State(
    pending: map<TaskId, Ticket>, queue: seq<Ticket>, batch: seq<Ticket>, pcs: seq<Pc>,
    nextId: TaskId, nextDirect: nat,
    failed: set<TaskId>,      // dispatches whose MSG_RING submit threw
    posted: seq<Ticket>,      // everything pushed on the queue, in order
    ranPending: seq<Ticket>,  // run out of the map
    ranQueue: seq<Ticket>)    // run out of a batch, in order

  datatype Action =
    | TakeId(d: Dispatcher)
    | Store(d: Dispatcher)
    | SubmitOk(d: Dispatcher)
    | SubmitFails(d: Dispatcher)
    | PostFallback(d: Dispatcher)
    | PostDirect
    | RunPending(id: TaskId)
    | TakeQueue
    | RunBatch

  predicate Enabled(s: State, a: Action) {
    match a
    case TakeId(d) => d < |s.pcs| && s.pcs[d].Ready?
    case Store(d) => d < |s.pcs| && s.pcs[d].Numbered?
    case SubmitOk(d) => d < |s.pcs| && s.pcs[d].Stored?
    case SubmitFails(d) => d < |s.pcs| && s.pcs[d].Stored?
    case PostFallback(d) => d < |s.pcs| && s.pcs[d].Fallback?
    case PostDirect => true
    case RunPending(id) => id in s.pending
    case TakeQueue => s.batch == []
    case RunBatch => s.batch != []
  }

  function Next(s: State, a: Action): State
    requires Enabled(s, a)
  {
    match a
    case TakeId(d) => s.(pcs := s.pcs[d := Numbered(s.nextId)], nextId := s.nextId + 1)
    case Store(d) =>
      var id := s.pcs[d].id;
      s.(pending := s.pending[id := Dispatched(id)], pcs := s.pcs[d := Stored(id)])
    case SubmitOk(d) => s.(pcs := s.pcs[d := Ready])
    case SubmitFails(d) =>
      var id := s.pcs[d].id;
      s.(pending := s.pending - {id}, pcs := s.pcs[d := Fallback(id)], failed := s.failed + {id})
    case PostFallback(d) =>
      var t := Dispatched(s.pcs[d].id);
      s.(queue := s.queue + [t], posted := s.posted + [t], pcs := s.pcs[d := Ready])
    case PostDirect =>
      var t := Direct(s.nextDirect);
      s.(queue := s.queue + [t], posted := s.posted + [t], nextDirect := s.nextDirect + 1)
    case RunPending(id) => s.(pending := s.pending - {id}, ranPending := s.ranPending + [s.pending[id]])
    case TakeQueue => s.(batch := s.queue, queue := [])
    case RunBatch => s.(batch := s.batch[1..], ranQueue := s.ranQueue + [s.batch[0]])
  }

  predicate ValidRun(s: State, run: seq<Action>)
    decreases |run|
  {
    run == [] || (Enabled(s, run[0]) && ValidRun(Next(s, run[0]), run[1..]))
  }

  function After(s: State, run: seq<Action>): State
    requires ValidRun(s, run)
    decreases |run|
  {
    if run == [] then s else After(Next(s, run[0]), run[1..])
  }

  lemma {:induction false} RunAppend(s: State, a: seq<Action>, b: seq<Action>)
    requires ValidRun(s, a) && ValidRun(After(s, a), b)
    ensures ValidRun(s, a + b) && After(s, a + b) == After(After(s, a), b)
    decreases |a|
  {
    hide Enabled, Next;
    if a == [] {
      assert a + b == b;
    } else {
      assert (a + b)[0] == a[0] && (a + b)[1..] == a[1..] + b;
      RunAppend(Next(s, a[0]), a[1..], b);
    }
  }

  function Initial(dispatchers: nat): State {
    State(map[], [], [], Fill(dispatchers, Ready), 1, 0, {}, [], [], [])
  }

  // ---------------------------------------------------------------- invariant

  function IsNumbered(id: TaskId): Pc -> bool { (p: Pc) => p == Numbered(id) }
  function IsStored(id: TaskId): Pc -> bool { (p: Pc) => p == Stored(id) }
  function IsFallback(id: TaskId): Pc -> bool { (p: Pc) => p == Fallback(id) }

  /** The queue is first in, first out: what has run, then the batch, then the queue is all that was posted. */
  predicate InOrder(s: State) {
    s.posted == s.ranQueue + s.batch + s.queue
  }

  /** The life of one dispatched task. Its map copy is still to be stored, pending, run, or erased by a
      failed submit; exactly after a failed submit there is one queue copy, in the dispatcher's hands or
      posted. */
  predicate Tracked(s: State, id: TaskId) {
    var t := Dispatched(id);
    var numbered, stored := Count(IsNumbered(id), s.pcs), Count(IsStored(id), s.pcs);
    var pending := if id in s.pending then 1 else 0;
    var ran := Count(Is(t), s.ranPending);
    var fallback := Count(IsFallback(id), s.pcs) + Count(Is(t), s.posted);
    if 1 <= id < s.nextId then
      && (id in s.pending ==> s.pending[id] == t)
      && (id !in s.failed ==> numbered + pending + ran == 1 && fallback == 0 && numbered + stored <= 1)
      && (id in s.failed ==> numbered == stored == pending == 0 && ran <= 1 && fallback == 1)
    else
      id !in s.failed && numbered == stored == pending == ran == fallback == 0
  }

  ghost predicate Inv(s: State) {
    s.nextId >= 1 && InOrder(s) && forall id: TaskId :: Tracked(s, id)
  }

  lemma InitialInv(dispatchers: nat)
    ensures Inv(Initial(dispatchers))
  {
    forall id: TaskId ensures Tracked(Initial(dispatchers), id) {
      CountFill(IsNumbered(id), dispatchers, Ready);
      CountFill(IsStored(id), dispatchers, Ready);
      CountFill(IsFallback(id), dispatchers, Ready);
    }
  }

  lemma {:induction false} CountPositive(p: Pc -> bool, pcs: seq<Pc>, i: nat)
    requires i < |pcs| && p(pcs[i])
    ensures Count(p, pcs) >= 1
  {
    if i > 0 {
      CountPositive(p, pcs[1..], i - 1);
    }
  }

  lemma PcMoves(pcs: seq<Pc>, d: Dispatcher, pc: Pc, id: TaskId)
    requires d < |pcs|
    ensures Count(IsNumbered(id), pcs[d := pc]) ==
              Count(IsNumbered(id), pcs) - (if pcs[d] == Numbered(id) then 1 else 0) + (if pc == Numbered(id) then 1 else 0)
    ensures Count(IsStored(id), pcs[d := pc]) ==
              Count(IsStored(id), pcs) - (if pcs[d] == Stored(id) then 1 else 0) + (if pc == Stored(id) then 1 else 0)
    ensures Count(IsFallback(id), pcs[d := pc]) ==
              Count(IsFallback(id), pcs) - (if pcs[d] == Fallback(id) then 1 else 0) + (if pc == Fallback(id) then 1 else 0)
  {
    CountUpdate(IsNumbered(id), pcs, d, pc);
    CountUpdate(IsStored(id), pcs, d, pc);
    CountUpdate(IsFallback(id), pcs, d, pc);
  }

  /** The task a step is about, if its number is known before. */
  function Subject(s: State, a: Action): TaskId
    requires Enabled(s, a)
  {
    match a
    case Store(d) => s.pcs[d].id
    case SubmitFails(d) => s.pcs[d].id
    case RunPending(id) => id
    case _ => 0
  }

  lemma StepTracks(s: State, a: Action, id: TaskId)
    requires s.nextId >= 1 && Enabled(s, a)
    requires Tracked(s, id) && Tracked(s, Subject(s, a))
    ensures Tracked(Next(s, a), id)
  {
    hide Count;
    var s' := Next(s, a);
    match a
    case TakeId(d) => PcMoves(s.pcs, d, s'.pcs[d], id);
    case Store(d) =>
      CountPositive(IsNumbered(s.pcs[d].id), s.pcs, d);
      PcMoves(s.pcs, d, s'.pcs[d], id);
    case SubmitOk(d) => PcMoves(s.pcs, d, s'.pcs[d], id);
    case SubmitFails(d) =>
      CountPositive(IsStored(s.pcs[d].id), s.pcs, d);
      PcMoves(s.pcs, d, s'.pcs[d], id);
    case PostFallback(d) =>
      PcMoves(s.pcs, d, s'.pcs[d], id);
      CountSnoc(Is(Dispatched(id)), s.posted, Dispatched(s.pcs[d].id));
    case PostDirect =>
      CountSnoc(Is(Dispatched(id)), s.posted, Direct(s.nextDirect));
    case RunPending(other) =>
      CountSnoc(Is(Dispatched(id)), s.ranPending, s.pending[other]);
    case TakeQueue =>
    case RunBatch =>
  }

  lemma StepKeepsInv(s: State, a: Action)
    requires Inv(s) && Enabled(s, a)
    ensures Inv(Next(s, a))
  {
    hide Tracked;
    forall id: TaskId ensures Tracked(Next(s, a), id) {
      StepTracks(s, a, id);
    }
    assert InOrder(Next(s, a)) by {
      if a.RunBatch? {
        assert s.batch == [s.batch[0]] + s.batch[1..];
      }
    }
  }

  lemma {:induction false} RunKeepsInv(s: State, run: seq<Action>)
    requires Inv(s) && ValidRun(s, run)
    ensures Inv(After(s, run))
    decreases |run|
  {
    hide Inv, Next, Enabled;
    if run != [] {
      StepKeepsInv(s, run[0]);
      RunKeepsInv(Next(s, run[0]), run[1..]);
    }
  }

  // ---------------------------------------------------------------- what holds over every run

  /** How often a task has been run so far. */
  function Runs(s: State, t: Ticket): nat {
    Count(Is(t), s.ranPending) + Count(Is(t), s.ranQueue)
  }

  /** How many copies of a dispatched task are still to be run: about to be stored, in the map, in its
      dispatcher's hands for the fallback, in the queue, or in the worker's batch. */
  function Copies(s: State, id: TaskId): nat {
    Count(IsNumbered(id), s.pcs) + (if id in s.pending then 1 else 0) + Count(IsFallback(id), s.pcs)
    + Count(Is(Dispatched(id)), s.queue) + Count(Is(Dispatched(id)), s.batch)
  }

  /** The step is the failed submit of this task, and the erase that follows finds nothing. */
  predicate EraseMisses(s: State, a: Action, id: TaskId) {
    a.SubmitFails? && a.d < |s.pcs| && s.pcs[a.d] == Stored(id) && id !in s.pending
  }

  predicate SomeEraseMisses(s: State, run: seq<Action>, id: TaskId)
    requires ValidRun(s, run)
    decreases |run|
  {
    run != [] && (EraseMisses(s, run[0], id) || SomeEraseMisses(Next(s, run[0]), run[1..], id))
  }

  /** The task has a queue copy although its map copy ran. */
  predicate Doubled(s: State, id: TaskId) {
    id in s.failed && Count(Is(Dispatched(id)), s.ranPending) == 1
  }

  /** While its submit is outstanding, a task is missing from the map exactly if the worker has run it. */
  lemma MissingMeansRan(s: State, d: Dispatcher, id: TaskId)
    requires Inv(s) && d < |s.pcs| && s.pcs[d] == Stored(id)
    ensures id !in s.failed
    ensures Count(Is(Dispatched(id)), s.ranPending) == if id in s.pending then 0 else 1
    ensures id !in s.pending <==> Dispatched(id) in s.ranPending
  {
    assert Tracked(s, id);
    CountPositive(IsStored(id), s.pcs, d);
    CountMembership(s.ranPending, Dispatched(id));
  }

  lemma StepDoubles(s: State, a: Action, id: TaskId)
    requires Inv(s) && Enabled(s, a)
    ensures Doubled(Next(s, a), id) <==> Doubled(s, id) || EraseMisses(s, a, id)
  {
    hide Count;
    assert Tracked(s, id);
    match a
    case SubmitFails(d) => MissingMeansRan(s, d, s.pcs[d].id);
    case RunPending(other) =>
      assert Tracked(s, other);
      CountSnoc(Is(Dispatched(id)), s.ranPending, s.pending[other]);
    case _ =>
  }

  lemma {:induction false} RunDoubles(s: State, run: seq<Action>, id: TaskId)
    requires Inv(s) && ValidRun(s, run)
    ensures Doubled(After(s, run), id) <==> Doubled(s, id) || SomeEraseMisses(s, run, id)
    decreases |run|
  {
    hide Inv, Next, Enabled, Doubled, EraseMisses;
    if run != [] {
      StepKeepsInv(s, run[0]);
      StepDoubles(s, run[0], id);
      RunDoubles(Next(s, run[0]), run[1..], id);
    }
  }

  /** Under every interleaving of dispatchers and worker, at every moment: the copies of a dispatched task
      still to be run and the times it has run add up to one, or to two if its submit failed and the erase
      found nothing. So it is never lost, runs at most once if its submit did not fail, and at most twice
      if it did. */
  lemma DispatchedTaskIsSafe(dispatchers: nat, run: seq<Action>, id: TaskId)
    requires ValidRun(Initial(dispatchers), run)
    requires 1 <= id < After(Initial(dispatchers), run).nextId
    ensures var s := After(Initial(dispatchers), run);
            var missed := SomeEraseMisses(Initial(dispatchers), run, id);
            && Copies(s, id) + Runs(s, Dispatched(id)) == (if missed then 2 else 1)
            && (missed ==> id in s.failed)
            && (id !in s.failed ==> Dispatched(id) !in s.posted)
  {
    hide ValidRun, After, Next;
    InitialInv(dispatchers);
    RunKeepsInv(Initial(dispatchers), run);
    RunDoubles(Initial(dispatchers), run, id);
    var s := After(Initial(dispatchers), run);
    var t := Dispatched(id);
    assert Tracked(s, id);
    CountAppend(Is(t), s.ranQueue + s.batch, s.queue);
    CountAppend(Is(t), s.ranQueue, s.batch);
    CountMembership(s.posted, t);
  }

  /** Nothing of the task is on its way any more. */
  predicate Settled(s: State, id: TaskId) {
    && id !in s.pending && Dispatched(id) !in s.queue && Dispatched(id) !in s.batch
    && forall d :: 0 <= d < |s.pcs| ==> s.pcs[d] != Numbered(id) && s.pcs[d] != Fallback(id)
  }

  lemma {:induction false} CountNone(p: Pc -> bool, pcs: seq<Pc>)
    requires forall d :: 0 <= d < |pcs| ==> !p(pcs[d])
    ensures Count(p, pcs) == 0
  {
    if pcs != [] {
      CountNone(p, pcs[1..]);
    }
  }

  /** A settled task has run exactly once, unless its submit failed and the erase found nothing; then, and
      only then, it has run twice. */
  lemma SettledTaskRanTwiceIff(dispatchers: nat, run: seq<Action>, id: TaskId)
    requires ValidRun(Initial(dispatchers), run)
    requires 1 <= id < After(Initial(dispatchers), run).nextId
    requires Settled(After(Initial(dispatchers), run), id)
    ensures var runs := Runs(After(Initial(dispatchers), run), Dispatched(id));
            var missed := SomeEraseMisses(Initial(dispatchers), run, id);
            (runs == 2 <==> missed) && (runs == 1 <==> !missed)
  {
    hide Count, ValidRun, After, SomeEraseMisses;
    var s := After(Initial(dispatchers), run);
    DispatchedTaskIsSafe(dispatchers, run, id);
    CountNone(IsNumbered(id), s.pcs);
    CountNone(IsFallback(id), s.pcs);
    CountMembership(s.queue, Dispatched(id));
    CountMembership(s.batch, Dispatched(id));
  }

  /** Tasks that went through the queue run in the order they were posted, each once. */
  lemma QueueRunsInPostOrder(dispatchers: nat, run: seq<Action>)
    requires ValidRun(Initial(dispatchers), run)
    ensures var s := After(Initial(dispatchers), run);
            s.ranQueue <= s.posted && s.posted[|s.ranQueue|..] == s.batch + s.queue
  {
    InitialInv(dispatchers);
    RunKeepsInv(Initial(dispatchers), run);
    var s := After(Initial(dispatchers), run);
    assert s.posted == s.ranQueue + (s.batch + s.queue);
  }

  // ---------------------------------------------------------------- every failed submit can go either way

  lemma OneStep(s: State, a: Action)
    requires Enabled(s, a)
    ensures ValidRun(s, [a]) && After(s, [a]) == Next(s, a)
  {
    assert ValidRun(Next(s, a), []) && After(Next(s, a), []) == Next(s, a);
    assert [a][1..] == [];
  }

  /** The worker finishes its batch. */
  lemma {:induction false} BatchRuns(s: State)
    ensures ValidRun(s, Fill(|s.batch|, RunBatch))
    ensures After(s, Fill(|s.batch|, RunBatch)) == s.(batch := [], ranQueue := s.ranQueue + s.batch)
    decreases |s.batch|
  {
    var run := Fill(|s.batch|, RunBatch);
    if s.batch == [] {
      assert s.(batch := [], ranQueue := s.ranQueue + s.batch) == s;
    } else {
      var s1 := Next(s, RunBatch);
      assert run[1..] == Fill(|s1.batch|, RunBatch);
      BatchRuns(s1);
      assert s1.ranQueue + s1.batch == s.ranQueue + s.batch;
    }
  }

  function DrainRun(s: State): seq<Action> {
    Fill(|s.batch|, RunBatch) + ([TakeQueue] + Fill(|s.queue|, RunBatch))
  }

  /** From every state the worker alone can run all that is batched and queued. */
  lemma WorkerDrains(s: State)
    ensures ValidRun(s, DrainRun(s))
    ensures After(s, DrainRun(s)) == s.(batch := [], queue := [], ranQueue := s.ranQueue + s.batch + s.queue)
  {
    hide ValidRun, After;
    BatchRuns(s);
    var s1 := s.(batch := [], ranQueue := s.ranQueue + s.batch);
    OneStep(s1, TakeQueue);
    var s2 := Next(s1, TakeQueue);
    BatchRuns(s2);
    RunAppend(s1, [TakeQueue], Fill(|s.queue|, RunBatch));
    RunAppend(s, Fill(|s.batch|, RunBatch), [TakeQueue] + Fill(|s.queue|, RunBatch));
  }

  /** In every reachable state with a submit outstanding, the submit can fail and the task then settle
      after one run or after two: two whenever the worker reaches the map first. */
  lemma FailedSubmitGoesEitherWay(dispatchers: nat, before: seq<Action>, d: Dispatcher, id: TaskId, workerFirst: bool)
      returns (more: seq<Action>)
    requires ValidRun(Initial(dispatchers), before)
    requires var s := After(Initial(dispatchers), before);
             d < |s.pcs| && s.pcs[d] == Stored(id) && (workerFirst || id in s.pending)
    ensures ValidRun(Initial(dispatchers), before + more)
    ensures var s := After(Initial(dispatchers), before + more);
            id in s.failed && Settled(s, id) && Runs(s, Dispatched(id)) == if workerFirst then 2 else 1
  {
    hide ValidRun, After, Inv, Next, Enabled, Runs, Settled;
    InitialInv(dispatchers);
    RunKeepsInv(Initial(dispatchers), before);
    var s := After(Initial(dispatchers), before);
    var run, s1 := WorkerMoves(s, d, id, workerFirst);
    var more2 := FailAndDrain(s1, d, id);
    RunAppend(s, run, more2);
    more := run + more2;
    RunAppend(Initial(dispatchers), before, more);
  }

  /** The worker's move, if it is to come first. */
  lemma WorkerMoves(s: State, d: Dispatcher, id: TaskId, workerFirst: bool) returns (run: seq<Action>, s1: State)
    requires Inv(s) && d < |s.pcs| && s.pcs[d] == Stored(id) && (workerFirst || id in s.pending)
    ensures ValidRun(s, run) && s1 == After(s, run) && Inv(s1)
    ensures s1.pcs == s.pcs && (id in s1.pending <==> !workerFirst)
  {
    hide Inv;
    if workerFirst && id in s.pending {
      OneStep(s, RunPending(id));
      run, s1 := [RunPending(id)], Next(s, RunPending(id));
      RunKeepsInv(s, run);
    } else {
      run, s1 := [], s;
    }
  }

  lemma FailAndDrain(s: State, d: Dispatcher, id: TaskId) returns (run: seq<Action>)
    requires Inv(s) && d < |s.pcs| && s.pcs[d] == Stored(id)
    ensures ValidRun(s, run)
    ensures var s' := After(s, run);
            id in s'.failed && Settled(s', id) && Runs(s', Dispatched(id)) == if id in s.pending then 1 else 2
  {
    hide ValidRun, After, Count, Inv;
    var s1 := Next(s, SubmitFails(d));
    OneStep(s, SubmitFails(d));
    var s2 := Next(s1, PostFallback(d));
    OneStep(s1, PostFallback(d));
    WorkerDrains(s2);
    var s3 := After(s2, DrainRun(s2));
    RunAppend(s1, [PostFallback(d)], DrainRun(s2));
    run := [SubmitFails(d)] + ([PostFallback(d)] + DrainRun(s2));
    RunAppend(s, [SubmitFails(d)], [PostFallback(d)] + DrainRun(s2));
    RunKeepsInv(s, run);
    MissingMeansRan(s, d, id);
    assert s3.ranQueue == s2.ranQueue + s2.batch + s2.queue;
    assert s2.queue[|s2.queue| - 1] == Dispatched(id);
    assert Dispatched(id) in s3.ranQueue;
    DrainedTask(s3, id);
  }

  lemma DrainedTask(s: State, id: TaskId)
    requires Inv(s) && id in s.failed && s.queue == [] && s.batch == [] && Dispatched(id) in s.ranQueue
    ensures Settled(s, id) && Count(Is(Dispatched(id)), s.ranQueue) == 1
  {
    assert Tracked(s, id);
    assert s.posted == s.ranQueue;
    CountMembership(s.ranQueue, Dispatched(id));
    forall d | 0 <= d < |s.pcs| ensures s.pcs[d] != Numbered(id) && s.pcs[d] != Fallback(id) {
      if s.pcs[d] == Numbered(id) {
        CountPositive(IsNumbered(id), s.pcs, d);
      }
      if s.pcs[d] == Fallback(id) {
        CountPositive(IsFallback(id), s.pcs, d);
      }
    }
  }

  // ---------------------------------------------------------------- the code

  /** A task and whether it carries a callable. */
  datatype CrossThreadTask = CrossThreadTask(ticket: nat, hasFn: bool)

  function HasFn(): CrossThreadTask -> bool {
    (t: CrossThreadTask) => t.hasFn
  }

  /** Part of the way through a walk over `all`: these ids visited in this order, `rest` still to go. */
  ghost predicate Walk(all: map<TaskId, CrossThreadTask>, order: seq<TaskId>, walked: seq<CrossThreadTask>,
                       rest: map<TaskId, CrossThreadTask>) {
    && |walked| == |order|
    && (forall i :: 0 <= i < |order| ==> order[i] in all && walked[i] == all[order[i]])
    && (forall i, j :: 0 <= i < j < |order| ==> order[i] != order[j])
    && rest == all - (set id | id in order)
  }

  lemma WalkStep(all: map<TaskId, CrossThreadTask>, order: seq<TaskId>, walked: seq<CrossThreadTask>,
                 rest: map<TaskId, CrossThreadTask>, id: TaskId)
    requires Walk(all, order, walked, rest) && id in rest
    ensures Walk(all, order + [id], walked + [rest[id]], rest - {id})
    ensures |rest - {id}| < |rest|
  {
    var order' := order + [id];
    assert forall x :: x in order' <==> x in order || x == id;
    assert (set x | x in order') == (set x | x in order) + {id};
    assert (rest - {id}).Keys == rest.Keys - {id};
    assert |(rest - {id}).Keys| < |rest.Keys|;
  }

  lemma WalkEnd(all: map<TaskId, CrossThreadTask>, order: seq<TaskId>, walked: seq<CrossThreadTask>, id: TaskId)
    requires Walk(all, order, walked, map[])
    ensures id in order <==> id in all
  {
    var visited := set x | x in order;
    assert (all - visited).Keys == all.Keys - visited;
    assert all.Keys - visited == {};
    assert id in all.Keys ==> id in visited || id in all.Keys - visited;
  }

  lemma WalkStart(all: map<TaskId, CrossThreadTask>)
    ensures Walk(all, [], [], all)
  {
    assert all - (set x | x in []) == all;
  }

  lemma SomeKey(m: map<TaskId, CrossThreadTask>)
    requires m != map[]
    ensures exists id :: id in m
  {
    assert m.Keys != {};
  }

  lemma {:induction false} OnlyCallables(ts: seq<CrossThreadTask>)
    ensures forall t :: t in Filter(HasFn(), ts) <==> t in ts && t.hasFn
    ensures (forall t :: t in ts ==> t.hasFn) ==> Filter(HasFn(), ts) == ts
  {
    forall t ensures t in Filter(HasFn(), ts) <==> t in ts && t.hasFn {
      FilterMembers(HasFn(), ts, t);
    }
    if ts != [] {
      OnlyCallables(ts[1..]);
      assert ts[0] in ts;
    }
  }

  lemma FilterEmpty()
    ensures Filter(HasFn(), []) == []
  {
  }

  lemma FilterSnoc(ts: seq<CrossThreadTask>, t: CrossThreadTask)
    ensures Filter(HasFn(), ts + [t]) == if t.hasFn then Filter(HasFn(), ts) + [t] else Filter(HasFn(), ts)
  {
    FilterAppend(HasFn(), ts, [t]);
  }

  /** Running a batch front to back. */
  method RunAll(batch: seq<CrossThreadTask>) returns (ran: seq<CrossThreadTask>)
    ensures ran == Filter(HasFn(), batch)
  {
    ran := [];
    var tasks := batch;
    ghost var done: seq<CrossThreadTask> := [];
    while tasks != []
      invariant ran == Filter(HasFn(), done) && done + tasks == batch
      decreases |tasks|
    {
      var task := tasks[0];
      FilterAppend(HasFn(), done, [task]);
      if task.hasFn {
        ran := ran + [task];
      }
      done := done + [task];
      tasks := tasks[1..];
    }
    assert done + [] == done;
  }

  /** A valid run can be extended by an enabled step. */
  lemma Extend(s: State, run: seq<Action>, a: Action)
    requires Inv(s) && ValidRun(s, run) && Enabled(After(s, run), a)
    ensures ValidRun(s, run + [a])
    ensures After(s, run + [a]) == Next(After(s, run), a)
    ensures Inv(After(s, run + [a]))
  {
    hide Inv, Next, Enabled, ValidRun, After;
    OneStep(After(s, run), a);
    RunAppend(s, run, [a]);
    RunKeepsInv(s, run + [a]);
  }

  lemma StartRun(s: State)
    ensures ValidRun(s, []) && After(s, []) == s
  {
  }

  /** Visiting the pending tasks in this order. */
  function Visits(order: seq<TaskId>): seq<Action> {
    seq(|order|, i requires 0 <= i < |order| => RunPending(order[i]))
  }

  /** What one `process_tasks` does, step by step: the map in some order, then all that was queued. */
  function PassRun(order: seq<TaskId>, queued: nat): seq<Action> {
    Visits(order) + [TakeQueue] + Fill(queued, RunBatch)
  }

  /** A worker's event loop. `state` is the step system's view of it: the same task ids are pending and as many
      tasks are queued. Each method runs undisturbed and is shown to be the named run of that system. */
  class EventLoopThread {
    var pendingTasks: map<TaskId, CrossThreadTask>
    var taskQueue: seq<CrossThreadTask>
    var nextTaskId: TaskId
    ghost var state: State

    ghost predicate Mirrors()
      reads this
    {
      && state.pending.Keys == pendingTasks.Keys && state.nextId == nextTaskId
      && Inv(state)
    }

    ghost predicate Valid()
      reads this
    {
      Mirrors() && |state.queue| == |taskQueue| && state.batch == []
    }

    ghost predicate Ran(before: State, run: seq<Action>)
      reads this
    {
      ValidRun(before, run) && state == After(before, run)
    }

    constructor (ghost dispatchers: nat)
      ensures Valid() && pendingTasks == map[] && taskQueue == [] && state == Initial(dispatchers)
    {
      pendingTasks, taskQueue, nextTaskId := map[], [], 1;
      state := Initial(dispatchers);
      InitialInv(dispatchers);
    }

    ghost method Do(before: State, run: seq<Action>, a: Action)
      requires Inv(before) && Ran(before, run) && Enabled(state, a)
      modifies this`state
      ensures Ran(before, run + [a]) && state == Next(old(state), a) && Inv(state)
    {
      hide Inv, Next, Enabled, ValidRun, After;
      Extend(before, run, a);
      state := Next(state, a);
    }

    /** Undisturbed: a successful submit leaves the task under a fresh id; a failed one leaves no trace. */
    method PostViaMsgRing(task: CrossThreadTask, submitSucceeds: bool, ghost d: Dispatcher) returns (ok: bool)
      requires Valid() && d < |state.pcs| && state.pcs[d].Ready?
      modifies this
      ensures Valid() && ok == submitSucceeds && taskQueue == old(taskQueue)
      ensures nextTaskId == old(nextTaskId) + 1
      ensures ok ==> old(nextTaskId) !in old(pendingTasks) && pendingTasks == old(pendingTasks)[old(nextTaskId) := task]
      ensures !ok ==> pendingTasks == old(pendingTasks)
      ensures Ran(old(state), [TakeId(d), Store(d), if ok then SubmitOk(d) else SubmitFails(d)])
      ensures state.pcs == old(state.pcs)[d := if ok then Ready else Fallback(old(nextTaskId))]
    {
      hide Inv, ValidRun, After;
      ghost var before := state;
      StartRun(before);
      UnusedId(before);
      var id := nextTaskId;
      nextTaskId := nextTaskId + 1;
      Do(before, [], TakeId(d));
      pendingTasks := pendingTasks[id := task];
      Do(before, [] + [TakeId(d)], Store(d));
      if submitSucceeds {
        Do(before, [] + [TakeId(d)] + [Store(d)], SubmitOk(d));
        assert [] + [TakeId(d)] + [Store(d)] + [SubmitOk(d)] == [TakeId(d), Store(d), SubmitOk(d)];
        return true;
      }
      pendingTasks := pendingTasks - {id};
      Do(before, [] + [TakeId(d)] + [Store(d)], SubmitFails(d));
      assert [] + [TakeId(d)] + [Store(d)] + [SubmitFails(d)] == [TakeId(d), Store(d), SubmitFails(d)];
      return false;
    }

    /** A post to the queue, of a task of its own or of one whose submit failed. */
    method Post(task: CrossThreadTask, ghost a: Action)
      requires Valid() && (a.PostDirect? || a.PostFallback?) && Enabled(state, a)
      modifies this
      ensures Valid() && pendingTasks == old(pendingTasks) && nextTaskId == old(nextTaskId)
      ensures taskQueue == old(taskQueue) + [task]
      ensures Ran(old(state), [a]) && state == Next(old(state), a)
    {
      hide Inv, ValidRun, After;
      StartRun(state);
      taskQueue := taskQueue + [task];
      Do(state, [], a);
      assert [] + [a] == [a];
    }

    /** The end of `dispatch_to_worker`: MSG_RING, or else the queue. */
    method Dispatch(task: CrossThreadTask, submitSucceeds: bool, ghost d: Dispatcher) returns (ghost run: seq<Action>)
      requires Valid() && d < |state.pcs| && state.pcs[d].Ready?
      modifies this
      ensures Valid() && Ran(old(state), run) && state.pcs == old(state.pcs)
      ensures submitSucceeds ==>
                && pendingTasks == old(pendingTasks)[old(nextTaskId) := task] && old(nextTaskId) !in old(pendingTasks)
                && taskQueue == old(taskQueue)
      ensures !submitSucceeds ==> pendingTasks == old(pendingTasks) && taskQueue == old(taskQueue) + [task]
    {
      hide Inv, ValidRun, After;
      ghost var before := state;
      var ok := PostViaMsgRing(task, submitSucceeds, d);
      run := [TakeId(d), Store(d), if ok then SubmitOk(d) else SubmitFails(d)];
      if !ok {
        Post(task, PostFallback(d));
        RunAppend(before, run, [PostFallback(d)]);
        run := run + [PostFallback(d)];
      }
      assert state.pcs == before.pcs;
    }

    /** Runs every pending task once, in the map's own order, then the queued ones in post order; tasks
        without a callable are dropped. `order` is the order the map was walked in. */
    method ProcessTasks() returns (ran: seq<CrossThreadTask>, ghost order: seq<TaskId>, ghost walked: seq<CrossThreadTask>)
      requires Valid()
      modifies this
      ensures Valid() && pendingTasks == map[] && taskQueue == []
      ensures Walk(old(pendingTasks), order, walked, map[])
      ensures forall id :: id in order <==> id in old(pendingTasks)
      ensures ran == Filter(HasFn(), walked + old(taskQueue))
      ensures forall t :: t in ran <==> t in walked + old(taskQueue) && t.hasFn
      ensures (forall t :: t in walked + old(taskQueue) ==> t.hasFn) ==> ran == walked + old(taskQueue)
      ensures Ran(old(state), PassRun(order, |old(taskQueue)|))
    {
      hide Walk, Inv, ValidRun, After, Filter;
      ghost var before := state;
      ran, order, walked := RunPendingTasks();
      var tasks := taskQueue;
      taskQueue := [];
      Do(before, Visits(order), TakeQueue);
      var rest := RunAll(tasks);
      ghost var middle := state;
      BatchRuns(middle);
      RunKeepsInv(middle, Fill(|tasks|, RunBatch));
      RunAppend(before, Visits(order) + [TakeQueue], Fill(|tasks|, RunBatch));
      state := middle.(batch := [], ranQueue := middle.ranQueue + middle.batch);
      FilterAppend(HasFn(), walked, tasks);
      ran := ran + rest;
      OnlyCallables(walked + tasks);
      forall id ensures id in order <==> id in old(pendingTasks) {
        WalkEnd(old(pendingTasks), order, walked, id);
      }
    }

    /** The walk over the pending map, each entry run and erased. */
    method RunPendingTasks() returns (ran: seq<CrossThreadTask>, ghost order: seq<TaskId>, ghost walked: seq<CrossThreadTask>)
      requires Valid()
      modifies this`pendingTasks, this`state
      ensures Valid() && pendingTasks == map[]
      ensures Walk(old(pendingTasks), order, walked, map[])
      ensures ran == Filter(HasFn(), walked)
      ensures Ran(old(state), Visits(order)) && state.queue == old(state.queue)
    {
      hide Walk, Filter, Inv, ValidRun, After;
      ran, order, walked := [], [], [];
      WalkStart(pendingTasks);
      FilterEmpty();
      while pendingTasks != map[]
        invariant Walk(old(pendingTasks), order, walked, pendingTasks)
        invariant ran == Filter(HasFn(), walked) && state == old(state)
        decreases |pendingTasks|
      {
        SomeKey(pendingTasks);
        var id :| id in pendingTasks;
        var task := pendingTasks[id];
        FilterSnoc(walked, task);
        if task.hasFn {
          ran := ran + [task];
        }
        WalkStep(old(pendingTasks), order, walked, pendingTasks, id);
        walked, order := walked + [task], order + [id];
        pendingTasks := pendingTasks - {id};
      }
      WalkIsRun(state, old(pendingTasks), order, walked);
      state := After(state, Visits(order));
    }
  }

  /** Walking the whole map is the run that visits its entries in that order. */
  lemma WalkIsRun(s: State, all: map<TaskId, CrossThreadTask>, order: seq<TaskId>, walked: seq<CrossThreadTask>)
    requires Inv(s) && s.pending.Keys == all.Keys && Walk(all, order, walked, map[])
    ensures ValidRun(s, Visits(order))
    ensures var s' := After(s, Visits(order));
            Inv(s') && s'.pending == map[] && s'.queue == s.queue && s'.batch == s.batch && s'.nextId == s.nextId
  {
    hide Inv, After, ValidRun;
    forall i | 0 <= i < |order| ensures order[i] in s.pending {
      assert order[i] in all.Keys;
    }
    VisitsRun(s, order);
    RunKeepsInv(s, Visits(order));
    var s' := After(s, Visits(order));
    forall id ensures id !in s'.pending {
      WalkEnd(all, order, walked, id);
      assert id in s.pending.Keys ==> id in order;
    }
  }

  lemma {:induction false} VisitsRun(s: State, order: seq<TaskId>)
    requires forall i :: 0 <= i < |order| ==> order[i] in s.pending
    requires forall i, j :: 0 <= i < j < |order| ==> order[i] != order[j]
    ensures ValidRun(s, Visits(order))
    ensures var s' := After(s, Visits(order));
            && s'.queue == s.queue && s'.batch == s.batch && s'.nextId == s.nextId
            && forall id :: id in s'.pending ==> id in s.pending && id !in order
    decreases |order|
  {
    if order == [] {
      assert Visits(order) == [];
    } else {
      var s1 := Next(s, RunPending(order[0]));
      assert Visits(order)[0] == RunPending(order[0]) && Visits(order)[1..] == Visits(order[1..]);
      VisitsRun(s1, order[1..]);
      assert forall id :: id in order ==> id == order[0] || id in order[1..];
    }
  }

  lemma UnusedId(s: State)
    requires Inv(s)
    ensures s.nextId !in s.pending
  {
    assert Tracked(s, s.nextId);
  }

  const WORKER_RANGE := 0x1_0000_0000  // uint32_t

  /** After k of n round-robin dispatches from counter value c: what each worker has been given and what it is
      still to get add up to its share. */
  ghost predicate Given(start: seq<nat>, counts: seq<nat>, c: nat, k: nat, n: nat) {
    && 2 <= |counts| == |start| && k <= n
    && var table := LoadBalancer.Identity(|counts| - 1);
    forall i :: 1 <= i < |counts| ==>
      counts[i] + LoadBalancer.Picks(table, WORKER_RANGE, c + k, n - k, i - 1) ==
        start[i] + LoadBalancer.Picks(table, WORKER_RANGE, c, n, i - 1)
  }

  lemma GivenNone(start: seq<nat>, c: nat, n: nat)
    requires |start| >= 2
    ensures Given(start, start, c, 0, n)
  {
  }

  lemma GiveOne(start: seq<nat>, counts: seq<nat>, c: nat, k: nat, n: nat, worker: nat)
    requires Given(start, counts, c, k, n) && k < n
    requires worker == (c + k) % WORKER_RANGE % (|counts| - 1)
    ensures worker + 1 < |counts|
    ensures Given(start, counts[worker + 1 := counts[worker + 1] + 1], c, k + 1, n)
  {
    hide LoadBalancer.Picks;
    var table, counts' := LoadBalancer.Identity(|counts| - 1), counts[worker + 1 := counts[worker + 1] + 1];
    forall i | 1 <= i < |counts|
      ensures counts'[i] + LoadBalancer.Picks(table, WORKER_RANGE, c + (k + 1), n - (k + 1), i - 1) ==
                start[i] + LoadBalancer.Picks(table, WORKER_RANGE, c, n, i - 1)
    {
      LoadBalancer.PickStep(table, WORKER_RANGE, c + k, n - k, i - 1);
      assert counts[i] + LoadBalancer.Picks(table, WORKER_RANGE, c + k, n - k, i - 1) ==
             start[i] + LoadBalancer.Picks(table, WORKER_RANGE, c, n, i - 1);
    }
  }

  lemma GivenAll(start: seq<nat>, counts: seq<nat>, c: nat, n: nat, i: nat)
    requires Given(start, counts, c, n, n) && 1 <= i < |counts|
    ensures counts[i] == start[i] + LoadBalancer.Picks(LoadBalancer.Identity(|counts| - 1), WORKER_RANGE, c, n, i - 1)
  {
    LoadBalancer.NoPicks(LoadBalancer.Identity(|counts| - 1), WORKER_RANGE, c + n, i - 1);
  }

  /** The load-balancing half of the pool: connection counts of the main thread and of the workers. */
  class EventLoopPool {
    var connectionCounts: seq<nat>  // index 0 is the main thread
    var nextWorker: nat             // uint32_t

    predicate Valid()
      reads this
    {
      2 <= |connectionCounts| <= WORKER_RANGE && nextWorker < WORKER_RANGE
    }

    constructor (workers: nat)
      requires 1 <= workers < WORKER_RANGE
      ensures Valid() && connectionCounts == Fill(workers + 1, 0) && nextWorker == 0
    {
      connectionCounts := Fill(workers + 1, 0);
      nextWorker := 0;
    }

    method SelectLeastConnections() returns (best: nat)
      requires Valid()
      ensures IsFirstMin(connectionCounts[1..], best) && best + 1 < |connectionCounts|
      ensures forall i :: 1 <= i < |connectionCounts| ==> connectionCounts[best + 1] <= connectionCounts[i]
      ensures forall i :: 1 <= i <= best ==> connectionCounts[best + 1] < connectionCounts[i]
    {
      best := 0;
      var bestCount := connectionCounts[1];
      var i := 1;
      while i < |connectionCounts|
        invariant 1 <= i <= |connectionCounts| && best < |connectionCounts| - 1 && (best == 0 || best + 1 < i)
        invariant bestCount == connectionCounts[best + 1]
        invariant forall j :: 0 <= j < i - 1 ==> bestCount <= connectionCounts[1..][j]
        invariant forall j :: 0 <= j < best ==> bestCount < connectionCounts[1..][j]
      {
        var count := connectionCounts[i];
        if count < bestCount {
          bestCount := count;
          best := i - 1;
        }
        i := i + 1;
      }
    }

    method SelectRoundRobin() returns (worker: nat)
      requires Valid()
      modifies this`nextWorker
      ensures Valid() && worker == old(nextWorker) % (|connectionCounts| - 1)
      ensures nextWorker == (old(nextWorker) + 1) % 0x1_0000_0000
    {
      worker := nextWorker % (|connectionCounts| - 1);
      nextWorker := (nextWorker + 1) % WORKER_RANGE;
    }

    /** n round-robin dispatches with no connection closing. If the counter does not wrap meanwhile, or the
        number of workers divides its range, every worker gets between floor(n/w) and ceil(n/w) of them. */
    method DispatchRoundRobin(n: nat)
      requires Valid()
      modifies this
      ensures Valid() && |connectionCounts| == |old(connectionCounts)| && connectionCounts[0] == old(connectionCounts)[0]
      ensures Sum(connectionCounts) == Sum(old(connectionCounts)) + n
      ensures var w := |connectionCounts| - 1;
              old(nextWorker) + n <= WORKER_RANGE || WORKER_RANGE % w == 0 ==>
                forall i :: 1 <= i <= w ==>
                  old(connectionCounts)[i] + n / w <= connectionCounts[i] <= old(connectionCounts)[i] + CeilDiv(n, w)
    {
      hide CeilDiv, Sum, Given;
      ghost var start, w, c := connectionCounts, |connectionCounts| - 1, nextWorker;
      GivenNone(start, c, n);
      var k := 0;
      while k < n
        invariant 0 <= k <= n && Valid() && nextWorker == (c + k) % WORKER_RANGE
        invariant |connectionCounts| == |start| && connectionCounts[0] == start[0]
        invariant Given(start, connectionCounts, c, k, n) && Sum(connectionCounts) == Sum(start) + k
      {
        var worker := SelectRoundRobin();
        LoadBalancer.NextCount(c + k, WORKER_RANGE);
        GiveOne(start, connectionCounts, c, k, n, worker);
        SumUpdate(connectionCounts, worker + 1, connectionCounts[worker + 1] + 1);
        connectionCounts := connectionCounts[worker + 1 := connectionCounts[worker + 1] + 1];
        k := k + 1;
      }
      forall i | 1 <= i <= w && (c + n <= WORKER_RANGE || WORKER_RANGE % w == 0)
        ensures start[i] + n / w <= connectionCounts[i] <= start[i] + CeilDiv(n, w)
      {
        GivenAll(start, connectionCounts, c, n, i);
        LoadBalancer.RoundRobinWindow(w, WORKER_RANGE, c, n, i - 1);
      }
    }

    /** n least-connections dispatches with no connection closing: the greedy bound holds for the workers. */
    method DispatchLeastConnections(n: nat)
      requires Valid()
      modifies this`connectionCounts
      ensures Valid() && |connectionCounts| == |old(connectionCounts)| && connectionCounts[0] == old(connectionCounts)[0]
      ensures connectionCounts[1..] == Greedy(old(connectionCounts)[1..], n)
      ensures var before := old(connectionCounts)[1..];
              Longest(connectionCounts[1..]) <= Max(Longest(before), CeilDiv(Sum(before) + n, |before|))
      ensures forall d: nat :: d >= 1 && Within(old(connectionCounts)[1..], d) ==> Within(connectionCounts[1..], d)
    {
      hide Longest, FirstMin, Sum;
      ghost var before := connectionCounts[1..];
      var k := 0;
      while k < n
        invariant 0 <= k <= n && Valid() && |connectionCounts| == |old(connectionCounts)|
        invariant connectionCounts[0] == old(connectionCounts)[0]
        invariant Greedy(connectionCounts[1..], n - k) == Greedy(before, n)
      {
        var worker := SelectLeastConnections();
        FirstMinUnique(connectionCounts[1..], worker, FirstMin(connectionCounts[1..]));
        ghost var loads := connectionCounts[1..];
        connectionCounts := connectionCounts[worker + 1 := connectionCounts[worker + 1] + 1];
        assert connectionCounts[1..] == loads[worker := loads[worker] + 1];
        k := k + 1;
      }
      GreedyBound(before, n);
      forall d: nat | d >= 1 && Within(before, d) ensures Within(Greedy(before, n), d) {
        GreedyKeepsWithin(before, n, d);
      }
    }
  }
}
