/** The work-stealing scheduler of coroutine/scheduler.hpp. */
module Scheduler {
  import opened Sequences
  import opened Modular
  import opened Balance

  type Task = nat  // a coroutine handle
  type Worker = nat

  datatype Hand = Empty | Holding(task: Task)

  /** Per-thread queues, what each worker has taken but not yet resumed, and the history. */
  datatype State = State(queues: seq<seq<Task>>, hands: seq<Hand>, scheduled: seq<Task>, resumed: seq<Task>)

  /** One locked queue operation, or one resume. `Push` may go to any queue: with an explicit thread id
      it is the caller's choice, otherwise the scan reads queue sizes that other threads may be changing. */
  datatype Action =
    | Push(task: Task, queue: nat)
    | PopOwn(w: Worker)
    | Steal(w: Worker, victim: nat)
    | Resume(w: Worker)

  predicate Enabled(s: State, a: Action) {
    |s.hands| == |s.queues| &&
    match a
    case Push(_, q) => q < |s.queues|
    case PopOwn(w) => w < |s.queues| && s.hands[w].Empty? && s.queues[w] != []
    case Steal(w, v) => w < |s.queues| && v < |s.queues| && v != w && s.hands[w].Empty? && s.queues[v] != []
    case Resume(w) => w < |s.queues| && s.hands[w].Holding?
  }

  function Next(s: State, a: Action): State
    requires Enabled(s, a)
  {
    match a
    case Push(task, q) =>
      s.(queues := s.queues[q := s.queues[q] + [task]], scheduled := s.scheduled + [task])
    case PopOwn(w) =>
      var q := s.queues[w];
      s.(queues := s.queues[w := q[..|q| - 1]], hands := s.hands[w := Holding(q[|q| - 1])])
    case Steal(w, v) =>
      var q := s.queues[v];
      s.(queues := s.queues[v := q[1..]], hands := s.hands[w := Holding(q[0])])
    case Resume(w) =>
      s.(hands := s.hands[w := Empty], resumed := s.resumed + [s.hands[w].task])
  }

  predicate ValidRun(s: State, run: seq<Action>)
    decreases |run|
  {
    run == [] || (Enabled(s, run[0]) && ValidRun(Next(s, run[0]), run[1..]))
  }

  function After(s: State, run: seq<Action>): State
    requires ValidRun(s, run)
    decreases |run|
  {
    if run == [] then s else After(Next(s, run[0]), run[1..])
  }

  function Initial(threads: nat): State {
    State(Fill<seq<Task>>(threads, []), Fill(threads, Empty), [], [])
  }

  // ---------------------------------------------------------------- conservation

  function Holds(x: Task): Hand -> bool { (h: Hand) => h.Holding? && h.task == x }

  function InQueues(queues: seq<seq<Task>>, x: Task): nat {
    if queues == [] then 0 else Count(Is<Task>(x), queues[0]) + InQueues(queues[1..], x)
  }

  lemma {:induction false} InQueuesUpdate(queues: seq<seq<Task>>, i: nat, q: seq<Task>, x: Task)
    requires i < |queues|
    ensures InQueues(queues[i := q], x) == InQueues(queues, x) - Count(Is<Task>(x), queues[i]) + Count(Is<Task>(x), q)
  {
    if i == 0 {
      assert queues[i := q][1..] == queues[1..];
    } else {
      assert queues[i := q][1..] == queues[1..][i - 1 := q];
      InQueuesUpdate(queues[1..], i - 1, q, x);
    }
  }

  /** Every scheduled handle is pending, in a worker's hand, or resumed, as often as it was scheduled. */
  ghost predicate Conserved(s: State) {
    && |s.hands| == |s.queues|
    && (forall x: Task :: Count(Is<Task>(x), s.scheduled) ==
          InQueues(s.queues, x) + Count(Holds(x), s.hands) + Count(Is<Task>(x), s.resumed))
  }

  lemma StepConserves(s: State, a: Action)
    requires Conserved(s) && Enabled(s, a)
    ensures Conserved(Next(s, a))
  {
    hide Count, InQueues;
    var s' := Next(s, a);
    forall x: Task
      ensures Count(Is<Task>(x), s'.scheduled) ==
                InQueues(s'.queues, x) + Count(Holds(x), s'.hands) + Count(Is<Task>(x), s'.resumed)
    {
      match a
      case Push(task, q) =>
        InQueuesUpdate(s.queues, q, s'.queues[q], x);
        CountSnoc<Task>(Is<Task>(x), s.queues[q], task);
        CountSnoc<Task>(Is<Task>(x), s.scheduled, task);
      case PopOwn(w) =>
        var q := s.queues[w];
        InQueuesUpdate(s.queues, w, s'.queues[w], x);
        CountSnoc<Task>(Is<Task>(x), q[..|q| - 1], q[|q| - 1]);
        assert q == q[..|q| - 1] + [q[|q| - 1]];
        CountUpdate(Holds(x), s.hands, w, s'.hands[w]);
      case Steal(w, v) =>
        var q := s.queues[v];
        InQueuesUpdate(s.queues, v, s'.queues[v], x);
        CountHead(Is<Task>(x), q);
        CountUpdate(Holds(x), s.hands, w, s'.hands[w]);
      case Resume(w) =>
        CountSnoc<Task>(Is<Task>(x), s.resumed, s.hands[w].task);
        CountUpdate(Holds(x), s.hands, w, Empty);
    }
  }

  lemma CountHead(p: Task -> bool, q: seq<Task>)
    requires q != []
    ensures Count(p, q) == (if p(q[0]) then 1 else 0) + Count(p, q[1..])
  {
  }

  lemma {:induction false} RunConserves(s: State, run: seq<Action>)
    requires Conserved(s) && ValidRun(s, run)
    ensures Conserved(After(s, run))
    decreases |run|
  {
    hide Conserved, Next, Enabled;
    if run != [] {
      StepConserves(s, run[0]);
      RunConserves(Next(s, run[0]), run[1..]);
    }
  }

  lemma {:induction false} EmptyQueues(threads: nat, x: Task)
    ensures InQueues(Fill<seq<Task>>(threads, []), x) == 0
    decreases threads
  {
    if threads > 0 {
      assert Fill<seq<Task>>(threads, [])[1..] == Fill<seq<Task>>(threads - 1, []);
      EmptyQueues(threads - 1, x);
    }
  }

  /** Under every interleaving of schedule, local pop and steal, no handle is lost and none is duplicated. */
  lemma NoTaskLostOrDuplicated(threads: nat, run: seq<Action>)
    requires ValidRun(Initial(threads), run)
    ensures Conserved(After(Initial(threads), run))
  {
    forall x: Task ensures InQueues(Initial(threads).queues, x) == 0 && Count(Holds(x), Initial(threads).hands) == 0 {
      EmptyQueues(threads, x);
      CountFill(Holds(x), threads, Empty);
    }
    RunConserves(Initial(threads), run);
  }

  // ---------------------------------------------------------------- which task is taken

  ghost function Greatest(xs: set<nat>): (m: nat)
    requires xs != {}
    ensures m in xs && forall x :: x in xs ==> x <= m
  {
    var x :| x in xs;
    assert forall y :: y in xs ==> y == x || y in xs - {x};
    if xs - {x} == {} then x
    else
      var m := Greatest(xs - {x});
      if x > m then x else m
  }

  ghost function Least(xs: set<nat>): (m: nat)
    requires xs != {}
    ensures m in xs && forall x :: x in xs ==> m <= x
  {
    var x :| x in xs;
    assert forall y :: y in xs ==> y == x || y in xs - {x};
    if xs - {x} == {} then x
    else
      var m := Least(xs - {x});
      if x < m then x else m
  }

  /** The specification: which of all tasks scheduled so far, by number, wait where. There are no queues in it
      and no order but that of scheduling. */
  datatype Ages = Ages(waiting: seq<set<nat>>, hands: seq<Hand>, scheduled: seq<Task>, resumed: seq<Task>)

  ghost predicate AgesValid(r: Ages) {
    |r.hands| == |r.waiting| && forall q, n :: 0 <= q < |r.waiting| && n in r.waiting[q] ==> n < |r.scheduled|
  }

  ghost predicate AgesEnabled(r: Ages, a: Action) {
    AgesValid(r) &&
    match a
    case Push(_, q) => q < |r.waiting|
    case PopOwn(w) => w < |r.waiting| && r.hands[w].Empty? && r.waiting[w] != {}
    case Steal(w, v) => w < |r.waiting| && v < |r.waiting| && v != w && r.hands[w].Empty? && r.waiting[v] != {}
    case Resume(w) => w < |r.waiting| && r.hands[w].Holding?
  }

  /** A worker takes from its own queue the task scheduled last of those waiting there, and from another's the
      one scheduled first. */
  ghost function AgesNext(r: Ages, a: Action): Ages
    requires AgesEnabled(r, a)
  {
    match a
    case Push(task, q) =>
      r.(waiting := r.waiting[q := r.waiting[q] + {|r.scheduled|}], scheduled := r.scheduled + [task])
    case PopOwn(w) =>
      var n := Greatest(r.waiting[w]);
      r.(waiting := r.waiting[w := r.waiting[w] - {n}], hands := r.hands[w := Holding(r.scheduled[n])])
    case Steal(w, v) =>
      var n := Least(r.waiting[v]);
      r.(waiting := r.waiting[v := r.waiting[v] - {n}], hands := r.hands[w := Holding(r.scheduled[n])])
    case Resume(w) =>
      r.(hands := r.hands[w := Empty], resumed := r.resumed + [r.hands[w].task])
  }

  ghost predicate AgesRun(r: Ages, run: seq<Action>)
    decreases |run|
  {
    run == [] || (AgesEnabled(r, run[0]) && AgesRun(AgesNext(r, run[0]), run[1..]))
  }

  ghost function AgesAfter(r: Ages, run: seq<Action>): Ages
    requires AgesRun(r, run)
    decreases |run|
  {
    if run == [] then r else AgesAfter(AgesNext(r, run[0]), run[1..])
  }

  ghost function AgesInitial(threads: nat): Ages {
    Ages(Fill(threads, {}), Fill(threads, Empty), [], [])
  }

  /** The queue holds the waiting tasks in the order they were scheduled; `ns` are their numbers. */
  ghost predicate InAgeOrder(q: seq<Task>, waiting: set<nat>, ns: seq<nat>, scheduled: seq<Task>) {
    && |ns| == |q|
    && (forall i :: 0 <= i < |ns| ==> ns[i] < |scheduled| && q[i] == scheduled[ns[i]])
    && (forall i, j :: 0 <= i < j < |ns| ==> ns[i] < ns[j])
    && waiting == set n | n in ns
  }

  ghost predicate Follows(s: State, r: Ages, nss: seq<seq<nat>>) {
    && |s.queues| == |s.hands| == |r.waiting| == |nss|
    && r.hands == s.hands && r.scheduled == s.scheduled && r.resumed == s.resumed
    && forall q :: 0 <= q < |nss| ==> InAgeOrder(s.queues[q], r.waiting[q], nss[q], s.scheduled)
  }

  lemma PushKeepsOrder(q: seq<Task>, waiting: set<nat>, ns: seq<nat>, scheduled: seq<Task>, task: Task)
    requires InAgeOrder(q, waiting, ns, scheduled)
    ensures InAgeOrder(q + [task], waiting + {|scheduled|}, ns + [|scheduled|], scheduled + [task])
    ensures InAgeOrder(q, waiting, ns, scheduled + [task])
  {
    var ns' := ns + [|scheduled|];
    assert forall n :: n in ns' <==> n in ns || n == |scheduled|;
  }

  lemma PopTakesGreatest(q: seq<Task>, waiting: set<nat>, ns: seq<nat>, scheduled: seq<Task>)
    requires InAgeOrder(q, waiting, ns, scheduled) && q != []
    ensures |ns| == |q|
    ensures waiting != {} && Greatest(waiting) < |scheduled| && q[|q| - 1] == scheduled[Greatest(waiting)]
    ensures InAgeOrder(q[..|q| - 1], waiting - {Greatest(waiting)}, ns[..|q| - 1], scheduled)
  {
    var last := |ns| - 1;
    assert ns[last] in ns;
    assert ns[last] in waiting;
    var m := Greatest(waiting);
    assert m in ns;
    assert ns == ns[..last] + [ns[last]];
    assert m == ns[last];
    var front := ns[..last];
    assert forall n :: n in ns <==> n in front || n == ns[last];
    assert ns[last] !in front;
    assert waiting - {m} == set n | n in front;
  }

  lemma StealTakesLeast(q: seq<Task>, waiting: set<nat>, ns: seq<nat>, scheduled: seq<Task>)
    requires InAgeOrder(q, waiting, ns, scheduled) && q != []
    ensures |ns| == |q|
    ensures waiting != {} && Least(waiting) < |scheduled| && q[0] == scheduled[Least(waiting)]
    ensures InAgeOrder(q[1..], waiting - {Least(waiting)}, ns[1..], scheduled)
  {
    assert ns[0] in ns;
    assert ns[0] in waiting;
    var m := Least(waiting);
    assert m in ns;
    assert ns == [ns[0]] + ns[1..];
    assert m == ns[0];
    var rest := ns[1..];
    assert forall n :: n in ns <==> n in rest || n == ns[0];
    assert ns[0] !in rest;
    assert waiting - {m} == set n | n in rest;
  }

  lemma FollowsValid(s: State, r: Ages, nss: seq<seq<nat>>)
    requires Follows(s, r, nss)
    ensures AgesValid(r)
  {
    forall q, n | 0 <= q < |r.waiting| && n in r.waiting[q] ensures n < |r.scheduled| {
      assert InAgeOrder(s.queues[q], r.waiting[q], nss[q], s.scheduled);
      assert n in nss[q];
    }
  }

  /** Every step of the queues is the same step of the specification. */
  lemma StepFollows(s: State, r: Ages, nss: seq<seq<nat>>, a: Action) returns (nss': seq<seq<nat>>)
    requires Follows(s, r, nss) && Enabled(s, a)
    ensures AgesEnabled(r, a) && Follows(Next(s, a), AgesNext(r, a), nss')
  {
    hide InAgeOrder, AgesValid;
    FollowsValid(s, r, nss);
    match a
    case Push(task, q) =>
      nss' := nss[q := nss[q] + [|s.scheduled|]];
      forall i | 0 <= i < |nss|
        ensures InAgeOrder(Next(s, a).queues[i], AgesNext(r, a).waiting[i], nss'[i], s.scheduled + [task])
      {
        PushKeepsOrder(s.queues[i], r.waiting[i], nss[i], s.scheduled, task);
      }
    case PopOwn(w) =>
      PopTakesGreatest(s.queues[w], r.waiting[w], nss[w], s.scheduled);
      nss' := nss[w := nss[w][..|s.queues[w]| - 1]];
    case Steal(w, v) =>
      StealTakesLeast(s.queues[v], r.waiting[v], nss[v], s.scheduled);
      nss' := nss[v := nss[v][1..]];
    case Resume(w) => nss' := nss;
  }

  lemma {:induction false} RunFollows(s: State, r: Ages, nss: seq<seq<nat>>, run: seq<Action>)
      returns (nss': seq<seq<nat>>)
    requires Follows(s, r, nss) && ValidRun(s, run)
    ensures AgesRun(r, run) && Follows(After(s, run), AgesAfter(r, run), nss')
    decreases |run|
  {
    hide Follows, Enabled, Next, AgesEnabled, AgesNext;
    nss' := nss;
    if run != [] {
      nss' := StepFollows(s, r, nss, run[0]);
      nss' := RunFollows(Next(s, run[0]), AgesNext(r, run[0]), nss', run[1..]);
    }
  }

  /** Over every run the tasks in the workers' hands and the tasks resumed, in order, are those of the
      specification: a local pop takes the task most recently scheduled of those waiting in that queue, and a
      steal the one scheduled longest ago. */
  lemma TakenByAge(threads: nat, run: seq<Action>)
    requires ValidRun(Initial(threads), run)
    ensures AgesRun(AgesInitial(threads), run)
    ensures var s, r := After(Initial(threads), run), AgesAfter(AgesInitial(threads), run);
            s.hands == r.hands && s.scheduled == r.scheduled && s.resumed == r.resumed
  {
    var nss := Fill<seq<nat>>(threads, []);
    forall q | 0 <= q < threads ensures InAgeOrder([], {}, nss[q], []) {
      assert (set n | n in nss[q]) == {};
    }
    var _ := RunFollows(Initial(threads), AgesInitial(threads), nss, run);
  }

  /** Schedule these tasks on worker w's queue; then w takes and resumes as many. */
  function PushesThenPops(w: Worker, tasks: seq<Task>): seq<Action> {
    if tasks == [] then []
    else [Push(tasks[0], w)] + PushesThenPops(w, tasks[1..]) + [PopOwn(w), Resume(w)]
  }

  lemma {:induction false} RunAppend(s: State, a: seq<Action>, b: seq<Action>)
    requires ValidRun(s, a) && ValidRun(After(s, a), b)
    ensures ValidRun(s, a + b) && After(s, a + b) == After(After(s, a), b)
    decreases |a|
  {
    hide Enabled, Next;
    if a == [] {
      assert a + b == b;
    } else {
      assert (a + b)[0] == a[0] && (a + b)[1..] == a[1..] + b;
      RunAppend(Next(s, a[0]), a[1..], b);
    }
  }

  lemma OneStep(s: State, a: Action)
    requires Enabled(s, a)
    ensures ValidRun(s, [a]) && After(s, [a]) == Next(s, a)
  {
    assert [a][1..] == [];
    assert ValidRun(Next(s, a), []) && After(Next(s, a), []) == Next(s, a);
  }

  function Reversed(tasks: seq<Task>): (r: seq<Task>)
    ensures |r| == |tasks| && forall i :: 0 <= i < |r| ==> r[i] == tasks[|tasks| - 1 - i]
  {
    seq(|tasks|, i requires 0 <= i < |tasks| => tasks[|tasks| - 1 - i])
  }

  /** Last in, first out, for a worker nobody steals from: whatever its queue held, the tasks scheduled on it are
      resumed in reverse order and the queue is as before. */
  lemma {:induction false} LastInFirstOut(s: State, w: Worker, tasks: seq<Task>)
    requires |s.hands| == |s.queues| && w < |s.queues| && s.hands[w].Empty?
    ensures ValidRun(s, PushesThenPops(w, tasks))
    ensures After(s, PushesThenPops(w, tasks)) ==
              s.(scheduled := s.scheduled + tasks, resumed := s.resumed + Reversed(tasks))
    decreases |tasks|
  {
    hide ValidRun, After;
    if tasks == [] {
      NoSteps(s);
      assert s.scheduled + [] == s.scheduled && s.resumed + [] == s.resumed && Reversed(tasks) == [];
      assert s.(scheduled := s.scheduled + tasks, resumed := s.resumed + Reversed(tasks)) == s;
    } else {
      var t, rest := tasks[0], tasks[1..];
      var inner := PushesThenPops(w, rest);
      var s1 := Next(s, Push(t, w));
      OneStep(s, Push(t, w));
      LastInFirstOut(s1, w, rest);
      var s2 := After(s1, inner);
      OneStep(s2, PopOwn(w));
      var s3 := Next(s2, PopOwn(w));
      OneStep(s3, Resume(w));
      RunAppend(s2, [PopOwn(w)], [Resume(w)]);
      assert [PopOwn(w)] + [Resume(w)] == [PopOwn(w), Resume(w)];
      RunAppend(s, [Push(t, w)], inner);
      RunAppend(s, [Push(t, w)] + inner, [PopOwn(w), Resume(w)]);
      var s4 := Next(s3, Resume(w));
      assert s4.queues == s.queues && s4.hands == s.hands;
      assert s4.scheduled == s.scheduled + tasks;
      assert s4.resumed == s.resumed + Reversed(tasks);
    }
  }

  lemma NoSteps(s: State)
    ensures ValidRun(s, []) && After(s, []) == s
  {
  }

  // ---------------------------------------------------------------- draining

  function Lengths(queues: seq<seq<Task>>): (ls: seq<nat>)
    ensures |ls| == |queues|
    ensures forall i :: 0 <= i < |queues| ==> ls[i] == |queues[i]|
  {
    seq(|queues|, i requires 0 <= i < |queues| => |queues[i]|)
  }

  function PendingCount(queues: seq<seq<Task>>): nat {
    Sum(Lengths(queues))
  }

  /** The queue one pass of `worker_loop` takes from: its own, else the first other non-empty one. */
  ghost predicate IsVictim(queues: seq<seq<Task>>, w: Worker, i: nat) {
    && i < |queues| && w < |queues| && queues[i] != []
    && (i != w ==> queues[w] == [])
    && (i != w ==> forall j :: 0 <= j < i ==> j == w || queues[j] == [])
  }

  lemma {:induction false} SumZero(ls: seq<nat>)
    ensures Sum(ls) == 0 <==> forall i :: 0 <= i < |ls| ==> ls[i] == 0
  {
    if ls != [] {
      SumZero(ls[1..]);
      assert forall i :: 0 <= i < |ls[1..]| ==> ls[1..][i] == ls[i + 1];
      if forall i :: 0 <= i < |ls[1..]| ==> ls[1..][i] == 0 {
        assert forall i :: 0 < i < |ls| ==> ls[i] == ls[1..][i - 1];
      }
    }
  }

  lemma TakingOneDrains(queues: seq<seq<Task>>, i: nat, q: seq<Task>)
    requires i < |queues| && |q| + 1 == |queues[i]|
    ensures PendingCount(queues[i := q]) == PendingCount(queues) - 1
  {
    assert Lengths(queues[i := q]) == Lengths(queues)[i := |q|];
    SumUpdate(Lengths(queues), i, |q|);
  }

  /** What a pass does: nothing iff nothing is pending, else resume one task (the newest of its own queue,
      or the oldest of another's). */
  datatype Pass = Idle | Resumed(task: Task, queues: seq<seq<Task>>)

  function PassOf(queues: seq<seq<Task>>, w: Worker, i: nat): Pass
    requires w < |queues| && IsVictim(queues, w, i)
  {
    var q := queues[i];
    if i == w then Resumed(q[|q| - 1], queues[w := q[..|q| - 1]])
    else Resumed(q[0], queues[i := q[1..]])
  }

  /** A pass that resumes a task takes exactly that occurrence out of the queues. */
  lemma PassTakesOne(queues: seq<seq<Task>>, w: Worker, i: nat)
    requires w < |queues| && IsVictim(queues, w, i)
    ensures var p := PassOf(queues, w, i);
            && |p.queues| == |queues|
            && PendingCount(p.queues) == PendingCount(queues) - 1
            && (forall x: Task :: InQueues(p.queues, x) == InQueues(queues, x) - (if x == p.task then 1 else 0))
  {
    var p := PassOf(queues, w, i);
    var q := queues[i];
    TakingOneDrains(queues, i, p.queues[i]);
    forall x: Task ensures InQueues(p.queues, x) == InQueues(queues, x) - (if x == p.task then 1 else 0) {
      InQueuesUpdate(queues, i, p.queues[i], x);
      if i == w {
        CountSnoc<Task>(Is<Task>(x), q[..|q| - 1], q[|q| - 1]);
        assert q == q[..|q| - 1] + [q[|q| - 1]];
      } else {
        CountHead(Is<Task>(x), q);
      }
    }
  }

  /** A worker's undisturbed pass is two steps of the concurrent system: take, then resume. */
  lemma PassIsARun(s: State, w: Worker, i: nat)
    requires |s.hands| == |s.queues| && IsVictim(s.queues, w, i) && s.hands[w].Empty?
    ensures var run := [if i == w then PopOwn(w) else Steal(w, i), Resume(w)];
            var p := PassOf(s.queues, w, i);
            && ValidRun(s, run)
            && After(s, run) == s.(queues := p.queues, resumed := s.resumed + [p.task])
  {
    var take := if i == w then PopOwn(w) else Steal(w, i);
    var run := [take, Resume(w)];
    var s1 := Next(s, take);
    var s2 := Next(s1, Resume(w));
    assert run[1..] == [Resume(w)] && [Resume(w)][1..] == [];
    assert ValidRun(s2, []);
    assert ValidRun(s1, [Resume(w)]);
    assert After(s1, [Resume(w)]) == s2;
    assert s2.hands == s.hands;
  }

  /** These queues came about by scheduling these tasks, in this order. */
  ghost predicate ScheduledInOrder(before: seq<seq<Task>>, tasks: seq<Task>, run: seq<Action>, after: seq<seq<Task>>) {
    var s := State(before, Fill(|before|, Empty), [], []);
    && |run| == |tasks| && (forall i :: 0 <= i < |run| ==> run[i].Push? && run[i].task == tasks[i])
    && ValidRun(s, run)
    && After(s, run) == State(after, Fill(|before|, Empty), tasks, [])
  }

  lemma ScheduledOneMore(before: seq<seq<Task>>, tasks: seq<Task>, run: seq<Action>, after: seq<seq<Task>>,
                         task: Task, q: nat)
    requires ScheduledInOrder(before, tasks, run, after) && q < |after| == |before|
    ensures ScheduledInOrder(before, tasks + [task], run + [Push(task, q)], after[q := after[q] + [task]])
  {
    hide ValidRun, After;
    var s := State(before, Fill(|before|, Empty), [], []);
    OneStep(After(s, run), Push(task, q));
    RunAppend(s, run, [Push(task, q)]);
  }

  lemma PlacingOneConserves(queues: seq<seq<Task>>, i: nat, tasks: seq<Task>, k: nat)
    requires i < |queues| && k < |tasks|
    ensures var queues' := queues[i := queues[i] + [tasks[k]]];
            forall x: Task :: InQueues(queues', x) + Count(Is<Task>(x), tasks[k + 1..]) ==
                                InQueues(queues, x) + Count(Is<Task>(x), tasks[k..])
  {
    hide Count, InQueues;
    assert tasks[k..][1..] == tasks[k + 1..];
    forall x: Task
      ensures InQueues(queues[i := queues[i] + [tasks[k]]], x) + Count(Is<Task>(x), tasks[k + 1..]) ==
                InQueues(queues, x) + Count(Is<Task>(x), tasks[k..])
    {
      InQueuesUpdate(queues, i, queues[i] + [tasks[k]], x);
      CountSnoc<Task>(Is<Task>(x), queues[i], tasks[k]);
      CountHead(Is<Task>(x), tasks[k..]);
    }
  }

  lemma NothingScheduled(queues: seq<seq<Task>>)
    ensures ScheduledInOrder(queues, [], [], queues)
  {
  }

  // ---------------------------------------------------------------- the code

  class Scheduler {
    const threadCount: nat
    var queues: seq<seq<Task>>

    predicate Valid()
      reads this
    {
      threadCount >= 1 && |queues| == threadCount
    }

    constructor (threads: nat)
      ensures Valid() && threadCount == (if threads > 0 then threads else 4)
      ensures queues == Fill<seq<Task>>(threadCount, [])
    {
      threadCount := if threads > 0 then threads else 4;
      new;
      queues := Fill<seq<Task>>(threadCount, []);
    }

    /** The scan for the shortest queue. */
    method ShortestQueue() returns (minIdx: nat)
      requires Valid()
      ensures IsFirstMin(Lengths(queues), minIdx) && minIdx < threadCount
      ensures forall j :: 0 <= j < threadCount ==> |queues[minIdx]| <= |queues[j]|
      ensures forall j :: 0 <= j < minIdx ==> |queues[minIdx]| < |queues[j]|
    {
      minIdx := 0;
      var minSize := |queues[0]|;
      var i := 1;
      while i < threadCount
        invariant 1 <= i <= threadCount && minIdx < i && minSize == |queues[minIdx]|
        invariant forall j :: 0 <= j < i ==> minSize <= |queues[j]|
        invariant forall j :: 0 <= j < minIdx ==> minSize < |queues[j]|
      {
        var size := |queues[i]|;
        if size < minSize {
          minSize := size;
          minIdx := i;
        }
        i := i + 1;
      }
    }

    /** A thread id in range names the queue; any other value asks for the shortest. */
    method Schedule(task: Task, threadId: int)
      requires Valid()
      modifies this
      ensures Valid()
      ensures var i := if 0 <= threadId < threadCount then threadId else FirstMin(Lengths(old(queues)));
              queues == old(queues)[i := old(queues)[i] + [task]]
    {
      if 0 <= threadId < threadCount {
        queues := queues[threadId := queues[threadId] + [task]];
      } else {
        var i := ShortestQueue();
        FirstMinUnique(Lengths(queues), i, FirstMin(Lengths(queues)));
        queues := queues[i := queues[i] + [task]];
      }
    }

    /** With no pops meanwhile, a batch is spread greedily: the longest queue ends at most the larger of
        what it was and the average rounded up, and queues within d >= 1 of each other stay within d. The
        tasks are scheduled in the order of the batch. */
    method ScheduleBatch(tasks: seq<Task>) returns (ghost run: seq<Action>)
      requires Valid()
      modifies this
      ensures ScheduledInOrder(old(queues), tasks, run, queues)
      ensures Valid() && Lengths(queues) == Greedy(Lengths(old(queues)), |tasks|)
      ensures forall x: Task :: InQueues(queues, x) == InQueues(old(queues), x) + Count(Is<Task>(x), tasks)
      ensures PendingCount(queues) == PendingCount(old(queues)) + |tasks|
      ensures Longest(Lengths(queues)) <=
                Max(Longest(Lengths(old(queues))), CeilDiv(PendingCount(old(queues)) + |tasks|, threadCount))
      ensures forall d: nat :: d >= 1 && Within(Lengths(old(queues)), d) ==> Within(Lengths(queues), d)
    {
      hide Longest, FirstMin, Count, InQueues, Sum, ScheduledInOrder, Within, CeilDiv, IsFirstMin;
      ghost var start := Lengths(queues);
      run := [];
      NothingScheduled(queues);
      var k := 0;
      while k < |tasks|
        invariant 0 <= k <= |tasks| && Valid() && ScheduledInOrder(old(queues), tasks[..k], run, queues)
        invariant Greedy(Lengths(queues), |tasks| - k) == Greedy(start, |tasks|)
        invariant forall x: Task :: InQueues(queues, x) + Count(Is<Task>(x), tasks[k..]) == InQueues(old(queues), x) + Count(Is<Task>(x), tasks)
      {
        ghost var before := queues;
        ghost var i := FirstMin(Lengths(before));
        Schedule(tasks[k], -1);
        ScheduledOneMore(old(queues), tasks[..k], run, before, tasks[k], i);
        assert tasks[..k + 1] == tasks[..k] + [tasks[k]];
        run := run + [Push(tasks[k], i)];
        assert Lengths(queues) == Lengths(before)[i := Lengths(before)[i] + 1];
        PlacingOneConserves(before, i, tasks, k);
        k := k + 1;
      }
      assert tasks[..k] == tasks;
      EmptyTail(tasks);
      GreedyBound(start, |tasks|);
      forall d: nat | d >= 1 && Within(start, d) ensures Within(Greedy(start, |tasks|), d) {
        GreedyKeepsWithin(start, |tasks|, d);
      }
    }

    /** `pending_count`: the sum over all queues. */
    method CountPending() returns (total: nat)
      requires Valid()
      ensures total == PendingCount(queues)
    {
      total := 0;
      var i := 0;
      while i < |queues|
        invariant 0 <= i <= |queues|
        invariant total + Sum(Lengths(queues)[i..]) == PendingCount(queues)
      {
        assert Lengths(queues)[i..][1..] == Lengths(queues)[i + 1..];
        total := total + |queues[i]|;
        i := i + 1;
      }
    }

    /** One pass of `worker_loop`, with no other actor: it finds a task whenever any queue has one. It resumes
        the newest task of its own queue, or else the oldest of the first other queue that has one. */
    method WorkerPass(w: Worker) returns (p: Pass)
      requires Valid() && w < threadCount
      modifies this
      ensures Valid()
      ensures p.Idle? <==> PendingCount(old(queues)) == 0
      ensures p.Idle? ==> queues == old(queues)
      ensures old(queues)[w] != [] ==>
                && p.Resumed? && p.task == old(queues)[w][|old(queues)[w]| - 1]
                && queues == old(queues)[w := old(queues)[w][..|old(queues)[w]| - 1]]
      ensures old(queues)[w] == [] && p.Resumed? ==>
                exists i :: 0 <= i < threadCount && old(queues)[i] != []
                         && (forall j :: 0 <= j < i ==> old(queues)[j] == [])
                         && p.task == old(queues)[i][0] && queues == old(queues)[i := old(queues)[i][1..]]
      ensures p.Resumed? ==>
                && queues == p.queues
                && (exists i: nat :: IsVictim(old(queues), w, i) && p == PassOf(old(queues), w, i))
                && PendingCount(queues) == PendingCount(old(queues)) - 1
                && (forall x: Task :: InQueues(queues, x) == InQueues(old(queues), x) - (if x == p.task then 1 else 0))
    {
      hide InQueues, Sum, Count;
      SumZero(Lengths(queues));
      if queues[w] != [] {
        PassTakesOne(queues, w, w);
        p := PassOf(queues, w, w);
        assert Lengths(queues)[w] != 0;
        queues := p.queues;
        return;
      }
      var i := 0;
      while i < threadCount
        invariant 0 <= i <= threadCount && queues == old(queues)
        invariant forall j :: 0 <= j < i ==> queues[j] == []
      {
        if i != w && queues[i] != [] {
          PassTakesOne(queues, w, i);
          p := PassOf(queues, w, i);
          assert Lengths(queues)[i] != 0;
          queues := p.queues;
          return;
        }
        i := i + 1;
      }
      p := Idle;
    }

    /** Passes by any workers, in any order, drain the queues: each pass resumes one task until none is
        left, so `pending_count` measures the work that remains. */
    method Drain(ws: seq<Worker>) returns (resumed: seq<Task>)
      requires Valid() && forall i :: 0 <= i < |ws| ==> ws[i] < threadCount
      modifies this
      ensures Valid()
      ensures |resumed| == (if |ws| <= PendingCount(old(queues)) then |ws| else PendingCount(old(queues)))
      ensures PendingCount(queues) == PendingCount(old(queues)) - |resumed|
      ensures forall x: Task :: Count(Is<Task>(x), resumed) + InQueues(queues, x) == InQueues(old(queues), x)
    {
      hide InQueues, Sum, IsVictim, PassOf;
      resumed := [];
      var k := 0;
      while k < |ws|
        invariant 0 <= k <= |ws| && Valid()
        invariant |resumed| == (if k <= PendingCount(old(queues)) then k else PendingCount(old(queues)))
        invariant PendingCount(queues) == PendingCount(old(queues)) - |resumed|
        invariant forall x: Task :: Count(Is<Task>(x), resumed) + InQueues(queues, x) == InQueues(old(queues), x)
      {
        var p := WorkerPass(ws[k]);
        if p.Resumed? {
          forall x: Task ensures Count(Is<Task>(x), resumed + [p.task]) == Count(Is<Task>(x), resumed) + (if x == p.task then 1 else 0) {
            CountSnoc<Task>(Is<Task>(x), resumed, p.task);
          }
          resumed := resumed + [p.task];
        }
        k := k + 1;
      }
    }
  }

  lemma EmptyTail(tasks: seq<Task>)
    ensures forall x: Task :: Count(Is<Task>(x), tasks[|tasks|..]) == 0
  {
  }
}
