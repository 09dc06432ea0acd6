/** Whole runs of the timing wheel: any interleaving of the three steps of `add_timer`,
    `cancel_timer` and `tick` behaves as the naive timer does, and every timer fires exactly
    once, at the tick its delay names, unless it was cancelled first. */
module WheelRuns {
  import opened Sequences
  import opened WheelModel
  import opened Modular

  datatype Event =
    | TakeId(delayMs: nat, callback: Callback)  // add_timer takes the next id
    | ReadClock(id: TimerId)                    // and fixes the expire tick, without the lock
    | Insert(id: TimerId)                       // and enters the timer, under the lock
    | Cancel(id: TimerId)
    | Tick

  datatype Output =
    | TookId(id: TimerId)
    | ClockRead(ok: bool)
    | Inserted(ok: bool)
    | Cancelled(ok: bool)
    | Fired(tick: nat, timers: seq<(TimerId, Callback)>)

  /** How far a call of `add_timer` has come. */
  datatype Adding = Numbered(delayMs: nat, callback: Callback) | Timed(r: Reservation)

  datatype System = System(wheel: Wheel, adding: map<TimerId, Adding>)
  datatype Reference = Reference(naive: Naive, adding: map<TimerId, Adding>)

  function EntryLabel(): Entry -> (TimerId, Callback) {
    (e: Entry) => (e.id, e.callback)
  }

  function TimerLabel(): Timer -> (TimerId, Callback) {
    (t: Timer) => (t.id, t.callback)
  }

  /** The expire tick is computed from the clock as it stands when it is read. */
  function ReadAt(now: nat, tickMs: nat, a: Adding): Adding
    requires a.Numbered? && tickMs >= 1
  {
    Timed(Reservation(ExpireTick(now, a.delayMs, tickMs), a.callback))
  }

  /** The code. A clock read or an insertion for an id that is not at that point is not a step of the code and
      does nothing. */
  function Step(s: System, ev: Event): (r: (System, Output))
    requires Shaped(s.wheel)
    ensures Shaped(r.0.wheel)
  {
    var w := s.wheel;
    match ev
    case TakeId(delay, cb) =>
      (System(w.(nextId := w.nextId + 1), s.adding[w.nextId := Numbered(delay, cb)]), TookId(w.nextId))
    case ReadClock(id) =>
      if id in s.adding && s.adding[id].Numbered? then
        (s.(adding := s.adding[id := ReadAt(w.now, w.tickMs, s.adding[id])]), ClockRead(true))
      else (s, ClockRead(false))
    case Insert(id) =>
      if id in s.adding && s.adding[id].Timed? then
        (System(InsertEntry(w, id, s.adding[id].r), s.adding - {id}), Inserted(true))
      else (s, Inserted(false))
    case Cancel(id) =>
      var (w', ok) := CancelEntry(w, id);
      (s.(wheel := w'), Cancelled(ok))
    case Tick =>
      var (w', fired) := TickWheel(w);
      (s.(wheel := w'), Fired(w.now, Map(EntryLabel(), fired)))
  }

  /** The specification: a list of timers, each with the tick it is due at. */
  function NaiveStep(s: Reference, ev: Event): (Reference, Output)
    requires s.naive.slots >= 1 && s.naive.tickMs >= 1
  {
    var n := s.naive;
    match ev
    case TakeId(delay, cb) =>
      (Reference(n.(nextId := n.nextId + 1), s.adding[n.nextId := Numbered(delay, cb)]), TookId(n.nextId))
    case ReadClock(id) =>
      if id in s.adding && s.adding[id].Numbered? then
        (s.(adding := s.adding[id := ReadAt(n.now, n.tickMs, s.adding[id])]), ClockRead(true))
      else (s, ClockRead(false))
    case Insert(id) =>
      if id in s.adding && s.adding[id].Timed? then
        var r := s.adding[id].r;
        var t := Timer(id, Due(n.slots, r.expire, n.now), r.callback);
        (Reference(n.(timers := n.timers + [t]), s.adding - {id}), Inserted(true))
      else (s, Inserted(false))
    case Cancel(id) =>
      (s.(naive := n.(timers := Filter(OtherTimer(id), n.timers))),
       Cancelled(id in TimerIds(n.timers)))
    case Tick =>
      (s.(naive := n.(timers := Filter(NotDueAt(n.now), n.timers), now := n.now + 1)),
       Fired(n.now, Map(TimerLabel(), Filter(DueAt(n.now), n.timers))))
  }

  function Run(s: System, evs: seq<Event>): (r: (System, seq<Output>))
    requires Shaped(s.wheel)
    ensures Shaped(r.0.wheel)
    decreases |evs|
  {
    if evs == [] then (s, [])
    else
      var (s1, o) := Step(s, evs[0]);
      var (s2, os) := Run(s1, evs[1..]);
      (s2, [o] + os)
  }

  function NaiveRun(s: Reference, evs: seq<Event>): (Reference, seq<Output>)
    requires s.naive.slots >= 1 && s.naive.tickMs >= 1
    decreases |evs|
  {
    if evs == [] then (s, [])
    else
      var (s1, o) := NaiveStep(s, evs[0]);
      var (s2, os) := NaiveRun(s1, evs[1..]);
      (s2, [o] + os)
  }

  function Start(slots: nat, tickMs: nat): System {
    System(Empty(slots, tickMs), map[])
  }

  function NaiveStart(slots: nat, tickMs: nat): Reference {
    Reference(Naive(slots, tickMs, 0, 1, []), map[])
  }

  // ---------------------------------------------------------------- refinement

  ghost predicate Simulates(s: System, live: seq<Entry>, r: Reference) {
    && Refines(s.wheel, live, r.naive)
    && s.adding == r.adding
    && IdsUsed(live, s.adding, s.wheel.nextId)
  }

  /** Ids are handed out in order, and no id is both live and still being added. */
  ghost predicate IdsUsed(live: seq<Entry>, adding: map<TimerId, Adding>, nextId: TimerId) {
    && (forall e :: e in live ==> e.id < nextId && e.id !in adding)
    && (forall id :: id in adding ==> id < nextId)
  }

  lemma FilterKeepsIdsUsed(p: Entry -> bool, live: seq<Entry>, adding: map<TimerId, Adding>, nextId: TimerId)
    requires IdsUsed(live, adding, nextId)
    ensures IdsUsed(Filter(p, live), adding, nextId)
  {
    forall e | e in Filter(p, live) ensures e in live {
      FilterMembers(p, live, e);
    }
  }

  lemma StartSimulates(slots: nat, tickMs: nat)
    requires slots >= 1 && tickMs >= 1
    ensures Simulates(Start(slots, tickMs), [], NaiveStart(slots, tickMs))
  {
  }

  lemma InsertSimulates(s: System, live: seq<Entry>, r: Reference, id: TimerId)
    requires Simulates(s, live, r) && id in s.adding && s.adding[id].Timed?
    ensures var res := s.adding[id].r;
            Simulates(Step(s, Insert(id)).0, live + [Entry(id, res.expire, res.callback)],
                      NaiveStep(r, Insert(id)).0)
  {
    hide IdsUsed, InsertEntry, Due, SlotOf, Filter;
    var w, res := s.wheel, s.adding[id].r;
    var e := Entry(id, res.expire, res.callback);
    InsertKeepsIdsUsed(live, s.adding, w.nextId, e);
    InsertFrame(w, id, res);
    InsertRepresents(w, live, id, res);
    var f := AsTimer(w.slots, w.now);
    assert Map(f, live + [e]) == Map(f, live) + [f(e)];
  }

  lemma InsertKeepsIdsUsed(live: seq<Entry>, adding: map<TimerId, Adding>, nextId: TimerId, e: Entry)
    requires IdsUsed(live, adding, nextId) && e.id in adding
    ensures e.id !in Ids(live)
    ensures IdsUsed(live + [e], adding - {e.id}, nextId)
  {
  }

  lemma InsertFrame(w: Wheel, id: TimerId, r: Reservation)
    requires Shaped(w)
    ensures var w' := InsertEntry(w, id, r); w' == w.(wheels := w'.wheels, timerSlot := w'.timerSlot)
  {
  }

  lemma CancelSimulates(s: System, live: seq<Entry>, r: Reference, id: TimerId)
    requires Simulates(s, live, r)
    ensures Simulates(Step(s, Cancel(id)).0, Filter(NotId(id), live), NaiveStep(r, Cancel(id)).0)
    ensures Step(s, Cancel(id)).1 == NaiveStep(r, Cancel(id)).1
  {
    hide SlotOf, Due, Filter, Map, Ids;
    CancelRepresents(s.wheel, live, id);
    SameIds(s.wheel, live, r.naive);
    FilterMap(OtherTimer(id), NotId(id), AsTimer(s.wheel.slots, s.wheel.now), live);
    FilterKeepsIdsUsed(NotId(id), live, s.adding, s.wheel.nextId);
  }

  lemma TickSimulates(s: System, live: seq<Entry>, r: Reference)
    requires Simulates(s, live, r)
    ensures Simulates(Step(s, Tick).0, Filter(Survives(s.wheel.slots, s.wheel.now), live),
                      NaiveStep(r, Tick).0)
  {
    hide IdsUsed, TickWheel, Filter, Map, Due, AsTimer, SlotOf;
    var live' := Filter(Survives(s.wheel.slots, s.wheel.now), live);
    var w' := TickWheel(s.wheel).0;
    TickFrame(s.wheel);
    assert Represents(w', live') by {
      TickRepresents(s.wheel, live);
    }
    assert Map(AsTimer(w'.slots, w'.now), live') == Filter(NotDueAt(r.naive.now), r.naive.timers) by {
      TickRefines(s.wheel, live);
    }
    FilterKeepsIdsUsed(Survives(s.wheel.slots, s.wheel.now), live, s.adding, s.wheel.nextId);
  }

  lemma TickFrame(w: Wheel)
    requires Shaped(w)
    ensures var w' := TickWheel(w).0;
            w' == w.(wheels := w'.wheels, timerSlot := w'.timerSlot, now := w.now + 1)
  {
  }

  lemma TickSameOutput(w: Wheel, live: seq<Entry>)
    requires Represents(w, live)
    ensures Map(EntryLabel(), TickWheel(w).1) ==
              Map(TimerLabel(), Filter(DueAt(w.now), Map(AsTimer(w.slots, w.now), live)))
  {
    hide SlotOf, Due;
    var fired := TickWheel(w).1;
    assert Map(AsTimer(w.slots, w.now), fired) == Filter(DueAt(w.now), Map(AsTimer(w.slots, w.now), live)) by {
      TickRefines(w, live);
    }
    assert Map(TimerLabel(), Map(AsTimer(w.slots, w.now), fired)) == Map(EntryLabel(), fired);
  }

  /** Every step of the code is the same step of the specification, with the same output. */
  lemma StepSimulates(s: System, live: seq<Entry>, r: Reference, ev: Event) returns (live': seq<Entry>)
    requires Simulates(s, live, r)
    ensures Simulates(Step(s, ev).0, live', NaiveStep(r, ev).0)
    ensures Step(s, ev).1 == NaiveStep(r, ev).1
  {
    live' := live;
    match ev
    case TakeId(_, _) =>
    case ReadClock(_) =>
    case Insert(id) =>
      if id in s.adding && s.adding[id].Timed? {
        InsertSimulates(s, live, r, id);
        live' := live + [Entry(id, s.adding[id].r.expire, s.adding[id].r.callback)];
      }
    case Cancel(id) =>
      CancelSimulates(s, live, r, id);
      live' := Filter(NotId(id), live);
    case Tick =>
      TickSimulates(s, live, r);
      TickSameOutput(s.wheel, live);
      live' := Filter(Survives(s.wheel.slots, s.wheel.now), live);
  }

  lemma {:induction false} RunSimulates(s: System, live: seq<Entry>, r: Reference, evs: seq<Event>)
      returns (live': seq<Entry>)
    requires Simulates(s, live, r)
    ensures Simulates(Run(s, evs).0, live', NaiveRun(r, evs).0)
    ensures Run(s, evs).1 == NaiveRun(r, evs).1
    decreases |evs|
  {
    live' := live;
    if evs != [] {
      live' := StepSimulates(s, live, r, evs[0]);
      live' := RunSimulates(Step(s, evs[0]).0, live', NaiveStep(r, evs[0]).0, evs[1..]);
    }
  }

  /** The timing wheel refines the naive timer: on every run the ids handed out, the results of
      cancel, and the callbacks fired at each tick, in order, are the same. */
  lemma WheelRefinesNaive(slots: nat, tickMs: nat, evs: seq<Event>)
    requires slots >= 1 && tickMs >= 1
    ensures Run(Start(slots, tickMs), evs).1 == NaiveRun(NaiveStart(slots, tickMs), evs).1
  {
    StartSimulates(slots, tickMs);
    var _ := RunSimulates(Start(slots, tickMs), [], NaiveStart(slots, tickMs), evs);
  }

  /** In every reachable state the slots and the id index describe one and the same set of timers. */
  lemma ReachableIsRepresented(slots: nat, tickMs: nat, evs: seq<Event>)
    requires slots >= 1 && tickMs >= 1
    ensures exists live :: Represents(Run(Start(slots, tickMs), evs).0.wheel, live)
  {
    StartSimulates(slots, tickMs);
    var live := RunSimulates(Start(slots, tickMs), [], NaiveStart(slots, tickMs), evs);
    assert Represents(Run(Start(slots, tickMs), evs).0.wheel, live);
  }

  /** How many callbacks a run has fired. */
  function TotalFired(os: seq<Output>): nat {
    if os == [] then 0 else (if os[0].Fired? then |os[0].timers| else 0) + TotalFired(os[1..])
  }

  /** `advance(n)` is n ticks: it leaves the wheel they leave, and its total is the number of callbacks they
      fire. */
  lemma {:induction false} AdvanceIsTicks(s: System, n: nat)
    requires Shaped(s.wheel)
    ensures var (s', os) := Run(s, Fill(n, Tick));
            AdvanceWheel(s.wheel, n) == (s'.wheel, TotalFired(os)) && s'.adding == s.adding
    decreases n
  {
    hide TickWheel;
    var evs := Fill(n, Tick);
    if n == 0 {
      assert evs == [];
    } else {
      var (s1, o) := Step(s, Tick);
      assert evs[1..] == Fill(n - 1, Tick);
      AdvanceIsTicks(s1, n - 1);
      var os := Run(s1, evs[1..]).1;
      assert ([o] + os)[1..] == os;
      assert |o.timers| == |TickWheel(s.wheel).1|;
    }
  }

  // ---------------------------------------------------------------- exactly once

  function HasId(id: TimerId): ((TimerId, Callback)) -> bool {
    (p: (TimerId, Callback)) => p.0 == id
  }

  function TimesIn(o: Output, id: TimerId): nat {
    if o.Fired? then Count(HasId(id), o.timers) else 0
  }

  /** How often a timer's callback runs in a run. */
  function Times(os: seq<Output>, id: TimerId): nat {
    if os == [] then 0 else TimesIn(os[0], id) + Times(os[1..], id)
  }

  ghost predicate FiresOnlyAt(os: seq<Output>, id: TimerId, tick: nat, cb: Callback) {
    forall o :: o in os && o.Fired? ==>
      forall p :: p in o.timers && p.0 == id ==> o.tick == tick && p.1 == cb
  }

  /** Ticks that happen before the first attempt to cancel the timer. */
  function TicksBeforeCancel(evs: seq<Event>, id: TimerId): nat {
    if evs == [] || evs[0] == Cancel(id) then 0
    else (if evs[0] == Tick then 1 else 0) + TicksBeforeCancel(evs[1..], id)
  }

  ghost predicate Wellformed(r: Reference) {
    var n := r.naive;
    && n.slots >= 1 && n.tickMs >= 1
    && DistinctTimers(n.timers)
    && (forall t :: t in n.timers ==> t.id < n.nextId && t.id !in r.adding && t.due >= n.now)
    && (forall id :: id in r.adding ==> id < n.nextId)
  }

  ghost predicate DistinctTimers(ts: seq<Timer>) {
    forall i, j :: 0 <= i < j < |ts| ==> ts[i].id != ts[j].id
  }

  lemma FilterKeepsTimers(p: Timer -> bool, ts: seq<Timer>)
    requires DistinctTimers(ts)
    ensures DistinctTimers(Filter(p, ts))
    ensures forall t :: t in Filter(p, ts) <==> t in ts && p(t)
  {
    forall t ensures t in Filter(p, ts) <==> t in ts && p(t) {
      FilterMembers(p, ts, t);
    }
    FilterKeepsDistinctTimers(p, ts);
  }

  lemma {:induction false} FilterKeepsDistinctTimers(p: Timer -> bool, ts: seq<Timer>)
    requires DistinctTimers(ts)
    ensures DistinctTimers(Filter(p, ts))
  {
    if ts != [] {
      var rest := Filter(p, ts[1..]);
      FilterKeepsDistinctTimers(p, ts[1..]);
      forall k | 0 <= k < |rest| ensures rest[k].id != ts[0].id {
        FilterMembers(p, ts[1..], rest[k]);
        var j :| 0 <= j < |ts[1..]| && ts[1..][j] == rest[k];
        assert ts[j + 1] == rest[k];
      }
    }
  }

  lemma StepKeepsWellformed(r: Reference, ev: Event)
    requires Wellformed(r)
    ensures Wellformed(NaiveStep(r, ev).0)
  {
    var n := r.naive;
    match ev
    case TakeId(_, _) =>
    case ReadClock(_) =>
    case Insert(id) =>
      if id in r.adding && r.adding[id].Timed? {
        DueIsFirst(n.slots, r.adding[id].r.expire, n.now);
      }
    case Cancel(id) => FilterKeepsTimers(OtherTimer(id), n.timers);
    case Tick => FilterKeepsTimers(NotDueAt(n.now), n.timers);
  }

  lemma {:induction false} RunKeepsWellformed(r: Reference, evs: seq<Event>)
    requires Wellformed(r)
    ensures Wellformed(NaiveRun(r, evs).0)
    decreases |evs|
  {
    if evs != [] {
      StepKeepsWellformed(r, evs[0]);
      RunKeepsWellformed(NaiveStep(r, evs[0]).0, evs[1..]);
    }
  }

  /** How often one tick fires an id: once if a timer with that id is due, else not at all. */
  lemma {:induction false} FiringsInTick(ts: seq<Timer>, now: nat, id: TimerId)
    requires DistinctTimers(ts)
    ensures Count(HasId(id), Map(TimerLabel(), Filter(DueAt(now), ts))) ==
              if exists t :: t in ts && t.id == id && t.due == now then 1 else 0
  {
    if ts != [] {
      var rest := ts[1..];
      assert forall i :: 0 <= i < |rest| ==> rest[i] == ts[i + 1];
      FiringsInTick(rest, now, id);
      assert forall t :: t in ts <==> t == ts[0] || t in rest;
      var fired, firedRest := Filter(DueAt(now), ts), Filter(DueAt(now), rest);
      if ts[0].due == now {
        assert fired == [ts[0]] + firedRest;
        assert Map(TimerLabel(), fired) == [TimerLabel()(ts[0])] + Map(TimerLabel(), firedRest);
        assert ([TimerLabel()(ts[0])] + Map(TimerLabel(), firedRest))[1..] == Map(TimerLabel(), firedRest);
        if ts[0].id == id {
          assert forall t :: t in rest ==> t.id != id;
        }
      } else {
        assert fired == firedRest;
      }
    }
  }

  lemma {:induction false} DeadNeverFires(r: Reference, evs: seq<Event>, id: TimerId)
    requires Wellformed(r)
    requires id < r.naive.nextId && id !in TimerIds(r.naive.timers) && id !in r.adding
    ensures Times(NaiveRun(r, evs).1, id) == 0
    decreases |evs|
  {
    if evs != [] {
      var (r1, o) := NaiveStep(r, evs[0]);
      StepKeepsWellformed(r, evs[0]);
      StepKeepsDead(r, evs[0], id);
      DeadNeverFires(r1, evs[1..], id);
    }
  }

  lemma StepKeepsDead(r: Reference, ev: Event, id: TimerId)
    requires Wellformed(r)
    requires id < r.naive.nextId && id !in TimerIds(r.naive.timers) && id !in r.adding
    ensures var (r1, o) := NaiveStep(r, ev);
            id < r1.naive.nextId && id !in TimerIds(r1.naive.timers) && id !in r1.adding && TimesIn(o, id) == 0
  {
    var n := r.naive;
    match ev
    case TakeId(_, _) =>
    case ReadClock(_) =>
    case Insert(_) =>
    case Cancel(other) => FilterKeepsTimers(OtherTimer(other), n.timers);
    case Tick =>
      FilterKeepsTimers(NotDueAt(n.now), n.timers);
      FiringsInTick(n.timers, n.now, id);
  }

  /** A live timer fires exactly once, at its due tick, if that tick comes before any attempt to
      cancel it, and otherwise never. */
  lemma {:induction false} LiveFiresOnce(r: Reference, evs: seq<Event>, t: Timer)
    requires Wellformed(r) && t in r.naive.timers
    ensures var os := NaiveRun(r, evs).1;
            && Times(os, t.id) == (if TicksBeforeCancel(evs, t.id) > t.due - r.naive.now then 1 else 0)
            && FiresOnlyAt(os, t.id, t.due, t.callback)
    decreases |evs|
  {
    if evs != [] {
      var n := r.naive;
      var (r1, o) := NaiveStep(r, evs[0]);
      StepKeepsWellformed(r, evs[0]);
      var os1 := NaiveRun(r1, evs[1..]).1;
      LiveStep(r, evs[0], t);
      if t in r1.naive.timers {
        LiveFiresOnce(r1, evs[1..], t);
      } else {
        DeadNeverFires(r1, evs[1..], t.id);
        NeverMeansNowhere(os1, t.id, t.due, t.callback);
      }
      assert NaiveRun(r, evs).1 == [o] + os1;
    }
  }

  lemma NeverMeansNowhere(os: seq<Output>, id: TimerId, tick: nat, cb: Callback)
    requires Times(os, id) == 0
    ensures FiresOnlyAt(os, id, tick, cb)
  {
    if os != [] {
      NeverMeansNowhere(os[1..], id, tick, cb);
      if os[0].Fired? {
        forall p | p in os[0].timers ensures p.0 != id {
          CountZero(os[0].timers, id, p);
        }
      }
    }
  }

  lemma CountZero(ps: seq<(TimerId, Callback)>, id: TimerId, p: (TimerId, Callback))
    requires Count(HasId(id), ps) == 0 && p in ps
    ensures p.0 != id
  {
    if p != ps[0] {
      CountZero(ps[1..], id, p);
    }
  }

  /** One step of a live timer: it stays, is cancelled, or fires because it is due now. */
  lemma LiveStep(r: Reference, ev: Event, t: Timer)
    requires Wellformed(r) && t in r.naive.timers
    ensures var (r1, o) := NaiveStep(r, ev);
            var fires := ev == Tick && t.due == r.naive.now;
            && TimesIn(o, t.id) == (if fires then 1 else 0)
            && FiresOnlyAt([o], t.id, t.due, t.callback)
            && (ev == Cancel(t.id) || fires ==>
                  t.id < r1.naive.nextId && t.id !in TimerIds(r1.naive.timers) && t.id !in r1.adding)
            && (ev != Cancel(t.id) && !fires ==> t in r1.naive.timers)
  {
    var n := r.naive;
    match ev
    case TakeId(_, _) =>
    case ReadClock(_) =>
    case Insert(_) =>
    case Cancel(id) => FilterKeepsTimers(OtherTimer(id), n.timers);
    case Tick =>
      FilterKeepsTimers(NotDueAt(n.now), n.timers);
      FiringsInTick(n.timers, n.now, t.id);
      FiredLabels(n.timers, n.now, t);
  }

  lemma FiredLabels(ts: seq<Timer>, now: nat, t: Timer)
    requires DistinctTimers(ts)
    requires t in ts
    ensures forall p :: p in Map(TimerLabel(), Filter(DueAt(now), ts)) && p.0 == t.id ==>
              now == t.due && p.1 == t.callback
  {
    var fired := Filter(DueAt(now), ts);
    forall p | p in Map(TimerLabel(), fired) && p.0 == t.id
      ensures now == t.due && p.1 == t.callback
    {
      var i :| 0 <= i < |fired| && TimerLabel()(fired[i]) == p;
      FilterMembers(DueAt(now), ts, fired[i]);
      assert fired[i] == t;
    }
  }

  /** Until its next step, a call of `add_timer` stays where it is and its timer does not fire. */
  lemma {:induction false} AddingIsSilent(r: Reference, evs: seq<Event>, id: TimerId)
    requires Wellformed(r) && id in r.adding
    requires (if r.adding[id].Numbered? then ReadClock(id) else Insert(id)) !in evs
    ensures var (r', os) := NaiveRun(r, evs);
            && Times(os, id) == 0
            && id in r'.adding && r'.adding[id] == r.adding[id]
    decreases |evs|
  {
    if evs != [] {
      var (r1, o) := NaiveStep(r, evs[0]);
      StepKeepsWellformed(r, evs[0]);
      var step := if r.adding[id].Numbered? then ReadClock(id) else Insert(id);
      assert step !in evs[1..];
      assert evs[0] != step;
      if evs[0] == Tick {
        FiringsInTick(r.naive.timers, r.naive.now, id);
      }
      AddingIsSilent(r1, evs[1..], id);
    }
  }

  lemma {:induction false} RunAppend(s: System, a: seq<Event>, b: seq<Event>)
    requires Shaped(s.wheel)
    ensures Run(s, a + b).0 == Run(Run(s, a).0, b).0
    ensures Run(s, a + b).1 == Run(s, a).1 + Run(Run(s, a).0, b).1
    decreases |a|
  {
    if a == [] {
      assert a + b == b;
    } else {
      assert (a + b)[1..] == a[1..] + b;
      RunAppend(Step(s, a[0]).0, a[1..], b);
    }
  }

  lemma SimulatesWellformed(s: System, live: seq<Entry>, r: Reference)
    requires Simulates(s, live, r)
    ensures Wellformed(r)
  {
    forall t | t in r.naive.timers
      ensures t.id < r.naive.nextId && t.id !in r.adding && t.due >= r.naive.now
    {
      TimersNotOverdue(s.wheel, live, t);
      SameIds(s.wheel, live, r.naive);
      assert t.id in TimerIds(r.naive.timers);
    }
  }

  /** The wheel, with `add_timer` split into its three steps. In any run, a timer that took its id after
      `before`, whose expire tick was computed after `early` more events and which was inserted after
      `between` more fires at the first tick T >= max(expire tick, tick at insertion) with T congruent to the
      expire tick modulo the number of slots: exactly once if that tick comes before any attempt to
      cancel it, else never. It does not fire before its insertion. */
  lemma SplitAddFiresExactlyOnce(slots: nat, tickMs: nat, before: seq<Event>, delayMs: nat, cb: Callback,
                                 early: seq<Event>, between: seq<Event>, after: seq<Event>)
    requires slots >= 1 && tickMs >= 1
    requires ReadClock(Run(Start(slots, tickMs), before).0.wheel.nextId) !in early
    requires Insert(Run(Start(slots, tickMs), before).0.wheel.nextId) !in between
    ensures var s0 := Run(Start(slots, tickMs), before).0;
            var id := s0.wheel.nextId;
            var (s1, o1) := Run(s0, [TakeId(delayMs, cb)] + early);
            var (s2, o2) := Run(s1, [ReadClock(id)] + between);
            var os := Run(s2, [Insert(id)] + after).1;
            var expire, at := ExpireTick(s1.wheel.now, delayMs, tickMs), s2.wheel.now;
            var due := Due(slots, expire, at);
            && Times(o1, id) == 0 && Times(o2, id) == 0
            && Times(os, id) == (if TicksBeforeCancel(after, id) > due - at then 1 else 0)
            && FiresOnlyAt(os, id, due, cb)
  {
    var start, nstart := Start(slots, tickMs), NaiveStart(slots, tickMs);
    StartSimulates(slots, tickMs);
    var live := RunSimulates(start, [], nstart, before);
    var s0, r0 := Run(start, before).0, NaiveRun(nstart, before).0;
    RunKeepsSettings(start, before);
    SplitAddFrom(s0, live, r0, delayMs, cb, early, between, after);
  }

  lemma SplitAddFrom(s0: System, live: seq<Entry>, r0: Reference, delayMs: nat, cb: Callback,
                     early: seq<Event>, between: seq<Event>, after: seq<Event>)
    requires Simulates(s0, live, r0)
    requires ReadClock(s0.wheel.nextId) !in early && Insert(s0.wheel.nextId) !in between
    ensures var id := s0.wheel.nextId;
            var (s1, o1) := Run(s0, [TakeId(delayMs, cb)] + early);
            var (s2, o2) := Run(s1, [ReadClock(id)] + between);
            var os := Run(s2, [Insert(id)] + after).1;
            var due := Due(s0.wheel.slots, ExpireTick(s1.wheel.now, delayMs, s0.wheel.tickMs), s2.wheel.now);
            && Times(o1, id) == 0 && Times(o2, id) == 0
            && Times(os, id) == (if TicksBeforeCancel(after, id) > due - s2.wheel.now then 1 else 0)
            && FiresOnlyAt(os, id, due, cb)
  {
    hide Due, SlotOf, Run, NaiveRun, Times, FiresOnlyAt, Filter, Map, IdsUsed, TicksBeforeCancel, ExpireTick;
    var id := s0.wheel.nextId;
    var first, second := [TakeId(delayMs, cb)] + early, [ReadClock(id)] + between;
    var live1 := RunSimulates(s0, live, r0, first);
    var live2 := RunSimulates(Run(s0, first).0, live1, NaiveRun(r0, first).0, second);
    var s2, r2 := Run(Run(s0, first).0, second).0, NaiveRun(NaiveRun(r0, first).0, second).0;
    var _ := RunSimulates(s2, live2, r2, [Insert(id)] + after);
    SimulatesWellformed(s0, live, r0);
    NaiveSplitAdd(r0, delayMs, cb, early, between, after);
  }

  lemma NaiveSplitAdd(r0: Reference, delayMs: nat, cb: Callback, early: seq<Event>, between: seq<Event>, after: seq<Event>)
    requires Wellformed(r0)
    requires ReadClock(r0.naive.nextId) !in early && Insert(r0.naive.nextId) !in between
    ensures var id := r0.naive.nextId;
            var (r1, o1) := NaiveRun(r0, [TakeId(delayMs, cb)] + early);
            && r1.naive.slots == r0.naive.slots && r1.naive.tickMs == r0.naive.tickMs
            && var (r2, o2) := NaiveRun(r1, [ReadClock(id)] + between);
            && r2.naive.slots == r0.naive.slots && r2.naive.tickMs == r0.naive.tickMs
            && var os := NaiveRun(r2, [Insert(id)] + after).1;
            var due := Due(r0.naive.slots, ExpireTick(r1.naive.now, delayMs, r0.naive.tickMs), r2.naive.now);
            && Times(o1, id) == 0 && Times(o2, id) == 0
            && Times(os, id) == (if TicksBeforeCancel(after, id) > due - r2.naive.now then 1 else 0)
            && FiresOnlyAt(os, id, due, cb)
  {
    hide Due, Times, FiresOnlyAt, ExpireTick, TicksBeforeCancel, NaiveRun, Wellformed;
    var id := r0.naive.nextId;
    assert r0.naive.slots >= 1 && r0.naive.tickMs >= 1 by { SettingsPositive(r0); }
    var r1 := SilentStep(r0, TakeId(delayMs, cb), early, id);
    var r2 := SilentStep(r1, ReadClock(id), between, id);
    NaiveInsertFires(r2, id, after);
  }

  lemma SettingsPositive(r: Reference)
    requires Wellformed(r)
    ensures r.naive.slots >= 1 && r.naive.tickMs >= 1
  {
  }

  /** A step of `add_timer` that is not its last, and the events up to the next one. */
  lemma SilentStep(r: Reference, ev: Event, evs: seq<Event>, id: TimerId) returns (r': Reference)
    requires Wellformed(r) && r.naive.slots >= 1 && r.naive.tickMs >= 1
    requires ev.TakeId? || ev.ReadClock?
    requires var r1 := NaiveStep(r, ev).0;
             id in r1.adding && (if r1.adding[id].Numbered? then ReadClock(id) else Insert(id)) !in evs
    ensures r' == NaiveRun(r, [ev] + evs).0 && Wellformed(r')
    ensures r'.naive.slots == r.naive.slots && r'.naive.tickMs == r.naive.tickMs
    ensures Times(NaiveRun(r, [ev] + evs).1, id) == 0
    ensures id in r'.adding && r'.adding[id] == NaiveStep(r, ev).0.adding[id]
  {
    hide Wellformed;
    var (r1, o) := NaiveStep(r, ev);
    assert ([ev] + evs)[1..] == evs;
    StepKeepsWellformed(r, ev);
    AddingIsSilent(r1, evs, id);
    RunKeepsWellformed(r1, evs);
    NaiveRunKeepsSettings(r1, evs);
    r' := NaiveRun(r1, evs).0;
    var os := NaiveRun(r1, evs).1;
    assert NaiveRun(r, [ev] + evs) == (r', [o] + os);
    assert ([o] + os)[1..] == os;
  }

  lemma NaiveInsertFires(r: Reference, id: TimerId, after: seq<Event>)
    requires Wellformed(r) && id in r.adding && r.adding[id].Timed?
    ensures var due := Due(r.naive.slots, r.adding[id].r.expire, r.naive.now);
            var os := NaiveRun(r, [Insert(id)] + after).1;
            && Times(os, id) == (if TicksBeforeCancel(after, id) > due - r.naive.now then 1 else 0)
            && FiresOnlyAt(os, id, due, r.adding[id].r.callback)
  {
    var evs := [Insert(id)] + after;
    assert evs[1..] == after;
    var r2 := NaiveStep(r, Insert(id)).0;
    StepKeepsWellformed(r, Insert(id));
    LiveFiresOnce(r2, after, r2.naive.timers[|r2.naive.timers| - 1]);
    assert NaiveRun(r, evs).1 == [Inserted(true)] + NaiveRun(r2, after).1;
  }

  lemma {:induction false} NaiveRunKeepsSettings(r: Reference, evs: seq<Event>)
    requires r.naive.slots >= 1 && r.naive.tickMs >= 1
    ensures var n := NaiveRun(r, evs).0.naive; n.slots == r.naive.slots && n.tickMs == r.naive.tickMs
    decreases |evs|
  {
    if evs != [] {
      NaiveRunKeepsSettings(NaiveStep(r, evs[0]).0, evs[1..]);
    }
  }

  lemma {:induction false} RunKeepsSettings(s: System, evs: seq<Event>)
    requires Shaped(s.wheel)
    ensures var w := Run(s, evs).0.wheel; w.slots == s.wheel.slots && w.tickMs == s.wheel.tickMs
    decreases |evs|
  {
    if evs != [] {
      RunKeepsSettings(Step(s, evs[0]).0, evs[1..]);
    }
  }

  /** The undisturbed `add_timer`: a timer added with delay >= 1 fires exactly once, on precisely the
      ceil(delay / tick)-th tick after its insertion, iff that many ticks come before any attempt to
      cancel it. With delay 0 the expire tick lies one behind the clock and the timer is instead a
      whole turn of the wheel late (or, added at tick 0, waits for tick SIZE_MAX). */
  lemma AddFiresOnNthTick(slots: nat, tickMs: nat, before: seq<Event>, delayMs: nat, cb: Callback,
                          after: seq<Event>)
    requires slots >= 1 && tickMs >= 1
    ensures var s0 := Run(Start(slots, tickMs), before).0;
            var id := s0.wheel.nextId;
            var os := Run(s0, [TakeId(delayMs, cb), ReadClock(id), Insert(id)] + after).1;
            var nth := if delayMs >= 1 then CeilDiv(delayMs, tickMs)
                       else if s0.wheel.now >= 1 then slots else 0x1_0000_0000_0000_0000;
            && Times(os, id) == (if TicksBeforeCancel(after, id) >= nth then 1 else 0)
            && FiresOnlyAt(os, id, s0.wheel.now + nth - 1, cb)
  {
    hide Due, CeilDiv, Run, Times, FiresOnlyAt, ExpireTick, TicksBeforeCancel;
    var s0 := Run(Start(slots, tickMs), before).0;
    SplitAddFiresExactlyOnce(slots, tickMs, before, delayMs, cb, [], [], after);
    Undisturbed(s0, delayMs, cb, after);
    DueOnNth(slots, s0.wheel.now, delayMs, tickMs);
    var s1 := Run(s0, [TakeId(delayMs, cb)] + []).0;
    var s2 := Run(s1, [ReadClock(s0.wheel.nextId)] + []).0;
    QuietHead(s0.wheel.nextId, Run(s2, [Insert(s0.wheel.nextId)] + after).1);
  }

  lemma DueOnNth(slots: nat, now: nat, delayMs: nat, tickMs: nat)
    requires slots >= 1 && tickMs >= 1
    ensures var nth := if delayMs >= 1 then CeilDiv(delayMs, tickMs) else if now >= 1 then slots else SIZE_MAX + 1;
            nth >= 1 && Due(slots, ExpireTick(now, delayMs, tickMs), now) == now + nth - 1
  {
    hide Due;
    CeilDivPositive(delayMs, tickMs);
    LateByOneWaitsATurn(slots, now);
    DueIsFirst(slots, ExpireTick(now, delayMs, tickMs), now);
  }

  lemma QuietHead(id: TimerId, os: seq<Output>)
    ensures var all := [TookId(id), ClockRead(true)] + os;
            && Times(all, id) == Times(os, id)
            && forall tick, cb :: FiresOnlyAt(os, id, tick, cb) ==> FiresOnlyAt(all, id, tick, cb)
  {
    var all := [TookId(id), ClockRead(true)] + os;
    assert all[1..][1..] == os;
    assert Times(all[1..], id) == Times(os, id);
  }

  /** The three steps in a row: the clock stands still and the first two put out nothing that fires. */
  lemma Undisturbed(s0: System, delayMs: nat, cb: Callback, after: seq<Event>)
    requires Shaped(s0.wheel)
    ensures var id := s0.wheel.nextId;
            var s1 := Run(s0, [TakeId(delayMs, cb)] + []).0;
            var s2 := Run(s1, [ReadClock(id)] + []).0;
            && s1.wheel.now == s2.wheel.now == s0.wheel.now
            && Run(s0, [TakeId(delayMs, cb), ReadClock(id), Insert(id)] + after).1
                 == [TookId(id), ClockRead(true)] + Run(s2, [Insert(id)] + after).1
  {
    var id := s0.wheel.nextId;
    var take, read, insert := [TakeId(delayMs, cb)], [ReadClock(id)], [Insert(id)] + after;
    assert take + [] == take && read + [] == read;
    var s1 := Run(s0, take).0;
    var s2 := Run(s1, read).0;
    OneEvent(s0, TakeId(delayMs, cb));
    OneEvent(s1, ReadClock(id));
    RunAppend(s0, take, read + insert);
    RunAppend(s1, read, insert);
    assert [TakeId(delayMs, cb), ReadClock(id), Insert(id)] + after == take + (read + insert);
    assert [TookId(id)] + ([ClockRead(true)] + Run(s2, insert).1) == [TookId(id), ClockRead(true)] + Run(s2, insert).1;
  }

  lemma OneEvent(s: System, ev: Event)
    requires Shaped(s.wheel)
    ensures Run(s, [ev]) == (Step(s, ev).0, [Step(s, ev).1])
  {
    hide Step;
    assert [ev][1..] == [];
    assert Run(Step(s, ev).0, []) == (Step(s, ev).0, []);
    assert [Step(s, ev).1] + [] == [Step(s, ev).1];
  }

  lemma LateByOneWaitsATurn(slots: nat, now: nat)
    requires slots >= 1
    ensures now >= 1 ==> Due(slots, now - 1, now) == now + slots - 1
  {
    if now >= 1 {
      QuotientUnique(-1, -1, slots - 1, slots);
    }
  }
}
