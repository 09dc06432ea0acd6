/** The hashed timing wheel of io/timer.hpp and the naive timer it implements.

    Three views of the same timers:
      Wheel  - slots of entries, plus the index from timer id to slot (the code);
      live   - all entries in one list, in insertion order (the abstraction);
      Naive  - a list of (id, due tick) that knows nothing of slots (the specification).

    `add_timer` takes an id and then reads the clock before it takes the lock, so a run is made of
    TakeId, ReadClock and Insert steps with anything in between. */
module WheelModel {
  import opened Sequences
  import opened Modular

  type TimerId = nat
  type Callback = nat  // callbacks are opaque tokens

  const SIZE_MAX := 0xFFFF_FFFF_FFFF_FFFF

  datatype Entry = Entry(id: TimerId, expire: nat, callback: Callback)

  /** What `add_timer` has computed when it is about to take the lock. */
  datatype Reservation = Reservation(expire: nat, callback: Callback)

  datatype Wheel = Wheel(
    slots: nat, tickMs: nat, now: nat, nextId: TimerId,
    wheels: seq<seq<Entry>>, timerSlot: map<TimerId, nat>)

  datatype Timer = Timer(id: TimerId, due: nat, callback: Callback)

  datatype Naive = Naive(slots: nat, tickMs: nat, now: nat, nextId: TimerId, timers: seq<Timer>)

  // ---------------------------------------------------------------- arithmetic

  /** `current_tick_ + ticks - 1` in size_t: only 0 + 0 - 1 wraps. */
  function ExpireTick(now: nat, delayMs: nat, tickMs: nat): nat
    requires tickMs >= 1
  {
    var ticks := CeilDiv(delayMs, tickMs);
    if now + ticks == 0 then SIZE_MAX else now + ticks - 1
  }

  /** The slot a tick is hashed to. */
  function SlotOf(slots: nat, tick: nat): (s: nat)
    requires slots >= 1
    ensures s < slots
  {
    tick % slots
  }

  /** The first tick, from `now` on, at which an entry with this expire tick is due. */
  function Due(slots: nat, expire: nat, now: nat): nat
    requires slots >= 1
  {
    if expire >= now then expire else now + (expire - now) % slots
  }

  /** Due is the least tick T >= max(expire, now) with T congruent to expire modulo the number
      of slots; a late entry therefore waits fewer than `slots` ticks. */
  lemma DueIsFirst(slots: nat, expire: nat, now: nat)
    requires slots >= 1
    ensures var d := Due(slots, expire, now);
            && d >= expire && d >= now
            && d % slots == expire % slots
            && (forall t: nat :: t >= expire && t >= now && t % slots == expire % slots ==> t >= d)
            && (expire >= now ==> d == expire)
            && (expire < now ==> d < now + slots)
  {
    var d := Due(slots, expire, now);
    if expire < now {
      var r := (expire - now) % slots;
      var q := (expire - now) / slots;
      assert expire == d + q * slots;
      ModAddMultiple(d, q, slots);
      forall t: nat | t >= expire && t >= now && t % slots == expire % slots
        ensures t >= d
      {
        if t < d {
          CongruentApart(t, d, slots);
        }
      }
    }
  }

  /** The test `tick` makes on an entry is exactly "due now", and a tick that does not fire an
      entry does not move its due tick. */
  lemma DueNow(slots: nat, expire: nat, now: nat)
    requires slots >= 1
    ensures (expire <= now && SlotOf(slots, expire) == SlotOf(slots, now)) <==> Due(slots, expire, now) == now
    ensures Due(slots, expire, now) != now ==> Due(slots, expire, now + 1) == Due(slots, expire, now)
  {
    DueIsFirst(slots, expire, now);
    DueIsFirst(slots, expire, now + 1);
    var d, d' := Due(slots, expire, now), Due(slots, expire, now + 1);
    if expire <= now && d != now {
      assert d >= now + 1;
      assert d >= d';
      assert d' >= d;
    }
  }

  lemma CeilDivPositive(a: nat, b: nat)
    requires b >= 1
    ensures CeilDiv(a, b) >= 1 <==> a >= 1
  {
    if a >= 1 {
      QuotientUnique(a + b - 1, CeilDiv(a, b), (a + b - 1) % b, b);
    } else {
      QuotientUnique(b - 1, 0, b - 1, b);
    }
  }

  // ---------------------------------------------------------------- the wheel as a value

  function InSlot(slots: nat, s: nat): Entry -> bool
    requires slots >= 1
  {
    (e: Entry) => SlotOf(slots, e.expire) == s
  }

  function Expired(now: nat): Entry -> bool {
    (e: Entry) => e.expire <= now
  }

  function NotExpired(now: nat): Entry -> bool {
    (e: Entry) => !(e.expire <= now)
  }

  function NotId(id: TimerId): Entry -> bool {
    (e: Entry) => e.id != id
  }

  function Ids(es: seq<Entry>): set<TimerId> {
    set e | e in es :: e.id
  }

  predicate Shaped(w: Wheel) {
    && w.slots >= 1 && w.tickMs >= 1 && |w.wheels| == w.slots
    && (forall id :: id in w.timerSlot ==> w.timerSlot[id] < w.slots)
  }

  function Empty(slots: nat, tickMs: nat): Wheel {
    Wheel(slots, tickMs, 0, 1, Fill(slots, []), map[])
  }

  function InsertEntry(w: Wheel, id: TimerId, r: Reservation): (w': Wheel)
    requires Shaped(w)
    ensures Shaped(w')
  {
    var slot := SlotOf(w.slots, r.expire);
    w.(wheels := w.wheels[slot := w.wheels[slot] + [Entry(id, r.expire, r.callback)]],
       timerSlot := w.timerSlot[id := slot])
  }

  function CancelEntry(w: Wheel, id: TimerId): (r: (Wheel, bool))
    requires Shaped(w)
    ensures Shaped(r.0)
  {
    if id !in w.timerSlot then (w, false)
    else
      var slot := w.timerSlot[id];
      (w.(wheels := w.wheels[slot := Filter(NotId(id), w.wheels[slot])],
          timerSlot := w.timerSlot - {id}), true)
  }

  function TickWheel(w: Wheel): (r: (Wheel, seq<Entry>))
    requires Shaped(w)
    ensures Shaped(r.0)
  {
    var s := SlotOf(w.slots, w.now);
    var fired := Filter(Expired(w.now), w.wheels[s]);
    (w.(wheels := w.wheels[s := Filter(NotExpired(w.now), w.wheels[s])],
        timerSlot := w.timerSlot - Ids(fired),
        now := w.now + 1),
     fired)
  }

  function AdvanceWheel(w: Wheel, n: nat): (r: (Wheel, nat))
    requires Shaped(w)
    ensures Shaped(r.0)
    decreases n
  {
    if n == 0 then (w, 0)
    else
      var (w1, fired) := TickWheel(w);
      var (w2, rest) := AdvanceWheel(w1, n - 1);
      (w2, |fired| + rest)
  }

  // ---------------------------------------------------------------- representation

  ghost predicate DistinctIds(live: seq<Entry>) {
    forall i, j :: 0 <= i < j < |live| ==> live[i].id != live[j].id
  }

  /** The wheel holds exactly the entries of `live`: every slot is the sublist hashed to it, in
      order, and `timerSlot` has an id exactly when an entry with that id sits in that slot. */
  ghost predicate Represents(w: Wheel, live: seq<Entry>) {
    && Shaped(w)
    && DistinctIds(live)
    && (forall s :: 0 <= s < w.slots ==> w.wheels[s] == Filter(InSlot(w.slots, s), live))
    && w.timerSlot.Keys == Ids(live)
    && (forall e :: e in live ==> w.timerSlot[e.id] == SlotOf(w.slots, e.expire))
  }

  function FiresAt(slots: nat, now: nat): Entry -> bool
    requires slots >= 1
  {
    (e: Entry) => e.expire <= now && SlotOf(slots, e.expire) == SlotOf(slots, now)
  }

  function Survives(slots: nat, now: nat): Entry -> bool
    requires slots >= 1
  {
    (e: Entry) => !(e.expire <= now && SlotOf(slots, e.expire) == SlotOf(slots, now))
  }

  lemma FilterKeepsDistinct(p: Entry -> bool, live: seq<Entry>)
    requires DistinctIds(live)
    ensures DistinctIds(Filter(p, live))
    ensures Ids(Filter(p, live)) <= Ids(live)
  {
    if live != [] {
      FilterKeepsDistinct(p, live[1..]);
      forall e | e in Filter(p, live[1..])
        ensures e.id != live[0].id
      {
        FilterMembers(p, live[1..], e);
        var j :| 0 <= j < |live[1..]| && live[1..][j] == e;
        assert live[j + 1] == e;
      }
      assert Ids(live) == {live[0].id} + Ids(live[1..]);
    }
  }

  lemma DistinctMeansSame(live: seq<Entry>, e: Entry, e': Entry)
    requires DistinctIds(live) && e in live && e' in live && e.id == e'.id
    ensures e == e'
  {
  }

  /** Two-way index invariant: an id is in `timerSlot` exactly when the slot it names holds an
      entry with that id, and then no other slot and no other position does. */
  lemma IndexAgrees(w: Wheel, live: seq<Entry>, id: TimerId)
    requires Represents(w, live)
    ensures id in w.timerSlot <==>
              exists s, k :: 0 <= s < w.slots && 0 <= k < |w.wheels[s]| && w.wheels[s][k].id == id
    ensures forall s, k :: 0 <= s < w.slots && 0 <= k < |w.wheels[s]| && w.wheels[s][k].id == id ==>
              id in w.timerSlot && w.timerSlot[id] == s
    ensures forall s, j, k :: 0 <= s < w.slots && 0 <= j < k < |w.wheels[s]| ==>
              w.wheels[s][j].id != w.wheels[s][k].id
  {
    hide SlotOf;
    forall s, k | 0 <= s < w.slots && 0 <= k < |w.wheels[s]| && w.wheels[s][k].id == id
      ensures id in w.timerSlot && w.timerSlot[id] == s
    {
      FilterMembers(InSlot(w.slots, s), live, w.wheels[s][k]);
    }
    if id in w.timerSlot {
      var e :| e in live && e.id == id;
      var s := SlotOf(w.slots, e.expire);
      FilterMembers(InSlot(w.slots, s), live, e);
      var k :| 0 <= k < |w.wheels[s]| && w.wheels[s][k] == e;
    }
    forall s | 0 <= s < w.slots
      ensures DistinctIds(w.wheels[s])
    {
      FilterKeepsDistinct(InSlot(w.slots, s), live);
    }
  }

  lemma InsertRepresents(w: Wheel, live: seq<Entry>, id: TimerId, r: Reservation)
    requires Represents(w, live) && id !in Ids(live)
    ensures Represents(InsertEntry(w, id, r), live + [Entry(id, r.expire, r.callback)])
  {
    hide SlotOf;
    var e := Entry(id, r.expire, r.callback);
    var w' := InsertEntry(w, id, r);
    forall s | 0 <= s < w.slots
      ensures w'.wheels[s] == Filter(InSlot(w.slots, s), live + [e])
    {
      FilterAppend(InSlot(w.slots, s), live, [e]);
    }
    assert forall x :: x in live + [e] <==> x in live || x == e;
    assert Ids(live + [e]) == Ids(live) + {id};
  }

  /** Cancelling succeeds exactly when the id is live, and removes that one entry. */
  lemma CancelRepresents(w: Wheel, live: seq<Entry>, id: TimerId)
    requires Represents(w, live)
    ensures CancelEntry(w, id).1 <==> id in Ids(live)
    ensures Represents(CancelEntry(w, id).0, Filter(NotId(id), live))
  {
    hide SlotOf;
    var live' := Filter(NotId(id), live);
    FilterKeepsDistinct(NotId(id), live);
    forall x ensures x in live' <==> x in live && x.id != id {
      FilterMembers(NotId(id), live, x);
    }
    assert Ids(live') == Ids(live) - {id};
    if id in w.timerSlot {
      forall s | 0 <= s < w.slots
        ensures CancelEntry(w, id).0.wheels[s] == Filter(InSlot(w.slots, s), live')
      {
        var inSlot := InSlot(w.slots, s);
        if s == w.timerSlot[id] {
          var both := (e: Entry) => e.id != id && inSlot(e);
          FilterCompose(NotId(id), inSlot, both, live);
          FilterCompose(inSlot, NotId(id), both, live);
        } else {
          FilterCompose(inSlot, NotId(id), inSlot, live);
        }
      }
    } else {
      forall s | 0 <= s < w.slots
        ensures w.wheels[s] == Filter(InSlot(w.slots, s), live')
      {
        FilterCompose(InSlot(w.slots, s), NotId(id), InSlot(w.slots, s), live);
      }
    }
  }

  lemma TickSlots(w: Wheel, live: seq<Entry>)
    requires Represents(w, live)
    ensures TickWheel(w).1 == Filter(FiresAt(w.slots, w.now), live)
    ensures forall s :: 0 <= s < w.slots ==>
              TickWheel(w).0.wheels[s] == Filter(InSlot(w.slots, s), Filter(Survives(w.slots, w.now), live))
  {
    hide SlotOf, Ids;
    var cur := SlotOf(w.slots, w.now);
    var survives := Survives(w.slots, w.now);
    FilterCompose(Expired(w.now), InSlot(w.slots, cur), FiresAt(w.slots, w.now), live);
    forall s | 0 <= s < w.slots
      ensures TickWheel(w).0.wheels[s] == Filter(InSlot(w.slots, s), Filter(survives, live))
    {
      var inSlot := InSlot(w.slots, s);
      if s == cur {
        var both := (e: Entry) => !(e.expire <= w.now) && inSlot(e);
        FilterCompose(NotExpired(w.now), inSlot, both, live);
        FilterCompose(inSlot, survives, both, live);
      } else {
        FilterCompose(inSlot, survives, inSlot, live);
      }
    }
  }

  lemma FiredOrSurvives(live: seq<Entry>, slots: nat, now: nat)
    requires DistinctIds(live) && slots >= 1
    ensures Ids(Filter(Survives(slots, now), live)) == Ids(live) - Ids(Filter(FiresAt(slots, now), live))
  {
    hide SlotOf;
    var stay, fired := Filter(Survives(slots, now), live), Filter(FiresAt(slots, now), live);
    forall x ensures (x in stay <==> x in live && Survives(slots, now)(x)) &&
                     (x in fired <==> x in live && !Survives(slots, now)(x)) {
      FilterMembers(Survives(slots, now), live, x);
      FilterMembers(FiresAt(slots, now), live, x);
    }
    forall id | id in Ids(stay) ensures id !in Ids(fired) {
      if id in Ids(fired) {
        var a :| a in stay && a.id == id;
        var b :| b in fired && b.id == id;
        DistinctMeansSame(live, a, b);
      }
    }
  }

  /** One tick takes out exactly the entries that fire, in insertion order. */
  lemma TickRepresents(w: Wheel, live: seq<Entry>)
    requires Represents(w, live)
    ensures TickWheel(w).1 == Filter(FiresAt(w.slots, w.now), live)
    ensures Represents(TickWheel(w).0, Filter(Survives(w.slots, w.now), live))
  {
    hide SlotOf, Filter, Ids;
    TickSlots(w, live);
    FilterKeepsDistinct(Survives(w.slots, w.now), live);
    FiredOrSurvives(live, w.slots, w.now);
    forall e | e in Filter(Survives(w.slots, w.now), live)
      ensures e in live && e.id in Ids(Filter(Survives(w.slots, w.now), live))
    {
      FilterMembers(Survives(w.slots, w.now), live, e);
      IdsMember(Filter(Survives(w.slots, w.now), live), e);
    }
  }

  lemma IdsMember(es: seq<Entry>, e: Entry)
    requires e in es
    ensures e.id in Ids(es)
  {
  }

  // ---------------------------------------------------------------- the naive timer

  function AsTimer(slots: nat, now: nat): Entry -> Timer
    requires slots >= 1
  {
    (e: Entry) => Timer(e.id, Due(slots, e.expire, now), e.callback)
  }

  function DueAt(now: nat): Timer -> bool {
    (t: Timer) => t.due == now
  }

  function NotDueAt(now: nat): Timer -> bool {
    (t: Timer) => t.due != now
  }

  function DueBefore(limit: nat): Timer -> bool {
    (t: Timer) => t.due < limit
  }

  function OtherTimer(id: TimerId): Timer -> bool {
    (t: Timer) => t.id != id
  }

  function TimerIds(ts: seq<Timer>): set<TimerId> {
    set t | t in ts :: t.id
  }

  ghost predicate Refines(w: Wheel, live: seq<Entry>, n: Naive) {
    && Represents(w, live)
    && n == Naive(w.slots, w.tickMs, w.now, w.nextId, Map(AsTimer(w.slots, w.now), live))
  }

  lemma MapMembers(f: Entry -> Timer, s: seq<Entry>, t: Timer)
    ensures t in Map(f, s) <==> exists e :: e in s && f(e) == t
  {
    if t in Map(f, s) {
      var i :| 0 <= i < |s| && Map(f, s)[i] == t;
      assert s[i] in s && f(s[i]) == t;
    }
    if e :| e in s && f(e) == t {
      var i :| 0 <= i < |s| && s[i] == e;
      assert Map(f, s)[i] == t;
    }
  }

  lemma SameIds(w: Wheel, live: seq<Entry>, n: Naive)
    requires Refines(w, live, n)
    ensures TimerIds(n.timers) == Ids(live)
  {
    var f := AsTimer(w.slots, w.now);
    forall e | e in live ensures e.id in TimerIds(n.timers) {
      MapMembers(f, live, f(e));
      assert f(e) in n.timers;
    }
    forall t | t in n.timers ensures t.id in Ids(live) {
      MapMembers(f, live, t);
    }
  }

  lemma TimersNotOverdue(w: Wheel, live: seq<Entry>, t: Timer)
    requires w.slots >= 1 && t in Map(AsTimer(w.slots, w.now), live)
    ensures t.due >= w.now
  {
    MapMembers(AsTimer(w.slots, w.now), live, t);
    var e :| e in live && AsTimer(w.slots, w.now)(e) == t;
    DueIsFirst(w.slots, e.expire, w.now);
  }

  /** The number of timers due within the next n ticks. */
  function DueWithin(w: Wheel, live: seq<Entry>, n: nat): nat
    requires w.slots >= 1
  {
    |Filter(DueBefore(w.now + n), Map(AsTimer(w.slots, w.now), live))|
  }

  /** `advance(n)` returns exactly the number of live timers due in the next n ticks. */
  lemma {:induction false} AdvanceCountsDue(w: Wheel, live: seq<Entry>, n: nat)
    requires Represents(w, live)
    ensures AdvanceWheel(w, n).1 == DueWithin(w, live, n)
    decreases n
  {
    if n == 0 {
      NoneOverdue(w, live);
    } else {
      hide DueWithin, TickWheel;
      TickRepresents(w, live);
      AdvanceStep(w, live, n);
      AdvanceCountsDue(TickWheel(w).0, Filter(Survives(w.slots, w.now), live), n - 1);
    }
  }

  lemma AdvanceStep(w: Wheel, live: seq<Entry>, n: nat)
    requires Represents(w, live) && n >= 1
    ensures DueWithin(w, live, n) ==
              |TickWheel(w).1| + DueWithin(TickWheel(w).0, Filter(Survives(w.slots, w.now), live), n - 1)
  {
    hide Filter, Map, Due, AsTimer, SlotOf, Ids;
    var timers := Map(AsTimer(w.slots, w.now), live);
    var w1, live1 := TickWheel(w).0, Filter(Survives(w.slots, w.now), live);
    assert |TickWheel(w).1| == |Filter(DueAt(w.now), timers)| by {
      TickRefines(w, live);
    }
    assert Map(AsTimer(w1.slots, w1.now), live1) == Filter(NotDueAt(w.now), timers) by {
      TickRefines(w, live);
    }
    DueSplit(timers, w.now, n);
    assert w1.now + (n - 1) == w.now + n;
  }

  /** The entries still to come at tick t, seen from now. */
  function DueFrom(slots: nat, now: nat, t: nat): Entry -> bool
    requires slots >= 1
  {
    (e: Entry) => Due(slots, e.expire, now) >= t
  }

  /** `advance(n)` moves the clock by n and leaves exactly the timers that are not due in the next n ticks. */
  lemma {:induction false} AdvanceLeavesTheRest(w: Wheel, live: seq<Entry>, n: nat)
    requires Represents(w, live)
    ensures var w' := AdvanceWheel(w, n).0;
            && w' == w.(wheels := w'.wheels, timerSlot := w'.timerSlot, now := w.now + n)
            && Represents(w', Filter(DueFrom(w.slots, w.now, w.now + n), live))
    decreases n
  {
    hide Represents, SlotOf, Due;
    assert Shaped(w) by { RepresentsShaped(w, live); }
    if n == 0 {
      AllStillDue(w.slots, w.now, live);
    } else {
      var w1, live1 := TickWheel(w).0, Filter(Survives(w.slots, w.now), live);
      TickRepresents(w, live);
      AdvanceLeavesTheRest(w1, live1, n - 1);
      assert w1.slots == w.slots && w1.now == w.now + 1;
      assert w1.now + (n - 1) == w.now + n;
      forall e | e in live
        ensures DueFrom(w.slots, w.now, w.now + n)(e) <==>
                  DueFrom(w.slots, w.now + 1, w.now + n)(e) && Survives(w.slots, w.now)(e)
      {
        DueNow(w.slots, e.expire, w.now);
        DueIsFirst(w.slots, e.expire, w.now);
      }
      FilterCompose(DueFrom(w.slots, w.now + 1, w.now + n), Survives(w.slots, w.now),
                    DueFrom(w.slots, w.now, w.now + n), live);
    }
  }

  lemma RepresentsShaped(w: Wheel, live: seq<Entry>)
    requires Represents(w, live)
    ensures Shaped(w)
  {
  }

  lemma {:induction false} AllStillDue(slots: nat, now: nat, live: seq<Entry>)
    requires slots >= 1
    ensures Filter(DueFrom(slots, now, now), live) == live
  {
    hide Due;
    if live != [] {
      DueIsFirst(slots, live[0].expire, now);
      AllStillDue(slots, now, live[1..]);
    }
  }

  lemma NoneOverdue(w: Wheel, live: seq<Entry>)
    requires w.slots >= 1
    ensures Filter(DueBefore(w.now), Map(AsTimer(w.slots, w.now), live)) == []
  {
    var timers := Map(AsTimer(w.slots, w.now), live);
    var overdue := Filter(DueBefore(w.now), timers);
    if overdue != [] {
      FilterMembers(DueBefore(w.now), timers, overdue[0]);
      TimersNotOverdue(w, live, overdue[0]);
    }
  }

  lemma DueSplit(timers: seq<Timer>, now: nat, n: nat)
    requires n >= 1
    ensures |Filter(DueBefore(now + n), timers)| ==
              |Filter(DueAt(now), timers)| + |Filter(DueBefore(now + n), Filter(NotDueAt(now), timers))|
  {
    var later := (t: Timer) => t.due < now + n && t.due != now;
    FilterCompose(DueBefore(now + n), NotDueAt(now), later, timers);
    FilterSplitsLength(DueAt(now), later, DueBefore(now + n), timers);
  }

  /** A tick of the wheel is a tick of the naive timer: it fires the timers that are due, in
      insertion order, and leaves every other due tick as it was. */
  lemma TickRefines(w: Wheel, live: seq<Entry>)
    requires Represents(w, live)
    ensures var timers := Map(AsTimer(w.slots, w.now), live);
            && Map(AsTimer(w.slots, w.now), TickWheel(w).1) == Filter(DueAt(w.now), timers)
            && |TickWheel(w).1| == |Filter(DueAt(w.now), timers)|
            && Map(AsTimer(w.slots, w.now + 1), Filter(Survives(w.slots, w.now), live))
               == Filter(NotDueAt(w.now), timers)
  {
    hide SlotOf, Due, Ids;
    TickRepresents(w, live);
    var f, f' := AsTimer(w.slots, w.now), AsTimer(w.slots, w.now + 1);
    forall e | e in live
      ensures DueAt(w.now)(f(e)) <==> FiresAt(w.slots, w.now)(e)
      ensures NotDueAt(w.now)(f(e)) <==> Survives(w.slots, w.now)(e)
      ensures Survives(w.slots, w.now)(e) ==> f'(e) == f(e)
    {
      DueNow(w.slots, e.expire, w.now);
    }
    FilterMap(DueAt(w.now), FiresAt(w.slots, w.now), f, live);
    FilterMap(NotDueAt(w.now), Survives(w.slots, w.now), f, live);
    var rest := Filter(Survives(w.slots, w.now), live);
    forall i | 0 <= i < |rest| ensures f'(rest[i]) == f(rest[i]) {
      FilterMembers(Survives(w.slots, w.now), live, rest[i]);
    }
    assert Map(f', rest) == Map(f, rest);
  }
}
