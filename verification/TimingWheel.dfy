/** The class of io/timer.hpp, method by method, against the wheel as a value. */
module TimingWheel {
  import opened Sequences
  import opened Modular
  import opened WheelModel

  function CallbackOf(): Entry -> Callback {
    (e: Entry) => e.callback
  }

  lemma CollectStep(now: nat, slot: seq<Entry>, i: nat)
    requires i < |slot|
    ensures Filter(Expired(now), slot[..i + 1]) ==
              Filter(Expired(now), slot[..i]) + if slot[i].expire <= now then [slot[i]] else []
  {
    assert slot[..i + 1] == slot[..i] + [slot[i]];
    FilterAppend(Expired(now), slot[..i], [slot[i]]);
  }

  lemma CollectOne(gone: seq<Entry>, entry: Entry)
    ensures Map(CallbackOf(), gone + [entry]) == Map(CallbackOf(), gone) + [entry.callback]
    ensures Ids(gone + [entry]) == Ids(gone) + {entry.id}
  {
    var all := gone + [entry];
    assert forall e :: e in all <==> e in gone || e == entry;
  }

  lemma DueOnNthTick(slots: nat, now: nat, delayMs: nat, tickMs: nat)
    requires slots >= 1 && tickMs >= 1
    ensures delayMs >= 1 ==>
              Due(slots, ExpireTick(now, delayMs, tickMs), now) == now + CeilDiv(delayMs, tickMs) - 1
  {
    if delayMs >= 1 {
      CeilDivPositive(delayMs, tickMs);
    }
  }

  class TimingWheel {
    const slots: nat
    const tickMs: nat
    var currentTick: nat
    var nextId: TimerId
    var wheels: seq<seq<Entry>>
    var timerSlot: map<TimerId, nat>

    function Value(): Wheel
      reads this
    {
      Wheel(slots, tickMs, currentTick, nextId, wheels, timerSlot)
    }

    predicate Valid()
      reads this
    {
      Shaped(Value())
    }

    constructor (slots: nat, tickMs: nat)
      requires slots >= 1 && tickMs >= 1
      ensures Valid() && Value() == Empty(slots, tickMs)
      ensures this.slots == slots && this.tickMs == tickMs && currentTick == 0 && nextId == 1
      ensures timerSlot == map[] && forall s :: 0 <= s < slots ==> wheels[s] == []
    {
      this.slots, this.tickMs := slots, tickMs;
      currentTick, nextId := 0, 1;
      wheels := Fill(slots, []);
      timerSlot := map[];
    }

    /** The part of `add_timer` before the lock: the id and the expire tick are fixed here. */
    method Reserve(delayMs: nat, callback: Callback) returns (id: TimerId, r: Reservation)
      requires Valid()
      modifies this`nextId
      ensures Valid() && id == old(nextId) && nextId == id + 1
      ensures r == Reservation(ExpireTick(currentTick, delayMs, tickMs), callback)
    {
      id := nextId;
      nextId := nextId + 1;
      var ticks := (delayMs + tickMs - 1) / tickMs;
      r := Reservation(if currentTick + ticks == 0 then SIZE_MAX else currentTick + ticks - 1, callback);
    }

    /** The part of `add_timer` under the lock. */
    method Insert(id: TimerId, r: Reservation)
      requires Valid()
      modifies this`wheels, this`timerSlot
      ensures Valid() && Value() == InsertEntry(old(Value()), id, r)
    {
      var slot := r.expire % slots;
      wheels := wheels[slot := wheels[slot] + [Entry(id, r.expire, r.callback)]];
      timerSlot := timerSlot[id := slot];
    }

    /** An undisturbed `add_timer`: a fresh id, and with delay >= 1 the new timer is due on the
        ceil(delay / tick)-th tick from now. */
    method AddTimer(delayMs: nat, callback: Callback, ghost live: seq<Entry>) returns (id: TimerId)
      requires Valid() && Represents(Value(), live) && nextId !in Ids(live)
      modifies this`nextId, this`wheels, this`timerSlot
      ensures Valid() && id == old(nextId) && nextId == id + 1 && currentTick == old(currentTick)
      ensures var e := Entry(id, ExpireTick(currentTick, delayMs, tickMs), callback);
              Represents(Value(), live + [e])
              && (delayMs >= 1 ==> Due(slots, e.expire, currentTick) == currentTick + CeilDiv(delayMs, tickMs) - 1)
    {
      hide SlotOf, Due, Filter, Ids, InsertEntry, ExpireTick, CeilDiv;
      var r;
      id, r := Reserve(delayMs, callback);
      assert Represents(Value(), live);
      Insert(id, r);
      InsertRepresents(old(Value()).(nextId := id + 1), live, id, r);
      DueOnNthTick(slots, currentTick, delayMs, tickMs);
    }

    /** True exactly when the timer is live; removes that timer and no other. */
    method CancelTimer(id: TimerId, ghost live: seq<Entry>) returns (ok: bool)
      requires Valid() && Represents(Value(), live)
      modifies this`wheels, this`timerSlot
      ensures Valid() && (Value(), ok) == CancelEntry(old(Value()), id)
      ensures ok <==> id in Ids(live)
      ensures Represents(Value(), Filter(NotId(id), live))
    {
      CancelRepresents(Value(), live, id);
      if id !in timerSlot {
        return false;
      }
      var slot := timerSlot[id];
      wheels := wheels[slot := Filter(NotId(id), wheels[slot])];
      timerSlot := timerSlot - {id};
      return true;
    }

    /** The loop of `tick` over the current slot. */
    method CollectExpired(slot: seq<Entry>) returns (expired: seq<Callback>)
      modifies this`timerSlot
      ensures var fired := Filter(Expired(currentTick), slot);
              expired == Map(CallbackOf(), fired) && timerSlot == old(timerSlot) - Ids(fired)
    {
      expired := [];
      ghost var gone: seq<Entry> := [];
      var i := 0;
      while i < |slot|
        invariant 0 <= i <= |slot|
        invariant gone == Filter(Expired(currentTick), slot[..i])
        invariant expired == Map(CallbackOf(), gone)
        invariant timerSlot == old(timerSlot) - Ids(gone)
      {
        var entry := slot[i];
        CollectStep(currentTick, slot, i);
        if entry.expire <= currentTick {
          CollectOne(gone, entry);
          expired := expired + [entry.callback];
          timerSlot := timerSlot - {entry.id};
          gone := gone + [entry];
        }
        i := i + 1;
      }
      assert slot[..i] == slot;
    }

    /** Runs the callbacks of the timers due now, in the order they were added, and reports how many there
        were; the clock moves on by one and the other timers stay. */
    method Tick(ghost live: seq<Entry>) returns (ran: seq<Callback>, count: nat)
      requires Valid() && Represents(Value(), live)
      modifies this`wheels, this`timerSlot, this`currentTick
      ensures Valid() && Value() == TickWheel(old(Value())).0 && currentTick == old(currentTick) + 1
      ensures var fired := Filter(FiresAt(slots, old(currentTick)), live);
              |ran| == |fired| == count && forall i :: 0 <= i < count ==> ran[i] == fired[i].callback
      ensures Represents(Value(), Filter(Survives(slots, old(currentTick)), live))
    {
      hide Filter, Map, Ids, Expired, NotExpired, Represents;
      var s := currentTick % slots;
      var slot := wheels[s];
      var expired := CollectExpired(slot);
      wheels := wheels[s := Filter(NotExpired(currentTick), slot)];
      currentTick := currentTick + 1;

      ran := [];
      var i := 0;
      while i < |expired|
        invariant 0 <= i <= |expired| && ran == expired[..i]
      {
        ran := ran + [expired[i]];
        i := i + 1;
      }
      count := |expired|;
      TickRepresents(old(Value()), live);
    }

    /** The total over n ticks is exactly the number of live timers due in them; these are gone afterwards, and
        the clock stands n ticks later. */
    method Advance(ticks: nat, ghost live: seq<Entry>) returns (total: nat)
      requires Valid() && Represents(Value(), live)
      modifies this`wheels, this`timerSlot, this`currentTick
      ensures Valid() && (Value(), total) == AdvanceWheel(old(Value()), ticks)
      ensures total == DueWithin(old(Value()), live, ticks)
      ensures currentTick == old(currentTick) + ticks
      ensures Represents(Value(), Filter(DueFrom(slots, old(currentTick), old(currentTick) + ticks), live))
    {
      hide Represents, TickWheel, DueWithin, Filter, FiresAt, Survives, DueFrom, Map;
      AdvanceCountsDue(Value(), live, ticks);
      AdvanceLeavesTheRest(Value(), live, ticks);
      total := 0;
      ghost var left := live;
      var i := 0;
      while i < ticks
        invariant 0 <= i <= ticks && Valid() && Represents(Value(), left)
        invariant AdvanceWheel(old(Value()), ticks) ==
                    (AdvanceWheel(Value(), ticks - i).0, total + AdvanceWheel(Value(), ticks - i).1)
      {
        TickRepresents(Value(), left);
        ghost var now := currentTick;
        var _, n := Tick(left);
        left := Filter(Survives(slots, now), left);
        total := total + n;
        i := i + 1;
      }
    }
  }
}
