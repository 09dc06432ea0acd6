/** The connection pool of net/connection_pool.hpp as a step system over any number of threads. A step is
    one critical piece of `acquire` or `release`: taking the lock, one pop, one atomic counter update. The
    capacity check happens under the lock; creating the connection and both counter updates do not. */
module ConnectionPool {
  import opened Sequences

  type Conn = nat
  type Thread = nat

  datatype Config = Config(maxConnections: nat, maxIdle: nat)

  /** Where a thread is. The comments give the last line it executed. */
  datatype Pc =
    | Out                  // in neither call
    | Entering             // acquire called, lock not yet taken
    | Scanning             // in the draining loop, lock held
    | Popped(conn: Conn)   // idle_connections_.pop_back(), lock held
    | Creating             // capacity check passed, lock released
    | Created(conn: Conn)  // create_connection() returned a connection
    | Counted(conn: Conn)  // active_connections_.fetch_add(1)
    | Waiting              // in cv_.wait, lock released
    | Returning(conn: Conn)  // release called, lock taken
    | Returned(conn: Conn)   // active_connections_.fetch_sub(1), lock held

  datatype Lock = Free | HeldBy(thread: Thread)

  datatype State = State(
    idle: seq<Conn>, total: int, active: int, lock: Lock, pcs: seq<Pc>,
    held: multiset<Conn>,  // connections clients have acquired and not yet given back
    nextConn: Conn)        // names a fresh connection

  datatype Action =
    | Enter(t: Thread)
    | TakeLock(t: Thread)
    | Pop(t: Thread)
    | TakeLive(t: Thread)     // connected(): count it active and return it
    | DropDead(t: Thread)     // not connected(): count it out and look again
    | PassCheck(t: Thread)
    | Wait(t: Thread)
    | Wake(t: Thread)
    | Create(t: Thread)
    | CreateFails(t: Thread)
    | CountActive(t: Thread)
    | CountTotal(t: Thread)   // and return the new connection
    | Release(t: Thread, conn: Conn)
    | Uncount(t: Thread)
    | PutBack(t: Thread)
    | Close(t: Thread)

  predicate Enabled(cfg: Config, s: State, a: Action) {
    && a.t < |s.pcs|
    && var pc := s.pcs[a.t];
    match a
    case Enter(_) => pc.Out?
    case TakeLock(_) => pc.Entering? && s.lock.Free?
    case Pop(_) => pc.Scanning? && s.idle != []
    case TakeLive(_) => pc.Popped?
    case DropDead(_) => pc.Popped?
    case PassCheck(_) => pc.Scanning? && s.idle == [] && s.total < cfg.maxConnections
    case Wait(_) => pc.Scanning? && s.idle == [] && s.total >= cfg.maxConnections
    case Wake(_) => pc.Waiting? && s.lock.Free? && (s.idle != [] || s.total < cfg.maxConnections)
    case Create(_) => pc.Creating?
    case CreateFails(_) => pc.Creating?
    case CountActive(_) => pc.Created?
    case CountTotal(_) => pc.Counted?
    case Release(_, c) => pc.Out? && s.lock.Free? && c in s.held
    case Uncount(_) => pc.Returning?
    case PutBack(_) => pc.Returned? && |s.idle| < cfg.maxIdle
    case Close(_) => pc.Returned?
  }

  function Next(cfg: Config, s: State, a: Action): State
    requires Enabled(cfg, s, a)
  {
    var pc := s.pcs[a.t];
    match a
    case Enter(t) => s.(pcs := s.pcs[t := Entering])
    case TakeLock(t) => s.(pcs := s.pcs[t := Scanning], lock := HeldBy(t))
    case Pop(t) =>
      var last := |s.idle| - 1;
      s.(pcs := s.pcs[t := Popped(s.idle[last])], idle := s.idle[..last])
    case TakeLive(t) =>
      s.(pcs := s.pcs[t := Out], active := s.active + 1, held := s.held + multiset{pc.conn}, lock := Free)
    case DropDead(t) => s.(pcs := s.pcs[t := Scanning], total := s.total - 1)
    case PassCheck(t) => s.(pcs := s.pcs[t := Creating], lock := Free)
    case Wait(t) => s.(pcs := s.pcs[t := Waiting], lock := Free)
    case Wake(t) => s.(pcs := s.pcs[t := Entering])
    case Create(t) => s.(pcs := s.pcs[t := Created(s.nextConn)], nextConn := s.nextConn + 1)
    case CreateFails(t) => s.(pcs := s.pcs[t := Out])
    case CountActive(t) => s.(pcs := s.pcs[t := Counted(pc.conn)], active := s.active + 1)
    case CountTotal(t) => s.(pcs := s.pcs[t := Out], total := s.total + 1, held := s.held + multiset{pc.conn})
    case Release(t, c) => s.(pcs := s.pcs[t := Returning(c)], held := s.held - multiset{c}, lock := HeldBy(t))
    case Uncount(t) => s.(pcs := s.pcs[t := Returned(pc.conn)], active := s.active - 1)
    case PutBack(t) => s.(pcs := s.pcs[t := Out], idle := s.idle + [pc.conn], lock := Free)
    case Close(t) => s.(pcs := s.pcs[t := Out], total := s.total - 1, lock := Free)
  }

  function Initial(threads: nat): State {
    State([], 0, 0, Free, Fill(threads, Out), multiset{}, 0)
  }

  predicate ValidRun(cfg: Config, s: State, run: seq<Action>)
    decreases |run|
  {
    run == [] || (Enabled(cfg, s, run[0]) && ValidRun(cfg, Next(cfg, s, run[0]), run[1..]))
  }

  function After(cfg: Config, s: State, run: seq<Action>): State
    requires ValidRun(cfg, s, run)
    decreases |run|
  {
    if run == [] then s else After(cfg, Next(cfg, s, run[0]), run[1..])
  }

  // ---------------------------------------------------------------- the invariant

  function InLock(): Pc -> bool {
    (p: Pc) => p.Scanning? || p.Popped? || p.Returning? || p.Returned?
  }

  /** Past the capacity check but not yet counted in total_connections_. */
  function Pending(): Pc -> bool {
    (p: Pc) => p.Creating? || p.Created? || p.Counted?
  }

  function IsCounted(): Pc -> bool { (p: Pc) => p.Counted? }
  function IsPopped(): Pc -> bool { (p: Pc) => p.Popped? }
  function IsReturning(): Pc -> bool { (p: Pc) => p.Returning? }
  function IsReturned(): Pc -> bool { (p: Pc) => p.Returned? }

  /** The thread has this connection in hand inside acquire or release. */
  function HasInHand(c: Conn): Pc -> bool {
    (p: Pc) => (p.Popped? || p.Created? || p.Counted? || p.Returning? || p.Returned?) && p.conn == c
  }

  /** In how many places a connection is: the idle list, clients, threads inside a call. */
  function Places(s: State, c: Conn): nat {
    Count(Is(c), s.idle) + s.held[c] + Count(HasInHand(c), s.pcs)
  }

  ghost predicate LockInv(s: State) {
    && (s.lock.HeldBy? ==> s.lock.thread < |s.pcs|)
    && (forall t :: 0 <= t < |s.pcs| ==> (InLock()(s.pcs[t]) <==> s.lock == HeldBy(t)))
  }

  /** Every connection is in at most one place, and only connections that were created are anywhere. */
  ghost predicate Unique(s: State) {
    forall c: Conn :: Places(s, c) <= if c < s.nextConn then 1 else 0
  }

  ghost predicate CountersInv(s: State) {
    && s.active == |s.held| + Count(IsCounted(), s.pcs) + Count(IsReturning(), s.pcs)
    && s.total == |s.held| + |s.idle| + Count(IsPopped(), s.pcs) + Count(IsReturning(), s.pcs) + Count(IsReturned(), s.pcs)
  }

  ghost predicate CapacityInv(cfg: Config, s: State) {
    s.total + Count(Pending(), s.pcs) <= cfg.maxConnections + |s.pcs| - 1
  }

  ghost predicate Inv(cfg: Config, s: State) {
    LockInv(s) && Unique(s) && CountersInv(s) && CapacityInv(cfg, s) && |s.idle| <= cfg.maxIdle
  }

  lemma InitialInv(cfg: Config, threads: nat)
    requires threads >= 1
    ensures Inv(cfg, Initial(threads))
  {
    CountFill(IsCounted(), threads, Out);
    CountFill(IsReturning(), threads, Out);
    CountFill(IsPopped(), threads, Out);
    CountFill(IsReturned(), threads, Out);
    CountFill(Pending(), threads, Out);
    forall c: Conn ensures Count(HasInHand(c), Fill(threads, Out)) == 0 {
      CountFill(HasInHand(c), threads, Out);
    }
  }

  /** How one thread's move changes the counts. */
  lemma CountsMove(pcs: seq<Pc>, t: nat, p: Pc)
    requires t < |pcs|
    ensures var moved := pcs[t := p];
            var q := pcs[t];
            && Count(IsCounted(), moved) == Count(IsCounted(), pcs) - (if q.Counted? then 1 else 0) + (if p.Counted? then 1 else 0)
            && Count(IsReturning(), moved) == Count(IsReturning(), pcs) - (if q.Returning? then 1 else 0) + (if p.Returning? then 1 else 0)
            && Count(IsPopped(), moved) == Count(IsPopped(), pcs) - (if q.Popped? then 1 else 0) + (if p.Popped? then 1 else 0)
            && Count(IsReturned(), moved) == Count(IsReturned(), pcs) - (if q.Returned? then 1 else 0) + (if p.Returned? then 1 else 0)
  {
    CountUpdate(IsCounted(), pcs, t, p);
    CountUpdate(IsReturning(), pcs, t, p);
    CountUpdate(IsPopped(), pcs, t, p);
    CountUpdate(IsReturned(), pcs, t, p);
  }

  lemma StepKeepsLock(cfg: Config, s: State, a: Action)
    requires LockInv(s) && Enabled(cfg, s, a)
    ensures LockInv(Next(cfg, s, a))
  {
    var s' := Next(cfg, s, a);
    forall t | 0 <= t < |s'.pcs| ensures InLock()(s'.pcs[t]) <==> s'.lock == HeldBy(t) {
      StepLockAt(cfg, s, a, t);
    }
    assert s'.lock.HeldBy? ==> s'.lock == s.lock || s'.lock.thread == a.t;
  }

  lemma StepLockAt(cfg: Config, s: State, a: Action, t: Thread)
    requires LockInv(s) && Enabled(cfg, s, a) && t < |s.pcs|
    ensures |Next(cfg, s, a).pcs| == |s.pcs|
    ensures InLock()(Next(cfg, s, a).pcs[t]) <==> Next(cfg, s, a).lock == HeldBy(t)
  {
    assert InLock()(s.pcs[t]) <==> s.lock == HeldBy(t);
    assert InLock()(s.pcs[a.t]) <==> s.lock == HeldBy(a.t);
  }

  lemma StepKeepsCounters(cfg: Config, s: State, a: Action)
    requires CountersInv(s) && Enabled(cfg, s, a)
    ensures CountersInv(Next(cfg, s, a))
  {
    hide Count;
    CountsMove(s.pcs, a.t, Next(cfg, s, a).pcs[a.t]);
    var s' := Next(cfg, s, a);
    assert s'.pcs == s.pcs[a.t := s'.pcs[a.t]];
  }

  /** Only Create adds a connection, and it is a new one; every other step moves or removes. */
  lemma StepMovesConnections(cfg: Config, s: State, a: Action, c: Conn)
    requires Enabled(cfg, s, a)
    ensures Places(Next(cfg, s, a), c) <= Places(s, c) + (if a.Create? && c == s.nextConn then 1 else 0)
  {
    hide Count;
    var s' := Next(cfg, s, a);
    CountUpdate(HasInHand(c), s.pcs, a.t, s'.pcs[a.t]);
    assert s'.pcs == s.pcs[a.t := s'.pcs[a.t]];
    if a.Pop? {
      CountSnoc(Is(c), s'.idle, s.idle[|s.idle| - 1]);
      assert s.idle == s'.idle + [s.idle[|s.idle| - 1]];
    } else if a.PutBack? {
      CountSnoc(Is(c), s.idle, s.pcs[a.t].conn);
    }
  }

  lemma StepKeepsUnique(cfg: Config, s: State, a: Action)
    requires Unique(s) && Enabled(cfg, s, a)
    ensures Unique(Next(cfg, s, a))
  {
    hide Places;
    var s' := Next(cfg, s, a);
    forall c: Conn ensures Places(s', c) <= if c < s'.nextConn then 1 else 0 {
      StepMovesConnections(cfg, s, a, c);
    }
  }

  lemma StepKeepsCapacity(cfg: Config, s: State, a: Action)
    requires CapacityInv(cfg, s) && Enabled(cfg, s, a)
    ensures CapacityInv(cfg, Next(cfg, s, a))
  {
    hide Count;
    var s' := Next(cfg, s, a);
    CountUpdate(Pending(), s.pcs, a.t, s'.pcs[a.t]);
    assert s'.pcs == s.pcs[a.t := s'.pcs[a.t]];
    if a.PassCheck? {
      CountBounded(Pending(), s.pcs);
      assert s.pcs[a.t] in s.pcs && !Pending()(s.pcs[a.t]);
    }
  }

  lemma StepKeepsInv(cfg: Config, s: State, a: Action)
    requires Inv(cfg, s) && Enabled(cfg, s, a)
    ensures Inv(cfg, Next(cfg, s, a))
  {
    hide LockInv, Unique, CountersInv, CapacityInv;
    StepKeepsLock(cfg, s, a);
    StepKeepsUnique(cfg, s, a);
    StepKeepsCounters(cfg, s, a);
    StepKeepsCapacity(cfg, s, a);
  }

  lemma {:induction false} RunKeepsInv(cfg: Config, s: State, run: seq<Action>)
    requires Inv(cfg, s) && ValidRun(cfg, s, run)
    ensures Inv(cfg, After(cfg, s, run)) && |After(cfg, s, run).pcs| == |s.pcs|
    decreases |run|
  {
    hide Inv, Next, Enabled;
    if run != [] {
      StepKeepsInv(cfg, s, run[0]);
      StepKeepsThreads(cfg, s, run[0]);
      RunKeepsInv(cfg, Next(cfg, s, run[0]), run[1..]);
    }
  }

  lemma StepKeepsThreads(cfg: Config, s: State, a: Action)
    requires Enabled(cfg, s, a)
    ensures |Next(cfg, s, a).pcs| == |s.pcs|
  {
  }

  // ---------------------------------------------------------------- what holds over every run

  /** Under every interleaving of T threads, total connections plus threads past the capacity check but not
      yet counted never exceeds max_connections + T - 1; one thread alone never exceeds max_connections. */
  lemma CapacityBound(cfg: Config, threads: nat, run: seq<Action>)
    requires threads >= 1 && ValidRun(cfg, Initial(threads), run)
    ensures var s := After(cfg, Initial(threads), run);
            && 0 <= s.total && s.total + Count(Pending(), s.pcs) <= cfg.maxConnections + threads - 1
            && (threads == 1 ==> s.total <= cfg.maxConnections)
  {
    InitialInv(cfg, threads);
    RunKeepsInv(cfg, Initial(threads), run);
  }

  /** Under every interleaving in which clients release each acquired connection at most once: no connection
      is both idle and held, idle twice, held twice, or in two threads' hands; the idle list stays within
      max_idle; and the counters differ from the truth only by the threads in the middle of an update. */
  lemma NoConnectionShared(cfg: Config, threads: nat, run: seq<Action>)
    requires threads >= 1 && ValidRun(cfg, Initial(threads), run)
    ensures var s := After(cfg, Initial(threads), run);
            && (forall c: Conn :: Count(Is(c), s.idle) + s.held[c] + Count(HasInHand(c), s.pcs) <= 1)
            && |s.idle| <= cfg.maxIdle
            && 0 <= s.active
            && s.active + |s.idle| + Count(IsPopped(), s.pcs) + Count(IsReturned(), s.pcs) ==
                 s.total + Count(IsCounted(), s.pcs)
  {
    InitialInv(cfg, threads);
    RunKeepsInv(cfg, Initial(threads), run);
    var s := After(cfg, Initial(threads), run);
    forall c: Conn ensures Count(Is(c), s.idle) + s.held[c] + Count(HasInHand(c), s.pcs) <= 1 {
      assert Places(s, c) <= 1;
    }
  }

  /** Whenever the lock is free, no thread is between two halves of a locked update, so active + idle is
      total plus the threads between the two unlocked increments. */
  lemma CountersWhenUnlocked(cfg: Config, threads: nat, run: seq<Action>)
    requires threads >= 1 && ValidRun(cfg, Initial(threads), run)
    requires After(cfg, Initial(threads), run).lock.Free?
    ensures var s := After(cfg, Initial(threads), run);
            s.active + |s.idle| == s.total + Count(IsCounted(), s.pcs)
  {
    NoConnectionShared(cfg, threads, run);
    InitialInv(cfg, threads);
    RunKeepsInv(cfg, Initial(threads), run);
    var s := After(cfg, Initial(threads), run);
    NoneSatisfy(IsPopped(), s.pcs);
    NoneSatisfy(IsReturned(), s.pcs);
  }

  lemma {:induction false} NoneSatisfy(p: Pc -> bool, pcs: seq<Pc>)
    requires forall t :: 0 <= t < |pcs| ==> !p(pcs[t])
    ensures Count(p, pcs) == 0
  {
    if pcs != [] {
      assert forall t :: 0 <= t < |pcs[1..]| ==> pcs[1..][t] == pcs[t + 1];
      NoneSatisfy(p, pcs[1..]);
    }
  }

  // ---------------------------------------------------------------- the bound is reached

  lemma {:induction false} RunAppend(cfg: Config, s: State, a: seq<Action>, b: seq<Action>)
    requires ValidRun(cfg, s, a) && ValidRun(cfg, After(cfg, s, a), b)
    ensures ValidRun(cfg, s, a + b) && After(cfg, s, a + b) == After(cfg, After(cfg, s, a), b)
    decreases |a|
  {
    hide Next, Enabled;
    if a == [] {
      assert a + b == b;
    } else {
      assert (a + b)[1..] == a[1..] + b;
      RunAppend(cfg, Next(cfg, s, a[0]), a[1..], b);
    }
  }

  /** Threads lo..hi-1 are past the check, all others outside; nothing idle, nobody holds the lock. */
  ghost predicate Gathered(s: State, threads: nat, lo: nat, hi: nat, total: int) {
    && s.idle == [] && s.lock.Free? && s.total == total && |s.pcs| == threads
    && (forall t :: 0 <= t < threads ==> s.pcs[t] == if lo <= t < hi then Creating else Out)
  }

  lemma PassOne(cfg: Config, s: State, threads: nat, hi: nat, total: nat) returns (run: seq<Action>)
    requires Gathered(s, threads, 0, hi, total) && hi < threads && total < cfg.maxConnections
    ensures ValidRun(cfg, s, run) && Gathered(After(cfg, s, run), threads, 0, hi + 1, total)
  {
    run := [Enter(hi), TakeLock(hi), PassCheck(hi)];
    var s1 := Next(cfg, s, Enter(hi));
    var s2 := Next(cfg, s1, TakeLock(hi));
    var s3 := Next(cfg, s2, PassCheck(hi));
    RunsThree(cfg, s, Enter(hi), TakeLock(hi), PassCheck(hi));
    assert After(cfg, s, run) == s3;
  }

  lemma CreateOne(cfg: Config, s: State, threads: nat, lo: nat, hi: nat, total: nat) returns (run: seq<Action>)
    requires Gathered(s, threads, lo, hi, total) && lo < hi <= threads
    ensures ValidRun(cfg, s, run) && Gathered(After(cfg, s, run), threads, lo + 1, hi, total + 1)
  {
    run := [Create(lo), CountActive(lo), CountTotal(lo)];
    var s1 := Next(cfg, s, Create(lo));
    var s2 := Next(cfg, s1, CountActive(lo));
    var s3 := Next(cfg, s2, CountTotal(lo));
    RunsThree(cfg, s, Create(lo), CountActive(lo), CountTotal(lo));
    assert After(cfg, s, run) == s3;
  }

  lemma RunsThree(cfg: Config, s: State, a: Action, b: Action, c: Action)
    requires Enabled(cfg, s, a) && Enabled(cfg, Next(cfg, s, a), b) && Enabled(cfg, Next(cfg, Next(cfg, s, a), b), c)
    ensures ValidRun(cfg, s, [a, b, c])
    ensures After(cfg, s, [a, b, c]) == Next(cfg, Next(cfg, Next(cfg, s, a), b), c)
  {
    hide Next, Enabled;
    var run := [a, b, c];
    var s1 := Next(cfg, s, a);
    var s2 := Next(cfg, s1, b);
    assert run[1..] == [b, c] && [b, c][1..] == [c] && [c][1..] == [];
    assert ValidRun(cfg, Next(cfg, s2, c), []);
    assert ValidRun(cfg, s2, [c]);
    assert ValidRun(cfg, s1, [b, c]);
    assert After(cfg, s2, [c]) == After(cfg, Next(cfg, s2, c), []);
    assert After(cfg, s1, [b, c]) == After(cfg, s2, [c]);
  }

  lemma {:induction false} PassAll(cfg: Config, s: State, threads: nat, hi: nat, total: nat) returns (run: seq<Action>)
    requires Gathered(s, threads, 0, hi, total) && hi <= threads && total < cfg.maxConnections
    ensures ValidRun(cfg, s, run) && Gathered(After(cfg, s, run), threads, 0, threads, total)
    decreases threads - hi
  {
    hide Next, Enabled;
    run := [];
    if hi < threads {
      var first := PassOne(cfg, s, threads, hi, total);
      var rest := PassAll(cfg, After(cfg, s, first), threads, hi + 1, total);
      RunAppend(cfg, s, first, rest);
      run := first + rest;
    }
  }

  lemma {:induction false} CreateAll(cfg: Config, s: State, threads: nat, lo: nat, total: nat) returns (run: seq<Action>)
    requires Gathered(s, threads, lo, threads, total) && lo <= threads
    ensures ValidRun(cfg, s, run) && After(cfg, s, run).total == total + (threads - lo)
    decreases threads - lo
  {
    hide Next, Enabled;
    run := [];
    if lo < threads {
      var first := CreateOne(cfg, s, threads, lo, threads, total);
      var rest := CreateAll(cfg, After(cfg, s, first), threads, lo + 1, total + 1);
      RunAppend(cfg, s, first, rest);
      run := first + rest;
    }
  }

  /** One thread fills the pool up to n connections. */
  lemma {:induction false} FillUp(cfg: Config, threads: nat, n: nat) returns (run: seq<Action>)
    requires threads >= 1 && n <= cfg.maxConnections
    ensures ValidRun(cfg, Initial(threads), run) && Gathered(After(cfg, Initial(threads), run), threads, 0, 0, n)
    decreases n
  {
    hide Next, Enabled;
    var s0 := Initial(threads);
    run := [];
    if n > 0 {
      var before := FillUp(cfg, threads, n - 1);
      var s1 := After(cfg, s0, before);
      var pass := PassOne(cfg, s1, threads, 0, n - 1);
      var s2 := After(cfg, s1, pass);
      var create := CreateOne(cfg, s2, threads, 0, 1, n - 1);
      RunAppend(cfg, s1, pass, create);
      RunAppend(cfg, s0, before, pass + create);
      run := before + (pass + create);
    }
  }

  /** The bound is exact: with T threads some interleaving does reach max_connections + T - 1. */
  lemma BoundIsReached(cfg: Config, threads: nat) returns (run: seq<Action>)
    requires threads >= 1 && cfg.maxConnections >= 1
    ensures ValidRun(cfg, Initial(threads), run)
    ensures After(cfg, Initial(threads), run).total == cfg.maxConnections + threads - 1
  {
    hide Next, Enabled;
    var s0 := Initial(threads);
    var fill := FillUp(cfg, threads, cfg.maxConnections - 1);
    var s1 := After(cfg, s0, fill);
    var pass := PassAll(cfg, s1, threads, 0, cfg.maxConnections - 1);
    var s2 := After(cfg, s1, pass);
    var create := CreateAll(cfg, s2, threads, 0, cfg.maxConnections - 1);
    RunAppend(cfg, s1, pass, create);
    RunAppend(cfg, s0, fill, pass + create);
    run := fill + (pass + create);
  }

  ghost predicate StaysWithinMax(cfg: Config, threads: nat) {
    forall run :: ValidRun(cfg, Initial(threads), run) ==> After(cfg, Initial(threads), run).total <= cfg.maxConnections
  }

  /** `max_connections` is a limit on every run exactly when one thread uses the pool (or the limit is 0,
      when nothing is ever created). */
  lemma MaxConnectionsHoldsIff(cfg: Config, threads: nat)
    requires threads >= 1
    ensures StaysWithinMax(cfg, threads) <==> threads == 1 || cfg.maxConnections == 0
  {
    if threads == 1 {
      forall run | ValidRun(cfg, Initial(threads), run)
        ensures After(cfg, Initial(threads), run).total <= cfg.maxConnections
      {
        CapacityBound(cfg, threads, run);
      }
    } else if cfg.maxConnections == 0 {
      forall run | ValidRun(cfg, Initial(threads), run)
        ensures After(cfg, Initial(threads), run).total <= cfg.maxConnections
      {
        InitialInv(cfg, threads);
        CountFill(Pending(), threads, Out);
        ClosedPoolStaysEmpty(cfg, Initial(threads), run);
      }
    } else {
      var run := BoundIsReached(cfg, threads);
    }
  }

  lemma {:induction false} ClosedPoolStaysEmpty(cfg: Config, s: State, run: seq<Action>)
    requires cfg.maxConnections == 0 && Inv(cfg, s) && ValidRun(cfg, s, run)
    requires s.total <= 0 && Count(Pending(), s.pcs) == 0
    ensures After(cfg, s, run).total <= 0
    decreases |run|
  {
    if run != [] {
      var a := run[0];
      var s' := Next(cfg, s, a);
      StepKeepsInv(cfg, s, a);
      CountUpdate(Pending(), s.pcs, a.t, s'.pcs[a.t]);
      assert s'.pcs == s.pcs[a.t := s'.pcs[a.t]];
      InvNonNegative(s);
      ClosedPoolStaysEmpty(cfg, s', run[1..]);
    }
  }

  lemma InvNonNegative(s: State)
    requires CountersInv(s)
    ensures s.total >= 0 && s.active >= 0
  {
  }

  // ---------------------------------------------------------------- the code

  /** A valid run can be extended by an enabled step. */
  lemma Extend(cfg: Config, s: State, run: seq<Action>, a: Action)
    requires Inv(cfg, s) && ValidRun(cfg, s, run) && Enabled(cfg, After(cfg, s, run), a)
    ensures ValidRun(cfg, s, run + [a])
    ensures After(cfg, s, run + [a]) == Next(cfg, After(cfg, s, run), a)
    ensures Inv(cfg, After(cfg, s, run + [a]))
  {
    hide Inv, Next, Enabled;
    var s1 := After(cfg, s, run);
    assert [a][1..] == [];
    assert ValidRun(cfg, Next(cfg, s1, a), []);
    assert ValidRun(cfg, s1, [a]);
    assert After(cfg, s1, [a]) == After(cfg, Next(cfg, s1, a), []);
    RunAppend(cfg, s, run, [a]);
    RunKeepsInv(cfg, s, run + [a]);
  }

  datatype Acquired = Connection(conn: Conn) | NoConnection | MustWait

  /** The pool object. `state` is the step system's view of it; each method below runs undisturbed and is
      shown to be a run of that system, so the class does what the steps say. */
  class ConnectionPool {
    const cfg: Config
    var idle: seq<Conn>
    var total: int
    var active: int
    var nextConn: Conn
    ghost var state: State

    ghost predicate Valid()
      reads this
    {
      && idle == state.idle && total == state.total && active == state.active && nextConn == state.nextConn
      && Inv(cfg, state)
    }

    ghost predicate Ran(before: State, run: seq<Action>)
      reads this
    {
      ValidRun(cfg, before, run) && state == After(cfg, before, run)
    }

    constructor (cfg: Config, ghost threads: nat)
      requires threads >= 1
      ensures Valid() && this.cfg == cfg && state == Initial(threads)
      ensures idle == [] && total == 0 && active == 0
    {
      this.cfg := cfg;
      idle, total, active, nextConn := [], 0, 0, 0;
      state := Initial(threads);
      InitialInv(cfg, threads);
    }

    ghost method Do(before: State, run: seq<Action>, a: Action) returns (run': seq<Action>)
      requires Inv(cfg, before) && Ran(before, run) && Enabled(cfg, state, a)
      modifies this`state
      ensures Ran(before, run') && state == Next(cfg, old(state), a) && Inv(cfg, state)
    {
      Extend(cfg, before, run, a);
      run' := run + [a];
      state := Next(cfg, state, a);
    }

    /** The draining loop. It takes the last idle connection that is still connected, drops the dead ones
        behind it and takes them off the total; with none connected it empties the list. */
    method Drain(ghost t: Thread, connected: set<Conn>, ghost before: State, ghost run0: seq<Action>)
        returns (conn: Acquired, ghost run: seq<Action>)
      requires Valid() && Inv(cfg, before) && Ran(before, run0)
      requires t < |state.pcs| && state.pcs[t].Scanning?
      modifies this
      ensures Valid() && Ran(before, run)
      ensures |idle| <= |old(idle)| && idle == old(idle)[..|idle|]
      ensures t < |state.pcs|
      ensures conn.NoConnection? <==> forall c :: c in old(idle) ==> c !in connected
      ensures conn.NoConnection? ==>
                idle == [] && state.pcs[t].Scanning? && total == old(total) - |old(idle)| && active == old(active)
      ensures conn.Connection? ==>
                && |idle| < |old(idle)| && conn.conn == old(idle)[|idle|] && conn.conn in connected
                && (forall i :: |idle| < i < |old(idle)| ==> old(idle)[i] !in connected)
                && total == old(total) - (|old(idle)| - 1 - |idle|) && active == old(active) + 1
                && conn.conn in state.held
      ensures !conn.MustWait? && nextConn == old(nextConn)
    {
      hide Inv, ValidRun, After;
      run := run0;
      while idle != []
        invariant Valid() && Ran(before, run) && t < |state.pcs| && state.pcs[t].Scanning?
        invariant |idle| <= |old(idle)| && idle == old(idle)[..|idle|]
        invariant forall i :: |idle| <= i < |old(idle)| ==> old(idle)[i] !in connected
        invariant total == old(total) - (|old(idle)| - |idle|) && active == old(active) && nextConn == old(nextConn)
        decreases |idle|
      {
        var last := |idle| - 1;
        var c := idle[last];
        idle := idle[..last];
        run := Do(before, run, Pop(t));
        if c in connected {
          active := active + 1;
          run := Do(before, run, TakeLive(t));
          return Connection(c), run;
        }
        total := total - 1;
        run := Do(before, run, DropDead(t));
      }
      return NoConnection, run;
    }

    /** `acquire` by one thread, up to the point where it would wait. With a live idle connection it takes the
        last one; otherwise the idle list is emptied, and it creates a connection if the total leaves room. */
    method Acquire(ghost t: Thread, connected: set<Conn>, createSucceeds: bool)
        returns (r: Acquired, ghost run: seq<Action>)
      requires Valid() && t < |state.pcs| && state.pcs[t].Entering? && state.lock.Free?
      modifies this
      ensures Valid() && Ran(old(state), run)
      ensures r.Connection? ==> r.conn in state.held
      ensures (exists c :: c in old(idle) && c in connected) ==>
                && |idle| < |old(idle)| && idle == old(idle)[..|idle|]
                && r == Connection(old(idle)[|idle|]) && r.conn in connected
                && (forall i :: |idle| < i < |old(idle)| ==> old(idle)[i] !in connected)
                && total == old(total) - (|old(idle)| - 1 - |idle|) && active == old(active) + 1
                && nextConn == old(nextConn)
      ensures (forall c :: c in old(idle) ==> c !in connected) ==>
                var left := old(total) - |old(idle)|;
                && idle == []
                && if left < cfg.maxConnections && createSucceeds
                   then r == Connection(old(nextConn)) && nextConn == old(nextConn) + 1
                        && total == left + 1 && active == old(active) + 1
                   else r == (if left < cfg.maxConnections then NoConnection else MustWait)
                        && nextConn == old(nextConn) && total == left && active == old(active)
    {
      hide Inv, ValidRun, After;
      ghost var before := state;
      StartRun(cfg, before);
      run := Do(before, [], TakeLock(t));
      r, run := Drain(t, connected, before, run);
      if r.Connection? {
        return;
      }
      r, run := CreateOrWait(t, createSucceeds, before, run);
    }

    /** The rest of `acquire`, with the idle list drained: create if the total leaves room, else wait. */
    method CreateOrWait(ghost t: Thread, createSucceeds: bool, ghost before: State, ghost run0: seq<Action>)
        returns (r: Acquired, ghost run: seq<Action>)
      requires Valid() && Inv(cfg, before) && Ran(before, run0) && idle == []
      requires t < |state.pcs| && state.pcs[t].Scanning?
      modifies this
      ensures Valid() && Ran(before, run) && idle == []
      ensures if old(total) < cfg.maxConnections && createSucceeds
              then r == Connection(old(nextConn)) && r.conn in state.held && nextConn == old(nextConn) + 1
                   && total == old(total) + 1 && active == old(active) + 1
              else r == (if old(total) < cfg.maxConnections then NoConnection else MustWait)
                   && nextConn == old(nextConn) && total == old(total) && active == old(active)
    {
      hide Inv, ValidRun, After;
      run := run0;
      if total < cfg.maxConnections {
        run := Do(before, run, PassCheck(t));
        if createSucceeds {
          var c := nextConn;
          nextConn := nextConn + 1;
          run := Do(before, run, Create(t));
          active := active + 1;
          run := Do(before, run, CountActive(t));
          total := total + 1;
          run := Do(before, run, CountTotal(t));
          return Connection(c), run;
        }
        run := Do(before, run, CreateFails(t));
        return NoConnection, run;
      }
      run := Do(before, run, Wait(t));
      return MustWait, run;
    }

    /** `release` of a connection a client holds. */
    method ReleaseConn(ghost t: Thread, conn: Conn, connected: bool) returns (ghost run: seq<Action>)
      requires Valid() && t < |state.pcs| && state.pcs[t].Out? && state.lock.Free? && conn in state.held
      modifies this
      ensures Valid() && Ran(old(state), run)
      ensures active == old(active) - 1 && state.held == old(state.held) - multiset{conn}
      ensures if connected && |old(idle)| < cfg.maxIdle
              then idle == old(idle) + [conn] && total == old(total)
              else idle == old(idle) && total == old(total) - 1
    {
      hide Inv, ValidRun, After;
      ghost var before := state;
      StartRun(cfg, before);
      run := Do(before, [], Release(t, conn));
      active := active - 1;
      run := Do(before, run, Uncount(t));
      if connected && |idle| < cfg.maxIdle {
        idle := idle + [conn];
        run := Do(before, run, PutBack(t));
      } else {
        total := total - 1;
        run := Do(before, run, Close(t));
      }
    }
  }

  lemma StartRun(cfg: Config, s: State)
    ensures ValidRun(cfg, s, []) && After(cfg, s, []) == s
  {
  }
}
