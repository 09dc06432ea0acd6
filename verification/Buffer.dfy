/** The growable, compacting byte buffer of net/buffer.hpp, as the sole owner of its block. */
module Buffer {
  import opened Modular
  import opened Bytes

  /** A buffer as a value: the bytes before the read position, the readable bytes, and the block's size.
      `first`, `copied` and `peak` record its history: the size of its first block, the bytes copied by
      growing, and the most bytes that were ever readable. */
  datatype View = View(hasBlock: bool, capacity: nat, behind: seq<Byte>, ahead: seq<Byte>,
                       first: nat, copied: nat, peak: nat)
  {
    predicate Valid() {
      && |ahead| <= peak
      && if hasBlock then |behind| + |ahead| <= capacity else capacity == 0 && behind == [] && ahead == []
    }

    function Writable(): nat
      requires Valid()
    {
      if hasBlock then capacity - |behind| - |ahead| else 0
    }

    function WithPeak(): View {
      this.(peak := Max(peak, |ahead|))
    }
  }

  datatype Op =
    | Write(data: seq<Byte>)
    | Read(n: nat)
    | Skip(n: nat)
    | Retreat(n: nat)
    | Compact
    | Clear

  /** `ensure_writable(size)`: nothing, or compact, or compact and grow. */
  function EnsureWritable(v: View, size: nat): (v': View)
    requires v.Valid()
    ensures v'.Valid() && v'.hasBlock && v'.ahead == v.ahead && v'.Writable() >= size
  {
    if !v.hasBlock then
      var capacity := Max(size, 4096);
      v.(hasBlock := true, capacity := capacity, first := capacity)
    else if v.Writable() >= size then v
    else if v.capacity - |v.ahead| >= size then v.(behind := [])
    else
      v.(behind := [], capacity := Max(v.capacity * 2, |v.ahead| + size), copied := v.copied + |v.ahead|)
  }

  /** `read` dereferences the block, so it needs one; every other operation is always possible. */
  predicate CanApply(v: View, op: Op) {
    op.Read? ==> v.hasBlock
  }

  /** An operation, and the bytes it takes off the front. */
  function Apply(v: View, op: Op): (r: (View, seq<Byte>))
    requires v.Valid() && CanApply(v, op)
    ensures r.0.Valid()
  {
    match op
    case Write(data) =>
      var w := EnsureWritable(v, |data|);
      (w.(ahead := w.ahead + data).WithPeak(), [])
    case Read(n) =>
      var k := Min(n, |v.ahead|);
      (v.(behind := v.behind + v.ahead[..k], ahead := v.ahead[k..]).WithPeak(), v.ahead[..k])
    case Skip(n) =>
      var k := Min(n, |v.ahead|);
      (v.(behind := v.behind + v.ahead[..k], ahead := v.ahead[k..]).WithPeak(), v.ahead[..k])
    case Retreat(n) =>
      var at := |v.behind| - Min(n, |v.behind|);
      (v.(behind := v.behind[..at], ahead := v.behind[at..] + v.ahead).WithPeak(), [])
    case Compact => (v.(behind := []).WithPeak(), [])
    case Clear => (v.(behind := [], ahead := []).WithPeak(), [])
  }

  predicate ValidOps(v: View, ops: seq<Op>)
    requires v.Valid()
    decreases |ops|
  {
    ops == [] || (CanApply(v, ops[0]) && ValidOps(Apply(v, ops[0]).0, ops[1..]))
  }

  function Run(v: View, ops: seq<Op>): (v': View)
    requires v.Valid() && ValidOps(v, ops)
    ensures v'.Valid()
    decreases |ops|
  {
    if ops == [] then v else Run(Apply(v, ops[0]).0, ops[1..])
  }

  function Fresh(): View {
    View(false, 0, [], [], 0, 0, 0)
  }

  function FreshWith(capacity: nat): View {
    View(true, capacity, [], [], capacity, 0, 0)
  }

  // ---------------------------------------------------------------- a stream and a position in it

  /** The specification: everything ever written, and how far reading has got. */
  datatype Stream = Stream(bytes: seq<Byte>, pos: nat)

  predicate Shows(v: View, s: Stream) {
    && |v.behind| <= s.pos <= |s.bytes|
    && v.ahead == s.bytes[s.pos..]
    && v.behind == s.bytes[s.pos - |v.behind|..s.pos]
  }

  /** The stream does not know about blocks: it takes from the buffer only how far a retreat can go. */
  function StreamStep(s: Stream, op: Op, kept: nat): Stream
    requires kept <= s.pos <= |s.bytes|
  {
    match op
    case Write(data) => s.(bytes := s.bytes + data)
    case Read(n) => s.(pos := s.pos + Min(n, |s.bytes| - s.pos))
    case Skip(n) => s.(pos := s.pos + Min(n, |s.bytes| - s.pos))
    case Retreat(n) => s.(pos := s.pos - Min(n, kept))
    case Compact => s
    case Clear => s.(pos := |s.bytes|)
  }

  function StreamRun(v: View, s: Stream, ops: seq<Op>): Stream
    requires v.Valid() && ValidOps(v, ops) && Shows(v, s)
    decreases |ops|
  {
    if ops == [] then s
    else
      StepShows(v, s, ops[0]);
      StreamRun(Apply(v, ops[0]).0, StreamStep(s, ops[0], |v.behind|), ops[1..])
  }

  /** Each operation does to the buffer what it does to the stream, and a read or skip takes exactly the
      next bytes of the stream. Compaction and growth never change what is readable. */
  lemma StepShows(v: View, s: Stream, op: Op)
    requires v.Valid() && CanApply(v, op) && Shows(v, s)
    ensures Shows(Apply(v, op).0, StreamStep(s, op, |v.behind|))
    ensures (op.Read? || op.Skip?) ==> Apply(v, op).1 == s.bytes[s.pos..StreamStep(s, op, |v.behind|).pos]
  {
    hide Apply, StreamStep, Min;
    match op
    case Write(data) => WriteShows(v, s, data);
    case Read(n) => TakeShows(v, s, n);
    case Skip(n) => TakeShows(v, s, n);
    case Retreat(n) => RetreatShows(v, s, n);
    case Compact => DropShows(v, s);
    case Clear => DropShows(v, s);
  }

  lemma DropShows(v: View, s: Stream)
    requires v.Valid() && Shows(v, s)
    ensures Shows(Apply(v, Compact).0, StreamStep(s, Compact, |v.behind|))
    ensures Shows(Apply(v, Clear).0, StreamStep(s, Clear, |v.behind|))
  {
    hide Apply;
    AppliedDrop(v);
  }

  lemma AppliedDrop(v: View)
    requires v.Valid()
    ensures Apply(v, Compact) == (v.(behind := []), [])
    ensures Apply(v, Clear) == (v.(behind := [], ahead := []), [])
  {
    hide EnsureWritable;
  }

  lemma AppliedRetreat(v: View, n: nat)
    requires v.Valid()
    ensures var at := |v.behind| - Min(n, |v.behind|);
            Apply(v, Retreat(n)) == (v.(behind := v.behind[..at], ahead := v.behind[at..] + v.ahead).WithPeak(), [])
    ensures var v', at := Apply(v, Retreat(n)).0, |v.behind| - Min(n, |v.behind|);
            v'.behind == v.behind[..at] && v'.ahead == v.behind[at..] + v.ahead
  {
    hide EnsureWritable;
  }

  lemma AppliedWrite(v: View, data: seq<Byte>)
    requires v.Valid()
    ensures var w := EnsureWritable(v, |data|);
            Apply(v, Write(data)) == (w.(ahead := w.ahead + data).WithPeak(), [])
  {
    hide EnsureWritable;
  }

  lemma WriteShows(v: View, s: Stream, data: seq<Byte>)
    requires v.Valid() && Shows(v, s)
    ensures Shows(Apply(v, Write(data)).0, StreamStep(s, Write(data), |v.behind|))
  {
    hide Apply;
    AppliedWrite(v, data);
    var bytes := s.bytes + data;
    assert bytes[s.pos..] == s.bytes[s.pos..] + data;
    assert bytes[s.pos - |v.behind|..s.pos] == s.bytes[s.pos - |v.behind|..s.pos];
  }

  lemma RetreatShows(v: View, s: Stream, n: nat)
    requires v.Valid() && Shows(v, s)
    ensures Shows(Apply(v, Retreat(n)).0, StreamStep(s, Retreat(n), |v.behind|))
  {
    hide Apply, Shows, Min, View.Valid, View.WithPeak;
    AheadLength(v, s);
    AppliedRetreat(v, n);
    ShownAfterRetreat(v, s, |v.behind| - Min(n, |v.behind|), Apply(v, Retreat(n)).0);
  }

  lemma ShownAfterRetreat(v: View, s: Stream, at: nat, v': View)
    requires Shows(v, s) && at <= |v.behind|
    requires v'.behind == v.behind[..at] && v'.ahead == v.behind[at..] + v.ahead
    ensures s.pos + at >= |v.behind|
    ensures Shows(v', Stream(s.bytes, s.pos + at - |v.behind|))
  {
    GiveBack(s.bytes, s.pos - |v.behind|, s.pos, at);
  }

  lemma GiveBack(bytes: seq<Byte>, from: nat, to: nat, at: nat)
    requires from + at <= to <= |bytes|
    ensures bytes[from..to][..at] == bytes[from..from + at]
    ensures bytes[from..to][at..] + bytes[to..] == bytes[from + at..]
  {
  }

  lemma TakeShows(v: View, s: Stream, n: nat)
    requires v.Valid() && Shows(v, s)
    ensures v.hasBlock ==> Shows(Apply(v, Read(n)).0, StreamStep(s, Read(n), |v.behind|))
    ensures v.hasBlock ==> Apply(v, Read(n)).1 == s.bytes[s.pos..StreamStep(s, Read(n), |v.behind|).pos]
    ensures Shows(Apply(v, Skip(n)).0, StreamStep(s, Skip(n), |v.behind|))
    ensures Apply(v, Skip(n)).1 == s.bytes[s.pos..StreamStep(s, Skip(n), |v.behind|).pos]
  {
    hide Apply, Shows, Min, View.Valid;
    AheadLength(v, s);
    AppliedTake(v, n);
    var k := Min(n, |v.ahead|);
    ShownAfterTake(v, s, k, Apply(v, Skip(n)).0);
    if v.hasBlock {
      ShownAfterTake(v, s, k, Apply(v, Read(n)).0);
    }
  }

  lemma AheadLength(v: View, s: Stream)
    requires Shows(v, s)
    ensures |v.behind| <= s.pos <= |s.bytes| && |v.ahead| == |s.bytes| - s.pos
  {
  }

  lemma ShownAfterTake(v: View, s: Stream, k: nat, v': View)
    requires Shows(v, s) && k <= |v.ahead|
    requires v'.behind == v.behind + v.ahead[..k] && v'.ahead == v.ahead[k..]
    ensures Shows(v', Stream(s.bytes, s.pos + k))
    ensures s.pos + k <= |s.bytes| && v.ahead[..k] == s.bytes[s.pos..s.pos + k]
  {
    TakenSlices(v, s, k);
  }

  lemma AppliedTake(v: View, n: nat)
    requires v.Valid()
    ensures var (v', out) := Apply(v, Skip(n));
            var k := Min(n, |v.ahead|);
            v'.behind == v.behind + v.ahead[..k] && v'.ahead == v.ahead[k..] && out == v.ahead[..k]
    ensures v.hasBlock ==> Apply(v, Read(n)) == Apply(v, Skip(n))
  {
    hide EnsureWritable;
  }

  lemma TakenSlices(v: View, s: Stream, k: nat)
    requires Shows(v, s) && k <= |v.ahead|
    ensures v.ahead[..k] == s.bytes[s.pos..s.pos + k] && v.ahead[k..] == s.bytes[s.pos + k..]
    ensures v.behind + v.ahead[..k] == s.bytes[s.pos - |v.behind|..s.pos + k]
  {
    TakeSlices(s.bytes, s.pos, |s.bytes|, k);
  }

  /** Over every run, the buffer is the stream of all bytes written, seen from the reading position. */
  lemma {:induction false} BufferIsStream(v: View, s: Stream, ops: seq<Op>)
    requires v.Valid() && ValidOps(v, ops) && Shows(v, s)
    ensures Shows(Run(v, ops), StreamRun(v, s, ops))
    decreases |ops|
  {
    hide Apply, StreamStep;
    if ops != [] {
      StepShows(v, s, ops[0]);
      BufferIsStream(Apply(v, ops[0]).0, StreamStep(s, ops[0], |v.behind|), ops[1..]);
    }
  }

  function Written(ops: seq<Op>): seq<Byte> {
    if ops == [] then []
    else (if ops[0].Write? then ops[0].data else []) + Written(ops[1..])
  }

  function Taken(v: View, ops: seq<Op>): seq<Byte>
    requires v.Valid() && ValidOps(v, ops)
    decreases |ops|
  {
    if ops == [] then [] else Apply(v, ops[0]).1 + Taken(Apply(v, ops[0]).0, ops[1..])
  }

  /** First in, first out: with no retreat and no clear, what was taken followed by what is still readable
      is what was readable at the start followed by everything written. */
  lemma {:induction false} FirstInFirstOut(v: View, ops: seq<Op>)
    requires v.Valid() && ValidOps(v, ops)
    requires forall op :: op in ops ==> !op.Retreat? && !op.Clear?
    ensures Taken(v, ops) + Run(v, ops).ahead == v.ahead + Written(ops)
    decreases |ops|
  {
    hide Apply;
    if ops != [] {
      var op := ops[0];
      assert op in ops;
      var (v1, out) := Apply(v, op);
      TakesTheFront(v, op);
      FirstInFirstOut(v1, ops[1..]);
      Regroup(out, Taken(v1, ops[1..]), Run(v1, ops[1..]).ahead, v1.ahead, v.ahead,
              if op.Write? then op.data else [], Written(ops[1..]));
    }
  }

  lemma Regroup(out: seq<Byte>, taken: seq<Byte>, left: seq<Byte>, mid: seq<Byte>, start: seq<Byte>,
                w: seq<Byte>, ws: seq<Byte>)
    requires taken + left == mid + ws && out + mid == start + w
    ensures (out + taken) + left == start + (w + ws)
  {
    assert (out + taken) + left == out + (taken + left);
    assert out + (mid + ws) == (out + mid) + ws;
    assert (start + w) + ws == start + (w + ws);
  }

  lemma TakesTheFront(v: View, op: Op)
    requires v.Valid() && CanApply(v, op) && !op.Retreat? && !op.Clear?
    ensures Apply(v, op).1 + Apply(v, op).0.ahead == v.ahead + if op.Write? then op.data else []
  {
  }

  // ---------------------------------------------------------------- going back

  lemma StepAppends(s: Stream, op: Op, kept: nat)
    requires kept <= s.pos <= |s.bytes|
    ensures StreamStep(s, op, kept).bytes == s.bytes + if op.Write? then op.data else []
  {
  }

  lemma {:induction false} StreamHoldsAll(v: View, s: Stream, ops: seq<Op>)
    requires v.Valid() && ValidOps(v, ops) && Shows(v, s)
    ensures StreamRun(v, s, ops).bytes == s.bytes + Written(ops)
    decreases |ops|
  {
    hide Apply, StreamStep;
    if ops == [] {
      assert s.bytes + [] == s.bytes;
    } else {
      StepShows(v, s, ops[0]);
      StreamHoldsAll(Apply(v, ops[0]).0, StreamStep(s, ops[0], |v.behind|), ops[1..]);
      var w := if ops[0].Write? then ops[0].data else [];
      StepAppends(s, ops[0], |v.behind|);
      assert (s.bytes + w) + Written(ops[1..]) == s.bytes + (w + Written(ops[1..]));
    }
  }

  /** After any run that moved the reading position forward by n bytes in all, a retreat by n makes readable
      again what was readable before, followed by all that was written since, exactly if the read position
      in the block is still at least n. */
  lemma RetreatRestoresIff(v: View, s: Stream, ops: seq<Op>)
    requires v.Valid() && ValidOps(v, ops) && Shows(v, s)
    requires StreamRun(v, s, ops).pos >= s.pos
    ensures var n := StreamRun(v, s, ops).pos - s.pos;
            var r := Run(v, ops);
            Apply(r, Retreat(n)).0.ahead == v.ahead + Written(ops) <==> |r.behind| >= n
  {
    hide Run, StreamRun, Written, Apply, Shows, ValidOps;
    BufferIsStream(v, s, ops);
    StreamHoldsAll(v, s, ops);
    var s' := StreamRun(v, s, ops);
    RetreatReaches(Run(v, ops), s', s'.pos - s.pos);
    TailGrows(v, s, Written(ops));
  }

  lemma TailGrows(v: View, s: Stream, w: seq<Byte>)
    requires Shows(v, s)
    ensures s.pos <= |s.bytes| && (s.bytes + w)[s.pos..] == v.ahead + w
  {
  }

  lemma RetreatReaches(r: View, s: Stream, n: nat)
    requires r.Valid() && Shows(r, s) && n <= s.pos
    ensures s.pos <= |s.bytes| && (Apply(r, Retreat(n)).0.ahead == s.bytes[s.pos - n..] <==> |r.behind| >= n)
  {
    hide Apply;
    RetreatShows(r, s, n);
  }

  /** The step moves bytes within the block, or drops some of it. */
  predicate Compacts(v: View, op: Op)
    requires v.Valid()
  {
    match op
    case Write(data) => v.hasBlock && v.behind != [] && v.Writable() < |data|
    case Compact => v.behind != []
    case Clear => v.behind != [] || v.ahead != []
    case _ => false
  }

  predicate NeverCompacts(v: View, ops: seq<Op>)
    requires v.Valid() && ValidOps(v, ops)
    decreases |ops|
  {
    ops == [] || (!Compacts(v, ops[0]) && NeverCompacts(Apply(v, ops[0]).0, ops[1..]))
  }

  lemma StepKeepsBytes(v: View, op: Op)
    requires v.Valid() && CanApply(v, op) && !Compacts(v, op)
    ensures var v1 := Apply(v, op).0;
            v1.behind + v1.ahead == v.behind + v.ahead + if op.Write? then op.data else []
  {
    hide Apply;
    match op
    case Write(data) => WriteKeepsBytes(v, data);
    case Retreat(n) => RetreatKeepsBytes(v, n);
    case Read(n) => TakeKeepsBytes(v, n);
    case Skip(n) => TakeKeepsBytes(v, n);
    case Compact => DropKeepsBytes(v);
    case Clear => DropKeepsBytes(v);
  }

  lemma WriteKeepsBytes(v: View, data: seq<Byte>)
    requires v.Valid() && !Compacts(v, Write(data))
    ensures var v1 := Apply(v, Write(data)).0; v1.behind + v1.ahead == v.behind + v.ahead + data
  {
    hide Apply;
    AppliedWrite(v, data);
    assert EnsureWritable(v, |data|).behind == v.behind;
    assert v.behind + (v.ahead + data) == v.behind + v.ahead + data;
  }

  lemma RetreatKeepsBytes(v: View, n: nat)
    requires v.Valid()
    ensures var v1 := Apply(v, Retreat(n)).0; v1.behind + v1.ahead == v.behind + v.ahead + []
  {
    hide Apply;
    AppliedRetreat(v, n);
    var at := |v.behind| - Min(n, |v.behind|);
    assert v.behind == v.behind[..at] + v.behind[at..];
    assert v.behind[..at] + (v.behind[at..] + v.ahead) == v.behind + v.ahead + [];
  }

  lemma TakeKeepsBytes(v: View, n: nat)
    requires v.Valid()
    ensures var v1 := Apply(v, Skip(n)).0; v1.behind + v1.ahead == v.behind + v.ahead + []
    ensures v.hasBlock ==> var v1 := Apply(v, Read(n)).0; v1.behind + v1.ahead == v.behind + v.ahead + []
  {
    hide Apply;
    AppliedTake(v, n);
    var k := Min(n, |v.ahead|);
    assert (v.behind + v.ahead[..k]) + v.ahead[k..] == v.behind + v.ahead + [];
  }

  lemma DropKeepsBytes(v: View)
    requires v.Valid()
    ensures var v1 := Apply(v, Compact).0;
            !Compacts(v, Compact) ==> v1.behind + v1.ahead == v.behind + v.ahead + []
    ensures var v1 := Apply(v, Clear).0;
            !Compacts(v, Clear) ==> v1.behind + v1.ahead == v.behind + v.ahead + []
  {
    hide Apply;
    AppliedDrop(v);
  }

  lemma {:induction false} RunKeepsBytes(v: View, ops: seq<Op>)
    requires v.Valid() && ValidOps(v, ops) && NeverCompacts(v, ops)
    ensures Run(v, ops).behind + Run(v, ops).ahead == v.behind + v.ahead + Written(ops)
    decreases |ops|
  {
    hide Apply, Compacts;
    if ops == [] {
      assert v.behind + v.ahead + [] == v.behind + v.ahead;
    } else {
      var v1 := Apply(v, ops[0]).0;
      StepKeepsBytes(v, ops[0]);
      RunKeepsBytes(v1, ops[1..]);
      var w := if ops[0].Write? then ops[0].data else [];
      assert (v.behind + v.ahead + w) + Written(ops[1..]) == v.behind + v.ahead + (w + Written(ops[1..]));
    }
  }

  /** Over any run in which no step compacts, the view can be restored, with what was written meanwhile at its
      end: by a retreat if the reading position has moved forward, by a skip if it has moved back. */
  lemma RetreatUndoesRun(v: View, ops: seq<Op>)
    requires v.Valid() && ValidOps(v, ops) && NeverCompacts(v, ops)
    ensures var r := Run(v, ops);
            var forward := |r.behind| - |v.behind|;
            var back := Apply(r, if forward >= 0 then Retreat(forward) else Skip(-forward)).0;
            back.behind == v.behind && back.ahead == v.ahead + Written(ops)
  {
    hide Run, Written, NeverCompacts, ValidOps;
    RunKeepsBytes(v, ops);
    var r := Run(v, ops);
    var all := r.behind + r.ahead;
    var at := |v.behind|;
    assert v.behind + v.ahead + Written(ops) == v.behind + (v.ahead + Written(ops));
    assert all[..at] == v.behind && all[at..] == v.ahead + Written(ops);
    if |r.behind| >= at {
      assert all[..at] == r.behind[..at] && all[at..] == r.behind[at..] + r.ahead;
    } else {
      var k := at - |r.behind|;
      assert all[..at] == r.behind + r.ahead[..k] && all[at..] == r.ahead[k..];
    }
  }

  // ---------------------------------------------------------------- cost

  /** Bounds that every operation keeps. `initial` is the capacity the buffer was constructed with. */
  predicate Frugal(v: View, initial: nat) {
    && v.Valid()
    && v.capacity <= Max(Max(initial, 4096), 2 * v.peak)
    && (v.hasBlock ==> v.first + v.copied <= v.capacity)
    && (!v.hasBlock ==> v.first == v.copied == 0)
  }

  lemma StepFrugal(v: View, op: Op, initial: nat)
    requires Frugal(v, initial) && CanApply(v, op)
    ensures Frugal(Apply(v, op).0, initial)
  {
  }

  /** Over every run, the capacity never exceeds the largest of the initial capacity, 4096 and twice the
      peak readable size, and all growth steps together have copied at most the current capacity minus
      the first block's: growing costs less than one copy per byte of the final block. */
  lemma {:induction false} RunIsFrugal(v: View, ops: seq<Op>, initial: nat)
    requires Frugal(v, initial) && ValidOps(v, ops)
    ensures Frugal(Run(v, ops), initial)
    decreases |ops|
  {
    hide Apply;
    if ops != [] {
      StepFrugal(v, ops[0], initial);
      RunIsFrugal(Apply(v, ops[0]).0, ops[1..], initial);
    }
  }

  /** The most bytes that were readable at any moment of a run. */
  function PeakReadable(v: View, ops: seq<Op>): nat
    requires v.Valid() && ValidOps(v, ops)
    decreases |ops|
  {
    if ops == [] then |v.ahead| else Max(|v.ahead|, PeakReadable(Apply(v, ops[0]).0, ops[1..]))
  }

  /** The bytes copied by all steps of a run that replace the block by a bigger one. */
  function GrowthCopies(v: View, ops: seq<Op>): nat
    requires v.Valid() && ValidOps(v, ops)
    decreases |ops|
  {
    if ops == [] then 0
    else
      var v1 := Apply(v, ops[0]).0;
      (if v.hasBlock && v1.capacity != v.capacity then |v.ahead| else 0) + GrowthCopies(v1, ops[1..])
  }

  lemma {:induction false} HistoryIsKept(v: View, ops: seq<Op>)
    requires v.Valid() && ValidOps(v, ops)
    ensures Run(v, ops).peak == Max(v.peak, PeakReadable(v, ops))
    ensures Run(v, ops).copied == v.copied + GrowthCopies(v, ops)
    decreases |ops|
  {
    hide Apply;
    if ops != [] {
      StepKeepsHistory(v, ops[0]);
      HistoryIsKept(Apply(v, ops[0]).0, ops[1..]);
    }
  }

  lemma StepKeepsHistory(v: View, op: Op)
    requires v.Valid() && CanApply(v, op)
    ensures var v1 := Apply(v, op).0;
            && v1.peak == Max(v.peak, |v1.ahead|)
            && v1.copied == v.copied + if v.hasBlock && v1.capacity != v.capacity then |v.ahead| else 0
  {
    if op.Write? && v.hasBlock && v.capacity - |v.ahead| < |op.data| {
      assert v.capacity < |v.ahead| + |op.data|;
    }
  }

  /** The same from construction on, with and without a first block, in terms of the run alone. */
  lemma FreshRunIsFrugal(capacity: nat, ops: seq<Op>)
    ensures ValidOps(Fresh(), ops) ==>
              var v := Run(Fresh(), ops);
              v.capacity <= Max(4096, 2 * PeakReadable(Fresh(), ops)) && GrowthCopies(Fresh(), ops) <= v.capacity - v.first
    ensures ValidOps(FreshWith(capacity), ops) ==>
              var v0 := FreshWith(capacity);
              var v := Run(v0, ops);
              && v.capacity <= Max(Max(capacity, 4096), 2 * PeakReadable(v0, ops))
              && GrowthCopies(v0, ops) <= v.capacity - capacity
  {
    hide Apply;
    if ValidOps(Fresh(), ops) {
      RunIsFrugal(Fresh(), ops, 0);
      HistoryIsKept(Fresh(), ops);
    }
    if ValidOps(FreshWith(capacity), ops) {
      RunIsFrugal(FreshWith(capacity), ops, capacity);
      HistoryIsKept(FreshWith(capacity), ops);
      FirstBlockStays(FreshWith(capacity), ops);
    }
  }

  lemma {:induction false} FirstBlockStays(v: View, ops: seq<Op>)
    requires v.Valid() && v.hasBlock && ValidOps(v, ops)
    ensures Run(v, ops).hasBlock && Run(v, ops).first == v.first
    decreases |ops|
  {
    if ops != [] {
      FirstBlockStays(Apply(v, ops[0]).0, ops[1..]);
    }
  }

  // ---------------------------------------------------------------- the code

  /** memmove towards the front of the same array. */
  method MoveDown(a: array<Byte>, from: nat, size: nat)
    requires from + size <= a.Length
    modifies a
    ensures a[..size] == old(a[from..from + size])
  {
    var i := 0;
    while i < size
      invariant 0 <= i <= size
      invariant a[..i] == old(a[from..from + i])
      invariant forall j :: from + i <= j < a.Length ==> a[j] == old(a[j])
    {
      a[i] := a[from + i];
      i := i + 1;
    }
  }

  lemma TakeSlices(bytes: seq<Byte>, from: nat, to: nat, k: nat)
    requires from + k <= to <= |bytes|
    ensures bytes[from..to][..k] == bytes[from..from + k]
    ensures bytes[from..to][k..] == bytes[from + k..to]
    ensures bytes[..from + k] == bytes[..from] + bytes[from..from + k]
  {
  }

  lemma EnsureEasily(v: View, size: nat)
    requires v.Valid()
    ensures v.hasBlock && v.Writable() >= size ==> EnsureWritable(v, size) == v
    ensures var room := Max(size, 4096);
            && room >= size
            && (!v.hasBlock ==> EnsureWritable(v, size) == v.(hasBlock := true, capacity := room, first := room))
  {
  }

  lemma EnsureByCompacting(v: View, size: nat)
    requires v.Valid() && v.hasBlock && v.Writable() < size
    ensures var c := Apply(v, Compact).0;
            && c.hasBlock && c.behind == []
            && EnsureWritable(v, size) ==
                 if c.Writable() >= size then c
                 else c.(capacity := Max(c.capacity * 2, |c.ahead| + size), copied := c.copied + |c.ahead|)
  {
  }

  class Buffer {
    var block: array?<Byte>
    var readPos: nat
    var writePos: nat
    ghost var first: nat
    ghost var copied: nat
    ghost var peak: nat

    ghost predicate Valid()
      reads this, block
    {
      && readPos <= writePos && writePos - readPos <= peak
      && if block == null then readPos == writePos == 0 else writePos <= block.Length
    }

    ghost function Value(): (v: View)
      requires Valid()
      reads this, block
      ensures v.Valid()
    {
      if block == null then View(false, 0, [], [], first, copied, peak)
      else View(true, block.Length, block[..readPos], block[readPos..writePos], first, copied, peak)
    }

    constructor ()
      ensures Valid() && Value() == Fresh()
      ensures block == null && readPos == writePos == 0
    {
      block, readPos, writePos := null, 0, 0;
      first, copied, peak := 0, 0, 0;
    }

    constructor WithCapacity(capacity: nat)
      ensures Valid() && Value() == FreshWith(capacity) && fresh(block)
      ensures block != null && block.Length == capacity && readPos == writePos == 0
    {
      block := new Byte[capacity];
      readPos, writePos := 0, 0;
      first, copied, peak := capacity, 0, 0;
    }

    /** The readable bytes move to the front of the block. */
    method CompactBlock()
      requires Valid()
      modifies this`readPos, this`writePos, block
      ensures Valid() && block == old(block) && Value() == Apply(old(Value()), Compact).0
      ensures readPos == 0 && writePos == old(writePos - readPos)
    {
      if readPos > 0 {
        var size := writePos - readPos;
        MoveDown(block, readPos, size);
        readPos := 0;
        writePos := size;
      }
    }

    method MakeWritable(size: nat)
      requires Valid()
      modifies this, block
      ensures Valid() && block != null && (block == old(block) || fresh(block))
      ensures Value() == EnsureWritable(old(Value()), size)
      ensures writePos + size <= block.Length
      ensures old(block) == null ==> block.Length == if size > 4096 then size else 4096
      ensures old(block) != null && old(writePos) + size <= old(block).Length ==>
                block == old(block) && readPos == old(readPos) && writePos == old(writePos)
      ensures old(block) != null && old(writePos) + size > old(block).Length ==>
                var readable := old(writePos - readPos);
                && readPos == 0 && writePos == readable
                && if readable + size <= old(block).Length then block == old(block)
                   else block.Length ==
                          if 2 * old(block).Length > readable + size then 2 * old(block).Length else readable + size
    {
      hide EnsureWritable, Apply, Max;
      EnsureEasily(Value(), size);
      if block == null {
        block := new Byte[Max(size, 4096)];
        first := block.Length;
        return;
      }
      if block.Length - writePos >= size {
        return;
      }
      EnsureByCompacting(Value(), size);
      CompactBlock();
      if block.Length - writePos >= size {
        return;
      }
      Grow(size);
    }

    /** A bigger block, with the readable bytes copied over. */
    method Grow(size: nat)
      requires Valid() && block != null && readPos == 0
      modifies this`block, this`copied
      ensures Valid() && block != null && fresh(block) && writePos + size <= block.Length
      ensures var v := old(Value());
              Value() == v.(capacity := Max(v.capacity * 2, |v.ahead| + size), copied := v.copied + |v.ahead|)
    {
      var bigger := new Byte[Max(block.Length * 2, writePos + size)];
      CopyBytes(bigger, 0, block[..writePos]);
      assert bigger[0..writePos] == block[0..writePos];
      copied := copied + writePos;
      block := bigger;
    }

    method WriteBytes(data: seq<Byte>)
      requires Valid()
      modifies this, block
      ensures Valid() && (block == old(block) || fresh(block))
      ensures Value() == Apply(old(Value()), Write(data)).0
    {
      hide EnsureWritable, Apply, Max;
      AppliedWrite(Value(), data);
      MakeWritable(|data|);
      CopyIn(data);
    }

    /** The bytes go behind the readable ones, where there is room for them. */
    method CopyIn(data: seq<Byte>)
      requires Valid() && block != null && writePos + |data| <= block.Length
      modifies this`writePos, this`peak, block
      ensures Valid() && Value() == old(Value()).(ahead := old(Value()).ahead + data).WithPeak()
      ensures readPos == old(readPos) && writePos == old(writePos) + |data|
    {
      hide Max;
      ghost var v := Value();
      CopyBytes(block, writePos, data);
      assert block[..readPos] == v.behind && block[readPos..writePos] == v.ahead;
      writePos := writePos + |data|;
      assert block[readPos..writePos] == v.ahead + data;
      peak := Max(peak, writePos - readPos);
    }

    method ReadBytes(n: nat) returns (data: seq<Byte>)
      requires Valid() && block != null
      modifies this`readPos, this`peak
      ensures Valid() && (Value(), data) == Apply(old(Value()), Read(n))
      ensures |data| == (if n < old(writePos - readPos) then n else old(writePos - readPos))
      ensures readPos == old(readPos) + |data| && data == block[old(readPos)..readPos]
    {
      var size := Min(n, writePos - readPos);
      TakeSlices(block[..], readPos, writePos, size);
      data := block[readPos..readPos + size];
      readPos := readPos + size;
      peak := Max(peak, writePos - readPos);
    }

    method SkipBytes(n: nat)
      requires Valid()
      modifies this`readPos, this`peak
      ensures Valid() && Value() == Apply(old(Value()), Skip(n)).0
      ensures readPos == old(readPos) + if n < old(writePos - readPos) then n else old(writePos - readPos)
    {
      if block != null {
        TakeSlices(block[..], readPos, writePos, Min(n, writePos - readPos));
      }
      readPos := readPos + Min(n, writePos - readPos);
      peak := Max(peak, writePos - readPos);
    }

    method RetreatBytes(n: nat)
      requires Valid()
      modifies this`readPos, this`peak
      ensures Valid() && Value() == Apply(old(Value()), Retreat(n)).0
      ensures readPos == if n < old(readPos) then old(readPos) - n else 0
    {
      hide Apply, Max;
      AppliedRetreat(Value(), n);
      readPos := readPos - Min(n, readPos);
      peak := Max(peak, writePos - readPos);
    }

    method ClearAll()
      requires Valid()
      modifies this`readPos, this`writePos
      ensures Valid() && Value() == Apply(old(Value()), Clear).0
      ensures readPos == writePos == 0
    {
      readPos, writePos := 0, 0;
    }
  }
}
