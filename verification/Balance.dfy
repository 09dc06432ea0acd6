/** Greedy balancing: give each new item to a least loaded place. Used by the scheduler's queue choice and
    by the event-loop pool's least-connections choice. */
module Balance {
  import opened Sequences
  import opened Modular

  predicate IsFirstMin(loads: seq<nat>, i: nat) {
    && i < |loads|
    && (forall j :: 0 <= j < |loads| ==> loads[i] <= loads[j])
    && (forall j :: 0 <= j < i ==> loads[i] < loads[j])
  }

  /** The scan both callers make: keep the first strictly smaller load. */
  function FirstMin(loads: seq<nat>): (i: nat)
    requires loads != []
    ensures i < |loads| && IsFirstMin(loads, i)
  {
    if |loads| == 1 then 0
    else
      var last := |loads| - 1;
      var i := FirstMin(loads[..last]);
      assert loads[..last][i] == loads[i];
      assert forall j :: 0 <= j < last ==> loads[..last][j] == loads[j];
      if loads[last] < loads[i] then last else i
  }

  lemma FirstMinUnique(loads: seq<nat>, i: nat, j: nat)
    requires IsFirstMin(loads, i) && IsFirstMin(loads, j)
    ensures i == j
  {
    assert loads[i] <= loads[j] <= loads[i];
  }

  function Longest(loads: seq<nat>): (m: nat)
    ensures forall i :: 0 <= i < |loads| ==> loads[i] <= m
    ensures loads == [] ==> m == 0
    ensures loads != [] ==> exists i :: 0 <= i < |loads| && loads[i] == m
  {
    if loads == [] then 0
    else
      var rest := Longest(loads[1..]);
      assert forall i :: 1 <= i < |loads| ==> loads[i] == loads[1..][i - 1];
      if loads[0] >= rest then assert loads[0] == loads[0]; loads[0] else rest
  }

  /** k more items, one after the other, each to the first least loaded place. */
  function Greedy(loads: seq<nat>, k: nat): (r: seq<nat>)
    requires loads != []
    ensures |r| == |loads|
    decreases k
  {
    if k == 0 then loads
    else
      var i := FirstMin(loads);
      Greedy(loads[i := loads[i] + 1], k - 1)
  }

  lemma {:induction false} MinTimesCount(loads: seq<nat>, m: nat)
    requires forall j :: 0 <= j < |loads| ==> m <= loads[j]
    ensures |loads| * m <= Sum(loads)
  {
    if loads != [] {
      assert forall j :: 0 <= j < |loads[1..]| ==> loads[1..][j] == loads[j + 1];
      MinTimesCount(loads[1..], m);
      MulPlusOne(|loads| - 1, m);
    }
  }

  /** If n*m <= s then m + 1 <= ceil((s + 1) / n): a least loaded place is below the average. */
  lemma BelowAverage(n: nat, m: nat, s: nat)
    requires n >= 1 && n * m <= s
    ensures m + 1 <= CeilDiv(s + 1, n)
  {
    var q := CeilDiv(s + 1, n);
    assert s + n == q * n + (s + n) % n;
    assert m * n == n * m;
    if q <= m {
      MulMonotone(q, m, n);
    }
  }

  lemma CeilDivMonotone(a: nat, b: nat, n: nat)
    requires n >= 1 && a <= b
    ensures CeilDiv(a, n) <= CeilDiv(b, n)
  {
    var qa, qb := CeilDiv(a, n), CeilDiv(b, n);
    assert a + n - 1 == qa * n + (a + n - 1) % n;
    assert b + n - 1 == qb * n + (b + n - 1) % n;
    if qb < qa {
      MulMonotone(qb + 1, qa, n);
      MulPlusOne(qb, n);
    }
  }

  lemma GreedyStep(loads: seq<nat>)
    requires loads != []
    ensures var i := FirstMin(loads);
            var next := loads[i := loads[i] + 1];
            && Sum(next) == Sum(loads) + 1
            && Longest(next) <= Max(Longest(loads), CeilDiv(Sum(loads) + 1, |loads|))
  {
    hide Sum, CeilDiv;
    var i := FirstMin(loads);
    var next := loads[i := loads[i] + 1];
    SumUpdate(loads, i, loads[i] + 1);
    MinTimesCount(loads, loads[i]);
    BelowAverage(|loads|, loads[i], Sum(loads));
    var j :| 0 <= j < |next| && next[j] == Longest(next);
    assert next[j] <= if j == i then loads[i] + 1 else Longest(loads);
  }

  /** From any starting loads, k greedy placements leave the largest load at most the larger of what it
      was and the average of the final total, rounded up. */
  lemma {:induction false} GreedyBound(loads: seq<nat>, k: nat)
    requires loads != []
    ensures Sum(Greedy(loads, k)) == Sum(loads) + k
    ensures Longest(Greedy(loads, k)) <= Max(Longest(loads), CeilDiv(Sum(loads) + k, |loads|))
    decreases k
  {
    hide Longest, CeilDiv, Sum, IsFirstMin;
    if k > 0 {
      var i := FirstMin(loads);
      var next := loads[i := loads[i] + 1];
      GreedyStep(loads);
      GreedyBound(next, k - 1);
      CeilDivMonotone(Sum(loads) + 1, Sum(loads) + k, |loads|);
    }
  }

  predicate Within(loads: seq<nat>, d: nat) {
    forall i, j :: 0 <= i < |loads| && 0 <= j < |loads| ==> loads[i] <= loads[j] + d
  }

  /** Loads that were within d >= 1 of each other stay so. */
  lemma {:induction false} GreedyKeepsWithin(loads: seq<nat>, k: nat, d: nat)
    requires loads != [] && d >= 1 && Within(loads, d)
    ensures Within(Greedy(loads, k), d)
    decreases k
  {
    if k > 0 {
      var i := FirstMin(loads);
      GreedyKeepsWithin(loads[i := loads[i] + 1], k - 1, d);
    }
  }
}
