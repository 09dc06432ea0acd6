/** Weighted round robin of rpc/loadbalance/load_balancer.hpp, with plain round robin as the case in which
    no weight exceeds one. */
module LoadBalancer {
  import opened Sequences
  import opened Modular

  datatype Endpoint = Endpoint(host: string, port: nat, weight: int, healthy: bool)
  datatype Selection = Nothing | Selected(endpoint: Endpoint)

  const COUNTER_RANGE := 0x1_0000_0000_0000_0000  // size_t

  function Weight(ep: Endpoint): (w: nat)
    ensures w >= 1
  {
    if ep.weight > 1 then ep.weight else 1
  }

  /** Each endpoint's index, as often as its weight, in order. */
  function Indices(eps: seq<Endpoint>): seq<nat> {
    if eps == [] then []
    else
      var last := |eps| - 1;
      Indices(eps[..last]) + Fill<nat>(Weight(eps[last]), last)
  }

  /** The table holds every index exactly as often as its weight says, a weight below one counting as one, in
      ascending order and no other number: this leaves no choice of table. */
  lemma {:induction false} TableMatchesWeights(eps: seq<Endpoint>, i: nat)
    ensures Count(Is<nat>(i), Indices(eps)) ==
              if i >= |eps| then 0 else if eps[i].weight >= 1 then eps[i].weight else 1
    ensures forall j :: 0 <= j < |Indices(eps)| ==> Indices(eps)[j] < |eps|
    ensures forall j, k :: 0 <= j < k < |Indices(eps)| ==> Indices(eps)[j] <= Indices(eps)[k]
    ensures eps != [] ==> |Indices(eps)| >= 1
    decreases |eps|
  {
    if eps != [] {
      var last := |eps| - 1;
      TableMatchesWeights(eps[..last], i);
      CountAppend<nat>(Is<nat>(i), Indices(eps[..last]), Fill<nat>(Weight(eps[last]), last));
      CountFill<nat>(Is<nat>(i), Weight(eps[last]), last);
    }
  }

  /** The sum of the weights, a weight below one counting as one. */
  function TotalWeight(eps: seq<Endpoint>): nat {
    Sum(Map((ep: Endpoint) => if ep.weight >= 1 then ep.weight else 1, eps))
  }

  lemma TotalWeightSnoc(eps: seq<Endpoint>, ep: Endpoint)
    ensures TotalWeight(eps + [ep]) == TotalWeight(eps) + if ep.weight >= 1 then ep.weight else 1
  {
    var f := (ep: Endpoint) => if ep.weight >= 1 then ep.weight else 1;
    assert Map(f, eps + [ep]) == Map(f, eps) + [f(ep)];
    SumSnoc(Map(f, eps), f(ep));
  }

  /** The table is as long as the weights add up to. */
  lemma {:induction false} TableLengthIsTotalWeight(eps: seq<Endpoint>)
    ensures |Indices(eps)| == TotalWeight(eps)
    ensures eps != [] ==> TotalWeight(eps) >= 1
    decreases |eps|
  {
    if eps != [] {
      var last := |eps| - 1;
      TableLengthIsTotalWeight(eps[..last]);
      assert eps == eps[..last] + [eps[last]];
      TotalWeightSnoc(eps[..last], eps[last]);
    }
  }

  // ---------------------------------------------------------------- fairness

  /** The table entry that selection number c picks: the counter holds c modulo its range. */
  function At(table: seq<nat>, range: nat, c: nat): nat
    requires table != [] && range >= 1
  {
    table[(c % range) % |table|]
  }

  /** Of k selections from number c on, how many pick index i. */
  function Picks(table: seq<nat>, range: nat, c: nat, k: nat, i: nat): nat
    requires table != [] && range >= 1
    decreases k
  {
    if k == 0 then 0 else (if At(table, range, c) == i then 1 else 0) + Picks(table, range, c + 1, k - 1, i)
  }

  predicate InStep(table: seq<nat>, range: nat, j: nat)
    requires j < |table|
  {
    table[j] == table[(range + j) % |table|]
  }

  /** The table goes on in step when the counter wraps round to zero. */
  ghost predicate Aligned(table: seq<nat>, range: nat) {
    1 <= |table| <= range && forall j :: 0 <= j < |table| ==> InStep(table, range, j)
  }

  lemma {:induction false} PicksSplit(table: seq<nat>, range: nat, c: nat, k1: nat, k2: nat, i: nat)
    requires table != [] && range >= 1
    ensures Picks(table, range, c, k1 + k2, i) == Picks(table, range, c, k1, i) + Picks(table, range, c + k1, k2, i)
    decreases k1
  {
    hide At;
    if k1 > 0 {
      PicksSplit(table, range, c + 1, k1 - 1, k2, i);
    }
  }

  lemma OnePick(table: seq<nat>, range: nat, c: nat, i: nat)
    requires table != [] && range >= 1
    ensures Picks(table, range, c, 1, i) == if At(table, range, c) == i then 1 else 0
  {
    hide At;
    assert Picks(table, range, c + 1, 0, i) == 0;
  }

  /** Two neighbouring turns differ by the selection one drops and the selection the other adds. */
  lemma ShiftTurn(table: seq<nat>, range: nat, c: nat, i: nat)
    requires table != [] && range >= 1
    ensures Picks(table, range, c + 1, |table|, i) ==
              Picks(table, range, c, |table|, i) - (if At(table, range, c) == i then 1 else 0)
              + (if At(table, range, c + |table|) == i then 1 else 0)
  {
    hide At, Picks;
    PicksSplit(table, range, c, 1, |table|, i);
    PicksSplit(table, range, c, |table|, 1, i);
    OnePick(table, range, c, i);
    OnePick(table, range, c + |table|, i);
  }

  lemma {:induction false} FirstTurn(table: seq<nat>, range: nat, c: nat, i: nat)
    requires c <= |table| <= range && table != []
    ensures Picks(table, range, c, |table| - c, i) == Count(Is<nat>(i), table[c..])
    decreases |table| - c
  {
    if c < |table| {
      QuotientUnique(c, 0, c, |table|);
      QuotientUnique(c, 0, c, range);
      assert table[c..][1..] == table[c + 1..];
      FirstTurn(table, range, c + 1, i);
    }
  }

  /** A turn later the same entry comes up, unless the counter wraps in between; then it is the entry that
      many places after the start. */
  lemma TurnLater(table: seq<nat>, range: nat, c: nat)
    requires 1 <= |table| <= range
    ensures var w, a := |table|, c % range;
            && (a + w < range ==> At(table, range, c + w) == At(table, range, c))
            && (a + w >= range ==>
                  var j := a + w - range;
                  0 <= j < w && At(table, range, c + w) == table[j] && At(table, range, c) == table[(range + j) % w])
  {
    CounterLater(c, |table|, range);
  }

  lemma CounterLater(c: nat, w: nat, range: nat)
    requires 1 <= w <= range
    ensures var a := c % range;
            && (a + w < range ==> (c + w) % range == a + w && (a + w) % w == a % w)
            && (a + w >= range ==>
                  var j := a + w - range;
                  0 <= j < w && (c + w) % range == j && j % w == j && (range + j) % w == a % w)
  {
    var a, q := c % range, c / range;
    assert c == q * range + a;
    ModAddMultiple(a, 1, w);
    if a + w < range {
      QuotientUnique(c + w, q, a + w, range);
    } else {
      var j := a + w - range;
      MulPlusOne(q, range);
      QuotientUnique(c + w, q + 1, j, range);
      QuotientUnique(j, 0, j, w);
    }
  }

  /** In an aligned table any full turn, from any selection on and also across the wrap, picks index i
      exactly as often as the table holds it. */
  lemma {:induction false} EveryTurn(table: seq<nat>, range: nat, c: nat, i: nat)
    requires Aligned(table, range)
    ensures Picks(table, range, c, |table|, i) == Count(Is<nat>(i), table)
    decreases c
  {
    hide At, Picks, Count;
    if c == 0 {
      FirstTurn(table, range, 0, i);
      assert table[0..] == table;
    } else {
      EveryTurn(table, range, c - 1, i);
      ShiftTurn(table, range, c - 1, i);
      TurnLater(table, range, c - 1);
      var later := (c - 1) % range + |table| - range;
      if later >= 0 {
        assert InStep(table, range, later);
      }
    }
  }

  ghost predicate EveryTurnIsFair(table: seq<nat>, range: nat)
    requires table != [] && range >= 1
  {
    forall c: nat, i: nat :: Picks(table, range, c, |table|, i) == Count(Is<nat>(i), table)
  }

  /** Exactly the aligned tables are fair over every turn: where the counter wraps out of step with the
      table, some turn across the wrap gives an index too much. */
  lemma EveryTurnIsFairIff(table: seq<nat>, range: nat)
    requires 1 <= |table| <= range
    ensures EveryTurnIsFair(table, range) <==> Aligned(table, range)
  {
    hide At, Picks, Count;
    var w := |table|;
    if Aligned(table, range) {
      forall c: nat, i: nat ensures Picks(table, range, c, w, i) == Count(Is<nat>(i), table) {
        EveryTurn(table, range, c, i);
      }
    }
    if EveryTurnIsFair(table, range) {
      forall j | 0 <= j < w ensures InStep(table, range, j) {
        var c := range - w + j;
        FairMeansSame(table, range, c);
        QuotientUnique(c, 0, c, range);
        TurnLater(table, range, c);
      }
    }
  }

  lemma FairMeansSame(table: seq<nat>, range: nat, c: nat)
    requires table != [] && range >= 1 && EveryTurnIsFair(table, range)
    ensures At(table, range, c + |table|) == At(table, range, c)
  {
    hide At, Picks, Count;
    var i := At(table, range, c);
    ShiftTurn(table, range, c, i);
    assert Picks(table, range, c, |table|, i) == Picks(table, range, c + 1, |table|, i);
  }

  lemma {:induction false} ManyTurns(table: seq<nat>, range: nat, c: nat, q: nat, i: nat)
    requires Aligned(table, range)
    ensures Picks(table, range, c, q * |table|, i) == q * Count(Is<nat>(i), table)
    decreases q
  {
    hide At, Count, InStep;
    if q > 0 {
      var w, n := |table|, Count(Is<nat>(i), table);
      MulPlusOne(q - 1, w);
      MulPlusOne(q - 1, n);
      PicksSplit(table, range, c, w, (q - 1) * w, i);
      EveryTurn(table, range, c, i);
      ManyTurns(table, range, c + w, q - 1, i);
    }
  }

  /** q whole turns and r more selections. */
  lemma WithinTurns(table: seq<nat>, range: nat, c: nat, q: nat, r: nat, i: nat)
    requires Aligned(table, range) && r < |table|
    ensures var n := Count(Is<nat>(i), table);
            q * n <= Picks(table, range, c, q * |table| + r, i) <= (if r == 0 then q else q + 1) * n
  {
    hide Count, Picks;
    var w, n := |table|, Count(Is<nat>(i), table);
    PicksSplit(table, range, c, q * w, r, i);
    ManyTurns(table, range, c, q, i);
    if r == 0 {
      NoPicks(table, range, c + q * w, i);
    } else {
      PicksSplit(table, range, c + q * w, r, w - r, i);
      EveryTurn(table, range, c + q * w, i);
      MulPlusOne(q, n);
    }
  }

  lemma NoPicks(table: seq<nat>, range: nat, c: nat, i: nat)
    requires table != [] && range >= 1
    ensures Picks(table, range, c, 0, i) == 0
  {
  }

  lemma CeilDivCases(k: nat, w: nat)
    requires w >= 1
    ensures k == (k / w) * w + k % w
    ensures CeilDiv(k, w) == if k % w == 0 then k / w else k / w + 1
  {
    var q, r := k / w, k % w;
    if r == 0 {
      QuotientUnique(k + w - 1, q, w - 1, w);
    } else {
      MulPlusOne(q, w);
      QuotientUnique(k + w - 1, q + 1, r - 1, w);
    }
  }

  /** As long as the counter does not wrap, its range does not matter. */
  lemma {:induction false} SamePicks(table: seq<nat>, range: nat, range': nat, c: nat, k: nat, i: nat)
    requires table != [] && c + k <= range && c + k <= range' && range >= 1 && range' >= 1
    ensures Picks(table, range, c, k, i) == Picks(table, range', c, k, i)
    decreases k
  {
    if k > 0 {
      QuotientUnique(c, 0, c, range);
      QuotientUnique(c, 0, c, range');
      SamePicks(table, range, range', c + 1, k - 1, i);
    }
  }

  lemma MultipleIsAligned(table: seq<nat>, m: nat)
    requires table != [] && m >= 1
    ensures Aligned(table, m * |table|) && m * |table| >= m
  {
    var w := |table|;
    MulMonotone(1, m, w);
    MulMonotone(1, w, m);
    forall j | 0 <= j < w ensures InStep(table, m * w, j) {
      ModAddMultiple(j, m, w);
      QuotientUnique(j, 0, j, w);
    }
  }

  /** From any selection on, any k consecutive selections pick index i between floor(k/w) and ceil(k/w)
      times as often as the table of length w holds it, if the counter does not wrap meanwhile or the
      table is aligned. */
  lemma TableIsFair(table: seq<nat>, range: nat, c: nat, k: nat, i: nat)
    requires table != [] && range >= 1 && (Aligned(table, range) || c + k <= range)
    ensures var w, n := |table|, Count(Is<nat>(i), table);
            (k / w) * n <= Picks(table, range, c, k, i) <= CeilDiv(k, w) * n
    ensures k == |table| ==> Picks(table, range, c, k, i) == Count(Is<nat>(i), table)
  {
    hide Count, Picks, CeilDiv, At, Aligned;
    var w, n := |table|, Count(Is<nat>(i), table);
    var wide := if Aligned(table, range) then range else (c + k + 1) * w;
    if !Aligned(table, range) {
      MultipleIsAligned(table, c + k + 1);
      SamePicks(table, range, wide, c, k, i);
    }
    CeilDivCases(k, w);
    WithinTurns(table, wide, c, k / w, k % w, i);
    assert CeilDiv(k, w) * n == (if k % w == 0 then k / w else k / w + 1) * n;
    if k == w {
      EveryTurn(table, wide, c, i);
    }
  }

  /** Weighted round robin is fair: with W the sum of the weights, any k consecutive selections pick
      endpoint i between floor(k/W) and ceil(k/W) times its weight, and any W of them exactly its weight. */
  lemma FairOverEveryWindow(eps: seq<Endpoint>, range: nat, c: nat, k: nat, i: nat)
    requires i < |eps| && range >= 1
    requires Aligned(Indices(eps), range) || c + k <= range
    ensures Indices(eps) != [] && TotalWeight(eps) >= 1
    ensures var w, picks := TotalWeight(eps), Picks(Indices(eps), range, c, k, i);
            var weight := if eps[i].weight >= 1 then eps[i].weight else 1;
            (k / w) * weight <= picks <= CeilDiv(k, w) * weight && (k == w ==> picks == weight)
  {
    hide Indices, Picks, CeilDiv, Aligned, TotalWeight;
    TableLengthIsTotalWeight(eps);
    TableMatchesWeights(eps, i);
    TableIsFair(Indices(eps), range, c, k, i);
  }

  lemma NothingPicked()
    ensures forall i: nat :: Count(Is<nat>(i), []) == 0
  {
  }

  /** Plain round robin over w places. */
  function Identity(w: nat): seq<nat> {
    seq(w, i => i)
  }

  lemma {:induction false} IdentityHoldsOnce(w: nat, i: nat)
    requires i < w
    ensures Count(Is<nat>(i), Identity(w)) == 1
    decreases w
  {
    assert Identity(w) == Identity(w - 1) + [w - 1];
    CountSnoc<nat>(Is<nat>(i), Identity(w - 1), w - 1);
    if i < w - 1 {
      IdentityHoldsOnce(w - 1, i);
    } else {
      CountMembership<nat>(Identity(w - 1), i);
    }
  }

  lemma IdentityInStep(w: nat, range: nat, j: nat)
    requires j < w
    ensures InStep(Identity(w), range, j) <==> (range + j) % w == j
  {
  }

  lemma IdentityAlignedIff(w: nat, range: nat)
    requires 1 <= w <= range
    ensures Aligned(Identity(w), range) <==> range % w == 0
  {
    hide InStep;
    IdentityInStep(w, range, 0);
    if range % w == 0 {
      forall j | 0 <= j < w ensures InStep(Identity(w), range, j) {
        IdentityInStep(w, range, j);
        QuotientUnique(range + j, range / w, j, w);
      }
    }
  }

  /** Plain round robin with a wrapping counter gives each of w places one of every w consecutive
      selections, from any selection on, exactly if w divides the counter's range. */
  lemma RoundRobinIsFairIff(w: nat, range: nat)
    requires 1 <= w <= range
    ensures EveryTurnIsFair(Identity(w), range) <==> range % w == 0
  {
    EveryTurnIsFairIff(Identity(w), range);
    IdentityAlignedIff(w, range);
  }

  /** Plain round robin gives each of w places between floor(k/w) and ceil(k/w) of any k consecutive
      selections, if the counter does not wrap meanwhile or w divides its range. */
  lemma RoundRobinWindow(w: nat, range: nat, c: nat, k: nat, i: nat)
    requires i < w && range >= 1 && (c + k <= range || (w <= range && range % w == 0))
    ensures k / w <= Picks(Identity(w), range, c, k, i) <= CeilDiv(k, w)
  {
    hide Count, Picks, CeilDiv, Aligned;
    if w <= range {
      IdentityAlignedIff(w, range);
    }
    IdentityHoldsOnce(w, i);
    TableIsFair(Identity(w), range, c, k, i);
  }

  /** With no weight above one, the table is the identity and the choice is plain round robin. */
  lemma {:induction false} RoundRobinIsWeightOne(eps: seq<Endpoint>)
    requires forall ep :: ep in eps ==> ep.weight <= 1
    ensures |Indices(eps)| == |eps| && forall j :: 0 <= j < |eps| ==> Indices(eps)[j] == j
    decreases |eps|
  {
    if eps != [] {
      var last := |eps| - 1;
      assert eps[last] in eps;
      RoundRobinIsWeightOne(eps[..last]);
    }
  }

  // ---------------------------------------------------------------- the code

  class WeightedRoundRobin {
    var endpoints: seq<Endpoint>
    var weightedIndices: seq<nat>
    var current: nat  // std::atomic<size_t>

    predicate Valid()
      reads this
    {
      weightedIndices == Indices(endpoints) && current < COUNTER_RANGE
    }

    constructor ()
      ensures Valid() && endpoints == []
    {
      endpoints, weightedIndices, current := [], [], 0;
    }

    /** The table is rebuilt: ascending, with each index as often as its weight, and the counter starts again. */
    method Update(eps: seq<Endpoint>)
      modifies this
      ensures Valid() && endpoints == eps && current == 0
      ensures forall j, k :: 0 <= j < k < |weightedIndices| ==> weightedIndices[j] <= weightedIndices[k]
      ensures forall i: nat :: Count(Is<nat>(i), weightedIndices) ==
                if i >= |eps| then 0 else if eps[i].weight >= 1 then eps[i].weight else 1
    {
      endpoints := eps;
      current := 0;
      weightedIndices := [];
      var i := 0;
      while i < |eps|
        invariant 0 <= i <= |eps| && endpoints == eps && current == 0
        invariant weightedIndices == Indices(eps[..i])
      {
        var weight := if eps[i].weight > 1 then eps[i].weight else 1;
        ghost var before := weightedIndices;
        var j := 0;
        while j < weight
          invariant 0 <= j <= weight && endpoints == eps && current == 0
          invariant weightedIndices == before + Fill<nat>(j, i)
        {
          assert Fill<nat>(j + 1, i) == Fill<nat>(j, i) + [i];
          weightedIndices := weightedIndices + [i];
          j := j + 1;
        }
        assert eps[..i + 1][..i] == eps[..i];
        i := i + 1;
      }
      assert eps[..i] == eps;
      forall i: nat ensures Count(Is<nat>(i), weightedIndices) ==
                      if i >= |eps| then 0 else if eps[i].weight >= 1 then eps[i].weight else 1 {
        TableMatchesWeights(eps, i);
      }
      TableMatchesWeights(eps, 0);
    }

    method Select() returns (r: Selection, index: nat)
      requires Valid()
      modifies this`current
      ensures Valid()
      ensures endpoints == [] <==> r.Nothing?
      ensures r.Nothing? ==> current == old(current)
      ensures r.Selected? ==>
                && current == (old(current) + 1) % 0x1_0000_0000_0000_0000
                && weightedIndices != [] && index == weightedIndices[old(current) % |weightedIndices|]
                && index < |endpoints| && r.endpoint == endpoints[index]
    {
      TableMatchesWeights(endpoints, 0);
      if weightedIndices == [] {
        return Nothing, 0;
      }
      var idx := current % |weightedIndices|;
      current := (current + 1) % COUNTER_RANGE;
      index := weightedIndices[idx];
      r := Selected(endpoints[index]);
    }

    /** k selections without an update. If the counter does not wrap meanwhile, or the table is aligned with
        its range, each endpoint gets its share of them, W being the sum of the weights. */
    method SelectMany(k: nat) returns (picks: seq<nat>)
      requires Valid() && endpoints != []
      modifies this`current
      ensures Valid() && |picks| == k && current == (old(current) + k) % COUNTER_RANGE
      ensures old(current) + k <= COUNTER_RANGE || Aligned(weightedIndices, COUNTER_RANGE) ==>
                forall i: nat :: i < |endpoints| ==>
                  var w, weight := TotalWeight(endpoints), if endpoints[i].weight >= 1 then endpoints[i].weight else 1;
                  && w >= 1
                  && (k / w) * weight <= Count(Is<nat>(i), picks) <= CeilDiv(k, w) * weight
                  && (k == w ==> Count(Is<nat>(i), picks) == weight)
    {
      hide Indices, Count, CeilDiv, Weight, Aligned, TotalWeight, Picks, At;
      TableMatchesWeights(endpoints, 0);
      picks := [];
      NothingPicked();
      ghost var c := current;
      ghost var table := weightedIndices;
      while |picks| < k
        invariant Valid() && |picks| <= k && current == (c + |picks|) % COUNTER_RANGE
        invariant forall i: nat :: Count(Is<nat>(i), picks) + Picks(table, COUNTER_RANGE, c + |picks|, k - |picks|, i) ==
                                     Picks(table, COUNTER_RANGE, c, k, i)
        decreases k - |picks|
      {
        ghost var before := picks;
        var r, index := Select();
        picks := picks + [index];
        NextCount(c + |before|, COUNTER_RANGE);
        forall i: nat
          ensures Count(Is<nat>(i), picks) + Picks(table, COUNTER_RANGE, c + |picks|, k - |picks|, i) ==
                    Count(Is<nat>(i), before) + Picks(table, COUNTER_RANGE, c + |before|, k - |before|, i)
        {
          CountSnoc<nat>(Is<nat>(i), before, index);
          PickStep(table, COUNTER_RANGE, c + |before|, k - |before|, i);
        }
      }
      forall i: nat | i < |endpoints| && (c + k <= COUNTER_RANGE || Aligned(table, COUNTER_RANGE))
        ensures var w, weight := TotalWeight(endpoints), if endpoints[i].weight >= 1 then endpoints[i].weight else 1;
                && w >= 1
                && (k / w) * weight <= Count(Is<nat>(i), picks) <= CeilDiv(k, w) * weight
                && (k == w ==> Count(Is<nat>(i), picks) == weight)
      {
        FairOverEveryWindow(endpoints, COUNTER_RANGE, c, k, i);
        NoPicks(table, COUNTER_RANGE, c + k, i);
      }
    }
  }

  lemma PickStep(table: seq<nat>, range: nat, c: nat, k: nat, i: nat)
    requires table != [] && range >= 1 && k >= 1
    ensures Picks(table, range, c, k, i) ==
              (if table[(c % range) % |table|] == i then 1 else 0) + Picks(table, range, c + 1, k - 1, i)
  {
  }

  lemma NextCount(c: nat, range: nat)
    requires range >= 1
    ensures (c % range + 1) % range == (c + 1) % range
  {
    var a := c % range;
    ModAddMultiple(a + 1, c / range, range);
  }
}
