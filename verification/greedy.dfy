/** The greedy pass: demand is placed one unit at a time, type by type in the
    fixed order, each unit going to an eligible supervisor below capacity with
    the least load, history members first among ties, then any tied one. */
module Greedy {
  import opened Wrappers
  import opened Roster
  import opened Tally

  /** Demand per test type; a missing type counts as zero. */
  type Demand = map<TestType, int>

  /** How many units of `t` the greedy pass tries to place: a missing entry
      is zero and a negative one places nothing. */
  function Need(d: Demand, t: TestType): (n: nat)
    ensures t in d && d[t] >= 0 ==> n == d[t]
    ensures t !in d || d[t] <= 0 ==> n == 0
  {
    if t in d && d[t] > 0 then d[t] else 0
  }

  /** Supervisor `i` can still take a unit of type `t`. */
  predicate Open(roster: seq<Staff>, a: seq<Counts>, cap: nat, t: TestType, i: nat)
    requires |a| == |roster| && i < |roster|
  {
    a[i].Total() < cap && IsEligible(roster[i], t)
  }

  /** The supervisor who gets the next unit of `t`, if any can take it. The
      pick is open and has the least load among open supervisors; when some
      open supervisor with that load is in the history set, so is the pick.
      Among the remaining candidates the pick is arbitrary. */
  method PickUnit(roster: seq<Staff>, a: seq<Counts>, cap: nat, t: TestType, hist: set<string>)
    returns (pick: Option<nat>)
    requires |a| == |roster|
    ensures pick.None? <==> forall i | 0 <= i < |roster| :: !Open(roster, a, cap, t, i)
    ensures pick.Some? ==> pick.value < |roster| && Open(roster, a, cap, t, pick.value)
    ensures pick.Some? ==> forall i | 0 <= i < |roster| && Open(roster, a, cap, t, i) ::
                             roster[pick.value].load <= roster[i].load
    ensures pick.Some? && roster[pick.value].name !in hist ==>
              forall i | 0 <= i < |roster| && Open(roster, a, cap, t, i) &&
                         roster[i].load == roster[pick.value].load :: roster[i].name !in hist
  {
    // first scan: the least load among open supervisors
    var minLoad: Option<int> := None;
    var i := 0;
    while i < |roster|
      invariant 0 <= i <= |roster|
      invariant minLoad.None? <==> forall j | 0 <= j < i :: !Open(roster, a, cap, t, j)
      invariant minLoad.Some? ==> exists j | 0 <= j < i :: Open(roster, a, cap, t, j) && roster[j].load == minLoad.value
      invariant minLoad.Some? ==> forall j | 0 <= j < i && Open(roster, a, cap, t, j) :: minLoad.value <= roster[j].load
    {
      if Open(roster, a, cap, t, i) && (minLoad.None? || roster[i].load < minLoad.value) {
        minLoad := Some(roster[i].load);
      }
      i := i + 1;
    }
    if minLoad.None? {
      return None;
    }
    var m := minLoad.value;

    // second scan: everybody open at that load
    var candidates: seq<nat> := [];
    i := 0;
    while i < |roster|
      invariant 0 <= i <= |roster|
      invariant forall k | 0 <= k < |candidates| :: candidates[k] < |roster|
      invariant forall c | c in candidates :: c < |roster| && Open(roster, a, cap, t, c) && roster[c].load == m
      invariant forall j | 0 <= j < i && Open(roster, a, cap, t, j) && roster[j].load == m :: j in candidates
    {
      if Open(roster, a, cap, t, i) && roster[i].load == m {
        candidates := candidates + [i];
      }
      i := i + 1;
    }

    // history members among the tied candidates go first
    var priority: seq<nat> := [];
    i := 0;
    while i < |candidates|
      invariant 0 <= i <= |candidates|
      invariant forall k | 0 <= k < |candidates| :: candidates[k] < |roster|
      invariant forall c | c in priority :: c in candidates && roster[c].name in hist
      invariant forall j | 0 <= j < i && roster[candidates[j]].name in hist :: candidates[j] in priority
    {
      if roster[candidates[i]].name in hist {
        priority := priority + [candidates[i]];
      }
      i := i + 1;
    }
    var pool := if |priority| > 0 then priority else candidates;
    assert pool != [] by {
      var w :| 0 <= w < |roster| && Open(roster, a, cap, t, w) && roster[w].load == m;
      assert w in candidates;
    }
    assert pool[0] in pool;
    var p :| p in pool;
    pick := Some(p);
  }

  /** `a` arises from `a0` by giving units of `t` to eligible supervisors
      without passing the capacity: the other types are untouched, nobody's
      count of `t` or total shrinks, only eligible supervisors gain, and
      whoever changed is within the capacity. */
  ghost predicate GrownFrom(roster: seq<Staff>, a0: seq<Counts>, a: seq<Counts>, cap: nat, t: TestType)
  {
    && |a0| == |roster| && |a| == |a0|
    && forall i | 0 <= i < |a| ::
         && (forall v | v != t :: a[i].Get(v) == a0[i].Get(v))
         && a[i].Get(t) >= a0[i].Get(t)
         && (a[i].Get(t) > a0[i].Get(t) ==> IsEligible(roster[i], t))
         && (a[i].Total() <= cap || a[i] == a0[i])
         && a[i].Total() >= a0[i].Total()
  }

  /** Giving one more unit of `t` to an open supervisor keeps `GrownFrom`. */
  lemma GrowOne(roster: seq<Staff>, a0: seq<Counts>, a: seq<Counts>, cap: nat, t: TestType, p: nat)
    requires GrownFrom(roster, a0, a, cap, t)
    requires p < |a| && Open(roster, a, cap, t, p)
    ensures GrownFrom(roster, a0, a[p := a[p].Inc(t)], cap, t)
  {
  }

  /** Supervisor `j` comes before supervisor `i` in the greedy pick order:
      a smaller load, or the same load with `j` in the history and `i` not. */
  predicate Preferred(roster: seq<Staff>, hist: set<string>, j: nat, i: nat)
    requires i < |roster| && j < |roster|
  {
    || roster[j].load < roster[i].load
    || (roster[j].load == roster[i].load && roster[j].name in hist && roster[i].name !in hist)
  }

  /** Every unit of `t` given on the way from `a0` to `a` went first in the
      pick order: whenever somebody gained a unit of `t`, every supervisor
      eligible for `t` who comes before them is full. */
  ghost predicate PickedInOrder(roster: seq<Staff>, a0: seq<Counts>, a: seq<Counts>, cap: nat, t: TestType, hist: set<string>)
    requires |a0| == |roster| && |a| == |roster|
  {
    forall i, j | 0 <= i < |a| && 0 <= j < |a| && a[i].Get(t) > a0[i].Get(t) &&
                  IsEligible(roster[j], t) && Preferred(roster, hist, j, i) :: a[j].Total() >= cap
  }

  /** Giving the next unit of `t` to a pick as `PickUnit` chooses it keeps
      `PickedInOrder`. */
  lemma PickKeepsOrder(roster: seq<Staff>, a0: seq<Counts>, a: seq<Counts>, cap: nat, t: TestType, hist: set<string>, p: nat)
    requires |a0| == |roster| && |a| == |roster| && p < |a|
    requires PickedInOrder(roster, a0, a, cap, t, hist)
    requires Open(roster, a, cap, t, p)
    requires forall i | 0 <= i < |roster| && Open(roster, a, cap, t, i) :: roster[p].load <= roster[i].load
    requires roster[p].name !in hist ==>
               forall i | 0 <= i < |roster| && Open(roster, a, cap, t, i) &&
                          roster[i].load == roster[p].load :: roster[i].name !in hist
    ensures PickedInOrder(roster, a0, a[p := a[p].Inc(t)], cap, t, hist)
  {
  }

  /** `a` is a result of placing `need` units of `t` on `a0`, `skipped` of
      them left over: placed plus skipped is `need`, `a` grew from `a0` by
      units of `t` only (`GrownFrom`), each unit went first in the pick order,
      and a unit was skipped only when everybody eligible for `t` was full. */
  ghost predicate PlacedType(roster: seq<Staff>, a0: seq<Counts>, a: seq<Counts>, cap: nat, t: TestType, need: nat, hist: set<string>, skipped: nat)
  {
    && |a0| == |roster| && |a| == |a0|
    && ColumnSum(a, t) + skipped == ColumnSum(a0, t) + need
    && GrownFrom(roster, a0, a, cap, t)
    && PickedInOrder(roster, a0, a, cap, t, hist)
    && (skipped > 0 ==> forall i | 0 <= i < |a| && IsEligible(roster[i], t) :: a[i].Total() >= cap)
  }

  /** Places `need` units of type `t`. Every unit is either given to one
      supervisor or counted as skipped; only the column of `t` changes, only
      eligible supervisors gain, nobody passes the capacity, every unit goes
      first in the pick order (least load, then history), and a unit is
      skipped only when every eligible supervisor is full. */
  method PlaceType(roster: seq<Staff>, a0: seq<Counts>, cap: nat, t: TestType, need: nat, hist: set<string>)
    returns (a: seq<Counts>, skipped: nat)
    requires |a0| == |roster|
    ensures PlacedType(roster, a0, a, cap, t, need, hist, skipped)
    ensures forall u | u != t :: ColumnSum(a, u) == ColumnSum(a0, u)
  {
    a := a0;
    skipped := 0;
    var u := 0;
    while u < need
      invariant 0 <= u <= need
      invariant |a| == |a0|
      invariant ColumnSum(a, t) + skipped == ColumnSum(a0, t) + u
      invariant forall v | v != t :: ColumnSum(a, v) == ColumnSum(a0, v)
      invariant GrownFrom(roster, a0, a, cap, t)
      invariant PickedInOrder(roster, a0, a, cap, t, hist)
      invariant skipped > 0 ==> forall i | 0 <= i < |a| && IsEligible(roster[i], t) :: a[i].Total() >= cap
    {
      var pick := PickUnit(roster, a, cap, t, hist);
      if pick.None? {
        assert forall i | 0 <= i < |a| && IsEligible(roster[i], t) :: a[i].Total() >= cap by {
          forall i | 0 <= i < |a| && IsEligible(roster[i], t) ensures a[i].Total() >= cap {
            assert !Open(roster, a, cap, t, i);
          }
        }
        skipped := skipped + 1;
      } else {
        var p := pick.value;
        var c := a[p].Inc(t);
        forall v {
          ColumnSumUpdate(a, p, c, v);
        }
        GrowOne(roster, a0, a, cap, t, p);
        PickKeepsOrder(roster, a0, a, cap, t, hist, p);
        a := a[p := c];
      }
      u := u + 1;
    }
  }

  /** Every unit held went first in the pick order: whenever somebody holds
      a unit of a type, every supervisor eligible for that type who comes
      before them is full. */
  ghost predicate InPickOrder(roster: seq<Staff>, a: seq<Counts>, cap: nat, hist: set<string>)
    requires |a| == |roster|
  {
    forall t, i, j | 0 <= i < |a| && 0 <= j < |a| && a[i].Get(t) > 0 &&
                     IsEligible(roster[j], t) && Preferred(roster, hist, j, i) :: a[j].Total() >= cap
  }

  /** The greedy pass went type by type in the fixed order: `stages` starts
      from the empty assignment and ends at `a`, and stage k + 1 is a result
      of placing the demand for the k-th type of `TypeOrder` on stage k, with
      the units of that type in `unplaced` left over. */
  ghost predicate TypeByType(roster: seq<Staff>, cap: nat, demand: Demand, hist: set<string>,
                             stages: seq<seq<Counts>>, a: seq<Counts>, unplaced: Counts)
  {
    && |stages| == |TypeOrder| + 1 && stages[|TypeOrder|] == a
    && |stages[0]| == |roster| && (forall i | 0 <= i < |roster| :: stages[0][i] == Zero)
    && forall k | 0 <= k < |TypeOrder| ::
         PlacedType(roster, stages[k], stages[k + 1], cap, TypeOrder[k], Need(demand, TypeOrder[k]), hist,
                    unplaced.Get(TypeOrder[k]))
  }

  /** Appending the result of placing the next type keeps every stage a
      placement of its type, with that type's leftover recorded. */
  lemma ExtendStages(roster: seq<Staff>, cap: nat, demand: Demand, hist: set<string>,
                     stages: seq<seq<Counts>>, unplaced: Counts, b: seq<Counts>, skipped: nat)
    requires 0 < |stages| <= |TypeOrder|
    requires forall j | 0 <= j < |stages| - 1 ::
               PlacedType(roster, stages[j], stages[j + 1], cap, TypeOrder[j], Need(demand, TypeOrder[j]), hist,
                          unplaced.Get(TypeOrder[j]))
    requires PlacedType(roster, stages[|stages| - 1], b, cap, TypeOrder[|stages| - 1],
                        Need(demand, TypeOrder[|stages| - 1]), hist, skipped)
    ensures forall j | 0 <= j < |stages| ::
              PlacedType(roster, (stages + [b])[j], (stages + [b])[j + 1], cap, TypeOrder[j], Need(demand, TypeOrder[j]), hist,
                         unplaced.With(TypeOrder[|stages| - 1], skipped).Get(TypeOrder[j]))
  {
    var k := |stages| - 1;
    var tr := stages + [b];
    var u := unplaced.With(TypeOrder[k], skipped);
    forall j | 0 <= j < |stages|
      ensures PlacedType(roster, tr[j], tr[j + 1], cap, TypeOrder[j], Need(demand, TypeOrder[j]), hist, u.Get(TypeOrder[j]))
    {
      TypeIndexOfOrder(j);
      TypeIndexOfOrder(k);
      if j < k {
        assert tr[j] == stages[j] && tr[j + 1] == stages[j + 1];
        assert u.Get(TypeOrder[j]) == unplaced.Get(TypeOrder[j]);
      }
    }
  }

  /** The whole greedy pass over the four types in order, starting from an
      empty assignment; `stages` holds the assignment before each type and
      the final one. Per type, the units placed plus the units left
      unplaced equal the demand; every count is for an eligible type; nobody
      passes the capacity; every unit went first in the pick order (least
      load, then history); and a unit of `t` is left unplaced only when every
      supervisor eligible for `t` is full. */
  method Allocate(roster: seq<Staff>, cap: nat, demand: Demand, hist: set<string>)
    returns (a: seq<Counts>, unplaced: Counts, stages: seq<seq<Counts>>)
    ensures TypeByType(roster, cap, demand, hist, stages, a, unplaced)
    ensures |a| == |roster|
    ensures forall i, t | 0 <= i < |a| && a[i].Get(t) > 0 :: IsEligible(roster[i], t)
    ensures forall i | 0 <= i < |a| :: a[i].Total() <= cap
    ensures forall t :: ColumnSum(a, t) + unplaced.Get(t) == Need(demand, t)
    ensures forall t | unplaced.Get(t) > 0 ::
              forall i | 0 <= i < |a| && IsEligible(roster[i], t) :: a[i].Total() == cap
    ensures InPickOrder(roster, a, cap, hist)
  {
    a := seq(|roster|, _ => Zero);
    unplaced := Zero;
    stages := [a];
    forall t {
      ColumnSumOfZeros(a, t);
    }
    var k := 0;
    while k < |TypeOrder|
      invariant 0 <= k <= |TypeOrder|
      invariant GreedySoFar(roster, cap, demand, hist, k, a, unplaced)
      invariant |stages| == k + 1 && stages[k] == a
      invariant |stages[0]| == |roster| && forall i | 0 <= i < |roster| :: stages[0][i] == Zero
      invariant forall j | 0 <= j < k ::
                  PlacedType(roster, stages[j], stages[j + 1], cap, TypeOrder[j], Need(demand, TypeOrder[j]), hist,
                             unplaced.Get(TypeOrder[j]))
    {
      var t := TypeOrder[k];
      var b, skipped := PlaceType(roster, a, cap, t, Need(demand, t), hist);
      NextType(roster, cap, demand, hist, k, a, unplaced, b, skipped);
      ExtendStages(roster, cap, demand, hist, stages, unplaced, b, skipped);
      a, unplaced, stages := b, unplaced.With(t, skipped), stages + [b];
      k := k + 1;
    }
  }

  /** The state of the greedy pass once the first `k` types of `TypeOrder`
      are placed: counts eligible and within capacity; per type, placed plus
      unplaced is the demand for the placed types and nothing for the rest;
      leftovers only when everybody eligible is full; and every unit first in
      the pick order. */
  ghost predicate GreedySoFar(roster: seq<Staff>, cap: nat, demand: Demand, hist: set<string>,
                              k: nat, a: seq<Counts>, unplaced: Counts)
  {
    && |a| == |roster|
    && (forall i, t | 0 <= i < |a| && a[i].Get(t) > 0 :: IsEligible(roster[i], t))
    && (forall i | 0 <= i < |a| :: a[i].Total() <= cap)
    && (forall t :: ColumnSum(a, t) + unplaced.Get(t) == (if TypeIndex(t) < k then Need(demand, t) else 0))
    && (forall t | unplaced.Get(t) > 0 ::
          forall i | 0 <= i < |a| && IsEligible(roster[i], t) :: a[i].Total() >= cap)
    && (forall i, t | 0 <= i < |a| && k <= TypeIndex(t) :: a[i].Get(t) == 0)
    && InPickOrder(roster, a, cap, hist)
  }

  /** Placing the next type keeps `GreedySoFar`. */
  lemma NextType(roster: seq<Staff>, cap: nat, demand: Demand, hist: set<string>,
                 k: nat, a: seq<Counts>, unplaced: Counts, b: seq<Counts>, skipped: nat)
    requires k < |TypeOrder| && GreedySoFar(roster, cap, demand, hist, k, a, unplaced)
    requires PlacedType(roster, a, b, cap, TypeOrder[k], Need(demand, TypeOrder[k]), hist, skipped)
    requires forall u | u != TypeOrder[k] :: ColumnSum(b, u) == ColumnSum(a, u)
    ensures GreedySoFar(roster, cap, demand, hist, k + 1, b, unplaced.With(TypeOrder[k], skipped))
  {
    var t := TypeOrder[k];
    TypeIndexOfOrder(k);
    var unplaced' := unplaced.With(t, skipped);
    forall u ensures ColumnSum(b, u) + unplaced'.Get(u) ==
                     (if TypeIndex(u) < k + 1 then Need(demand, u) else 0)
    {
      if u != t {
        assert TypeIndex(u) != k;
      }
    }
    forall i, u | 0 <= i < |b| && b[i].Get(u) > 0 ensures IsEligible(roster[i], u) {
      if u != t || b[i].Get(t) == a[i].Get(t) {
        assert a[i].Get(u) > 0;
      } else {
        assert b[i].Get(t) > a[i].Get(t);
      }
    }
    forall i | 0 <= i < |b| ensures b[i].Total() <= cap {
      assert a[i].Total() <= cap;
    }
    forall u, i | unplaced'.Get(u) > 0 && 0 <= i < |b| && IsEligible(roster[i], u)
      ensures b[i].Total() >= cap
    {
      if u != t {
        assert a[i].Total() >= cap;
      }
    }
    forall i, u | 0 <= i < |b| && k + 1 <= TypeIndex(u) ensures b[i].Get(u) == 0 {
      assert u != t && a[i].Get(u) == 0;
    }
    forall u, i, j | 0 <= i < |b| && 0 <= j < |b| && b[i].Get(u) > 0 &&
                     IsEligible(roster[j], u) && Preferred(roster, hist, j, i)
      ensures b[j].Total() >= cap
    {
      if u == t {
        assert b[i].Get(t) > a[i].Get(t);
      } else {
        assert a[i].Get(u) > 0 && a[j].Total() >= cap;
      }
    }
  }
}
