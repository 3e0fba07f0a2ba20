/** The fairness pass run after the greedy pass: up to 40 times, one unit is
    moved from the supervisor with the highest score (total plus mixing
    penalty) to the one with the lowest, while the spread of scores exceeds 1
    and such a move respects eligibility and capacity. */
module Fairness {
  import opened Wrappers
  import opened Roster
  import opened Tally

  /** The iteration limit of the fairness pass. */
  const MaxRounds: nat := 40

  /** Why the fairness pass stopped. */
  datatype StopReason =
    | Balanced          // the spread of scores is at most 1
    | NoFeasibleMove    // no type can go from the top scorer to the bottom one
    | RoundLimit        // all 40 rounds moved a unit

  /** Every supervisor's score. */
  function Scores(a: seq<Counts>): (s: seq<int>)
    ensures |s| == |a|
  {
    seq(|a|, i requires 0 <= i < |a| => a[i].Score())
  }

  /** The first position of a largest element. */
  function MaxIndex(s: seq<int>): (k: nat)
    requires |s| > 0
    ensures k < |s|
    ensures forall j | 0 <= j < |s| :: s[j] <= s[k]
    ensures forall j | 0 <= j < k :: s[j] < s[k]
  {
    if |s| == 1 then 0
    else
      var k := MaxIndex(s[..|s| - 1]);
      if s[|s| - 1] > s[k] then |s| - 1 else k
  }

  /** The first position of a smallest element. */
  function MinIndex(s: seq<int>): (k: nat)
    requires |s| > 0
    ensures k < |s|
    ensures forall j | 0 <= j < |s| :: s[k] <= s[j]
    ensures forall j | 0 <= j < k :: s[k] < s[j]
  {
    if |s| == 1 then 0
    else
      var k := MinIndex(s[..|s| - 1]);
      if s[|s| - 1] < s[k] then |s| - 1 else k
  }

  /** Largest minus smallest score. */
  function Spread(s: seq<int>): int
    requires |s| > 0
  {
    s[MaxIndex(s)] - s[MinIndex(s)]
  }

  /** Every two scores differ by at most one: the balance the pass aims
      for. */
  predicate WithinOne(a: seq<Counts>)
  {
    forall i, j | 0 <= i < |a| && 0 <= j < |a| :: a[i].Score() <= a[j].Score() + 1
  }

  /** On a non-empty roster the spread of scores is at most 1 exactly when
      every two scores are within one. */
  lemma SpreadIsWithinOne(a: seq<Counts>)
    requires |a| > 0
    ensures Spread(Scores(a)) <= 1 <==> WithinOne(a)
  {
    var s := Scores(a);
    var hi, lo := MaxIndex(s), MinIndex(s);
    if s[hi] - s[lo] <= 1 {
      forall i, j | 0 <= i < |a| && 0 <= j < |a| ensures a[i].Score() <= a[j].Score() + 1 {
        assert s[i] <= s[hi] && s[lo] <= s[j];
      }
    } else {
      assert !(a[hi].Score() <= a[lo].Score() + 1);
    }
  }

  /** A unit of `t` may go from `from` to `to`. */
  predicate CanMove(roster: seq<Staff>, a: seq<Counts>, cap: nat, from: nat, to: nat, t: TestType)
    requires |a| == |roster| && from < |a| && to < |a|
  {
    a[from].Get(t) > 0 && IsEligible(roster[to], t) && a[to].Total() < cap
  }

  /** The first type, in the fixed order from position `k` on, that may move. */
  function FindMoveFrom(roster: seq<Staff>, a: seq<Counts>, cap: nat, from: nat, to: nat, k: nat): (m: Option<TestType>)
    requires |a| == |roster| && from < |a| && to < |a| && k <= |TypeOrder|
    ensures m.Some? ==> k <= TypeIndex(m.value) && CanMove(roster, a, cap, from, to, m.value)
    ensures m.Some? ==> forall j | k <= j < TypeIndex(m.value) :: !CanMove(roster, a, cap, from, to, TypeOrder[j])
    ensures m.None? ==> forall j | k <= j < |TypeOrder| :: !CanMove(roster, a, cap, from, to, TypeOrder[j])
    decreases |TypeOrder| - k
  {
    if k == |TypeOrder| then None
    else if CanMove(roster, a, cap, from, to, TypeOrder[k]) then
      TypeIndexOfOrder(k);
      Some(TypeOrder[k])
    else FindMoveFrom(roster, a, cap, from, to, k + 1)
  }

  /** The type moved in one round: the first one in the fixed order that
      `from` holds and `to` may take while below capacity; none if no type
      qualifies. */
  function FindMove(roster: seq<Staff>, a: seq<Counts>, cap: nat, from: nat, to: nat): (m: Option<TestType>)
    requires |a| == |roster| && from < |a| && to < |a|
    ensures m.Some? ==> CanMove(roster, a, cap, from, to, m.value)
    ensures m.Some? ==> forall u | TypeIndex(u) < TypeIndex(m.value) :: !CanMove(roster, a, cap, from, to, u)
    ensures m.None? <==> forall u :: !CanMove(roster, a, cap, from, to, u)
  {
    var m := FindMoveFrom(roster, a, cap, from, to, 0);
    assert forall u :: TypeOrder[TypeIndex(u)] == u;
    m
  }

  /** One unit of `t` goes from `from` to `to`. Every column sum and the
      grand total are kept; `from` loses one and `to` gains one; nobody else
      changes. */
  function MoveUnit(a: seq<Counts>, from: nat, to: nat, t: TestType): (r: seq<Counts>)
    requires from < |a| && to < |a| && from != to && a[from].Get(t) > 0
    ensures |r| == |a|
    ensures forall u :: ColumnSum(r, u) == ColumnSum(a, u)
    ensures GrandTotal(r) == GrandTotal(a)
    ensures r[from].Total() + 1 == a[from].Total() && r[to].Total() == a[to].Total() + 1
    ensures r[from].Get(t) + 1 == a[from].Get(t) && r[to].Get(t) == a[to].Get(t) + 1
    ensures forall u | u != t :: r[from].Get(u) == a[from].Get(u) && r[to].Get(u) == a[to].Get(u)
    ensures forall i | 0 <= i < |a| && i != from && i != to :: r[i] == a[i]
  {
    var b := a[from := a[from].Dec(t)];
    var r := b[to := b[to].Inc(t)];
    assert forall u :: ColumnSum(r, u) == ColumnSum(a, u) by {
      forall u ensures ColumnSum(r, u) == ColumnSum(a, u) {
        ColumnSumUpdate(a, from, a[from].Dec(t), u);
        ColumnSumUpdate(b, to, b[to].Inc(t), u);
      }
    }
    GrandTotalUpdate(a, from, a[from].Dec(t));
    GrandTotalUpdate(b, to, b[to].Inc(t));
    r
  }

  /** Nobody holds a type they are not eligible for. */
  ghost predicate AllEligible(roster: seq<Staff>, a: seq<Counts>)
    requires |a| == |roster|
  {
    forall i, t | 0 <= i < |a| && a[i].Get(t) > 0 :: IsEligible(roster[i], t)
  }

  /** Nobody is above the capacity. */
  ghost predicate WithinCap(a: seq<Counts>, cap: nat)
  {
    forall i | 0 <= i < |a| :: a[i].Total() <= cap
  }

  /** `a` has the length of `a0` and the same column sums. */
  ghost predicate SameColumns(a0: seq<Counts>, a: seq<Counts>)
  {
    |a| == |a0| && forall u :: ColumnSum(a, u) == ColumnSum(a0, u)
  }

  /** One round of the fairness pass that moves a unit, taking `b` to `c`:
      the scores are not all within one, and the first type that can go from
      the first top scorer to the first bottom scorer goes. */
  predicate Round(roster: seq<Staff>, cap: nat, b: seq<Counts>, c: seq<Counts>)
  {
    && |b| == |roster| && |b| > 0 && !WithinOne(b)
    && var s := Scores(b);
       var hi, lo := MaxIndex(s), MinIndex(s);
       && hi != lo
       && FindMove(roster, b, cap, hi, lo).Some?
       && c == MoveUnit(b, hi, lo, FindMove(roster, b, cap, hi, lo).value)
  }

  /** Each state of `trace` arises from the previous one by a round. */
  ghost predicate Rounds(roster: seq<Staff>, cap: nat, trace: seq<seq<Counts>>)
  {
    forall k | 0 <= k < |trace| - 1 :: Round(roster, cap, trace[k], trace[k + 1])
  }

  /** The fairness pass. It runs at most 40 rounds, each moving one unit
      from the first top scorer to the first bottom scorer; `trace` holds the
      state before each round and the final state. Column sums never change,
      and eligibility and capacity hold afterwards when they held before. It
      stops with `Balanced` only when every two scores are within one, with
      `NoFeasibleMove` only when some two are not and no type can go from the
      first top scorer to the first bottom scorer, and with `RoundLimit`
      exactly after 40 moves. An empty roster is balanced at once. */
  method Rebalance(roster: seq<Staff>, a0: seq<Counts>, cap: nat)
    returns (a: seq<Counts>, trace: seq<seq<Counts>>, stop: StopReason)
    requires |a0| == |roster|
    ensures SameColumns(a0, a)
    ensures AllEligible(roster, a0) ==> AllEligible(roster, a)
    ensures WithinCap(a0, cap) ==> WithinCap(a, cap)
    ensures 1 <= |trace| <= MaxRounds + 1 && trace[0] == a0 && trace[|trace| - 1] == a
    ensures Rounds(roster, cap, trace)
    ensures stop == Balanced ==> WithinOne(a)
    ensures stop == NoFeasibleMove ==>
              && |a| > 0 && !WithinOne(a)
              && FindMove(roster, a, cap, MaxIndex(Scores(a)), MinIndex(Scores(a))).None?
    ensures stop == RoundLimit <==> |trace| == MaxRounds + 1
    ensures |a0| == 0 ==> a == a0 && trace == [a0] && stop == Balanced
  {
    a, trace, stop := a0, [a0], RoundLimit;
    if |a| == 0 {
      stop := Balanced;
      return;
    }
    while |trace| <= MaxRounds
      invariant 1 <= |trace| <= MaxRounds + 1 && trace[0] == a0 && trace[|trace| - 1] == a
      invariant Rounds(roster, cap, trace)
      invariant |a| == |a0|
      invariant forall u :: ColumnSum(a, u) == ColumnSum(a0, u)
      invariant AllEligible(roster, a0) ==> AllEligible(roster, a)
      invariant WithinCap(a0, cap) ==> WithinCap(a, cap)
      invariant stop == RoundLimit
    {
      var scores := Scores(a);
      var hi, lo := MaxIndex(scores), MinIndex(scores);
      SpreadIsWithinOne(a);
      if scores[hi] - scores[lo] <= 1 {
        stop := Balanced;
        break;
      }
      var m := FindMove(roster, a, cap, hi, lo);
      if m.None? {
        stop := NoFeasibleMove;
        break;
      }
      var t := m.value;
      var b := MoveUnit(a, hi, lo, t);
      assert AllEligible(roster, a) ==> AllEligible(roster, b) by {
        if AllEligible(roster, a) {
          forall i, u | 0 <= i < |b| && b[i].Get(u) > 0 ensures IsEligible(roster[i], u) {
            if i != lo || u != t {
              assert a[i].Get(u) > 0;
            }
          }
        }
      }
      assert Round(roster, cap, a, b);
      RoundsExtend(roster, cap, trace, b);
      a, trace := b, trace + [b];
    }
  }

  /** Appending the state a round reaches from the last one keeps `Rounds`. */
  lemma RoundsExtend(roster: seq<Staff>, cap: nat, trace: seq<seq<Counts>>, c: seq<Counts>)
    requires |trace| > 0 && Rounds(roster, cap, trace)
    requires Round(roster, cap, trace[|trace| - 1], c)
    ensures Rounds(roster, cap, trace + [c])
  {
  }

  /** The spread test of the first round exactly as the source writes it:
      taking the largest and smallest of an empty list of scores raises an
      error, shown as `None`. */
  function SpreadTestAsWritten(a: seq<Counts>): (r: Option<bool>)
    ensures r.None? <==> |a| == 0
    ensures r.Some? ==> (r.value <==> WithinOne(a))
  {
    var s := Scores(a);
    if |s| == 0 then None
    else
      SpreadIsWithinOne(a);
      Some(s[MaxIndex(s)] - s[MinIndex(s)] <= 1)
  }

  /** For an empty roster the source's fairness pass raises on its first
      spread test, before the later steps that explicitly allow an empty
      roster; `Rebalance` instead treats the empty roster as balanced. */
  lemma EmptyRosterRaises()
    ensures SpreadTestAsWritten([]).None?
  {
  }
}
