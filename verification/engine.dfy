/** One call of the period assignment engine: reprioritise the roster, place
    the demand greedily, rebalance, hand the state on, and update the
    rotation history. */
module Engine {
  import opened Roster
  import opened Tally
  import opened Weights
  import opened Greedy
  import opened Fairness
  import opened Carryover
  import opened History

  /** The most tests one supervisor may take in a period: two in the first
      and fifth periods, three otherwise. */
  function BaseCap(period: int): nat
  {
    if period == 1 || period == 5 then 2 else 3
  }

  predicate DistinctNames(roster: seq<Staff>)
  {
    forall i, j | 0 <= i < j < |roster| :: roster[i].name != roster[j].name
  }

  function Names(roster: seq<Staff>): (names: seq<string>)
    ensures |names| == |roster|
    ensures forall i | 0 <= i < |roster| :: names[i] == roster[i].name
  {
    seq(|roster|, i requires 0 <= i < |roster| => roster[i].name)
  }

  /** Everything one period produces: the roster with its carried state,
      the per-supervisor counts (in roster order) after the greedy pass and,
      through the fairness rounds, at the end; the units no one could take;
      how the fairness pass ended; the low group; and the history to store. */
  datatype PeriodResult = PeriodResult(
    roster: seq<Staff>,
    greedy: seq<Counts>,
    rounds: seq<seq<Counts>>,
    counts: seq<Counts>,
    unplaced: Counts,
    stop: StopReason,
    lowGroup: seq<string>,
    history: seq<string>)

  /** Every count is for a type its holder is eligible for, nobody exceeds
      the capacity of the period (two in periods 1 and 5, three otherwise),
      and per type the placed and the unplaced units add up to the demand. */
  ghost predicate Placed(roster: seq<Staff>, period: int, demand: Demand, counts: seq<Counts>, unplaced: Counts)
  {
    && |counts| == |roster|
    && (forall i, t | 0 <= i < |roster| && counts[i].Get(t) > 0 :: IsEligible(roster[i], t))
    && (forall i | 0 <= i < |roster| :: counts[i].Total() <= BaseCap(period))
    && (forall t :: ColumnSum(counts, t) + unplaced.Get(t) == Need(demand, t))
  }

  /** The outcome of the greedy pass on the primed roster: placed as above,
      reached type by type in the fixed order with every unit first in the
      pick order (least load, then the history), and units of a type left
      over only when everybody eligible for it is full. */
  ghost predicate GreedyPlaced(primed: seq<Staff>, period: int, demand: Demand, hist: set<string>, greedy: seq<Counts>, unplaced: Counts)
  {
    && Placed(primed, period, demand, greedy, unplaced)
    && (exists stages :: TypeByType(primed, BaseCap(period), demand, hist, stages, greedy, unplaced))
    && InPickOrder(primed, greedy, BaseCap(period), hist)
    && (forall t | unplaced.Get(t) > 0 ::
          forall i | 0 <= i < |greedy| && IsEligible(primed[i], t) :: greedy[i].Total() == BaseCap(period))
  }

  /** The fairness pass took `greedy` to `counts` by at most 40 rounds, each
      moving one unit from the first top scorer to the first bottom scorer,
      and stopped for its stated reason. */
  ghost predicate Rebalanced(primed: seq<Staff>, period: int, greedy: seq<Counts>, rounds: seq<seq<Counts>>, counts: seq<Counts>, stop: StopReason)
  {
    && 1 <= |rounds| <= MaxRounds + 1 && rounds[0] == greedy && rounds[|rounds| - 1] == counts
    && Rounds(primed, BaseCap(period), rounds)
    && (stop == Balanced ==> WithinOne(counts))
    && (stop == NoFeasibleMove ==>
          && |counts| == |primed| && |counts| > 0 && !WithinOne(counts)
          && FindMove(primed, counts, BaseCap(period), MaxIndex(Scores(counts)), MinIndex(Scores(counts))).None?)
    && (stop == RoundLimit <==> |rounds| == MaxRounds + 1)
  }

  /** The state handed to the next period: duties kept; each load grown by
      the nothing-received bonus, the duty bump and the total received; the
      nothing-received flag set exactly for those who received nothing; the
      extension flag set only after the first morning period, exactly for
      course inspectors above somebody else's total. */
  ghost predicate Carried(roster: seq<Staff>, period: int, isMorning: bool, counts: seq<Counts>, after: seq<Staff>)
    requires |counts| == |roster|
  {
    && |after| == |roster|
    && (forall i | 0 <= i < |roster| ::
          && after[i].name == roster[i].name && after[i].isManual == roster[i].isManual
          && after[i].isCourse == roster[i].isCourse && after[i].eduPeriods == roster[i].eduPeriods)
    && (forall i | 0 <= i < |roster| ::
          after[i].load == roster[i].load + (if roster[i].prevZero then 1 else 0)
                           + DutyBump(roster[i], period, isMorning) + counts[i].Total())
    && (forall i | 0 <= i < |roster| :: after[i].prevZero <==> counts[i].Total() == 0)
    && (forall i | 0 <= i < |roster| ::
          after[i].needLowNext <==>
            isMorning && period == 1 && roster[i].isCourse &&
            exists j | 0 <= j < |roster| :: counts[j].Total() < counts[i].Total())
  }

  /** `low` holds exactly the names of the supervisors with the smallest
      total and no duty bump. */
  ghost predicate LowExact(roster: seq<Staff>, period: int, isMorning: bool, counts: seq<Counts>, low: seq<string>)
    requires |counts| == |roster|
  {
    && (forall x | x in low ::
          exists i | 0 <= i < |roster| ::
            && roster[i].name == x
            && LeastTotal(counts, i)
            && DutyBump(roster[i], period, isMorning) == 0)
    && (forall i | 0 <= i < |roster| &&
                   LeastTotal(counts, i) &&
                   DutyBump(roster[i], period, isMorning) == 0 :: roster[i].name in low)
  }

  /** The new history has no duplicates; it is empty when the stored names
      and the low group together cover the roster, and otherwise holds
      exactly the stored names and the low group. */
  ghost predicate Rotated(roster: seq<Staff>, stored: seq<string>, low: seq<string>, history: seq<string>)
  {
    && NoDuplicates(history)
    && ((forall i | 0 <= i < |roster| :: roster[i].name in stored || roster[i].name in low) ==> history == [])
    && (history == [] || forall x :: x in history <==> x in stored || x in low)
    && ((exists i | 0 <= i < |roster| :: roster[i].name !in stored && roster[i].name !in low) ==>
          forall x :: x in history <==> x in stored || x in low)
  }

  /** Greedy placement followed by the fairness pass. */
  method PlaceAndRebalance(primed: seq<Staff>, period: int, demand: Demand, hist: set<string>)
    returns (greedy: seq<Counts>, rounds: seq<seq<Counts>>, counts: seq<Counts>, unplaced: Counts, stop: StopReason)
    ensures GreedyPlaced(primed, period, demand, hist, greedy, unplaced)
    ensures Rebalanced(primed, period, greedy, rounds, counts, stop)
    ensures Placed(primed, period, demand, counts, unplaced)
  {
    var cap := BaseCap(period);
    var stages;
    greedy, unplaced, stages := Allocate(primed, cap, demand, hist);
    counts, rounds, stop := Rebalance(primed, greedy, cap);
  }

  /** The history bookkeeping after a period. */
  lemma HistoryRotates(roster: seq<Staff>, stored: seq<string>, hist: seq<string>, low: seq<string>)
    requires DistinctNames(roster)
    requires NoDuplicates(hist) && forall x :: x in hist <==> x in stored
    ensures Rotated(roster, stored, low, UpdateHistory(hist, low, Names(roster)))
  {
    var names := Names(roster);
    assert NoDuplicates(names);
    assert forall x | x in names :: exists i | 0 <= i < |roster| :: roster[i].name == x;
  }

  /** The carried state after a period. */
  lemma CarryOverOfPrimed(roster: seq<Staff>, period: int, isMorning: bool, counts: seq<Counts>)
    requires |counts| == |roster|
    ensures Carried(roster, period, isMorning, counts, CarryOver(Prime(roster, period, isMorning), counts, period, isMorning))
  {
  }

  /** Placement judged on the primed roster holds of the input roster, whose
      certifications are the same. */
  lemma PlacedOnRoster(roster: seq<Staff>, primed: seq<Staff>, period: int, demand: Demand, counts: seq<Counts>, unplaced: Counts)
    requires |primed| == |roster|
    requires forall i | 0 <= i < |roster| :: primed[i].isManual == roster[i].isManual
    requires Placed(primed, period, demand, counts, unplaced)
    ensures Placed(roster, period, demand, counts, unplaced)
  {
    forall i, t | 0 <= i < |roster| && counts[i].Get(t) > 0 ensures IsEligible(roster[i], t) {
      assert IsEligible(primed[i], t);
    }
  }

  /** The low group is exact. */
  lemma LowGroupIsExact(roster: seq<Staff>, period: int, isMorning: bool, counts: seq<Counts>)
    requires |counts| == |roster|
    ensures LowExact(roster, period, isMorning, counts, LowGroup(roster, counts, period, isMorning))
  {
  }

  /** Assigns one period; `stored` is the history as last saved. */
  method AssignOnePeriod(roster: seq<Staff>, period: int, demand: Demand, isMorning: bool, stored: seq<string>)
    returns (res: PeriodResult)
    requires DistinctNames(roster)
    ensures GreedyPlaced(Prime(roster, period, isMorning), period, demand, Elems(stored), res.greedy, res.unplaced)
    ensures Rebalanced(Prime(roster, period, isMorning), period, res.greedy, res.rounds, res.counts, res.stop)
    ensures Placed(roster, period, demand, res.counts, res.unplaced)
    ensures Carried(roster, period, isMorning, res.counts, res.roster)
    ensures LowExact(roster, period, isMorning, res.counts, res.lowGroup)
    ensures Rotated(roster, stored, res.lowGroup, res.history)
  {
    var hist := CleanHistory(stored);
    var histSet := set x | x in hist;
    assert histSet == Elems(stored);

    var primed := Prime(roster, period, isMorning);
    var greedy, rounds, counts, unplaced, stop := PlaceAndRebalance(primed, period, demand, histSet);
    PlacedOnRoster(roster, primed, period, demand, counts, unplaced);

    var carried := CarryOver(primed, counts, period, isMorning);
    CarryOverOfPrimed(roster, period, isMorning, counts);
    // the duty flags the low group is judged by are those the weights saw,
    // which the priming step does not touch
    var low := LowGroup(roster, counts, period, isMorning);
    LowGroupIsExact(roster, period, isMorning, counts);
    var newHist := UpdateHistory(hist, low, Names(roster));
    HistoryRotates(roster, stored, hist, low);

    res := PeriodResult(carried, greedy, rounds, counts, unplaced, stop, low, newHist);
  }
}
