/** The state a period hands to the next: grown loads, the nothing-received
    flag, and the course-extension flag. */
module Carryover {
  import opened Roster
  import opened Tally

  /** The smallest total on a non-empty roster. */
  function MinTotal(a: seq<Counts>): (m: nat)
    requires |a| > 0
    ensures exists i | 0 <= i < |a| :: a[i].Total() == m
    ensures forall i | 0 <= i < |a| :: m <= a[i].Total()
  {
    if |a| == 1 then a[0].Total()
    else
      var rest := MinTotal(a[1..]);
      assert forall i | 1 <= i < |a| :: a[i] == a[1..][i - 1];
      if a[0].Total() <= rest then a[0].Total() else rest
  }

  /** The flags and load after the period: the load grows by exactly the
      supervisor's total, the nothing-received flag holds exactly when that
      total is zero, and the course-extension flag is set only after the first
      morning period, exactly for course inspectors who got more than somebody
      else; everything else is kept. */
  function CarryOver(roster: seq<Staff>, a: seq<Counts>, period: int, isMorning: bool): (r: seq<Staff>)
    requires |a| == |roster|
    ensures |r| == |roster|
    ensures forall i | 0 <= i < |r| :: r[i].load == roster[i].load + a[i].Total()
    ensures forall i | 0 <= i < |r| :: r[i].prevZero <==> a[i].Total() == 0
    ensures forall i | 0 <= i < |r| ::
              r[i].needLowNext <==>
                isMorning && period == 1 && roster[i].isCourse &&
                exists j | 0 <= j < |a| :: a[j].Total() < a[i].Total()
    ensures forall i | 0 <= i < |r| ::
              && r[i].name == roster[i].name && r[i].isManual == roster[i].isManual
              && r[i].isCourse == roster[i].isCourse && r[i].eduPeriods == roster[i].eduPeriods
  {
    if isMorning && period == 1 && |roster| > 0 then
      var m := MinTotal(a);
      seq(|roster|, i requires 0 <= i < |roster| =>
        roster[i].(load := roster[i].load + a[i].Total(), prevZero := a[i].Total() == 0,
                   needLowNext := roster[i].isCourse && a[i].Total() > m))
    else
      seq(|roster|, i requires 0 <= i < |roster| =>
        roster[i].(load := roster[i].load + a[i].Total(), prevZero := a[i].Total() == 0,
                   needLowNext := false))
  }
}
