/** The priority adjustments made at the start of a period: the bonus for
    having received nothing last period, and the duty bump for course
    inspection, course extension and lecturing (capped at one unit). */
module Weights {
  import opened Roster

  /** Course inspectors are bumped in the first morning period. */
  predicate CourseDuty(s: Staff, period: int, isMorning: bool)
  {
    isMorning && period == 1 && s.isCourse
  }

  /** Course inspectors whose extension was recorded are bumped in the second
      morning period. */
  predicate CourseExtension(s: Staff, period: int, isMorning: bool)
  {
    isMorning && period == 2 && s.needLowNext
  }

  /** The lecturer of period k is bumped in period k - 1, for k in 2, 4 and 5
      only (lectures of periods 1 and 3 carry no weight). */
  predicate LecturesNext(s: Staff, period: int)
  {
    var k := period + 1;
    (k == 2 || k == 4 || k == 5) && k in s.eduPeriods
  }

  /** Whether some duty entitles `s` to a bump this period. */
  predicate HasDuty(s: Staff, period: int, isMorning: bool)
  {
    CourseDuty(s, period, isMorning) || CourseExtension(s, period, isMorning) || LecturesNext(s, period)
  }

  /** One unit for each lecture k in 2, 4, 5 that falls in the next period. */
  function LectureWeight(s: Staff, period: int): nat
  {
    (if period == 2 - 1 && 2 in s.eduPeriods then 1 else 0)
    + (if period == 4 - 1 && 4 in s.eduPeriods then 1 else 0)
    + (if period == 5 - 1 && 5 in s.eduPeriods then 1 else 0)
  }

  /** The summed duty weight before the cap. */
  function RawWeight(s: Staff, period: int, isMorning: bool): nat
  {
    (if isMorning && period == 1 && s.isCourse then 1 else 0)
    + (if isMorning && period == 2 && s.needLowNext then 1 else 0)
    + LectureWeight(s, period)
  }

  /** The duty bump: the summed weight capped at one. It is 0 or 1, and 1
      exactly when some duty applies. */
  function DutyBump(s: Staff, period: int, isMorning: bool): (w: nat)
    ensures w <= 1
    ensures w == 1 <==> HasDuty(s, period, isMorning)
  {
    var raw := RawWeight(s, period, isMorning);
    if raw > 1 then 1 else raw
  }

  /** Same name, certification and duties (everything but the carried load
      and flags `load` and `prevZero`). */
  predicate SameDuties(s: Staff, s': Staff)
  {
    && s.name == s'.name && s.isManual == s'.isManual && s.isCourse == s'.isCourse
    && s.eduPeriods == s'.eduPeriods && s.needLowNext == s'.needLowNext
  }

  /** The bonus for supervisors who received nothing in the previous period;
      the flag is consumed. */
  function ApplyCarryBump(roster: seq<Staff>): (r: seq<Staff>)
    ensures |r| == |roster|
    ensures forall i | 0 <= i < |r| :: r[i].load == roster[i].load + (if roster[i].prevZero then 1 else 0)
    ensures forall i | 0 <= i < |r| :: !r[i].prevZero
    ensures forall i | 0 <= i < |r| :: SameDuties(r[i], roster[i])
  {
    seq(|roster|, i requires 0 <= i < |roster| =>
      roster[i].(load := roster[i].load + (if roster[i].prevZero then 1 else 0), prevZero := false))
  }

  /** Every load grows by 0 or 1, by 1 exactly for those with a duty this
      period; nothing else changes. */
  function ApplyWeights(roster: seq<Staff>, period: int, isMorning: bool): (r: seq<Staff>)
    ensures |r| == |roster|
    ensures forall i | 0 <= i < |r| :: roster[i].load <= r[i].load <= roster[i].load + 1
    ensures forall i | 0 <= i < |r| :: r[i].load == roster[i].load + 1 <==> HasDuty(roster[i], period, isMorning)
    ensures forall i | 0 <= i < |r| :: SameDuties(r[i], roster[i]) && r[i].prevZero == roster[i].prevZero
  {
    seq(|roster|, i requires 0 <= i < |roster| =>
      roster[i].(load := roster[i].load + DutyBump(roster[i], period, isMorning)))
  }

  /** The reprioritisation at the start of a period: the nothing-received
      bonus, then the duty bump. Each load grows by exactly the two, the
      nothing-received flag is consumed, and the duties are kept. */
  function Prime(roster: seq<Staff>, period: int, isMorning: bool): (r: seq<Staff>)
    ensures |r| == |roster|
    ensures forall i | 0 <= i < |r| ::
              r[i].load == roster[i].load + (if roster[i].prevZero then 1 else 0) + DutyBump(roster[i], period, isMorning)
    ensures forall i | 0 <= i < |r| :: SameDuties(r[i], roster[i]) && !r[i].prevZero
  {
    var bonused := ApplyCarryBump(roster);
    assert forall i | 0 <= i < |roster| :: DutyBump(bonused[i], period, isMorning) == DutyBump(roster[i], period, isMorning) by {
      forall i | 0 <= i < |roster| ensures DutyBump(bonused[i], period, isMorning) == DutyBump(roster[i], period, isMorning) {
        assert HasDuty(bonused[i], period, isMorning) == HasDuty(roster[i], period, isMorning);
      }
    }
    ApplyWeights(bonused, period, isMorning)
  }
}
