/** The roster of road-test supervisors and the four test types they supervise. */
module Roster {

  /** The four road-test types: licence class 1 or 2, manual or automatic
      transmission (the source's codes "1M", "1A", "2A", "2M"). */
  datatype TestType = Class1Manual | Class1Auto | Class2Auto | Class2Manual

  /** The fixed order in which demand is placed and in which the fairness pass
      looks for a unit to move. */
  const TypeOrder: seq<TestType> := [Class1Manual, Class1Auto, Class2Auto, Class2Manual]

  /** Position of a type in `TypeOrder`. */
  function TypeIndex(t: TestType): (k: nat)
    ensures k < |TypeOrder| && TypeOrder[k] == t
  {
    match t
    case Class1Manual => 0
    case Class1Auto => 1
    case Class2Auto => 2
    case Class2Manual => 3
  }

  lemma TypeIndexOfOrder(k: nat)
    requires k < |TypeOrder|
    ensures TypeIndex(TypeOrder[k]) == k
  {
  }

  /** The supervisors certified for manual transmission; everybody else may
      only supervise automatic-transmission tests. */
  const ManualSet: set<string> := {"권한솔", "김남균", "김성연", "김주현", "이호석", "조정래"}

  /** One supervisor and the state carried from one period to the next.
      `eduPeriods` holds the periods k whose lecture this person gives
      (the source's `is_edu[k]`); `load` is the priority score, lower first. */
  datatype Staff = Staff(
    name: string,
    isManual: bool,
    isCourse: bool,
    eduPeriods: set<int>,
    load: int,
    needLowNext: bool,
    prevZero: bool)

  /** A fresh roster entry: manual certification comes from `ManualSet`, all
      duties and carried state start cleared. */
  function NewStaff(name: string): Staff
  {
    Staff(name, name in ManualSet, false, {}, 0, false, false)
  }

  predicate IsAutomatic(t: TestType)
  {
    t == Class1Auto || t == Class2Auto
  }

  /** Whether `s` may supervise a test of type `t`. */
  predicate IsEligible(s: Staff, t: TestType)
  {
    s.isManual || IsAutomatic(t)
  }

  /** The set of types a supervisor may take. */
  function EligibleTypes(s: Staff): (ts: set<TestType>)
    ensures forall t :: t in ts <==> IsEligible(s, t)
  {
    assert forall t :: t in TypeOrder by {
      forall t ensures t in TypeOrder {
        assert TypeOrder[TypeIndex(t)] == t;
      }
    }
    set t | t in TypeOrder && IsEligible(s, t)
  }

  /** Manual-certified supervisors may take all four types; everybody else
      exactly the two automatic types. A fresh entry is manual-certified
      exactly when its name is in `ManualSet`. */
  lemma EligibilityRule(s: Staff, name: string)
    ensures s.isManual ==> EligibleTypes(s) == {Class1Manual, Class1Auto, Class2Auto, Class2Manual}
    ensures !s.isManual ==> EligibleTypes(s) == {Class1Auto, Class2Auto}
    ensures EligibleTypes(NewStaff(name)) == {Class1Manual, Class1Auto, Class2Auto, Class2Manual}
            <==> name in ManualSet
  {
    var full := {Class1Manual, Class1Auto, Class2Auto, Class2Manual};
    if name !in ManualSet {
      assert Class1Manual !in EligibleTypes(NewStaff(name));
    }
    if s.isManual {
      assert forall t :: t in full by {
        forall t ensures t in full {
          match t
          case Class1Manual =>
          case Class1Auto =>
          case Class2Auto =>
          case Class2Manual =>
        }
      }
    }
  }
}
