/** Per-supervisor, per-type assignment counts for one period, and their sums
    over the roster. */
module Tally {
  import opened Roster

  /** How many tests of each type one supervisor received this period. */
  datatype Counts = Counts(c1m: nat, c1a: nat, c2a: nat, c2m: nat)
  {
    function Get(t: TestType): nat
    {
      match t
      case Class1Manual => c1m
      case Class1Auto => c1a
      case Class2Auto => c2a
      case Class2Manual => c2m
    }

    /** The same counts with the entry for `t` replaced by `v`. */
    function With(t: TestType, v: nat): (r: Counts)
      ensures r.Get(t) == v
      ensures forall u :: u != t ==> r.Get(u) == Get(u)
    {
      match t
      case Class1Manual => this.(c1m := v)
      case Class1Auto => this.(c1a := v)
      case Class2Auto => this.(c2a := v)
      case Class2Manual => this.(c2m := v)
    }

    /** One more test of type `t`. */
    function Inc(t: TestType): (r: Counts)
      ensures r.Get(t) == Get(t) + 1
      ensures forall u :: u != t ==> r.Get(u) == Get(u)
      ensures r.Total() == Total() + 1
    {
      With(t, Get(t) + 1)
    }

    /** One test of type `t` fewer. */
    function Dec(t: TestType): (r: Counts)
      requires Get(t) > 0
      ensures r.Get(t) + 1 == Get(t)
      ensures forall u :: u != t ==> r.Get(u) == Get(u)
      ensures r.Total() + 1 == Total()
    {
      With(t, Get(t) - 1)
    }

    /** The supervisor's total for the period (the source's `total[i]`). */
    function Total(): nat
    {
      c1m + c1a + c2a + c2m
    }

    /** Number of distinct types held. */
    function Kinds(): nat
    {
      (if c1m > 0 then 1 else 0) + (if c1a > 0 then 1 else 0)
      + (if c2a > 0 then 1 else 0) + (if c2m > 0 then 1 else 0)
    }

    /** The mixing penalty: 1 when two or more types are held. */
    function Mix(): nat
    {
      if Kinds() >= 2 then 1 else 0
    }

    /** The fairness score: total plus mixing penalty. */
    function Score(): int
    {
      Total() + Mix()
    }
  }

  /** The fairness score in terms of the types held: the total, plus 1
      exactly when two different types both have units. */
  lemma ScoreRule(c: Counts)
    ensures (exists t, u :: t != u && c.Get(t) > 0 && c.Get(u) > 0) ==> c.Score() == c.Total() + 1
    ensures (forall t, u | t != u :: c.Get(t) == 0 || c.Get(u) == 0) ==> c.Score() == c.Total()
  {
    if exists t, u :: t != u && c.Get(t) > 0 && c.Get(u) > 0 {
      var t, u :| t != u && c.Get(t) > 0 && c.Get(u) > 0;
      assert c.Kinds() >= 2 by {
        match t
        case Class1Manual =>
        case Class1Auto =>
        case Class2Auto =>
        case Class2Manual =>
      }
    } else {
      assert c.Kinds() <= 1 by {
        assert !(c.c1m > 0 && c.c1a > 0) by { assert c.Get(Class1Manual) == c.c1m && c.Get(Class1Auto) == c.c1a; }
      }
    }
  }

  const Zero: Counts := Counts(0, 0, 0, 0)

  /** Units of type `t` held across the whole roster. */
  function ColumnSum(a: seq<Counts>, t: TestType): nat
  {
    if |a| == 0 then 0 else a[0].Get(t) + ColumnSum(a[1..], t)
  }

  /** Units of all types held across the whole roster. */
  function GrandTotal(a: seq<Counts>): nat
  {
    if |a| == 0 then 0 else a[0].Total() + GrandTotal(a[1..])
  }

  /** Replacing one person's counts changes a column sum by exactly the
      difference in that person's entry. */
  lemma {:induction false} ColumnSumUpdate(a: seq<Counts>, i: nat, c: Counts, t: TestType)
    requires i < |a|
    ensures ColumnSum(a[i := c], t) + a[i].Get(t) == ColumnSum(a, t) + c.Get(t)
  {
    if i == 0 {
      assert a[i := c][1..] == a[1..];
    } else {
      assert a[i := c][1..] == a[1..][i - 1 := c];
      ColumnSumUpdate(a[1..], i - 1, c, t);
    }
  }

  /** The same for the grand total. */
  lemma {:induction false} GrandTotalUpdate(a: seq<Counts>, i: nat, c: Counts)
    requires i < |a|
    ensures GrandTotal(a[i := c]) + a[i].Total() == GrandTotal(a) + c.Total()
  {
    if i == 0 {
      assert a[i := c][1..] == a[1..];
    } else {
      assert a[i := c][1..] == a[1..][i - 1 := c];
      GrandTotalUpdate(a[1..], i - 1, c);
    }
  }

  /** A roster with nothing assigned has empty columns. */
  lemma {:induction false} ColumnSumOfZeros(a: seq<Counts>, t: TestType)
    requires forall i | 0 <= i < |a| :: a[i] == Zero
    ensures ColumnSum(a, t) == 0
  {
    if |a| > 0 {
      ColumnSumOfZeros(a[1..], t);
    }
  }
}
