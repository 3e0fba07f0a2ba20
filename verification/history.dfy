/** The rotation history: supervisors who were truly under-assigned in a
    period are remembered and preferred in later tie-breaks; the history
    clears itself once it covers the whole roster. */
module History {
  import opened Roster
  import opened Tally
  import opened Weights
  import opened Carryover

  predicate NoDuplicates(s: seq<string>)
  {
    forall i, j | 0 <= i < j < |s| :: s[i] != s[j]
  }

  function Elems(s: seq<string>): set<string>
  {
    set x | x in s
  }

  /** A stored history as it is read back: later repetitions of a name are
      dropped. The result has no duplicates and the same names; a history
      without duplicates comes back unchanged. */
  method CleanHistory(raw: seq<string>) returns (cleaned: seq<string>)
    ensures NoDuplicates(cleaned)
    ensures forall x :: x in cleaned <==> x in raw
    ensures NoDuplicates(raw) ==> cleaned == raw
  {
    cleaned := [];
    var i := 0;
    while i < |raw|
      invariant 0 <= i <= |raw|
      invariant NoDuplicates(cleaned)
      invariant forall x :: x in cleaned <==> x in raw[..i]
      invariant NoDuplicates(raw[..i]) ==> cleaned == raw[..i]
    {
      assert raw[..i + 1] == raw[..i] + [raw[i]];
      if raw[i] !in cleaned {
        cleaned := cleaned + [raw[i]];
      }
      i := i + 1;
    }
    assert raw[..i] == raw;
  }

  /** Supervisor `i` has the smallest total. */
  predicate LeastTotal(a: seq<Counts>, i: nat)
    requires i < |a|
  {
    forall j | 0 <= j < |a| :: a[i].Total() <= a[j].Total()
  }

  /** The names, in roster order among the first `k` supervisors, whose
      total is `m` and who had no duty bump according to `flags`. */
  function LowPrefix(flags: seq<Staff>, a: seq<Counts>, m: nat, period: int, isMorning: bool, k: nat): (g: seq<string>)
    requires |a| == |flags| && k <= |flags|
    ensures forall x | x in g ::
              exists i | 0 <= i < k :: flags[i].name == x && a[i].Total() == m && !HasDuty(flags[i], period, isMorning)
    ensures forall i | 0 <= i < k && a[i].Total() == m && !HasDuty(flags[i], period, isMorning) :: flags[i].name in g
  {
    if k == 0 then []
    else
      var i := k - 1;
      LowPrefix(flags, a, m, period, isMorning, i)
      + (if a[i].Total() == m && !HasDuty(flags[i], period, isMorning) then [flags[i].name] else [])
  }

  /** The low group filtered with the duty flags in `flags`. */
  function LowFilter(flags: seq<Staff>, a: seq<Counts>, period: int, isMorning: bool): seq<string>
    requires |a| == |flags|
  {
    if |flags| == 0 then [] else LowPrefix(flags, a, MinTotal(a), period, isMorning, |flags|)
  }

  /** The truly under-assigned supervisors: exactly those with the smallest
      total who received no duty bump this period (judged by the flags as the
      weights saw them). */
  function LowGroup(roster: seq<Staff>, a: seq<Counts>, period: int, isMorning: bool): (g: seq<string>)
    requires |a| == |roster|
    ensures forall x | x in g ::
              exists i | 0 <= i < |roster| ::
                roster[i].name == x && LeastTotal(a, i) && DutyBump(roster[i], period, isMorning) == 0
    ensures forall i | 0 <= i < |roster| && LeastTotal(a, i) && DutyBump(roster[i], period, isMorning) == 0 ::
              roster[i].name in g
  {
    LowFilter(roster, a, period, isMorning)
  }

  /** The low group as the source computes it: the course-extension
      exclusion reads the flag after it has already been recomputed for the
      next period, where it is always false in the second period. So the
      group holds exactly the supervisors with the smallest total who are
      neither course inspectors in the first morning period nor lecturers of
      the next period. */
  function LowGroupAsWritten(roster: seq<Staff>, a: seq<Counts>, period: int, isMorning: bool): (g: seq<string>)
    requires |a| == |roster|
    ensures forall x | x in g ::
              exists i | 0 <= i < |roster| ::
                && roster[i].name == x && LeastTotal(a, i)
                && !CourseDuty(roster[i], period, isMorning) && !LecturesNext(roster[i], period)
    ensures forall i | 0 <= i < |roster| && LeastTotal(a, i) &&
                       !CourseDuty(roster[i], period, isMorning) && !LecturesNext(roster[i], period) ::
              roster[i].name in g
  {
    var after := CarryOver(roster, a, period, isMorning);
    assert forall i | 0 <= i < |roster| ::
             HasDuty(after[i], period, isMorning) <==> CourseDuty(roster[i], period, isMorning) || LecturesNext(roster[i], period);
    LowFilter(after, a, period, isMorning)
  }

  /** The source's low group and the intended one differ only by course
      extenders in the second morning period: every intended member is in
      the source's group, and a name only the source's group holds belongs
      to a supervisor with the extension flag in morning period 2. */
  lemma LowGroupsDifferByExtenders(roster: seq<Staff>, a: seq<Counts>, period: int, isMorning: bool)
    requires |a| == |roster|
    ensures forall x | x in LowGroup(roster, a, period, isMorning) :: x in LowGroupAsWritten(roster, a, period, isMorning)
    ensures forall x | x in LowGroupAsWritten(roster, a, period, isMorning) && x !in LowGroup(roster, a, period, isMorning) ::
              && isMorning && period == 2
              && exists i | 0 <= i < |roster| :: roster[i].name == x && roster[i].needLowNext
  {
  }

  /** In the second morning period a course extender with the smallest total
      has received a duty bump, yet the source's low group contains them; the
      corrected low group does not (names being distinct). */
  lemma ExtensionNotExcludedAsWritten(roster: seq<Staff>, a: seq<Counts>, i: nat)
    requires |a| == |roster| && i < |roster|
    requires forall p, q | 0 <= p < q < |roster| :: roster[p].name != roster[q].name
    requires roster[i].needLowNext
    requires forall j | 0 <= j < |a| :: a[i].Total() <= a[j].Total()
    ensures DutyBump(roster[i], 2, true) == 1
    ensures roster[i].name in LowGroupAsWritten(roster, a, 2, true)
    ensures roster[i].name !in LowGroup(roster, a, 2, true)
  {
    var after := CarryOver(roster, a, 2, true);
    assert !HasDuty(after[i], 2, true);
    assert a[i].Total() == MinTotal(a);
  }

  /** The history with each low-group name not yet in it appended. */
  function AppendNew(hist: seq<string>, g: seq<string>): (r: seq<string>)
    ensures hist <= r
    ensures forall x :: x in r <==> x in hist || x in g
    ensures NoDuplicates(hist) ==> NoDuplicates(r)
    decreases |g|
  {
    if |g| == 0 then hist
    else AppendNew(if g[0] in hist then hist else hist + [g[0]], g[1..])
  }

  /** The source's reset test: every current name is in the history and the
      history is at least as long as the roster. */
  predicate Covers(h: seq<string>, names: seq<string>)
  {
    (forall x | x in names :: x in h) && |h| >= |names|
  }

  /** The history after a period: the low group appended without duplicates,
      then cleared in full once it covers every current name. When names are
      distinct the length test adds nothing, so the history is cleared exactly
      when it would contain every current name. */
  function UpdateHistory(hist: seq<string>, g: seq<string>, names: seq<string>): (r: seq<string>)
    ensures NoDuplicates(hist) ==> NoDuplicates(r)
    ensures r == [] || (hist <= r && forall x :: x in r <==> x in hist || x in g)
    ensures NoDuplicates(names) && (forall x | x in names :: x in hist || x in g) ==> r == []
    ensures (exists x | x in names :: x !in hist && x !in g) ==>
              hist <= r && forall x :: x in r <==> x in hist || x in g
  {
    var h := AppendNew(hist, g);
    DistinctCoveredIsShorter(names, h);
    if Covers(h, names) then [] else h
  }

  /** A sequence has at least as many positions as distinct elements. */
  lemma {:induction false} ElemsBound(s: seq<string>)
    ensures |Elems(s)| <= |s|
  {
    if |s| > 0 {
      var p := s[..|s| - 1];
      assert s == p + [s[|s| - 1]];
      assert Elems(s) == Elems(p) + {s[|s| - 1]};
      ElemsBound(p);
    }
  }

  /** A duplicate-free sequence has exactly as many distinct elements as
      positions. */
  lemma {:induction false} ElemsOfDistinct(s: seq<string>)
    requires NoDuplicates(s)
    ensures |Elems(s)| == |s|
  {
    if |s| > 0 {
      var p := s[..|s| - 1];
      var last := s[|s| - 1];
      assert s == p + [last];
      assert Elems(s) == Elems(p) + {last};
      assert last !in Elems(p);
      ElemsOfDistinct(p);
    }
  }

  /** Distinct names all contained in `h` are no more than `h` is long. */
  lemma DistinctCoveredIsShorter(names: seq<string>, h: seq<string>)
    ensures NoDuplicates(names) && (forall x | x in names :: x in h) ==> |names| <= |h|
  {
    if !NoDuplicates(names) || !(forall x | x in names :: x in h) {
      return;
    }
    ElemsOfDistinct(names);
    ElemsBound(h);
    assert Elems(names) <= Elems(h);
    assert |Elems(names)| <= |Elems(h)| by {
      SubsetCard(Elems(names), Elems(h));
    }
  }

  lemma SubsetCard(a: set<string>, b: set<string>)
    requires a <= b
    ensures |a| <= |b|
  {
    assert b == a + (b - a);
  }
}
