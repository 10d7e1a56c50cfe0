/** The processor tests that the instruction table compiler writes into the
  generated C code (src/cpu/generate.py). The processors of a table are listed
  in the order of their C enumerators, so a set of them becomes a disjunction of
  interval tests. */
module CpuConditions {

  type Isa = string

  /** A test of the enumerator of the processor, by enumerator names. */
  datatype Condition = Equal(isa: Isa) | AtMost(end: Isa) | AtLeast(start: Isa) | Between(start: Isa, end: Isa)

  /** The meaning of a test when `rank` gives the values of the enumerators. */
  predicate Holds(c: Condition, rank: Isa -> int, cpu: Isa) {
    match c
    case Equal(isa) => rank(cpu) == rank(isa)
    case AtMost(end) => rank(cpu) <= rank(end)
    case AtLeast(start) => rank(start) <= rank(cpu)
    case Between(start, end) => rank(start) <= rank(cpu) <= rank(end)
  }

  /** The generated test: no test at all if there are no conditions. */
  ghost predicate Passes(conditions: seq<Condition>, rank: Isa -> int, cpu: Isa) {
    conditions == [] || exists c :: c in conditions && Holds(c, rank, cpu)
  }

  /** The enumerators are declared in the order of the list. */
  ghost predicate Ordered(range: seq<Isa>, rank: Isa -> int) {
    forall i, j :: 0 <= i < j < |range| ==> rank(range[i]) < rank(range[j])
  }

  /** No processor is listed twice. */
  ghost predicate Distinct(range: seq<Isa>) {
    forall i, j :: 0 <= i < j < |range| ==> range[i] != range[j]
  }

  /** A run of listed processors, by its first and last index. */
  datatype Run = Run(first: nat, last: nat) {
    predicate Within(i: nat) { first <= i <= last }
  }

  ghost predicate Covered(runs: seq<Run>, i: nat) {
    exists k :: 0 <= k < |runs| && runs[k].Within(i)
  }

  /** `runs` are disjoint runs, in order, of exactly the implemented processors
    among the first `n`. */
  ghost predicate RunsOf(runs: seq<Run>, range: seq<Isa>, impl: set<Isa>, n: nat) {
    && n <= |range|
    && (forall k :: 0 <= k < |runs| ==> runs[k].first <= runs[k].last < n)
    && (forall j, k :: 0 <= j < k < |runs| ==> runs[j].last < runs[k].first)
    && (forall i: nat :: i < n ==> (range[i] in impl <==> Covered(runs, i)))
  }

  lemma RunExtended(runs: seq<Run>, range: seq<Isa>, impl: set<Isa>, n: nat)
    requires n < |range| && RunsOf(runs, range, impl, n) && range[n] in impl
    requires |runs| > 0 && runs[|runs| - 1].last == n - 1
    ensures var k := |runs| - 1; RunsOf(runs[k := Run(runs[k].first, n)], range, impl, n + 1)
  {
    var k := |runs| - 1;
    var after := runs[k := Run(runs[k].first, n)];
    forall i: nat | i < n + 1
      ensures range[i] in impl <==> Covered(after, i)
    {
      if i == n {
        assert after[k].Within(n);
      } else if Covered(runs, i) {
        var j :| 0 <= j < |runs| && runs[j].Within(i);
        assert after[j].Within(i);
      }
    }
  }

  lemma RunAdded(runs: seq<Run>, range: seq<Isa>, impl: set<Isa>, n: nat)
    requires n < |range| && RunsOf(runs, range, impl, n) && range[n] in impl
    ensures RunsOf(runs + [Run(n, n)], range, impl, n + 1)
  {
    var after := runs + [Run(n, n)];
    forall i: nat | i < n + 1
      ensures range[i] in impl <==> Covered(after, i)
    {
      if i == n {
        assert after[|runs|].Within(n);
      } else if Covered(runs, i) {
        var j :| 0 <= j < |runs| && runs[j].Within(i);
        assert after[j].Within(i);
      }
    }
  }

  lemma RunsKept(runs: seq<Run>, range: seq<Isa>, impl: set<Isa>, n: nat)
    requires n < |range| && RunsOf(runs, range, impl, n) && range[n] !in impl
    ensures RunsOf(runs, range, impl, n + 1)
  {
  }

  /** The condition of a run, or none if it is the whole list. */
  function ConditionOf(range: seq<Isa>, r: Run): (c: seq<Condition>)
    requires r.first <= r.last < |range|
    ensures |c| <= 1
  {
    if r.first == 0 && r.last == |range| - 1 then []
    else if r.first == r.last then [Equal(range[r.first])]
    else if r.first == 0 then [AtMost(range[r.last])]
    else if r.last == |range| - 1 then [AtLeast(range[r.first])]
    else [Between(range[r.first], range[r.last])]
  }

  /** A condition of a run holds for exactly the processors of the run. */
  lemma ConditionMeaning(range: seq<Isa>, rank: Isa -> int, r: Run, i: nat)
    requires Ordered(range, rank) && r.first <= r.last < |range| && i < |range|
    requires ConditionOf(range, r) != []
    ensures Holds(ConditionOf(range, r)[0], rank, range[i]) <==> r.first <= i <= r.last
  {
    assert forall j :: 0 <= j < |range| ==>
      (j < i ==> rank(range[j]) < rank(range[i])) && (i < j ==> rank(range[i]) < rank(range[j]));
  }

  /** The conditions of runs, in order. */
  function Conditions(range: seq<Isa>, runs: seq<Run>): seq<Condition>
    requires forall k :: 0 <= k < |runs| ==> runs[k].first <= runs[k].last < |range|
  {
    if |runs| == 0 then []
    else Conditions(range, runs[..|runs| - 1]) + ConditionOf(range, runs[|runs| - 1])
  }

  lemma {:induction false} ConditionsFrom(range: seq<Isa>, runs: seq<Run>, c: Condition)
    requires forall k :: 0 <= k < |runs| ==> runs[k].first <= runs[k].last < |range|
    ensures c in Conditions(range, runs) <==> exists k :: 0 <= k < |runs| && ConditionOf(range, runs[k]) == [c]
  {
    hide ConditionOf;
    if |runs| == 0 {
    } else {
      var before, last := runs[..|runs| - 1], runs[|runs| - 1];
      ConditionsFrom(range, before, c);
      assert c in ConditionOf(range, last) <==> ConditionOf(range, last) == [c];
      if c in Conditions(range, before) {
        var k :| 0 <= k < |before| && ConditionOf(range, before[k]) == [c];
        assert runs[k] == before[k];
      } else if exists k :: 0 <= k < |runs| && ConditionOf(range, runs[k]) == [c] {
        var k :| 0 <= k < |runs| && ConditionOf(range, runs[k]) == [c];
        if k < |before| {
          assert before[k] == runs[k];
        }
      }
    }
  }

  /** The test built from the runs. */
  lemma RunsMeaning(runs: seq<Run>, range: seq<Isa>, impl: set<Isa>, rank: Isa -> int, i: nat)
    requires Ordered(range, rank) && RunsOf(runs, range, impl, |range|) && i < |range|
    ensures Passes(Conditions(range, runs), rank, range[i]) <==> runs == [] || range[i] in impl
  {
    var conditions := Conditions(range, runs);
    if range[i] in impl {
      var k :| 0 <= k < |runs| && runs[k].Within(i);
      WholeIsAlone(runs, range, impl, k);
      if ConditionOf(range, runs[k]) == [] {
        assert conditions == [];
      } else {
        var c := ConditionOf(range, runs[k])[0];
        ConditionsFrom(range, runs, c);
        ConditionMeaning(range, rank, runs[k], i);
      }
    } else if runs != [] {
      WholeIsAlone(runs, range, impl, 0);
      assert !runs[0].Within(i);
      assert ConditionOf(range, runs[0]) != [];
      var first := ConditionOf(range, runs[0])[0];
      ConditionsFrom(range, runs, first);
      forall c | c in conditions
        ensures !Holds(c, rank, range[i])
      {
        ConditionsFrom(range, runs, c);
        var k :| 0 <= k < |runs| && ConditionOf(range, runs[k]) == [c];
        ConditionMeaning(range, rank, runs[k], i);
      }
    }
  }

  /** A run of the whole list is the only one. */
  lemma WholeIsAlone(runs: seq<Run>, range: seq<Isa>, impl: set<Isa>, k: nat)
    requires RunsOf(runs, range, impl, |range|) && k < |runs|
    ensures ConditionOf(range, runs[k]) == [] ==> |runs| == 1 && Conditions(range, runs) == []
  {
    assert k > 0 ==> runs[0].last < runs[k].first;
    assert k < |runs| - 1 ==> runs[k].last < runs[|runs| - 1].first;
    assert runs[..0] == [];
  }

  /** Appends the condition of an interval, named by its ends. */
  method AppendCondition(range: seq<Isa>, start: Isa, end: Isa, conditions: seq<Condition>, ghost r: Run)
    returns (extended: seq<Condition>)
    requires Distinct(range) && r.first <= r.last < |range| && start == range[r.first] && end == range[r.last]
    ensures extended == conditions + ConditionOf(range, r)
  {
    extended := conditions;
    if start == range[0] && end == range[|range| - 1] {
    } else if start == end {
      extended := conditions + [Equal(start)];
    } else if start == range[0] {
      extended := conditions + [AtMost(end)];
    } else if end == range[|range| - 1] {
      extended := conditions + [AtLeast(start)];
    } else {
      extended := conditions + [Between(start, end)];
    }
  }

  /** The runs of implemented processors, by the names of their ends. */
  method FindIntervals(range: seq<Isa>, impl: set<Isa>) returns (intervals: seq<(Isa, Isa)>, ghost runs: seq<Run>)
    ensures RunsOf(runs, range, impl, |range|) && |runs| == |intervals|
    ensures forall k :: 0 <= k < |runs| ==> intervals[k] == (range[runs[k].first], range[runs[k].last])
  {
    hide Covered;
    intervals := [];
    runs := [];
    var started := false;
    for n := 0 to |range|
      invariant RunsOf(runs, range, impl, n) && |runs| == |intervals|
      invariant forall k :: 0 <= k < |runs| ==> intervals[k] == (range[runs[k].first], range[runs[k].last])
      invariant started ==> |runs| > 0 && runs[|runs| - 1].last == n - 1
    {
      if range[n] in impl {
        if started {
          var k := |intervals| - 1;
          RunExtended(runs, range, impl, n);
          intervals := intervals[k := (intervals[k].0, range[n])];
          runs := runs[k := Run(runs[k].first, n)];
        } else {
          RunAdded(runs, range, impl, n);
          intervals := intervals + [(range[n], range[n])];
          runs := runs + [Run(n, n)];
        }
        started := true;
      } else {
        RunsKept(runs, range, impl, n);
        started := false;
      }
    }
  }

  /** Compiles a set of processors. The test is true for exactly the processors of
    the set, if and only if one of the list is in the set: the test for an empty
    set is no test at all. */
  method MakeCondition(range: seq<Isa>, impl: set<Isa>) returns (conditions: seq<Condition>)
    requires Distinct(range)
    ensures forall rank: Isa -> int :: Ordered(range, rank) ==>
      ((forall cpu :: cpu in range ==> (Passes(conditions, rank, cpu) <==> cpu in impl))
       <==> range == [] || exists isa :: isa in range && isa in impl)
  {
    hide Covered;
    hide Passes;
    hide Ordered;
    var intervals, runs := FindIntervals(range, impl);
    conditions := [];
    for k := 0 to |intervals|
      invariant conditions == Conditions(range, runs[..k])
    {
      assert runs[..k + 1][..k] == runs[..k];
      conditions := AppendCondition(range, intervals[k].0, intervals[k].1, conditions, runs[k]);
    }
    assert runs[..|runs|] == runs;
    forall rank: Isa -> int | Ordered(range, rank)
      ensures (forall cpu :: cpu in range ==> (Passes(conditions, rank, cpu) <==> cpu in impl))
        <==> range == [] || exists isa :: isa in range && isa in impl
    {
      SetMeaning(runs, range, impl, rank);
    }
  }

  /** The meaning for the whole list. */
  lemma SetMeaning(runs: seq<Run>, range: seq<Isa>, impl: set<Isa>, rank: Isa -> int)
    requires Ordered(range, rank) && RunsOf(runs, range, impl, |range|)
    ensures (forall cpu :: cpu in range ==> (Passes(Conditions(range, runs), rank, cpu) <==> cpu in impl))
      <==> range == [] || exists isa :: isa in range && isa in impl
  {
    forall i: nat | i < |range|
      ensures Passes(Conditions(range, runs), rank, range[i]) <==> runs == [] || range[i] in impl
    {
      RunsMeaning(runs, range, impl, rank, i);
    }
    if runs == [] {
      if range != [] {
        assert range[0] in range;
      }
      forall isa | isa in range
        ensures isa !in impl
      {
        var i :| 0 <= i < |range| && range[i] == isa;
        assert !Covered(runs, i);
      }
    } else {
      var i := runs[0].first;
      assert runs[0].Within(i) && Covered(runs, i) && range[i] in range;
    }
  }
}
