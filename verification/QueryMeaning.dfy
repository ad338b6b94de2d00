/** What a selection returns, without its own vocabulary: which candidates are picked, by running the
    predicate's code on the row's values; and what one row or one aggregate of the result holds. */
module QueryMeaning {
  import opened Basics
  import opened Lvm
  import opened Select

  // ----- which rows are picked -----

  /** Without a WHERE clause, every candidate is picked, in order. */
  lemma {:induction false} NoClausePicksAll(q: Plan, ids: seq<nat>)
    requires q.where.None? && forall k :: 0 <= k < |ids| ==> ids[k] < |q.rows|
    ensures |Picked(q, ids)| == |ids| && forall k :: 0 <= k < |ids| ==> Picked(q, ids)[k] == q.rows[ids[k]]
    decreases ids
  {
    if ids != [] {
      NoClausePicksAll(q, ids[1..]);
      assert Picked(q, ids) == [q.rows[ids[0]]] + Picked(q, ids[1..]);
    }
  }

  /** With one, a candidate is picked exactly if running the predicate's code on the row ends without an
      error and with true, or, under inverse logic, with false. The values of the row are in the
      machine under the names of the variable table; what other entries hold does not matter. */
  lemma ClausePicks(q: Plan, id: nat, vars: seq<int>, tail: seq<byte>)
    requires PlanOk(q) && q.where.Some? && id < |q.rows| && |vars| == 4
    requires forall i :: 0 <= i < |q.names| ==>
      vars[i] == if q.names[i] in q.rows[id] then q.rows[id][q.names[i]] else 0
    ensures var end := Execute(PredCode(q.where.value) + tail, vars);
      Picked(q, [id]) == if end.Done? && end.value != q.inverse then [q.rows[id]] else []
  {
    hide PlanOk, Execute, PredCode, Holds, PredZeroDivisor, PredOk;
    var t, row := q.where.value, q.rows[id];
    PlanFacts(q);
    assert vars[..|q.names|] == Assignment(q.names, row)[..|q.names|];
    HoldsPrefix(t, |q.names|, vars, Assignment(q.names, row));
    ExecuteCorrect(t, vars, tail);
    assert [id][1..] == [];
    assert Picked(q, [id]) == (if Wanted(q, row) then [row] else []) + Picked(q, []);
  }

  lemma PlanFacts(q: Plan)
    requires PlanOk(q)
    ensures |q.names| <= 4
    ensures q.where.Some? ==> PredOk(q.where.value, |q.names|) && PredOk(q.where.value, 4)
  {
  }

  /** Candidates are looked at one by one. */
  lemma {:induction false} PickedAppend(q: Plan, a: seq<nat>, b: seq<nat>)
    requires q.where.Some? ==> PredOk(q.where.value, MAX_VARIABLE_ID)
    requires InRange(a, |q.rows|) && InRange(b, |q.rows|)
    ensures InRange(a + b, |q.rows|) && Picked(q, a + b) == Picked(q, a) + Picked(q, b)
    decreases a
  {
    hide Wanted;
    if a == [] {
      assert a + b == b;
    } else {
      assert (a + b)[1..] == a[1..] + b;
      PickedAppend(q, a[1..], b);
    }
  }

  // ----- what is returned -----

  /** The numbers of the attributes that are stored. */
  function StoredOnes(attrs: seq<Attribute>): (ones: seq<nat>)
    ensures forall k :: 0 <= k < |ones| ==> ones[k] < |attrs| && attrs[ones[k]].stored
    ensures forall j, k :: 0 <= j < k < |ones| ==> ones[j] < ones[k]
    ensures forall i :: 0 <= i < |attrs| && attrs[i].stored ==> i in ones
    decreases attrs
  {
    if attrs == [] then []
    else
      var last := |attrs| - 1;
      StoredOnes(attrs[..last]) + if attrs[last].stored then [last] else []
  }

  /** A row of the result holds the values of the stored attributes, in order, and 0 for a missing one. */
  lemma {:induction false} ResultRow(attrs: seq<Attribute>, row: Row)
    ensures var ones := StoredOnes(attrs);
      && |Projection(attrs, row)| == |ones|
      && forall k :: 0 <= k < |ones| ==>
           var name := attrs[ones[k]].name; Projection(attrs, row)[k] == if name in row then row[name] else 0
    decreases attrs
  {
    if attrs != [] {
      ResultRow(attrs[..|attrs| - 1], row);
    }
  }

  /** A run without a WHERE clause, over the rows of an index or over all: one row of the result for
      each candidate, in order. */
  lemma RunWithoutClause(q: Plan, index: Option<Found>)
    requires q.where.None? && (index.Some? ==> InRange(Concat(index.value), |q.rows|))
    ensures var ids := if index.Some? then Concat(index.value) else AllIds(0, |q.rows|);
      var results := RunOutcome(q, false, index).results;
      |results| == |ids| && forall k :: 0 <= k < |ids| ==> results[k] == Projection(q.attrs, q.rows[ids[k]])
  {
    hide Picked, Projection;
    NoClausePicksAll(q, if index.Some? then Concat(index.value) else AllIds(0, |q.rows|));
  }

  /** A scan goes through the row numbers from 0 on. */
  lemma {:induction false} ScanIds(from: nat, n: nat)
    requires from <= n
    ensures |AllIds(from, n)| == n - from && forall k :: 0 <= k < n - from ==> AllIds(from, n)[k] == from + k
    decreases n - from
  {
    if from < n {
      ScanIds(from + 1, n);
      AllIdsStep(from, n);
    }
  }

  /** COUNT and SUM without a WHERE clause: the number of candidates and the sum of their values, in
      sixteen bits. */
  lemma CountWithoutClause(q: Plan, index: Option<Found>, i: nat)
    requires q.where.None? && i < |q.attrs| && (index.Some? ==> InRange(Concat(index.value), |q.rows|))
    requires index.Some? ==> index.value != [] && index.value[|index.value| - 1] != []
    ensures var ids := if index.Some? then Concat(index.value) else AllIds(0, |q.rows|);
      var run := RunOutcome(q, true, index);
      && run.status == Finished && |run.results| == 1 && |run.results[0]| == |q.attrs|
      && (q.attrs[i].aggregator == Count ==> run.results[0][i] == |ids| % 0x1_0000)
      && (q.attrs[i].aggregator == Sum ==> run.results[0][i] == SumOver(q, ids, q.attrs[i].name) % 0x1_0000)
  {
    hide Picked, Fold, Folds, SixteenBits, Results, Concat, AllIds, SumOver, TrueSum, Initial;
    var ids := if index.Some? then Concat(index.value) else AllIds(0, |q.rows|);
    NoClausePicksAll(q, ids);
    AggregateEntry(q.attrs, Picked(q, ids), i);
    FoldedFromZero(q.attrs[i], Picked(q, ids));
    SumOfPicked(q, ids, q.attrs[i].name);
    OneAggregate(q, ids);
  }

  lemma OneAggregate(q: Plan, ids: seq<nat>)
    requires q.where.None? && InRange(ids, |q.rows|)
    ensures Results(q, true, false, Initials(q.attrs), ids)
      == [SixteenBits(Folds(q.attrs, Initials(q.attrs), Picked(q, ids)))]
  {
    hide Picked, Folds, SixteenBits;
  }

  lemma FoldedFromZero(a: Attribute, rows: seq<Row>)
    ensures a.aggregator == Count ==> Fold(a, Initial(Count), rows) % 0x1_0000 == |rows| % 0x1_0000
    ensures a.aggregator == Sum ==> Fold(a, Initial(Sum), rows) % 0x1_0000 == TrueSum(a.name, rows) % 0x1_0000
  {
    hide Fold, TrueSum;
    CountAndSum(a.name, a.stored, 0, 0, rows);
    assert 0 + |rows| == |rows| && 0 + TrueSum(a.name, rows) == TrueSum(a.name, rows);
  }

  lemma AggregateEntry(attrs: seq<Attribute>, rows: seq<Row>, i: nat)
    requires i < |attrs|
    ensures var entries := SixteenBits(Folds(attrs, Initials(attrs), rows));
      |entries| == |attrs| && entries[i] == Fold(attrs[i], Initial(attrs[i].aggregator), rows) % 0x1_0000
  {
    hide Fold;
  }

  function SumOver(q: Plan, ids: seq<nat>, name: string): int
    requires InRange(ids, |q.rows|)
  {
    if ids == [] then 0
    else (if name in q.rows[ids[0]] then q.rows[ids[0]][name] else 0) + SumOver(q, ids[1..], name)
  }

  lemma {:induction false} SumOfPicked(q: Plan, ids: seq<nat>, name: string)
    requires q.where.None? && InRange(ids, |q.rows|)
    ensures TrueSum(name, Picked(q, ids)) == SumOver(q, ids, name)
    decreases ids
  {
    if ids != [] {
      SumOfPicked(q, ids[1..], name);
      assert Picked(q, ids) == [q.rows[ids[0]]] + Picked(q, ids[1..]);
    }
  }

  /** MEAN and MEDIAN are not computed: like a plain attribute, they return 0. */
  lemma {:induction false} OtherAggregates(a: Attribute, rows: seq<Row>)
    requires a.aggregator == Mean || a.aggregator == Median || a.aggregator == NoAggregator
    ensures Fold(a, Initial(a.aggregator), rows) == 0
    decreases rows
  {
    if rows != [] {
      assert Aggregate(a.aggregator, 0, Field(rows[0], a.name)) == 0;
      OtherAggregates(a, rows[1..]);
    }
  }
}
