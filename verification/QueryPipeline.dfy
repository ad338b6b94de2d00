/** From the WHERE clause to the rows: the compiled clause, the ranges derived from its code, the
    index chosen by them and the selection together return what a scan with the clause's meaning
    returns. */
module QueryPipeline {
  import opened Basics
  import opened Lvm
  import opened WhereCompiler
  import opened Ranges
  import InlineIndex
  import opened Select
  import MaxHeap
  import MaxHeapSearch

  // ----- choosing an index -----

  /** lvm_get_derived_range. */
  function DerivedRange(names: seq<string>, ranges: seq<Range>, name: string): Option<Range> {
    var id := Lookup(names, name);
    if id < |names| && id < |ranges| && ranges[id].derived then Some(ranges[id]) else None
  }

  /** There is a derived range for a name exactly if the name is registered and its variable has one. */
  lemma DerivedRangeIff(names: seq<string>, ranges: seq<Range>, name: string, k: nat)
    requires |names| <= |ranges| && Distinct(names)
    ensures name !in names ==> DerivedRange(names, ranges, name) == None
    ensures k < |names| && names[k] == name ==>
      DerivedRange(names, ranges, name) == if ranges[k].derived then Some(ranges[k]) else None
  {
  }

  /** An attribute of the relation, and whether it has an index. */
  datatype Column = Column(name: string, indexed: bool)

  predicate Usable(names: seq<string>, ranges: seq<Range>, c: Column) {
    c.indexed && DerivedRange(names, ranges, c.name).Some?
  }

  /** Range sizes are compared as 32-bit unsigned numbers. */
  function Unsigned(v: int): nat {
    v % TWO_TO_THE_32
  }

  /** select_index. It means to take the attribute with the smallest range, but it never lowers
      the smallest size that it has seen, so every usable attribute replaces the one before. */
  method SelectIndex(names: seq<string>, ranges: seq<Range>, columns: seq<Column>) returns (chosen: Option<nat>)
    ensures chosen.None? <==> forall k :: 0 <= k < |columns| ==> !Usable(names, ranges, columns[k])
    ensures chosen.Some? ==>
      && chosen.value < |columns| && Usable(names, ranges, columns[chosen.value])
      && forall k :: chosen.value < k < |columns| ==> !Usable(names, ranges, columns[k])
  {
    chosen := None;
    var minRange := TWO_TO_THE_32 - 1;
    for i := 0 to |columns|
      invariant chosen.None? <==> forall k :: 0 <= k < i ==> !Usable(names, ranges, columns[k])
      invariant chosen.Some? ==>
        && chosen.value < i && Usable(names, ranges, columns[chosen.value])
        && forall k :: chosen.value < k < i ==> !Usable(names, ranges, columns[k])
    {
      var r := DerivedRange(names, ranges, columns[i].name);
      if columns[i].indexed && r.Some? {
        var range := Unsigned(r.value.max - r.value.min);
        if range <= minRange {
          chosen := Some(i);
        }
      }
    }
  }

  /** How many values a derived range spans, less one. */
  function Width(names: seq<string>, ranges: seq<Range>, c: Column): nat
    requires Usable(names, ranges, c)
  {
    var r := DerivedRange(names, ranges, c.name).value;
    Unsigned(r.max - r.min)
  }

  /** For a = 5 AND 0 <= b AND b <= 100, the index of b is chosen, although that of a spans less. */
  method SelectBigger() returns (chosen: Option<nat>)
    ensures var names, ranges := ["a", "b"], [Range(true, 5, 5), Range(true, 0, 100)];
      var columns := [Column("a", true), Column("b", true)];
      && Usable(names, ranges, columns[0]) && Usable(names, ranges, columns[1])
      && Width(names, ranges, columns[0]) < Width(names, ranges, columns[1]) && chosen == Some(1)
  {
    var names, ranges := ["a", "b"], [Range(true, 5, 5), Range(true, 0, 100)];
    var columns := [Column("a", true), Column("b", true)];
    assert Lookup(names, "a") == 0;
    assert names[1..] == ["b"] && Lookup(names[1..], "b") == 0 && "a" != "b" by { assert "a"[0] != "b"[0]; }
    assert Lookup(names, "b") == 1;
    chosen := SelectIndex(names, ranges, columns);
    assert Usable(names, ranges, columns[1]);
  }

  // ----- the whole query -----

  /** Searching the inline index over a derived range yields rows in ascending order. */
  lemma YieldAscends(r: InlineIndex.Rows, n: nat)
    requires r.Rows? ==> r.start < n && r.end < n
    ensures Ascending(InlineIndex.Yield(r)) && InRange(InlineIndex.Yield(r), n)
  {
  }

  /** The column that a relation holds for one of the predicate's variables. */
  function ColumnOf(q: Plan, name: string): (column: seq<int>)
    ensures |column| == |q.rows|
  {
    seq(|q.rows|, i requires 0 <= i < |q.rows| => Field(q.rows[i], name))
  }

  lemma AssignmentIsLong(q: Plan, row: Row)
    requires PlanOk(q) && row in q.rows
    ensures AllLongs(Assignment(q.names, row))
  {
    hide PredOk, Distinct;
    forall i | 0 <= i < |q.names| ensures IsLong(Field(row, q.names[i])) {
      assert q.names[i] in q.names;
    }
  }

  /** Every wanted row is among the rows that the index yields for a derived range. */
  lemma IndexCovers(q: Plan, ranges: seq<Range>, i: nat)
    requires PlanOk(q) && q.where.Some? && !q.inverse
    requires Ordered(q.where.value) && TreeRanges(q.where.value) == Some(ranges)
    requires i < |q.names| && ranges[i].derived && |q.rows| < 0x8000_0000
    requires InlineIndex.Increasing(ColumnOf(q, q.names[i]))
    requires InlineIndex.RangeSearch(ColumnOf(q, q.names[i]), ranges[i].min, ranges[i].max) != InlineIndex.WildRows
    ensures Covers(q, InlineIndex.Yield(InlineIndex.RangeSearch(ColumnOf(q, q.names[i]), ranges[i].min,
                                                                ranges[i].max)), 0)
  {
    hide PlanOk, TreeRanges, Holds, PredZeroDivisor, InlineIndex.RangeSearch, InlineIndex.Increasing, Ordered, PredOk;
    PlanParts(q);
    var column, low, high := ColumnOf(q, q.names[i]), ranges[i].min, ranges[i].max;
    var ids := InlineIndex.Yield(InlineIndex.RangeSearch(column, low, high));
    forall id | 0 <= id < |q.rows| && Wanted(q, q.rows[id]) ensures id in ids {
      var vars := Assignment(q.names, q.rows[id]);
      AssignmentIsLong(q, q.rows[id]);
      DeriveSound(q.where.value, vars);
      assert vars[i] == column[id] && Within(vars[i], ranges[i]);
      RowFound(column, low, high, id);
    }
  }

  lemma PlanParts(q: Plan)
    requires PlanOk(q)
    ensures |q.names| <= MAX_VARIABLE_ID && (q.where.Some? ==> PredOk(q.where.value, MAX_VARIABLE_ID))
  {
  }

  lemma RowFound(column: InlineIndex.Column, low: int, high: int, id: nat)
    requires InlineIndex.Increasing(column) && InlineIndex.RangeSearch(column, low, high) != InlineIndex.WildRows
    requires id < |column| && low <= column[id] <= high
    ensures id in InlineIndex.Yield(InlineIndex.RangeSearch(column, low, high))
  {
    hide InlineIndex.RangeSearch;
    InlineIndex.RangeWild(column, low, high);
    InlineIndex.RangeYield(column, low, high);
    var r := InlineIndex.RangeSearch(column, low, high);
    var s := InlineIndex.Consecutive(r.start, r.end + 1);
    assert s[id - r.start] == id;
  }

  /** The main result. A clause without chained arithmetic is compiled and analysed, and one of its
      variables gets a range; the column of that variable increases, and the range does not make
      its search go wild. Then the rows that the index yields, filtered by the compiled clause,
      are the rows of a full scan that satisfy the clause. */
  lemma QueryThroughIndex(q: Plan, w: Clause, tail: seq<byte>, ranges: seq<Range>, end: nat, i: nat)
    requires PlanOk(q) && !q.inverse && |q.rows| < 0x8000_0000
    requires ClauseOk(w, q.names) && ClauseUnchained(w) && q.where == Some(ClausePred(w, q.names))
    requires Ordered(ClausePred(w, q.names))
    requires Derive(ClauseCode(w, q.names) + tail, 0, Blank()) == Derived(ranges, end)
    requires i < |q.names| && ranges[i].derived && InlineIndex.Increasing(ColumnOf(q, q.names[i]))
    requires InlineIndex.RangeSearch(ColumnOf(q, q.names[i]), ranges[i].min, ranges[i].max) != InlineIndex.WildRows
    ensures var ids :=
      InlineIndex.Yield(InlineIndex.RangeSearch(ColumnOf(q, q.names[i]), ranges[i].min, ranges[i].max));
      && InRange(ids, |q.rows|)
      && Picked(q, ids) == Picked(q, AllIds(0, |q.rows|))
    ensures HasAt(ClauseCode(w, q.names) + tail, 0, PredCode(q.where.value))
  {
    hide PlanOk, TreeRanges, Derive, Ordered, PredOk, Picked, AllIds, Wanted, PredCode, ClauseCode, ClausePred,
      ClauseUnchained, InlineIndex.RangeSearch, InlineIndex.Yield, InlineIndex.Increasing, ColumnOf, ClauseOk, Covers;
    PlanParts(q);
    var t := q.where.value;
    var code := ClauseCode(w, q.names) + tail;
    ClauseCodeCorrect(w, q.names);
    assert code[0..0 + |PredCode(t)|] == PredCode(t);
    DeriveCorrect(code, 0, t);
    var rows := InlineIndex.RangeSearch(ColumnOf(q, q.names[i]), ranges[i].min, ranges[i].max);
    IndexCovers(q, ranges, i);
    YieldAscends(rows, |q.rows|);
    IndexEqualsScan(q, InlineIndex.Yield(rows), 0);
  }

  /** Whole runs: through the index they give the outcome of a scan, except that an equality that no
      row meets ends in an error, where a scan ends normally and aggregation returns a row. */
  lemma RunThroughIndex(q: Plan, w: Clause, tail: seq<byte>, ranges: seq<Range>, end: nat, i: nat, aggregating: bool)
    requires PlanOk(q) && !q.inverse && |q.rows| < 0x8000_0000
    requires ClauseOk(w, q.names) && ClauseUnchained(w) && q.where == Some(ClausePred(w, q.names))
    requires Ordered(ClausePred(w, q.names))
    requires Derive(ClauseCode(w, q.names) + tail, 0, Blank()) == Derived(ranges, end)
    requires i < |q.names| && ranges[i].derived && InlineIndex.Increasing(ColumnOf(q, q.names[i]))
    requires InlineIndex.RangeSearch(ColumnOf(q, q.names[i]), ranges[i].min, ranges[i].max) != InlineIndex.WildRows
    ensures var ids :=
      InlineIndex.Yield(InlineIndex.RangeSearch(ColumnOf(q, q.names[i]), ranges[i].min, ranges[i].max));
      && InRange(ids, |q.rows|) && Concat([ids]) == ids
      && (RunOutcome(q, aggregating, Some([ids])) == RunOutcome(q, aggregating, None)
          <==> !(ranges[i].min == ranges[i].max && ranges[i].min !in ColumnOf(q, q.names[i])))
  {
    hide PlanOk, Derive, Ordered, PredOk, Picked, AllIds, Wanted, PredCode, ClauseCode, ClausePred, ClauseUnchained,
      InlineIndex.RangeSearch, InlineIndex.Increasing, ColumnOf, ClauseOk, Folds, Projections, SixteenBits;
    PlanParts(q);
    QueryThroughIndex(q, w, tail, ranges, end, i);
    NoRowsIff(ColumnOf(q, q.names[i]), ranges[i].min, ranges[i].max);
    OneKey(InlineIndex.Yield(InlineIndex.RangeSearch(ColumnOf(q, q.names[i]), ranges[i].min, ranges[i].max)));
  }

  lemma OneKey(ids: seq<nat>)
    ensures Concat([ids]) == ids
  {
    assert Concat([ids]) == ids + Concat([]);
  }

  /** The same for a range of keys in a MaxHeap index: the run ends in an error exactly if the last key
      of the range has no row, whatever was found before; an aggregate is lost then. */
  lemma RunThroughMaxHeap(q: Plan, aggregating: bool, heap: MaxHeap.Heap, from: nat, to: nat)
    requires q.where.Some? ==> PredOk(q.where.value, MAX_VARIABLE_ID)
    requires |heap.buckets| == MaxHeap.NODE_LIMIT && from <= to
    requires InRange(MaxHeapSearch.KeysValues(heap.nodes, heap.buckets, heap.hash, from, to), |q.rows|)
    ensures var ids := MaxHeapSearch.KeysValues(heap.nodes, heap.buckets, heap.hash, from, to);
      var found := MaxHeapSearch.KeyGroups(heap.nodes, heap.buckets, heap.hash, from, to);
      var none := MaxHeapSearch.KeyValues(heap.nodes, heap.buckets, heap.hash, to % 65536) == [];
      && Concat(found) == ids
      && RunOutcome(q, aggregating, Some(found)) ==
           if !none then Outcome(Results(q, aggregating, false, Initials(q.attrs), ids), Finished)
           else Outcome(if aggregating then [] else Projections(q.attrs, Picked(q, ids)), IndexError)
  {
    hide Picked, Folds, Projections, SixteenBits, Concat, MaxHeapSearch.KeyValues, MaxHeapSearch.KeyGroups,
      MaxHeapSearch.KeysValues;
    GroupsConcat(heap.nodes, heap.buckets, heap.hash, from, to);
    MaxHeapSearch.LastGroup(heap.nodes, heap.buckets, heap.hash, from, to);
  }

  lemma {:induction false} GroupsConcat(nodes: seq<MaxHeap.Node>, buckets: seq<seq<MaxHeap.Pair>>, hash: nat -> nat,
                                        from: nat, to: nat)
    requires |buckets| == MaxHeap.NODE_LIMIT
    ensures Concat(MaxHeapSearch.KeyGroups(nodes, buckets, hash, from, to))
      == MaxHeapSearch.KeysValues(nodes, buckets, hash, from, to)
    decreases if from <= to then to - from + 1 else 0
  {
    hide Concat, MaxHeapSearch.KeyValues;
    ConcatStep(MaxHeapSearch.KeyGroups(nodes, buckets, hash, from, to));
    if from <= to { GroupsConcat(nodes, buckets, hash, from + 1, to); }
  }

  lemma NoRowsIff(column: InlineIndex.Column, low: int, high: int)
    requires InlineIndex.Increasing(column) && InlineIndex.RangeSearch(column, low, high) != InlineIndex.WildRows
    ensures InlineIndex.Yield(InlineIndex.RangeSearch(column, low, high)) == [] <==> low == high && low !in column
  {
    InlineIndex.SearchResult(column, low, low == high);
    InlineIndex.SearchResult(column, high, low == high);
  }

  // ----- inverse logic -----

  lemma {:induction false} OrderedNeverDivides(t: Pred, vars: seq<int>)
    requires PredOk(t, MAX_VARIABLE_ID) && |vars| == MAX_VARIABLE_ID && Ordered(t)
    ensures !PredZeroDivisor(t, vars)
    decreases t
  {
    if t.And? || t.Or? {
      OrderedNeverDivides(t.p, vars);
      OrderedNeverDivides(t.q, vars);
    }
  }

  /** A row outside a derived range is wanted under inverse logic, and is what the index leaves out. */
  lemma OutsideIsWanted(q: Plan, ranges: seq<Range>, i: nat, id: nat)
    requires PlanOk(q) && q.where.Some? && q.inverse
    requires Ordered(q.where.value) && TreeRanges(q.where.value) == Some(ranges)
    requires i < |q.names| && ranges[i].derived && id < |q.rows| < 0x8000_0000
    requires InlineIndex.Increasing(ColumnOf(q, q.names[i]))
    requires InlineIndex.RangeSearch(ColumnOf(q, q.names[i]), ranges[i].min, ranges[i].max) != InlineIndex.WildRows
    requires id !in InlineIndex.Yield(InlineIndex.RangeSearch(ColumnOf(q, q.names[i]), ranges[i].min, ranges[i].max))
    ensures Wanted(q, q.rows[id])
  {
    hide PlanOk, TreeRanges, Holds, PredZeroDivisor, InlineIndex.RangeSearch, InlineIndex.Increasing, Ordered, PredOk;
    PlanParts(q);
    var column := ColumnOf(q, q.names[i]);
    var vars := Assignment(q.names, q.rows[id]);
    AssignmentIsLong(q, q.rows[id]);
    OrderedNeverDivides(q.where.value, vars);
    if Holds(q.where.value, vars) {
      DeriveSound(q.where.value, vars);
      assert vars[i] == column[id] && Within(vars[i], ranges[i]);
      RowFound(column, ranges[i].min, ranges[i].max, id);
    }
  }

  /** The same analysis is made under inverse logic. The index then gives the rows of a full scan
      exactly if its search yields every row of the relation. */
  lemma InverseLogicIff(q: Plan, ranges: seq<Range>, i: nat)
    requires PlanOk(q) && q.where.Some? && q.inverse && |q.rows| < 0x8000_0000
    requires Ordered(q.where.value) && TreeRanges(q.where.value) == Some(ranges)
    requires i < |q.names| && ranges[i].derived && InlineIndex.Increasing(ColumnOf(q, q.names[i]))
    requires InlineIndex.RangeSearch(ColumnOf(q, q.names[i]), ranges[i].min, ranges[i].max) != InlineIndex.WildRows
    ensures var ids :=
      InlineIndex.Yield(InlineIndex.RangeSearch(ColumnOf(q, q.names[i]), ranges[i].min, ranges[i].max));
      && InRange(ids, |q.rows|)
      && (Picked(q, ids) == Picked(q, AllIds(0, |q.rows|)) <==> forall id :: 0 <= id < |q.rows| ==> id in ids)
  {
    hide PlanOk, TreeRanges, Ordered, PredOk, Picked, AllIds, Wanted, InlineIndex.RangeSearch, InlineIndex.Yield,
      InlineIndex.Increasing, ColumnOf;
    PlanParts(q);
    var rows := InlineIndex.RangeSearch(ColumnOf(q, q.names[i]), ranges[i].min, ranges[i].max);
    var ids := InlineIndex.Yield(rows);
    YieldAscends(rows, |q.rows|);
    if missed: nat :| missed < |q.rows| && missed !in ids {
      OutsideIsWanted(q, ranges, i, missed);
      MissedRow(q, ids, 0, missed);
    } else {
      IndexEqualsScan(q, ids, 0);
    }
  }

  /** A relation with the values 3 and 5 and the condition v = 5, to be inverted. */
  function LostPlan(): Plan {
    Plan([map["v" := 3], map["v" := 5]], [Attribute("v", true, NoAggregator)], ["v"],
      Some(Cmp(EQ, Var(0), Const(5))), true)
  }

  /** For instance, 3 does not satisfy v = 5, is wanted for that very reason, and is lost. */
  lemma InverseLogicLosesRows()
    ensures var q := LostPlan();
      var ids := InlineIndex.Yield(InlineIndex.RangeSearch(ColumnOf(q, "v"), 5, 5));
      && PlanOk(q) && TreeRanges(q.where.value) == Some(Blank()[0 := Range(true, 5, 5)]) && InRange(ids, |q.rows|)
      && Picked(q, AllIds(0, |q.rows|)) == [q.rows[0]] && Picked(q, ids) == []
  {
    hide PlanOk, Picked, Wanted, AllIds, TreeRanges, InlineIndex.RangeSearch, InlineIndex.Yield, ColumnOf;
    var q := LostPlan();
    LostPlanOk();
    LostPlanSearch();
    OneWanted(q, q.rows[0], q.rows[1]);
  }

  /** Of two rows, the first one wanted. */
  lemma OneWanted(q: Plan, a: Row, b: Row)
    requires q.where.Some? ==> PredOk(q.where.value, MAX_VARIABLE_ID)
    requires q.rows == [a, b] && Wanted(q, a) && !Wanted(q, b)
    ensures Picked(q, AllIds(0, |q.rows|)) == [a] && Picked(q, [1]) == []
  {
    hide Picked, Wanted, AllIds;
    AllIdsStep(0, 2);
    AllIdsStep(1, 2);
    PickedStep(q, [1]);
    PickedStep(q, AllIds(0, 2));
    PickedStep(q, AllIds(1, 2));
    NothingPicked(q);
    AllIdsStep(2, 2);
    assert [1][1..] == [];
  }

  lemma LostPlanOk()
    ensures var q := LostPlan();
      && PlanOk(q) && TreeRanges(q.where.value) == Some(Blank()[0 := Range(true, 5, 5)])
      && Wanted(q, q.rows[0]) && !Wanted(q, q.rows[1])
  {
    var q := LostPlan();
    assert q.attrs[0].name == "v";
    assert Field(q.rows[0], "v") == 3 && Field(q.rows[1], "v") == 5;
    assert PlanOk(q);
    assert Assignment(q.names, q.rows[0])[0] == 3 && Assignment(q.names, q.rows[1])[0] == 5;
    assert TreeRanges(q.where.value) == Some(Blank()[0 := Range(true, 5, 5)]);
  }

  lemma LostPlanSearch()
    ensures InlineIndex.Yield(InlineIndex.RangeSearch(ColumnOf(LostPlan(), "v"), 5, 5)) == [1]
  {
    var q := LostPlan();
    assert Field(q.rows[0], "v") == 3 && Field(q.rows[1], "v") == 5;
    assert ColumnOf(q, "v") == [3, 5];
  }
}
