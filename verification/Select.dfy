/** Resumable selection: every call looks at one candidate row, which comes from an index or from
    a scan of the relation. */
module Select {
  import opened Basics
  import opened Lvm
  import opened InlineIndex

  type Row = map<string, int>

  datatype Aggregator = NoAggregator | Count | Sum | Mean | Median | Max | Min

  /** An attribute of the result; one that is not stored serves the predicate only. */
  datatype Attribute = Attribute(name: string, stored: bool, aggregator: Aggregator)

  datatype Status = Ok | GotRow | Finished | IndexError

  // ----- what a query means -----

  function Field(row: Row, name: string): int {
    if name in row then row[name] else 0
  }

  /** The variables of the predicate, by name, for one row. */
  function Assignment(names: seq<string>, row: Row): (vars: seq<int>)
    ensures |vars| == MAX_VARIABLE_ID
  {
    seq(MAX_VARIABLE_ID, i requires 0 <= i < MAX_VARIABLE_ID => if i < |names| then Field(row, names[i]) else 0)
  }

  /** A query over a relation; names is the variable table of its predicate. */
  datatype Plan = Plan(rows: seq<Row>, attrs: seq<Attribute>, names: seq<string>, where: Option<Pred>, inverse: bool)

  predicate Distinct(names: seq<string>) {
    forall i, j :: 0 <= i < j < |names| ==> names[i] != names[j]
  }

  ghost predicate PlanOk(q: Plan) {
    && |q.names| <= MAX_VARIABLE_ID && |q.rows| < INVALID_TUPLE && Distinct(q.names)
    && (forall n :: n in q.names ==> exists i :: 0 <= i < |q.attrs| && q.attrs[i].name == n)
    && (forall row, i :: row in q.rows && 0 <= i < |q.attrs| ==> IsLong(Field(row, q.attrs[i].name)))
    && (q.where.Some? ==> PredOk(q.where.value, |q.names|) && PredOk(q.where.value, MAX_VARIABLE_ID))
  }

  /** A row counts if the predicate, without dividing by zero, has the wanted truth value. */
  predicate Wanted(q: Plan, row: Row)
    requires q.where.Some? ==> PredOk(q.where.value, MAX_VARIABLE_ID)
  {
    q.where.Some? ==>
      && !PredZeroDivisor(q.where.value, Assignment(q.names, row))
      && Holds(q.where.value, Assignment(q.names, row)) == !q.inverse
  }

  ghost predicate InRange(ids: seq<nat>, n: nat) {
    forall k :: 0 <= k < |ids| ==> ids[k] < n
  }

  /** The rows among the candidates that the query wants, in the candidates' order. */
  function Picked(q: Plan, ids: seq<nat>): (picked: seq<Row>)
    requires q.where.Some? ==> PredOk(q.where.value, MAX_VARIABLE_ID)
    requires InRange(ids, |q.rows|)
  {
    if ids == [] then []
    else
      var row := q.rows[ids[0]];
      (if Wanted(q, row) then [row] else []) + Picked(q, ids[1..])
  }

  /** The stored attributes of a row. */
  function Projection(attrs: seq<Attribute>, row: Row): seq<int> {
    if attrs == [] then []
    else
      var last := attrs[|attrs| - 1];
      Projection(attrs[..|attrs| - 1], row) + (if last.stored then [Field(row, last.name)] else [])
  }

  function Projections(attrs: seq<Attribute>, rows: seq<Row>): (s: seq<seq<int>>)
    ensures |s| == |rows|
  {
    seq(|rows|, i requires 0 <= i < |rows| => Projection(attrs, rows[i]))
  }

  // ----- aggregation -----

  function Initial(a: Aggregator): int {
    if a == Max then LONG_MIN else if a == Min then LONG_MAX else 0
  }

  /** aggregate, for one attribute. */
  function Aggregate(a: Aggregator, acc: int, v: int): int {
    match a
    case Count => Wrap(acc + 1)
    case Sum => Wrap(acc + v)
    case Max => if v > acc then v else acc
    case Min => if v < acc then v else acc
    case _ => acc
  }

  function Fold(a: Attribute, acc: int, rows: seq<Row>): int
    decreases rows
  {
    if rows == [] then acc else Fold(a, Aggregate(a.aggregator, acc, Field(rows[0], a.name)), rows[1..])
  }

  /** The aggregation values after some rows, from other values. */
  function Folds(attrs: seq<Attribute>, accs: seq<int>, rows: seq<Row>): (r: seq<int>)
    requires |attrs| == |accs|
    ensures |r| == |accs|
  {
    seq(|attrs|, i requires 0 <= i < |attrs| => Fold(attrs[i], accs[i], rows))
  }

  function Initials(attrs: seq<Attribute>): (accs: seq<int>)
    ensures |accs| == |attrs|
  {
    seq(|attrs|, i requires 0 <= i < |attrs| => Initial(attrs[i].aggregator))
  }

  /** Only the low sixteen bits of an aggregation value reach the result. */
  function SixteenBits(accs: seq<int>): (r: seq<int>)
    ensures |r| == |accs|
  {
    seq(|accs|, i requires 0 <= i < |accs| => accs[i] % 0x1_0000)
  }

  /** The aggregation values after one more row. */
  function Step(attrs: seq<Attribute>, accs: seq<int>, row: Row): (r: seq<int>)
    requires |attrs| == |accs|
    ensures |r| == |accs|
  {
    seq(|attrs|, i requires 0 <= i < |attrs| => Aggregate(attrs[i].aggregator, accs[i], Field(row, attrs[i].name)))
  }

  lemma FoldsStep(attrs: seq<Attribute>, accs: seq<int>, row: Row, rest: seq<Row>)
    requires |attrs| == |accs|
    ensures Folds(attrs, accs, [row] + rest) == Folds(attrs, Step(attrs, accs, row), rest)
    ensures Folds(attrs, accs, []) == accs
  {
    assert ([row] + rest)[1..] == rest;
  }

  // ----- the predicate sees the variables by name -----

  lemma {:induction false} ValuePrefix(e: Expr, n: nat, vars: seq<int>, vars': seq<int>)
    requires ExprOk(e, n) && ExprOk(e, |vars|) && n <= |vars| == |vars'| && vars[..n] == vars'[..n]
    ensures Value(e, vars) == Value(e, vars') && ZeroDivisor(e, vars) == ZeroDivisor(e, vars')
    decreases e
  {
    hide Wrap, TruncatedDiv;
    match e
    case Const(_) =>
    case Var(id) => assert vars[id] == vars[..n][id] == vars'[..n][id];
    case Bin(_, a, b) =>
      ValuePrefix(a, n, vars, vars');
      ValuePrefix(b, n, vars, vars');
  }

  lemma {:induction false} HoldsPrefix(t: Pred, n: nat, vars: seq<int>, vars': seq<int>)
    requires PredOk(t, n) && PredOk(t, |vars|) && n <= |vars| == |vars'| && vars[..n] == vars'[..n]
    ensures Holds(t, vars) == Holds(t, vars') && PredZeroDivisor(t, vars) == PredZeroDivisor(t, vars')
    decreases t
  {
    hide Value, ZeroDivisor, CmpHolds, ExprOk;
    match t
    case Cmp(_, a, b) =>
      ValuePrefix(a, n, vars, vars');
      ValuePrefix(b, n, vars, vars');
    case And(p, q) =>
      HoldsPrefix(p, n, vars, vars');
      HoldsPrefix(q, n, vars, vars');
    case Or(p, q) =>
      HoldsPrefix(p, n, vars, vars');
      HoldsPrefix(q, n, vars, vars');
    case Not(p) =>
      HoldsPrefix(p, n, vars, vars');
  }

  // ----- the selection as it runs -----

  class Selection {
    const rows: seq<Row>
    const attrs: seq<Attribute>
    const vm: Instance
    const hasWhere: bool
    const inverse: bool
    const searchIndex: bool
    const found: Found              // what the chosen index yields, if one was chosen
    ghost const plan: Plan

    var tupleId: nat
    var key: nat                    // the iterator's place: a key of the range, ...
    var nextItemNo: nat             // ... and the number of rows found for it
    var currentRow: nat
    var aggregating: bool
    var values: seq<int>            // the aggregation values of the attributes
    var resultRow: seq<int>

    /** The handle after relation_select, for a predicate that was compiled into vm. */
    constructor (q: Plan, vm: Instance, index: Option<Found>, aggregating: bool)
      requires PlanOk(q) && vm.Valid() && vm.names == q.names
      requires q.where.Some? ==> HasAt(vm.code[..], 0, PredCode(q.where.value))
      requires index.Some? ==> index.value != [] && InRange(Concat(index.value), |q.rows|)
      ensures Valid() && plan == q && this.vm == vm && this.aggregating == aggregating && currentRow == 0
      ensures searchIndex == index.Some? && values == Initials(q.attrs)
      ensures Candidates() == if index.Some? then Concat(index.value) else AllIds(0, |q.rows|)
      ensures Failing() == IndexFails(index)
    {
      rows, attrs, this.vm, inverse, plan := q.rows, q.attrs, vm, q.inverse, q;
      hasWhere := q.where.Some?;
      searchIndex := index.Some?;
      found := if index.Some? then index.value else [[]];
      tupleId, key, nextItemNo, currentRow, this.aggregating := 0, 0, 0, 0, aggregating;
      values, resultRow := Initials(q.attrs), [];
      new;
      if searchIndex {
        assert found[0][0..] == found[0];
      }
    }

    ghost predicate Valid()
      reads this, vm, vm.code
    {
      Compiled() && Placed() && InRange(Candidates(), |rows|)
    }

    /** The machine holds the plan's predicate. */
    ghost predicate Compiled()
      reads this`values, vm, vm.code
    {
      && PlanOk(plan) && rows == plan.rows && attrs == plan.attrs
      && inverse == plan.inverse && hasWhere == plan.where.Some?
      && vm.Valid() && vm.names == plan.names
      && (hasWhere ==> HasAt(vm.code[..], 0, PredCode(plan.where.value)))
      && |values| == |attrs|
    }

    ghost predicate Placed()
      reads this`key, this`nextItemNo
    {
      key < |found| && nextItemNo <= |found[key]|
    }

    /** The rows that have not been looked at yet. */
    ghost function Candidates(): (left: seq<nat>)
      requires Placed()
      reads this`tupleId, this`key, this`nextItemNo
    {
      if searchIndex then FromIndex() else AllIds(tupleId, |rows|)
    }

    ghost function FromIndex(): seq<nat>
      requires Placed()
      reads this`key, this`nextItemNo
    {
      found[key][nextItemNo..] + Concat(found[key + 1..])
    }

    /** The query will end in an error: the iterator counts anew for every key of its range, and finds
        nothing for the last one. */
    predicate Failing() {
      searchIndex && found != [] && found[|found| - 1] == []
    }

    /** index_get_next on the chosen index. */
    method IndexNext() returns (id: nat)
      requires Placed()
      modifies this`key, this`nextItemNo
      ensures Placed()
      ensures old(FromIndex()) == [] ==>
        id == INVALID_TUPLE && FromIndex() == [] && nextItemNo == |found[|found| - 1]|
      ensures old(FromIndex()) != [] ==>
        id == old(FromIndex())[0] && FromIndex() == old(FromIndex())[1..]
    {
      hide Concat;
      while nextItemNo == |found[key]|
        invariant Placed() && FromIndex() == old(FromIndex())
        decreases |found| - key
      {
        ConcatStep(found[key + 1..]);
        if key == |found| - 1 {
          return INVALID_TUPLE;
        }
        assert found[key + 1..][1..] == found[key + 2..];
        key, nextItemNo := key + 1, 0;
      }
      id := found[key][nextItemNo];
      assert found[key][nextItemNo..] == [id] + found[key][nextItemNo + 1..];
      nextItemNo := nextItemNo + 1;
    }

    /** Gives every attribute of a row to the predicate, and collects the stored ones. */
    method LoadAttributes(row: Row) returns (stored: seq<int>)
      requires vm.Valid() && |vm.names| <= MAX_VARIABLE_ID && Distinct(vm.names)
      modifies vm`variables
      ensures vm.Valid() && stored == Projection(attrs, row)
      ensures forall k, n :: 0 <= k < |attrs| && 0 <= n < |vm.names| && vm.names[n] == attrs[k].name ==>
        vm.variables[n] == Field(row, vm.names[n])
    {
      hide Projection, Lookup;
      stored := [];
      NoProjection(row);
      for i := 0 to |attrs|
        invariant vm.Valid() && stored == Projection(attrs[..i], row)
        invariant forall k, n :: 0 <= k < i && 0 <= n < |vm.names| && vm.names[n] == attrs[k].name ==>
          vm.variables[n] == Field(row, vm.names[n])
      {
        ghost var before := vm.variables;
        var _ := vm.SetVariableValue(attrs[i].name, Field(row, attrs[i].name));
        LookupOnly(vm.names, attrs[i].name, before, vm.variables, Field(row, attrs[i].name));
        NextProjection(attrs, row, i);
        if attrs[i].stored {
          stored := stored + [Field(row, attrs[i].name)];
        }
      }
      assert attrs[..|attrs|] == attrs;
    }

    method LoadRow(row: Row)
      requires Valid()
      modifies this`resultRow, vm`variables
      ensures Valid()
      ensures vm.variables[..|plan.names|] == Assignment(plan.names, row)[..|plan.names|]
      ensures resultRow == if aggregating then old(resultRow) else Projection(attrs, row)
    {
      hide HasAt, PredCode, PredOk, Projection;
      var stored := LoadAttributes(row);
      forall n | 0 <= n < |plan.names| ensures vm.variables[n] == Field(row, plan.names[n]) {
        assert plan.names[n] in plan.names;
      }
      if !aggregating {
        resultRow := stored;
      }
    }

    /** relation_process_select: one candidate. */
    method Process() returns (status: Status)
      requires Valid()
      modifies this, vm`ip, vm`variables
      ensures Valid()
      ensures old(Candidates()) == [] ==>
        && Candidates() == [] && values == old(values) && aggregating == (old(aggregating) && status == IndexError)
        && status == (if Failing() then IndexError else if old(aggregating) then GotRow else Finished)
        && (status == GotRow ==> resultRow == SixteenBits(values) && currentRow == 1)
      ensures old(Candidates()) != [] ==>
        var row := rows[old(Candidates())[0]];
        && Candidates() == old(Candidates())[1..] && aggregating == old(aggregating)
        && status == (if Wanted(plan, row) && !aggregating then GotRow else Ok)
        && (status == GotRow ==> resultRow == Projection(attrs, row) && currentRow == old(currentRow) + 1)
        && values == (if Wanted(plan, row) && aggregating then Step(attrs, old(values), row) else old(values))
    {
      hide HasAt, PredCode, PredOk, PlanOk, Wanted, Projection, Aggregate, Assignment, AllIds, Candidates, Step,
        SixteenBits;
      var id;
      status, id := NextCandidate();
      if status == IndexError {
        return;
      } else if status == Finished {
        status := EndOfRows();
        return;
      }
      LoadRow(rows[id]);
      var verdict := Decide(rows[id]);
      if verdict {
        if aggregating {
          Accumulate(rows[id]);
        } else {
          currentRow := currentRow + 1;
          return GotRow;
        }
      }
      return Ok;
    }

    lemma FewRows()
      requires Compiled()
      ensures |rows| < INVALID_TUPLE
    {
    }

    /** The first half of relation_process_select: the row number to look at, or the end. */
    method NextCandidate() returns (status: Status, id: nat)
      requires Valid()
      modifies this`tupleId, this`key, this`nextItemNo
      ensures Valid()
      ensures old(Candidates()) == [] ==> Candidates() == [] && status == if Failing() then IndexError else Finished
      ensures old(Candidates()) != [] ==>
        status == Ok && id == old(Candidates())[0] < |rows| && Candidates() == old(Candidates())[1..]
    {
      hide Compiled, AllIds, FromIndex, InRange;
      FewRows();
      id := 0;
      AllIdsStep(tupleId, |rows|);
      InRangeTail(Candidates(), |rows|);
      if searchIndex {
        tupleId := IndexNext();
        if tupleId == INVALID_TUPLE {
          return if nextItemNo == 0 then IndexError else Finished, 0;
        }
      }
      id := tupleId;
      tupleId := tupleId + 1;
      status := if id >= |rows| then Finished else Ok;
    }

    /** Whether the predicate has the wanted value for the row that was loaded. */
    method Decide(row: Row) returns (wanted: bool)
      requires Valid() && vm.variables[..|plan.names|] == Assignment(plan.names, row)[..|plan.names|]
      modifies vm`ip
      ensures Valid() && wanted == Wanted(plan, row)
    {
      if !hasWhere {
        return true;
      }
      ghost var t := plan.where.value;
      ExecuteAt(vm.code[..], vm.variables, t);
      HoldsPrefix(t, |plan.names|, vm.variables, Assignment(plan.names, row));
      var status := vm.Run();
      wanted := status == (if inverse then FALSE else TRUE);
    }

    method Accumulate(row: Row)
      requires |values| == |attrs|
      modifies this`values
      ensures values == Step(attrs, old(values), row)
    {
      ghost var before := values;
      for i := 0 to |attrs|
        invariant |values| == |attrs|
        invariant forall k :: 0 <= k < i ==>
          values[k] == Aggregate(attrs[k].aggregator, before[k], Field(row, attrs[k].name))
        invariant forall k :: i <= k < |attrs| ==> values[k] == before[k]
      {
        values := values[i := Aggregate(attrs[i].aggregator, values[i], Field(row, attrs[i].name))];
      }
    }

    /** The end_aggregation label: one row of aggregated values, once. */
    method EndOfRows() returns (status: Status)
      modifies this`aggregating, this`resultRow, this`currentRow
      ensures status == if old(aggregating) then GotRow else Finished
      ensures !aggregating && (status == GotRow ==> resultRow == SixteenBits(values) && currentRow == 1)
    {
      if !aggregating {
        return Finished;
      }
      resultRow := SixteenBits(values);
      currentRow := 1;
      aggregating := false;
      status := GotRow;
    }

    /** The loop of a caller that processes a query to its end. */
    method ProcessAll() returns (results: seq<seq<int>>, status: Status)
      requires Valid()
      modifies this, vm`ip, vm`variables
      ensures Valid()
      ensures results == old(Results(plan, aggregating, Failing(), values, Candidates()))
      ensures status == if Failing() then IndexError else Finished
    {
      hide HasAt, PredCode, PredOk, Distinct, Wanted, Projection, Step, Results, SixteenBits, AllIds, Candidates;
      results, status := [], Ok;
      ghost var outcome := Results(plan, aggregating, Failing(), values, Candidates());
      assert [] + outcome == outcome;
      while status == Ok || status == GotRow
        invariant Valid() && (status == Finished ==> !Failing() && !aggregating) && (status == IndexError ==> Failing())
        invariant status == Finished || status == IndexError ==> Candidates() == []
        invariant results + Results(plan, aggregating, Failing(), values, Candidates()) == outcome
        decreases |Candidates()|, aggregating, status == Ok || status == GotRow
      {
        ResultsStep(plan, aggregating, Failing(), values, Candidates());
        status := Process();
        ghost var rest := Results(plan, aggregating, Failing(), values, Candidates());
        OneResult(results, resultRow, rest);
        if status == GotRow {
          results := results + [resultRow];
        }
      }
      ResultsStep(plan, aggregating, Failing(), values, Candidates());
      assert results + [] == results;
    }
  }

  lemma InRangeTail(ids: seq<nat>, n: nat)
    requires InRange(ids, n)
    ensures ids != [] ==> ids[0] < n && InRange(ids[1..], n)
  {
  }

  lemma OneResult(results: seq<seq<int>>, row: seq<int>, rest: seq<seq<int>>)
    ensures [] + rest == rest && results + ([row] + rest) == results + [row] + rest
  {
  }

  /** What an index yields, key by key; the inline index knows only one. */
  type Found = seq<seq<nat>>

  function Concat(found: Found): seq<nat> {
    if found == [] then [] else found[0] + Concat(found[1..])
  }

  lemma ConcatStep(found: Found)
    ensures Concat(found) == if found == [] then [] else found[0] + Concat(found[1..])
  {
  }

  /** What a query still returns when it has these candidates left. If it fails in the end, aggregation
      returns nothing. */
  function Results(q: Plan, aggregating: bool, failing: bool, values: seq<int>, ids: seq<nat>): seq<seq<int>>
    requires q.where.Some? ==> PredOk(q.where.value, MAX_VARIABLE_ID)
    requires InRange(ids, |q.rows|) && |values| == |q.attrs|
  {
    if !aggregating then Projections(q.attrs, Picked(q, ids))
    else if failing then []
    else [SixteenBits(Folds(q.attrs, values, Picked(q, ids)))]
  }

  /** The outcome of a whole run, over the rows of an index or over all rows. */
  datatype Outcome = Outcome(results: seq<seq<int>>, status: Status)

  /** An index that yields nothing for the last key of the range makes the query fail. */
  predicate IndexFails(index: Option<Found>) {
    index.Some? && index.value != [] && index.value[|index.value| - 1] == []
  }

  function RunOutcome(q: Plan, aggregating: bool, index: Option<Found>): Outcome
    requires q.where.Some? ==> PredOk(q.where.value, MAX_VARIABLE_ID)
    requires index.Some? ==> InRange(Concat(index.value), |q.rows|)
  {
    var ids := if index.Some? then Concat(index.value) else AllIds(0, |q.rows|);
    Outcome(Results(q, aggregating, IndexFails(index), Initials(q.attrs), ids),
            if IndexFails(index) then IndexError else Finished)
  }

  /** relation_select, and then the caller's loop to the end. */
  method RunQuery(q: Plan, vm: Instance, index: Option<Found>, aggregating: bool)
    returns (results: seq<seq<int>>, status: Status)
    requires PlanOk(q) && vm.Valid() && vm.names == q.names
    requires q.where.Some? ==> HasAt(vm.code[..], 0, PredCode(q.where.value))
    requires index.Some? ==> index.value != [] && InRange(Concat(index.value), |q.rows|)
    modifies vm`ip, vm`variables
    ensures Outcome(results, status) == RunOutcome(q, aggregating, index)
  {
    hide HasAt, PredCode, PredOk, Distinct, Wanted, Results, AllIds, Concat;
    var selection := new Selection(q, vm, index, aggregating);
    results, status := selection.ProcessAll();
  }

  lemma ResultsStep(q: Plan, aggregating: bool, failing: bool, values: seq<int>, ids: seq<nat>)
    requires q.where.Some? ==> PredOk(q.where.value, MAX_VARIABLE_ID)
    requires InRange(ids, |q.rows|) && |values| == |q.attrs|
    ensures ids == [] ==>
      Results(q, aggregating, failing, values, ids) == if aggregating && !failing then [SixteenBits(values)] else []
    ensures Results(q, false, failing, values, []) == []
    ensures ids != [] ==>
      var row := q.rows[ids[0]];
      Results(q, aggregating, failing, values, ids) ==
        (if Wanted(q, row) && !aggregating then [Projection(q.attrs, row)] else [])
        + Results(q, aggregating, failing,
                  if Wanted(q, row) && aggregating then Step(q.attrs, values, row) else values, ids[1..])
  {
    hide Wanted, Projection, Step, SixteenBits, Folds, Projections, Picked;
    NothingPicked(q);
    if ids == [] {
      FoldsStep(q.attrs, values, map[], []);
    } else {
      PickedStep(q, ids);
      FoldsStep(q.attrs, values, q.rows[ids[0]], Picked(q, ids[1..]));
    }
  }

  lemma PickedStep(q: Plan, ids: seq<nat>)
    requires q.where.Some? ==> PredOk(q.where.value, MAX_VARIABLE_ID)
    requires InRange(ids, |q.rows|) && ids != []
    ensures var row, rest := q.rows[ids[0]], Picked(q, ids[1..]);
      && Picked(q, ids) == (if Wanted(q, row) then [row] + rest else rest)
      && Projections(q.attrs, [row] + rest) == [Projection(q.attrs, row)] + Projections(q.attrs, rest)
  {
    hide Wanted, Projection;
    ProjectionsStep(q.attrs, q.rows[ids[0]], Picked(q, ids[1..]));
  }

  lemma ProjectionsStep(attrs: seq<Attribute>, row: Row, rest: seq<Row>)
    ensures Projections(attrs, [row] + rest) == [Projection(attrs, row)] + Projections(attrs, rest)
  {
    hide Projection;
    forall i | 0 < i <= |rest| ensures Projections(attrs, [row] + rest)[i] == Projections(attrs, rest)[i - 1] {
      assert ([row] + rest)[i] == rest[i - 1];
    }
  }

  lemma NothingPicked(q: Plan)
    requires q.where.Some? ==> PredOk(q.where.value, MAX_VARIABLE_ID)
    ensures Picked(q, []) == [] && Projections(q.attrs, []) == []
  {
  }

  lemma NoProjection(row: Row)
    ensures Projection([], row) == []
  {
  }

  lemma NextProjection(attrs: seq<Attribute>, row: Row, i: nat)
    requires i < |attrs|
    ensures Projection(attrs[..i + 1], row) ==
      Projection(attrs[..i], row) + (if attrs[i].stored then [Field(row, attrs[i].name)] else [])
  {
    assert attrs[..i + 1][..i] == attrs[..i];
  }

  /** Writing one variable by name changes no other. */
  lemma LookupOnly(names: seq<string>, name: string, before: seq<int>, after: seq<int>, v: int)
    requires |names| <= MAX_VARIABLE_ID == |before| && Distinct(names)
    requires after == if Lookup(names, name) < MAX_VARIABLE_ID then before[Lookup(names, name) := v] else before
    ensures forall n :: 0 <= n < |names| ==> after[n] == if names[n] == name then v else before[n]
  {
  }

  lemma ExecuteAt(code: seq<byte>, vars: seq<int>, t: Pred)
    requires PredOk(t, MAX_VARIABLE_ID) && |vars| == MAX_VARIABLE_ID && HasAt(code, 0, PredCode(t))
    ensures Execute(code, vars) ==
      if PredZeroDivisor(t, vars) then Error(MATH_ERROR) else Done(Holds(t, vars), |PredCode(t)|)
  {
    assert code == PredCode(t) + code[|PredCode(t)|..];
    ExecuteCorrect(t, vars, code[|PredCode(t)|..]);
  }

  function AllIds(from: nat, n: nat): (ids: seq<nat>)
    ensures InRange(ids, n) && (ids == [] <==> from >= n)
    decreases if from < n then n - from else 0
  {
    if from < n then [from] + AllIds(from + 1, n) else []
  }

  lemma AllIdsStep(from: nat, n: nat)
    ensures AllIds(from, n) == if from < n then [from] + AllIds(from + 1, n) else []
    ensures from < n ==> AllIds(from, n)[0] == from && AllIds(from, n)[1..] == AllIds(from + 1, n)
  {
  }

  // ----- an index does not change the answer -----

  ghost predicate Ascending(ids: seq<nat>) {
    forall i, j :: 0 <= i < j < |ids| ==> ids[i] < ids[j]
  }

  /** Every wanted row from a position on is among the candidates. */
  ghost predicate Covers(q: Plan, ids: seq<nat>, from: nat)
    requires q.where.Some? ==> PredOk(q.where.value, MAX_VARIABLE_ID)
  {
    forall id :: from <= id < |q.rows| && Wanted(q, q.rows[id]) ==> id in ids
  }

  lemma CoversTail(q: Plan, ids: seq<nat>, from: nat)
    requires q.where.Some? ==> PredOk(q.where.value, MAX_VARIABLE_ID)
    requires Covers(q, ids, from) && ids != [] && Ascending(ids) && ids[0] == from
    ensures Covers(q, ids[1..], from + 1) && Ascending(ids[1..]) && (ids[1..] != [] ==> from + 1 <= ids[1..][0])
  {
    hide Wanted;
    forall id | from + 1 <= id < |q.rows| && Wanted(q, q.rows[id]) ensures id in ids[1..] {
      assert id in ids && ids == [from] + ids[1..];
    }
  }

  lemma CoversSkip(q: Plan, ids: seq<nat>, from: nat)
    requires q.where.Some? ==> PredOk(q.where.value, MAX_VARIABLE_ID)
    requires Covers(q, ids, from) && from < |q.rows| && Ascending(ids) && (ids != [] ==> from < ids[0])
    ensures Covers(q, ids, from + 1) && !Wanted(q, q.rows[from])
  {
    hide Wanted;
    assert from !in ids;
  }

  /** Candidates from an index that ascend and miss no wanted row give the rows of a full scan. */
  lemma {:induction false} IndexEqualsScan(q: Plan, ids: seq<nat>, from: nat)
    requires q.where.Some? ==> PredOk(q.where.value, MAX_VARIABLE_ID)
    requires InRange(ids, |q.rows|) && Ascending(ids) && (ids != [] ==> from <= ids[0])
    requires Covers(q, ids, from)
    ensures Picked(q, ids) == Picked(q, AllIds(from, |q.rows|))
    decreases |q.rows| - from
  {
    hide Wanted, AllIds, Picked, Covers, Ascending;
    NothingPicked(q);
    AllIdsStep(from, |q.rows|);
    if from >= |q.rows| {
    } else {
      PickedStep(q, AllIds(from, |q.rows|));
      if ids != [] && ids[0] == from {
        PickedStep(q, ids);
        CoversTail(q, ids, from);
        IndexEqualsScan(q, ids[1..], from + 1);
      } else {
        CoversSkip(q, ids, from);
        IndexEqualsScan(q, ids, from + 1);
      }
    }
  }

  lemma PickedMore(q: Plan, ids: seq<nat>)
    requires q.where.Some? ==> PredOk(q.where.value, MAX_VARIABLE_ID)
    requires InRange(ids, |q.rows|) && ids != []
    ensures |Picked(q, ids)| == |Picked(q, ids[1..])| + if Wanted(q, q.rows[ids[0]]) then 1 else 0
  {
    hide Wanted;
  }

  lemma AscendingTail(ids: seq<nat>, from: nat)
    requires Ascending(ids)
    ensures ids != [] && ids[0] == from ==>
      && Ascending(ids[1..]) && (ids[1..] != [] ==> from + 1 <= ids[1..][0])
      && forall id: nat :: id in ids <==> id == from || id in ids[1..]
    ensures ids != [] && from < ids[0] ==> from !in ids
  {
    if ids != [] { assert ids == [ids[0]] + ids[1..]; }
  }

  /** Ascending candidates never give more rows than a full scan, and fewer if they miss a wanted one. */
  lemma {:induction false} MissedRow(q: Plan, ids: seq<nat>, from: nat, missed: nat)
    requires q.where.Some? ==> PredOk(q.where.value, MAX_VARIABLE_ID)
    requires InRange(ids, |q.rows|) && Ascending(ids) && (ids != [] ==> from <= ids[0])
    ensures |Picked(q, ids)| <= |Picked(q, AllIds(from, |q.rows|))|
    ensures from <= missed < |q.rows| && missed !in ids && Wanted(q, q.rows[missed]) ==>
      |Picked(q, ids)| < |Picked(q, AllIds(from, |q.rows|))|
    decreases if from < |q.rows| then |q.rows| - from else 0
  {
    hide Wanted, AllIds, Picked, Ascending;
    NothingPicked(q);
    AscendingTail(ids, from);
    AllIdsStep(from, |q.rows|);
    if from < |q.rows| {
      PickedMore(q, AllIds(from, |q.rows|));
      if ids != [] && ids[0] == from {
        PickedMore(q, ids);
        MissedRow(q, ids[1..], from + 1, missed);
      } else {
        MissedRow(q, ids, from + 1, missed);
      }
    }
  }

  // ----- what aggregation returns -----

  function TrueSum(name: string, rows: seq<Row>): int {
    if rows == [] then 0 else Field(rows[0], name) + TrueSum(name, rows[1..])
  }

  lemma WrapLow(v: int, w: int)
    requires v % 0x1_0000 == w % 0x1_0000
    ensures Wrap(v) % 0x1_0000 == w % 0x1_0000
  {
    var k := (v + 0x8000_0000) / TWO_TO_THE_32;
    assert Wrap(v) == v - k * TWO_TO_THE_32;
    assert Wrap(v) == v + 0x1_0000 * (-0x1_0000 * k);
    LowBits(v, -0x1_0000 * k);
  }

  lemma LowBits(v: int, k: int)
    ensures (v + 0x1_0000 * k) % 0x1_0000 == v % 0x1_0000
  {
    var q, r := v / 0x1_0000, v % 0x1_0000;
    assert v + 0x1_0000 * k == 0x1_0000 * (q + k) + r;
  }

  /** COUNT and SUM return the true number and the true sum modulo 2^16, whatever wrapped around
      on the way. */
  lemma {:induction false} CountAndSum(name: string, stored: bool, acc: int, acc': int, rows: seq<Row>)
    ensures acc % 0x1_0000 == acc' % 0x1_0000 ==>
      && Fold(Attribute(name, stored, Count), acc, rows) % 0x1_0000 == (acc' + |rows|) % 0x1_0000
      && Fold(Attribute(name, stored, Sum), acc, rows) % 0x1_0000 == (acc' + TrueSum(name, rows)) % 0x1_0000
    decreases rows
  {
    hide Wrap;
    if rows != [] && acc % 0x1_0000 == acc' % 0x1_0000 {
      var v := Field(rows[0], name);
      WrapLow(acc + 1, acc' + 1);
      WrapLow(acc + v, acc' + v);
      CountAndSum(name, stored, Wrap(acc + 1), acc' + 1, rows[1..]);
      CountAndSum(name, stored, Wrap(acc + v), acc' + v, rows[1..]);
    }
  }

  /** MAX and MIN fold to a bound of all values, which some row or the starting value attains. */
  lemma {:induction false} MaxAndMin(name: string, stored: bool, acc: int, rows: seq<Row>)
    ensures var m := Fold(Attribute(name, stored, Max), acc, rows);
      && acc <= m && (forall row :: row in rows ==> Field(row, name) <= m)
      && (m == acc || exists row :: row in rows && Field(row, name) == m)
    ensures var m := Fold(Attribute(name, stored, Min), acc, rows);
      && acc >= m && (forall row :: row in rows ==> Field(row, name) >= m)
      && (m == acc || exists row :: row in rows && Field(row, name) == m)
    decreases rows
  {
    if rows != [] {
      var v := Field(rows[0], name);
      assert rows[0] in rows;
      MaxAndMin(name, stored, Aggregate(Max, acc, v), rows[1..]);
      MaxAndMin(name, stored, Aggregate(Min, acc, v), rows[1..]);
      assert rows == [rows[0]] + rows[1..];
    }
  }

  /** The row returned holds only the low sixteen bits: they are the maximum or minimum of the rows
      exactly if that lies in 0..65535. */
  lemma ReturnedMaxOrMin(name: string, stored: bool, rows: seq<Row>, top: Row, bottom: Row)
    requires forall row :: row in rows ==> IsLong(Field(row, name))
    requires top in rows && bottom in rows
    requires forall row :: row in rows ==> Field(bottom, name) <= Field(row, name) <= Field(top, name)
    ensures var attrs := [Attribute(name, stored, Max), Attribute(name, stored, Min)];
      var result := SixteenBits(Folds(attrs, Initials(attrs), rows));
      && (result[0] == Field(top, name) <==> 0 <= Field(top, name) <= 0xFFFF)
      && (result[1] == Field(bottom, name) <==> 0 <= Field(bottom, name) <= 0xFFFF)
  {
    MaxAndMin(name, stored, LONG_MIN, rows);
    MaxAndMin(name, stored, LONG_MAX, rows);
  }

  /** Without any row, MAX returns the low bits of the smallest long and MIN those of the largest. */
  lemma ReturnedWithoutRows(name: string, stored: bool)
    ensures var attrs := [Attribute(name, stored, Max), Attribute(name, stored, Min)];
      SixteenBits(Folds(attrs, Initials(attrs), [])) == [0, 0xFFFF]
  {
    var attrs := [Attribute(name, stored, Max), Attribute(name, stored, Min)];
    assert Folds(attrs, Initials(attrs), []) == [LONG_MIN, LONG_MAX];
  }
}
