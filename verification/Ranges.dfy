/** Interval analysis of a compiled predicate: which values can a variable have when the predicate
    holds? The query engine searches an index only inside the derived ranges. */
module Ranges {
  import opened Basics
  import opened Lvm

  datatype Range = Range(derived: bool, min: int, max: int)

  const BLANK := Range(false, 0, 0)

  function Blank(): (ranges: seq<Range>)
    ensures |ranges| == MAX_VARIABLE_ID
  {
    [BLANK, BLANK, BLANK, BLANK]
  }

  predicate Within(v: int, r: Range) {
    r.derived ==> r.min <= v <= r.max
  }

  // ----- combining the ranges of the two sides of a connective -----

  /** One entry: both derived and combined by AND or OR, or the one that is derived, or unchanged. */
  function Merge(both: bool, r: Range, a: Range, b: Range): Range {
    if !a.derived && !b.derived then r
    else if !b.derived then Range(true, a.min, a.max)
    else if !a.derived then Range(true, b.min, b.max)
    else if both then Range(true, if a.min > b.min then a.min else b.min, if a.max < b.max then a.max else b.max)
    else Range(true, if a.min > b.min then b.min else a.min, if a.max < b.max then b.max else a.max)
  }

  function MergeAll(both: bool, r: seq<Range>, a: seq<Range>, b: seq<Range>): (m: seq<Range>)
    requires |r| == |a| == |b|
    ensures |m| == |r|
  {
    seq(|r|, i requires 0 <= i < |r| => Merge(both, r[i], a[i], b[i]))
  }

  method CreateIntersection(result: array<Range>, d1: array<Range>, d2: array<Range>)
    requires result.Length == d1.Length == d2.Length == MAX_VARIABLE_ID && result != d1 && result != d2
    modifies result
    ensures result[..] == MergeAll(true, old(result[..]), d1[..], d2[..])
  {
    for i := 0 to MAX_VARIABLE_ID
      invariant forall k :: 0 <= k < i ==> result[k] == Merge(true, old(result[k]), d1[k], d2[k])
      invariant forall k :: i <= k < MAX_VARIABLE_ID ==> result[k] == old(result[k])
    {
      if !d1[i].derived && !d2[i].derived {
        continue;
      } else if d1[i].derived && !d2[i].derived {
        result[i] := result[i].(min := d1[i].min, max := d1[i].max);
      } else if !d1[i].derived && d2[i].derived {
        result[i] := result[i].(min := d2[i].min, max := d2[i].max);
      } else {
        if d1[i].min > d2[i].min {
          result[i] := result[i].(min := d1[i].min);
        } else {
          result[i] := result[i].(min := d2[i].min);
        }
        if d1[i].max < d2[i].max {
          result[i] := result[i].(max := d1[i].max);
        } else {
          result[i] := result[i].(max := d2[i].max);
        }
      }
      result[i] := result[i].(derived := true);
    }
  }

  method CreateUnion(result: array<Range>, d1: array<Range>, d2: array<Range>)
    requires result.Length == d1.Length == d2.Length == MAX_VARIABLE_ID && result != d1 && result != d2
    modifies result
    ensures result[..] == MergeAll(false, old(result[..]), d1[..], d2[..])
  {
    for i := 0 to MAX_VARIABLE_ID
      invariant forall k :: 0 <= k < i ==> result[k] == Merge(false, old(result[k]), d1[k], d2[k])
      invariant forall k :: i <= k < MAX_VARIABLE_ID ==> result[k] == old(result[k])
    {
      if !d1[i].derived && !d2[i].derived {
        continue;
      } else if d1[i].derived && !d2[i].derived {
        result[i] := result[i].(min := d1[i].min, max := d1[i].max);
      } else if !d1[i].derived && d2[i].derived {
        result[i] := result[i].(min := d2[i].min, max := d2[i].max);
      } else {
        if d1[i].min > d2[i].min {
          result[i] := result[i].(min := d2[i].min);
        } else {
          result[i] := result[i].(min := d1[i].min);
        }
        if d1[i].max < d2[i].max {
          result[i] := result[i].(max := d2[i].max);
        } else {
          result[i] := result[i].(max := d1[i].max);
        }
      }
      result[i] := result[i].(derived := true);
    }
  }

  // ----- the analysis on code -----

  datatype Derivation = Derived(ranges: seq<Range>, ip: nat) | Underivable | Overread

  /** What a comparison with the value on its right says about the variable. */
  function RangeOf(op: byte, value: int): Option<Range> {
    if op == EQ then Some(Range(true, value, value))
    else if op == GE then Some(Range(true, Wrap(value + 1), LONG_MAX))
    else if op == GEQ then Some(Range(true, value, LONG_MAX))
    else if op == LE then Some(Range(true, LONG_MIN, Wrap(value - 1)))
    else if op == LEQ then Some(Range(true, LONG_MIN, value))
    else None
  }

  function OperandAt(code: seq<byte>, ip: nat): (operand: seq<byte>)
    requires ip + 1 + OPERAND_SIZE <= |code|
    ensures |operand| == OPERAND_SIZE
  {
    code[ip + 1..ip + 1 + OPERAND_SIZE]
  }

  /** A comparison: two plain operands, at most one of them a variable. The identifier is taken
      from the second operand whenever the first is not a variable. */
  function DeriveComparison(code: seq<byte>, ip: nat, op: byte, local: seq<Range>): (d: Derivation)
    requires |local| == MAX_VARIABLE_ID
    ensures d.Derived? ==> |d.ranges| == MAX_VARIABLE_ID && ip < d.ip <= |code|
  {
    if ip >= |code| then Overread
    else if code[ip] != OPERAND then Underivable
    else if ip + 1 + OPERAND_SIZE >= |code| then Overread
    else if code[ip + 1 + OPERAND_SIZE] != OPERAND then Underivable
    else if ip + 2 + 2 * OPERAND_SIZE > |code| then Overread
    else
      var a, b := OperandAt(code, ip), OperandAt(code, ip + 1 + OPERAND_SIZE);
      if a[0] == LVM_VARIABLE && b[0] == LVM_VARIABLE then Underivable
      else
        var (id, value) := if a[0] == LVM_VARIABLE then (a[4], LongOf(b[4..8])) else (b[4], LongOf(a[4..8]));
        if id >= MAX_VARIABLE_ID || RangeOf(op, value).None? then Underivable
        else Derived(local[id := RangeOf(op, value).value], ip + 2 + 2 * OPERAND_SIZE)
  }

  /** derive_relation. */
  function Derive(code: seq<byte>, ip: nat, local: seq<Range>): (d: Derivation)
    requires |local| == MAX_VARIABLE_ID
    ensures d.Derived? ==> |d.ranges| == MAX_VARIABLE_ID && ip < d.ip <= |code|
    decreases |code| - ip
  {
    if ip + 2 > |code| then Overread
    else
      var op := code[ip + 1];
      if !IsConnective(op) then DeriveComparison(code, ip + 2, op, local)
      else if op != AND && op != OR then Underivable
      else
        match Derive(code, ip + 2, Blank())
        case Overread => Overread
        case Underivable => Underivable
        case Derived(d1, ip1) =>
          match Derive(code, ip1, Blank())
          case Overread => Overread
          case Underivable => Underivable
          case Derived(d2, ip2) => Derived(MergeAll(op == AND, local, d1, d2), ip2)
  }

  /** The derivation arrays as the C fills them. A failed analysis marks nothing as derived. */
  method DeriveRelation(p: Instance, local: array<Range>) returns (status: nat)
    requires p.Valid() && local.Length == MAX_VARIABLE_ID
    requires Derive(p.code[..], p.ip, local[..]) != Overread
    modifies p`ip, local
    ensures p.Valid() && (status == TRUE || status == DERIVATION_ERROR)
    ensures status == TRUE ==> old(Derive(p.code[..], p.ip, local[..])) == Derived(local[..], p.ip)
    ensures status != TRUE ==>
      && old(Derive(p.code[..], p.ip, local[..])) == Underivable
      && forall i :: 0 <= i < MAX_VARIABLE_ID ==> local[i].derived == old(local[i].derived)
    decreases p.code.Length - p.ip
  {
    hide DeriveComparison, RangeOf, MergeAll;
    var _ := p.GetByte();
    var operator := p.GetByte();
    if IsConnective(operator) {
      if operator != AND && operator != OR {
        return DERIVATION_ERROR;
      }
      var d1, d2 := new Range[MAX_VARIABLE_ID](_ => BLANK), new Range[MAX_VARIABLE_ID](_ => BLANK);
      assert d1[..] == Blank() && d2[..] == Blank();
      status := DeriveRelation(p, d1);
      if status != TRUE {
        return DERIVATION_ERROR;
      }
      status := DeriveRelation(p, d2);
      if status != TRUE {
        return DERIVATION_ERROR;
      }
      if operator == AND {
        CreateIntersection(local, d1, d2);
      } else {
        CreateUnion(local, d1, d2);
      }
      return TRUE;
    }
    status := DeriveOperands(p, operator, local);
  }

  /** The rest of derive_relation, for a comparison. */
  method DeriveOperands(p: Instance, operator: byte, local: array<Range>) returns (status: nat)
    requires p.Valid() && local.Length == MAX_VARIABLE_ID
    requires DeriveComparison(p.code[..], p.ip, operator, local[..]) != Overread
    modifies p`ip, local
    ensures p.Valid() && (status == TRUE || status == DERIVATION_ERROR)
    ensures status == TRUE ==> old(DeriveComparison(p.code[..], p.ip, operator, local[..])) == Derived(local[..], p.ip)
    ensures status != TRUE ==>
      && old(DeriveComparison(p.code[..], p.ip, operator, local[..])) == Underivable
      && forall i :: 0 <= i < MAX_VARIABLE_ID ==> local[i].derived == old(local[i].derived)
  {
    hide Wrap, LongOf;
    var operand0, operand1;
    var node := p.GetByte();
    if node != OPERAND {
      return DERIVATION_ERROR;
    }
    operand0 := p.GetOperand();
    node := p.GetByte();
    if node != OPERAND {
      return DERIVATION_ERROR;
    }
    operand1 := p.GetOperand();
    if operand0[0] == LVM_VARIABLE && operand1[0] == LVM_VARIABLE {
      return DERIVATION_ERROR;
    }
    var id, value;
    if operand0[0] == LVM_VARIABLE {
      id, value := operand0[4], LongOf(operand1[4..8]);
    } else {
      id, value := operand1[4], LongOf(operand0[4..8]);
    }
    if id >= MAX_VARIABLE_ID {
      return DERIVATION_ERROR;
    }
    local[id] := local[id].(min := LONG_MIN, max := LONG_MAX);
    if operator == EQ {
      local[id] := local[id].(min := value, max := value);
    } else if operator == GE {
      local[id] := local[id].(min := Wrap(value + 1));
    } else if operator == GEQ {
      local[id] := local[id].(min := value);
    } else if operator == LE {
      local[id] := local[id].(max := Wrap(value - 1));
    } else if operator == LEQ {
      local[id] := local[id].(max := value);
    } else {
      return DERIVATION_ERROR;
    }
    local[id] := local[id].(derived := true);
    status := TRUE;
  }

  // ----- the analysis on trees -----

  /** The variable and the value a comparison is read as; both sides constant gives the low byte
      of the right one as the variable. */
  function Target(a: Expr, b: Expr): Option<(byte, int)>
    requires ExprOk(a, MAX_VARIABLE_ID) && ExprOk(b, MAX_VARIABLE_ID)
  {
    if a.Var? && b.Const? then Some((a.id, b.l))
    else if a.Const? && b.Var? then Some((b.id, a.l))
    else if a.Const? && b.Const? then Some((LongBytes(b.l)[0], a.l))
    else None
  }

  /** The ranges the analysis derives from a tree, if it succeeds. */
  function TreeRanges(t: Pred): (ranges: Option<seq<Range>>)
    requires PredOk(t, MAX_VARIABLE_ID)
    ensures ranges.Some? ==> |ranges.value| == MAX_VARIABLE_ID
  {
    match t
    case Cmp(op, a, b) =>
      (match Target(a, b)
       case None => None
       case Some((id, value)) =>
         if id >= MAX_VARIABLE_ID || RangeOf(op, value).None? then None
         else Some(Blank()[id := RangeOf(op, value).value]))
    case And(p, q) =>
      if TreeRanges(p).None? || TreeRanges(q).None? then None
      else Some(MergeAll(true, Blank(), TreeRanges(p).value, TreeRanges(q).value))
    case Or(p, q) =>
      if TreeRanges(p).None? || TreeRanges(q).None? then None
      else Some(MergeAll(false, Blank(), TreeRanges(p).value, TreeRanges(q).value))
    case Not(_) => None
  }

  lemma OperandBytes(code: seq<byte>, at: nat, e: Expr)
    requires ExprOk(e, MAX_VARIABLE_ID) && HasAt(code, at, ExprCode(e))
    ensures at < |code| && code[at] == if e.Bin? then ARITH_OP else OPERAND
    ensures !e.Bin? ==>
      && |ExprCode(e)| == 1 + OPERAND_SIZE && at + 1 + OPERAND_SIZE <= |code|
      && (OperandAt(code, at)[0] == LVM_VARIABLE <==> e.Var?)
      && OperandAt(code, at)[4] == (if e.Var? then e.id else LongBytes(e.l)[0])
      && (e.Const? ==> LongOf(OperandAt(code, at)[4..8]) == e.l)
  {
    hide LongOf, LongBytes;
    var bytes := ExprCode(e);
    assert code[at] == code[at..at + |bytes|][0];
    if !e.Bin? {
      assert OperandAt(code, at) == code[at..at + |bytes|][1..] == bytes[1..];
      if e.Const? {
        LongRoundTrip(e.l);
        assert OperandAt(code, at)[4..8] == LongBytes(e.l);
      }
    }
  }

  lemma DeriveComparisonCorrect(code: seq<byte>, at: nat, op: byte, a: Expr, b: Expr)
    requires EQ <= op <= LEQ && ExprOk(a, MAX_VARIABLE_ID) && ExprOk(b, MAX_VARIABLE_ID)
    requires HasAt(code, at, ExprCode(a)) && HasAt(code, at + |ExprCode(a)|, ExprCode(b))
    ensures DeriveComparison(code, at, op, Blank()) ==
      match TreeRanges(Cmp(op, a, b))
      case None => Underivable
      case Some(ranges) => Derived(ranges, at + |ExprCode(a)| + |ExprCode(b)|)
  {
    hide LongOf, LongBytes, ExprCode, RangeOf, HasAt, OperandAt;
    OperandBytes(code, at, a);
    OperandBytes(code, at + |ExprCode(a)|, b);
  }

  /** On the code of a tree, the analysis derives the tree's ranges and stops just behind it. */
  lemma {:induction false} DeriveCorrect(code: seq<byte>, at: nat, t: Pred)
    requires PredOk(t, MAX_VARIABLE_ID) && HasAt(code, at, PredCode(t))
    ensures Derive(code, at, Blank()) ==
      match TreeRanges(t)
      case None => Derive(code, at, Blank())
      case Some(ranges) => Derived(ranges, at + |PredCode(t)|)
    ensures TreeRanges(t).None? ==> Derive(code, at, Blank()) == Underivable
    decreases t
  {
    hide DeriveComparison, Derive, ExprCode, HasAt, TreeRanges, MergeAll;
    match t
    case Cmp(op, a, b) =>
      HasThreeParts(code, at, [CMP_OP, op], ExprCode(a), ExprCode(b));
      NodeAt(code, at, CMP_OP, op);
      DeriveComparisonCorrect(code, at + 2, op, a, b);
      UnfoldDerive(code, at, Blank());
    case And(p, q) =>
      ConnectiveParts(code, [], at, AND, p, q);
      NodesOfConnective(code, at, AND, p, q);
      DeriveCorrect(code, at + 2, p);
      DeriveCorrect(code, at + 2 + |PredCode(p)|, q);
      UnfoldDerive(code, at, Blank());
      UnfoldTree(t);
    case Or(p, q) =>
      ConnectiveParts(code, [], at, OR, p, q);
      NodesOfConnective(code, at, OR, p, q);
      DeriveCorrect(code, at + 2, p);
      DeriveCorrect(code, at + 2 + |PredCode(p)|, q);
      UnfoldDerive(code, at, Blank());
      UnfoldTree(t);
    case Not(p) =>
      HasParts(code, at, [CMP_OP, NOT], PredCode(p));
      NodeAt(code, at, CMP_OP, NOT);
      UnfoldDerive(code, at, Blank());
      UnfoldTree(t);
  }

  lemma NodesOfConnective(code: seq<byte>, at: nat, op: byte, p: Pred, q: Pred)
    requires PredOk(p, MAX_VARIABLE_ID) && PredOk(q, MAX_VARIABLE_ID)
    requires HasAt(code, at, [CMP_OP, op] + PredCode(p) + PredCode(q))
    ensures at + 2 <= |code| && code[at + 1] == op
  {
    hide PredCode, HasAt;
    HasThreeParts(code, at, [CMP_OP, op], PredCode(p), PredCode(q));
    NodeAt(code, at, CMP_OP, op);
  }

  lemma UnfoldDerive(code: seq<byte>, at: nat, local: seq<Range>)
    requires |local| == MAX_VARIABLE_ID && at + 2 <= |code|
    ensures var op := code[at + 1];
      Derive(code, at, local) ==
      if !IsConnective(op) then DeriveComparison(code, at + 2, op, local)
      else if op != AND && op != OR then Underivable
      else
        match Derive(code, at + 2, Blank())
        case Overread => Overread
        case Underivable => Underivable
        case Derived(d1, ip1) =>
          match Derive(code, ip1, Blank())
          case Overread => Overread
          case Underivable => Underivable
          case Derived(d2, ip2) => Derived(MergeAll(op == AND, local, d1, d2), ip2)
  {
    hide DeriveComparison, MergeAll;
  }

  lemma UnfoldTree(t: Pred)
    requires PredOk(t, MAX_VARIABLE_ID) && !t.Cmp?
    ensures TreeRanges(t) ==
      if t.Not? || TreeRanges(t.p).None? || TreeRanges(t.q).None? then None
      else Some(MergeAll(t.And?, Blank(), TreeRanges(t.p).value, TreeRanges(t.q).value))
  {
    hide MergeAll;
  }

  // ----- soundness -----

  predicate AllLongs(vars: seq<int>) {
    |vars| == MAX_VARIABLE_ID && forall i :: 0 <= i < |vars| ==> IsLong(vars[i])
  }

  predicate AllWithin(vars: seq<int>, ranges: seq<Range>)
    requires |vars| == |ranges|
  {
    forall i :: 0 <= i < |vars| ==> Within(vars[i], ranges[i])
  }

  /** Every assignment that satisfies the predicate lies in the derived ranges. */
  ghost predicate Sound(t: Pred)
    requires PredOk(t, MAX_VARIABLE_ID) && TreeRanges(t).Some?
  {
    forall vars :: AllLongs(vars) && Holds(t, vars) ==> AllWithin(vars, TreeRanges(t).value)
  }

  /** The variables that a tree compares with constants. */
  function Constrained(t: Pred): set<byte> {
    match t
    case Cmp(_, a, b) => if a.Var? then {a.id} else if b.Var? then {b.id} else {}
    case And(p, q) => Constrained(p) + Constrained(q)
    case Or(p, q) => Constrained(p) + Constrained(q)
    case Not(p) => Constrained(p)
  }

  /** Each comparison has its variable on the left, or is an equality; both sides of each OR
      constrain the same variables. */
  predicate Ordered(t: Pred) {
    match t
    case Cmp(op, a, b) => (a.Var? && b.Const?) || (op == EQ && a.Const? && b.Var?)
    case And(p, q) => Ordered(p) && Ordered(q)
    case Or(p, q) => Ordered(p) && Ordered(q) && Constrained(p) == Constrained(q)
    case Not(_) => false
  }

  lemma LeafRange(op: byte, value: int, v: int)
    requires EQ <= op <= LEQ && op != NEQ && IsLong(value) && IsLong(v)
    requires CmpHolds(op, v, value)
    ensures Within(v, RangeOf(op, value).value)
  {
  }

  lemma MergedEntry(both: bool, r: seq<Range>, a: seq<Range>, b: seq<Range>, i: nat)
    requires |r| == |a| == |b| && i < |r|
    ensures MergeAll(both, r, a, b)[i] == Merge(both, r[i], a[i], b[i])
  {
  }

  lemma {:induction false} DerivedIsConstrained(t: Pred, i: byte)
    requires PredOk(t, MAX_VARIABLE_ID) && Ordered(t) && TreeRanges(t).Some? && i < MAX_VARIABLE_ID
    ensures TreeRanges(t).value[i].derived <==> i in Constrained(t)
    decreases t
  {
    hide RangeOf, MergeAll, TreeRanges;
    if t.Cmp? {
      LeafTree(t, i);
    } else {
      UnfoldTree(t);
      DerivedIsConstrained(t.p, i);
      DerivedIsConstrained(t.q, i);
      MergedEntry(t.And?, Blank(), TreeRanges(t.p).value, TreeRanges(t.q).value, i);
    }
  }

  lemma LeafTree(t: Pred, i: byte)
    requires PredOk(t, MAX_VARIABLE_ID) && t.Cmp? && Ordered(t) && TreeRanges(t).Some? && i < MAX_VARIABLE_ID
    ensures TreeRanges(t).value[i].derived <==> i in Constrained(t)
  {
  }

  /** The analysis is sound on every ordered tree. */
  lemma {:induction false} DeriveSound(t: Pred, vars: seq<int>)
    requires PredOk(t, MAX_VARIABLE_ID) && Ordered(t) && TreeRanges(t).Some?
    requires AllLongs(vars) && Holds(t, vars)
    ensures AllWithin(vars, TreeRanges(t).value)
    decreases t
  {
    hide MergeAll, TreeRanges;
    if t.Cmp? {
      LeafSoundWhenOrdered(t, vars);
    } else {
      UnfoldTree(t);
      if Holds(t.p, vars) { DeriveSound(t.p, vars); }
      if Holds(t.q, vars) { DeriveSound(t.q, vars); }
      forall i | 0 <= i < |vars| ensures Within(vars[i], TreeRanges(t).value[i]) {
        MergedEntry(t.And?, Blank(), TreeRanges(t.p).value, TreeRanges(t.q).value, i);
        DerivedIsConstrained(t.p, i);
        DerivedIsConstrained(t.q, i);
      }
    }
  }

  lemma LeafSoundWhenOrdered(t: Pred, vars: seq<int>)
    requires PredOk(t, MAX_VARIABLE_ID) && t.Cmp? && Ordered(t) && TreeRanges(t).Some?
    requires AllLongs(vars) && Holds(t, vars)
    ensures AllWithin(vars, TreeRanges(t).value)
  {
    hide Wrap;
    var id, value := Target(t.left, t.right).value.0, Target(t.left, t.right).value.1;
    LeafRange(t.op, value, vars[id]);
  }

  /** In terms of code: if the compiled predicate can be analysed and holds of an assignment, the
      assignment lies in the derived ranges. */
  lemma MatchesLieInDerivedRanges(t: Pred, tail: seq<byte>, vars: seq<int>)
    requires PredOk(t, MAX_VARIABLE_ID) && Ordered(t) && AllLongs(vars)
    requires Derive(PredCode(t) + tail, 0, Blank()).Derived?
    requires Execute(PredCode(t) + tail, vars) == Done(true, |PredCode(t)|)
    ensures AllWithin(vars, Derive(PredCode(t) + tail, 0, Blank()).ranges)
  {
    hide Derive, Execute, TreeRanges, PredCode;
    var code := PredCode(t) + tail;
    assert HasAt(code, 0, PredCode(t)) by { assert code[0..0 + |PredCode(t)|] == PredCode(t); }
    DeriveCorrect(code, 0, t);
    ExecuteCorrect(t, vars, tail);
    DeriveSound(t, vars);
  }

  // ----- where the analysis goes wrong -----

  predicate Full(r: Range) {
    r.min == LONG_MIN && r.max == LONG_MAX
  }

  predicate NeverBelow(op: byte, value: int) {
    (op == GE && value == LONG_MIN) || (op == LE && value == LONG_MAX)
  }

  predicate NeverAbove(op: byte, value: int) {
    (op == GE && value == LONG_MAX) || (op == LE && value == LONG_MIN)
  }

  /** A single comparison is analysed soundly exactly if its variable is on the left, or it is an
      equality, or its range is not restricted at all, or it cannot hold. */
  predicate LeafSafe(op: byte, a: Expr, b: Expr)
    requires EQ <= op <= LEQ && op != NEQ
  {
    if a.Var? then true
    else if !a.Const? then false
    else if b.Var? then op == EQ || Full(RangeOf(op, a.l).value) || NeverBelow(op, a.l)
    else b.Const? && (!CmpHolds(op, a.l, b.l) || Full(RangeOf(op, a.l).value))
  }

  lemma LeafSoundIff(op: byte, a: Expr, b: Expr)
    requires PredOk(Cmp(op, a, b), MAX_VARIABLE_ID) && TreeRanges(Cmp(op, a, b)).Some?
    ensures Sound(Cmp(op, a, b)) <==> LeafSafe(op, a, b)
  {
    hide LongBytes;
    var t := Cmp(op, a, b);
    var (id, value) := Target(a, b).value;
    var r := RangeOf(op, value).value;
    if LeafSafe(op, a, b) {
      forall vars | AllLongs(vars) && Holds(t, vars) ensures AllWithin(vars, TreeRanges(t).value) {
        if a.Var? { LeafRange(op, value, vars[id]); }
        assert forall i :: 0 <= i < |vars| && i != id ==> !TreeRanges(t).value[i].derived;
      }
    } else {
      var x := if r.min != LONG_MIN then LONG_MIN else LONG_MAX;
      var vars := [x, x, x, x];
      assert AllLongs(vars) && Holds(t, vars) && !Within(vars[id], TreeRanges(t).value[id]);
    }
  }

  /** Two comparisons of different variables joined by OR: sound exactly if each of them either
      restricts nothing or stands beside one that cannot hold. */
  lemma OrOverDifferentVariables(op: byte, i: byte, c: int, op': byte, j: byte, d: int)
    requires EQ <= op <= LEQ && EQ <= op' <= LEQ && op != NEQ && op' != NEQ
    requires i < MAX_VARIABLE_ID && j < MAX_VARIABLE_ID && i != j && IsLong(c) && IsLong(d)
    ensures var t := Or(Cmp(op, Var(i), Const(c)), Cmp(op', Var(j), Const(d)));
      TreeRanges(t).Some? &&
      (Sound(t) <==>
         && (Full(RangeOf(op, c).value) || NeverAbove(op', d))
         && (Full(RangeOf(op', d).value) || NeverAbove(op, c)))
  {
    var t := Or(Cmp(op, Var(i), Const(c)), Cmp(op', Var(j), Const(d)));
    var r, r' := RangeOf(op, c).value, RangeOf(op', d).value;
    hide RangeOf, Wrap;
    TwoRanges(t, r, r');
    SatisfiableOrNot(op, c);
    SatisfiableOrNot(op', d);
    if !Full(r) && !NeverAbove(op', d) {
      OutsideOneSide(t, i, j, r, c, op', d);
    } else if !Full(r') && !NeverAbove(op, c) {
      OutsideOneSide(t, j, i, r', d, op, c);
    } else {
      forall vars | AllLongs(vars) && Holds(t, vars) ensures AllWithin(vars, TreeRanges(t).value) {
        assert Holds(t, vars) == (Holds(t.p, vars) || Holds(t.q, vars));
        assert CmpHolds(op, vars[i], c) || CmpHolds(op', vars[j], d);
        if CmpHolds(op, vars[i], c) { LeafRange(op, c, vars[i]); }
        if CmpHolds(op', vars[j], d) { LeafRange(op', d, vars[j]); }
      }
    }
  }

  lemma TwoRanges(t: Pred, r: Range, r': Range)
    requires PredOk(t, MAX_VARIABLE_ID) && t.Or? && t.p.Cmp? && t.q.Cmp?
    requires t.p.left.Var? && t.p.right.Const? && t.q.left.Var? && t.q.right.Const? && t.p.left.id != t.q.left.id
    requires RangeOf(t.p.op, t.p.right.l) == Some(r) && RangeOf(t.q.op, t.q.right.l) == Some(r')
    ensures r.derived && r'.derived
    ensures TreeRanges(t) == Some(Blank()[t.p.left.id := r][t.q.left.id := r'])
  {
    hide Wrap;
    var i, j := t.p.left.id, t.q.left.id;
    UnfoldTree(t);
    assert TreeRanges(t.p) == Some(Blank()[i := r]) && TreeRanges(t.q) == Some(Blank()[j := r']);
    var m := TreeRanges(t).value;
    assert m == Blank()[i := r][j := r'];
  }

  lemma SatisfiableOrNot(op: byte, c: int)
    requires EQ <= op <= LEQ && op != NEQ && IsLong(c)
    ensures NeverAbove(op, c) ==> forall v :: IsLong(v) ==> !CmpHolds(op, v, c)
    ensures !NeverAbove(op, c) ==> exists v :: IsLong(v) && CmpHolds(op, v, c)
    ensures var r := RangeOf(op, c).value; IsLong(r.min) && IsLong(r.max)
  {
    if !NeverAbove(op, c) {
      var v := if op == GE then c + 1 else if op == LE then c - 1 else c;
      assert IsLong(v) && CmpHolds(op, v, c);
    }
  }

  lemma OutsideOneSide(t: Pred, i: byte, j: byte, r: Range, c: int, op': byte, d: int)
    requires PredOk(t, MAX_VARIABLE_ID) && TreeRanges(t).Some? && t.Or?
    requires i < MAX_VARIABLE_ID && j < MAX_VARIABLE_ID && i != j && EQ <= op' <= LEQ && IsLong(d)
    requires t.p == Cmp(op', Var(j), Const(d)) || t.q == Cmp(op', Var(j), Const(d))
    requires TreeRanges(t).value[i] == r && r.derived && IsLong(r.min) && IsLong(r.max) && !Full(r)
    requires exists v :: IsLong(v) && CmpHolds(op', v, d)
    ensures !Sound(t)
  {
    hide TreeRanges;
    var v :| IsLong(v) && CmpHolds(op', v, d);
    var x := if r.min != LONG_MIN then LONG_MIN else LONG_MAX;
    var vars := [x, x, x, x][j := v];
    assert vars[i] == x && !Within(x, r);
    assert Holds(t.p, vars) || Holds(t.q, vars);
    assert AllLongs(vars) && Holds(t, vars) && !Within(vars[i], TreeRanges(t).value[i]);
  }

  /** 3 < x is read as x < 3: five satisfies it and lies outside the derived range. */
  lemma ConstantFirstMisread()
    ensures exists t: Pred ::
      && PredOk(t, MAX_VARIABLE_ID) && TreeRanges(t).Some?
      && Holds(t, [5, 0, 0, 0]) && !Within(5, TreeRanges(t).value[0])
  {
    var t := Cmp(LE, Const(3), Var(0));
    assert TreeRanges(t).value[0] == RangeOf(LE, 3).value;
    assert PredOk(t, MAX_VARIABLE_ID) && Holds(t, [5, 0, 0, 0]) && !Within(5, TreeRanges(t).value[0]);
  }
}
