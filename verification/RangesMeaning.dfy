/** How tight the derived ranges are: exact for conjunctions, and as narrow as a range can be for OR. */
module RangesMeaning {
  import opened Basics
  import opened Lvm
  import opened Ranges

  /** Between two numbers, if the range is derived at all. */
  predicate Allows(r: Range, v: int) {
    !r.derived || (r.min <= v && v <= r.max)
  }

  lemma AllowsIsWithin(r: Range, v: int)
    ensures Within(v, r) <==> Allows(r, v)
  {
  }

  /** A comparison with a constant on the right, and the numbers that it allows. */
  predicate Compares(op: byte, v: int, c: int)
    requires 0x41 <= op <= 0x46
  {
    (op == 0x41 && v == c) || (op == 0x42 && v != c) || (op == 0x43 && v > c) || (op == 0x44 && v >= c)
    || (op == 0x45 && v < c) || (op == 0x46 && v <= c)
  }

  /** The range of a comparison allows exactly the numbers for which it holds; "not equal" has no range,
      and above the greatest number or below the smallest one the bound wraps around, so that every
      number is allowed. */
  lemma RangeOfMeaning(op: byte, c: int, v: int)
    requires 0x41 <= op <= 0x46 && IsLong(c) && IsLong(v)
    ensures RangeOf(op, c).None? <==> op == 0x42
    ensures op != 0x42 ==>
      var r := RangeOf(op, c).value;
      && r.derived
      && (Allows(r, v) <==> Compares(op, v, c) || (op == 0x43 && c == 0x7FFF_FFFF) || (op == 0x45 && c == -0x8000_0000))
  {
  }

  /** The entry that a connective leaves for a variable: without a range on either side it stays, with a
      range on one side it becomes that one; an AND of two ranges allows exactly what both allow, and
      an OR is the smallest range that holds both. */
  lemma MergeMeaning(r: Range, a: Range, b: Range, v: int, other: Range)
    ensures !a.derived && !b.derived ==> Merge(true, r, a, b) == Merge(false, r, a, b) == r
    ensures a.derived && !b.derived ==> Merge(true, r, a, b) == Merge(false, r, a, b) == a
    ensures !a.derived && b.derived ==> Merge(true, r, a, b) == Merge(false, r, a, b) == b
    ensures a.derived && b.derived ==> (Allows(Merge(true, r, a, b), v) <==> Allows(a, v) && Allows(b, v))
    ensures a.derived && b.derived && (Allows(a, v) || Allows(b, v)) ==> Allows(Merge(false, r, a, b), v)
    ensures a.derived && b.derived && a.min <= a.max && b.min <= b.max
            && Allows(other, a.min) && Allows(other, a.max) && Allows(other, b.min) && Allows(other, b.max) ==>
      (Allows(Merge(false, r, a, b), v) ==> Allows(other, v))
    ensures a.derived && b.derived ==> Merge(true, r, a, b).derived && Merge(false, r, a, b).derived
  {
  }

  /** A conjunction of comparisons of variables with constants, none of which wraps around. */
  predicate Conjunction(t: Pred) {
    match t
    case Cmp(op, a, b) =>
      && a.Var? && a.id < 4 && b.Const? && IsLong(b.l) && 0x41 <= op <= 0x46 && op != 0x42
      && (op == 0x43 ==> b.l < 0x7FFF_FFFF) && (op == 0x45 ==> b.l > -0x8000_0000)
    case And(p, q) => Conjunction(p) && Conjunction(q)
    case _ => false
  }

  /** Such a conjunction holds exactly inside the ranges that are derived for it. */
  lemma {:induction false} ConjunctionExact(t: Pred, vars: seq<int>)
    requires PredOk(t, MAX_VARIABLE_ID) && Conjunction(t) && AllLongs(vars)
    ensures TreeRanges(t).Some? && |TreeRanges(t).value| == 4
    ensures Holds(t, vars) <==> forall i :: 0 <= i < 4 ==> Allows(TreeRanges(t).value[i], vars[i])
    decreases t
  {
    hide MergeAll, TreeRanges, RangeOf, CmpHolds;
    if t.Cmp? {
      LeafExact(t, vars);
    } else {
      UnfoldTree(t);
      ConjunctionExact(t.p, vars);
      ConjunctionExact(t.q, vars);
      forall i | 0 <= i < 4
        ensures Allows(TreeRanges(t).value[i], vars[i]) <==>
          Allows(TreeRanges(t.p).value[i], vars[i]) && Allows(TreeRanges(t.q).value[i], vars[i])
      {
        MergedEntry(true, Blank(), TreeRanges(t.p).value, TreeRanges(t.q).value, i);
        MergeMeaning(Blank()[i], TreeRanges(t.p).value[i], TreeRanges(t.q).value[i], vars[i], BLANK);
      }
    }
  }

  lemma LeafExact(t: Pred, vars: seq<int>)
    requires PredOk(t, MAX_VARIABLE_ID) && t.Cmp? && Conjunction(t) && AllLongs(vars)
    ensures TreeRanges(t).Some? && |TreeRanges(t).value| == 4
    ensures Holds(t, vars) <==> forall i :: 0 <= i < 4 ==> Allows(TreeRanges(t).value[i], vars[i])
  {
    hide RangeOf;
    var id, c := t.left.id, t.right.l;
    RangeOfMeaning(t.op, c, vars[id]);
    assert TreeRanges(t) == Some(Blank()[id := RangeOf(t.op, c).value]);
    assert Holds(t, vars) <==> Compares(t.op, vars[id], c);
    assert Allows(TreeRanges(t).value[id], vars[id]) <==> Compares(t.op, vars[id], c);
  }

  /** A comparison between two constants is read as one of a variable, whose number is the lowest byte of
      the constant on the right; a comparison of variables or of sums has no ranges. */
  lemma TargetMeaning(a: Expr, b: Expr)
    requires ExprOk(a, MAX_VARIABLE_ID) && ExprOk(b, MAX_VARIABLE_ID)
    ensures a.Var? && b.Const? ==> Target(a, b) == Some((a.id, b.l))
    ensures a.Const? && b.Var? ==> Target(a, b) == Some((b.id, a.l))
    ensures a.Const? && b.Const? ==> Target(a, b).Some? && Target(a, b).value.1 == a.l
                                     && (b.l - Target(a, b).value.0) % 0x100 == 0
    ensures (a.Bin? || b.Bin? || (a.Var? && b.Var?)) ==> Target(a, b) == None
  {
  }

  /** An OR is derived exactly if both sides are, entry by entry as above; a NOT never is. */
  lemma OrMeaning(p: Pred, q: Pred, i: nat, v: int)
    requires PredOk(p, MAX_VARIABLE_ID) && PredOk(q, MAX_VARIABLE_ID) && i < 4
    ensures TreeRanges(Or(p, q)).Some? <==> TreeRanges(p).Some? && TreeRanges(q).Some?
    ensures TreeRanges(And(p, q)).Some? <==> TreeRanges(p).Some? && TreeRanges(q).Some?
    ensures TreeRanges(Not(p)) == None
    ensures TreeRanges(p).Some? && TreeRanges(q).Some? ==>
      var a, b, m := TreeRanges(p).value[i], TreeRanges(q).value[i], TreeRanges(Or(p, q)).value[i];
      && (!a.derived && !b.derived ==> !m.derived) && (a.derived && !b.derived ==> m == a)
      && (!a.derived && b.derived ==> m == b)
      && (a.derived && b.derived ==>
           m.derived && m.min <= a.min && m.min <= b.min && m.max >= a.max && m.max >= b.max
           && (m.min == a.min || m.min == b.min) && (m.max == a.max || m.max == b.max))
  {
    if TreeRanges(p).Some? && TreeRanges(q).Some? {
      MergedEntry(false, Blank(), TreeRanges(p).value, TreeRanges(q).value, i);
    }
  }
}
