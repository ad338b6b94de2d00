/** The resumable equi-join: an outer loop over the left relation and an inner loop over an index of
    the right one, left at every row found and entered again in the middle. */
module Join {
  import opened Basics
  import opened Select
  import InlineIndex

  datatype JoinStatus = JoinedRow | NoMoreRows | ImplementationError

  type Pair = (nat, nat)

  /** What the index yields for the join attribute's value in each left row. */
  type Matches = seq<seq<nat>>

  function PairUp(l: nat, rights: seq<nat>): seq<Pair> {
    seq(|rights|, k requires 0 <= k < |rights| => (l, rights[k]))
  }

  /** The join from a left row on. */
  function JoinFrom(matches: Matches, l: nat): seq<Pair>
    decreases if l < |matches| then |matches| - l else 0
  {
    if l < |matches| then PairUp(l, matches[l]) + JoinFrom(matches, l + 1) else []
  }

  lemma JoinStep(matches: Matches, l: nat)
    ensures JoinFrom(matches, l) == if l < |matches| then PairUp(l, matches[l]) + JoinFrom(matches, l + 1) else []
  {
  }

  lemma PairUpStep(l: nat, rights: seq<nat>, after: seq<Pair>)
    ensures rights == [] ==> PairUp(l, rights) + after == after
    ensures rights != [] ==>
      var pairs := PairUp(l, rights) + after;
      pairs != [] && pairs[0] == (l, rights[0]) && pairs[1..] == PairUp(l, rights[1..]) + after
  {
  }

  /** The index yields, for every left row, each right row with the same value once. */
  ghost predicate Exact(matches: Matches, left: seq<int>, right: seq<int>) {
    && |matches| == |left|
    && (forall l: nat, r: nat :: l < |left| ==> (r in matches[l] <==> r < |right| && right[r] == left[l]))
    && (forall l, i, j :: 0 <= l < |left| && 0 <= i < j < |matches[l]| ==> matches[l][i] != matches[l][j])
  }

  /** The rows returned are the equi-join, ... */
  lemma {:induction false} JoinExact(matches: Matches, left: seq<int>, right: seq<int>, from: nat, p: Pair)
    requires Exact(matches, left, right) && from <= |left|
    ensures p in JoinFrom(matches, from) <==> from <= p.0 < |left| && p.1 < |right| && right[p.1] == left[p.0]
    decreases |left| - from
  {
    hide JoinFrom, PairUp, Exact;
    JoinStep(matches, from);
    MatchesOf(matches, left, right, from, p.1);
    if from < |left| {
      JoinExact(matches, left, right, from + 1, p);
      InPairUp(from, matches[from], p);
      assert p in JoinFrom(matches, from) <==> p in PairUp(from, matches[from]) || p in JoinFrom(matches, from + 1);
    }
  }

  lemma MatchesOf(matches: Matches, left: seq<int>, right: seq<int>, l: nat, r: nat)
    requires Exact(matches, left, right)
    ensures |matches| == |left|
    ensures l < |left| ==> (r in matches[l] <==> r < |right| && right[r] == left[l])
  {
  }

  lemma InPairUp(l: nat, rights: seq<nat>, p: Pair)
    ensures p in PairUp(l, rights) <==> p.0 == l && p.1 in rights
  {
    var pairs := PairUp(l, rights);
    if p.0 == l && p.1 in rights {
      var k :| 0 <= k < |rights| && rights[k] == p.1;
      assert pairs[k] == p;
    }
  }

  /** Each pair occurs once, and the left rows come in order. */
  ghost predicate LeftMajor(pairs: seq<Pair>, from: nat) {
    && (forall i :: 0 <= i < |pairs| ==> from <= pairs[i].0)
    && (forall i, j :: 0 <= i < j < |pairs| ==> pairs[i].0 <= pairs[j].0 && pairs[i] != pairs[j])
  }

  /** ... each pair once and the left rows in order. */
  lemma {:induction false} JoinOrdered(matches: Matches, left: seq<int>, right: seq<int>, from: nat)
    requires Exact(matches, left, right) && from <= |left|
    ensures LeftMajor(JoinFrom(matches, from), from)
    decreases |left| - from
  {
    hide JoinFrom, LeftMajor;
    JoinStep(matches, from);
    if from < |left| {
      JoinOrdered(matches, left, right, from + 1);
      LeftMajorAppend(PairUp(from, matches[from]), JoinFrom(matches, from + 1), from);
    } else {
      assert LeftMajor([], from) by { LeftMajorNone(from); }
    }
  }

  lemma LeftMajorNone(from: nat)
    ensures LeftMajor([], from)
  {
  }

  lemma LeftMajorAppend(here: seq<Pair>, rest: seq<Pair>, from: nat)
    requires forall i :: 0 <= i < |here| ==> here[i].0 == from
    requires forall i, j :: 0 <= i < j < |here| ==> here[i] != here[j]
    requires LeftMajor(rest, from + 1)
    ensures LeftMajor(here + rest, from)
  {
  }

  /** What the inline index yields for equality searches with the left values. */
  function InlineMatches(left: seq<int>, right: InlineIndex.Column): (matches: Matches)
    ensures |matches| == |left|
  {
    seq(|left|, l requires 0 <= l < |left| => InlineIndex.Yield(InlineIndex.RangeSearch(right, left[l], left[l])))
  }

  /** An increasing column yields exactly the right rows as long as no left value lies below it. */
  lemma InlineMatchesExact(left: seq<int>, right: InlineIndex.Column)
    requires InlineIndex.Increasing(right) && right != []
    requires forall l :: 0 <= l < |left| ==> right[0] <= left[l]
    ensures Exact(InlineMatches(left, right), left, right)
  {
    var matches := InlineMatches(left, right);
    forall l: nat | l < |left|
      ensures forall r: nat :: r in matches[l] <==> r < |right| && right[r] == left[l]
      ensures |matches[l]| <= 1
    {
      EqualityYield(right, left[l]);
    }
  }

  lemma EqualityYield(right: InlineIndex.Column, v: int)
    requires InlineIndex.Increasing(right) && right != [] && right[0] <= v
    ensures var ids := InlineIndex.Yield(InlineIndex.RangeSearch(right, v, v));
      |ids| <= 1 && forall r: nat :: r in ids <==> r < |right| && right[r] == v
  {
    hide InlineIndex.Search, InlineIndex.SearchFrom;
    InlineIndex.SearchResult(right, v, true);
    var r := InlineIndex.RangeSearch(right, v, v);
    if r.Rows? {
      assert InlineIndex.Yield(r) == [r.start];
      assert right[r.start] == v;
    }
  }

  class EquiJoin {
    const rightRows: nat
    const matches: Matches       // by left row: what index_get_next yields for its value
    var tupleId: nat
    var indexStep: bool
    var pending: seq<nat>        // what the current iterator has not yielded yet
    var currentRow: nat
    var row: Pair

    /** The handle after relation_join. */
    constructor (matches: Matches, rightRows: nat)
      ensures this.matches == matches && this.rightRows == rightRows && currentRow == 0
      ensures Remaining() == JoinFrom(matches, 0)
    {
      this.matches, this.rightRows := matches, rightRows;
      tupleId, indexStep, pending, currentRow, row := 0, true, [], 0, (0, 0);
    }

    /** The pairs still to come; at the end of the inner loop's last round the join starts over. */
    ghost function Remaining(): seq<Pair>
      reads this
    {
      if indexStep then JoinFrom(matches, 0) else PairUp(tupleId, pending) + JoinFrom(matches, tupleId + 1)
    }

    ghost predicate RowsExist() {
      forall l :: 0 <= l < |matches| ==> InRange(matches[l], rightRows)
    }

    /** The inner loop: the next row of the index for the current left row, if there is one. */
    method InnerLoop() returns (status: JoinStatus)
      requires InRange(pending, rightRows)
      modifies this`pending, this`row, this`currentRow
      ensures InRange(pending, rightRows) && status != ImplementationError
      ensures old(pending) == [] <==> status == NoMoreRows
      ensures status == NoMoreRows ==> currentRow == old(currentRow) && pending == []
      ensures status == JoinedRow ==>
        row == (tupleId, old(pending)[0]) && pending == old(pending)[1..] && currentRow == old(currentRow) + 1
    {
      if pending == [] {
        return NoMoreRows;
      }
      var id: nat := pending[0];
      pending := pending[1..];
      if id >= rightRows {
        return ImplementationError;
      }
      row := (tupleId, id);
      currentRow := currentRow + 1;
      return JoinedRow;
    }

    /** relation_process_join. */
    method Process() returns (status: JoinStatus)
      requires RowsExist() && InRange(pending, rightRows)
      modifies this
      ensures InRange(pending, rightRows)
      ensures old(Remaining()) == [] ==>
        status == NoMoreRows && Remaining() == JoinFrom(matches, 0) && currentRow == old(currentRow)
      ensures old(Remaining()) != [] ==>
        && status == JoinedRow && row == old(Remaining())[0] && !indexStep
        && Remaining() == old(Remaining())[1..] && currentRow == old(currentRow) + 1
    {
      hide JoinFrom, PairUp, InRange;
      ghost var remaining := Remaining();
      var resume := !indexStep;
      if !resume {
        tupleId := 0;
      }
      status := NoMoreRows;
      while status == NoMoreRows
        invariant InRange(pending, rightRows) && status != ImplementationError
        invariant status == NoMoreRows ==> resume == !indexStep && currentRow == old(currentRow)
        invariant status == NoMoreRows ==>
          remaining == if resume then PairUp(tupleId, pending) + JoinFrom(matches, tupleId + 1)
            else JoinFrom(matches, tupleId)
        invariant status == JoinedRow ==>
          && !indexStep && currentRow == old(currentRow) + 1
          && remaining != [] && row == remaining[0] && Remaining() == remaining[1..]
        decreases status == NoMoreRows, if tupleId < |matches| then |matches| - tupleId else 0, resume
      {
        JoinStep(matches, tupleId);
        if !resume {
          if tupleId >= |matches| {
            return NoMoreRows;
          }
          pending := matches[tupleId];
          indexStep := false;
        }
        resume := false;
        PairUpStep(tupleId, pending, JoinFrom(matches, tupleId + 1));
        status := InnerLoop();
        if status == NoMoreRows {
          indexStep := true;
          tupleId := tupleId + 1;
        }
      }
    }

    /** A caller that fetches rows until there are no more. */
    method ProcessAll() returns (rows: seq<Pair>)
      requires RowsExist() && InRange(pending, rightRows)
      modifies this
      ensures rows == old(Remaining())
      ensures Remaining() == JoinFrom(matches, 0)
    {
      hide JoinFrom, PairUp, Remaining;
      rows := [];
      var status := JoinedRow;
      while status == JoinedRow
        invariant InRange(pending, rightRows)
        invariant status == JoinedRow ==> rows + Remaining() == old(Remaining())
        invariant status != JoinedRow ==>
          status == NoMoreRows && rows == old(Remaining()) && Remaining() == JoinFrom(matches, 0)
        decreases status == JoinedRow, |Remaining()|
      {
        status := Process();
        if status == JoinedRow {
          rows := rows + [row];
        }
      }
    }
  }
}
