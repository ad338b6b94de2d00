/** Antelope's inline index: a binary search over a column that only grows, with row numbers in
    32-bit unsigned arithmetic and a search result that is cached for the rest of an iteration. */
module InlineIndex {
  import opened Basics

  const INVALID_TUPLE: nat := 0xFFFF_FFFF

  /** File offsets are signed 32-bit numbers, so a relation has fewer than 2^31 rows. */
  type Column = c: seq<int> | |c| < 0x8000_0000

  ghost predicate Increasing(column: seq<int>) {
    forall i, j :: 0 <= i < j < |column| ==> column[i] < column[j]
  }

  /** A search ends at a row, without one, or by reading a row that does not exist: the C then
      compares against whatever the row buffer holds, and anything may follow. */
  datatype Outcome = Row(id: nat) | Missing | Wild

  // ----- the search -----

  /** Where the loop ends when it goes on with rows min to max. */
  function SearchFrom(column: Column, target: int, min: nat, max: nat): (r: Outcome)
    requires min <= max < |column|
    ensures r.Row? ==> r.id < |column|
    decreases max - min
  {
    var center := min + (max - min) / 2;
    if column[center] == target then Row(center)
    else if target > column[center] then
      if center == max then Row(center) else SearchFrom(column, target, center + 1, max)
    else if center == 0 then Wild
    else if center == min then Row(center)
    else SearchFrom(column, target, min, center - 1)
  }

  function Search(column: Column, target: int, exact: bool): (r: Outcome)
    ensures r.Row? ==> r.id < |column|
  {
    if column == [] then Wild
    else
      var r := SearchFrom(column, target, 0, |column| - 1);
      if exact && r.Row? && column[r.id] != target then Missing else r
  }

  lemma SearchFromStep(column: Column, target: int, min: nat, max: nat)
    requires min <= max < |column|
    ensures var center := min + (max - min) / 2;
      SearchFrom(column, target, min, max) ==
      if column[center] == target then Row(center)
      else if target > column[center] then
        if center == max then Row(center) else SearchFrom(column, target, center + 1, max)
      else if center == 0 then Wild
      else if center == min then Row(center)
      else SearchFrom(column, target, min, center - 1)
  {
  }

  /** Row numbers wrap around at both ends. */
  function Above(id: nat): nat {
    if id == TWO_TO_THE_32 - 1 then 0 else id + 1
  }

  function Below(id: nat): nat {
    if id == 0 then TWO_TO_THE_32 - 1 else id - 1
  }

  /** binary_search. */
  method BinarySearch(column: Column, target: int, exact: bool) returns (r: Outcome)
    ensures r == Search(column, target, exact)
  {
    hide SearchFrom;
    var max: nat, min: nat := Below(|column|), 0;
    var center: nat, value, again := 0, 0, true;
    while again
      invariant again ==>
        || (min <= max < |column| && Search(column, target, false) == SearchFrom(column, target, min, max))
        || (min == 0 && max == TWO_TO_THE_32 - 1 && Search(column, target, false) == Wild)
      invariant !again ==> center < |column| && value == column[center] && Search(column, target, false) == Row(center)
      decreases again, if max < |column| then 1 else 0, max - min
    {
      center := min + (max - min) / 2;
      if center >= |column| {
        return Wild;
      }
      value := column[center];
      if max < |column| { SearchFromStep(column, target, min, max); }
      if target > value {
        min := Above(center);
      } else {
        max := Below(center);
      }
      again := min <= max && target != value;
    }
    if exact && target != value {
      return Missing;
    }
    return Row(center);
  }

  // ----- what a search finds -----

  /** All rows before c are below the target, all rows after it above. */
  ghost predicate Splits(column: seq<int>, target: int, c: nat) {
    && c < |column|
    && (forall i :: 0 <= i < c ==> column[i] < target)
    && (forall i :: c < i < |column| ==> column[i] > target)
  }

  lemma {:induction false} SearchFromSplits(column: Column, target: int, min: nat, max: nat)
    requires Increasing(column) && min <= max < |column|
    requires forall i :: 0 <= i < min ==> column[i] < target
    requires forall i :: max < i < |column| ==> column[i] > target
    ensures SearchFrom(column, target, min, max) == Wild <==> target < column[0]
    ensures var r := SearchFrom(column, target, min, max); r.Row? ==> Splits(column, target, r.id)
    ensures SearchFrom(column, target, min, max) != Missing
    decreases max - min
  {
    hide SearchFrom;
    SearchFromStep(column, target, min, max);
    var center := min + (max - min) / 2;
    if column[center] == target {
    } else if target > column[center] {
      if center != max { SearchFromSplits(column, target, center + 1, max); }
    } else if center != 0 && center != min {
      SearchFromSplits(column, target, min, center - 1);
    }
  }

  /** A search goes wild exactly in an empty column or for a target below the first value;
      otherwise an exact search finds the target exactly if it is there, and an inexact one ends
      at a row that splits the column. */
  lemma SearchResult(column: Column, target: int, exact: bool)
    requires Increasing(column)
    ensures Search(column, target, exact) == Wild <==> column == [] || target < column[0]
    ensures var r := Search(column, target, exact);
      && (r.Row? ==> Splits(column, target, r.id) && (exact ==> column[r.id] == target))
      && (r == Missing ==> exact && target !in column)
  {
    if column != [] {
      SearchFromSplits(column, target, 0, |column| - 1);
      var r := SearchFrom(column, target, 0, |column| - 1);
      if r.Row? && column[r.id] != target {
        assert forall i :: 0 <= i < |column| && i != r.id ==> column[i] != target;
      }
    }
  }

  /** Searches keep the order of their targets, because they take the same path until they part. */
  lemma {:induction false} SearchFromMonotone(column: Column, low: int, high: int, min: nat, max: nat)
    requires Increasing(column) && min <= max < |column| && column[0] <= low <= high
    requires forall i :: 0 <= i < min ==> column[i] < low
    requires forall i :: max < i < |column| ==> column[i] > high
    ensures var r, r' := SearchFrom(column, low, min, max), SearchFrom(column, high, min, max);
      r.Row? && r'.Row? && r.id <= r'.id
    decreases max - min
  {
    hide SearchFrom;
    SearchFromStep(column, low, min, max);
    SearchFromStep(column, high, min, max);
    var center := min + (max - min) / 2;
    if high < column[center] {
      if center != min { SearchFromMonotone(column, low, high, min, center - 1); }
    } else if low > column[center] {
      if center != max { SearchFromMonotone(column, low, high, center + 1, max); }
    } else {
      AtMost(column, low, min, max, center);
      AtLeast(column, high, min, max, center);
    }
  }

  lemma AtMost(column: Column, low: int, min: nat, max: nat, center: nat)
    requires Increasing(column) && min <= max < |column| && center == min + (max - min) / 2
    requires column[0] <= low <= column[center]
    ensures var r := SearchFrom(column, low, min, max); r.Row? && r.id <= center
  {
    hide SearchFrom;
    SearchFromStep(column, low, min, max);
    if low < column[center] && center != min { UpperBound(column, low, min, center - 1); }
  }

  lemma {:induction false} UpperBound(column: Column, target: int, min: nat, max: nat)
    requires Increasing(column) && min <= max < |column| && column[0] <= target
    ensures var r := SearchFrom(column, target, min, max); r.Row? && min <= r.id <= max
    decreases max - min
  {
    hide SearchFrom;
    SearchFromStep(column, target, min, max);
    var center := min + (max - min) / 2;
    if column[center] == target {
    } else if target > column[center] {
      if center != max { UpperBound(column, target, center + 1, max); }
    } else if center != min {
      UpperBound(column, target, min, center - 1);
    }
  }

  lemma AtLeast(column: Column, high: int, min: nat, max: nat, center: nat)
    requires Increasing(column) && min <= max < |column| && center == min + (max - min) / 2
    requires column[0] <= high && column[center] <= high
    ensures var r := SearchFrom(column, high, min, max); r.Row? && center <= r.id
  {
    hide SearchFrom;
    SearchFromStep(column, high, min, max);
    if high > column[center] && center != max { UpperBound(column, high, center + 1, max); }
  }

  // ----- a range of rows -----

  datatype Rows = Rows(start: nat, end: nat) | NoRows | WildRows

  /** range_search. */
  function RangeSearch(column: Column, low: int, high: int): (r: Rows)
    ensures r.Rows? ==> r.start < |column| && r.end < |column|
  {
    var a := Search(column, low, low == high);
    if a == Missing then NoRows
    else if a == Wild then WildRows
    else
      var b := Search(column, high, low == high);
      if b == Missing then NoRows else if b == Wild then WildRows else Rows(a.id, b.id)
  }

  /** The row numbers that an iteration yields: at least the first one, even of a reversed range. */
  function Yield(r: Rows): seq<nat> {
    if r.Rows? then [r.start] + Consecutive(r.start + 1, r.end + 1) else []
  }

  function Consecutive(from: nat, to: nat): (s: seq<nat>)
    ensures |s| == if from < to then to - from else 0
    ensures forall k :: 0 <= k < |s| ==> s[k] == from + k
    decreases if from < to then to - from else 0
  {
    if from < to then [from] + Consecutive(from + 1, to) else []
  }

  /** For a proper range that does not start below the first value, the iteration yields
      consecutive rows: all rows with a value in the range, and at most one more at each end. An
      empty result means that no row has the value. */
  lemma RangeYield(column: Column, low: int, high: int)
    requires Increasing(column) && column != [] && column[0] <= low <= high
    ensures var r := RangeSearch(column, low, high);
      && r != WildRows
      && (r == NoRows ==> low == high && low !in column)
      && (r.Rows? ==>
           && r.start <= r.end < |column| && Yield(r) == Consecutive(r.start, r.end + 1)
           && (forall i :: 0 <= i < |column| && low <= column[i] <= high ==> r.start <= i <= r.end)
           && (forall i :: r.start < i < r.end ==> low <= column[i] <= high))
  {
    SearchResult(column, low, low == high);
    SearchResult(column, high, low == high);
    var r := RangeSearch(column, low, high);
    if r.Rows? {
      if low < high { SearchFromMonotone(column, low, high, 0, |column| - 1); }
    }
  }

  /** The other direction: the search goes wild exactly if one of the bounds it looks up lies
      below the first value. In particular, no range that is open below can be searched. */
  lemma RangeWild(column: Column, low: int, high: int)
    requires Increasing(column) && column != []
    ensures RangeSearch(column, low, high) == WildRows <==> low < column[0] || (high < column[0] && low != high)
  {
    SearchResult(column, low, low == high);
    SearchResult(column, high, low == high);
  }

  // ----- the iterator -----

  class Iterator {
    const min: int
    const max: int
    const unique: bool         // whether the attribute is declared to hold each value once
    var nextItemNo: nat

    constructor (min: int, max: int, unique: bool)
      ensures this.min == min && this.max == max && this.unique == unique && nextItemNo == 0
    {
      this.min, this.max, this.unique, nextItemNo := min, max, unique, 0;
    }
  }

  class Index {
    const column: Column
    var cachedStart: nat
    var cachedEnd: nat

    constructor (column: Column)
      ensures this.column == column
    {
      this.column := column;
      cachedStart, cachedEnd := 0, 0;
    }

    /** What the iterator yields from the start. */
    ghost function All(it: Iterator): seq<nat> {
      Yield(RangeSearch(column, it.min, it.max))
    }

    /** The iterator has yielded nextItemNo rows, and the cache is still its own. */
    ghost predicate Iterating(it: Iterator)
      reads this, it
    {
      && it.nextItemNo <= |All(it)|
      && (it.nextItemNo > 0 ==> RangeSearch(column, it.min, it.max) == Rows(cachedStart, cachedEnd))
    }

    method SearchRange(it: Iterator) returns (found: bool)
      requires RangeSearch(column, it.min, it.max) != WildRows
      modifies this
      ensures found <==> RangeSearch(column, it.min, it.max).Rows?
      ensures found ==> RangeSearch(column, it.min, it.max) == Rows(cachedStart, cachedEnd)
    {
      var exact := it.min == it.max;
      var a := BinarySearch(column, it.min, exact);
      if a == Missing {
        return false;
      }
      cachedStart := a.id;
      var b := BinarySearch(column, it.max, exact);
      if b == Missing {
        return false;
      }
      cachedEnd := b.id;
      found := true;
    }

    /** get_next of the inline index: the next row of the iteration, or INVALID_TUPLE for ever. */
    method GetNext(it: Iterator) returns (id: nat)
      requires RangeSearch(column, it.min, it.max) != WildRows && Iterating(it)
      modifies this, it
      ensures Iterating(it)
      ensures old(it.nextItemNo) < |All(it)| ==>
        id == All(it)[old(it.nextItemNo)] && it.nextItemNo == old(it.nextItemNo) + 1
      ensures old(it.nextItemNo) == |All(it)| ==> id == INVALID_TUPLE && it.nextItemNo == old(it.nextItemNo)
    {
      if it.nextItemNo == 0 {
        var found := SearchRange(it);
        if !found {
          cachedStart, cachedEnd := 0, 0;
          return INVALID_TUPLE;
        }
        it.nextItemNo := 1;
        return cachedStart;
      } else if (cachedStart + it.nextItemNo) % TWO_TO_THE_32 <= cachedEnd {
        id := cachedStart + it.nextItemNo;
        it.nextItemNo := it.nextItemNo + 1;
        return id;
      }
      return INVALID_TUPLE;
    }

    /** index_get_next: on a unique attribute an equality search stops after one row. On an
        increasing column that loses nothing. */
    method IndexGetNext(it: Iterator) returns (id: nat)
      requires RangeSearch(column, it.min, it.max) != WildRows && Iterating(it)
      requires it.unique ==> Increasing(column)
      modifies this, it
      ensures Iterating(it)
      ensures old(it.nextItemNo) < |All(it)| ==>
        id == All(it)[old(it.nextItemNo)] && it.nextItemNo == old(it.nextItemNo) + 1
      ensures old(it.nextItemNo) == |All(it)| ==> id == INVALID_TUPLE && it.nextItemNo == old(it.nextItemNo)
    {
      if it.unique && it.nextItemNo == 1 && it.min == it.max {
        SearchResult(column, it.min, true);
        return INVALID_TUPLE;
      }
      id := GetNext(it);
    }
  }
}
