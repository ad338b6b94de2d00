/** Looking keys up in a MaxHeap index: an iteration walks the key's path from the deepest node to
    the root and scans each bucket, through a cache that holds one bucket. */
module MaxHeapSearch {
  import opened Basics
  import opened MaxHeap
  import opened InlineIndex

  const NODE_DEPTH: nat := 9

  const EMPTY_PAIR := Pair(0, 0)

  // ----- what a lookup yields -----

  /** The first slot from a position on that holds the key. */
  function FirstMatch(pairs: seq<Pair>, key: nat, from: nat): (i: nat)
    ensures from <= |pairs| ==> from <= i <= |pairs|
    ensures i < |pairs| ==> pairs[i].key == key
    ensures forall k :: from <= k < i && k < |pairs| ==> pairs[k].key != key
    decreases |pairs| - from
  {
    if from >= |pairs| then from
    else if pairs[from].key == key then from else FirstMatch(pairs, key, from + 1)
  }

  /** What an iteration still yields when it has come to a slot of the bucket at a position of the
      path. The slot is carried over from bucket to bucket. */
  function Remaining(buckets: seq<seq<Pair>>, path: seq<nat>, position: int, key: nat, start: nat): seq<nat>
    requires forall i :: 0 <= i < |path| ==> path[i] < |buckets|
    requires position < |path|
    decreases if position < 0 then 0 else position + 1,
              if position >= 0 && start < |buckets[path[position]]| then |buckets[path[position]]| - start else 0
  {
    if position < 0 then []
    else
      var pairs := buckets[path[position]];
      var i := FirstMatch(pairs, key, start);
      if i < |pairs| then [pairs[i].value] + Remaining(buckets, path, position, key, i + 1)
      else Remaining(buckets, path, position - 1, key, start)
  }

  /** Everything that a fresh search yields for one key. */
  function KeyValues(nodes: seq<Node>, buckets: seq<seq<Pair>>, hash: nat -> nat, key: nat): seq<nat>
    requires |buckets| == NODE_LIMIT
  {
    var path := Path(nodes, 0, HashOf(hash, key));
    PathInBounds(nodes, 0, HashOf(hash, key));
    Remaining(buckets, path, |path| - 1, key, 0)
  }

  /** The same for all keys of a range, truncated to sixteen bits. */
  function KeysValues(nodes: seq<Node>, buckets: seq<seq<Pair>>, hash: nat -> nat, from: nat, to: nat): seq<nat>
    requires |buckets| == NODE_LIMIT
    decreases if from <= to then to - from + 1 else 0
  {
    if from > to then []
    else KeyValues(nodes, buckets, hash, from % 65536) + KeysValues(nodes, buckets, hash, from + 1, to)
  }

  /** The same key by key: an iteration counts anew for every key. */
  function KeyGroups(nodes: seq<Node>, buckets: seq<seq<Pair>>, hash: nat -> nat, from: nat, to: nat): seq<seq<nat>>
    requires |buckets| == NODE_LIMIT
    decreases if from <= to then to - from + 1 else 0
  {
    if from > to then []
    else [KeyValues(nodes, buckets, hash, from % 65536)] + KeyGroups(nodes, buckets, hash, from + 1, to)
  }

  lemma {:induction false} LastGroup(nodes: seq<Node>, buckets: seq<seq<Pair>>, hash: nat -> nat, from: nat, to: nat)
    requires |buckets| == NODE_LIMIT && from <= to
    ensures var found := KeyGroups(nodes, buckets, hash, from, to);
      found != [] && found[|found| - 1] == KeyValues(nodes, buckets, hash, to % 65536)
    decreases if from <= to then to - from else 0
  {
    hide KeyValues;
    if from < to { LastGroup(nodes, buckets, hash, from + 1, to); }
  }

  /** All values of one key in one bucket, from a slot on. */
  function Values(pairs: seq<Pair>, key: nat, from: nat): seq<nat>
    decreases |pairs| - from
  {
    if from >= |pairs| then []
    else (if pairs[from].key == key then [pairs[from].value] else []) + Values(pairs, key, from + 1)
  }

  // ----- the cached bucket -----

  /** A bucket as the file holds it: what was never written reads as zeros. */
  function File(bucket: seq<Pair>): (pairs: seq<Pair>)
    requires |bucket| <= BUCKET_SIZE
    ensures |pairs| == BUCKET_SIZE
  {
    bucket + seq(BUCKET_SIZE - |bucket|, _ => EMPTY_PAIR)
  }

  function FirstEmpty(pairs: seq<Pair>): (i: nat)
    ensures i <= |pairs| && (i < |pairs| ==> pairs[i] == EMPTY_PAIR)
    ensures forall k :: 0 <= k < i ==> pairs[k] != EMPTY_PAIR
  {
    if pairs == [] || pairs[0] == EMPTY_PAIR then 0 else 1 + FirstEmpty(pairs[1..])
  }

  /** A bucket is counted correctly from the file exactly if it does not hold the pair (0, 0). */
  lemma RecountIff(bucket: seq<Pair>)
    requires |bucket| <= BUCKET_SIZE
    ensures FirstEmpty(File(bucket)) == |bucket| <==> Pair(0, 0) !in bucket
  {
    var i := FirstEmpty(File(bucket));
    if i < |bucket| {
      assert bucket[i] == File(bucket)[i];
    } else {
      assert forall k :: 0 <= k < |bucket| ==> bucket[k] == File(bucket)[k];
      assert |bucket| < BUCKET_SIZE ==> File(bucket)[|bucket|] == EMPTY_PAIR;
    }
  }

  /** A cached bucket agrees with the bucket file. */
  ghost predicate Agrees(cached: Option<nat>, cachedPairs: seq<Pair>, buckets: seq<seq<Pair>>) {
    && |cachedPairs| == BUCKET_SIZE
    && (cached.Some? ==>
         var b := cached.value;
         b < |buckets| && |buckets[b]| <= BUCKET_SIZE && cachedPairs[..|buckets[b]|] == buckets[b])
  }

  /** Writing a pair behind the cache leaves the cache right exactly if another bucket is cached, or
      the slot of the cached bucket happens to hold the same pair. */
  lemma CacheSurvivesIff(cached: Option<nat>, cachedPairs: seq<Pair>, buckets: seq<seq<Pair>>, b: nat, slot: nat,
                         pair: Pair)
    requires Agrees(cached, cachedPairs, buckets) && b < |buckets|
    requires slot <= |buckets[b]| && slot < BUCKET_SIZE
    ensures Agrees(cached, cachedPairs, buckets[b := Written(buckets[b], slot, pair)])
            <==> cached != Some(b) || cachedPairs[slot] == pair
  {
    var bucket := Written(buckets[b], slot, pair);
    if cached == Some(b) {
      assert forall k :: 0 <= k < |buckets[b]| ==> cachedPairs[..|buckets[b]|][k] == cachedPairs[k];
      if cachedPairs[slot] == pair {
        assert cachedPairs[..|bucket|] == bucket;
      } else {
        assert cachedPairs[..|bucket|][slot] != bucket[slot];
      }
    }
  }

  /** A lookup that scans the cached bucket after a pair was appended behind the cache sees the pairs
      with the new key exactly if the cached slot happens to hold the same pair. */
  lemma StaleScanIff(bucket: seq<Pair>, cachedPairs: seq<Pair>, pair: Pair)
    requires |bucket| < |cachedPairs| && cachedPairs[..|bucket|] == bucket
    ensures Values(cachedPairs[..|bucket| + 1], pair.key, 0) == Values(bucket + [pair], pair.key, 0)
            <==> cachedPairs[|bucket|] == pair
  {
    hide Values;
    var seen := cachedPairs[|bucket|];
    assert cachedPairs[..|bucket| + 1] == bucket + [seen];
    ValuesAppend(bucket, seen, pair.key, 0);
    ValuesAppend(bucket, pair, pair.key, 0);
    var all := Values(bucket + [pair], pair.key, 0);
    assert all[|all| - 1] == pair.value;
  }

  lemma {:induction false} ValuesAppend(pairs: seq<Pair>, pair: Pair, key: nat, from: nat)
    requires from <= |pairs|
    ensures Values(pairs + [pair], key, from)
      == Values(pairs, key, from) + (if pair.key == key then [pair.value] else [])
    decreases |pairs| - from
  {
    if from < |pairs| {
      ValuesAppend(pairs, pair, key, from + 1);
    } else {
      assert Values(pairs + [pair], key, from + 1) == [];
    }
  }

  class Iterator {
    var min: nat
    const max: nat
    var nextItemNo: nat

    constructor (min: nat, max: nat)
      ensures this.min == min && this.max == max && nextItemNo == 0
    {
      this.min, this.max, nextItemNo := min, max, 0;
    }
  }

  class Search {
    const heap: Heap
    var cachedBucket: Option<nat>
    var cachedPairs: seq<Pair>
    var owner: Iterator?         // the iteration that the rest belongs to
    var visited: seq<nat>
    var position: int
    var start: nat
    var foundItems: nat

    constructor (heap: Heap)
      ensures this.heap == heap && Coherent() && owner == null
    {
      this.heap := heap;
      cachedBucket, cachedPairs := None, seq(BUCKET_SIZE, _ => EMPTY_PAIR);
      owner, visited, position, start, foundItems := null, [], -1, 0, 0;
    }

    ghost predicate Coherent()
      reads this`cachedBucket, this`cachedPairs, heap
    {
      Agrees(cachedBucket, cachedPairs, heap.buckets)
    }

    /** Every bucket is counted, or will be counted correctly when it is loaded. */
    ghost predicate Countable()
      reads this`cachedBucket, heap
    {
      && heap.Consistent()
      && forall b :: 0 <= b < NODE_LIMIT ==>
        || heap.nextFree[b] == |heap.buckets[b]|
        || (heap.nextFree[b] == 0 && cachedBucket != Some(b) && EMPTY_PAIR !in heap.buckets[b])
    }

    /** release and load. Lookups work on the loaded index exactly if it nowhere holds the pair (0, 0)
        and the cache, which nobody clears, does not hold a bucket with pairs. */
    method Load()
      requires heap.Consistent() && Coherent()
      modifies heap
      ensures heap.Consistent() && Coherent() && heap.buckets == old(heap.buckets)
      ensures Countable() <==>
        && (forall b :: 0 <= b < NODE_LIMIT ==> Pair(0, 0) !in heap.buckets[b])
        && (cachedBucket.Some? ==> heap.buckets[cachedBucket.value] == [])
    {
      hide Tree, BucketOk;
      heap.Load();
    }

    /** insert, which truncates key and value to sixteen bits. The cache is still right afterwards
        exactly if the pair went to another bucket than the cached one, or the cache holds the same
        pair there. */
    method Insert(key: int, value: nat) returns (ok: bool)
      requires heap.Consistent() && Coherent()
      modifies heap
      ensures heap.Consistent() && (old(heap.Valid()) ==> heap.Valid())
      ensures !ok ==> Coherent() && heap.buckets == old(heap.buckets)
      ensures ok ==> var pair := Pair(key % 65536, value % 65536);
        var b := Deepest(heap.nodes, 0, heap.Hash(pair.key));
        var slot := old(heap.nextFree[b]);
        && b < NODE_LIMIT && slot <= old(|heap.buckets[b]|) && slot < BUCKET_SIZE
        && heap.buckets == old(heap.buckets)[b := Written(old(heap.buckets[b]), slot, pair)]
        && (All(heap.buckets) == old(All(heap.buckets)) + multiset{pair} <==> slot == old(|heap.buckets[b]|))
        && (Coherent() <==> cachedBucket != Some(b) || cachedPairs[slot] == pair)
    {
      hide Tree, Placed, Deepest, All, Agrees, Counted;
      ghost var buckets, nextFree := heap.buckets, heap.nextFree;
      CoherentParts();
      ConsistentParts();
      ok := heap.InsertItem(key % 65536, value % 65536);
      if ok {
        ConsistentParts();
        ghost var pair := Pair(key % 65536, value % 65536);
        ghost var b := Deepest(heap.nodes, 0, heap.Hash(pair.key));
        CacheSurvivesIff(cachedBucket, cachedPairs, buckets, b, nextFree[b], pair);
      }
    }

    lemma CountableParts()
      requires Countable()
      ensures heap.Consistent() && |heap.nodes| == |heap.buckets| == |heap.nextFree| == NODE_LIMIT
    {
      hide Tree;
    }

    lemma NothingRecounted()
      requires heap.Consistent()
      ensures Recounted(heap.nextFree, heap.nextFree, heap.buckets)
    {
    }

    lemma ConsistentParts()
      requires heap.Consistent()
      ensures |heap.nodes| == |heap.buckets| == |heap.nextFree| == NODE_LIMIT
    {
    }

    lemma CoherentParts()
      requires Coherent()
      ensures |cachedPairs| == BUCKET_SIZE
    {
    }

    /** Counting the pairs of the cached bucket. */
    method CountPairs() returns (i: nat)
      requires |cachedPairs| == BUCKET_SIZE
      ensures i == FirstEmpty(cachedPairs)
    {
      i := 0;
      while i < BUCKET_SIZE
        invariant i <= BUCKET_SIZE && forall k :: 0 <= k < i ==> cachedPairs[k] != EMPTY_PAIR
      {
        if cachedPairs[i] == EMPTY_PAIR {
          break;
        }
        i := i + 1;
      }
    }

    /** bucket_load and bucket_read. A bucket without a count, as after loading the index from its
        files, is counted. */
    method BucketLoad(b: nat)
      requires Coherent() && |heap.buckets| == |heap.nextFree| == NODE_LIMIT && b < NODE_LIMIT
      requires |heap.buckets[b]| <= BUCKET_SIZE && (heap.nextFree[b] == |heap.buckets[b]| || heap.nextFree[b] == 0)
      modifies this`cachedBucket, this`cachedPairs, heap`nextFree
      ensures Coherent() && cachedBucket == Some(b)
      ensures heap.nextFree == if old(heap.nextFree[b]) == 0 && old(cachedBucket) != Some(b)
                               then old(heap.nextFree)[b := FirstEmpty(File(heap.buckets[b]))] else old(heap.nextFree)
    {
      if cachedBucket == Some(b) {
        return;
      }
      var size := if heap.nextFree[b] == 0 then BUCKET_SIZE else heap.nextFree[b];
      cachedPairs := File(heap.buckets[b])[..size] + cachedPairs[size..];
      cachedBucket := Some(b);
      if heap.nextFree[b] == 0 {
        assert cachedPairs == File(heap.buckets[b]);
        var i := CountPairs();
        heap.nextFree := heap.nextFree[b := i];
      }
    }

    /** The path of a key, as repeated heap_find gives it. */
    method StartSearch(it: Iterator)
      requires heap.Consistent()
      modifies this`owner, this`visited, this`position, this`start, this`foundItems
      ensures owner == it && start == 0 && foundItems == 0
      ensures visited == Path(heap.nodes, 0, heap.Hash(it.min % 65536)) && position == |visited| - 1
    {
      hide Tree, Range, Path, Covers, ChildFor, Placed;
      var key := it.min % 65536;
      ghost var h, nodes := heap.Hash(key), heap.nodes;
      owner, start, foundItems, visited := it, 0, 0, [];
      var i, next, more := 0, 0, true;
      ghost var parent := 0;
      ghost var c := 0;
      RootRange();
      while i < NODE_DEPTH && more
        invariant owner == it && start == 0 && foundItems == 0 && |visited| == i <= NODE_DEPTH
        invariant next == 0 || (parent < NODE_LIMIT && next == 2 * parent + 1 < NODE_LIMIT && Covers(Range(parent), h))
        invariant c == (if next == 0 then 0 else ChildFor(parent, h))
          && (i > 0 ==> next > 0 && Depth(parent) == i - 1 && i <= 8)
        invariant i == 0 ==> next == 0
        invariant visited + Path(nodes, c, h) == Path(nodes, 0, h)
        invariant !more ==> Path(nodes, c, h) == []
        decreases NODE_DEPTH - i, more
      {
        var id;
        ghost var next0 := next;
        id, next := heap.HeapFind(key, next, parent);
        if id < 0 {
          NoPath(nodes, c, h);
          more := false;
        } else {
          PathStep(nodes, c, h);
          assert visited + ([id] + Path(nodes, ChildFor(id, h), h)) == visited + [id] + Path(nodes, ChildFor(id, h), h);
          visited := visited + [id];
          if next0 > 0 { Halves(parent); ChildIs(parent, h); }
          parent, c := id, ChildFor(id, h);
          ShallowNode(nodes, id);
          i := i + 1;
        }
      }
      position := |visited| - 1;
    }

    ghost function AllFor(key: nat): seq<nat>
      requires heap.Consistent()
      reads heap
    {
      KeyValues(heap.nodes, heap.buckets, heap.hash, key)
    }

    ghost function AllForKeys(from: nat, to: nat): seq<nat>
      requires heap.Consistent()
      reads heap
    {
      KeysValues(heap.nodes, heap.buckets, heap.hash, from, to)
    }

    /** The iteration goes on where it was; another one must not come in between. */
    ghost predicate Continuing(it: Iterator)
      reads this, it
    {
      owner == it && it.nextItemNo > 0
    }

    ghost predicate Searching(it: Iterator)
      reads this, it, heap
    {
      && heap.Consistent() && Countable() && Coherent() && it.min <= it.max && (owner == it || it.nextItemNo == 0)
      && (Continuing(it) ==> Located(it) && AllFor(it.min % 65536) != [])
    }

    ghost predicate Located(it: Iterator)
      requires heap.Consistent()
      reads this, it, heap
    {
      && visited == Path(heap.nodes, 0, heap.Hash(it.min % 65536))
      && (forall i :: 0 <= i < |visited| ==> visited[i] < NODE_LIMIT)
      && -1 <= position < |visited| && foundItems == it.nextItemNo
    }

    /** What an iteration still yields. */
    ghost function Left(it: Iterator): seq<nat>
      requires Searching(it)
      reads this, it, heap
    {
      (if Continuing(it) then Here(it) else AllFor(it.min % 65536)) + AllForKeys(it.min + 1, it.max)
    }

    ghost function Here(it: Iterator): seq<nat>
      requires heap.Consistent() && Located(it)
      reads this, it, heap
    {
      Remaining(heap.buckets, visited, position, it.min % 65536, start)
    }

    /** The scan of get_next: from the current slot up the path. */
    method Scan(it: Iterator) returns (id: Option<nat>)
      requires Countable() && Coherent() && Located(it)
      modifies this`cachedBucket, this`cachedPairs, this`position, this`start, this`foundItems, it`nextItemNo,
        heap`nextFree
      ensures heap.Consistent() && Countable() && Recounted(old(heap.nextFree), heap.nextFree, heap.buckets)
      ensures Coherent() && Located(it)
      ensures old(Here(it)) == [] ==> id == None && Here(it) == [] && it.nextItemNo == old(it.nextItemNo)
      ensures old(Here(it)) != [] ==>
        id == Some(old(Here(it))[0]) && Here(it) == old(Here(it))[1..] && it.nextItemNo == old(it.nextItemNo) + 1
    {
      hide Tree, Path, Remaining, Placed, Coherent, Countable, FirstMatch, Recounted;
      var key := it.min % 65536;
      CountableParts();
      ghost var here, nextFree := Here(it), heap.nextFree;
      NothingRecounted();
      while position >= 0
        invariant heap.Consistent() && |heap.buckets| == NODE_LIMIT
        invariant Countable() && Recounted(old(heap.nextFree), heap.nextFree, heap.buckets) && Coherent() && Located(it)
        invariant it.nextItemNo == old(it.nextItemNo) && Here(it) == here
        decreases position
      {
        var b := visited[position];
        RecountedMore(nextFree, heap.nextFree, heap.buckets, b);
        LoadForScan(b);
        CountableParts();
        RemainingStep(heap.buckets, visited, position, key, start);
        var next := heap.nextFree[b];
        CoherentBucket(b);
        var i := ScanBucket(key, next);
        if i < next {
          // foundItems is always the number of values already returned, so this match is the next one
          var value := CachedValue(b, i);
          foundItems := foundItems + 1;
          it.nextItemNo := it.nextItemNo + 1;
          start := i + 1;
          return Some(value);
        }
        position := position - 1;
      }
      NothingLeft(heap.buckets, visited, position, key, start);
      id := None;
    }

    method LoadForScan(b: nat)
      requires Countable() && Coherent() && b < NODE_LIMIT
      modifies this`cachedBucket, this`cachedPairs, heap`nextFree
      ensures Countable() && Coherent() && cachedBucket == Some(b)
      ensures |heap.buckets| == NODE_LIMIT && |heap.buckets[b]| <= BUCKET_SIZE
      ensures |old(heap.nextFree)| == NODE_LIMIT && heap.nextFree == old(heap.nextFree)[b := |heap.buckets[b]|]
    {
      hide Tree, Placed, Coherent, File, FirstEmpty, BucketOk;
      PlacedAt(heap.nodes, heap.buckets, heap.nextFree, heap.hash, b);
      ghost var nextFree := heap.nextFree;
      RecountIff(heap.buckets[b]);
      BucketLoad(b);
      PlacedAgain(heap.nodes, heap.buckets, nextFree, heap.nextFree, heap.hash);
    }

    lemma CoherentBucket(b: nat)
      requires Coherent() && cachedBucket == Some(b)
      ensures |cachedPairs| == BUCKET_SIZE && b < |heap.buckets| && |heap.buckets[b]| <= BUCKET_SIZE
      ensures cachedPairs[..|heap.buckets[b]|] == heap.buckets[b]
    {
    }

    method CachedValue(b: nat, i: nat) returns (v: nat)
      requires Coherent() && cachedBucket == Some(b) && b < |heap.buckets| && i < |heap.buckets[b]|
      ensures v == heap.buckets[b][i].value
    {
      assert cachedPairs[i] == cachedPairs[..|heap.buckets[b]|][i];
      v := cachedPairs[i].value;
    }

    /** The scan of one bucket for its next pair with the key, as the cache shows it. */
    method ScanBucket(key: nat, next: nat) returns (i: nat)
      requires |cachedPairs| == BUCKET_SIZE && next <= BUCKET_SIZE
      ensures i == FirstMatch(cachedPairs[..next], key, start)
        || (i >= next && FirstMatch(cachedPairs[..next], key, start) >= next)
    {
      hide FirstMatch;
      i := start;
      ghost var pairs := cachedPairs[..next];
      MatchStep(pairs, key, i);
      while i < next
        invariant i >= start && FirstMatch(pairs, key, start) == FirstMatch(pairs, key, i)
        decreases next - i
      {
        MatchStep(pairs, key, i);
        assert cachedPairs[i] == pairs[i];
        if cachedPairs[i].key == key {
          return;
        }
        i := i + 1;
      }
      MatchStep(pairs, key, i);
    }

    /** get_next: the next value of the iteration, key by key, or INVALID_TUPLE at the end. */
    method GetNext(it: Iterator) returns (id: nat)
      requires Searching(it)
      modifies this, it, heap`nextFree
      ensures Searching(it) && Recounted(old(heap.nextFree), heap.nextFree, heap.buckets)
      ensures old(Left(it)) == [] ==>
        id == INVALID_TUPLE && Left(it) == [] && (it.nextItemNo == 0 <==> AllFor(it.max % 65536) == [])
      ensures old(Left(it)) != [] ==> id == old(Left(it))[0] && Left(it) == old(Left(it))[1..]
      decreases it.max - it.min, 1
    {
      hide Tree, Path, Remaining, Placed, KeysValues, Located, KeyValues, Here, Coherent, Countable, Recounted;
      ghost var later, nextFree := AllForKeys(it.min + 1, it.max), heap.nextFree;
      ConsistentParts();
      KeysStep(heap.nodes, heap.buckets, heap.hash, it.min + 1, it.max);
      Prepare(it);
      ghost var here := Here(it);
      FirstOrLater(here, later);
      var found := Scan(it);
      if found.Some? {
        return found.value;
      }
      if it.min == it.max {
        return INVALID_TUPLE;
      }
      ghost var between := heap.nextFree;
      id := Advance(it);
      RecountedTwice(nextFree, between, heap.nextFree, heap.buckets);
    }

    /** The end of get_next: the next key. */
    method Advance(it: Iterator) returns (id: nat)
      requires heap.Consistent() && Countable() && Coherent() && it.min < it.max
      modifies this, it, heap`nextFree
      ensures Searching(it) && Recounted(old(heap.nextFree), heap.nextFree, heap.buckets)
      ensures old(AllForKeys(it.min + 1, it.max)) == [] ==>
        id == INVALID_TUPLE && Left(it) == [] && (it.nextItemNo == 0 <==> AllFor(it.max % 65536) == [])
      ensures old(AllForKeys(it.min + 1, it.max)) != [] ==>
        id == old(AllForKeys(it.min + 1, it.max))[0] && Left(it) == old(AllForKeys(it.min + 1, it.max))[1..]
      decreases it.max - it.min, 0
    {
      hide Tree, Path, Remaining, Placed, KeysValues, Located, KeyValues, Here, Coherent, Countable, Recounted;
      ConsistentParts();
      KeysStep(heap.nodes, heap.buckets, heap.hash, it.min + 1, it.max);
      it.nextItemNo := 0;
      it.min := it.min + 1;
      id := GetNext(it);
    }

    /** The start of get_next: a new search, unless the iteration goes on. */
    method Prepare(it: Iterator)
      requires Searching(it)
      modifies this`owner, this`visited, this`position, this`start, this`foundItems
      ensures heap.Consistent() && Located(it) && owner == it
      ensures Here(it) == old(if Continuing(it) then Here(it) else AllFor(it.min % 65536))
    {
      hide Tree, Path, Remaining, Placed, Coherent;
      if owner != it || it.nextItemNo == 0 {
        StartSearch(it);
        PathInBounds(heap.nodes, 0, heap.Hash(it.min % 65536));
      }
    }
  }

  /** Only counts that were missing have changed. */
  ghost predicate Recounted(nextFree: seq<nat>, nextFree': seq<nat>, buckets: seq<seq<Pair>>) {
    |nextFree| == |nextFree'| == |buckets|
    && forall b :: 0 <= b < |nextFree| ==> nextFree'[b] == nextFree[b] || nextFree'[b] == |buckets[b]|
  }

  lemma RecountedTwice(a: seq<nat>, b: seq<nat>, c: seq<nat>, buckets: seq<seq<Pair>>)
    requires Recounted(a, b, buckets) && Recounted(b, c, buckets)
    ensures Recounted(a, c, buckets)
  {
  }

  lemma FirstOrLater(here: seq<nat>, later: seq<nat>)
    ensures here == [] ==> here + later == later
    ensures here != [] ==> here + later == [here[0]] + (here[1..] + later)
  {
  }

  lemma RecountedMore(nextFree: seq<nat>, nextFree': seq<nat>, buckets: seq<seq<Pair>>, b: nat)
    requires Recounted(nextFree, nextFree', buckets) && b < |buckets|
    ensures Recounted(nextFree, nextFree'[b := |buckets[b]|], buckets)
  {
  }

  lemma KeysStep(nodes: seq<Node>, buckets: seq<seq<Pair>>, hash: nat -> nat, from: nat, to: nat)
    requires |buckets| == NODE_LIMIT
    ensures KeysValues(nodes, buckets, hash, from, to) ==
      if from > to then []
      else KeyValues(nodes, buckets, hash, from % 65536) + KeysValues(nodes, buckets, hash, from + 1, to)
  {
  }

  lemma MatchStep(pairs: seq<Pair>, key: nat, i: nat)
    ensures FirstMatch(pairs, key, i) ==
      if i >= |pairs| || pairs[i].key == key then i else FirstMatch(pairs, key, i + 1)
  {
  }

  lemma RemainingStep(buckets: seq<seq<Pair>>, path: seq<nat>, position: int, key: nat, start: nat)
    requires (forall i :: 0 <= i < |path| ==> path[i] < |buckets|) && 0 <= position < |path|
    ensures var pairs := buckets[path[position]];
      var i := FirstMatch(pairs, key, start);
      Remaining(buckets, path, position, key, start) ==
      if i < |pairs| then [pairs[i].value] + Remaining(buckets, path, position, key, i + 1)
      else Remaining(buckets, path, position - 1, key, start)
  {
    hide FirstMatch;
  }

  lemma NothingLeft(buckets: seq<seq<Pair>>, path: seq<nat>, position: int, key: nat, start: nat)
    requires (forall i :: 0 <= i < |path| ==> path[i] < |buckets|) && position < 0
    ensures Remaining(buckets, path, position, key, start) == []
  {
  }

  lemma PathInBounds(nodes: seq<Node>, p: nat, h: int)
    ensures forall i :: 0 <= i < |Path(nodes, p, h)| ==> Path(nodes, p, h)[i] < NODE_LIMIT
    decreases NODE_LIMIT - p
  {
    hide ChildFor;
    if p < NODE_LIMIT && Visible(nodes, p) {
      ChildIs(p, h);
      PathInBounds(nodes, ChildFor(p, h), h);
      PathStep(nodes, p, h);
    }
  }

  // ----- finding a key -----

  /** No pair with the key in any bucket of the path up to a position. */
  ghost predicate Absent(buckets: seq<seq<Pair>>, path: seq<nat>, position: int, key: nat)
    requires forall i :: 0 <= i < |path| ==> path[i] < |buckets|
  {
    forall j, k :: 0 <= j <= position && j < |path| && 0 <= k < |buckets[path[j]]| ==> buckets[path[j]][k].key != key
  }

  lemma {:induction false} AbsentYieldsNothing(buckets: seq<seq<Pair>>, path: seq<nat>, position: int, key: nat,
                                               start: nat)
    requires (forall i :: 0 <= i < |path| ==> path[i] < |buckets|) && position < |path|
    requires Absent(buckets, path, position, key)
    ensures Remaining(buckets, path, position, key, start) == []
    decreases if position < 0 then 0 else position + 1
  {
    hide FirstMatch, Remaining;
    if position < 0 {
      NothingLeft(buckets, path, position, key, start);
    } else {
      RemainingStep(buckets, path, position, key, start);
      AbsentYieldsNothing(buckets, path, position - 1, key, start);
    }
  }

  /** A bucket that alone holds a key yields all its values in the order of insertion. */
  lemma SingleBucketYields(buckets: seq<seq<Pair>>, path: seq<nat>, position: int, key: nat, start: nat)
    requires (forall i :: 0 <= i < |path| ==> path[i] < |buckets|) && 0 <= position < |path|
    requires Absent(buckets, path, position - 1, key)
    ensures Remaining(buckets, path, position, key, start) == Values(buckets[path[position]], key, start)
  {
    hide Remaining, Absent, Values, NextSlot;
    RemainingBucket(buckets, path, position, key, start);
    AbsentYieldsNothing(buckets, path, position - 1, key, NextSlot(buckets[path[position]], key, start));
  }

  lemma MatchNotBefore(pairs: seq<Pair>, key: nat, from: nat)
    requires FirstMatch(pairs, key, from) < |pairs|
    ensures from <= FirstMatch(pairs, key, from)
  {
  }

  lemma ValuesStep(pairs: seq<Pair>, key: nat, from: nat)
    ensures Values(pairs, key, from) ==
      if from >= |pairs| then []
      else (if pairs[from].key == key then [pairs[from].value] else []) + Values(pairs, key, from + 1)
  {
  }

  lemma {:induction false} ValuesFrom(pairs: seq<Pair>, key: nat, from: nat)
    ensures var i := FirstMatch(pairs, key, from);
      Values(pairs, key, from) == if i < |pairs| then [pairs[i].value] + Values(pairs, key, i + 1) else []
    decreases if from < |pairs| then |pairs| - from else 0
  {
    hide Values, FirstMatch;
    ValuesStep(pairs, key, from);
    MatchStep(pairs, key, from);
    if from < |pairs| && pairs[from].key != key {
      ValuesFrom(pairs, key, from + 1);
    }
  }

  lemma {:induction false} ReachesBucket(buckets: seq<seq<Pair>>, path: seq<nat>, position: int, key: nat, target: nat)
    requires (forall i :: 0 <= i < |path| ==> path[i] < |buckets|) && target <= position < |path|
    requires forall j, k :: target < j <= position && 0 <= k < |buckets[path[j]]| ==> buckets[path[j]][k].key != key
    ensures Remaining(buckets, path, position, key, 0) == Remaining(buckets, path, target, key, 0)
    decreases position - target
  {
    hide FirstMatch, Remaining;
    if target < position {
      RemainingStep(buckets, path, position, key, 0);
      ReachesBucket(buckets, path, position - 1, key, target);
    }
  }

  /** In every valid index, a key whose pairs all lie in one bucket is found with all its values; a
      key that is stored once is found with its value, and then the iteration ends. */
  lemma KeyFound(search: Search, key: nat, b: nat)
    requires search.heap.Consistent() && b < NODE_LIMIT
    requires exists k :: 0 <= k < |search.heap.buckets[b]| && search.heap.buckets[b][k].key == key
    requires forall i, k :: 0 <= i < NODE_LIMIT && i != b && 0 <= k < |search.heap.buckets[i]| ==>
      search.heap.buckets[i][k].key != key
    ensures search.AllFor(key) == Values(search.heap.buckets[b], key, 0)
  {
    hide Tree, Path, Range, Remaining, Values, FirstMatch;
    var heap := search.heap;
    var h := heap.Hash(key);
    var path := Path(heap.nodes, 0, h);
    PlacedAt(heap.nodes, heap.buckets, heap.nextFree, heap.hash, b);
    PathExact(heap.nodes, h, b);
    PathInBounds(heap.nodes, 0, h);
    RootRange();
    TreeAt(heap.nodes, 0);
    PathIncreases(heap.nodes, 0, h);
    var target :| 0 <= target < |path| && path[target] == b;
    ReachesBucket(heap.buckets, path, |path| - 1, key, target);
    SingleBucketYields(heap.buckets, path, target, key, 0);
  }

  /** A fresh iteration over one key yields what its lookup in sixteen bits finds. */
  lemma OneKeyLeft(search: Search, it: Iterator)
    requires search.Searching(it) && it.nextItemNo == 0 && it.min == it.max
    ensures search.Left(it) == KeyValues(search.heap.nodes, search.heap.buckets, search.heap.hash, it.max % 65536)
    ensures it.max < 65536 ==>
      search.Left(it) == KeyValues(search.heap.nodes, search.heap.buckets, search.heap.hash, it.max)
  {
    hide KeyValues, Tree;
  }

  // ----- when a key is found completely -----

  /** All values of one key in the buckets of the path up to a position, from there upwards. */
  function AllValues(buckets: seq<seq<Pair>>, path: seq<nat>, position: int, key: nat): seq<nat>
    requires (forall i :: 0 <= i < |path| ==> path[i] < |buckets|) && position < |path|
    decreases if position < 0 then 0 else position + 1
  {
    if position < 0 then [] else Values(buckets[path[position]], key, 0) + AllValues(buckets, path, position - 1, key)
  }

  predicate Match(buckets: seq<seq<Pair>>, path: seq<nat>, i: nat, slot: nat, key: nat) {
    i < |path| && path[i] < |buckets| && slot < |buckets[path[i]]| && buckets[path[i]][slot].key == key
  }

  /** Of two pairs with the key in different buckets, the one further down has the lower slot. */
  ghost predicate InOrder(buckets: seq<seq<Pair>>, path: seq<nat>, position: int, key: nat) {
    forall i, j, s, t ::
      0 <= i < j <= position && Match(buckets, path, i, s, key) && Match(buckets, path, j, t, key) ==> t < s
  }

  ghost predicate NoneBefore(buckets: seq<seq<Pair>>, path: seq<nat>, position: int, key: nat, start: nat) {
    forall j, t :: 0 <= j <= position && Match(buckets, path, j, t, key) ==> start <= t
  }

  /** The slot at which the scan of a bucket leaves off. */
  function NextSlot(pairs: seq<Pair>, key: nat, start: nat): (next: nat)
    ensures start <= next
    ensures forall k :: start <= k < |pairs| && pairs[k].key == key ==> k < next
    ensures next > start ==> next <= |pairs| && pairs[next - 1].key == key
    decreases |pairs| - start
  {
    var i := FirstMatch(pairs, key, start);
    if i >= |pairs| then start else assert start <= i; NextSlot(pairs, key, i + 1)
  }

  lemma NextSlotStep(pairs: seq<Pair>, key: nat, start: nat)
    ensures var i := FirstMatch(pairs, key, start);
      NextSlot(pairs, key, start) == if i >= |pairs| then start else NextSlot(pairs, key, i + 1)
  {
    hide FirstMatch;
  }

  lemma {:induction false} RemainingBucket(buckets: seq<seq<Pair>>, path: seq<nat>, position: int, key: nat, start: nat)
    requires (forall i :: 0 <= i < |path| ==> path[i] < |buckets|) && 0 <= position < |path|
    ensures var pairs := buckets[path[position]];
      Remaining(buckets, path, position, key, start) ==
      Values(pairs, key, start) + Remaining(buckets, path, position - 1, key, NextSlot(pairs, key, start))
    decreases |buckets[path[position]]| - start
  {
    hide Remaining, Values, FirstMatch, NextSlot;
    var pairs := buckets[path[position]];
    var i := FirstMatch(pairs, key, start);
    RemainingStep(buckets, path, position, key, start);
    ValuesFrom(pairs, key, start);
    NextSlotStep(pairs, key, start);
    if i < |pairs| {
      MatchNotBefore(pairs, key, start);
      RemainingBucket(buckets, path, position, key, i + 1);
    }
  }

  /** Values from a slot on are the last ones of all, and all of them exactly if no match lies before. */
  lemma {:induction false} ValuesBefore(pairs: seq<Pair>, key: nat, from: nat)
    ensures |Values(pairs, key, from)| <= |Values(pairs, key, 0)|
    ensures Values(pairs, key, from) == Values(pairs, key, 0)
            <==> forall k :: 0 <= k < from && k < |pairs| ==> pairs[k].key != key
    ensures Values(pairs, key, from) != Values(pairs, key, 0) ==> |Values(pairs, key, from)| < |Values(pairs, key, 0)|
  {
    if from > 0 {
      ValuesBefore(pairs, key, from - 1);
    }
  }

  /** A scan from a slot on yields all the values along the path exactly if no match lies before that
      slot, and no match above lies before the place where a scan further down has left off. */
  lemma {:induction false} CompleteIff(buckets: seq<seq<Pair>>, path: seq<nat>, position: int, key: nat, start: nat)
    requires (forall i :: 0 <= i < |path| ==> path[i] < |buckets|) && position < |path|
    ensures var found, all := Remaining(buckets, path, position, key, start), AllValues(buckets, path, position, key);
      && (found == all <==> InOrder(buckets, path, position, key) && NoneBefore(buckets, path, position, key, start))
      && |found| <= |all|
      && (found != all ==> |found| < |all|)
    decreases if position < 0 then 0 else position + 1
  {
    hide Remaining, Values, NextSlot, Match;
    if position < 0 {
      NothingLeft(buckets, path, position, key, start);
    } else {
      var pairs := buckets[path[position]];
      var next := NextSlot(pairs, key, start);
      RemainingBucket(buckets, path, position, key, start);
      ValuesBefore(pairs, key, start);
      CompleteIff(buckets, path, position - 1, key, next);
      OrderStep(buckets, path, position, key, start);
      Lengths(Values(pairs, key, start), Remaining(buckets, path, position - 1, key, next),
              Values(pairs, key, 0), AllValues(buckets, path, position - 1, key));
    }
  }

  lemma Lengths(a: seq<nat>, b: seq<nat>, a': seq<nat>, b': seq<nat>)
    requires |a| <= |a'| && |b| <= |b'| && (a != a' ==> |a| < |a'|) && (b != b' ==> |b| < |b'|)
    ensures a + b == a' + b' <==> a == a' && b == b'
    ensures a + b != a' + b' ==> |a + b| < |a' + b'|
  {
  }

  lemma OrderStep(buckets: seq<seq<Pair>>, path: seq<nat>, position: int, key: nat, start: nat)
    requires (forall i :: 0 <= i < |path| ==> path[i] < |buckets|) && 0 <= position < |path|
    ensures var pairs := buckets[path[position]];
      InOrder(buckets, path, position, key) && NoneBefore(buckets, path, position, key, start) <==>
      && (forall k :: 0 <= k < start && k < |pairs| ==> pairs[k].key != key)
      && InOrder(buckets, path, position - 1, key)
      && NoneBefore(buckets, path, position - 1, key, NextSlot(pairs, key, start))
  {
    hide NextSlot;
    var pairs := buckets[path[position]];
    var next := NextSlot(pairs, key, start);
    assert forall t: nat :: Match(buckets, path, position, t, key) <==> t < |pairs| && pairs[t].key == key;
    if InOrder(buckets, path, position, key) && NoneBefore(buckets, path, position, key, start) {
      forall k: nat | k < start && k < |pairs| ensures pairs[k].key != key {
        assert Match(buckets, path, position, k, key) ==> start <= k;
      }
      if next > start {
        assert Match(buckets, path, position, next - 1, key);
      }
    }
  }

  // ----- a lookup that meets a stale cache -----

  /** What lies above a position does not depend on a bucket that is not there. */
  lemma {:induction false} RemainingAbove(buckets: seq<seq<Pair>>, path: seq<nat>, position: int, key: nat, start: nat,
                                          b: nat, bucket: seq<Pair>)
    requires (forall i :: 0 <= i < |path| ==> path[i] < |buckets|) && position < |path| && b < |buckets|
    requires forall i :: 0 <= i <= position ==> path[i] != b
    ensures Remaining(buckets[b := bucket], path, position, key, start)
      == Remaining(buckets, path, position, key, start)
    decreases if position < 0 then 0 else position + 1
  {
    hide Remaining, Values, NextSlot;
    if position < 0 {
      NothingLeft(buckets, path, position, key, start);
      NothingLeft(buckets[b := bucket], path, position, key, start);
    } else {
      RemainingBucket(buckets, path, position, key, start);
      RemainingBucket(buckets[b := bucket], path, position, key, start);
      RemainingAbove(buckets, path, position - 1, key, NextSlot(buckets[path[position]], key, start), b, bucket);
    }
  }

  lemma {:induction false} NextSlotAppend(pairs: seq<Pair>, pair: Pair, key: nat, start: nat)
    requires start <= |pairs|
    ensures NextSlot(pairs + [pair], key, start) == if pair.key == key then |pairs| + 1 else NextSlot(pairs, key, start)
    decreases |pairs| - start
  {
    var next, next' := NextSlot(pairs, key, start), NextSlot(pairs + [pair], key, start);
    assert (pairs + [pair])[|pairs|] == pair;
    assert forall k :: 0 <= k < |pairs| ==> (pairs + [pair])[k] == pairs[k];
    if pair.key != key {
      if next > start { assert (pairs + [pair])[next - 1].key == key; }
      if next' > start { assert next' - 1 < |pairs| && pairs[next' - 1].key == key; }
    }
  }

  /** What a fresh search yields if the deepest bucket of the path ends in a certain pair. */
  lemma EndsInPair(buckets: seq<seq<Pair>>, path: seq<nat>, key: nat, pair: Pair)
    requires path != [] && forall i :: 0 <= i < |path| ==> path[i] < |buckets|
    requires forall i :: 0 <= i < |path| - 1 ==> path[i] != path[|path| - 1]
    ensures var top, b := |path| - 2, path[|path| - 1];
      var bucket := buckets[b];
      Remaining(buckets[b := bucket + [pair]], path, top + 1, key, 0) ==
      Values(bucket, key, 0)
      + if pair.key == key then [pair.value] + Remaining(buckets, path, top, key, |bucket| + 1)
        else Remaining(buckets, path, top, key, NextSlot(bucket, key, 0))
  {
    hide Remaining, Values, NextSlot;
    var top, b := |path| - 2, path[|path| - 1];
    var bucket := buckets[b];
    var buckets' := buckets[b := bucket + [pair]];
    RemainingBucket(buckets', path, top + 1, key, 0);
    ValuesAppend(bucket, pair, key, 0);
    NextSlotAppend(bucket, pair, key, 0);
    RemainingAbove(buckets, path, top, key, NextSlot(bucket + [pair], key, 0), b, bucket + [pair]);
  }

  /** A pair has been written to the deepest bucket of a path, and the cache still shows another one in
      its slot. A lookup of any key that starts there sees what it would see in the file exactly if
      both pairs are equal or have other keys, or the difference is made up for by what is skipped
      further up. */
  lemma StaleLookupIff(buckets: seq<seq<Pair>>, path: seq<nat>, key: nat, shown: Pair, pair: Pair)
    requires path != [] && forall i :: 0 <= i < |path| ==> path[i] < |buckets|
    requires forall i :: 0 <= i < |path| - 1 ==> path[i] != path[|path| - 1]
    ensures var top, b := |path| - 2, path[|path| - 1];
      var bucket := buckets[b];
      var skipped := Remaining(buckets, path, top, key, |bucket| + 1);
      var seen := Remaining(buckets, path, top, key, NextSlot(bucket, key, 0));
      var same := Remaining(buckets[b := bucket + [shown]], path, top + 1, key, 0)
               == Remaining(buckets[b := bucket + [pair]], path, top + 1, key, 0);
      && (shown.key == key && pair.key == key ==> (same <==> shown.value == pair.value))
      && (shown.key != key && pair.key != key ==> same)
      && (shown.key != key && pair.key == key ==> (same <==> seen == [pair.value] + skipped))
      && (shown.key == key && pair.key != key ==> (same <==> seen == [shown.value] + skipped))
      && (Absent(buckets, path, top, key) ==> (same <==> (shown.key == key || pair.key == key ==> shown == pair)))
  {
    hide Remaining, Values, NextSlot, Absent;
    var top, b := |path| - 2, path[|path| - 1];
    var bucket := buckets[b];
    EndsInPair(buckets, path, key, shown);
    EndsInPair(buckets, path, key, pair);
    if Absent(buckets, path, top, key) {
      AbsentYieldsNothing(buckets, path, top, key, |bucket| + 1);
      AbsentYieldsNothing(buckets, path, top, key, NextSlot(bucket, key, 0));
    }
    var skipped := Remaining(buckets, path, top, key, |bucket| + 1);
    var seen := Remaining(buckets, path, top, key, NextSlot(bucket, key, 0));
    SameBehind(Values(bucket, key, 0), [shown.value] + skipped, [pair.value] + skipped);
    SameBehind(Values(bucket, key, 0), seen, [pair.value] + skipped);
    SameBehind(Values(bucket, key, 0), seen, [shown.value] + skipped);
    assert ([shown.value] + skipped)[0] == shown.value && ([pair.value] + skipped)[0] == pair.value;
  }

  lemma SameBehind(a: seq<nat>, b: seq<nat>, c: seq<nat>)
    ensures a + b == a + c <==> b == c
  {
    if a + b == a + c {
      assert b == (a + b)[|a|..] == (a + c)[|a|..] == c;
    }
  }

  // ----- every pair with a key lies on its path -----

  lemma {:induction false} ValuesCount(pairs: seq<Pair>, key: nat, value: nat, from: nat)
    requires from <= |pairs|
    ensures multiset(Values(pairs, key, from))[value] == multiset(pairs[from..])[Pair(key, value)]
    decreases |pairs| - from
  {
    hide Values;
    ValuesStep(pairs, key, from);
    if from < |pairs| {
      ValuesCount(pairs, key, value, from + 1);
      assert pairs[from..] == [pairs[from]] + pairs[from + 1..];
    }
  }

  /** Counting over the first n buckets and over the first p places of the path is the same if the
      other buckets do not hold the key. */
  lemma {:induction false} CountOnPath(buckets: seq<seq<Pair>>, path: seq<nat>, n: nat, p: nat, key: nat, value: nat)
    requires (forall i :: 0 <= i < |path| ==> path[i] < |buckets|) && p <= |path| && n <= |buckets|
    requires forall i, j :: 0 <= i < j < |path| ==> path[i] < path[j]
    requires forall i :: 0 <= i < |path| ==> (i < p <==> path[i] < n)
    requires forall b, k :: 0 <= b < |buckets| && b !in path && 0 <= k < |buckets[b]| ==> buckets[b][k].key != key
    ensures multiset(AllValues(buckets, path, p - 1, key))[value] == All(buckets[..n])[Pair(key, value)]
    decreases n
  {
    hide Values, All, AllValues;
    CountStep(buckets, n);
    if n > 0 {
      var b := n - 1;
      if b in path {
        var i :| 0 <= i < |path| && path[i] == b;
        assert i == p - 1;
        AllValuesStep(buckets, path, p - 1, key, value);
        CountOnPath(buckets, path, b, i, key, value);
      } else {
        CountOnPath(buckets, path, b, p, key, value);
        assert Pair(key, value) !in buckets[b];
      }
    } else {
      AllValuesStep(buckets, path, p - 1, key, value);
    }
  }

  lemma CountStep(buckets: seq<seq<Pair>>, n: nat)
    requires n <= |buckets|
    ensures n == 0 ==> All(buckets[..n]) == multiset{}
    ensures n > 0 ==> All(buckets[..n]) == All(buckets[..n - 1]) + multiset(buckets[n - 1])
  {
    if n > 0 { assert buckets[..n][..n - 1] == buckets[..n - 1]; }
  }

  lemma AllValuesStep(buckets: seq<seq<Pair>>, path: seq<nat>, position: int, key: nat, value: nat)
    requires (forall i :: 0 <= i < |path| ==> path[i] < |buckets|) && position < |path|
    ensures position < 0 ==> AllValues(buckets, path, position, key) == []
    ensures position >= 0 ==>
      multiset(AllValues(buckets, path, position, key))[value] ==
      multiset(buckets[path[position]])[Pair(key, value)] + multiset(AllValues(buckets, path, position - 1, key))[value]
  {
    hide Values;
    if position >= 0 {
      var pairs := buckets[path[position]];
      assert pairs[0..] == pairs;
      ValuesCount(pairs, key, value, 0);
    }
  }

  /** A fresh search for a key finds every stored pair with the key, as often as it is stored,
      exactly if of two such pairs in different buckets the deeper one has the lower slot. */
  lemma LookupCompleteIff(heap: Heap, key: nat)
    requires heap.Consistent()
    ensures var path := Path(heap.nodes, 0, heap.Hash(key));
      var found := KeyValues(heap.nodes, heap.buckets, heap.hash, key);
      InOrder(heap.buckets, path, |path| - 1, key) <==>
        forall value :: multiset(found)[value] == All(heap.buckets)[Pair(key, value)]
  {
    hide Tree, Path, Range, Placed, Remaining, AllValues, All, InOrder;
    var h, buckets := heap.Hash(key), heap.buckets;
    var path := Path(heap.nodes, 0, h);
    PathInBounds(heap.nodes, 0, h);
    RootRange();
    TreeAt(heap.nodes, 0);
    PlacedAt(heap.nodes, buckets, heap.nextFree, heap.hash, 0);
    var found, all := KeyValues(heap.nodes, buckets, heap.hash, key), AllValues(buckets, path, |path| - 1, key);
    PathIncreases(heap.nodes, 0, h);
    CompleteIff(buckets, path, |path| - 1, key, 0);
    forall b, k | 0 <= b < |buckets| && b !in path && 0 <= k < |buckets[b]| ensures buckets[b][k].key != key {
      PlacedAt(heap.nodes, buckets, heap.nextFree, heap.hash, b);
      PathExact(heap.nodes, h, b);
    }
    assert buckets[..|buckets|] == buckets;
    forall value ensures multiset(all)[value] == All(buckets)[Pair(key, value)] {
      CountOnPath(buckets, path, |buckets|, |path|, key, value);
    }
    if forall value :: multiset(found)[value] == All(buckets)[Pair(key, value)] {
      assert forall value :: multiset(found)[value] == multiset(all)[value];
      assert multiset(found) == multiset(all);
      assert |multiset(found)| == |found| && |multiset(all)| == |all|;
    }
  }

  lemma {:induction false} ValuesIn(pairs: seq<Pair>, key: nat, from: nat, value: nat)
    requires forall k :: from <= k < |pairs| ==> pairs[k] != Pair(key, value)
    ensures value !in Values(pairs, key, from)
    decreases |pairs| - from
  {
    if from < |pairs| { ValuesIn(pairs, key, from + 1, value); }
  }

  /** The values 0, 1, ..., n - 1 of one key. */
  function Numbered(key: nat, n: nat): seq<Pair> {
    seq(n, i requires 0 <= i < n => Pair(key, i))
  }

  /** An index whose root is full of one key, and one more pair with that key below the root. */
  predicate RootAndChild(nodes: seq<Node>, buckets: seq<seq<Pair>>, h: int, key: nat) {
    && |nodes| == |buckets| == NODE_LIMIT && Visible(nodes, 0)
    && Deepest(nodes, 0, h) == ChildFor(0, h) < NODE_LIMIT
    && buckets[0] == Numbered(key, BUCKET_SIZE) && buckets[ChildFor(0, h)] == [Pair(key, BUCKET_SIZE)]
  }

  lemma OldestSkipped(nodes: seq<Node>, buckets: seq<seq<Pair>>, hash: nat -> nat, key: nat)
    requires RootAndChild(nodes, buckets, HashOf(hash, key), key)
    ensures 0 !in KeyValues(nodes, buckets, hash, key)
  {
    hide Path, Remaining, Values, Deepest, ChildFor, Visible, FirstMatch, NextSlot;
    var h := HashOf(hash, key);
    var c := ChildFor(0, h);
    DeepestStep(nodes, 0, h);
    DeepestStep(nodes, c, h);
    DeepestBelow(nodes, c, h);
    PathStep(nodes, 0, h);
    PathStep(nodes, c, h);
    NoPath(nodes, ChildFor(c, h), h);
    var path: seq<nat> := [0, c];
    assert Path(nodes, 0, h) == path;
    RemainingBucket(buckets, path, 1, key, 0);
    RemainingBucket(buckets, path, 0, key, 1);
    NothingLeft(buckets, path, -1, key, NextSlot(buckets[0], key, 1));
    assert NextSlot(buckets[c], key, 0) == 1 by { assert buckets[c][0].key == key; }
    ValuesIn(buckets[c], key, 0, 0);
    ValuesIn(buckets[0], key, 1, 0);
  }

  lemma DeepestBelow(nodes: seq<Node>, c: nat, h: int)
    requires |nodes| == NODE_LIMIT && c < NODE_LIMIT
    ensures Visible(nodes, ChildFor(c, h)) ==> Deepest(nodes, c, h) > c
  {
    hide Visible, ChildFor, Deepest;
    DeepestStep(nodes, c, h);
    if Visible(nodes, ChildFor(c, h)) { VisibleBound(nodes, ChildFor(c, h)); }
  }

  lemma OnlyRoot(nodes: seq<Node>, h: int)
    requires |nodes| == NODE_LIMIT && Present(nodes, 0)
    requires forall i :: 0 < i < NODE_LIMIT ==> nodes[i] == EMPTY_NODE
    ensures Visible(nodes, 0) && Deepest(nodes, 0, h) == 0
  {
  }

  /** Inserting 129 pairs with one key into a new index makes the first one impossible to look up: it
      is stored, but no search for its key ever yields it. */
  method InsertRepeatedly(hash: nat -> nat, key: nat) returns (heap: Heap)
    ensures fresh(heap) && heap.hash == hash && heap.Valid()
    ensures |heap.buckets| == NODE_LIMIT && Pair(key, 0) in heap.buckets[0]
    ensures 0 !in KeyValues(heap.nodes, heap.buckets, hash, key)
  {
    hide Tree, Placed, Deepest, All, ChildFor, Range, Path, KeyValues;
    heap := new Heap(hash);
    var ok := heap.Create();
    ghost var nodes, h := heap.nodes, heap.Hash(key);
    OnlyRoot(nodes, h);
    for i := 0 to BUCKET_SIZE
      invariant fresh(heap) && heap.Valid() && heap.nodes == nodes && |heap.buckets| == NODE_LIMIT
      invariant heap.buckets[0] == Numbered(key, i) && forall b :: 0 < b < NODE_LIMIT ==> heap.buckets[b] == []
    {
      ok := heap.InsertItem(key, i);
    }
    ghost var buckets := heap.buckets;
    ok := heap.InsertItem(key, BUCKET_SIZE);
    ghost var c := ChildFor(0, h);
    assert heap.buckets[0] == buckets[0] && buckets[0][0] == Pair(key, 0);
    assert heap.buckets[c] == [Pair(key, BUCKET_SIZE)];
    TreeAt(heap.nodes, 0);
    assert Deepest(heap.nodes, 0, h) == c;
    OldestSkipped(heap.nodes, heap.buckets, hash, key);
  }

  lemma ChildIs(i: nat, h: int)
    ensures ChildFor(i, h) == 2 * i + 1 || ChildFor(i, h) == 2 * i + 2
  {
  }

  lemma ShallowNode(nodes: seq<Node>, i: nat)
    requires Visible(nodes, i)
    ensures Depth(i) <= 7
  {
    DepthBounds(i);
    PowParts();
    if Depth(i) > 7 { PowGrows(8, Depth(i)); }
  }
}
