/** Antelope's MaxHeap index: key-value pairs in buckets of limited size, and a binary tree of key
    ranges over the buckets, kept in one array. A full bucket gets two children with half its range
    each; contrary to the design comment, its pairs stay where they are. */
module MaxHeap {
  import opened Basics

  const NODE_LIMIT: nat := 511
  const BUCKET_SIZE: nat := 128
  const KEY_MAX: int := 65535

  datatype Node = Node(min: int, max: int)

  const EMPTY_NODE := Node(0, 0)

  datatype Pair = Pair(key: nat, value: nat)

  // ----- the range of each place in the tree -----

  function Mean(n: Node): int {
    n.min + (n.max - n.min) / 2
  }

  function Range(i: nat): Node {
    if i == 0 then Node(0, KEY_MAX)
    else
      var p := Range((i - 1) / 2);
      if i % 2 == 1 then Node(p.min, Mean(p)) else Node(Mean(p) + 1, p.max)
  }

  function Depth(i: nat): nat {
    if i == 0 then 0 else 1 + Depth((i - 1) / 2)
  }

  predicate Covers(n: Node, h: int) {
    n.min <= h <= n.max
  }

  lemma {:induction false} DepthBounds(i: nat)
    ensures Pow2(Depth(i)) <= i + 1 < 2 * Pow2(Depth(i))
    decreases i
  {
    if i > 0 {
      DepthBounds((i - 1) / 2);
    }
  }

  lemma DepthAtMost8(i: nat)
    requires i < NODE_LIMIT
    ensures Depth(i) <= 8
  {
    DepthBounds(i);
    PowParts();
    assert Pow2(9) == 2 * Pow2(8);
    if Depth(i) > 8 {
      PowGrows(9, Depth(i));
    }
  }

  lemma {:induction false} PowGrows(a: nat, b: nat)
    requires a <= b
    ensures Pow2(a) <= Pow2(b)
    decreases b - a
  {
    if a < b { PowGrows(a + 1, b); }
  }

  /** A place at depth d covers 2^(16 - d) keys. */
  lemma {:induction false} RangeWidth(i: nat)
    requires Depth(i) <= 16
    ensures var r := Range(i); 0 <= r.min && r.max <= KEY_MAX && r.max - r.min + 1 == Pow2(16 - Depth(i))
    decreases i
  {
    if i == 0 {
      assert Pow2(8) == 256 && Pow2(16) == 256 * Pow2(8) by { PowParts(); }
    } else {
      RangeWidth((i - 1) / 2);
      assert Pow2(16 - Depth((i - 1) / 2)) == 2 * Pow2(16 - Depth(i));
    }
  }

  lemma PowParts()
    ensures Pow2(8) == 256 && Pow2(16) == 65536
  {
    assert Pow2(4) == 16;
    assert Pow2(8) == 16 * Pow2(4);
    assert Pow2(12) == 16 * Pow2(8);
    assert Pow2(16) == 16 * Pow2(12);
  }

  /** No place in the array has an empty range, or one that looks like an empty node. */
  lemma RangeOk(i: nat)
    requires i < NODE_LIMIT
    ensures var r := Range(i); 0 <= r.min && r.max <= KEY_MAX && r.max - r.min >= 255 && r != EMPTY_NODE
  {
    DepthAtMost8(i);
    RangeWidth(i);
    PowGrows(8, 16 - Depth(i));
    PowParts();
  }

  lemma RangeStep(i: nat, p: nat)
    requires i > 0 && p == (i - 1) / 2
    ensures Range(i) ==
      if i % 2 == 1 then Node(Range(p).min, Mean(Range(p))) else Node(Mean(Range(p)) + 1, Range(p).max)
    ensures Depth(i) == Depth(p) + 1
  {
    hide Mean;
  }

  lemma Halves(i: nat)
    ensures Range(2 * i + 1) == Node(Range(i).min, Mean(Range(i)))
    ensures Range(2 * i + 2) == Node(Mean(Range(i)) + 1, Range(i).max)
    ensures Depth(2 * i + 1) == Depth(2 * i + 2) == Depth(i) + 1
  {
    hide Range, Mean, Depth;
    RangeStep(2 * i + 1, i);
    RangeStep(2 * i + 2, i);
  }

  // ----- the tree -----

  predicate Present(nodes: seq<Node>, i: nat) {
    i < |nodes| && nodes[i] != EMPTY_NODE
  }

  /** A node has the range of its place, a parent, and its children come in pairs. */
  ghost predicate Grown(nodes: seq<Node>, i: nat) {
    && (Present(nodes, i) ==> nodes[i] == Range(i) && (i > 0 ==> Present(nodes, (i - 1) / 2)))
    && (Present(nodes, 2 * i + 1) <==> Present(nodes, 2 * i + 2))
  }

  ghost predicate Tree(nodes: seq<Node>) {
    |nodes| == NODE_LIMIT && Present(nodes, 0) && forall i :: 0 <= i < NODE_LIMIT ==> Grown(nodes, i)
  }

  lemma TreeAt(nodes: seq<Node>, i: nat)
    requires Tree(nodes) && i < NODE_LIMIT
    ensures |nodes| == NODE_LIMIT && Present(nodes, 0)
    ensures Present(nodes, i) ==> nodes[i] == Range(i) && (i > 0 ==> Present(nodes, (i - 1) / 2))
    ensures Present(nodes, 2 * i + 1) <==> Present(nodes, 2 * i + 2)
  {
    assert Grown(nodes, i);
  }

  /** i lies on the way from the root to c. */
  predicate Above(i: nat, c: nat) {
    i == c || (c > 0 && Above(i, (c - 1) / 2))
  }

  lemma {:induction false} AboveFacts(i: nat, c: nat)
    requires Above(i, c)
    ensures i <= c
    ensures i != c ==> c > 0 && (Above(2 * i + 1, c) || Above(2 * i + 2, c))
    decreases c
  {
    if i != c {
      AboveFacts(i, (c - 1) / 2);
      if i == (c - 1) / 2 {
        assert c == 2 * i + 1 || c == 2 * i + 2;
      }
    }
  }

  lemma {:induction false} RootAbove(c: nat)
    ensures Above(0, c)
    decreases c
  {
    if c > 0 { RootAbove((c - 1) / 2); }
  }

  lemma {:induction false} AboveCovers(i: nat, c: nat)
    requires Above(i, c) && c < 2 * NODE_LIMIT
    ensures Range(i).min <= Range(c).min <= Range(c).max <= Range(i).max
    decreases c
  {
    RangeNonempty(c);
    if i != c {
      RangeOk((c - 1) / 2);
      AboveCovers(i, (c - 1) / 2);
    }
  }

  lemma RangeNonempty(c: nat)
    requires c < 2 * NODE_LIMIT
    ensures Range(c).min <= Range(c).max
  {
    if c > 0 { RangeOk((c - 1) / 2); }
  }

  lemma {:induction false} AbovePresent(nodes: seq<Node>, i: nat, c: nat)
    requires Tree(nodes) && Above(i, c) && Present(nodes, c)
    ensures Present(nodes, i)
    decreases c
  {
    hide Tree;
    if i != c {
      TreeAt(nodes, if c < NODE_LIMIT then c else 0);
      AbovePresent(nodes, i, (c - 1) / 2);
    }
  }

  /** The child whose range holds a hash. */
  function ChildFor(i: nat, h: int): nat {
    if h <= Mean(Range(i)) then 2 * i + 1 else 2 * i + 2
  }

  /** Only nodes with room for children in the array are used as buckets. */
  predicate Visible(nodes: seq<Node>, i: nat) {
    Present(nodes, i) && 2 * i + 1 < NODE_LIMIT
  }

  /** The visible nodes for a hash, downwards from one of them. */
  function Path(nodes: seq<Node>, i: nat, h: int): seq<nat>
    decreases NODE_LIMIT - i
  {
    if i < NODE_LIMIT && Visible(nodes, i) then [i] + Path(nodes, ChildFor(i, h), h) else []
  }

  // ----- the index -----

  class Heap {
    const hash: nat -> nat          // transform_key draws from a generator seeded with the key
    var nodes: seq<Node>            // the heap file
    var buckets: seq<seq<Pair>>     // the bucket file
    var nextFree: seq<nat>

    constructor (hash: nat -> nat)
      ensures this.hash == hash && |nodes| == NODE_LIMIT && |buckets| == |nextFree| == NODE_LIMIT
      ensures forall i :: 0 <= i < NODE_LIMIT ==> nodes[i] == EMPTY_NODE && buckets[i] == [] && nextFree[i] == 0
    {
      this.hash := hash;
      nodes := seq(NODE_LIMIT, _ => EMPTY_NODE);
      buckets, nextFree := seq(NODE_LIMIT, _ => []), seq(NODE_LIMIT, _ => 0);
    }

    function Hash(key: nat): int {
      HashOf(hash, key)
    }

    /** heap_find, from the root or from the first child of a node on the hash's path. */
    method HeapFind(key: nat, start: nat, ghost parent: nat) returns (id: int, next: nat)
      requires Tree(nodes)
      requires start != 0 ==>
        parent < NODE_LIMIT && start == 2 * parent + 1 < NODE_LIMIT && Covers(Range(parent), Hash(key))
      ensures var c := if start == 0 then 0 else ChildFor(parent, Hash(key));
        if Visible(nodes, c) then id == c && next == 2 * c + 1 && Covers(Range(c), Hash(key))
        else id == -1 && next == start
    {
      hide Tree, Range;
      var hashed := Hash(key);
      ghost var c := if start == 0 then 0 else ChildFor(parent, hashed);
      RootRange();
      Halves(parent);
      var i := start;
      while i < NODE_LIMIT
        invariant start <= i <= c <= start + 1
        invariant Covers(Range(c), hashed)
        invariant i < c ==> !Covers(Range(i), hashed)
        invariant i == c > start ==> Present(nodes, start)
      {
        TreeAt(nodes, i);
        if start > 0 { TreeAt(nodes, parent); }
        var node := nodes[i];
        if node == EMPTY_NODE {
          break;
        } else if node.min <= hashed <= node.max {
          var firstChild := 2 * i + 1;
          if firstChild >= NODE_LIMIT {
            break;
          }
          return i, firstChild;
        } else {
          i := i + 1;
        }
      }
      return -1, start;
    }

    /** heap_insert: puts the range of a place into the tree, if the place is the next one to fill;
        the ghost argument is that place. It fails for a place that is taken already and has no
        room for children below it. */
    method HeapInsert(min: int, max: int, ghost c: nat) returns (id: int)
      requires |nodes| == NODE_LIMIT && 0 < c < NODE_LIMIT && Node(min, max) == Range(c)
      requires Insertable(nodes, c)
      modifies this`nodes
      ensures old(nodes)[c] == EMPTY_NODE ==> id == c && nodes == old(nodes)[c := Range(c)]
      ensures old(nodes)[c] != EMPTY_NODE ==> id == -1 && nodes == old(nodes)
    {
      hide Insertable, Range, Above;
      RangeNonempty(c);
      if min > max {
        return -1;
      }
      RootAbove(c);
      var i := 0;
      while i < NODE_LIMIT
        invariant nodes == old(nodes)
        invariant Toward(i, c) || (i == 2 * c + 1 && nodes[c] != EMPTY_NODE)
      {
        var node := nodes[i];
        InsertStep(nodes, i, c);
        if node == EMPTY_NODE {
          nodes := nodes[i := Node(min, max)];
          return i;
        } else if node.min <= min && max <= node.max {
          i := 2 * i + 1;
        } else {
          i := i + 1;
        }
      }
      InsertEnd(nodes, i, c);
      return -1;
    }

    /** bucket_split: both children, unless they exist. */
    method BucketSplit(b: nat) returns (ok: bool)
      requires Tree(nodes) && Visible(nodes, b) && (Present(nodes, 2 * b + 1) ==> b >= 127)
      modifies this`nodes
      ensures Tree(nodes)
      ensures old(Present(nodes, 2 * b + 1)) ==> !ok && nodes == old(nodes)
      ensures old(!Present(nodes, 2 * b + 1)) ==>
        ok && nodes == old(nodes)[2 * b + 1 := Range(2 * b + 1)][2 * b + 2 := Range(2 * b + 2)]
    {
      hide Tree, Range, Insertable;
      TreeAt(nodes, b);
      Halves(b);
      var node := nodes[b];
      var mean := node.min + (node.max - node.min) / 2;
      RoomForChild(nodes, b);
      var small := HeapInsert(node.min, mean, 2 * b + 1);
      if small < 0 {
        return false;
      }
      RoomForSecondChild(old(nodes), b);
      var large := HeapInsert(mean + 1, node.max, 2 * b + 2);
      if large < 0 {
        return false;
      }
      SplitTree(old(nodes), b);
      ok := true;
    }

    /** What the files hold is in order; the counts in memory may be behind. */
    ghost predicate Consistent()
      reads this
    {
      Tree(nodes) && Placed(nodes, buckets, nextFree, hash)
    }

    ghost predicate Valid()
      reads this
    {
      Consistent() && Counted(buckets, nextFree)
    }

    /** load: the counts start at zero, whatever the files hold. */
    method Load()
      requires Consistent()
      modifies this`nextFree
      ensures Consistent() && nextFree == seq(NODE_LIMIT, _ => 0)
      ensures Valid() <==> All(buckets) == multiset{}
    {
      hide Tree, Range, Covers, Visible;
      nextFree := seq(NODE_LIMIT, _ => 0);
      PlacedAgain(nodes, buckets, old(nextFree), nextFree, hash);
      AllEmptyIff(buckets);
    }

    /** create: an empty index with a root. */
    method Create() returns (ok: bool)
      requires |nodes| == NODE_LIMIT && |buckets| == |nextFree| == NODE_LIMIT
      requires forall i :: 0 <= i < NODE_LIMIT ==> nodes[i] == EMPTY_NODE && buckets[i] == [] && nextFree[i] == 0
      modifies this`nodes
      ensures ok && Valid() && All(buckets) == multiset{} && nodes == old(nodes)[0 := Node(0, KEY_MAX)]
    {
      var node := nodes[0];
      if node != EMPTY_NODE {
        return false;
      }
      nodes := nodes[0 := Node(0, KEY_MAX)];
      AllEmpty(buckets);
      assert forall i :: 0 <= i < NODE_LIMIT ==> Grown(nodes, i);
      ok := true;
    }

    /** bucket_append: writes to the slot that is counted as the next free one. */
    method BucketAppend(b: nat, pair: Pair) returns (ok: bool)
      requires |buckets| == |nextFree| == NODE_LIMIT && b < NODE_LIMIT && nextFree[b] <= |buckets[b]|
      modifies this`buckets, this`nextFree
      ensures ok <==> old(nextFree[b]) < 128
      ensures ok ==> buckets == old(buckets)[b := Written(old(buckets[b]), old(nextFree[b]), pair)]
      ensures ok ==> nextFree == old(nextFree)[b := old(nextFree[b]) + 1]
      ensures !ok ==> buckets == old(buckets) && nextFree == old(nextFree)
    {
      if nextFree[b] >= BUCKET_SIZE {
        return false;
      }
      buckets := buckets[b := Written(buckets[b], nextFree[b], pair)];
      nextFree := nextFree[b := nextFree[b] + 1];
      ok := true;
    }

    /** The search loop of insert_item: the deepest visible node for a key, and where the search
        would go on. */
    method FindDeepest(key: nat) returns (id: nat, start: nat)
      requires Tree(nodes)
      ensures id == Deepest(nodes, 0, Hash(key)) && start == 2 * id + 1 < NODE_LIMIT
      ensures Visible(nodes, id) && Covers(Range(id), Hash(key)) && !Visible(nodes, ChildFor(id, Hash(key)))
    {
      hide Tree, Range, Covers, ChildFor, Deepest;
      ghost var h := Hash(key);
      TreeAt(nodes, 0);
      var found, next := HeapFind(key, 0, 0);
      id, start := 0, 1;
      while found >= 0
        invariant id < NODE_LIMIT && start == next == 2 * id + 1 < NODE_LIMIT && Visible(nodes, id)
          && Covers(Range(id), h)
        invariant Deepest(nodes, 0, h) == Deepest(nodes, id, h)
        invariant found < 0 ==> !Visible(nodes, ChildFor(id, h))
        decreases NODE_LIMIT - id, found
      {
        DeepestStep(nodes, id, h);
        found, next := HeapFind(key, start, id);
        if found >= 0 {
          id, start := found, next;
        }
      }
      DeepestStep(nodes, id, h);
    }

    /** insert_item. It writes one pair into the deepest visible node on the key's path, or changes
        no pair; it fails exactly if that node counts as full and is at the bottom. Exactly one pair
        is added if the bucket is counted correctly, and otherwise one is overwritten. */
    method InsertItem(key: nat, value: nat) returns (ok: bool)
      requires Consistent()
      modifies this`nodes, this`buckets, this`nextFree
      ensures Consistent() && (old(Valid()) ==> Valid())
      ensures ok <==> old(var d := Deepest(nodes, 0, Hash(key)); d < 127 || nextFree[d] < BUCKET_SIZE)
      ensures !ok ==> buckets == old(buckets) && nextFree == old(nextFree)
      ensures ok ==> var b := Deepest(nodes, 0, Hash(key));
        && b < NODE_LIMIT && old(nextFree[b] <= |buckets[b]|) && old(nextFree[b]) < BUCKET_SIZE
        && buckets == old(buckets)[b := Written(old(buckets[b]), old(nextFree[b]), Pair(key, value))]
        && nextFree == old(nextFree)[b := old(nextFree[b]) + 1]
        && (All(buckets) == old(All(buckets)) + multiset{Pair(key, value)} <==> old(nextFree[b] == |buckets[b]|))
        && (old(nextFree[b] < |buckets[b]|) ==>
             All(buckets) + multiset{old(buckets[b][nextFree[b]])} == old(All(buckets)) + multiset{Pair(key, value)})
      ensures old(nextFree[Deepest(nodes, 0, Hash(key))]) < BUCKET_SIZE ==> nodes == old(nodes)
      ensures ok && old(nextFree[Deepest(nodes, 0, Hash(key))]) >= BUCKET_SIZE ==>
        Deepest(nodes, 0, Hash(key)) == ChildFor(old(Deepest(nodes, 0, Hash(key))), Hash(key))
    {
      hide Tree, Range, Covers, ChildFor, Deepest, All, Placed, BucketOk, Visible;
      ghost var h, nodes0, buckets0 := Hash(key), nodes, buckets;
      var b, start := FindDeepest(key);
      ghost var d := b;
      PlacedAt(nodes, buckets, nextFree, hash, b);
      if nextFree[b] == BUCKET_SIZE {
        BottomChild(nodes, b, h);
        var split := BucketSplit(b);
        if !split {
          return false;
        }
        SplitVisible(nodes0, b, h);
        PlacedMore(nodes0, nodes, buckets, nextFree, hash);
        var child, next := HeapFind(key, start, d);
        if child < 0 {
          return false;
        }
        b := child;
        PlacedAt(nodes, buckets, nextFree, hash, b);
        NewChildEmpty(nodes0, buckets, nextFree, hash, b);
      }
      ok := BucketAppend(b, Pair(key, value));
      PlacedWrite(nodes, buckets0, old(nextFree), hash, b, Pair(key, value));
      AllWrite(buckets0, b, old(nextFree[b]), Pair(key, value));
    }
  }

  function HashOf(hash: nat -> nat, key: nat): int {
    hash(key) % 65536
  }

  /** A bucket after writing one slot. */
  function Written(bucket: seq<Pair>, slot: nat, pair: Pair): (written: seq<Pair>)
    requires slot <= |bucket|
    ensures slot < |written| && written[slot] == pair
  {
    if slot < |bucket| then bucket[slot := pair] else bucket + [pair]
  }

  /** The pairs of one bucket: no fewer than are counted, and each with a hash in the node's range. */
  ghost predicate BucketOk(nodes: seq<Node>, bucket: seq<Pair>, free: nat, hash: nat -> nat, b: nat) {
    && free <= |bucket| <= BUCKET_SIZE && (bucket != [] ==> Visible(nodes, b))
    && forall k :: 0 <= k < |bucket| ==> Covers(Range(b), HashOf(hash, bucket[k].key))
  }

  /** All pairs lie in visible nodes whose range holds the hash of their key. */
  ghost predicate Placed(nodes: seq<Node>, buckets: seq<seq<Pair>>, nextFree: seq<nat>, hash: nat -> nat) {
    && |nodes| == |buckets| == |nextFree| == NODE_LIMIT
    && forall b :: 0 <= b < NODE_LIMIT ==> BucketOk(nodes, buckets[b], nextFree[b], hash, b)
  }

  ghost predicate Counted(buckets: seq<seq<Pair>>, nextFree: seq<nat>) {
    |buckets| == |nextFree| && forall b :: 0 <= b < |buckets| ==> nextFree[b] == |buckets[b]|
  }

  lemma PlacedAt(nodes: seq<Node>, buckets: seq<seq<Pair>>, nextFree: seq<nat>, hash: nat -> nat, b: nat)
    requires Placed(nodes, buckets, nextFree, hash) && b < NODE_LIMIT
    ensures |nodes| == |buckets| == |nextFree| == NODE_LIMIT
    ensures BucketOk(nodes, buckets[b], nextFree[b], hash, b)
    ensures nextFree[b] <= |buckets[b]| <= BUCKET_SIZE
  {
  }

  /** Other counts that are not ahead of the contents. */
  lemma PlacedAgain(nodes: seq<Node>, buckets: seq<seq<Pair>>, nextFree: seq<nat>, nextFree': seq<nat>,
                    hash: nat -> nat)
    requires Placed(nodes, buckets, nextFree, hash) && |nextFree'| == NODE_LIMIT
    requires forall b :: 0 <= b < NODE_LIMIT && nextFree'[b] != nextFree[b] ==> nextFree'[b] <= |buckets[b]|
    ensures Placed(nodes, buckets, nextFree', hash)
  {
    hide Range, Covers, Visible, HashOf;
    forall b | 0 <= b < NODE_LIMIT ensures BucketOk(nodes, buckets[b], nextFree'[b], hash, b) {
      assert BucketOk(nodes, buckets[b], nextFree[b], hash, b);
    }
  }

  lemma PlacedMore(nodes: seq<Node>, nodes': seq<Node>, buckets: seq<seq<Pair>>, nextFree: seq<nat>, hash: nat -> nat)
    requires Placed(nodes, buckets, nextFree, hash) && |nodes'| == NODE_LIMIT
    requires forall i: nat :: Visible(nodes, i) ==> Visible(nodes', i)
    ensures Placed(nodes', buckets, nextFree, hash)
  {
    hide Range, Covers, Visible;
    forall b | 0 <= b < NODE_LIMIT ensures BucketOk(nodes', buckets[b], nextFree[b], hash, b) {
      assert BucketOk(nodes, buckets[b], nextFree[b], hash, b);
    }
  }

  lemma PlacedWrite(nodes: seq<Node>, buckets: seq<seq<Pair>>, nextFree: seq<nat>, hash: nat -> nat, b: nat, pair: Pair)
    requires Placed(nodes, buckets, nextFree, hash) && b < NODE_LIMIT && nextFree[b] < BUCKET_SIZE
      && nextFree[b] <= |buckets[b]|
    requires Visible(nodes, b) && Covers(Range(b), HashOf(hash, pair.key))
    ensures Placed(nodes, buckets[b := Written(buckets[b], nextFree[b], pair)], nextFree[b := nextFree[b] + 1], hash)
  {
    hide Range, Covers, Visible, HashOf;
    var buckets', nextFree' := buckets[b := Written(buckets[b], nextFree[b], pair)], nextFree[b := nextFree[b] + 1];
    forall i | 0 <= i < NODE_LIMIT ensures BucketOk(nodes, buckets'[i], nextFree'[i], hash, i) {
      assert BucketOk(nodes, buckets[i], nextFree[i], hash, i);
    }
  }

  lemma NewChildEmpty(nodes0: seq<Node>, buckets: seq<seq<Pair>>, nextFree: seq<nat>, hash: nat -> nat, c: nat)
    requires Placed(nodes0, buckets, nextFree, hash) && c < NODE_LIMIT && !Present(nodes0, c)
    ensures nextFree[c] == |buckets[c]| == 0
  {
    assert BucketOk(nodes0, buckets[c], nextFree[c], hash, c);
  }

  /** All stored pairs. */
  function All(buckets: seq<seq<Pair>>): multiset<Pair> {
    if buckets == [] then multiset{} else All(buckets[..|buckets| - 1]) + multiset(buckets[|buckets| - 1])
  }

  lemma {:induction false} AllUpdate(buckets: seq<seq<Pair>>, b: nat, bucket: seq<Pair>)
    requires b < |buckets|
    ensures All(buckets[b := bucket]) + multiset(buckets[b]) == All(buckets) + multiset(bucket)
    decreases |buckets|
  {
    var last := |buckets| - 1;
    var buckets' := buckets[b := bucket];
    if b == last {
      assert buckets'[..last] == buckets[..last];
    } else {
      assert buckets'[..last] == buckets[..last][b := bucket];
      AllUpdate(buckets[..last], b, bucket);
      assert buckets'[last] == buckets[last];
      assert All(buckets[..last]) + multiset(bucket) + multiset(buckets[last]) == All(buckets) + multiset(bucket);
    }
  }

  /** Writing behind the pairs of a bucket adds exactly one pair; writing at one of them replaces it. */
  lemma AllWrite(buckets: seq<seq<Pair>>, b: nat, slot: nat, pair: Pair)
    requires b < |buckets| && slot <= |buckets[b]|
    ensures var buckets' := buckets[b := Written(buckets[b], slot, pair)];
      && (slot == |buckets[b]| <==> All(buckets') == All(buckets) + multiset{pair})
      && (slot < |buckets[b]| ==> All(buckets') + multiset{buckets[b][slot]} == All(buckets) + multiset{pair})
  {
    hide All;
    var bucket, bucket' := buckets[b], Written(buckets[b], slot, pair);
    AllUpdate(buckets, b, bucket');
    if slot < |bucket| {
      Exchange(All(buckets[b := bucket']), All(buckets), multiset(bucket), multiset(bucket'), bucket[slot], pair);
    } else {
      Cancel(All(buckets[b := bucket']), All(buckets) + multiset{pair}, multiset(bucket));
    }
  }

  lemma Exchange(after: multiset<Pair>, before: multiset<Pair>, m: multiset<Pair>, m': multiset<Pair>, gone: Pair,
                 pair: Pair)
    requires gone in m && m' == m - multiset{gone} + multiset{pair} && after + m == before + m'
    ensures after + multiset{gone} == before + multiset{pair}
    ensures after != before + multiset{pair}
  {
    var a, b := after + multiset{gone}, before + multiset{pair};
    forall x ensures a[x] == b[x] {
      assert (after + m)[x] == (before + m')[x];
    }
    assert |a| == |after| + 1;
  }

  lemma Cancel(a: multiset<Pair>, b: multiset<Pair>, common: multiset<Pair>)
    requires a + common == b + common
    ensures a == b
  {
    forall x | x in a || x in b ensures a[x] == b[x] {
      assert (a + common)[x] == (b + common)[x];
    }
  }

  lemma {:induction false} AllEmptyIff(buckets: seq<seq<Pair>>)
    ensures All(buckets) == multiset{} <==> forall i :: 0 <= i < |buckets| ==> |buckets[i]| == 0
    decreases |buckets|
  {
    if buckets != [] {
      var last := |buckets| - 1;
      AllEmptyIff(buckets[..last]);
      assert |All(buckets)| == |All(buckets[..last])| + |buckets[last]|;
    }
  }

  lemma {:induction false} AllEmpty(buckets: seq<seq<Pair>>)
    requires forall i :: 0 <= i < |buckets| ==> buckets[i] == []
    ensures All(buckets) == multiset{}
    decreases |buckets|
  {
    if buckets != [] { AllEmpty(buckets[..|buckets| - 1]); }
  }

  /** The deepest visible node for a hash, from a node on its path. */
  function Deepest(nodes: seq<Node>, i: nat, h: int): (d: nat)
    requires |nodes| == NODE_LIMIT
    ensures i < NODE_LIMIT ==> i <= d < NODE_LIMIT
    decreases NODE_LIMIT - i
  {
    if i < NODE_LIMIT && Visible(nodes, ChildFor(i, h)) then Deepest(nodes, ChildFor(i, h), h) else i
  }

  lemma DeepestStep(nodes: seq<Node>, i: nat, h: int)
    requires |nodes| == NODE_LIMIT && i < NODE_LIMIT
    ensures Deepest(nodes, i, h) == if Visible(nodes, ChildFor(i, h)) then Deepest(nodes, ChildFor(i, h), h) else i
    ensures ChildFor(i, h) == 2 * i + 1 || ChildFor(i, h) == 2 * i + 2
  {
  }

  lemma BottomChild(nodes: seq<Node>, b: nat, h: int)
    requires Tree(nodes) && b < NODE_LIMIT && !Visible(nodes, ChildFor(b, h))
    ensures Present(nodes, 2 * b + 1) ==> b >= 127
  {
    TreeAt(nodes, b);
  }

  /** After a split, the path goes one step further, unless the new children are at the bottom. */
  lemma SplitVisible(nodes: seq<Node>, b: nat, h: int)
    requires Tree(nodes) && Visible(nodes, b) && Deepest(nodes, 0, h) == b && !Present(nodes, 2 * b + 1)
    ensures var nodes' := nodes[2 * b + 1 := Range(2 * b + 1)][2 * b + 2 := Range(2 * b + 2)];
      && (forall i: nat :: Visible(nodes, i) ==> Visible(nodes', i))
      && (Visible(nodes', ChildFor(b, h)) <==> b < 127)
      && (b < 127 ==> Deepest(nodes', 0, h) == ChildFor(b, h))
      && !Present(nodes, ChildFor(b, h))
  {
    hide Tree, Range, ChildFor, Deepest;
    TreeAt(nodes, 0);
    var nodes' := nodes[2 * b + 1 := Range(2 * b + 1)][2 * b + 2 := Range(2 * b + 2)];
    var c := ChildFor(b, h);
    DeepestStep(nodes, b, h);
    RangeOk(2 * b + 1);
    RangeOk(2 * b + 2);
    TreeAt(nodes, b);
    if b < 127 {
      TreeAt(nodes, 2 * c + 1);
      TreeAt(nodes, 2 * c + 2);
      DeepestStep(nodes', c, h);
      DeepestSplit(nodes, nodes', 0, b, h);
    }
  }

  lemma {:induction false} DeepestSplit(nodes: seq<Node>, nodes': seq<Node>, i: nat, d: nat, h: int)
    requires |nodes| == |nodes'| == NODE_LIMIT && i < NODE_LIMIT && Deepest(nodes, i, h) == d < NODE_LIMIT
    requires forall j: nat :: Visible(nodes, j) ==> Visible(nodes', j)
    requires var c := ChildFor(d, h); c < NODE_LIMIT && Visible(nodes', c) && !Visible(nodes', ChildFor(c, h))
    ensures Deepest(nodes', i, h) == ChildFor(d, h)
    decreases NODE_LIMIT - i
  {
    hide Visible, ChildFor, Deepest;
    DeepestStep(nodes, i, h);
    DeepestStep(nodes', i, h);
    if Visible(nodes, ChildFor(i, h)) {
      VisibleBound(nodes, ChildFor(i, h));
      DeepestSplit(nodes, nodes', ChildFor(i, h), d, h);
    } else {
      DeepestStep(nodes', ChildFor(d, h), h);
    }
  }

  lemma VisibleBound(nodes: seq<Node>, i: nat)
    requires Visible(nodes, i)
    ensures 2 * i + 1 < NODE_LIMIT
  {
  }

  /** The way that heap_insert takes to a place: nodes above it and their left siblings. */
  predicate Toward(i: nat, c: nat) {
    Above(i, c) || (i % 2 == 1 && Above(i + 1, c))
  }

  /** All nodes on the way to a place exist, and it is empty or at the bottom. */
  ghost predicate Insertable(nodes: seq<Node>, c: nat) {
    && |nodes| == NODE_LIMIT && 0 < c < NODE_LIMIT
    && (forall i :: 0 <= i < c && Toward(i, c) ==> Present(nodes, i) && nodes[i] == Range(i))
    && (Present(nodes, c) ==> nodes[c] == Range(c) && c >= 255)
  }

  lemma InsertStep(nodes: seq<Node>, i: nat, c: nat)
    requires Insertable(nodes, c) && i < NODE_LIMIT
    requires Toward(i, c) || (i == 2 * c + 1 && nodes[c] != EMPTY_NODE)
    ensures i == c || i < c
    ensures nodes[i] == EMPTY_NODE ==> i == c
    ensures nodes[i] != EMPTY_NODE && nodes[i].min <= Range(c).min && Range(c).max <= nodes[i].max ==>
      Toward(2 * i + 1, c) || (2 * i + 1 == 2 * c + 1 && nodes[c] != EMPTY_NODE)
    ensures nodes[i] != EMPTY_NODE && !(nodes[i].min <= Range(c).min && Range(c).max <= nodes[i].max) ==>
      Toward(i + 1, c)
  {
    hide Range, Above;
    if Above(i, c) {
      AboveFacts(i, c);
      AboveCovers(i, c);
    } else if Toward(i, c) {
      AboveFacts(i + 1, c);
      AboveCovers(i + 1, c);
      SiblingApart(i, c);
    }
  }

  /** A left sibling does not hold the range of a place below the right one. */
  lemma SiblingApart(i: nat, c: nat)
    requires i % 2 == 1 && i < NODE_LIMIT && c < 2 * NODE_LIMIT && Range(i + 1).min <= Range(c).min
    ensures Range(c).min > Range(i).max
  {
    Halves((i - 1) / 2);
  }

  lemma InsertEnd(nodes: seq<Node>, i: nat, c: nat)
    requires Insertable(nodes, c) && i >= NODE_LIMIT
    requires Toward(i, c) || (i == 2 * c + 1 && nodes[c] != EMPTY_NODE)
    ensures nodes[c] != EMPTY_NODE
  {
    hide Above;
    if Above(i, c) { AboveFacts(i, c); } else if Toward(i, c) { AboveFacts(i + 1, c); }
  }

  lemma RoomForChild(nodes: seq<Node>, b: nat)
    requires Tree(nodes) && Visible(nodes, b) && (Present(nodes, 2 * b + 1) ==> b >= 127)
    ensures Insertable(nodes, 2 * b + 1)
  {
    hide Tree, Range;
    var c := 2 * b + 1;
    TreeAt(nodes, b);
    TreeAt(nodes, c);
    forall i: nat | i < c && Toward(i, c) ensures Present(nodes, i) && nodes[i] == Range(i) {
      OnTheWay(nodes, i, c, b);
    }
  }

  lemma OnTheWay(nodes: seq<Node>, i: nat, c: nat, b: nat)
    requires Tree(nodes) && Visible(nodes, b) && (c == 2 * b + 1 || c == 2 * b + 2) && i < 2 * b + 1 && Toward(i, c)
    ensures Present(nodes, i) && nodes[i] == Range(i)
  {
    hide Tree, Range;
    assert (c - 1) / 2 == b;
    TreeAt(nodes, i);
    if Above(i, c) {
      AbovePresent(nodes, i, b);
    } else {
      AbovePresent(nodes, i + 1, b);
      TreeAt(nodes, (i - 1) / 2);
    }
  }

  lemma RoomForSecondChild(nodes: seq<Node>, b: nat)
    requires Tree(nodes) && Visible(nodes, b) && !Present(nodes, 2 * b + 1)
    ensures Insertable(nodes[2 * b + 1 := Range(2 * b + 1)], 2 * b + 2)
  {
    hide Tree, Range;
    var c := 2 * b + 2;
    TreeAt(nodes, b);
    RangeOk(2 * b + 1);
    var nodes' := nodes[2 * b + 1 := Range(2 * b + 1)];
    forall i: nat | i < c && Toward(i, c) ensures Present(nodes', i) && nodes'[i] == Range(i) {
      if i != 2 * b + 1 {
        OnTheWay(nodes, i, c, b);
      }
    }
  }

  /** The tree invariant survives a split. */
  lemma SplitTree(nodes: seq<Node>, b: nat)
    requires Tree(nodes) && Visible(nodes, b) && !Present(nodes, 2 * b + 1)
    ensures Tree(nodes[2 * b + 1 := Range(2 * b + 1)][2 * b + 2 := Range(2 * b + 2)])
  {
    hide Range;
    var nodes' := nodes[2 * b + 1 := Range(2 * b + 1)][2 * b + 2 := Range(2 * b + 2)];
    RangeOk(2 * b + 1);
    RangeOk(2 * b + 2);
    forall i | 0 <= i < NODE_LIMIT ensures Grown(nodes', i) {
      TreeAt(nodes, i);
      TreeAt(nodes, b);
    }
  }

  lemma RootRange()
    ensures Range(0) == Node(0, KEY_MAX)
  {
  }

  // ----- the nodes that a search visits -----

  lemma PathStep(nodes: seq<Node>, i: nat, h: int)
    requires i < NODE_LIMIT && Visible(nodes, i)
    ensures Path(nodes, i, h) == [i] + Path(nodes, ChildFor(i, h), h)
  {
  }

  lemma {:induction false} PathSound(nodes: seq<Node>, p: nat, h: int, i: nat)
    requires |nodes| == NODE_LIMIT && Covers(Range(p), h) && i in Path(nodes, p, h)
    ensures p <= i && Visible(nodes, i) && Covers(Range(i), h)
    decreases NODE_LIMIT - p
  {
    hide Range, ChildFor, Covers;
    if i != p {
      ChildCovers(p, h);
      PathSound(nodes, ChildFor(p, h), h, i);
    }
  }

  lemma ChildCovers(p: nat, h: int)
    requires Covers(Range(p), h)
    ensures ChildFor(p, h) > p && Covers(Range(ChildFor(p, h)), h)
  {
    Halves(p);
  }

  lemma {:induction false} PathComplete(nodes: seq<Node>, p: nat, h: int, i: nat)
    requires Tree(nodes) && Above(p, i) && Visible(nodes, i) && Covers(Range(i), h)
    ensures i in Path(nodes, p, h)
    decreases i - p
  {
    hide Tree, Range, Path, Above;
    AboveFacts(p, i);
    AbovePresent(nodes, p, i);
    TreeAt(nodes, 0);
    PathStep(nodes, p, h);
    if p != i {
      var c := if Above(2 * p + 1, i) then 2 * p + 1 else 2 * p + 2;
      AboveFacts(c, i);
      AboveCovers(c, i);
      Halves(p);
      PathComplete(nodes, c, h, i);
    }
  }

  /** Repeated heap_find visits exactly the nodes above the bottom level whose range holds the hash. */
  lemma PathExact(nodes: seq<Node>, h: int, i: nat)
    requires Tree(nodes) && 0 <= h <= KEY_MAX
    ensures i in Path(nodes, 0, h) <==> Visible(nodes, i) && Covers(Range(i), h)
  {
    hide Tree, Range, Path;
    TreeAt(nodes, 0);
    RootRange();
    if i in Path(nodes, 0, h) { PathSound(nodes, 0, h, i); }
    if Visible(nodes, i) && Covers(Range(i), h) {
      RootAbove(i);
      PathComplete(nodes, 0, h, i);
    }
  }

  /** The path goes strictly downwards and ends at the deepest node. */
  lemma {:induction false} PathIncreases(nodes: seq<Node>, p: nat, h: int)
    requires |nodes| == NODE_LIMIT && p < NODE_LIMIT && Visible(nodes, p) && Covers(Range(p), h)
    ensures var path := Path(nodes, p, h);
      && path != [] && path[|path| - 1] == Deepest(nodes, p, h)
      && forall i, j :: 0 <= i < j < |path| ==> path[i] < path[j]
    decreases NODE_LIMIT - p
  {
    hide Range, Path, ChildFor, Deepest, Covers;
    PathStep(nodes, p, h);
    DeepestStep(nodes, p, h);
    ChildCovers(p, h);
    var c := ChildFor(p, h);
    if Visible(nodes, c) {
      PathIncreases(nodes, c, h);
      var path, rest := Path(nodes, p, h), Path(nodes, c, h);
      forall i, j | 0 <= i < j < |path| ensures path[i] < path[j] {
        assert path[j] == rest[j - 1] && rest[j - 1] in rest;
        PathSound(nodes, c, h, path[j]);
        assert i > 0 ==> path[i] == rest[i - 1];
      }
    } else {
      NoPath(nodes, c, h);
    }
  }

  lemma NoPath(nodes: seq<Node>, c: nat, h: int)
    requires !Visible(nodes, c)
    ensures Path(nodes, c, h) == []
  {
  }
}
