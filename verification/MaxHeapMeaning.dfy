/** Which keys the places of the bucket tree cover, in closed form. */
module MaxHeapMeaning {
  import opened Basics
  import opened MaxHeap

  /** The j-th place of level d, counted from the left, covers the j-th part of 2^(16 - d) keys; so the
      places of a level divide the keys 0 to 65535 among them, in order. */
  lemma {:induction false} RangeMeaning(i: nat, d: nat, j: nat)
    requires d <= 16 && j < Pow2(d) && i == Pow2(d) - 1 + j
    ensures var w := Pow2(16 - d); Range(i) == Node(j * w, j * w + w - 1)
    decreases d
  {
    hide Range, Mean, Pow2, Depth;
    if d == 0 {
      RootRange();
      PowParts();
      PowStep(0);
    } else {
      var w, base := Pow2(16 - d), j / 2 * (2 * Pow2(16 - d));
      PowStep(d - 1);
      PowStep(16 - d);
      ParentPlace(i, Pow2(d - 1), j);
      RangeMeaning((i - 1) / 2, d - 1, j / 2);
      RangeStep(i, (i - 1) / 2);
      MeanOf(base, w);
      HalfWay(j, w);
    }
  }

  lemma PowStep(d: nat)
    ensures Pow2(0) == 1 && Pow2(d + 1) == 2 * Pow2(d) && Pow2(d) >= 1
  {
  }

  lemma ParentPlace(i: nat, p: nat, j: nat)
    requires p >= 1 && j < 2 * p && i == 2 * p - 1 + j
    ensures i > 0 && (i - 1) / 2 == p - 1 + j / 2 && j / 2 < p && (i % 2 == 1 <==> j % 2 == 0)
  {
  }

  lemma MeanOf(base: nat, w: nat)
    requires w >= 1
    ensures Mean(Node(base, base + 2 * w - 1)) == base + w - 1
  {
  }

  lemma HalfWay(j: nat, w: nat)
    ensures j * w == j / 2 * (2 * w) + (if j % 2 == 0 then 0 else w)
  {
    var h := j / 2;
    Regroup(h, w);
    assert j == 2 * h + j % 2;
  }

  lemma Regroup(h: nat, w: nat)
    ensures h * (2 * w) == 2 * h * w && (2 * h + 1) * w == 2 * h * w + w
  {
  }

  /** Sixteen bits of the random number are the hash. */
  lemma HashMeaning(hash: nat -> nat, key: nat)
    ensures 0 <= HashOf(hash, key) <= 65535 && (hash(key) - HashOf(hash, key)) % 65536 == 0
  {
  }

  /** For instance, the root and the two places below it. */
  lemma FirstRanges()
    ensures Range(0) == Node(0, 65535) && Range(1) == Node(0, 32767) && Range(2) == Node(32768, 65535)
  {
    Halves(0);
  }

  /** A key goes to the left child exactly if it lies in the lower half. */
  lemma ChildMeaning(i: nat, h: int)
    requires i < 255
    ensures ChildFor(i, h) == if h <= Range(2 * i + 1).max then 2 * i + 1 else 2 * i + 2
    ensures Range(2 * i + 2).min == Range(2 * i + 1).max + 1
    ensures Range(2 * i + 1).min == Range(i).min && Range(2 * i + 2).max == Range(i).max
  {
    Halves(i);
  }
}
