/** Block sizes and what a client with bigger blocks than the server's gets, in closed form. */
module BlockwiseMeaning {
  import opened Basics
  import opened CoapWire
  import opened WellKnownCore
  import opened Blockwise

  /** The block size for a chunk size: the greatest of the eight sizes that is not above it, or 16. */
  lemma MaxBlockSizeMeaning(chunk: nat, size: nat)
    requires size == 16 || size == 32 || size == 64 || size == 128
             || size == 256 || size == 512 || size == 1024 || size == 2048
    ensures var m := MaxBlockSize(chunk);
      && (m == 16 || m == 32 || m == 64 || m == 128 || m == 256 || m == 512 || m == 1024 || m == 2048)
      && (16 <= chunk ==> m <= chunk) && (size <= chunk ==> size <= m)
      && (chunk < 16 ==> m == 16)
  {
  }

  /** A block option is refused exactly if its size is not within 16 and 2048, or its number has more than
      twenty bits. */
  lemma SetBlock2Meaning(num: nat, more: bool, size: nat)
    ensures SetBlock2(num, more, size).None? <==> size < 16 || size > 2048 || num > 1_048_575
    ensures SetBlock2(num, more, size).Some? ==>
      var b := SetBlock2(num, more, size).value; b.num == num && b.more == more && b.size == size
  {
  }

  /** The reply to a request without a block option: the start of the text, as block 0 of the server's
      own size, with more to come exactly if characters remain. */
  lemma FirstReply(full: string, chunk: nat)
    requires 16 <= chunk <= 2048
    ensures var r, m := Reply(full, chunk, None), MaxBlockSize(chunk);
      && r.found && r.payload == (if |full| <= m then full else full[..m])
      && r.block2 == Some(Block(0, |full| > m, m, 0))
  {
    hide MaxBlockSize;
    MaxFits(chunk);
    assert full[..|full|] == full;
  }

  /** With blocks bigger than the server's, character p of what the requests from num on bring is the
      one at the start of its block plus its place in it. */
  lemma {:induction false} BiggerBlocksText(full: string, theirs: nat, mine: nat, num: nat, p: nat)
    requires 0 < theirs < mine && 0 < num <= MAX_BLOCKS
    requires p < |Fetch(full, theirs, mine, num).text|
    ensures var at := (num + p / theirs) * mine + p % theirs;
      at < |full| && Fetch(full, theirs, mine, num).text[p] == full[at]
    decreases MAX_BLOCKS - num
  {
    hide Fetch, Slice;
    FetchStep(full, theirs, mine, num);
    SliceMeaning(full, num * mine, theirs, p);
    if p < theirs {
      SmallPlace(p, theirs);
    } else {
      BiggerBlocksText(full, theirs, mine, num + 1, p - theirs);
      NextPlace(p, theirs);
    }
  }

  lemma SliceMeaning(full: string, offset: nat, size: nat, k: nat)
    ensures var s := Slice(full, offset, size);
      && (k < size && offset + k < |full| ==> k < |s| && s[k] == full[offset + k])
      && (|full| > offset + size ==> |s| == size)
      && (|s| <= size && (offset < |full| ==> offset + |s| <= |full|) && (offset >= |full| ==> s == ""))
  {
  }

  lemma SmallPlace(p: nat, n: nat)
    requires p < n
    ensures p / n == 0 && p % n == p
  {
  }

  lemma NextPlace(p: nat, n: nat)
    requires n > 0 && p >= n
    ensures p / n == (p - n) / n + 1 && p % n == (p - n) % n
  {
    var q, r := (p - n) / n, (p - n) % n;
    assert p == n * (q + 1) + r;
    Unique(p, n, q + 1, r);
  }

  lemma Unique(p: nat, n: nat, q: nat, r: nat)
    requires n > 0 && p == n * q + r && r < n
    ensures p / n == q && p % n == r
  {
    var q', r' := p / n, p % n;
    assert n * q' + r' == n * q + r;
    Further(n, q', q);
    Further(n, q, q');
  }

  lemma Further(n: nat, a: nat, b: nat)
    ensures a > b ==> n * a >= n * b + n
  {
    if a > b { Distributed(n, b, a - b - 1); }
  }

  lemma Distributed(n: nat, b: nat, d: nat)
    ensures n * (b + 1 + d) == n * b + n + n * d && n * d >= 0
  {
  }
}
