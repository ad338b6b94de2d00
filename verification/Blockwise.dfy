/** Block-wise transfer of the discovery text (section 2.4 of RFC 7959): the server's Block2 logic,
    and the client's loop over a channel that loses nothing. */
module Blockwise {
  import opened Basics
  import opened CoapWire
  import opened WellKnownCore

  const MAX_ATTEMPTS: nat := 4

  /** COAP_MAX_BLOCK_SIZE: the power of two that the configured chunk size is rounded down to. */
  function MaxBlockSize(chunk: nat): (size: nat)
    ensures BlockSize(size)
  {
    if chunk < 32 then 16 else if chunk < 64 then 32 else if chunk < 128 then 64 else if chunk < 256 then 128
    else if chunk < 512 then 256 else if chunk < 1024 then 512 else if chunk < 2048 then 1024 else 2048
  }

  /** coap_set_header_block2: the option as it will be sent, or nothing if a value is refused. */
  function SetBlock2(num: nat, more: bool, size: nat): (b: Option<Block>)
    ensures b.Some? ==> b.value.num == num <= 0xF_FFFF && b.value.more == more && b.value.size == size
  {
    if size < 16 || size > 2048 || num > 0xF_FFFF then None else Some(Block(num, more, size, 0))
  }

  /** A block option on the wire: serialized by one side and parsed by the other. */
  function Received(b: Option<Block>): Option<Block> {
    if b.None? || b.value.num >= TWO_TO_THE_32 || b.value.size >= 0x1_0000 then None
    else Some(ReadBlock(BlockValue(b.value.num, b.value.more, b.value.size)))
  }

  /** The chunk size that a client asks for arrives as the server's block size. */
  lemma ChunkSizeArrives(chunk: nat)
    requires 16 <= chunk < 0x1_0000
    ensures 16 * Pow2(Log2(chunk / 16) % 16 % 8) == MaxBlockSize(chunk) <==> chunk < 4096
  {
    LogOfSixteenths(chunk / 16);
    assert Pow2(4) == 16 && Pow2(5) == 32 && Pow2(6) == 64 && Pow2(7) == 128;
  }

  /** Rounded-down logarithms, by comparison. */
  lemma LogOfSixteenths(v: nat)
    requires 1 <= v < 4096
    ensures Log2(v) == if v < 2 then 0 else if v < 4 then 1 else if v < 8 then 2 else if v < 16 then 3
      else if v < 32 then 4
      else if v < 64 then 5 else if v < 128 then 6 else if v < 256 then 7 else if v < 512 then 8 else if v < 1024 then 9
      else if v < 2048 then 10 else 11
  {
    if v >= 2 {
      LogOfSixteenths(v / 2);
    }
  }

  lemma WireFields(num: nat, more: bool, size: nat)
    requires num <= 0xF_FFFF && 16 <= size <= 2048
    ensures var b := Received(Some(Block(num, more, size, 0)));
      b.Some? && b.value.num == num && b.value.more == more
      && b.value.size == MaxBlockSize(size) && b.value.offset == num * MaxBlockSize(size)
  {
    hide ReadBlock, BlockValue, Log2, Pow2, MaxBlockSize;
    ChunkSizeArrives(size);
    LogBelowEight(size);
    BlockFields(num, more, size, Log2(size / 16) % 16);
    BlockOffset(BlockValue(num, more, size));
    OffsetFits(num, MaxBlockSize(size));
  }

  lemma LogBelowEight(size: nat)
    requires 16 <= size <= 2048
    ensures Log2(size / 16) % 16 < 8
  {
    LogOfSixteenths(size / 16);
  }

  lemma OffsetFits(num: nat, size: nat)
    requires num <= 0xF_FFFF && BlockSize(size)
    ensures num * size % TWO_TO_THE_32 == num * size < 0x8000_0000
  {
  }

  // ----- the server -----

  datatype Response = Response(found: bool, block2: Option<Block>, payload: string)

  /** What the server answers to a request for a block, or for the whole text. */
  function Reply(full: string, chunk: nat, request: Option<Block>): Response {
    var size := if request.Some? then Min(request.value.size, MaxBlockSize(chunk)) else MaxBlockSize(chunk);
    var offset := if request.Some? then request.value.offset else 0;
    var num := if request.Some? then request.value.num else 0;
    var slice := Slice(full, offset, size);
    if slice == "" && full != "" then Response(false, SetBlock2(num, false, size), "BlockOutOfScope")
    else Response(true, SetBlock2(num, |full| > offset + size, size), slice)
  }

  /** A block is out of scope exactly if there is a text and the block starts behind it; the more
      flag is set exactly if characters remain behind what is sent. A block bigger than the server's
      maximum is cut down to it, but keeps its offset. */
  lemma ScopeIff(full: string, chunk: nat, num: nat, size: nat)
    requires 16 <= chunk <= 2048 && num <= 0xF_FFFF && BlockSize(size)
    ensures var r := Reply(full, chunk, Some(Block(num, false, size, num * size)));
      var end := num * size + Min(size, MaxBlockSize(chunk));
      && (r.found <==> full == "" || num * size < |full|)
      && (r.found ==> full == full[..Min(|full|, num * size)] + r.payload + full[Min(|full|, end)..])
      && r.block2 == Some(Block(num, |full| > end, Min(size, MaxBlockSize(chunk)), 0))
  {
    hide Slice, MaxBlockSize;
    var cut := Min(size, MaxBlockSize(chunk));
    SliceAt(full, num * size, cut);
    var next := Min(|full|, num * size + cut);
    assert full == full[..next] + full[next..];
  }

  class Server {
    const resources: seq<Resource>
    const chunk: nat                  // REST_MAX_CHUNK_SIZE
    const buffer: array<char>         // the payload part of the transaction's packet

    constructor (resources: seq<Resource>, chunk: nat, buffer: array<char>)
      ensures this.resources == resources && this.chunk == chunk && this.buffer == buffer
    {
      this.resources, this.chunk, this.buffer := resources, chunk, buffer;
    }

    ghost predicate Valid() {
      16 <= chunk <= 2048 && chunk < buffer.Length
    }

    /** A GET request in coap_receive, for a resource that answers block by block. Offsets are
        signed 32-bit numbers. */
    method Get(request: Option<Block>) returns (r: Response)
      requires Valid() && (request.Some? ==> BlockSize(request.value.size) && request.value.offset < 0x8000_0000)
      modifies buffer
      ensures r == Reply(Links(resources), chunk, request)
    {
      hide Links, Slice, MaxBlockSize;
      ghost var full := Links(resources);
      var blockNum, blockSize, blockOffset := 0, MaxBlockSize(chunk), 0;
      if request.Some? {
        blockNum, blockSize, blockOffset := request.value.num, request.value.size, request.value.offset;
        blockSize := Min(blockSize, MaxBlockSize(chunk));
      }
      MaxFits(chunk);
      var writer := new Writer(buffer, blockSize, blockOffset);
      var newOffset := writer.Get(resources);
      var found, payload := true, "";
      if writer.bufpos > 0 {
        payload := buffer[..Min(chunk, writer.bufpos)];
      } else if writer.strpos > 0 {
        found, payload := false, "BlockOutOfScope";
      }
      ghost var slice := Slice(full, blockOffset, blockSize);
      assert writer.bufpos > 0 ==> payload[..Min(|payload|, blockSize)] == slice;
      var block2 := None;
      if request.Some? {
        block2 := SetBlock2(blockNum, newOffset != -1 || |payload| > blockSize, blockSize);
        if |payload| > blockSize {
          payload := payload[..blockSize];
        }
      } else if newOffset != 0 {
        block2 := SetBlock2(0, newOffset != -1, MaxBlockSize(chunk));
        payload := payload[..Min(|payload|, MaxBlockSize(chunk))];
      }
      r := Response(found, block2, payload);
    }
  }

  lemma MaxFits(chunk: nat)
    requires 16 <= chunk <= 2048
    ensures 16 <= MaxBlockSize(chunk) <= chunk
  {
  }

  // ----- the client -----

  const MAX_BLOCKS: nat := 0x10_0000

  /** The size of the block that answers request num of a client whose blocks have size mine, if the
      server's have size theirs. The first request names no size. */
  function SizeOf(num: nat, theirs: nat, mine: nat): nat {
    if num == 0 then theirs else Min(mine, theirs)
  }

  /** The text that a client gets, and whether the server reports a block out of scope. */
  datatype Fetched = Fetched(text: string, outOfScope: bool)

  /** What the requests from num on bring: blocks are as long as the smaller size, but placed at
      multiples of the client's size. */
  function Fetch(full: string, theirs: nat, mine: nat, num: nat): Fetched
    decreases MAX_BLOCKS - num
  {
    var offset := num * mine;
    if num >= MAX_BLOCKS then Fetched("", false)
    else if num > 0 && |full| <= offset then Fetched("", true)
    else
      var size := SizeOf(num, theirs, mine);
      var next := if |full| > offset + size then Fetch(full, theirs, mine, num + 1) else Fetched("", false);
      Fetched(Slice(full, offset, size) + next.text, next.outOfScope)
  }

  lemma FetchStep(full: string, theirs: nat, mine: nat, num: nat)
    ensures Fetch(full, theirs, mine, num) ==
      var offset := num * mine;
      if num >= MAX_BLOCKS then Fetched("", false)
      else if num > 0 && |full| <= offset then Fetched("", true)
      else
        var size := SizeOf(num, theirs, mine);
        var next := if |full| > offset + size then Fetch(full, theirs, mine, num + 1) else Fetched("", false);
        Fetched(Slice(full, offset, size) + next.text, next.outOfScope)
  {
    hide Slice, SizeOf;
  }

  /** The reply to the client's request number num. */
  lemma ReplyToBlock(full: string, theirChunk: nat, myChunk: nat, num: nat)
    requires 16 <= theirChunk <= 2048 && 16 <= myChunk <= 2048 && num <= 0xF_FFFF && (num > 0 ==> full != "")
    ensures var request := if num == 0 then None else Received(SetBlock2(num, false, myChunk));
      var theirs, mine := MaxBlockSize(theirChunk), MaxBlockSize(myChunk);
      var size := SizeOf(num, theirs, mine);
      var r := Reply(full, theirChunk, request);
      && (r.found <==> num == 0 || |full| > num * mine)
      && r.block2 == Some(Block(num, |full| > num * mine + size, size, 0))
      && (r.found ==> r.payload == Slice(full, num * mine, size))
  {
    hide MaxBlockSize, Slice, Received;
    var theirs, mine := MaxBlockSize(theirChunk), MaxBlockSize(myChunk);
    if num > 0 {
      WireFields(num, false, myChunk);
    }
    Nothing(mine);
    SliceAt(full, num * mine, SizeOf(num, theirs, mine));
  }

  lemma Nothing(m: nat)
    ensures 0 * m == 0
  {
  }

  lemma SliceAt(full: string, offset: nat, size: nat)
    ensures full[..Min(|full|, offset)] + Slice(full, offset, size) == full[..Min(|full|, offset + size)]
    ensures |full| > offset && size > 0 ==> Slice(full, offset, size) != ""
    ensures |full| <= offset ==> Slice(full, offset, size) == ""
  {
  }

  class Client {
    const server: Server
    const chunk: nat                // the client's own REST_MAX_CHUNK_SIZE
    var request: Option<Block>      // the request's Block2 option
    var blockNum: nat
    var more: bool
    var resBlock: nat
    var blockError: nat

    constructor (server: Server, chunk: nat)
      ensures this.server == server && this.chunk == chunk && request == None
    {
      this.server, this.chunk := server, chunk;
      request, blockNum, more, resBlock, blockError := None, 0, false, 0, 0;
    }

    ghost predicate Valid() {
      server.Valid() && 16 <= chunk <= 2048
    }

    /** What the requests from num on bring for this client and server. */
    ghost function Coming(num: nat): Fetched {
      Fetch(Links(server.resources), MaxBlockSize(server.chunk), MaxBlockSize(chunk), num)
    }

    /** Characters remain behind what request num brings. */
    ghost predicate Remains(num: nat) {
      var theirs, mine := MaxBlockSize(server.chunk), MaxBlockSize(chunk);
      |Links(server.resources)| > num * mine + SizeOf(num, theirs, mine)
    }

    /** Between two exchanges: so many blocks have been asked for, and the server has announced more. */
    ghost predicate Ready()
      reads this
    {
      && Valid() && blockNum <= MAX_BLOCKS
      && (blockNum > 0 ==> more && Remains(blockNum - 1))
      && request == (if blockNum <= 1 then None else SetBlock2(blockNum - 1, false, chunk))
      && (blockError > 0 ==> blockNum == MAX_BLOCKS)
    }

    /** One request and its response; its payload, and whether it was found, if it was the block asked
        for. A number that does not fit the option leaves the request at the block before. */
    method Exchange() returns (payload: string, found: bool)
      requires Ready()
      modifies this, server.buffer
      ensures old(blockNum) < MAX_BLOCKS ==>
        && Coming(old(blockNum)) ==
             (var rest := if more then Coming(blockNum) else Fetched("", false);
              if found then Fetched(payload + rest.text, rest.outOfScope) else Fetched("", true))
        && (more ==> found)
        && blockNum == old(blockNum) + 1 && more == Remains(blockNum - 1) && blockError == old(blockError)
        && request == if blockNum <= 1 then None else SetBlock2(blockNum - 1, false, chunk)
      ensures more ==> Ready()
      ensures old(blockNum) == MAX_BLOCKS ==>
        && payload == "" && found && blockNum == old(blockNum) && more
        && blockError == old(blockError) + 1 && request == old(request)
    {
      hide Links, MaxBlockSize, Received, Fetch, SizeOf, Slice;
      ghost var full, theirs, mine := Links(server.resources), MaxBlockSize(server.chunk), MaxBlockSize(chunk);
      ghost var asked := if blockNum == MAX_BLOCKS then blockNum - 1 else blockNum;
      ghost var size := SizeOf(asked, theirs, mine);
      var response := SendRequest(asked);
      FetchStep(full, theirs, mine, asked);
      SizeFits(asked, server.chunk, chunk);
      WireFields(asked, |full| > asked * mine + size, size);
      var block2 := Received(response.block2);
      if block2.Some? {
        resBlock, more := block2.value.num, block2.value.more;
      }
      payload, found := "", true;
      if resBlock == blockNum {
        payload, found := response.payload, response.found;
        blockNum := blockNum + 1;
      } else {
        blockError := blockError + 1;
      }
    }

    /** The first half of that turn: the request as it can be expressed, and the server's response. */
    method SendRequest(ghost asked: nat) returns (response: Response)
      requires Ready() && asked == if blockNum == MAX_BLOCKS then blockNum - 1 else blockNum
      modifies this`request, server.buffer
      ensures request == if asked == 0 then None else SetBlock2(asked, false, chunk)
      ensures var full, theirs, mine := Links(server.resources), MaxBlockSize(server.chunk), MaxBlockSize(chunk);
        var size := SizeOf(asked, theirs, mine);
        && (response.found <==> asked == 0 || |full| > asked * mine)
        && response.block2 == Some(Block(asked, |full| > asked * mine + size, size, 0))
        && (response.found ==> response.payload == Slice(full, asked * mine, size))
    {
      assert Received(None) == None;
      hide Links, MaxBlockSize, Reply, Received, Slice, SizeOf;
      ghost var full := Links(server.resources);
      if blockNum > 0 {
        var block2 := SetBlock2(blockNum, false, chunk);
        if block2.Some? {
          request := block2;
        }
      }
      ReplyToBlock(full, server.chunk, chunk, asked);
      if asked > 0 { RequestArrives(asked, chunk); }
      response := server.Get(Received(request));
    }

    /** coap_blocking_request: the payloads handed to the callback, one after the other, and whether
        one of the responses reported its block out of scope. */
    method BlockingRequest() returns (received: string, outOfScope: bool)
      requires Valid() && request == None
      modifies this, server.buffer
      ensures Fetched(received, outOfScope) == Coming(0)
      ensures received == Links(server.resources)
              <==> WholeTextArrives(Links(server.resources), MaxBlockSize(server.chunk), MaxBlockSize(chunk))
    {
      hide Links, MaxBlockSize, WholeTextArrives, Coming, Remains;
      blockNum, more, resBlock, blockError := 0, false, 0, 0;
      received, outOfScope := "", false;
      var first := true;
      while first || (more && blockError < MAX_ATTEMPTS)
        invariant Valid() && blockNum <= MAX_BLOCKS && blockError <= MAX_ATTEMPTS
        invariant first ==> Ready() && blockNum == 0 && !outOfScope
        invariant more ==> Ready() && !outOfScope
        invariant Coming(0) ==
          var rest := if first || more then Coming(blockNum) else Fetched("", false);
          Fetched(received + rest.text, outOfScope || rest.outOfScope)
        invariant !first && more && blockError > 0 ==> blockNum == MAX_BLOCKS
        decreases first, MAX_BLOCKS - blockNum, MAX_ATTEMPTS - blockError
      {
        var payload, found := Exchange();
        if found {
          received := received + payload;
        } else {
          outOfScope := true;
        }
        first := false;
      }
      AllCame();
    }

    lemma AllCame()
      ensures Coming(MAX_BLOCKS) == Fetched("", false)
      ensures Coming(0).text == Links(server.resources)
              <==> WholeTextArrives(Links(server.resources), MaxBlockSize(server.chunk), MaxBlockSize(chunk))
    {
      hide Links, MaxBlockSize, Fetch, WholeTextArrives;
      FetchStep(Links(server.resources), MaxBlockSize(server.chunk), MaxBlockSize(chunk), MAX_BLOCKS);
      WholeTextIff(Links(server.resources), server.chunk, chunk);
    }
  }

  lemma SizeFits(num: nat, theirChunk: nat, myChunk: nat)
    requires 16 <= theirChunk <= 2048 && 16 <= myChunk <= 2048
    ensures var size := SizeOf(num, MaxBlockSize(theirChunk), MaxBlockSize(myChunk)); 16 <= size <= 2048
  {
  }

  lemma RequestArrives(num: nat, chunk: nat)
    requires 16 <= chunk <= 2048 && num <= 0xF_FFFF
    ensures var b := Received(SetBlock2(num, false, chunk));
      b.Some? && BlockSize(b.value.size) && b.value.offset < 0x8000_0000
  {
    hide Received, MaxBlockSize;
    WireFields(num, false, chunk);
    OffsetFits(num, MaxBlockSize(chunk));
  }

  // ----- what arrives -----

  /** With blocks no bigger than the server's, the requests from num on bring all the text from their
      offset on, as far as the block numbers reach. */
  lemma {:induction false} SmallerBlocks(full: string, theirs: nat, mine: nat, num: nat)
    requires 0 < mine <= theirs && 0 < num <= MAX_BLOCKS && |full| > num * mine
    ensures Fetch(full, theirs, mine, num) == Fetched(Slice(full, num * mine, (MAX_BLOCKS - num) * mine), false)
    decreases MAX_BLOCKS - num
  {
    hide Fetch, Slice;
    FetchStep(full, theirs, mine, num);
    Nothing(mine);
    if num < MAX_BLOCKS {
      OneMore(num, mine);
      OneMore(MAX_BLOCKS - num - 1, mine);
      SliceSplit(full, num * mine, mine, (MAX_BLOCKS - num - 1) * mine);
      if |full| > num * mine + mine { SmallerBlocks(full, theirs, mine, num + 1); }
    } else {
      SliceSplit(full, num * mine, 0, 0);
    }
  }

  lemma OneMore(num: nat, m: nat)
    ensures (num + 1) * m == num * m + m
  {
  }

  lemma SliceSplit(full: string, offset: nat, a: nat, b: nat)
    ensures Slice(full, offset, a + b)
      == Slice(full, offset, a) + (if |full| > offset + a then Slice(full, offset + a, b) else "")
    ensures Slice(full, offset, 0) == ""
  {
  }

  /** Bigger blocks leave a gap behind every one that is cut down. */
  lemma {:induction false} BiggerBlocks(full: string, theirs: nat, mine: nat, num: nat)
    requires 0 < theirs < mine && 0 < num <= MAX_BLOCKS
    ensures |Fetch(full, theirs, mine, num).text| <= if |full| > num * mine then |full| - num * mine else 0
    decreases MAX_BLOCKS - num
  {
    hide Fetch;
    FetchStep(full, theirs, mine, num);
    OneMore(num, mine);
    if num < MAX_BLOCKS && |full| > num * mine + theirs { BiggerBlocks(full, theirs, mine, num + 1); }
  }

  /** When a client with blocks of size mine gets exactly the text: if it fits the first block; if both
      sides use the same size and the text fits the block numbers; or, with smaller blocks, if the
      text repeats itself so that the part got twice makes up for the part that is out of reach. */
  predicate WholeTextArrives(full: string, theirs: nat, mine: nat) {
    || |full| <= theirs
    || (mine == theirs && |full| <= MAX_BLOCKS * mine)
    || (mine < theirs && |full| == MAX_BLOCKS * mine + theirs - mine && full[theirs..] == full[mine..MAX_BLOCKS * mine])
  }

  lemma FirstBlock(full: string, size: nat, rest: string)
    requires size < |full|
    ensures full[..size] + rest == full <==> rest == full[size..]
  {
    assert full == full[..size] + full[size..];
    assert (full[..size] + rest)[size..] == rest;
  }

  lemma SecondPart(full: string, theirs: nat, mine: nat)
    requires 0 < mine <= theirs < |full|
    ensures Slice(full, mine, (MAX_BLOCKS - 1) * mine) == full[theirs..] <==> WholeTextArrives(full, theirs, mine)
  {
    assert mine + (MAX_BLOCKS - 1) * mine == MAX_BLOCKS * mine;
  }

  lemma WholeTextIff(full: string, theirChunk: nat, myChunk: nat)
    ensures var theirs, mine := MaxBlockSize(theirChunk), MaxBlockSize(myChunk);
      Fetch(full, theirs, mine, 0).text == full <==> WholeTextArrives(full, theirs, mine)
  {
    hide Fetch, MaxBlockSize, Slice;
    var theirs, mine := MaxBlockSize(theirChunk), MaxBlockSize(myChunk);
    FetchStep(full, theirs, mine, 0);
    Nothing(mine);
    SliceAt(full, 0, theirs);
    if |full| > theirs {
      FirstBlock(full, theirs, Fetch(full, theirs, mine, 1).text);
      if mine <= theirs {
        SmallerBlocks(full, theirs, mine, 1);
        SecondPart(full, theirs, mine);
      } else {
        BiggerBlocks(full, theirs, mine, 1);
      }
    }
  }

  /** Nodes that were built for different sizes do not get on: of 100 characters, a client with blocks
      of 64 misses 48 if the server's have 16, and gets 48 twice if it is the other way round. */
  lemma DifferentSizes(full: string)
    requires |full| == 100
    ensures Fetch(full, 16, 64, 0) == Fetched(full[..16] + full[64..80], true)
    ensures Fetch(full, 64, 16, 0) == Fetched(full[..64] + full[16..], false)
  {
    hide Fetch;
    FetchStep(full, 16, 64, 0);
    FetchStep(full, 16, 64, 1);
    FetchStep(full, 16, 64, 2);
    FetchStep(full, 64, 16, 0);
    SmallerBlocks(full, 64, 16, 1);
  }
}
