# Models of the sensor node software

Dafny models of twelve parts of this Contiki-based firmware and its host tools, with proofs. Each
module models one component in the form of its source: loops over buffers, objects whose methods
update their fields, and protocol steps. A method is proved against a specification function, and
the properties are lemmas about that function. Where the code does less than it promises, the lemma
says exactly when it keeps the promise, and a second one gives an input for which it does not.

| module | models |
|---|---|
| `CoapWire`, `CoapText`, `CoapMessage`, `CoapCodec`, `CoapOptions` | Erbium's CoAP codec (RFC 7252): option headers, integers and block options, multi-part text options, whole messages, and the serializer and the in-place parser on byte buffers |
| `WellKnownCore`, `Blockwise` | the discovery resource (RFC 6690) as a window over a text that never exists as a whole, and block-wise transfer (RFC 7959) from server to client |
| `Transactions` | retransmission and the pool of open exchanges |
| `Lvm`, `WhereCompiler`, `WhereParser` | Antelope's virtual machine for predicates and the compiler of WHERE clauses |
| `Ranges`, `InlineIndex`, `Select`, `QueryPipeline`, `Join` | range analysis of compiled predicates, the binary-search index, resumable selection and join, and the whole way of a query |
| `MaxHeap`, `MaxHeapSearch` | the bucket tree index: insertion and lookup |
| `Crc`, `Ota` | the CRC of firmware images, and backup, restore and verification on flash that may fail |
| `Checksum` | Internet checksums (RFC 1071, RFC 1624) in the serial tunnel |
| `Codeprop` | code propagation over a network that loses, repeats and reorders packets |
| `Slip` | SLIP framing (RFC 1055) |
| `BlockwiseMeaning`, `LvmMeaning`, `ClauseMeaning`, `RangesMeaning`, `QueryMeaning`, `MaxHeapMeaning`, `TransactionMeaning`, `OtaMeaning`, `ChecksumMeaning`, `CodepropMeaning`, `SlipMeaning`, `LinkMeaning` | what the specification functions of these parts mean, in numbers, bytes and field values of their own |
| `Basics` | bytes, optional values, powers of two |

`dafny verify dfyconfig.toml` checks all of it.

## Where code and documentation disagree

- The MaxHeap design comment says that a split copies the pairs into the new buckets and deletes the
  old one (apps/antelope/index-maxheap.c:42-46). The code leaves them where they are; lookups
  therefore visit the whole path (`MaxHeap`, `MaxHeapSearch`).
- `select_index` is meant to take the index with the smallest range. It never lowers the smallest
  size it has seen, so it takes the last usable one (`QueryPipeline.SelectIndex`, `QueryPipeline.SelectBigger`).
- A query over an index ends in an error if the iterator has counted no row for its last key. With the
  MaxHeap index, which counts anew for every key of a range, that can happen after rows were returned,
  and an aggregate is then lost (`QueryPipeline.RunThroughMaxHeap`).
- A WHERE expression that starts with a parenthesis consumes its closing parenthesis twice: the inner
  expression already takes it. Such an expression is accepted exactly if a second closing parenthesis
  follows (`WhereParser.Parser.ParseExpr`). Parentheses behind an operator work.
- If what follows a connective is neither in parentheses nor a comparison, the WHERE parser returns 0.
  Its callers take that for success, because only numbers from 3 on are errors
  (`WhereParser.ZeroIff`, `WhereParser.CutOffComparison`).
- An operand that cannot be parsed has been consumed when `parse_expr` tries again. Any one token between
  an operator and its operand is therefore swallowed, unless it is an operand (`WhereParser.SwallowedToken`).
- Every node rounds its own chunk size down to its block size, and the server cuts a bigger block down
  without moving it. Client and server with different sizes therefore exchange a text with gaps, or with
  a part repeated (`Blockwise.DifferentSizes`, `Blockwise.WholeTextIff`).
- A removal selects with inverse logic, but the ranges are derived as for the plain condition; the
  index then leaves out rows that should be kept, unless its search yields all of them
  (`QueryPipeline.InverseLogicIff`).
- A lookup in the MaxHeap index carries the slot where it left a bucket over into the next one and skips
  what lies before it (`MaxHeapSearch.LookupCompleteIff`). Nothing tells the bucket cache about an
  insertion (`MaxHeapSearch.CacheSurvivesIff`), and an insertion into a loaded index overwrites pairs
  until a lookup has counted the bucket (`MaxHeap.Heap.InsertItem`).
- The test for the don't-fragment flag in `write_to_serial` reads the field in host order, so on a
  little-endian host it tests bit 6 of the fragment offset (`Checksum.RewriteId`).
- `verify_ota_slot` does not look at the status of reading the metadata (`Ota.Device.VerifyOtaSlot`). After
  one failed read on a zeroed stack any slot verifies (`Ota.UnreadMetadataVerifies`).
- The tunnel may drop a packet that it has accepted, after rewriting its identification
  (`Checksum.RewriteKeepsVerdict`, `Checksum.RewriteDrops`).
- The operators named GE and LE in the virtual machine are strict.
- A transaction that runs out of retransmissions is closed right after the last one, without a last wait
  (`Transactions`).

## Model

| member | source | states |
|---|---|---|
| CoapWire.ReadExtension | apps/er-coap/er-coap.c:110-133 | a decoded extension lies inside the bytes given; its value is the nibble itself, 13 to 268 in one byte, or 269 to 65804 in two |
| CoapWire.ExtensionRoundTrip | apps/er-coap/er-coap.c:97-133 | a delta or length comes back from nibble and extension exactly if it is at most 65804 |
| CoapWire.HeaderRoundTrip | apps/er-coap/er-coap.c:109-133 | an option header decodes to the delta and length it was written for, and to its own size, whatever follows |
| CoapWire.IntRoundTrip | apps/er-coap/er-coap.c:84-171 | every 32-bit integer option comes back, and no shorter byte string decodes to the same value |
| CoapWire.ComputeLog2 | apps/er-coap/er-coap.c:71-82 | the shift loop returns the rounded-down base-2 logarithm |
| CoapWire.BlockFields | apps/er-coap/er-coap.h:163-173 | what number, more flag and size decode to after serialization, for every number and every size, a power of two or not |
| CoapWire.BlockRoundTrip | apps/er-coap/er-coap.h:163-173 | the three block fields survive exactly if the number has 28 bits and the size is one of the eight block sizes |
| CoapWire.BlockOffset | apps/er-coap/er-coap.c:655-673 | a parsed block offset is number times size, modulo 2^32 |
| CoapText.SplitMergeRoundTrip | apps/er-coap/er-coap.c:173-239 | splitting a text into option values and merging them gives the text back exactly if it is empty, or does not start with the separator and ends in an even number of separators |
| CoapText.ScanEnd | apps/er-coap/er-coap.c:187-207 | the splitting scan jumps over the terminator exactly if the trailing run of separators is odd |
| CoapText.Rejoin | apps/er-coap/er-coap.c:173-239 | from any point of the scan, what is still split off and merged is the rest of the text, or the text with the byte behind it |
| CoapText.MergeIsJoin | apps/er-coap/er-coap.c:220-239 | merging joins the option values with the separator after dropping leading empty ones |
| CoapMessage.ParseSerialized | apps/er-coap/er-coap.c:310-423 | what parsing a serialized packet yields, for every packet: every field in its normal form, or a rejection exactly if a proxy option is set |
| CoapMessage.MessageRoundTrip | apps/er-coap/er-coap.c:310-696 | a serialized packet parses back to itself, with bitmap, options, token and payload, exactly if each option value survives, the payload fits and no proxy option is set |
| CoapMessage.ParseFields | apps/er-coap/er-coap.c:490-690 | from any point of the serializer's option order, the parser takes the remaining options in turn and then the payload |
| CoapMessage.NormalFields | apps/er-coap/er-coap.c:310-696 | the options come back unchanged exactly if every single one survives |
| CoapCodec.SetOptionHeader | apps/er-coap/er-coap.c:109-133 | writes the option header bytes at the position and changes no other byte |
| CoapCodec.SerializeIntOption | apps/er-coap/er-coap.c:135-171 | writes header and minimal big-endian value and changes no other byte |
| CoapCodec.SerializeArrayOption | apps/er-coap/er-coap.c:173-218 | the scanning loop writes exactly the values that the splitting yields, each with its header |
| CoapCodec.SerializeOptions | apps/er-coap/er-coap.c:349-391 | the option macros together write the delta-coded options in ascending order |
| CoapCodec.SerializeMessage | apps/er-coap/er-coap.c:310-423 | writes the whole message, or reports 0 if the header is too long |
| CoapCodec.PackPayloadInPlace | apps/er-coap/er-coap.c:393-400 | a payload that already lies in the packet buffer is packed unharmed exactly if the header ends before it, or it starts with the marker byte |
| CoapCodec.StoredKeepsSeparated | apps/er-coap/er-coap.c:220-239 | an option that is stored or merged in place changes no byte of another field, and all pointers stay before the unread bytes |
| CoapCodec.CoapPacket.MergeMultiOption | apps/er-coap/er-coap.c:220-239 | the merged text is text, separator and new value; all bytes it writes lie before the unread rest and outside other fields |
| CoapCodec.CoapPacket.TakeOption | apps/er-coap/er-coap.c:505-690 | one turn of the parser's loop leaves exactly the rest of the specification's parse to do, or rejects with its status |
| CoapCodec.CoapPacket.ParseMessage | apps/er-coap/er-coap.c:442-696 | the in-place parser accepts and rejects exactly as the specification does, with the same packet |
| CoapCodec.DecodeHeader | apps/er-coap/er-coap.c:506-539 | the two nibbles and extensions are read as the header says |
| CoapCodec.ParseIntOption | apps/er-coap/er-coap.c:84-95 | the loop decodes a big-endian integer modulo 2^32 |
| CoapOptions.ParseOption | apps/er-coap/er-coap.c:442-690 | in numbers, for every option number and every sequence of values: 35 and 39 are rejected, other unknown odd numbers too; 8 and 11 are joined by slashes and 15 and 20 by ampersands after dropping leading empty parts; 1 and 4 are cut to eight bytes, 3 stays, 5 is a flag, 7, 12 and 17 have sixteen bits, 6, 14, 28 and 60 thirty-two, 23 and 27 are blocks; header, message id, token and payload are read off their bytes |
| CoapOptions.ParseBadHeader | apps/er-coap/er-coap.c:463-471 | another version than 1, or a token of more than eight bytes, is rejected with 4.00 |
| CoapOptions.ParseIntMeaning | apps/er-coap/er-coap.c:84-95 | a decoded integer is the big-endian number of the last four bytes |
| CoapOptions.ReadBlockMeaning | apps/er-coap/er-coap.c:655-673 | number, more flag, size and offset of a block option in terms of its value |
| CoapOptions.HeaderLimit | apps/er-coap/er-coap.c:393-423 | a message is serialized exactly if it is empty, or header, token and options have at most 62 bytes |
| CoapOptions.ValuesMeaning | apps/er-coap/er-coap.c:349-391 | what each option is serialized as: texts as they are, a flag as one empty value, numbers as the shortest bytes that are read as them, lists as their parts |
| WellKnownCore.Writer.AddChar | apps/er-coap/er-coap-res-well-known-core.c:52-56 | a character enters the buffer exactly if its position is inside the window |
| WellKnownCore.Writer.AddString | apps/er-coap/er-coap-res-well-known-core.c:58-73 | a string adds its part of the window, and stops the loop exactly if it reaches, or goes beyond, the end of the window |
| WellKnownCore.Writer.AddLink | apps/er-coap/er-coap-res-well-known-core.c:165-182 | one resource adds its link; the loop stops exactly if the text goes beyond the window |
| WellKnownCore.Writer.Get | apps/er-coap/er-coap-res-well-known-core.c:75-204 | one call yields the slice of the link text from the offset on, and announces more exactly if characters remain |
| WellKnownCore.LinksPrefix | apps/er-coap/er-coap-res-well-known-core.c:118-183 | the text of the first resources is the start of the whole text |
| LinkMeaning.LinkAt | apps/er-coap/er-coap-res-well-known-core.c:118-183 | where each link stands in the text, and its characters: path in angle brackets behind a slash, semicolon and attributes if there are any, a comma between links, and nothing else |
| LinkMeaning.SliceMeaning | apps/er-coap/er-coap-res-well-known-core.c:52-73 | the characters of a block |
| Blockwise.ChunkSizeArrives | apps/er-coap/er-coap.h:58-65 | the chunk size in a request arrives as the maximum block size exactly if it is below 4096 |
| Blockwise.WireFields | apps/er-coap/er-coap.h:163-173 | a block option of either side arrives with its number, flag, block size and the offset number times size |
| Blockwise.Server.Get | apps/er-coap/er-coap-engine.c:99-205 | the reply carries the slice that was asked for, its block number and the more flag, or reports a block out of scope |
| Blockwise.ScopeIff | apps/er-coap/er-coap-engine.c:147-175 | for every requested size: a block is reported out of scope exactly if it starts behind the text, the more flag is set exactly if characters remain behind what is sent, and the payload is the text from number times requested size on, cut down to the server's maximum |
| Blockwise.ReplyToBlock | apps/er-coap/er-coap-engine.c:99-205 | the reply to the client's request n, for any two chunk sizes: found exactly if it starts inside the text, and then the text from n times the client's block size on, as long as the smaller size |
| Blockwise.Client.Exchange | apps/er-coap/er-coap-engine.c:386-432 | one turn of the client's loop takes over the next block, if it is in scope, and leaves exactly the rest to come; a number beyond twenty bits counts as an error instead |
| Blockwise.Client.BlockingRequest | apps/er-coap/er-coap-engine.c:370-435 | for any two chunk sizes: what the callback gets, and whether a block is reported out of scope; it is the whole link text exactly if the text fits one block of the server, or the sizes agree and it has at most 2^20 blocks, or a text beyond that repeats itself suitably |
| Blockwise.SmallerBlocks | apps/er-coap/er-coap-engine.c:386-432 | with blocks no bigger than the server's, the requests from n on bring all the text from their offset on, as far as twenty bits of block number reach |
| Blockwise.BiggerBlocks | apps/er-coap/er-coap-engine.c:125-131 | with blocks bigger than the server's, the requests from n on never bring more than the text behind their offset: every block that is cut down leaves a gap |
| Blockwise.WholeTextIff | apps/er-coap/er-coap-engine.c:125-432 | the blocks add up to the whole text exactly under that condition on text and sizes |
| Blockwise.DifferentSizes | apps/er-coap/er-coap-engine.c:125-131 | of 100 characters, a client with blocks of 64 misses 48 if the server's have 16, and gets 48 twice the other way round |
| BlockwiseMeaning.MaxBlockSizeMeaning | apps/er-coap/er-coap.h:57-66 | the block size for a chunk size is the greatest of the eight sizes that is not above it, or 16 |
| BlockwiseMeaning.FirstReply | apps/er-coap/er-coap-engine.c:194-205 | a request without a block option gets the start of the text as block 0, with more to come exactly if characters remain |
| BlockwiseMeaning.BiggerBlocksText | apps/er-coap/er-coap-engine.c:125-131 | with blocks bigger than the server's, character p of what request n and those after it bring is character (n + p / theirs) * mine + p % theirs of the text |
| Transactions.Layer.NewTransaction | apps/er-coap/er-coap-transactions.c:70-87 | takes the first free slot and appends it to the list, or does nothing |
| Transactions.Layer.SendTransaction | apps/er-coap/er-coap-transactions.c:89-139 | sends once; keeps the exchange with its interval drawn or doubled, or closes it |
| Transactions.Layer.CheckTransactions | apps/er-coap/er-coap-transactions.c:166-178 | retransmits what has expired, up to the first exchange that is removed on the way |
| Transactions.Layer.GetTransactionByMid | apps/er-coap/er-coap-transactions.c:152-164 | finds the first listed exchange with the message id |
| Transactions.CheckKeeps | apps/er-coap/er-coap-transactions.c:166-178 | a walk over the list keeps the pool invariant |
| Transactions.StepKeeps | apps/er-coap/er-coap-transactions.c:70-178 | every send, timer event and acknowledgement keeps the pool invariant |
| Transactions.StepNumbered | apps/er-coap/er-coap-transactions.c:70-178 | every send, timer event and acknowledgement keeps: each number given to an exchange belongs to one that is open or has ended, and to no other |
| Transactions.SlotsConserved | apps/er-coap/er-coap-transactions.c:70-151 | used and free slots always add up to the pool |
| Transactions.TimeoutWait | apps/er-coap/er-coap-transactions.c:89-139 | five transmissions with doubling waits span at least fifteen initial intervals |
| Transactions.TransactionRuns | apps/er-coap/er-coap-transactions.c:70-178 | in every run: slots are conserved, each exchange that was started is open or has ended, not both and only once, at most five transmissions, and a timeout comes after five of them and fifteen initial intervals |
| TransactionMeaning.FindMeaning | apps/er-coap/er-coap-transactions.c:152-164 | the exchange found has the message id and none listed before it has; nothing is found exactly if no listed one has it |
| TransactionMeaning.AcknowledgeMeaning | apps/er-coap/er-coap-engine.c:243-248 | in every run: an acknowledgement ends exactly one exchange, one with its message id, and leaves every other slot as it was; it changes nothing exactly if no open exchange has the id |
| TransactionMeaning.SendMeaning | apps/er-coap/er-coap-transactions.c:70-139 | in every run: a new message takes one free slot; a confirmable one stays there with its first transmission and its interval, any other ends; no other slot changes |
| TransactionMeaning.CheckMeaning | apps/er-coap/er-coap-transactions.c:166-178 | for each listed exchange: if it is due it is transmitted once more and waits twice as long, or ends; those behind one that ends are not looked at |
| TransactionMeaning.TimerMeaning | apps/er-coap/er-coap-transactions.c:166-178 | in every run: a timer event is such a walk over all open exchanges, and changes nothing else |
| Lvm.LongRoundTrip | apps/antelope/lvm.c:430-439 | a 32-bit constant comes back from its little-endian bytes |
| Lvm.RunArgumentCorrect | apps/antelope/lvm.c:165-219 | running the code of an arithmetic tree yields its value with truncating division and stops just behind the code; it fails exactly if a divisor is zero |
| Lvm.RunRelationCorrect | apps/antelope/lvm.c:221-298 | running the code of a logic tree yields its strict truth value and stops just behind the code; it fails exactly if a divisor anywhere in it is zero |
| Lvm.ExecuteCorrect | apps/antelope/lvm.c:379-404 | the same for a whole execution, whatever bytes follow the code |
| Lvm.Instance.EvalExpr | apps/antelope/lvm.c:165-219 | the recursive evaluation agrees with the specification in value, instruction pointer and error |
| Lvm.Instance.EvalLogic | apps/antelope/lvm.c:221-298 | the recursive evaluation agrees with the specification in value, instruction pointer and error |
| Lvm.Instance.Run | apps/antelope/lvm.c:379-404 | an execution returns what the specification of the machine says |
| Lvm.Instance.ShiftForOperator | apps/antelope/lvm.c:329-348 | the code from a position on moves by two bytes, and nothing else changes |
| Lvm.Instance.InsertOperator | apps/antelope/aql-parser.c:341-345 | shift, write and set-end together insert an operator in front of a position |
| Lvm.Instance.SetVariableValue | apps/antelope/lvm.c:462-473 | sets the variable of a name, or the first free entry if the name is not registered |
| LvmMeaning.DivisionTruncates | apps/antelope/lvm.c:204-211 | the quotient leaves a remainder that is smaller than the divisor and has the sign of the dividend |
| LvmMeaning.QuotientUnique | apps/antelope/lvm.c:204-211 | only one number is such a quotient |
| LvmMeaning.RunArithmetic | apps/antelope/lvm.c:165-219 | in numbers, on the bytes of two constants: 0x11 to 0x14 add, subtract, multiply and divide in 32 bits, division by zero gives status 4 and other operators status 8 |
| LvmMeaning.MinusSevenByTwo | apps/antelope/lvm.c:204-211 | the code of -7 / 2 runs to -3 |
| LvmMeaning.RunComparison | apps/antelope/lvm.c:221-298 | 0x41 to 0x46 are equal, not equal, greater, greater or equal, less, and less or equal |
| LvmMeaning.RunConnective | apps/antelope/lvm.c:221-298 | 0x81, 0x82 and 0x83 are and, or and not |
| LvmMeaning.RunOther | apps/antelope/lvm.c:147-163 | an operand that is neither a number nor a variable counts as 0 |
| WhereCompiler.UniqueReading | apps/antelope/aql-parser.c:290-447 | prefix code can be read in only one way |
| WhereCompiler.SideIsExpression | apps/antelope/aql-parser.c:290-348 | the code of one side of a comparison is the code of some expression exactly if no two operators follow each other outside parentheses |
| WhereCompiler.SideLength | apps/antelope/aql-parser.c:290-348 | chained or not, the code has the length of the intended expression's code |
| WhereCompiler.ClauseCodeCorrect | apps/antelope/aql-parser.c:350-447 | the compiled clause is the prefix code of the right-nested tree exactly if no side chains operators |
| WhereCompiler.CompiledClauseRuns | apps/antelope/aql-parser.c:402-447 | running the compiled clause gives the truth value of the clause, or an error exactly if a divisor in it is zero |
| WhereCompiler.ChainReading | apps/antelope/aql-parser.c:326-345 | what a chain of two operators compiles to, for all operands: the last operand moves to the other side |
| WhereCompiler.ChainMisread | apps/antelope/aql-parser.c:326-345 | a clause that holds and is run as false: 1 + 1 + 9 > 5 |
| ClauseMeaning.ClauseAgrees | apps/antelope/aql-parser.c:290-447 | the tree of a clause says what the clause says about the named values of a row: operators from left to right in 32-bit arithmetic, connectives grouped to the right, nothing if a division by zero occurs |
| ClauseMeaning.CompiledClauseMeans | apps/antelope/aql-parser.c:402-447 | running the compiled clause on a row gives what the clause means, or status 4 for a division by zero |
| ClauseMeaning.ForInstance | apps/antelope/aql-parser.c:350-447 | a + k > l AND b < m, and the same with OR, token by token |
| WhereParser.Parser.ParseOperand | apps/antelope/aql-parser.c:267-288 | takes exactly names, strings and numbers; appends the operand's code and registers its variable |
| WhereParser.Parser.ParseExpr | apps/antelope/aql-parser.c:290-348 | tokens of one side, with or without a closing parenthesis, leave exactly that side's code behind the code so far; a side that starts with ( s ) is accepted exactly if another closing parenthesis follows; for any tokens, whether they are accepted and where parsing stops |
| WhereParser.Parser.ParseOneOperator | apps/antelope/aql-parser.c:312-347 | one operator and its operand: the operator goes in front of the first operand, or, later, in front of its own; for any tokens, where it stops and whether the loop goes on |
| WhereParser.Parser.ParseComparison | apps/antelope/aql-parser.c:350-400 | the gap left in front is filled with the comparison operator; for any tokens, whether they are accepted and where parsing stops |
| WhereParser.Parser.ParseOneConnective | apps/antelope/aql-parser.c:412-443 | the connective is shifted in front of the comparison before it; for any tokens, the status and where parsing stops |
| WhereParser.Parser.ParseProposition | apps/antelope/aql-parser.c:428-441 | behind a connective the status is 0 exactly if no parenthesis follows and what follows is not a comparison |
| WhereParser.Parser.ParseWhere | apps/antelope/aql-parser.c:402-447 | the tokens of a clause leave exactly the compiled clause in an empty machine, and all names registered in order; a clause followed by a connective and tokens that are no comparison gives 0; for any tokens, the status and where parsing stops |
| WhereParser.ZeroIff | apps/antelope/aql-parser.c:402-447 | for any tokens, parse_where gives 0, which counts as success, exactly if the last connective it reaches is followed by no parenthesis and by no comparison |
| WhereParser.CutOffComparison | apps/antelope/aql-parser.c:428-441 | a > 1 AND b + gives 0 |
| WhereParser.SwallowedToken | apps/antelope/aql-parser.c:321-323 | one token between an operator and its operand is swallowed: a + ? b > 3 is accepted as a whole exactly if ? is no operand |
| Ranges.CreateIntersection | apps/antelope/lvm.c:496-537 | each entry of the result is the intersection of the two ranges, the one derived range, or unchanged |
| Ranges.CreateUnion | apps/antelope/lvm.c:539-580 | each entry of the result is the smallest range around both, the one derived range, or unchanged |
| Ranges.DeriveRelation | apps/antelope/lvm.c:582-684 | the analysis fills the arrays as specified; a failed one marks nothing as derived |
| Ranges.DeriveCorrect | apps/antelope/lvm.c:582-684 | on the code of a tree the analysis derives the tree's ranges and stops just behind it, or fails exactly if the tree has no ranges |
| Ranges.DeriveSound | apps/antelope/lvm.c:582-684 | if comparisons have their variable on the left and both sides of each OR constrain the same variables, every satisfying assignment lies in the derived ranges |
| Ranges.MatchesLieInDerivedRanges | apps/antelope/lvm.c:686-690 | the same in terms of code: an assignment for which execution is true lies in the ranges derived from the code |
| Ranges.LeafSoundIff | apps/antelope/lvm.c:619-683 | a single comparison is analysed soundly exactly if its variable is on the left, it is an equality, its range is unrestricted or it cannot hold |
| Ranges.OrOverDifferentVariables | apps/antelope/lvm.c:539-580 | an OR of comparisons of two variables is analysed soundly exactly if each side is unrestricted or stands beside one that cannot hold |
| Ranges.ConstantFirstMisread | apps/antelope/lvm.c:636-679 | 3 < x is read as x < 3 |
| RangesMeaning.RangeOfMeaning | apps/antelope/lvm.c:636-679 | the range of a comparison allows exactly the numbers for which it holds; not-equal has none, and at the ends of the number range the bound wraps around |
| RangesMeaning.MergeMeaning | apps/antelope/lvm.c:496-580 | an AND of two ranges allows exactly what both allow, an OR is the smallest range around both, one range alone stays |
| RangesMeaning.ConjunctionExact | apps/antelope/lvm.c:582-684 | a conjunction of comparisons with constants holds exactly inside its derived ranges |
| RangesMeaning.OrMeaning | apps/antelope/lvm.c:539-580 | which ranges an OR of two analysed sides has, and when there are any |
| RangesMeaning.TargetMeaning | apps/antelope/lvm.c:622-650 | which variable and which constant a comparison is read as |
| InlineIndex.BinarySearch | apps/antelope/index-inline.c:103-151 | the loop with 32-bit row numbers ends as the specification of the search says |
| InlineIndex.SearchResult | apps/antelope/index-inline.c:103-151 | on an increasing column a search reads a row that does not exist exactly if the column is empty or the target is below the first value; otherwise it finds the target exactly if it is there, or a row that splits the column |
| InlineIndex.SearchFromMonotone | apps/antelope/index-inline.c:127-141 | searches keep the order of their targets |
| InlineIndex.RangeYield | apps/antelope/index-inline.c:153-227 | a range search yields consecutive rows, start before end, with every row in the range and at most one more at each end |
| InlineIndex.RangeWild | apps/antelope/index-inline.c:121-141 | a range search reads a row that does not exist exactly if a bound it looks up is below the first value |
| InlineIndex.Index.GetNext | apps/antelope/index-inline.c:201-227 | the iterator returns the rows of the range one after the other, then INVALID_TUPLE for ever |
| InlineIndex.Index.IndexGetNext | apps/antelope/index.c:305-330 | stopping after one row on a unique attribute loses no row |
| Select.Selection.Process | apps/antelope/relation.c:734-870 | one call looks at the next candidate: it returns its projection, or adds it to the aggregates, exactly if the predicate has the wanted value; the end, and the error if the iterator found nothing for its last key, are reported as specified |
| Select.Selection.ProcessAll | apps/antelope/index.c:391-412 | over repeated calls the rows returned are those wanted among the candidates, in order, or one row of aggregates; if the index finds nothing for the last key of its range, the query ends in an error, and an aggregate is lost |
| Select.RunQuery | apps/antelope/relation.c:734-960 | a whole run, from opening the selection on, returns rows and final status of the specification |
| Select.Selection.LoadAttributes | apps/antelope/relation.c:786-814 | after the loop every variable of the predicate has the value of the row's attribute of that name |
| Select.IndexEqualsScan | apps/antelope/relation.c:734-870 | ascending candidates that miss no wanted row give exactly the rows of a full scan |
| Select.MissedRow | apps/antelope/relation.c:734-870 | ascending candidates never give more rows than a full scan, and fewer if they miss a wanted one |
| Select.CountAndSum | apps/antelope/relation.c:550-590 | COUNT and SUM return the number and the true sum of the matching rows modulo 2^16 |
| Select.MaxAndMin | apps/antelope/relation.c:550-590 | MAX and MIN are bounds of the matching values and attained by a row or the start value |
| Select.ReturnedMaxOrMin | apps/antelope/relation.c:842-858 | the MAX or MIN in the result row is that of the matching rows exactly if it lies in 0..65535 |
| Select.ReturnedWithoutRows | apps/antelope/relation.c:842-858 | without matching rows, MAX is 0 and MIN is 65535 |
| Select.HoldsPrefix | apps/antelope/lvm.c:221-298 | a predicate sees no variable beyond the registered ones |
| QueryMeaning.NoClausePicksAll | apps/antelope/relation.c:816-825 | without a WHERE clause every candidate is picked, in order |
| QueryMeaning.ClausePicks | apps/antelope/relation.c:786-825 | with one, a candidate is picked exactly if running the code on its named values ends with true, or with false under inverse logic |
| QueryMeaning.PickedAppend | apps/antelope/relation.c:734-825 | candidates are looked at one by one |
| QueryMeaning.ResultRow | apps/antelope/relation.c:786-814 | a row of the result holds the values of the stored attributes, in order |
| QueryMeaning.RunWithoutClause | apps/antelope/relation.c:734-842 | a run without a WHERE clause returns one row for each candidate, in order |
| QueryMeaning.CountWithoutClause | apps/antelope/relation.c:550-590 | COUNT and SUM without a WHERE clause give the number of candidates and the sum of their values, in sixteen bits |
| QueryMeaning.OtherAggregates | apps/antelope/relation.c:550-590 | MEAN and MEDIAN are not computed and return 0 |
| QueryPipeline.SelectIndex | apps/antelope/relation.c:630-672 | the index chosen is the last usable one |
| QueryPipeline.SelectBigger | apps/antelope/relation.c:630-672 | of two usable indexes the one with the bigger range is chosen, if it comes last |
| QueryPipeline.DerivedRangeIff | apps/antelope/lvm.c:692-709 | there is a derived range for a name exactly if the name is registered and its variable has one |
| QueryPipeline.IndexCovers | apps/antelope/relation.c:630-709 | every matching row is among those the index yields for a derived range |
| QueryPipeline.QueryThroughIndex | apps/antelope/relation.c:674-870 | compiling, range analysis, index search and filtering together return exactly the rows of a scan that satisfy the clause |
| QueryPipeline.RunThroughIndex | apps/antelope/relation.c:674-870 | a whole run through the index has the outcome of a scan exactly unless the range is a single value that no row has: then it ends in an error |
| QueryPipeline.RunThroughMaxHeap | apps/antelope/relation.c:754-766 | a run through a MaxHeap index returns the wanted rows of all keys; it ends in an error, and an aggregate is lost, exactly if the last key of the range has no row |
| QueryPipeline.InverseLogicIff | apps/antelope/relation.c:630-825 | under inverse logic the rows through the index are those of a scan exactly if the index search yields every row of the relation |
| QueryPipeline.InverseLogicLosesRows | apps/antelope/relation.c:816-825 | for v = 5 inverted, over the values 3 and 5, the scan returns the row 3 and the index nothing |
| Join.EquiJoin.Process | apps/antelope/relation.c:962-1056 | each call returns the next pair of the join, wherever the last one was left; after the end the join starts over |
| Join.EquiJoin.ProcessAll | apps/antelope/relation.c:962-1056 | repeated calls return all pairs still to come |
| Join.JoinExact | apps/antelope/relation.c:976-1051 | a pair is returned exactly if its rows have the same value |
| Join.JoinOrdered | apps/antelope/relation.c:976-1051 | each pair is returned once, and the left rows come in order |
| Join.InlineMatchesExact | apps/antelope/relation.c:990-1020 | the inline index gives the join exactly the right rows as long as no left value lies below the right column |
| MaxHeap.RangeWidth | apps/antelope/index-maxheap.c:416-445 | a node at depth d covers exactly 2^(16-d) keys |
| MaxHeap.Heap.HeapInsert | apps/antelope/index-maxheap.c:225-260 | the walk never leaves a sibling pair and fills exactly the place whose range it was given |
| MaxHeap.Heap.HeapFind | apps/antelope/index-maxheap.c:262-292 | from the first child of a node on the path, the search steps to the child that holds the hash, or ends |
| MaxHeap.PathExact | apps/antelope/index-maxheap.c:262-292 | repeated searches visit exactly the nodes above the bottom level whose range holds the hash |
| MaxHeap.PathIncreases | apps/antelope/index-maxheap.c:262-292 | the nodes visited go strictly downwards and end at the deepest one |
| MaxHeap.Heap.BucketSplit | apps/antelope/index-maxheap.c:416-445 | both halves of a node's range become its children and the tree invariant holds, or nothing changes |
| MaxHeap.Heap.Create | apps/antelope/index-maxheap.c:494-585 | a new index is empty and has a root |
| MaxHeap.Heap.BucketAppend | apps/antelope/index-maxheap.c:394-414 | writes one pair at the slot counted as the next free one, unless the bucket counts as full |
| MaxHeap.Heap.InsertItem | apps/antelope/index-maxheap.c:447-492 | writes one pair into the deepest visible node on the key's path, or changes no pair; it fails exactly if that node counts as full and its children would be at the bottom; exactly one pair is added if the bucket's count is right, and otherwise a stored pair is overwritten |
| MaxHeap.AllWrite | apps/antelope/index-maxheap.c:394-414 | writing a slot of a bucket adds exactly one pair to all stored pairs if and only if the slot lies behind the stored ones; otherwise it replaces one |
| MaxHeap.Heap.Load | apps/antelope/index-maxheap.c:594-629 | loading forgets all counts, so they are right exactly for an empty index |
| MaxHeapMeaning.RangeMeaning | apps/antelope/index-maxheap.c:416-445 | the j-th place of level d covers the keys from j * 2^(16-d) on, 2^(16-d) of them |
| MaxHeapMeaning.ChildMeaning | apps/antelope/index-maxheap.c:262-292 | a hash belongs to the left child exactly if it lies in the lower half; the halves adjoin and make up the range |
| MaxHeapMeaning.HashMeaning | apps/antelope/index-maxheap.c:196-201 | the hash is the random number in sixteen bits |
| MaxHeapSearch.Search.BucketLoad | apps/antelope/index-maxheap.c:330-392 | the cache holds the bucket's pairs; an unknown count is taken from the file |
| MaxHeapSearch.RecountIff | apps/antelope/index-maxheap.c:380-388 | the count taken from the file is right exactly if the bucket does not hold the pair (0, 0) |
| MaxHeapSearch.Search.Load | apps/antelope/index-maxheap.c:594-642 | lookups work on the loaded index exactly if no bucket holds the pair (0, 0) and the cache does not hold a bucket with pairs |
| MaxHeapSearch.Search.Insert | apps/antelope/index-maxheap.c:644-660 | one truncated pair is written as InsertItem says; the cache is right afterwards exactly if another bucket is cached or the cached slot holds the same pair |
| MaxHeapSearch.CacheSurvivesIff | apps/antelope/index-maxheap.c:351-414 | a write behind the cache leaves it right exactly if another bucket is cached or the cached slot already holds the pair |
| MaxHeapSearch.StaleScanIff | apps/antelope/index-maxheap.c:715-742 | a scan of the cached bucket after such a write sees all values of the new key exactly if the cached slot holds the same pair |
| MaxHeapSearch.StaleLookupIff | apps/antelope/index-maxheap.c:691-742 | a lookup of any key that meets a stale cached bucket at the end of its path sees what the file holds exactly if the shown and the stored pair agree as far as the key goes, or what is skipped further up makes up for it |
| MaxHeapSearch.Search.StartSearch | apps/antelope/index-maxheap.c:691-706 | the buckets to visit are the path of the key |
| MaxHeapSearch.Search.GetNext | apps/antelope/index-maxheap.c:668-750 | each call returns the next value of the iteration over the keys of the range, or INVALID_TUPLE at the end, also on a loaded index, where it puts the counts right on the way; at the end the item count is zero exactly if the last key has no value |
| MaxHeapSearch.KeyFound | apps/antelope/index-maxheap.c:709-742 | a key whose pairs lie in one bucket is found with all its values in order |
| MaxHeapSearch.CompleteIff | apps/antelope/index-maxheap.c:709-742 | a scan yields all values along the path exactly if no match in a bucket lies before the slot where the scan further down left off |
| MaxHeapSearch.LookupCompleteIff | apps/antelope/index-maxheap.c:691-742 | a lookup finds every stored pair with the key, as often as it is stored, exactly if of two such pairs in different buckets the deeper one has the lower slot |
| MaxHeapSearch.InsertRepeatedly | apps/antelope/index-maxheap.c:447-742 | after 129 insertions of one key into a new index the first value is stored and no lookup finds it |
| Crc.Crc16 | unwired/ota-main.c:63-87 | eight shifts of the register equal the bit steps of the byte |
| Crc.StepLinear | unwired/ota-main.c:69-85 | a bit step is linear over exclusive or |
| Crc.ZeroStep | unwired/ota-main.c:69-85 | a zero bit never turns a register into zero or out of it |
| Crc.SameCrcIff | unwired/ota-main.c:378-409 | messages of the same length have the same CRC exactly if their difference gives zero |
| Crc.BurstShows | unwired/ota-main.c:378-409 | a difference within sixteen consecutive bits leaves the register nonzero, wherever it lies |
| Crc.BurstDetected | unwired/ota-main.c:378-409 | images that differ in such a burst have different CRCs |
| Crc.SeventeenBitsMissed | unwired/ota-main.c:63-87 | images that differ within seventeen bits and have the same CRC |
| Ota.Device.EraseOtaImage | unwired/ota-main.c:686-711 | all pages of the slot are erased, whatever fails on the way, and nothing else changes |
| Ota.Device.StoreFirmwareData | unwired/ota-main.c:809-836 | a failed store leaves bits that a later one can still clear; a successful one stores the data ANDed to the old content |
| Ota.Device.BackupGoldenImage | unwired/ota-main.c:271-297 | slot 0 becomes a copy of the installed firmware despite finitely many failures, and nothing else in external flash changes |
| Ota.Device.UpdateFirmwarePage | unwired/ota-main.c:713-745 | one page of internal flash becomes the page of the image, or a failure is reported |
| Ota.Device.UpdateFirmware | unwired/ota-main.c:759-793 | the installed firmware becomes a copy of the slot despite finitely many failures, and nothing else in internal flash changes |
| Ota.Device.VerifyOtaSlot | unwired/ota-main.c:360-426 | the verdict is that of the slot's content and metadata exactly if reading the metadata works, that is if the first two flash operations do, and otherwise that of whatever the stack holds; it is a read error exactly if a later operation up to the last word fails or lies outside |
| Ota.UnreadMetadataVerifies | unwired/ota-main.c:360-426 | if the metadata cannot be read, the stack is zero and the flash opens the next time, every slot verifies, whatever it holds |
| Ota.BurstNeverVerifies | unwired/ota-main.c:360-426 | of two images with the same metadata that differ within sixteen consecutive bits at most one verifies |
| Ota.BackupKeepsSlots | unwired/ota-main.c:271-297 | a backup changes no download slot |
| Ota.GoldenKeptThroughout | unwired/ota-main.c:686-836 | no run of operations outside slot 0 changes the golden image |
| Ota.FactoryRestore | unwired/ota-main.c:271-836 | after a backup and any such run, restoring slot 0 brings back exactly the firmware that was backed up |
| OtaMeaning.ImageVerifiesIff | unwired/ota-main.c:360-426 | for every slot with a record that can be read and an image that fits: a read error exactly if opening the flash or reading one of the words fails, and otherwise 0 exactly if the record's CRC is the register after the image and two zero bytes |
| OtaMeaning.RecordMeaning | unwired/ota-main.h:37-43 | where the record holds CRC and length, little-endian |
| OtaMeaning.StepMeaning | unwired/ota-main.c:63-87 | one bit into the register: if the upper bit falls out, bits 12, 5 and 0 are inverted |
| OtaMeaning.RegisterMeaning | unwired/ota-main.c:63-87 | the register after any bits is made of such steps from zero |
| OtaMeaning.BackupMeaning | unwired/ota-main.c:271-297 | a backup copies internal flash from 0x2000 on to external flash from 0x19000 on, 0x19000 bytes, and nothing else |
| OtaMeaning.RestoreMeaning | unwired/ota-main.c:759-793 | an update copies as many bytes of a slot back to 0x2000, and nothing else |
| OtaMeaning.WriteMeaning | unwired/ota-main.c:809-836 | a write clears the bits that are clear in the data and sets none |
| Checksum.ComputeIp4Sum | tools/tunslip.c:342-361 | the loop computes the end-around-carry sum |
| Checksum.Ip4SumMeaning | tools/tunslip.c:342-361 | the sum is the sum of the words modulo 65535, and zero only for all zeros |
| Checksum.Ip4SumComposes | tools/tunslip.c:342-361 | sums compose over prefixes of even length |
| Checksum.VerifiesIff | tools/tunslip.c:363-412 | a sum is accepted exactly if the words add up to a multiple of 65535 |
| Checksum.ComputeCheckIp | tools/tunslip.c:363-412 | the check returns the code of its specification |
| Checksum.RewriteId | tools/tunslip.c:642-650 | exactly a zero identification under the tested flag is rewritten, together with the checksum |
| Checksum.SumOfRange | tools/tunslip.c:642-650 | how the rewrite changes the sum over any range: identification and checksum cancel out in every sum over both |
| Checksum.RewriteKeepsVerdict | tools/tunslip.c:635-655 | a packet of any length that passed the check still passes after the rewrite exactly if neither the sum of the header nor, where it counts, that of the payload changes; from twelve bytes on, exactly unless its header is two words long and the identification is not a multiple of 65535 |
| Checksum.RewriteDrops | tools/tunslip.c:635-655 | a packet with a header of two words that passes, has the tested flag set, and is dropped after the rewrite |
| Checksum.ComplementVerifies | tools/tunslip.c:320-327 | a complemented sum makes the range verify |
| Checksum.FillSums | tools/tunslip.c:320-329 | a packet filled in by the relay passes the check, and no other byte changes |
| ChecksumMeaning.CheckMeaning | tools/tunslip.c:363-412 | the code of every packet whose header and payload lie in the buffer, by byte positions and sums of words modulo 65535 |
| ChecksumMeaning.PseudoHeaderMeaning | tools/tunslip.c:385-392 | the pseudo header sums protocol, length and the words of both addresses |
| ChecksumMeaning.SumMeaning | tools/tunslip.c:342-361 | a sum is accepted exactly if all words add up to a multiple of 65535 |
| Codeprop.Sender.SendNext | apps/codeprop/codeprop.c:198-222 | the packet carries the image's bytes at the current address |
| Codeprop.Sender.OnNack | apps/codeprop/codeprop.c:240-252 | only a NACK for a lower address moves the sender |
| Codeprop.Receiver.OnData | apps/codeprop/codeprop.c:273-354 | the receiver's state and NACK after a packet are those of the specification, with the first packet taken as address 0 whatever it says |
| Codeprop.StepKeeps | apps/codeprop/codeprop.c:198-354 | every step of sender, network and receiver keeps: stored bytes are the first packet's data and then the image, and the address never decreases |
| Codeprop.StoredPrefix | apps/codeprop/codeprop.c:273-354 | in every run with loss, repetition and reordering, what is stored is the image's start exactly if the first accepted packet carried the image's first bytes; finishing means everything was stored |
| Codeprop.NackRecovers | apps/codeprop/codeprop.c:240-252 | a packet from further on provokes a NACK for the missing address; if it arrives while the sender is still sending, the missing packet is sent next and stored |
| Codeprop.LostFirstPacket | apps/codeprop/codeprop.c:286-297 | losing the first packet makes the receiver finish with a corrupt image |
| CodepropMeaning.PacketMeaning | apps/codeprop/codeprop.c:198-222 | a packet carries the image's length and at most 32 bytes from its address on, and the next one starts where it ends |
| CodepropMeaning.ReceiveMeaning | apps/codeprop/codeprop.c:273-354 | while an image is received: a packet of another image changes nothing, one of the same image is stored exactly if it is the next one, and one from further on provokes a NACK |
| CodepropMeaning.FirstPacketMeaning | apps/codeprop/codeprop.c:273-354 | otherwise only a packet with a higher identifier counts, and starts its image with its own data |
| CodepropMeaning.NackMeaning | apps/codeprop/codeprop.c:240-252 | a NACK sets the sender back exactly if it names a lower address |
| Slip.Queue.Flush | tools/tunslip6.c:392-413 | first in, first out: what left the queue and what is in it are what was put in |
| Slip.Queue.WriteToSerial | tools/tunslip6.c:415-478 | a frame enters the queue escaped and terminated, if it fits |
| Slip.Reader.Read | tools/tunslip6.c:190-337 | the decoder's next state after one byte |
| Slip.DeliveredIff | tools/tunslip6.c:187-192 | a frame arrives as it was sent exactly if it is not empty and shorter than 2000 bytes |
| Slip.FramesDecode | tools/tunslip6.c:171-337 | frames are decoded independently of each other |
| Slip.FramesRoundTrip | tools/tunslip6.c:171-478 | all frames of such lengths come back in order |
| SlipMeaning.ByteOnLine | tools/tunslip6.c:415-478 | what each byte goes on the line as, in numbers |
| SlipMeaning.FrameOnLine | tools/tunslip6.c:415-478 | a frame ends with its only byte 0xC0; with flow control, neither 0x11 nor 0x13 goes on the line |
| SlipMeaning.DecodeMeaning | tools/tunslip6.c:190-337 | what the decoder makes of each byte, in numbers |

## Left out

- Packing and padding: bytes of an operand that the C leaves unset are zero in the model, and sizes are those of the firmware's ABI (one-byte enums, 32-bit little-endian longs).
- Variable and derivation tables are as long as the loops over them; in the C the static arrays are one element shorter.
- Malformed CoAP messages that take the parser outside the message or the option bitmap: the specification calls them malformed and the in-place parser is proved on all others.
- The option macros are a loop over the option numbers in the order of the macros; proxying is not modelled beyond its rejection.
- CoapCodec.SerializeMessage: takes the payload from a buffer of its own; packing a payload that already lies in the packet buffer is `CoapCodec.PackPayloadInPlace`.
- Blockwise.Server.Get: models GET without a query and without Block1, for a resource that answers block by block and offsets below 2^31; other handlers, observation and error messages are left out.
- Blockwise.Client.BlockingRequest: the channel loses nothing; loss and retransmission are the subject of `Transactions`.
- Blockwise.Client.Exchange: the callback gets the response code with each payload; the model tells it by its second result, and the error text of a block out of scope is not counted as received.
- Transactions.Layer.SendTransaction: callbacks and observers of a timed-out exchange are left out; what a callback sends is a separate event. Clock values do not wrap around.
- The lexer, attribute lists, join, insert, create and remove statements of the query language: only WHERE clauses are compiled.
- InlineIndex.BinarySearch: what follows a read of a row that does not exist is not modelled, because it depends on what the row buffer holds; columns that are not strictly increasing are only modelled as far as the loop goes.
- Two index iterations at the same time: the inline index and MaxHeap keep one static cache, and the iterators are modelled one at a time.
- Select.Selection.Process: rows are maps from attribute names to numbers; strings, storing the result in a relation and I/O errors are left out. An aggregated attribute of four bytes copies two bytes beyond the result, which is left out too.
- Join.EquiJoin.Process: rows are their numbers; copying attributes into the joined row is left out.
- MaxHeap.Heap.InsertItem: keys and values arrive truncated to sixteen bits; the random generator that hashes keys is an arbitrary function; files do not fail.
- MaxHeapSearch.Search.GetNext: needs a cache that agrees with the file and counts that are right or missing. What a lookup sees in a stale cache is stated for one key (`MaxHeapSearch.StaleLookupIff`), not for an iteration over several. There is one index, whose memory is used again when it is loaded.
- Ota.Device.VerifyOtaSlot: the flash driver rejects reads outside the device; SPI transfers, the watchdog, rebooting and choosing among download slots are left out.
- Checksum.ComputeCheckIp: is proved for packets that do not make it read behind the buffer; relaying of DHCP options is left out.
- Codeprop.Receiver.OnData: one sender and one image at a time, genuine packets in runs; the TCP part and starting the program are left out.
- Slip.Reader.Read: what is done with a frame (commands, debug text, writing to the tunnel) is left out, and so is the first read on Linux, which skips the check for a full buffer.
- Not modelled: the OTA download loop, the UART framer, clock offsets, encryption, routing and drivers.
- Signed overflow and LONG_MIN / -1 are undefined in C; the virtual machine and the aggregates of the model wrap around there (`Lvm.Wrap`).
- List, memory pool, timer and file system libraries are used through what they do for these parts.
