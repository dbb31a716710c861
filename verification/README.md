# Verified core of a system call fuzzer

This project models the parts of the fuzzer whose correctness rests on more than reading one function, and
proves them in Dafny 4.11. `dafny verify dfyconfig.toml` checks everything.

* **Inflate** (`Bits`, `Huffman`, `PuffState`, `DeflateSpec`, `Puff`, `Deflate`, `DeflateLength`). The executor's
  decoder for compressed images, over arrays and a bit reader, against the meaning of a DEFLATE stream over bit
  strings; canonical codes and Kraft's equality; an encoder for all three block kinds and every way to send the
  header of a dynamic block, with the round trip through the decoder; and the length reported on an error.
* **The exec format** (`Prog`, `ExecFormat`, `ExecDecode`, `ExecEncode`, `ExecRoundTrip`, `ExecWalk`, `ExecPrinted`,
  `ExecSerialized`). The serializer, the decoder and the executor's own reader of the same stream: decoding undoes
  serialization; on any bytes the executor meets the decoder's instruction boundaries; and the run of a serialized
  program stores and calls just what the program says, with results that arrive however late.
* **Threads and records** (`Threads`, `Output`, `Replies`). The hand-over of calls between the main thread and up
  to 32 workers as a step relation with an inductive invariant; the shared region in which records are published
  through a count word, sound after every single store; and the manager's reading of what any run leaves there.
* **Program graphs** (`Graph`, `Clone`, `Programs`, `Collide`, `Async`). Copying and duplicating programs on a heap
  of argument nodes with references and sets of uses, and the choice of asynchronous calls.
* **Squashing** (`Squash`, `SquashMemory`). Structures turned into blobs, and the equality of a blob with the memory
  that the serialized copyins leave.
* **Allocator, checksums, heatmap** (`Alloc`, `Checksum`, `Nfq`, `Heatmap`). A two-level bitmap against a set of
  granules; the internet checksum in 32-bit arithmetic and the packet rewriter that restores it; the choice of the
  parts of data worth mutating.

The host is little-endian. 32- and 64-bit wrap-around is written out where the code relies on it. Where the code
joins disjoint bits with a bitwise or, the packed words of the exec format are modelled by addition.

Four properties one might expect do not hold of the code as it is, and are stated as they are:

* Decoding a serialized program can report mismatching variables: a result whose only use is an output field is
  counted but never sent. `LastResultSent` is the exact condition, `UnsentUseRejected` a program that fails it.
* The decoder masks the format bits of a result argument's word, the executor does not, so it can stop at a stream
  that decodes. `ExecuteIff` has the exact condition (`PlainCode`), `HighBitStops` a stream that fails it; whatever the
  serializer writes meets it.
* The allocator aligns to granules, so alignments that do not divide their own size rounded up to 64 are not kept.
  `AlignedIff` is the exact condition, `NotAligned` a request that is given a misaligned address.
* The inflate decoder's comment says that a positive error leaves the output length alone. The code updates it on
  every error. `LengthKept` says exactly when it comes back as it was, `NothingToRead` is an input where it does not.

## Model

| member | source | states |
|---|---|---|
| `Huffman.PrefixFree` | executor/common_zlib.h:161-181 | for every table of lengths, at most one canonical code (section 3.2.2 of RFC 1951) comes next in any input: none is a prefix of another |
| `Huffman.DecodesOwnCode` | executor/common_zlib.h:110-159 | whatever bits follow, reading a symbol where the canonical code of s begins gives s and consumes exactly the length of s |
| `Huffman.LeftIsKraft` | executor/common_zlib.h:161-216 | the code space left over at length l is 2^l minus the Kraft sum scaled by 2^l |
| `Huffman.CodeFits` | executor/common_zlib.h:161-181 | in a table that is not over-subscribed every code fits in its length |
| `Huffman.SentCodeMatches` | executor/common_zlib.h:110-159 | sending the bits of the code of s, most significant first, makes s the next symbol |
| `Huffman.CompleteResolves` | executor/common_zlib.h:161-181 | when nothing is left over, every string of 15 bits resolves to a symbol |
| `Huffman.IncompleteFails` | executor/common_zlib.h:161-181 | when something is left over, fifteen one bits resolve to no symbol |
| `Huffman.CompleteIff` | executor/common_zlib.h:161-181 | a table resolves every long enough input if and only if its Kraft sum reaches one |
| `PuffState.Table.Construct` | executor/common_zlib.h:182-216 | builds counts and symbols for exactly the canonical code of the lengths; the result is negative exactly for an over-subscribed table, else what is left of 2^15, and zero for a table without codes |
| `PuffState.Table.Sort` | executor/common_zlib.h:203-212 | symbols end up sorted by length and by symbol within a length, each at its own place |
| `PuffState.State.Bits` | executor/common_zlib.h:60-78 | takes the next bits of the input at position 8*incnt - bitcnt, keeps fewer than eight buffered, or reports the end of input |
| `PuffState.State.Decode` | executor/common_zlib.h:124-159 | agrees on every input with reading the symbol whose canonical code comes next: the symbol and its length, no code (-10), or the end of input |
| `Puff.Put` | executor/common_zlib.h:244-250 | appending a byte, a zero byte being left as the zeroed buffer has it, extends the produced output by that byte |
| `Puff.CopyBack` | executor/common_zlib.h:266-273 | the copy that skips zero bytes gives byte-by-byte LZ77 semantics, overlapping copies included |
| `Puff.Stored` | executor/common_zlib.h:81-108 | a stored block does what section 3.2.4 of RFC 1951 says, with the same error results |
| `Puff.Codes` | executor/common_zlib.h:219-279 | decoding literals and matches in two built tables is the meaning of that data: output, position and error |
| `Puff.ReadMatch` | executor/common_zlib.h:251-264 | length and distance of a match are read as the base and extra-bit tables say, with the same errors |
| `Puff.FixedTables` | executor/common_zlib.h:282-318 | the tables of the fixed codes decode the fixed lengths of section 3.2.6 of RFC 1951 |
| `Puff.ReadLengths` | executor/common_zlib.h:351-378 | the run-length coded code lengths are read as section 3.2.7 of RFC 1951 says, repeat codes included |
| `Puff.Dynamic` | executor/common_zlib.h:324-398 | a dynamic block is decoded by its meaning, with every rejection of a bad header |
| `Puff.Puff` | executor/common_zlib.h:427-461 | for every input and zeroed buffer: terminates, stays in bounds, and error, output length and output bytes are exactly those of the stream's meaning over bit strings |
| `Deflate.SentTokens` | executor/common_zlib.h:219-279 | any sequence of literals and matches sent in any code that has symbols for it reads back as its LZ77 expansion |
| `Deflate.SentStored` | executor/common_zlib.h:81-108 | any bytes sent as a stored block read back as themselves |
| `Deflate.SentDynamic` | executor/common_zlib.h:324-398 | any two usable codes sent in the header of a dynamic block, with any complete code for code lengths, any number of its lengths and any mixture of plain and repeated lengths that stands for them, read back with the data in them |
| `Deflate.RunHeadStands` | executor/common_zlib.h:351-378 | for the lengths of any two codes there is such a header that uses the repeat codes 16, 17 and 18 wherever there is a run |
| `DeflateLength.LengthKept` | executor/common_zlib.h:400-460 | whatever the outcome, errors 1 and 2 included, the output length comes back as it was given if and only if decoding without a limit passes through exactly that many bytes between two literals, matches or stored blocks |
| `DeflateLength.NothingToRead` | executor/common_zlib.h:404-460 | without any input the length is set to zero along with error 2, contrary to the comment |
| `Deflate.RoundTrip` | executor/common_zlib.h:427-461 | a stream of any blocks of the three kinds, wherever it starts and whatever follows, inflates to what was sent |
| `Deflate.InflateEncoded` | executor/common_zlib.h:427-461 | the decoder run on the bytes of any such stream gives result 0 and exactly the bytes encoded |
| `Deflate.SplitStands` | executor/common_zlib.h:81-108 | any byte string cut into stored blocks of any size is a stream for that byte string |
| `ExecFormat.ParsePrint` | prog/decodeexec.go:100-218 | every instruction sequence that fits the format is read back exactly from its bytes, whatever follows |
| `ExecDecode.DecodeEncode` | prog/decodeexec.go:73-140 | the calls printed into a stream come back in order with properties, arguments, copyins and copyouts, if and only if variables and results agree in number; otherwise the mismatch is reported |
| `ExecDecode.Decoder.ReadWord` | prog/decodeexec.go:220-230 | reads one word; after an error every read gives 0 and consumes nothing |
| `ExecDecode.Decoder.ReadBlob` | prog/decodeexec.go:232-243 | reads data and its padding to a whole number of words, or fails |
| `ExecDecode.Decoder.ReadArg` | prog/decodeexec.go:158-218 | reads one argument of any kind as the format says and notes the variable of a result |
| `ExecDecode.Decoder.CommitCall` | prog/decodeexec.go:251-265 | a pending call is moved to the list and counted among the results it assigns |
| `ExecDecode.DeserializeExec` | prog/decodeexec.go:73-88 | the decoder's outcome on every byte string is that of the pure reading of it |
| `ExecEncode.ExecContext.Write` | prog/encodingexec.go:249-256 | writes a word if there is room and sets the overflow flag otherwise; what was emitted is tracked either way |
| `ExecEncode.ExecContext.WriteArg` | prog/encodingexec.go:258-309 | emits exactly the printed form of the argument as the executor is to see it |
| `ExecEncode.ExecContext.WriteCopyin` | prog/encodingexec.go:152-174 | emits one copyin for each argument in memory that has a value, at its address, in traversal order, and notes the addresses |
| `ExecEncode.ExecContext.WriteChecksums` | prog/encodingexec.go:185-228 | emits the checksum copyins from the highest address down |
| `ExecEncode.ExecContext.WriteCopyout` | prog/encodingexec.go:230-247 | gives each used result its index and emits its copyout |
| `ExecEncode.ExecContext.CopyinTree` | prog/analysis.go:131-175 | the traversal meets arguments in order with their base address and offset, overlays starting again at the group |
| `ExecEncode.ExecContext.SerializeCall` | prog/encodingexec.go:85-115 | emits exactly the instructions of the call and leaves the indices it assigned |
| `ExecEncode.SerializeForExec` | prog/encodingexec.go:66-83 | succeeds if and only if the encoding fits the buffer and at most 1000 result indices are assigned, and then the buffer holds the encoding |
| `ExecRoundTrip.DeserializeSerialized` | prog/decodeexec.go:73-140 | for every well-formed program the decoder returns the calls sent, or reports mismatching variables, exactly according to LastResultSent |
| `ExecRoundTrip.VarsMatch` | prog/decodeexec.go:73-88 | variables and results agree in number if and only if there are no used results or the last one is referred to by an argument that is sent |
| `ExecRoundTrip.UnsentUseRejected` | prog/decodeexec.go:73-88 | a concrete well-formed program whose only use of a result is an output field: it serializes and is then rejected |
| `ExecRoundTrip.CountIsResults` | prog/encodingexec.go:230-247 | one index is assigned for each result that something uses, in the order they are met |
| `ExecRoundTrip.ReadsEarlierResults` | prog/encodingexec.go:258-309 | every result index a call reads was assigned to an earlier call, and to the result meant |
| `ExecWalk.Executor.ReadArg` | executor/executor.cc:1527-1568 | the executor takes a call argument exactly when the decoder does, the word of a result has no bit above its format and the form is one it passes; it ends where the decoder does, with the value of that argument |
| `ExecWalk.Executor.ReadResult` | executor/executor.cc:1584-1599 | an unset result gives its default, a set one is divided and added to, and indices from 1000 on stop the executor |
| `ExecWalk.Executor.Copyin` | executor/executor.cc:867-943 | a copyin is carried out exactly when the decoder reads it, its word is plain and its size and format can be stored; it ends where the decoder says and stores the argument's value, data or checksum at its address |
| `ExecWalk.Executor.WalkCsum` | executor/executor.cc:894-937 | a checksum copyin ends where the decoder says it does and covers the same chunks, exactly when its sizes and kinds are known |
| `ExecWalk.Executor.Step` | executor/executor.cc:863-983 | one step carries out the next instruction exactly when the decoder reads it, both read it alike and the executor knows its forms: it stores, or hands out the call with its values and properties, and stands where the decoder does |
| `ExecWalk.Executor.ReadCall` | executor/executor.cc:957-983 | a call is handed out exactly when the decoder reads it, both read it alike and it has at most nine arguments of known forms: with its number, result index, argument values and the properties set for it, and the place where it ends; the properties are then reset |
| `ExecWalk.Executor.ReadProps` | sys/syz-sysgen/sysgen.go:371-377 | call properties are read over the words that the decoder reads, the integers cut to 32 bits and any word but zero being true |
| `ExecWalk.Executor.CopyoutCallResults` | executor/executor.cc:1173-1203 | stores the return value and performs exactly the copyouts that stand at the remembered place, whenever it runs; it stops exactly on an index from 1000 on, a size that cannot be read or a broken stream |
| `ExecWalk.ExecuteOne` | executor/executor.cc:836-1012 | for any bytes at all, and any calls coming back after each call handed out: the stores, calls, results and end of the run are those of the run as a function of the stream |
| `ExecWalk.ExecuteIff` | executor/executor.cc:863-1012 | for any bytes at all: the run gets to the end if and only if the decoder reads the stream, both read it alike, every instruction is one the executor carries out and every call that comes back has readable copyouts; then it made one store or call for each copyin and call the decoder reads, and ends where the decoder does |
| `ExecWalk.HighBitStops` | executor/executor.cc:1540-1546 | a stream with a bit set above the format of a result argument, which the decoder takes and at which the executor stops |
| `ExecPrinted.DelayedCopyouts` | executor/executor.cc:1173-1203 | in the stream of any calls, the calls come in order, and reading copyouts from where a call ended gives that call's copyouts and no others |
| `ExecPrinted.RunsPrinted` | executor/executor.cc:836-1012 | the run over the stream of any calls the executor performs makes, for each call in turn, the stores of its copyins and the call, with the values that the results have at that moment and the call's own properties; calls that come back, however late, store their return values and their own copyouts |
| `ExecPrinted.PrintedIff` | executor/executor.cc:836-1012 | that run gets to the end if and only if every call has forms the executor performs and every call that comes back has results it can read |
| `ExecSerialized.SerializedReady` | executor/executor.cc:1584-1599 | in a well-formed program every result index read or assigned is below 1000, so the executor performs every call sent if and only if the sizes and formats of the program's arguments are ones it stores and passes, and completes calls if and only if their results have readable sizes |
| `ExecSerialized.RunOfSerialized` | executor/executor.cc:836-1012 | for every well-formed program with at most 1000 results and any input that starts with its encoding: the executor gets to the end exactly under those conditions, and then does just what the calls sent say, with results flowing from earlier calls to later ones whenever they come back |
| `Threads.InitInv` | executor/executor.cc:1056-1090 | the protocol's invariant holds before the first call |
| `Threads.StepKeeps` | executor/executor.cc:1056-1090 | every step of the main thread or of any worker keeps the invariant |
| `Threads.WorkerKeeps` | executor/executor.cc:1330-1343 | each step of a worker's loop, resetting ready, executing and setting done, keeps the invariant |
| `Threads.CompletionKeeps` | executor/executor.cc:1145-1171 | handling a completion keeps the invariant, and its state check never fails |
| `Threads.Safety` | executor/common_linux.h:30-52 | over every interleaving: running is the number of executing threads up to the step in progress and never negative, flags are in a legal state, no event is set twice, and the only exit is for want of a thread |
| `Threads.OneRecordEach` | executor/executor.cc:978-1039 | in every run that reaches the end each scheduled call has exactly one output record, and there are no others |
| `Threads.UnfinishedExactly` | executor/executor.cc:1013-1039 | in every run that reaches the end a call's record says unfinished if and only if a thread was still executing that call |
| `Output.RecordsBack` | executor/executor.cc:1215-1253 | any records written one after another are read back, whatever follows them |
| `Output.Region.WriteOutput` | executor/executor.cc:1612-1619 | stores one word or reports overflow; the region after the store still publishes only whole records |
| `Output.Region.WriteOutput64` | executor/executor.cc:1621-1629 | the same for two words in one store |
| `Output.Region.WriteCompleted` | executor/executor.cc:1631-1634 | publishing makes the pending words one more record; the region at every moment so far stays sound |
| `Output.Region.WriteCoverageSignal` | executor/executor.cc:1093-1141 | writes the signal and coverage kept and fills in counts that agree with them, if they fit |
| `Output.Region.WriteComp` | executor/executor.cc:1638-1672 | writes a comparison with sign-extended operands in the width of its type, or rejects its type |
| `Output.Region.WriteRecord` | executor/executor.cc:1215-1253 | a record is published if and only if it fits and its comparison types are known, and every copy of the region taken meanwhile covers whole records only |
| `Output.Region.WriteCallOutput` | executor/executor.cc:1205-1253 | the record of a call carries its errno and flags as finished, blocked and fault-injected say |
| `Output.Region.WriteExtraOutput` | executor/executor.cc:1276-1301 | a record without a call is written only if there is coverage to collect, and it fails exactly when that record has no room |
| `Replies.ParseOutput` | pkg/ipc/ipc.go:327-381 | succeeds if and only if the counted records can be read, each is for a call of the program and each finds its slot unused; then every slot holds what the last record for it says and extra records are kept in order |
| `Replies.AcceptableFiled` | pkg/ipc/ipc.go:345-361 | with at most one record for each call all are filed under their calls, calls without one are blank, and nothing is lost |
| `Replies.RunOnce` | executor/executor.cc:1145-1171 | whatever the interleaving and wherever a run is cut off, no call has two records and only scheduled calls have any |
| `Replies.WriteRun` | executor/executor.cc:1205-1301 | writing the log of any run of the threads into the region, with extra records between: the records say for which call they are and whether it finished, in order, as far as there is room; and every copy of the region taken after any single store is one the manager reads and accepts |
| `Clone.Cloner.CopyNode` | prog/clone.go:42-97 | copies one node, carries its reference over and notes it in the uses of what it refers to, and nowhere else |
| `Clone.Cloner.CloneArg` | prog/clone.go:42-97 | copies a tree of nodes to fresh ones of the same shape, with references mapped and uses exact |
| `Programs.CloneCall` | prog/clone.go:28-40 | copies a call, its result first, with the same properties |
| `Programs.CloneCalls` | prog/clone.go:20-26 | copies calls in order over one map of results |
| `Programs.CopiedIsomorphic` | prog/clone.go:42-97 | copies made through the map have the same kinds, data and references between them, again only to earlier results |
| `Programs.CloneProg` | prog/clone.go:10-18 | changes nothing that existed, shares no node or call with the original, and gives a program isomorphic to it whose uses are exact |
| `Programs.IsomorphicLayered` | prog/clone.go:10-18 | references to strictly earlier calls stay that in the copy |
| `Collide.MarkAsync` | prog/collide.go:89-96 | exactly the first calls up to the limit become asynchronous |
| `Collide.DoubleExecCollide` | prog/collide.go:83-99 | fails if and only if twice the calls are too many; otherwise the copy followed by all its calls again: references go to strictly earlier calls and never to a repeated one, uses are exact, at most 24 calls become asynchronous, the original is untouched |
| `Collide.DupCallCollide` | prog/collide.go:103-139 | fails if and only if there are fewer than two calls or no room; otherwise a third of the calls, at least one and at most 24, are repeated right before themselves and asynchronously, within the limit of calls, with references and uses as above |
| `Collide.WeaveLayered` | prog/collide.go:127-136 | putting repetitions before the calls they repeat keeps every reference going to a strictly earlier call |
| `Async.VisitCall` | prog/analysis.go:119-129 | visiting a call finds whether it produces something of a set, and everything that it consumes |
| `Async.Decide` | prog/collide.go:24-60 | the backward pass decides each call greedily, never writes the map that does not exist yet, and never makes the last call asynchronous |
| `Async.GreedyApart` | prog/collide.go:17-23 | a result that an asynchronous call produces is consumed only after some later call that is not asynchronous |
| `Async.GreedyCount` | prog/collide.go:11-15 | no more than 24 calls are asynchronous |
| `Async.AssignRandomAsync` | prog/collide.go:24-60 | for every random choice, a copy of the program with calls asynchronous as the greedy rule says, other properties kept |
| `Squash.Squasher.EnsureDataElem` | prog/any.go:322-334 | the last element is a blob afterwards, and no content has changed |
| `Squash.Squasher.SquashConst` | prog/any.go:196-224 | appends the bytes of the value in its format |
| `Squash.Squasher.SquashArg` | prog/any.go:163-194 | appends exactly the content of the argument, padding included |
| `Squash.Squasher.SquashGroup` | prog/any.go:256-291 | appends the content of the fields, bitfields gathered until one with a size lays them out, and the padding |
| `Squash.ContentSize` | prog/any.go:147-161 | the content of every supported argument has the argument's size |
| `Squash.SquashPtr` | prog/any.go:147-161 | squashing keeps the size, so that check never fails, and yields no two adjacent blobs |
| `SquashMemory.InsertIsOr` | executor/executor.cc:1441-1458 | merging a bitfield into a unit where its bits are free is or-ing it in |
| `SquashMemory.Laid` | executor/executor.cc:1441-1458 | copying a plain argument in field by field where memory is zero leaves its squashed bytes there and zeros after them |
| `SquashMemory.SquashedIsMemory` | prog/any.go:147-224 | for native constants, bitfields, data, structs and unions the squashed form is one blob, equal to the memory that the serialized copyins leave in zeroed memory |
| `Alloc.MemAlloc.constructor` | prog/alloc.go:32-44 | an allocator of the given size with nothing used |
| `Alloc.MemAlloc.Get` | prog/alloc.go:110-116 | the bit is set if and only if the granule is in the set the bitmap stands for |
| `Alloc.MemAlloc.Set` | prog/alloc.go:102-108 | adds exactly one granule to the set, making the row if it is missing |
| `Alloc.MemAlloc.NoteAlloc` | prog/alloc.go:46-52 | adds exactly the granules that the bytes touch |
| `Alloc.MemAlloc.Bankruptcy` | prog/alloc.go:83-92 | gives up exactly the granules of the memory |
| `Alloc.MemAlloc.Search` | prog/alloc.go:55-79 | finds the lowest aligned free range, or there is none |
| `Alloc.MemAlloc.Allocate` | prog/alloc.go:55-81 | returns the lowest aligned free range, going bankrupt once if there is none, and marks exactly that range |
| `Alloc.AlignedIff` | prog/alloc.go:55-81 | the address the search finds is aligned as asked whatever is in use, if and only if the alignment divides its own size rounded up to 64, or only the very start of memory has room |
| `Alloc.PowersAligned` | prog/alloc.go:62-65 | every power of two meets that condition |
| `Alloc.NotAligned` | prog/alloc.go:55-81 | with the first 64 bytes in use, one byte with 48-byte alignment is given address 64 |
| `Checksum.Csum.Update` | executor/common.h:474-488 | for chunks of any length the accumulator becomes the one's-complement sum of the 32-bit wrapped total |
| `Checksum.NoOverflow` | executor/common.h:474-488 | chunks of up to 131072 bytes do not wrap the accumulator |
| `Checksum.OverflowBeyond` | executor/common.h:474-488 | one word more can wrap it |
| `Checksum.DigestChunks` | executor/executor.cc:900-933 | fed chunks, all but the last of even length and none above that bound, the digest is that of the concatenation |
| `Checksum.StoredSums` | executor/common.h:490-493 | data whose zero field at an even place is replaced by the digest sums to 0xffff |
| `Checksum.PseudoV4Bytes` | prog/checksum.go:133-141 | the chunks are the IPv4 pseudo-header (section 3.1 of RFC 9293) and the packet |
| `Checksum.PseudoV6Bytes` | prog/checksum.go:143-151 | the chunks are the IPv6 pseudo-header (section 8.1 of RFC 8200) and the packet |
| `Checksum.PseudoChecks` | prog/checksum.go:133-151 | a packet with its digest stored passes the receiver's check over the pseudo-header |
| `Nfq.FoldTwiceIsDigest` | executor/common_brf_linux_mptcp.h:246-251 | for every 32-bit sum the two-step fold is the complement of folding until done |
| `Nfq.CsumBuf` | executor/common_brf_linux_mptcp.h:266-275 | the digest of the wrapped sum over any part of a buffer |
| `Nfq.PseudoSum` | executor/common_brf_linux_mptcp.h:253-264 | the sum of the pseudo-header's words |
| `Nfq.ComputeChecksum` | executor/common_brf_linux_mptcp.h:277-288 | makes pseudo-header and segment sum to 0xffff and changes nothing but the checksum field |
| `Nfq.FindOption` | executor/common_brf_linux_mptcp.h:455-524 | finds the first wanted option on the walk over the options |
| `Nfq.Found` | executor/common_brf_linux_mptcp.h:609-634 | what is found is an MPTCP option as wanted, at an option boundary and whole within the options |
| `Nfq.OneOption` | executor/common_brf_linux_mptcp.h:534-801 | a rewritten packet differs only within one option and keeps its length and headers |
| `Nfq.Worker.Apply` | executor/common_brf_linux_mptcp.h:534-801 | writes the mutated bytes over the option found; replayed nonces and reset reasons carry over |
| `Nfq.Worker.Dispatch` | executor/common_brf_linux_mptcp.h:882-984 | applies exactly the first eligible kind of mutation, and at most one |
| `Nfq.Worker.Process` | executor/common_brf_linux_mptcp.h:871-1003 | an untouched packet comes out as it was; a rewritten one has one option changed, a valid checksum, and its kind marked as fired |
| `Heatmap.CalculateLengthAndSegments` | prog/heatmap.go:74-126 | segments are non-empty, in order with gaps, in range, cover exactly the positions of chunks that are not constant (or everything if all are), and their lengths add up to the total |
| `Heatmap.TranslateIdx` | prog/heatmap.go:136-148 | fails if and only if the index is not below the total |
| `Heatmap.TranslateCovered` | prog/heatmap.go:136-148 | a translated index lies in a segment |
| `Heatmap.TranslateIncreases` | prog/heatmap.go:136-148 | greater indices lead to greater positions |
| `Heatmap.TranslateReaches` | prog/heatmap.go:136-148 | every position in a segment is reached |

## Left out

- Puff.Puff: the static cache of the fixed tables is not modelled, the tables being built anew for each block; the file and memory mapping around the decoder is not part of this model.
- ExecEncode.SerializeForExec: which arguments carry checksums, over which chunks, comes with the call instead of being computed from types; so does the physical address of a pointer.
- ExecEncode.ExecContext.WriteArg: fields are assumed to fit their packed places (sizes, formats, bit offsets and lengths below 256, strides below 2^32), as types have them.
- ExecDecode.DeserializeExec: a chunk count too large to allocate is reported as a bad stream, where the source panics.
- ExecWalk.Executor.Copyin: the bytes that a store leaves in memory, and the sum of a checksum's chunks, are not part of the walk; SquashMemory has the bytes of plain arguments, Checksum the sum.
- ExecWalk.ExecuteOne: timeouts and per-call attributes, disabled calls among them, play no part in the walk; memory is given anew for each call that comes back.
- Replies.WriteRun: the log of the run is given and its records are written after it, since the main thread alone writes them, in that order.
- Threads.Safety: waiting with a time-out is a choice that any step may make; execution of a call itself, kcov and fault injection are one step; progress is not claimed.
- Output.Region.WriteRecord: which edges, coverage entries and comparisons are kept (hashing, filtering, sorting, removing duplicates) is given, and so is the set of flags of the run; growing and mapping the region is not part of this model.
- Replies.ParseOutput: error texts, and the merging of extra coverage and of comparisons into maps.
- Programs.CloneProg: the plain fields of the argument kinds are one record, and pointee, elements and option are the children of one node class; validation of the copy in debug builds is not part of this model.
- Collide.DupCallCollide: the random permutation is a parameter; originals of more calls than the limit, on which the source panics, are excluded.
- Async.AssignRandomAsync: random choices are a parameter; AssignRandomRerun only repeats flags over pairs and is left out.
- Squash.SquashPtr: sizes of variable-length groups are those recorded in the argument, taken to be at least the sum of the fields, as the size functions compute them; which pointers are worth squashing is left out.
- SquashMemory.SquashedIsMemory: big-endian, string-formatted, per-process and checksum constants are left out, as are units that start before their field.
- Alloc.MemAlloc.Allocate: requests larger than the memory, on which the subtraction of sizes wraps, are excluded; the page allocator is left out, being mostly random choice.
- Checksum.DigestChunks: an inner chunk of odd length gives a digest for which nothing is claimed.
- Nfq.Worker.Process: packets that reach the rewriting are assumed whole and well-formed, and MP_RST and MP_FASTCLOSE of their standard lengths, since the finder guarantees only three bytes; concurrent changes of the pending mutations, the netlink messages around a packet and the verdict are left out.
- Netlink and socket set-up, sandboxes, per-OS pseudo-system calls, coverage hashing, program generation and mutation, hints, and the reporting scripts: kernel interaction, plain tables, or code whose correctness is one reading away.
