# A verified model of libtransistor's core algorithms

This Dafny project models the parts of libtransistor in which a fast or stateful form has to agree with something
simple, and proves that it does, for every input, every run, or every reachable state.

| area | modules | main results |
|---|---|---|
| LZ4 | `Lz4Format`, `Lz4Decoder`, `Lz4Count`, `Lz4Emit`, `Lz4Search`, `Lz4Parse`, `Lz4Compress`, `Lz4DestSize` | a byte-at-a-time reference decoder accepts exactly the encodings with real offsets; the optimised decoder writes their text; both compressors produce well-formed blocks in bounded space, whose sequences are those of the one greedy parse; round trips |
| exact `fmod` | `FmodCore`, `Fmodf`, `Fmod` | the one-word and the two-word shift-and-subtract forms are exact, subnormals included |
| threads | `Semaphore`, `Mutex`, `MutexCalls` | safety over every interleaving of any number of threads, and what every call returns and why |
| swizzled blit | `Blit` | masked subtraction is the successor of a bit deposit; the incremental blit paints exactly the rectangle |
| SquashFS | `SqfsCache`, `SqfsMetadata`, `SqfsFile`, `SqfsBlocks`, `SqfsRead`, `SqfsNames`, `SqfsDir`, `SqfsLookup`, `SqfsWalk`, `SqfsTraverse` | caches are invisible; the block index agrees with stepping; reading a range gives the file's bytes, each from its place on disk; lookup through the directory index agrees with a scan; the resumable walk over the directories on disk is the depth-first walk |
| paths | `PathFs`, `PathWalk` | ownership of inodes over every run; path resolution is a fold over the names, with the laws of `..`, `.`, joining and relative paths |
| IPC | `IpcFormat`, `IpcPack`, `IpcWrite`, `IpcMessage`, `IpcRequest` | packing, unpacking and unflattening give back what was sent, and exactly when what is received depends on memory never written |

`Bits` holds the arithmetic of shifts, masks and bitwise operations that the other modules use; a C shift or mask is
written as multiplication, division or remainder by a power of two. `Types` holds the machine's integer types.
`SqfsExamples` gives a file with a block and a fragment, a file of holes, and a directory with an index that meet the
well-formedness predicates of the SquashFS modules.

## How the model is written

* Code that works on a buffer in place is a method on an `array`; an object whose functions update its fields is a
  `class` (`SqfsCache.Cache`, `SqfsBlocks.Blocklist`, `SqfsDir.Dir`, `SqfsTraverse.Traverse`, `PathWalk.Fs`); the
  thread primitives are step relations whose steps are what the monitor or an atomic operation makes indivisible.
* Integer widths are written out where they can matter: 16-bit positions of the LZ4 hash table, the 32-bit search
  counter, the words of a double, the semaphore's counter (whose overflow is taken to wrap), the 32-bit addresses of the
  blit, the 32-bit metadata offsets of the block index, the four- and ten-bit fields of an IPC header.
* Things outside the code are parameters: the LZ4 hash is any function into the table; a disk is a function from
  positions to blocks; the answers of a file system's `lookup` and of `open_as_file` are functions; the order in which
  threads take steps is arbitrary. So is what memory holds that was never written.
* A successful `trn_fs_chdir` falls off its end without a return value; the model reports success.
* `ghost` parameters name the abstract object that the bytes stand for (a block, a listing, a message). They carry no
  information at run time.

## What is not as promised

Where the code does not keep the obvious property, the code is modelled as it is and the exact condition is proved.

* **LZ4 acceleration.** The search step is computed from `acceleration << 6` in 32 bits, and is 0 exactly when the
  acceleration is a multiple of 2^26 (`Lz4Search.StepIsZeroIff`). A search with a step of 0 whose first two rounds find
  nothing accepts the position it has just stored itself; the search finds nothing but matches, for every source, hash
  and table, exactly when the step is not 0 (`Lz4Search.FindMatch`, `Lz4Search.SearchIsSoundIff`). The compressor then
  writes a match of offset 0 that reaches to the last five bytes. `Lz4Compress.CompressFast` says for every acceleration
  that the reference decoder, which rejects an offset of 0, gets the source back exactly when this has not happened, that
  it takes a multiple of 2^26, and that with one it happens to every source of at least 14 bytes whose first three bytes
  differ. The decoder of the source does not reject such a block: it writes zeros in the place of the match, so that what
  comes back has the length of the source, and is the source exactly when the match has not happened or the source has
  only zeros there (`Lz4Compress.RoundTrip`). `Lz4Compress.AllDifferentIsLost` is an input.
* **Semaphore overflow.** `_sem_post` does not check for the largest value and `sem_init` takes any 32-bit value. The
  field is an `int`: it reads as the balance of tokens throughout a run exactly when it starts at 2^31 - 1 or below and
  no post happens at 2^31 - 1. What waits and posts do depends on the 32-bit pattern alone, which is the balance exactly
  when no post happens at 2^32 - 1 (`Semaphore.ExactIffNeverFull`, for both; `Semaphore.PostAtIntMaxIsNegative` and
  `Semaphore.PostAtTheTopLosesAll` are examples). Signed overflow is taken to wrap.
* **Block index.** A read that starts in the tail fragment of an indexable file looks for an index entry that was never
  recorded exactly when the block list ends where a metadata block does (`SqfsRead.ReadRange`, `astray`;
  `SqfsExamples.HoleyFileIsGood` is such a file). The answer is right all the same, whatever is found there, because the
  whole list is skipped.
* **`realpath` of the root** is the empty string, which names the working directory. The path given for a place leads
  back to it exactly when the place is not the root or is the working directory (`PathFs.RealPathLeadsBack`).
* **Replacing the root** releases the old root and nothing else: the open inodes are those of the new working directory
  exactly when the old one was its root (`PathWalk.Fs.SetRoot`).
* **IPC fields.** Packing accepts 16 descriptors of a type, 16 C descriptors and data of any length, but the header has
  four bits for a count and for the C flags and ten for the size. For every message that can be packed, these fields are
  read as they were meant exactly when there are at most 15 A, B and X descriptors each, at most 13 C descriptors and
  fewer than 1024 words of data section (`IpcMessage.HeadRead`). `IpcMessage.SixteenABuffers` and
  `IpcMessage.FourteenCBuffers` are packed without an error and not read right.
* **IPC protections.** The receiver maps protection bits 2 and 3 to other values than the sender used. A receiver that
  expects the types that were sent refuses a request for its protections exactly when one of them is above 1, and a null
  buffer of type 0x21 loses its size (`IpcRequest.ArrivedAsSent`).
* **IPC plain X buffers.** The receiver holds them against the number of A descriptors, so that it may take an X
  descriptor that it never read. For every request and every expectation of the receiver, what it answers never depends
  on such memory; what it is left with does exactly when it comes to its buffers and one of them is a plain X buffer
  behind the last X descriptor, but not behind the last A descriptor, with no refusal before it
  (`IpcRequest.OutcomeDepends`, from `IpcRequest.ChoiceDepends` for one choice and `IpcRequest.FilledDepends` for one
  buffer). `IpcRequest.XForAIsStray` is an input: one A buffer sent, one X buffer expected.
* **IPC C addresses.** The receiver puts the high halfword of an address into its low one. The size of a C buffer
  arrives; its address does exactly when it is below 2^32 (`IpcRequest.ReceivedCIff`, for the loop
  `IpcRequest.ReadC`).
* **IPC move handles** are copied into an array of sixteen before their number is checked. The copy leaves the array
  exactly when there are more than sixteen (`IpcRequest.PackRequest` answers `HandlesOverrun` there, which the source
  does not report).

## Model

| member | source | states |
|---|---|---|
| `Lz4Format.CopyMatchRepeats` | lib/lz4.c:1306-1332 | the one-byte-at-a-time overlapping copy extends the text by a repetition with period `offset`, and keeps the text before it |
| `Lz4Format.RepeatsIsCopyMatch` | lib/lz4.c:1306-1332 | any longer text that repeats with that period is that copy, so the two descriptions agree |
| `Lz4Format.RepeatsMultiple` | lib/lz4.c:1308-1318 | in a repeating text, places a whole number of periods apart hold the same byte |
| `Lz4Format.ZerosAreCopyMatch` | lib/lz4.c:1262-1332 | with an offset of 0, a match is that many zeros |
| `Lz4Format.LengthAt` | lib/lz4.c:1231-1240 | reading a length undoes its encoding as nibble and continuation bytes, wherever it stands in the input |
| `Lz4Format.ParseSequence` | lib/lz4.c:1206-1280 | parsing at the start of an encoded sequence gives back its literals, offset and match length, and where the next one starts; an offset of 0 is malformed |
| `Lz4Format.ReferenceDecodesEncoding` | lib/lz4.c:1206-1344 | for every valid block, the reference decoder run on its encoding gives its text exactly when every offset is at least 1, and otherwise nothing |
| `Lz4Format.ReferenceAcceptsExactlyEncodings` | lib/lz4.c:1206-1344 | the reference decoder yields a text exactly when the bytes are the encoding of a valid block with that text and no offset of 0 |
| `Lz4Decoder.TablesAreMultiples` | lib/lz4.c:1193-1194 | for offsets below 8 the two tables step back by whole periods, far enough for a 4-byte and then an 8-byte copy |
| `Lz4Decoder.WildCopyIn` | lib/lz4.c:280-287 | copying whole words from the input writes the wanted bytes and at most 8 past them |
| `Lz4Decoder.WildCopyBack` | lib/lz4.c:280-287 | copying whole words inside the output continues a repetition although source and destination overlap |
| `Lz4Decoder.StartSmallOffset` | lib/lz4.c:1308-1317 | four single bytes and one table-driven copy give the first eight bytes of a match with offset below 8, and a place whole periods back |
| `Lz4Decoder.StartZeros` | lib/lz4.c:1262-1317 | with an offset of 0, the four zeros written before it become eight |
| `Lz4Decoder.StartMatch` | lib/lz4.c:1306-1317 | the first eight bytes of a match, for every offset, and a place whole periods back to go on from |
| `Lz4Decoder.FinishNearEnd` | lib/lz4.c:1319-1327 | near the end of the output the rest of the match is completed without a byte written past the output |
| `Lz4Decoder.FinishFast` | lib/lz4.c:1328-1331 | away from the end the overshooting copies complete the match, also one of offset 0 |
| `Lz4Decoder.CopyMatchInto` | lib/lz4.c:1306-1332 | the whole match copy equals the one-byte-at-a-time copy, for every offset and length, and is zeros for offset 0 |
| `Lz4Decoder.ShortcutCopy` | lib/lz4.c:1220-1226 | copying 16 literal and 18 match bytes whatever the lengths leaves the right text |
| `Lz4Decoder.ReadLiteralLength` | lib/lz4.c:1231-1240 | the literal-length loop reads the encoded length although it may stop fifteen bytes before the end |
| `Lz4Decoder.ReadMatchLength` | lib/lz4.c:1268-1279 | the match-length loop reads the encoded length and stays clear of the last literals |
| `Lz4Decoder.DecodeSequence` | lib/lz4.c:1242-1332 | one sequence appends its literals and its match and moves the input behind it |
| `Lz4Decoder.ShortSequence` | lib/lz4.c:1217-1223 | a token with two short lengths and sixteen bytes behind it always belongs to a sequence with a match |
| `Lz4Decoder.TryShortcut` | lib/lz4.c:1213-1229 | the shortcut does a whole sequence or nothing |
| `Lz4Decoder.DecodeBlock` | lib/lz4.c:1183-1344 | on the encoding of every well-formed block, offsets of 0 included, and with room for its text, the main loop writes exactly that text and returns its length |
| `Lz4Decoder.DecompressSafe` | lib/lz4.c:1348-1351 | on every well-formed block it writes the text of the block, which is what the reference decoder yields unless an offset is 0; with no room at all it answers as the source does |
| `Lz4Count.CommonIsLongest` | lib/lz4.c:416-439 | the specified length is the longest common prefix: equal up to it, different behind it |
| `Lz4Count.FirstDifference` | lib/lz4.c:343-352 | the trailing zero bits of the xor of two different words, divided by 8, count their common bytes |
| `Lz4Count.CountWords` | lib/lz4.c:416-429 | the word loop finds the end of the match or leaves fewer than eight bytes |
| `Lz4Count.Count` | lib/lz4.c:416-439 | the word, half-word, two-byte and byte steps return exactly the longest common prefix up to the limit |
| `Lz4Emit.EmitLength` | lib/lz4.c:630-636 | the simple length loop writes the continuation bytes of the format |
| `Lz4Emit.EmitLengthByFour` | lib/lz4.c:670-681 | writing four bytes of 255 at a time gives the same bytes, at most three ahead |
| `Lz4Emit.EmitLiterals` | lib/lz4.c:624-641 | token, length and literals are the literal part of the format, the copy overshooting at most eight bytes |
| `Lz4Emit.EmitMatchLength` | lib/lz4.c:647-683 | with the match length written and the token updated, the output ends with the encoding of the sequence |
| `Lz4Emit.EmitLast` | lib/lz4.c:713-729 | the last literals are written as the format ends a block |
| `Lz4Search.PutPosition` | lib/lz4.c:500-508 | the store into a 16-bit or 32-bit table loses nothing of the position, and entries stay in front of the search |
| `Lz4Search.SearchCounterBounded` | lib/lz4.c:594-600 | inside the largest input the 32-bit search counter does not wrap |
| `Lz4Search.StepIsZeroIff` | lib/lz4.c:594-600 | the step that the 32-bit shift gives is 0 exactly for multiples of 2^26 |
| `Lz4Search.FindMatch` | lib/lz4.c:592-619 | for every acceleration, something is found exactly when some round of the search comes by a place in reach that starts with the same four bytes, and it is what the first such round has found; the rounds look at the positions that the skip arithmetic gives. It is the position itself exactly when the step is 0 and the first two rounds find nothing |
| `Lz4Search.NearIff` | lib/lz4.c:616-618 | the end condition of the search loop is being within 65535 bytes and agreeing in four bytes |
| `Lz4Search.NextStep` | lib/lz4.c:594-600 | the 32-bit counter makes the steps 1, then 64 times the acceleration, then 64 times one more, and so on |
| `Lz4Search.FirstHitDecides` | lib/lz4.c:592-619 | the first round that hits, or the end of the source before one, decides the whole search |
| `Lz4Search.Rounds` | lib/lz4.c:592-619 | what each of the three rounds of a search with a step of 0 does, and that the third one ends it |
| `Lz4Search.SearchIsSoundIff` | lib/lz4.c:592-619 | the search finds nothing but matches for every source, table and hash exactly when the acceleration is not a multiple of 2^26 |
| `Lz4Search.MeetsItselfInAllDifferent` | lib/lz4.c:592-619 | fourteen different bytes on which the search finds the position itself |
| `Lz4Search.CatchUp` | lib/lz4.c:621-622 | extending backwards keeps the distance and the equality of the bytes, and goes as far as the anchor and the start of the source allow |
| `Lz4Search.NextPosition` | lib/lz4.c:690-707 | the immediate test of the next position goes on exactly when the place in the table, two positions back or older, is a match; what it leaves in the table |
| `Lz4Search.MatchReproduces` | lib/lz4.c:643-665 | an overlapping copy of a found match, cut to any length up to the common one, reproduces the source |
| `Lz4Parse.GreedyIsUnique` | lib/lz4.c:586-711 | source, table width, hash, acceleration and room decide the sequences of the parse |
| `Lz4Parse.Locate` | lib/lz4.c:592-622 | search and catch-up are a step of the parse: to the first hit, moved back as far as it reaches, or to the end |
| `Lz4Parse.TestNext` | lib/lz4.c:690-710 | behind a match the parse goes on with another match at once, or with a search from the next position |
| `Lz4Parse.OneByteGreedy` | lib/lz4.c:586-711 | a source of one byte is parsed into that byte and one match, whatever the hash and the acceleration |
| `Lz4Compress.SequenceCost` | include/lz4.h:156-157 | every sequence costs at most 256 bytes for 255 bytes of text, however its lengths are spread |
| `Lz4Compress.WriteSequence` | lib/lz4.c:643-688 | one more sequence keeps "the output encodes the source up to the anchor, cheaply, clear of the end of the block" |
| `Lz4Compress.WriteZeros` | lib/lz4.c:643-688 | a match of offset 0 that reaches to the last literals encodes the source with zeros in its place |
| `Lz4Compress.OneMore` | lib/lz4.c:643-688 | behind the next sequence the output encodes the source up to the anchor, or the source with zeros from where a search met itself up to the last literals |
| `Lz4Compress.EncodeMatches` | lib/lz4.c:643-707 | a chain of immediate matches keeps this, and follows the parse; a match with itself is the last |
| `Lz4Compress.GreedyMatch` | lib/lz4.c:662-665 | without a limit to the output, every match is taken as far as it goes |
| `Lz4Compress.CompressSequences` | lib/lz4.c:586-711 | the whole main loop keeps it, for every acceleration, and is the whole parse |
| `Lz4Compress.CompressGeneric` | lib/lz4.c:532-733 | the output is at most n + n/255 + 16 bytes, every intermediate write staying inside that bound, and is a well-formed block of the greedy parse for exactly the source, or, with a step of 0 only, for the source with zeros from a known place up to the last five bytes |
| `Lz4Compress.CompressFast` | lib/lz4.c:736-753 | for every source, hash and acceleration, the reference decoder gets the source back exactly when no search has met itself; that takes a multiple of 2^26, and with one it happens to every source of 14 bytes or more whose first three bytes differ; the sequences are those of the greedy parse, and n equal bytes are packed into 10 + (n + 230) / 255 bytes; sources that are too large give 0 |
| `Lz4Compress.OneByteBlock` | lib/lz4.c:586-729 | the block that a source of one byte becomes, and its size |
| `Lz4Compress.RoundTrip` | lib/lz4.c:736-753 | for every acceleration, compressing and then decoding into any buffer that is large enough gives as many bytes as the source has, and the source itself exactly when no search has met itself or there are only zeros where it did; always for an acceleration that is not a multiple of 2^26 |
| `Lz4Compress.WipedIsSame` | lib/lz4.c:1262-1332 | writing zeros changes nothing exactly where there were only zeros |
| `Lz4Compress.FirstSearch` | lib/lz4.c:580-619 | on an empty table the first search of such a source meets itself, whatever the hash |
| `Lz4Compress.AllDifferentIsLost` | lib/lz4.c:736-753 | an input that comes back as nine zeros and its last five bytes |
| `Lz4DestSize.FinishedInRoom` | lib/lz4.c:926-944 | as many last literals as there is room for make a well-formed block for a prefix of the source |
| `Lz4DestSize.EncodeCutMatch` | lib/lz4.c:884-904 | a match, cut to the longest that there is room for, keeps the end-of-block rules and what has been encoded |
| `Lz4DestSize.BeginInRoom` | lib/lz4.c:860-881 | literals are started exactly when a match and the last literals still fit behind them; a step of the parse into the room |
| `Lz4DestSize.FillGeneric` | lib/lz4.c:798-951 | a well-formed block for exactly the first `consumed` bytes, inside the target, which is filled up to one byte and a small fraction unless everything was consumed; its sequences are those of the greedy parse into that room |
| `Lz4DestSize.CompressDestSize` | lib/lz4.c:954-979 | the same for the public function, for every source and every target size; of n equal bytes, the smaller of n and 24 + 255 (target - 10) are consumed, for a target of at least 13 |
| `Lz4DestSize.OneByteFilled` | lib/lz4.c:798-951 | how much of a source of one byte goes into a target, exactly |
| `Lz4DestSize.PrefixRoundTrip` | lib/lz4.c:954-979 | decoding with room for exactly the consumed count gives back exactly that prefix |
| `FmodCore.RemainderIsExact` | openlibm/src/e_fmod.c:95-107 | the remainder of the aligned significands, in the scale of the divisor, is the remainder of the numbers |
| `FmodCore.SubnormalResult` | openlibm/src/e_fmod.c:119-131 | the final right shift of a subnormal result drops only zero bits |
| `FmodCore.Normalised` | openlibm/src/e_fmod.c:112-115 | normalising by some places moves the exponent down by as many and keeps the number |
| `Fmodf.UnitsOrder` | openlibm/src/e_fmodf.c:46-48 | the order of the bit patterns is the order of the magnitudes, subnormals included |
| `Fmodf.ILogB` | openlibm/src/e_fmodf.c:50-58 | counting shifts finds the exponent of a subnormal |
| `Fmodf.FixPoint` | openlibm/src/e_fmodf.c:74-86 | the shift-and-subtract rounds compute the remainder of the shifted significand |
| `Fmodf.Pack` | openlibm/src/e_fmodf.c:95-104 | packing as a normal or subnormal number loses nothing and sets the sign |
| `Fmodf.Fmodf` | openlibm/src/e_fmodf.c:31-105 | the magnitude is exactly that of x modulo that of y, the sign is that of x; infinite y gives x; outside the domain, and only there, the result is not a number |
| `Fmod.UnitsOrder` | openlibm/src/e_fmod.c:45-49 | the order of the word pairs is the order of the magnitudes |
| `Fmod.ILogB` | openlibm/src/e_fmod.c:51-67 | counting shifts in the high or the low word finds the exponent |
| `Fmod.ShlWords` | openlibm/src/e_fmod.c:72-77 | two shifted words with the carried bits are the shifted pair |
| `Fmod.SetUp` | openlibm/src/e_fmod.c:69-93 | normal and subnormal operands become significands with the top bit in place |
| `Fmod.FixPoint` | openlibm/src/e_fmod.c:95-107 | the two-word rounds, with borrow and carry, compute the remainder of the shifted significand |
| `Fmod.Normalise` | openlibm/src/e_fmod.c:112-115 | the loop brings the top bit back and moves the exponent |
| `Fmod.ShiftDown` | openlibm/src/e_fmod.c:120-129 | all three forms of the right shift give the shifted pair with the sign in the high word |
| `Fmod.Pack` | openlibm/src/e_fmod.c:116-132 | packing as a normal or subnormal number loses nothing and sets the sign |
| `Fmod.NaNTest` | openlibm/src/e_fmod.c:42-44 | the bit test on both words is true exactly for a y that is not a number |
| `Fmod.Fmod` | openlibm/src/e_fmod.c:29-133 | the same exactness for doubles, for all operands |
| `Semaphore.WaitKeeps` | pthread/rthread_sem.c:64-72 | entering a wait keeps the invariant |
| `Semaphore.ResumeKeeps` | pthread/rthread_sem.c:72-86 | coming back from the monitor keeps it, whether the thread takes a token, gives up or sleeps again |
| `Semaphore.PostKeeps` | pthread/rthread_sem.c:100-107 | a post, with or without a thread to wake, keeps it |
| `Semaphore.StepKeeps` | pthread/rthread_sem.c:54-109 | every step of any thread keeps the invariant |
| `Semaphore.EveryRunIsSafe` | pthread/rthread_sem.c:54-109 | after every run the counter is the initial value, more by the posts and less by the waits that returned 0, in 32 bits, and that balance is not negative; `waitcount` counts exactly the threads in the wait loop, and while anyone sleeps the value is at most the number of signalled threads on their way |
| `Semaphore.WaitReturns` | pthread/rthread_sem.c:64-71 | a wait that begins, a try or not, takes a token and returns 0 exactly when the value is positive, returns EAGAIN exactly when it is 0 and only tries, and otherwise sleeps |
| `Semaphore.ResumeReturns` | pthread/rthread_sem.c:72-86 | a woken wait returns ETIMEDOUT, EINTR or 0 exactly as it was woken, cancelled and finds the value |
| `Semaphore.WokenInRun` | pthread/rthread_sem.c:54-109 | in every run, which set a thread is in says what has happened to it last |
| `Semaphore.AnswersAreRight` | pthread/rthread_sem.c:54-109 | in every run, each of the four results is returned exactly under its condition on the value and on the last thing that happened to the thread; a token is taken exactly with result 0 |
| `Semaphore.RunCounts` | pthread/rthread_sem.c:54-109 | in every run posts are counted by events and taken tokens by results of 0 |
| `Semaphore.SleeperIsCovered` | pthread/phal.h:17-30 | when a token is there and someone sleeps, a signalled thread exists whose next step takes it: no post is lost |
| `Semaphore.ExactIffNeverFull` | pthread/rthread_sem.c:100-101 | read with any top, as an int or as a pattern, the counter equals the balance throughout a run exactly when it starts at the top or below and no post meets the top |
| `Semaphore.PostAtIntMaxIsNegative` | pthread/thread_private.h:284-289 | one post at 2^31 - 1 makes the field negative although the tokens are there |
| `Semaphore.PostAtTheTopLosesAll` | pthread/rthread_sem.c:100-101 | one post at 2^32 - 1 leaves 0 |
| `Mutex.OthersKeep` | pthread/rthread_mutex.c:93-214 | a step that changes the shared part only for its own thread leaves the other threads' part of the invariant |
| `Mutex.LockStepKeeps` | pthread/rthread_mutex.c:93-214 | every atomic step of lock, trylock and timedlock keeps the invariant |
| `Mutex.UnlockStepKeeps` | pthread/rthread_mutex.c:234-296 | every atomic step of unlock keeps it |
| `Mutex.StepKeeps` | pthread/rthread_mutex.c:93-296 | every enabled step of every thread keeps it |
| `Mutex.MutualExclusion` | pthread/rthread_mutex.c:93-296 | in every interleaving at most one thread holds the mutex |
| `Mutex.EveryRunIsSafe` | pthread/rthread_mutex.c:93-296 | the lock word is 0, 1 or 2 and nonzero exactly while someone holds the mutex, the owner is nobody or the holder, and the count is the holder's nesting depth minus one |
| `Mutex.OnlyTheHolderReleases` | pthread/rthread_mutex.c:234-296 | no step of another thread takes the mutex from its holder or touches owner and count |
| `MutexCalls.LockReturns` | pthread/rthread_mutex.c:93-214 | which step of a lock call returns which result, exactly, in terms of who holds the mutex how often |
| `MutexCalls.UnlockReturns` | pthread/rthread_mutex.c:256-295 | the same for unlock |
| `MutexCalls.StepTakes` | pthread/rthread_mutex.c:99-214 | a thread gets the mutex exactly at an attempt while nobody has it |
| `MutexCalls.StepFrees` | pthread/rthread_mutex.c:285-295 | and gives it back exactly at the step that frees the lock word |
| `MutexCalls.SleepersAreMarked` | pthread/rthread_mutex.c:187-208 | a thread goes to sleep only behind a contended lock word, and such a word is freed with a signal |
| `MutexCalls.RefusedIff` | pthread/rthread_mutex.c:256-262 | an unlock is refused exactly to a thread that does not hold the mutex |
| `MutexCalls.LooksBecauseFailed` | pthread/rthread_mutex.c:99-106 | in every run, a thread looks at the owner because its last step was an attempt on a mutex that somebody had |
| `MutexCalls.ResultsAreTrue` | pthread/rthread_mutex.c:93-296 | in every interleaving EBUSY, EDEADLK, EPERM, ETIMEDOUT and success say the truth |
| `MutexCalls.LockFree` | pthread/rthread_mutex.c:216-232 | without interference, every lock call takes a free mutex |
| `MutexCalls.LockTaken` | pthread/rthread_mutex.c:93-176 | of a mutex that another thread has, a trylock says so and the other calls wait |
| `MutexCalls.WaitsAndTakes` | pthread/rthread_mutex.c:170-213 | a waiting call takes the mutex once it is free |
| `MutexCalls.LockAgain` | pthread/rthread_mutex.c:106-129 | locking again what one has does what the kind of the mutex asks for |
| `MutexCalls.UnlockMine` | pthread/rthread_mutex.c:278-295 | an unlock by the holder undoes one lock, and frees the mutex exactly when it was the last |
| `MutexCalls.UnlockOther` | pthread/rthread_mutex.c:256-276 | an unlock by another thread answers by the kind of the mutex and changes nothing for the others |
| `Blit.Pdep` | lib/gfx/blit.c:4-15 | the loop is the bit deposit |
| `Blit.MaskedIncrement` | lib/gfx/blit.c:48-51 | subtracting the mask and masking moves the deposit of v to that of v + 1, carries and wrap-around included, for every mask and width |
| `Blit.Reassemble` | lib/gfx/blit.c:17-18 | depositing what the two complementary masks extract gives the number back |
| `Blit.ExtractSum` | lib/gfx/blit.c:17-18 | extracting through one mask does not see what was deposited through the other |
| `Blit.PixelAtAddress` | lib/gfx/blit.c:17-38 | every pixel can be read back from its address, so distinct pixels have distinct addresses |
| `Blit.AddressOfPixelAt` | lib/gfx/blit.c:17-38 | every 32-bit address belongs to the pixel read from it |
| `Blit.RowOfTiles` | lib/gfx/blit.c:35-38 | adding row increments to a column's swizzle is the swizzle of the column in a later row of tiles |
| `Blit.SwizzleYZero` | lib/gfx/blit.c:51-52 | the row part of the address is 0 exactly on the first row of a tile |
| `Blit.BlitRow` | lib/gfx/blit.c:42-49 | one row paints exactly its pixels |
| `Blit.SwizzlingBlit` | lib/gfx/blit.c:20-54 | afterwards an address holds the image pixel of the pixel it belongs to if that lies in the rectangle, and otherwise what it held |
| `SqfsCache.AddedWellFormed` | lib/squashfs/cache.c:72-81 | adding after a miss keeps the valid keys distinct |
| `SqfsCache.EntrySurvives` | lib/squashfs/cache.c:72-81 | an entry survives the next count - 1 additions, whatever they are |
| `SqfsCache.Cache.constructor` | lib/squashfs/cache.c:31-45 | a new cache is well-formed and holds nothing |
| `SqfsCache.Cache.Get` | lib/squashfs/cache.c:63-70 | the entry with the key, exactly when there is one |
| `SqfsCache.Cache.Add` | lib/squashfs/cache.c:72-81 | replaces the oldest slot and nothing else |
| `SqfsMetadata.BytesJoin` | lib/squashfs/fs.c:232-258 | reading n bytes and then m is reading n + m |
| `SqfsMetadata.CursorMoves` | lib/squashfs/fs.c:243-256 | taking bytes from the block the cursor stands in moves it to the flat position behind them |
| `SqfsMetadata.MdCache` | lib/squashfs/fs.c:190-205 | through the cache, a metadata block is what the disk holds |
| `SqfsMetadata.MdRead` | lib/squashfs/fs.c:232-258 | whatever the cache holds, a read gives the bytes of one flat stream and leaves the cursor behind them |
| `SqfsFile.CountFacts` | lib/squashfs/file.c:69-77 | the number of listed blocks covers the file up to a tail shorter than a block, or covers all of it |
| `SqfsFile.DataSizeClears` | lib/squashfs/fs.c:117-120 | the size of a block is its word with bit 24 cleared and every other bit kept |
| `SqfsFile.HoleIff` | lib/squashfs/file.c:155-170 | a block is a hole exactly when its word is 0 or 2^24 |
| `SqfsFile.BlockFacts` | lib/squashfs/file.c:155-170 | every listed block starts inside the file and has the length its place demands |
| `SqfsFile.TextLength` | lib/squashfs/file.c:155-170 | the first i blocks end at position i * block size or at the end of the file |
| `SqfsBlocks.Blocklist.constructor` | lib/squashfs/file.c:79-87 | a new block list stands in front of block 0 |
| `SqfsBlocks.Blocklist.Next` | lib/squashfs/file.c:89-111 | stepping gives block i its place in the file, its address on disk and its size word, and fails exactly behind the last |
| `SqfsBlocks.NewBlock` | lib/squashfs/file.c:341-348 | for every alignment of the list, the cursor's offset is below 4 exactly where a metadata block begins |
| `SqfsBlocks.RoomForEntries` | lib/squashfs/file.c:332-338 | the table is large enough for every entry the loop writes |
| `SqfsBlocks.BuildIndex` | lib/squashfs/file.c:314-363 | the index has exactly the entries of the metadata blocks in which a size word starts, each with the right data address and metadata offset |
| `SqfsBlocks.GetIndex` | lib/squashfs/file.c:385-393 | from the cache or built anew, it is the index of this file |
| `SqfsBlocks.LookedUp` | lib/squashfs/file.c:378-397 | which entry is looked up, how many blocks it skips, and exactly when it was recorded |
| `SqfsBlocks.MissingSkipsAll` | lib/squashfs/file.c:395-404 | where no entry was recorded, the whole list is skipped |
| `SqfsBlocks.EntryCursor` | lib/squashfs/file.c:395-404 | an entry takes cursor and data address to where stepping over the skipped blocks would |
| `SqfsBlocks.FastForward` | lib/squashfs/file.c:365-406 | cursor, remaining count, position and next data address are those after stepping, or the list is behind its last block; at most 2047 blocks are left to step when the index is used; the entry looked for was never recorded exactly in the stated case |
| `SqfsRead.DataCache` | lib/squashfs/fs.c:207-220 | through the cache, a data or fragment block is what the disk holds |
| `SqfsRead.BlockPiece` | lib/squashfs/file.c:172-184 | a piece of a block is the piece of the file at the block's position |
| `SqfsRead.TailPiece` | lib/squashfs/file.c:47-67 | a piece of the fragment is the piece of the file behind its last full block |
| `SqfsRead.AddrIsSum` | lib/squashfs/file.c:103-104 | block i lies behind the start by the sum of the sizes before it |
| `SqfsRead.FileByteAt` | lib/squashfs/file.c:47-191 | every byte of a file is a zero of a hole, the byte of the stored block at the sum of the sizes before it, or a byte of the fragment |
| `SqfsRead.RangeMeans` | lib/squashfs/file.c:113-194 | when a read is refused, exactly, and otherwise how many bytes it gives and where each comes from on disk |
| `SqfsRead.Fetch` | lib/squashfs/file.c:155-170 | a listed block, a hole read as zeros of the right length |
| `SqfsRead.ReadBlocks` | lib/squashfs/file.c:140-191 | the loop gives the file's bytes from start to start + size or the end of the file |
| `SqfsRead.ReadRange` | lib/squashfs/file.c:113-194 | for every file, start and size, whatever the four caches and an unrecorded index entry hold, exactly the bytes of the range, the empty read at the end, and the errors; and exactly when an unrecorded entry is read |
| `SqfsRead.TailOfFullListIsMissed` | lib/squashfs/file.c:373-383 | the numbers of a file for which a read of the tail looks for an unrecorded entry |
| `SqfsExamples.HoleyFileIsGood` | lib/squashfs/file.c:373-383 | a well-formed file with these numbers |
| `SqfsRead.WithoutFragmentNoneIsMissed` | lib/squashfs/file.c:373-383 | without a fragment this happens for no start |
| `SqfsWalk.WalkIsComplete` | lib/squashfs/traverse.c:134-199 | without pruning the walk reports every entry once, in preorder, and ends every directory once, in postorder |
| `SqfsWalk.PrunedWalk` | lib/squashfs/traverse.c:134-204 | for every pattern of prune calls, the walk reports in preorder and ends in postorder the tree without what lies below the pruned entries |
| `SqfsTraverse.IsDirIff` | lib/squashfs/nonstd-stat.c:36-61 | an entry is a directory exactly when its type is the plain or the extended directory |
| `SqfsTraverse.Traverse.constructor` | lib/squashfs/traverse.c:93-115 | a new traversal of a directory on disk has the whole walk of its tree still to report |
| `SqfsTraverse.ReadLevel` | lib/squashfs/traverse.c:143-150 | the next entry on disk is the next one of the tree, and the level then reads as what is left |
| `SqfsTraverse.Traverse.GetNext` | lib/squashfs/traverse.c:141-152 | reading the next entry, or finding none, leaves the reports to come unchanged |
| `SqfsTraverse.Traverse.PathRemove` | lib/squashfs/traverse.c:242-249 | removes that many characters, or all |
| `SqfsTraverse.Traverse.DescendInto` | lib/squashfs/traverse.c:275-308 | opening the directory of an entry leaves the reports to come unchanged and appends a slash to the path |
| `SqfsTraverse.Traverse.AscendFrom` | lib/squashfs/traverse.c:310-322 | leaving a directory is its end report, with its own path |
| `SqfsTraverse.Traverse.Prune` | lib/squashfs/traverse.c:201-204 | pruning drops exactly what lies below the entry just reported |
| `SqfsTraverse.Traverse.Next` | lib/squashfs/traverse.c:134-199 | whatever the metadata cache holds, each call reports the first of the reports to come, with the names from the root joined by slashes as path, and leaves the others; it finds nothing exactly when none is left |
| `SqfsTraverse.WalkAll` | lib/squashfs/traverse.c:134-204 | for every tree on disk and every pattern of prune calls, calling next until it finds nothing terminates without error and shows exactly the depth-first walk |
| `SqfsNames.CompareMeans` | lib/squashfs/dir.c:242-244 | `strncmp` over the length of a name, with the lengths, decides both directions of the order and equality, prefixes included |
| `SqfsNames.EqualIsSame` | lib/squashfs/dir.c:268-270 | equal over the length and equal in length means the same name |
| `SqfsDir.ItemHeadRead` | lib/squashfs/dir.c:140-149 | the fields of an entry are read back from its bytes |
| `SqfsDir.RunHeadRead` | lib/squashfs/dir.c:135-138 | the fields of a header are read back from its bytes |
| `SqfsDir.ResolveSplits` | lib/squashfs/dir.c:146-150 | the inode of an entry is read back as block and offset, and its number is that of the header moved by a signed distance |
| `SqfsDir.Open` | lib/squashfs/dir.c:56-76 | a directory that was opened stands in front of the first entry of its listing |
| `SqfsDir.Dir.Read` | lib/squashfs/dir.c:49-53 | a read gives the bytes ahead and moves cursor and offset together |
| `SqfsDir.Dir.ReadHeader` | lib/squashfs/dir.c:131-138 | a header makes its items the current ones and loses no entry |
| `SqfsDir.Dir.ReadItem` | lib/squashfs/dir.c:140-155 | an item gives name, type, inode and the signed inode number of the listing |
| `SqfsDir.Dir.Next` | lib/squashfs/dir.c:124-159 | hands out the entries of the listing in order, across headers and metadata blocks, with their offsets, and ends exactly behind the last |
| `SqfsLookup.SkipSmaller` | lib/squashfs/dir.c:232-248 | in a sorted listing, entries before one that is not behind the name cannot have the name |
| `SqfsLookup.StopAtLarger` | lib/squashfs/dir.c:266-273 | behind an entry that does not come before the name, the name does not come |
| `SqfsLookup.FindMeans` | lib/squashfs/dir.c:249-277 | what a scan finds: an entry exactly when there is one with the name, and in a sorted listing the only one |
| `SqfsLookup.HeaderCursor` | lib/squashfs/dir.c:183-188 | the cursor put together from an index item and the directory's offset stands at the header |
| `SqfsLookup.StopsIff` | lib/squashfs/dir.c:242-244 | the callback stops exactly when the header's first name is behind the name |
| `SqfsLookup.FastForward` | lib/squashfs/dir.c:162-190 | the directory stands at a header from which a search gives the same answer as from the start |
| `SqfsLookup.Lookup` | lib/squashfs/dir.c:249-277 | for every name, sorted listing and index of first names, exactly what a scan of all entries finds |
| `PathFs.RealPathLeadsBack` | lib/fs/fs.c:118-159 | the path given for a place resolves to that place exactly when the place is not the root or is the working directory |
| `PathFs.ResolveReaches` | lib/fs/fs.c:38-116 | resolving keeps "every level was found by its name below the one before", at most 256 levels deep |
| `PathFs.SegmentsMore` | lib/fs/fs.c:51-63 | a slash and a name behind a path add that name to its names |
| `PathFs.SegmentsJoin` | lib/fs/fs.c:51-63 | the names of two paths with a slash between them are the names of both |
| `PathFs.ResolveJoin` | lib/fs/fs.c:38-116 | a path behind a path is resolved from where the first one leads |
| `PathFs.ResolveUp` | lib/fs/fs.c:64-79 | `..` leads to the place above and from the root to the root; `.` and a slash at the end stay |
| `PathFs.ResolveDown` | lib/fs/fs.c:80-99 | any other name is looked up, up to 256 levels; down by a name and up again is nowhere |
| `PathFs.RelativeIsAbsolute` | lib/fs/fs.c:38-116 | a relative path means what it means behind the path of the working directory |
| `PathWalk.Fs.constructor` | lib/fs/fs.c:22-34 | a new root is the working directory and nothing else is open |
| `PathWalk.Fs.SetRoot` | lib/fs/fs.c:22-34 | the old root is released, the new one becomes the working directory, and the open inodes are those of it exactly when the old working directory was its root |
| `PathWalk.Fs.ReleaseFrom` | lib/fs/fs.c:111-115 | releases each inode of a range exactly once and nothing else |
| `PathWalk.Pops` | lib/fs/fs.c:65-76 | going up releases an inode the traversal owns, which is open, or borrows one less |
| `PathWalk.Fs.Step` | lib/fs/fs.c:64-99 | one segment changes the stack as following one name does, keeping exactly the owned inodes open |
| `PathWalk.Fs.FollowPath` | lib/fs/fs.c:51-116 | the parsing loop folds the names of the path; on an error everything it opened is released |
| `PathWalk.Fs.Traverse` | lib/fs/fs.c:38-116 | the resolved stack is the fold from the root or the working directory, its borrowed part that of the working directory, its owned part open and new |
| `PathWalk.Fs.OpenAs` | lib/fs/fs.c:161-195 | opens what the path resolves to, and leaves the open inodes and the working directory as they were |
| `PathWalk.Fs.RealPath` | lib/fs/fs.c:118-159 | the joined names of what the path resolves to if they fit, and no inode stays open |
| `PathWalk.Fs.ChangeDir` | lib/fs/fs.c:197-213 | the working directory becomes what the path resolves to, with the same root, and the open inodes are exactly its levels; on an error nothing changes |
| `PathWalk.Adopted` | lib/fs/fs.c:205-211 | releasing the levels only the old working directory has leaves exactly those of the new one open |
| `IpcFormat.CountsRecovered` | lib/ipc.c:177-182 | the four-bit fields of header field 1 give back the counts exactly when each is below 16 |
| `IpcFormat.KindRecovered` | lib/ipc.c:177-182 | the type is given back whatever the counts are |
| `IpcFormat.SizesRecovered` | lib/ipc.c:184-198 | the ten-bit size and the four-bit C flags of header field 2 are given back exactly when they fit, and the handle flag always |
| `IpcPack.Group` | lib/ipc.c:115-175 | each buffer becomes its descriptors, in order, or the first unsupported or surplus buffer is the error |
| `IpcPack.XRead` | lib/ipc.c:642-652 | address, size and number are read back from the words of an X descriptor |
| `IpcPack.ABRead` | lib/ipc.c:654-674 | address, size and protection are read back from the words of an A or B descriptor |
| `IpcPack.CRead` | lib/ipc.c:310-312 | address and size are read back from the words of a C descriptor |
| `IpcPack.ListedIff` | lib/ipc.c:284-293 | a C descriptor has its length in the list exactly when bit 4 of its type is clear |
| `IpcPack.CCountIff` | lib/ipc.c:679-688 | the number of C descriptors is told from their flags exactly when there are at most 13 |
| `IpcWrite.WriteX` | lib/ipc.c:220-240 | writes the X descriptors over nothing else, or fails with the first invalid one |
| `IpcWrite.WriteAB` | lib/ipc.c:242-265 | the same for A and B descriptors |
| `IpcWrite.WriteLengths` | lib/ipc.c:281-294 | the list of 16-bit lengths holds the lengths of the C buffers without flag 0x10, in order |
| `IpcWrite.WriteC` | lib/ipc.c:298-313 | the same for C descriptors |
| `IpcMessage.WriteData` | lib/ipc.c:269-294 | the data lies aligned to four words, and the padding before and behind it adds up to four |
| `IpcMessage.PackMessage` | lib/ipc.c:104-316 | fails with the first thing that is wrong, or leaves headers, handles, descriptors, data and lengths at their places |
| `IpcMessage.CBufferAt` | lib/ipc.c:298-313 | in every packed message the words of C descriptor i give back the address and the size of C buffer i |
| `IpcMessage.HeadRead` | lib/ipc.c:522-552 | for every message that can be packed, the counts, C flags and section size are read as meant exactly when all of them fit; the type and the handle descriptor always |
| `IpcMessage.Unpack` | lib/ipc.c:519-581 | type, pid and handles of every packed message are found again; all counts exactly when they fit, and then every part and the start of the C descriptors; the data is aligned and pre + post padding = 4 |
| `IpcMessage.SixteenABuffers` | lib/ipc.c:149-182 | sixteen A buffers are packed without an error under the header of no A and one B buffer |
| `IpcMessage.FourteenCBuffers` | lib/ipc.c:184-198 | fourteen C buffers are packed without an error under the C flags of none |
| `IpcRequest.PackRequest` | lib/ipc.c:318-424 | a session request is packed as its message, or the first thing that goes wrong is given; the copy of the move handles leaves its array exactly when there are more than sixteen |
| `IpcRequest.RequestIdAt` | lib/ipc.c:383-393 | in every packed request the magic, the request id and the raw data are at words 0, 2 and 4 of the data section |
| `IpcRequest.ReadAB` | lib/ipc.c:654-674 | the receiver's loop reads every A and B descriptor |
| `IpcRequest.ReadX` | lib/ipc.c:642-652 | the receiver's loop reads every X descriptor |
| `IpcRequest.ReadC` | lib/ipc.c:689-700 | the receiver's loop reads every C descriptor of a packed message, its way |
| `IpcRequest.ReceivedCIff` | lib/ipc.c:689-700 | it gets the size, and the address exactly when that is below 2^32 |
| `IpcRequest.NextDescriptor` | lib/ipc.c:707-790 | the descriptors of buffer i are the next unused ones of their lists |
| `IpcRequest.OneOfTwo` | lib/ipc.c:768-803 | a buffer of type 0x21 gets the descriptor that is not null, and is refused exactly when both are not |
| `IpcRequest.Assign` | lib/ipc.c:707-820 | for every list of expected types and whatever unread memory holds, the first refusal, and every buffer before it filled in with the descriptor chosen for it, the others empty |
| `IpcRequest.ChoiceDepends` | lib/ipc.c:722-760 | the descriptor chosen for a buffer depends on memory that was never written exactly when it is a plain X buffer behind the last X and not behind the last A descriptor; it is then that memory |
| `IpcRequest.FilledDepends` | lib/ipc.c:707-816 | what a buffer is filled in with depends on it exactly when, besides, no buffer before it is refused |
| `IpcRequest.AllFilledDepends` | lib/ipc.c:707-816 | the same for all buffers together |
| `IpcRequest.OutcomeDepends` | lib/ipc.c:583-868 | for every request and expectation the answer of the receiver does not depend on it, and what it is left with does exactly when it comes to its buffers and one is like that |
| `IpcRequest.XForAIsStray` | lib/ipc.c:732-760 | an input: an A buffer received as an X buffer has the address and the size that the unwritten memory held |
| `IpcRequest.OwnDescriptor` | lib/ipc.c:707-820 | with the types that were sent, every buffer gets its own descriptor, and is refused exactly when its protection is above 1 |
| `IpcRequest.ArrivedAsSent` | lib/ipc.c:707-820 | then the receiver has the buffers, handles and data that were sent, or refuses for a protection |
| `IpcRequest.Unflatten` | lib/ipc.c:583-868 | for every expectation of the receiver, buffer types included, the first mismatch is the error, and what the receiver is left with is the handles and raw data as sent and every buffer with the descriptor chosen for it, errors included |
| `IpcRequest.SendAndReceive` | lib/ipc.c:318-868 | packing, unpacking and unflattening together, with all errors of both ends and what the receiver is left with; everything arrives as sent when the types expected are those sent |

## Left out

- LZ4 streaming and dictionary modes, `LZ4_decompress_fast` and partial decoding: they depend on how separate buffers lie in memory.
- LZ4 blocks that are not well-formed, and compression with less room than the bound: the error paths for them are not modelled, and neither are the tests for address overflow.
- Lz4 tables of pointers (`byPtr`) and the pooled states: the 16-bit and 32-bit tables of a 64-bit build are modelled.
- Fmod.Fmod: floating-point exceptions and the payload of a NaN are not modelled.
- Semaphore and mutex liveness, fairness and timing: safety and results are proved, and what a call does that nobody interferes with. A wait may time out or be interrupted at any step.
- Mutexes in static storage that are initialised on first use, and condition variables.
- SqfsRead.ReadRange: negative starts are not modelled; the source computes with them without a check.
- SquashFS images whose blocks cannot be read or decompressed, and images that are not well-formed; extended attributes, id tables, symbolic links and path lookup.
- `sqfs_dir_open` at an offset: the same fast forward by offset instead of by name, which would only add easy members.
- SqfsTraverse.Traverse.Next: the growth of the path's buffer is not modelled, and a directory's inode is found by a function instead of being read from the inode table.
- Paths: the memory of the names is not modelled; allocation does not fail.
- IpcMessage.Unpack: covers messages that this library packed.
- IpcRequest.Unflatten: covers session requests without objects that were sent with buffers of type 5 or 6 with any protection, or 0x21, at most 15 of a type; for requests sent with plain X buffers, C buffers or domain objects, sender and receiver use different layouts; how C descriptors are read is modelled on its own in `ReadC`.
- The rest of the library: service wrappers, display, input, file descriptors, the other functions of the mathematics library, and the build tools.
