# hybridzip, modelled and proved in Dafny

This project models the algorithmic core of hybridzip, a lossless compressor with its own archive
format, and proves what that core is for: what goes in comes out again. `dafny verify dfyconfig.toml`
(Dafny 4.11) checks the whole project.

**The Victini codec.** A block of bytes goes through a Burrows-Wheeler transform built on a
linear-time suffix array, a move-to-front transform, a first-order context model, an integer
normaliser and a 64-bit rANS coder. `SkewSort` proves that the recursive difference-cover (DC3)
construction fills its output with the one suffix array of the text (`Suffixes`, `DifferenceCover`,
`RadixPass`, `Permutations`). `BurrowsWheelerSpec` proves the transform invertible against that
specification, `BurrowsWheeler` proves the in-place loops against it. `MoveToFront` proves both
directions inverse. `RansSpec` proves the rANS coder invertible for every adaptive model with
disjoint intervals, `FrequencyTable` proves exactly when the normalisers produce exact tables, `Rans` and
`VictiniCoder` prove the 64-bit loops against these. `BufferStack` is the chunked stack the coder
pushes onto. `Victini` composes the stages: decompress(compress(b)) gives back b's bytes with an
empty model state, or a trained one whose counts normalise to exact tables.

**The archive.** One growing bit image of tagged, length-prefixed blocks, with a best-fit allocator
over its free fragments and in-memory indexes. `ArchiveLayout` and `ArchiveImage` say what an image
holds, `ArchiveIndex` and `ArchiveSpace` what it means for the indexes and the fragment list to agree
with it, `ArchiveFields` writes and parses blocks field by field, `ArchiveStore` says what the archive
stores and how its operations change that, and `Archive` proves every operation: the image stays
exactly tiled, the indexes stay in step, the stored content changes as `ArchiveStore.Apply` says, and
a rescan (`ArchiveScan`) rebuilds the same indexes. The theorems about whole sessions (reference
counts are exact, what is written stays: `ArchiveCounts`, `ArchiveSessions`) are lemmas about
`ArchiveStore.Run`, and `ArchiveRuns` proves that serving any sequence of requests is such a run.
`ArchiveTrie` is the path trie against a map.

**Smaller components.** `ZigZag` (the traversal meets each cell once), `Paeth` and `PaethKernel` (the
in-place loop, the out-of-place loop and the strided kernel compute the same filter, which loses
nothing), `Sharingan`, `SharinganGrid` and `SharinganSpec` (the chunked adaptive precoding writes each
plane index once, depends on earlier pixels only, and can be decoded).

The libraries the code builds on are modelled simply: `rainman::ptr` is an array, `bitio::stream` is
`Bits.BitStream`, whose write(v, n) stores the low n bits of v and whose read(n) returns the next n
bits; random identifiers are parameters, constrained only by the loop that draws until an identifier
is new. Where a method of the source is long, its loops are methods of their own here.

Where the code and its comments differ the code is followed: the Paeth predictor uses |a + b - c|,
and `HZ_Stack` is a last-in first-out stack only until it is popped to empty and pushed to again
(`PushAfterEmptying`).

## Model

| member | source | states |
|---|---|---|
| RadixPass.Pass | src/hzip_core/preprocessor/burrows_wheeler.h:21-35 | the counting sort permutes a[0..n) into b by increasing key, equal keys in their old order; nothing behind b[n) is touched |
| RadixPass.StableOrderUnique | src/hzip_core/preprocessor/burrows_wheeler.h:21-35 | there is only one such order |
| RadixPass.StableOrder | src/hzip_core/preprocessor/burrows_wheeler.h:186-191 | the stable order exists for all keys below a bound |
| RadixPass.SlotOrder | src/hzip_core/preprocessor/burrows_wheeler.h:27-32 | prefix sums plus running counts give each element a slot, and slots follow the stable order |
| DifferenceCover.ReducedSize | src/hzip_core/preprocessor/burrows_wheeler.h:37-38 | for n >= 2 the recursive text is shorter than the text, so the recursion ends |
| DifferenceCover.NamesRefine | src/hzip_core/preprocessor/burrows_wheeler.h:52-65 | suffix order of the reduced text is suffix order of the text at the sample positions |
| DifferenceCover.RankOrder | src/hzip_core/preprocessor/burrows_wheeler.h:64-69 | the ranks kept in R compare as the sample suffixes do, including the empty suffix past the end |
| DifferenceCover.PairMerge | src/hzip_core/preprocessor/burrows_wheeler.h:13-15 | the merge's pair comparison decides the suffix order |
| DifferenceCover.TripleMerge | src/hzip_core/preprocessor/burrows_wheeler.h:17-19 | the merge's triple comparison decides the suffix order, whatever stands past the end |
| DifferenceCover.StablePassSortsMultiples | src/hzip_core/preprocessor/burrows_wheeler.h:71-72 | one stable pass over the ranked multiples of three sorts their suffixes |
| DifferenceCover.RecursiveRanks | src/hzip_core/preprocessor/burrows_wheeler.h:64-67 | the recursive suffix array ranks the samples |
| DifferenceCover.DirectRanks | src/hzip_core/preprocessor/burrows_wheeler.h:68-69 | without recursion the names are the ranks |
| DifferenceCover.MergeDone | src/hzip_core/preprocessor/burrows_wheeler.h:74-92 | a merge that has listed everything has produced the suffix array |
| SkewSort.SortTriples | src/hzip_core/preprocessor/burrows_wheeler.h:48-50 | three stable passes sort the sample positions by their triples |
| SkewSort.NameTriples | src/hzip_core/preprocessor/burrows_wheeler.h:52-62 | names rise exactly where the triple changes, and are written to the index of their position |
| SkewSort.RankSamples | src/hzip_core/preprocessor/burrows_wheeler.h:64-69 | with or without recursion, SA12 lists the samples by suffix and R holds their ranks |
| SkewSort.SortMultiples | src/hzip_core/preprocessor/burrows_wheeler.h:71-72 | SA0 lists the multiples of three by suffix |
| SkewSort.SampleFirst | src/hzip_core/preprocessor/burrows_wheeler.h:75-81 | the comparison in the merge says exactly whether the sample suffix is the smaller one |
| SkewSort.Merge | src/hzip_core/preprocessor/burrows_wheeler.h:74-92 | the merge, with its two draining loops, fills SA with the suffix array |
| SkewSort.SuffixArray | src/hzip_core/preprocessor/burrows_wheeler.h:37-97 | for every text of n >= 2 symbols, zero only in front, with three trailing zeros, SA becomes the suffix array and nothing behind it changes; for n = 1 SA[0] = 1 |
| Suffixes.SuffixArrayUnique | src/hzip_core/preprocessor/burrows_wheeler.h:37-97 | a text has only one suffix array |
| Permutations.SortedUnique | src/hzip_core/preprocessor/burrows_wheeler.h:37-97 | a strict order has only one sorted enumeration of its indices |
| BurrowsWheeler.BurrowsWheelerTransformer.Transform | src/hzip_core/preprocessor/burrows_wheeler.h:111-151 | the data is replaced by the column before the sorted suffixes without the sentinel, whose row is returned; any array below the alphabet, the empty one included |
| BurrowsWheeler.BurrowsWheelerTransformer.Invert | src/hzip_core/preprocessor/burrows_wheeler.h:153-202 | the data is replaced by what the walk along the jumpers from the given row writes; for any symbols below the alphabet and any row up to the length no buffer is overrun |
| BurrowsWheeler.MakeJumpers | src/hzip_core/preprocessor/burrows_wheeler.h:175-191 | the concatenated buckets are the stable order of the column, a permutation of its rows |
| BurrowsWheeler.InsertSentinel | src/hzip_core/preprocessor/burrows_wheeler.h:155-173 | the column with the sentinel put back at the given row |
| BurrowsWheelerSpec.NextIsTheStableOrder | src/hzip_core/preprocessor/burrows_wheeler.h:186-195 | each jumper leads from the row of a suffix to the row of the next position |
| BurrowsWheelerSpec.NextOrder | src/hzip_core/preprocessor/burrows_wheeler.h:114-119 | because the sentinel is unique and in front, rows that begin alike keep their order one position on |
| BurrowsWheelerSpec.WalkEmits | src/hzip_core/preprocessor/burrows_wheeler.h:193-199 | from the row of position p the walk writes the data from p on, one row per step |
| BurrowsWheelerSpec.VisitsEachRowOnce | src/hzip_core/preprocessor/burrows_wheeler.h:193-195 | the walk that inverts a transformed block visits every row exactly once |
| BurrowsWheelerSpec.InvertsTransform | src/hzip_core/preprocessor/burrows_wheeler.h:111-202 | invert(transform(d)) is d for every d below the alphabet |
| BurrowsWheelerSpec.BwtRange | src/hzip_core/preprocessor/burrows_wheeler.h:138-150 | the transform keeps length and alphabet, and its index is one the inverse accepts |
| BurrowsWheelerSpec.BwtRows | src/hzip_core/preprocessor/burrows_wheeler.h:138-150 | in terms of the data: every row but the index shows the symbol before its suffix, the whole text's row the last one |
| MoveToFront.TouchKeepsList | src/hzip_core/preprocessor/move_to_front.h:27-37 | moving a symbol to the front keeps the recency list a permutation of the alphabet |
| MoveToFront.SymbolsOfRanks | src/hzip_core/preprocessor/move_to_front.h:22-51 | symbols, ranks, symbols is the identity from any recency list |
| MoveToFront.RanksOfSymbols | src/hzip_core/preprocessor/move_to_front.h:22-51 | ranks, symbols, ranks is the identity from any recency list |
| MoveToFront.RankOfSeen | src/hzip_core/preprocessor/move_to_front.h:27-36 | the rank of a symbol that occurred before is the number of distinct symbols since |
| MoveToFront.RankOfNew | src/hzip_core/preprocessor/move_to_front.h:23-36 | the rank of a new symbol is its value plus the number of distinct larger symbols before it |
| MoveToFront.TouchByRecency | src/hzip_core/preprocessor/move_to_front.h:32-33 | moving the symbol just seen to the front keeps the list ordered by recency |
| MoveToFront.MoveToFrontTransformer.Transform | src/hzip_core/preprocessor/move_to_front.h:22-38 | each symbol is replaced in place by its recency rank |
| MoveToFront.MoveToFrontTransformer.Invert | src/hzip_core/preprocessor/move_to_front.h:40-51 | each rank is replaced in place by the symbol at that rank |
| MoveToFront.RoundTrip | src/hzip_core/preprocessor/move_to_front.h:22-51 | transform, then invert, restores the array, and the ranks stay below the alphabet size |
| BufferStack.Stack.Push | src/hzip_core/utils/stack.h:31-45 | push appends one element across buffer boundaries; after the stack was emptied it counts a whole buffer of old cells in |
| BufferStack.Stack.Pop | src/hzip_core/utils/stack.h:47-61 | pop removes exactly the last element, and does nothing on an empty stack |
| BufferStack.Stack.Top | src/hzip_core/utils/stack.h:63-65 | top is the last element |
| BufferStack.Stack.Empty | src/hzip_core/utils/stack.h:82-84 | empty exactly when there is no element |
| BufferStack.Stack.Size | src/hzip_core/utils/stack.h:67-80 | size is the number of elements, plus one buffer exactly when the stack was emptied |
| BufferStack.PushAfterEmptying | src/hzip_core/utils/stack.h:31-61 | push then pop on an empty stack leaves it empty if and only if it was not emptied before: the last-in first-out contract fails exactly there |
| BufferStack.PushPopTwice | src/hzip_core/utils/stack.h:31-61 | push, pop, push, pop leaves a new stack non-empty |
| RansSpec.ShrunkRange | src/hzip_core/kernel/hzrans/hzrans64.cpp:24-34 | one conditional push always brings the state below the bound, and it stays large enough to absorb the symbol |
| RansSpec.StepInverse | src/hzip_core/kernel/hzrans/hzrans64.cpp:24-38 | encoding keeps the state in [2^31, 2^63), its low bits fall in the symbol's interval, and releasing the interval gives the state before |
| RansSpec.LookupFinds | src/hzip_core/kernel/hzrans/hzrans64_codec.cpp:77-87 | with disjoint intervals the slot determines the symbol |
| RansSpec.DecodeInverts | src/hzip_core/kernel/hzrans/hzrans64_codec.cpp:22-90 | for every scale up to 31, every adaptive model with disjoint intervals and every symbol sequence, decoding recovers the symbols, reads every word once in reverse push order and ends at 2^31 |
| Rans.Hzrans64.constructor | src/hzip_core/kernel/hzrans/hzrans64.cpp:14-22 | the state starts at 2^31; the scale is capped at 31 as the codecs' headers do |
| Rans.Hzrans64.WithTable | src/hzip_codec/sharingan/state_transition.cpp:35-46 | a state whose frequency table is the caller's row |
| Rans.Hzrans64.EncodeS | src/hzip_core/kernel/hzrans/hzrans64.cpp:24-38 | the 64-bit encoding step is the exact one: no intermediate overflows, the pushed word and the count agree |
| Rans.Hzrans64.DecodeS | src/hzip_core/kernel/hzrans/hzrans64.cpp:89-100 | the 64-bit decoding step releases the interval and reads a word exactly when the state is below 2^31 |
| Rans.Hzrans64.EncFlush | src/hzip_core/kernel/hzrans/hzrans64.cpp:75-79 | the final state is pushed high word first and counted |
| Rans.Hzrans64.DecLoadState | src/hzip_core/kernel/hzrans/hzrans64.cpp:81-87 | the state is read from the first two words |
| Rans.Hzrans64.CreateFtableNf | src/hzip_core/kernel/hzrans/hzrans64.cpp:41-63 | the table becomes the normalised weights, every register wrapping, also when the weights are the table itself |
| Rans.FtableIff | src/hzip_core/kernel/hzrans/hzrans64.cpp:41-63 | which is an exact table if and only if the floored shares fit it |
| Rans.FtableExactly | src/hzip_core/kernel/hzrans/hzrans64.cpp:41-63 | the table of a rANS state, in terms of the frequencies alone: the residue goes to the first symbols, one each per lap |
| Rans.Hzrans64.AddToSeq | src/hzip_core/kernel/hzrans/hzrans64.cpp:66-73 | a symbol's frequency, above the 64-bit sum of the frequencies before it: its interval while the table's total fits |
| Rans.Hzrans64.InvBs | src/hzip_core/kernel/hzrans/hzrans64.cpp:4-12 | finds the symbol whose interval holds a slot |
| FrequencyTable.Residue | src/hzip_core/kernel/hzrans/hzrans64.cpp:47-58 | floored shares never exceed the total, and fall short of it by less than the alphabet while products fit 64 bits |
| FrequencyTable.NormalizedIsTable | src/hzip_core/kernel/hzrans/hzrans64.cpp:41-63 | while no register wraps, for all weights, every symbol gets a frequency of at least one and the total is exactly 2^scale |
| FrequencyTable.ZeroRowIsUniform | src/hzip_codec/victini/victini.cpp:285-297 | a row without counts gives every symbol 65536 |
| FrequencyTable.UnwrappedSum | src/hzip_codec/victini/victini.cpp:277-297 | weights whose sum fits 64 bits are normalised as if no register could wrap, so they always become a table |
| FrequencyTable.TableIff | src/hzip_core/kernel/hzrans/hzrans64.cpp:41-63 | in wrapping 64-bit registers, weights whose 64-bit sum is not zero become an exact table if and only if their floored shares add up to at most 2^scale |
| FrequencyTable.ZeroTableIff | src/hzip_codec/victini/victini.cpp:284-294 | a row whose 64-bit sum is zero, divided by one instead, becomes an exact table if and only if the shares that wrap around when 65536 is added make up all of the shares and none wraps to zero |
| FrequencyTable.SoundIff | src/hzip_codec/victini/victini.cpp:277-297 | both together: the exact condition, for every row of 64-bit counts, under which `_normalize` leaves a table |
| FrequencyTable.NormalizedExactly | src/hzip_codec/victini/victini.cpp:286-297 | which table that is: the only one with 2^24 slots in all whose excess over one slot and the floored share never rises from a symbol to a later one, and never differs by more than one; for every scale |
| FrequencyTable.UnwrappedExactly | src/hzip_core/kernel/hzrans/hzrans64.cpp:47-62 | the same while the sum of the weights fits 64 bits: the exact description of the normalised table, without the loop that deals |
| FrequencyTable.WrappedSumFails | src/hzip_codec/victini/victini.cpp:280-294 | a row whose sum wraps to 1 and whose result is no table |
| FrequencyTable.WrappedSumSurvives | src/hzip_codec/victini/victini.cpp:280-294 | a row whose sum wraps to zero and whose result is the uniform table all the same |
| FrequencyTable.Disperse | src/hzip_core/kernel/hzrans/hzrans64.cpp:57-62 | the loop ends and deals the residue out round robin, wherever it stops |
| FrequencyTable.SlotsTile | src/hzip_core/kernel/hzrans/hzrans64.cpp:4-12 | the intervals of a table tile its slots: each slot belongs to exactly one symbol |
| FrequencyTable.SlotsFit | src/hzip_core/kernel/hzrans/hzrans64.cpp:66-73 | every symbol's interval lies in the slots of the table |
| FirstOrderContext.CountsPairs | src/hzip_core/models/first_order_context.cpp:3-9 | a count is one plus delta for each occurrence of its pair |
| FirstOrderContext.CountsBound | src/hzip_core/models/first_order_context.cpp:3-23 | a row's total is at most the alphabet plus delta per symbol |
| FirstOrderContext.FirstOrderContextModel.Update | src/hzip_core/models/first_order_context.cpp:3-9 | the pair of the previous and this symbol is counted, except at the start |
| FirstOrderContext.FirstOrderContextModel.SetAlphabetSize | src/hzip_core/models/first_order_context.cpp:15-23 | all counts start at one |
| FirstOrderContext.Train | src/hzip_codec/victini/victini.cpp:179-185 | a model trained on a sequence holds its pair counts |
| Packing.U64ToBytes | src/hzip_core/utils/utils.h:104-109 | eight bytes, least significant first |
| Packing.BytesToU64 | src/hzip_core/utils/utils.h:111-119 | reads the bytes back |
| Packing.LittleEndianInverse | src/hzip_core/utils/utils.h:104-119 | unpacking what was packed gives the number |
| Packing.LittleEndianAt | src/hzip_core/utils/utils.h:104-109 | byte i of a packed number counts the multiples of 2^(8 i) |
| Packing.WordsToBytes | src/hzip_core/utils/utils.h:142-158 | four bytes per word, most significant first |
| Packing.BytesToWords | src/hzip_core/utils/utils.h:121-140 | every four bytes become a word, most significant first; the bytes of an incomplete word are dropped |
| Packing.WordsBack | src/hzip_core/utils/utils.h:121-158 | reading the packing of any words gives the words |
| VictiniModel.Normalize | src/hzip_codec/victini/victini.cpp:277-306 | each row of counts, whatever it adds up to, is replaced in place by what the wrapping normaliser makes of it, with its running sums beside it |
| VictiniModel.StoreCounts | src/hzip_codec/victini/victini.cpp:190-202 | the model state holds the un-normalised counts, row by row, as 64-bit numbers |
| VictiniModel.LoadCounts | src/hzip_codec/victini/victini.cpp:86-90 | reads exactly the stored counts |
| VictiniModel.ModelTransform | src/hzip_codec/victini/victini.cpp:170-249 | an empty model state learns the block, a trained one is read back, training adds to it in 64-bit registers; the tables always follow what is stored |
| VictiniModel.TrainedPairs | src/hzip_codec/victini/victini.cpp:217-232 | training adds to each stored count one, and 32 for every time the second symbol directly follows the first, in a 64-bit register; from nothing on an empty model state |
| VictiniModel.LearnedCounts | src/hzip_codec/victini/victini.cpp:178-204 | the counts a fresh model learns from a block never wrap, so they are sound |
| VictiniSpec.ModelDecodable | src/hzip_codec/victini/victini.cpp:38-50 | Victini's contexts form a model with disjoint intervals |
| VictiniSpec.TablesAreTables | src/hzip_codec/victini/victini.cpp:277-306 | all 256 rows become exact tables of 2^24 slots if and only if all are sound |
| VictiniSpec.BlockDecodes | src/hzip_codec/victini/victini.cpp:73-168 | for any tables every stage of a block has its inverse: code to ranks, ranks to transformed bytes, these to the bytes |
| VictiniCoder.CrossEncode | src/hzip_codec/victini/victini.cpp:38-50 | the interval of a symbol in the context of the one before it, uniform for the first |
| VictiniCoder.EncodeSymbols | src/hzip_core/kernel/hzrans/hzrans64_codec.cpp:22-44 | the loop from last to first and the drained stack give exactly the code of the symbols; the count is its length |
| VictiniCoder.CrossDecode | src/hzip_codec/victini/victini.cpp:100-130 | finds the symbol of the slot in its context, and its interval |
| VictiniCoder.DecodeSymbols | src/hzip_core/kernel/hzrans/hzrans64_codec.cpp:72-90 | the loop recovers all symbols from their code |
| Victini.Compress | src/hzip_codec/victini/victini.cpp:6-71 | the blob encodes the bytes under the counts its model state holds afterwards; a trained model state with sound counts is unchanged, an empty one then holds the pair counts of this block alone |
| Victini.Decompress | src/hzip_codec/victini/victini.cpp:73-168 | restores the bytes of every block that encodes them |
| Victini.Train | src/hzip_codec/victini/victini.cpp:251-275 | the model state afterwards holds the old counts plus one and 32 per occurrence of each pair among the blob's ranks, in 64-bit registers; a codec can use it if and only if these are sound |
| Victini.RoundTrip | src/hzip_codec/victini/victini.cpp:6-168 | decompress(compress(b)) is b, from an empty model state or a trained one with sound counts, also after another blob is compressed with the same state |
| Bits.ValueOfBits | src/hzip_storage/archive/archive.cpp:303-320 | a number that fits its field reads back as written |
| Bits.BitsOfValue | src/hzip_storage/archive/archive.cpp:51-64 | writing back what was read gives the bits |
| Bits.BitAt | src/hzip_storage/archive/archive.cpp:302-321 | a written number's bits stand with the most significant one first |
| ArchiveLayout.BodySizes | src/hzip_storage/archive/archive.cpp:273-280 | the lengths the writers compute are the lengths of what they write |
| ArchiveLayout.BlobLayout | src/hzip_storage/archive/archive.cpp:398-429 | the bit offset, width and value of every field of a blob block |
| ArchiveLayout.MstateLayout | src/hzip_storage/archive/archive.cpp:512-533 | the same for a model-state block |
| ArchiveLayout.FileInfoLayout | src/hzip_storage/archive/archive.cpp:302-321 | the same for a file block |
| ArchiveLayout.MstateAuxLayout | src/hzip_storage/archive/archive.cpp:576-590 | the same for a name block |
| ArchiveLayout.VersionLayout | src/hzip_storage/archive/archive.cpp:249-253 | the same for a version block |
| ArchiveLayout.ExactPartition | src/hzip_storage/archive/archive.cpp:200-242 | in a tiled image every bit below eof belongs to exactly one block |
| ArchiveLayout.TiledSplit | src/hzip_storage/archive/archive.cpp:226-232 | splitting a block into two whose sizes add up keeps the tiling |
| ArchiveLayout.TiledAppend | src/hzip_storage/archive/archive.cpp:291-297 | a block at eof keeps the tiling |
| ArchiveImage.CommitImage | src/hzip_storage/archive/archive.cpp:302-321 | writing a block into its slot completes the image and disturbs no other block |
| ArchiveImage.FreeImage | src/hzip_storage/archive/archive.cpp:438-447 | overwriting a block's marker frees exactly its bits and disturbs no other block |
| ArchiveImage.SplitHole | src/hzip_storage/archive/archive.cpp:226-232 | writing the remainder's header leaves a slot and a smaller fragment; no bit is lost |
| ArchiveFields.WriteFileInfo | src/hzip_storage/archive/archive.cpp:302-321 | the image changes by exactly the encoding of the file block |
| ArchiveFields.WriteMstateAux | src/hzip_storage/archive/archive.cpp:576-590 | the image changes by exactly the encoding of the name block |
| ArchiveFields.WriteBlobBlock | src/hzip_storage/archive/archive.cpp:398-429 | the image changes by exactly the encoding of the blob block |
| ArchiveFields.WriteMstateBlock | src/hzip_storage/archive/archive.cpp:512-533 | the image changes by exactly the encoding of the model-state block |
| ArchiveFields.ReadBlobBody | src/hzip_storage/archive/archive.cpp:344-367 | reads back every field of a blob block |
| ArchiveFields.ReadDependency | src/hzip_storage/archive/archive.cpp:449-456 | finds the model state of a blob behind its header |
| ArchiveFields.ReadMstateBody | src/hzip_storage/archive/archive.cpp:477-489 | reads back every field of a model-state block |
| ArchiveIndex.ListedAgrees | src/hzip_storage/archive/archive.cpp:299-300 | listing a new block keeps the indexes in agreement with the live blocks |
| ArchiveIndex.DelistedAgrees | src/hzip_storage/archive/archive.cpp:459-460 | dropping a block with its entry keeps them in agreement |
| ArchiveIndex.AgreementUnique | src/hzip_storage/archive/archive.cpp:96-198 | indexes that agree with the same blocks are the same |
| ArchiveSpace.BestFit | src/hzip_storage/archive/archive.cpp:200-221 | finds the first admissible fragment of least length if there is one; admissible means exact, or leaving room for a header |
| ArchiveSpace.TakeFront | src/hzip_storage/archive/archive.cpp:226-232 | the list after a split names the remainder and not the slot |
| ArchiveSpace.TakeWhole | src/hzip_storage/archive/archive.cpp:233-236 | the list after a perfect fit no longer names the fragment |
| ArchiveSpace.GiveBack | src/hzip_storage/archive/archive.cpp:444-447 | the list after a removal names the freed block too |
| ArchiveSpace.FragmentsUnique | src/hzip_storage/archive/archive.cpp:172-183 | lists that agree with the same image name the same fragments |
| ArchiveState.EveryBit | src/hzip_storage/archive/archive.cpp:200-242 | every bit below eof belongs to exactly one block, which is either live or a listed fragment |
| ArchiveState.Committed | src/hzip_storage/archive/archive.cpp:282-321 | filling a slot keeps image, indexes and fragment list sound and adds exactly the block's content to the store |
| ArchiveState.Delisting | src/hzip_storage/archive/archive.cpp:675-692 | freeing and delisting a block removes exactly its content from the store |
| Archive.HzArchive.AllocFragment | src/hzip_storage/archive/archive.cpp:200-242 | hands out a slot of that fragment exactly when one is admissible, never bits of a live block; a perfect fit leaves the list, a larger one stays in its place with what is left; otherwise nothing changes |
| Archive.HzArchive.Reserve | src/hzip_storage/archive/archive.cpp:282-297 | the slot lies in the best fragment, with the end of the file where it was, if any fragment is admissible; otherwise at the end of the file, which moves just behind it; live blocks are untouched |
| Archive.HzArchive.FreeSpace | src/hzip_storage/archive/archive.cpp:680-686 | the block's bits join the fragment list at its end, all other live blocks stay |
| Archive.HzArchive.WriteBlob | src/hzip_storage/archive/archive.cpp:374-432 | the store gains the blob and its dependency, in the place Reserve says; nothing at all changes if the model state is not stored |
| Archive.HzArchive.WriteMstate | src/hzip_storage/archive/archive.cpp:494-536 | the store gains the model state, in the place Reserve says |
| Archive.HzArchive.CreateFileEntry | src/hzip_storage/archive/archive.cpp:265-323 | the store gains the file, in the place Reserve says, unless the path is known; then nothing at all changes |
| Archive.HzArchive.CreateFile | src/hzip_storage/archive/archive.cpp:645-664 | blobs then entry; a blob whose model state is missing stops it with the earlier blobs kept and no file; on success the file lists the blobs as given |
| Archive.HzArchive.InstallMstate | src/hzip_storage/archive/archive.cpp:538-593 | the store gains a named model state, unless the path is invalid or known |
| Archive.HzArchive.WriteName | src/hzip_storage/archive/archive.cpp:549-590 | the name and the mark that protects its model state, in the place Reserve says |
| Archive.HzArchive.RmMstate | src/hzip_storage/archive/archive.cpp:595-621 | frees a model state that no counter protects, whose bits join the fragment list; an absent one is ignored, a protected one refused |
| Archive.HzArchive.DecrementDep | src/hzip_storage/archive/archive.cpp:631-643 | gives up one dependency; the last frees an unnamed model state |
| Archive.HzArchive.RmBlob | src/hzip_storage/archive/archive.cpp:434-466 | drops the blob with its dependency, or reports that it is absent |
| Archive.HzArchive.RemoveFile | src/hzip_storage/archive/archive.cpp:666-695 | drops the file and all its blobs, or reports why not |
| Archive.HzArchive.UninstallMstate | src/hzip_storage/archive/archive.cpp:783-787 | removes an unprotected model state by id |
| Archive.HzArchive.UninstallNamed | src/hzip_storage/archive/archive.cpp:720-748 | removes a named model state with its name; refused without change while blobs depend on it |
| Archive.HzArchive.ReadMstate | src/hzip_storage/archive/archive.cpp:468-492 | returns the stored model state and changes nothing |
| Archive.HzArchive.ReadBlob | src/hzip_storage/archive/archive.cpp:334-372 | returns the stored blob with its model state and changes nothing |
| Archive.HzArchive.ReadFile | src/hzip_storage/archive/archive.cpp:697-718 | returns all blobs of a file in order, exactly when all are readable |
| Archive.HzArchive.ReadNamed | src/hzip_storage/archive/archive.cpp:842-854 | returns the model state a path names |
| Archive.HzArchive.ScanBlock | src/hzip_storage/archive/archive.cpp:63-198 | one step of the scan notes exactly the block that stands there and moves behind it |
| Archive.HzArchive.Load | src/hzip_storage/archive/archive.cpp:48-94 | from the image of a closed archive the scan rebuilds the same eof, file map, name map, blob map, model-state map and fragments; it refuses exactly the unsupported versions |
| Archive.HzArchive.Close | src/hzip_storage/archive/archive.cpp:789-798 | the end marker is written behind the last block; nothing stored changes |
| Archive.HzArchive.Init | src/hzip_storage/archive/archive.cpp:244-263 | a new image is the version block and the end marker |
| Archive.HzArchive.Create | src/hzip_storage/archive/archive.cpp:10-46 | a new archive, loaded, stores nothing |
| Archive.HzArchive.Reopen | src/hzip_storage/archive/archive.cpp:789-802 | closing and loading restores everything but the counters and the protecting marks |
| ArchiveRuns.Serve | src/hzip_storage/archive/archive.cpp:645-832 | every acceptable request changes what is stored by exactly its operation |
| ArchiveRuns.RequestsRun | src/hzip_storage/archive/archive.cpp:645-832 | acceptable requests, without those refused for their path, are a legal run |
| ArchiveRuns.ServeAll | src/hzip_storage/archive/archive.cpp:645-832 | serving any sequence of requests is a run, and the archive is sound after it |
| ArchiveRuns.Session | src/hzip_storage/archive/archive.cpp:10-832 | after any session on a fresh archive the counters are exact, every blob is readable, and closing and loading keeps all files, names, blobs and model states |
| ArchiveRuns.StoreRemoveStore | src/hzip_storage/archive/archive.cpp:494-621 | a run that reuses space: a model state stored after one of the same length was removed stands where that one did, and the file does not grow |
| ArchiveScan.ScanStep | src/hzip_storage/archive/archive.cpp:63-91 | what the scan has noted agrees with the blocks it has passed |
| ArchiveScan.NextUnlisted | src/hzip_storage/archive/archive.cpp:135-197 | the scan never meets an entry twice |
| ArchiveScan.NextSettable | src/hzip_storage/archive/archive.cpp:135-151 | the tries accept every key the scan sets |
| ArchiveCounts.RunExact | src/hzip_storage/archive/archive.cpp:619-643 | in every run from a fresh archive each counter is the number of stored blobs that use the model state, which is stored too |
| ArchiveCounts.FreshExact | src/hzip_storage/archive/archive.cpp:244-263 | a fresh archive starts with exact counters |
| ArchiveCounts.ApplyExact | src/hzip_storage/archive/archive.cpp:374-466 | every single operation keeps the counters exact |
| ArchiveCounts.ExactReadable | src/hzip_storage/archive/archive.cpp:334-372 | while the counters are exact every stored blob finds its model state |
| ArchiveCounts.LastDependent | src/hzip_storage/archive/archive.cpp:631-643 | dropping a blob frees its model state exactly when it is the last dependent and the model state has no name |
| ArchiveCounts.ReloadExactIff | src/hzip_storage/archive/archive.cpp:139-197 | after a reload the counters are exact if and only if no blob is stored |
| ArchiveCounts.NamesStep | src/hzip_storage/archive/archive.cpp:720-748 | operations keep the protecting marks exact, except removing by id a model state that has a name and no dependent |
| ArchiveSessions.BlobStep | src/hzip_storage/archive/archive.cpp:666-695 | a stored blob goes exactly when a file listing it is removed, and is unchanged until then |
| ArchiveSessions.BlobStays | src/hzip_storage/archive/archive.cpp:334-432 | while the counters are exact, through any run that never removes a file listing it, a blob reads back unchanged, with its model state |
| ArchiveSessions.NewBlob | src/hzip_storage/archive/archive.cpp:374-432 | a new blob is there exactly after it is written on a stored model state, as it was written |
| ArchiveSessions.NewMstate | src/hzip_storage/archive/archive.cpp:494-593 | a new model state is there exactly after it is installed, under a new name if under any, as it was installed |
| ArchiveSessions.FileStep | src/hzip_storage/archive/archive.cpp:645-695 | a file is there until it is removed, and after it is entered under a path the trie does not know, with the blobs it was entered with |
| ArchiveSessions.NameStep | src/hzip_storage/archive/archive.cpp:538-593 | a name is there until it is uninstalled, which a counter on its model state refuses, and after it is given to a model state if the trie does not know it |
| ArchiveSessions.WrittenReads | src/hzip_storage/archive/archive.cpp:334-432 | a blob reads back as it was written, through any run that never drops it |
| ArchiveSessions.InstalledReads | src/hzip_storage/archive/archive.cpp:468-593 | a model state reads back as it was installed, through any run that never frees it |
| ArchiveSessions.FileStays | src/hzip_storage/archive/archive.cpp:697-718 | a file lists what it was entered with, through any run that never removes it |
| ArchiveSessions.ReadableStep | src/hzip_storage/archive/archive.cpp:595-695 | for arbitrary counters, as after a reload: a readable blob stays readable if and only if the operation neither drops it, nor removes its model state while that has no counter, nor removes a file with as many of its dependents as its counter has left |
| ArchiveSessions.DropBlobsCounted | src/hzip_storage/archive/archive.cpp:631-643 | for arbitrary counters: removing a file's blobs frees an unnamed model state exactly when they use its counter up |
| ArchiveSessions.ReloadStrands | src/hzip_storage/archive/archive.cpp:595-621 | after a reload any stored blob can be made unreadable, by removing its model state by id; before it the counter prevented that |
| ArchiveSessions.OneBlobReloaded | src/hzip_storage/archive/archive.cpp:595-621 | the shortest such run: one model state, one blob, close, load, uninstall |
| ArchiveSessions.NamedRemovedById | src/hzip_storage/archive/archive.cpp:783-787 | a model state installed under a name and removed by its id leaves a name that leads nowhere |
| ArchiveSessions.MstateStep | src/hzip_storage/archive/archive.cpp:595-643 | a stored model state goes exactly when it is freed, and is unchanged until then |
| ArchiveSessions.MstateStays | src/hzip_storage/archive/archive.cpp:468-536 | through any run that never frees it a model state reads back unchanged |
| ArchiveSessions.OwnedStep | src/hzip_storage/archive/archive.cpp:645-695 | while new entries list distinct unclaimed blobs, every file can be removed |
| ArchiveSessions.DropBlobsMstate | src/hzip_storage/archive/archive.cpp:688-690 | removing a file's blobs frees exactly the unnamed model states all of whose dependents are among them |
| Paths.TokensOfJoin | src/hzip_storage/archive/archive_trie.h:57-67 | splitting a joined key gives the key back |
| Paths.SplitParts | src/hzip_storage/archive/archive_trie.h:62-66 | no part of a key is empty |
| Paths.TokensAtSlash | src/hzip_storage/archive/archive_trie.h:57-67 | what stands before a slash and what stands behind it are split on their own |
| Paths.TokensOfPart | src/hzip_storage/archive/archive_trie.h:62-66 | a path without a slash is one part, or none if it is empty |
| Paths.ValidPathIff | src/hzip_core/utils/validation.h:7-27 | the accepted paths are exactly the joined keys, with or without a slash at the end, without null, backslash and space |
| ArchiveTrie.PrefixClosed | src/hzip_storage/archive/archive_trie.h:81-111 | nodes are closed under prefixes |
| ArchiveTrie.NodesAreKnown | src/hzip_storage/archive/archive_trie.h:113-132 | without empty directories a node stands exactly at the root and at the prefixes of stored keys |
| ArchiveTrie.LeavesApart | src/hzip_storage/archive/archive_trie.h:92-110 | a value node has nothing below it |
| ArchiveTrie.BarredIff | src/hzip_storage/archive/archive_trie.h:81-111 | a key is refused exactly when another stored key is a prefix of it or extends it, or nothing but empty directories lies below it, which cannot be while no directory is empty |
| ArchiveTrie.ChainKeys | src/hzip_storage/archive/archive_trie.h:152-164 | pruning any ancestor the climb reaches removes the same stored keys |
| ArchiveTrie.EraseStored | src/hzip_storage/archive/archive_trie.h:134-165 | erasing a stored key erases it alone and leaves no empty directory |
| ArchiveTrie.EndDangling | src/hzip_storage/archive/archive_trie.h:152-162 | an erase leaves an empty directory exactly when it takes a directory of several entries that is the only entry of a directory other than the root |
| ArchiveTrie.LeaveEmptyDirectory | src/hzip_storage/archive/archive_trie.h:134-171 | a run that leaves one: two entries of d/e, the only entry of d, then d/e is erased |
| ArchiveTrie.Trie.constructor | src/hzip_storage/archive/archive_trie.h:48-50 | a new trie is empty |
| ArchiveTrie.Trie.Get | src/hzip_storage/archive/archive_trie.h:56-79 | returns the value of a stored key, and tells missing paths from directories |
| ArchiveTrie.Trie.Set | src/hzip_storage/archive/archive_trie.h:81-111 | stores the value unless the key is barred; a refused set leaves every node as it was |
| ArchiveTrie.Trie.Contains | src/hzip_storage/archive/archive_trie.h:113-132 | true exactly for the root and the prefixes of stored keys, while no directory is empty |
| ArchiveTrie.Trie.Erase | src/hzip_storage/archive/archive_trie.h:134-165 | removes exactly the keys at or below the path despite pruning ancestors |
| ArchiveTrie.Trie.Children | src/hzip_storage/archive/archive_trie.h:167-195 | the parts that continue a prefix, and which of them complete a key |
| ZigZag.ZigZagPair.Next | src/hzip_core/preprocessor/zigzag.h:17-54 | the immediate successor in the traversal's order; from the last cell the end sentinel |
| ZigZag.FirstSteps | src/hzip_core/preprocessor/zigzag.h:17-54 | the first five steps: right, down to the left edge, down, up to the upper edge |
| ZigZag.Traverse | src/hzip_core/preprocessor/zigzag.h:114-120 | from begin to end each of the width * height cells is met exactly once, in that many steps |
| ZigZag.GridSize | src/hzip_core/preprocessor/zigzag.h:114-120 | a grid has width * height cells |
| Paeth.CpuPixel | src/hzip_core/models/paeth.cpp:52-114 | one pixel of the loop is the filter at its place |
| Paeth.PredictorNearest | src/hzip_core/models/paeth.cpp:59-71 | in plain arithmetic: the neighbour nearest to the absolute value of a + b - c, the left one before the upper one before the diagonal one |
| Paeth.PixelFilter | src/hzip_core/models/paeth.cpp:54-113 | what is stored for each column and row: the difference to the predictor inside, to the left neighbour in the first row, to the upper one in the first column, and the first sample itself |
| Paeth.DiffModulo | src/hzip_core/models/paeth.cpp:73-78 | stored differences are differences modulo 2^bit_depth |
| Paeth.FilterChannel | src/hzip_core/models/paeth.cpp:47-117 | the descending loop filters the whole plane and nothing else, also over its own input |
| Paeth.CpuFilter | src/hzip_core/models/paeth.cpp:30-120 | in place or out of place, every channel becomes its filtered plane; out of place the input is unchanged |
| Paeth.ChannelIsFiltered | src/hzip_core/models/paeth.cpp:41-45 | the two forms give the same channel |
| Paeth.FilterRecoverable | src/hzip_core/models/paeth.cpp:54-113 | for samples below 2^bit_depth, up to 16 bits, the plane can be rebuilt from its filter |
| Paeth.DiffInverts | src/hzip_core/models/paeth.cpp:73-78 | a stored difference stays below 2^bit_depth and determines the sample |
| Paeth.PredictionCausal | src/hzip_core/models/paeth.cpp:54-99 | a prediction looks only at earlier pixels |
| PaethKernel.OneWorkItem | src/hzip_core/models/paeth.cl:33-43 | each pixel belongs to exactly one work item |
| PaethKernel.StrideFits | src/hzip_core/models/paeth.cpp:163-166 | the launched range reaches every work item that has pixels |
| PaethKernel.WorkItem | src/hzip_core/models/paeth.cl:24-116 | a work item filters the pixels it owns and no others |
| PaethKernel.RunKernel | src/hzip_core/models/paeth.cl:24-116 | for every stride and every order of the work items the result is the filtered plane |
| PaethKernel.OpenclFilter | src/hzip_core/models/paeth.cpp:133-192 | the strided filter leaves every channel as the loop does |
| SharinganSpec.TableForIsTable | src/hzip_codec/sharingan/state_transition.cpp:238-284 | before each pixel the 256 candidates form an exact table of 2^24 slots |
| SharinganSpec.CandidatesTile | src/hzip_codec/sharingan/state_transition.cpp:241-247 | each slot below 2^24 belongs to exactly one candidate symbol |
| SharinganSpec.ChunkModelDecodable | src/hzip_codec/sharingan/state_transition.cpp:230-286 | a chunk's pairs come from a model of the earlier pixels alone, with disjoint intervals |
| SharinganSpec.ChunkDecodes | src/hzip_codec/sharingan/state_transition.cpp:230-286 | the rANS code of a chunk's pairs decodes to its symbols |
| SharinganSpec.MapsBound | src/hzip_codec/sharingan/state_transition.cpp:251-262 | a row of counts grows by at most three times the learning rate per pixel |
| SharinganSpec.MapsCount | src/hzip_codec/sharingan/state_transition.cpp:250-276 | a count is the learning rate per left neighbour and, from the second order on, per upper neighbour that shows the pair, and half of it, from the third on, per diagonal one |
| SharinganGrid.AxisPlace | src/hzip_codec/sharingan/state_transition.cpp:203-207 | each coordinate lies in a chunk, at one place |
| SharinganGrid.ChunkPlace | src/hzip_codec/sharingan/state_transition.cpp:215-235 | every plane index is a place of a chunk |
| SharinganGrid.ChunkUnique | src/hzip_codec/sharingan/state_transition.cpp:215-235 | no two places of any chunks share an index |
| SharinganGrid.SymbolRebuilds | src/hzip_codec/sharingan/state_transition.cpp:236-236 | the leading byte and the bits below it rebuild the sample |
| Sharingan.UniformPair | src/hzip_codec/sharingan/state_transition.cpp:91-93 | the pair of a symbol in the uniform table |
| Sharingan.PixelCases | src/hzip_codec/sharingan/state_transition.cpp:238-284 | by row and column: which counts a pixel is coded with, and which it teaches |
| Sharingan.CodeInner | src/hzip_codec/sharingan/state_transition.cpp:238-263 | the pair of a pixel with a left neighbour, and what it teaches |
| Sharingan.CodeFirst | src/hzip_codec/sharingan/state_transition.cpp:264-284 | the pair of a pixel in the first column, and what it teaches |
| Sharingan.PrecodeChunk | src/hzip_codec/sharingan/state_transition.cpp:229-286 | a chunk's pairs go to the chunk's places and nowhere else |
| Sharingan.SharinganStateTransition.CpuDynamicPrecode | src/hzip_codec/sharingan/state_transition.cpp:180-289 | every pixel of every channel gets the pair its chunk's model assigns it |
| Sharingan.PreprocessRow | src/hzip_codec/sharingan/state_transition.cpp:42-53 | a row becomes its own normalised table in place, with its running sums beside it, every register wrapping |
| Sharingan.RowDoneIff | src/hzip_codec/sharingan/state_transition.cpp:42-53 | such a row is an exact table beside its intervals if and only if the floored shares fit it |
| Sharingan.PreprocessChannel | src/hzip_codec/sharingan/state_transition.cpp:39-55 | all rows of a channel |
| Sharingan.PreprocessMaps | src/hzip_codec/sharingan/state_transition.cpp:32-57 | all rows of all channels |

## Left out

- Networking, sessions, the OpenCL host code, device providers, PNG and JPEG wrappers, configuration, logging and the command line: plumbing around the cores, or foreign libraries.
- The memory manager, the bit stream's buffering, file handles, process-wide semaphores and the mutex: the model is one session at a time on arrays and bit sequences.
- Freed memory: nodes, buffers and tables that the code frees are just no longer reachable.
- The generic encoder and decoder objects with arbitrary closures: `VictiniCoder` inlines Victini's own closures into their loops; arbitrary models are covered by `RansSpec.DecodeInverts`.
- SkewSort.SuffixArray: counts and positions are unbounded integers; the code's 32-bit signed indices are respected by the precondition of the codec that there are at most 2^31 - 4 bytes.
- Victini.Compress: blocks of more than 2^31 - 4 bytes are excluded, because the code's indices are signed 32-bit numbers; so are trained model states that are not sound (`SoundIff`), because a coder needs exact tables.
- Victini.Decompress: takes the bytes as a ghost argument and promises nothing for data that encodes no bytes; what the decoder does on corrupt input is not modelled.
- Rans.Hzrans64.CreateFtableNf: weights whose 64-bit sum is exactly zero are excluded, because the code divides by it; so they are in Sharingan.PreprocessMaps.
- BufferStack.Stack.Push: after the stack was emptied only the size and the last element are stated, because the counted-in cells hold whatever the new buffer was allocated with.
- Archive.HzArchive.WriteBlob: eof and block offsets are unbounded, so images of 2^64 bits and more are not modelled; lengths and fields must fit what stores them.
- Archive.HzArchive.RemoveFile: paths name files, not directories, and the file's entry lists distinct stored blobs; on other paths the trie throws with the mutex held.
- Archive.HzArchive.CreateFileEntry: no stored file path is a proper prefix of the new one; otherwise the trie throws after space has been taken.
- Archive.HzArchive.InstallMstate: the same for names.
- The tries inside the archive are maps from keys to entries; `ArchiveTrie` proves the trie against such a map separately.
- `inject_mstate`, which stores or reads a model state and copies it into a blob, and the listing and existence queries of the archive: each is one call of a modelled operation.
- Removing the root from the trie: the code follows a null parent pointer there.
- PaethKernel.RunKernel: work items run one after another in any order; they write disjoint pixels and read only the input, so nothing else can be observed of their concurrency.
- Paeth.FilterRecoverable: the code has no inverse filter; the rebuilt plane is defined here.
- Images of width or height zero in the Paeth and Sharingan models.
- Sharingan's residue planes, its static precoding, and its unwritten decoder and trainer.
- Sharingan.SharinganStateTransition.CpuDynamicPrecode: the learning rate times the chunk's area must stay below 2^64, so that counts do not wrap.
- Colour lifting, delta coding, the uncompressed codec, the unary code and the providers: correct for short local reasons, they would only add easy members.
