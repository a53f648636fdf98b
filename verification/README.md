# A verified model of the ruzstd frame encoder and Huffman table builder

This project models two parts of the `ruzstd` Zstandard encoder (RFC 8878) in Dafny
and proves properties of the model.

- **Compression levels and frame assembly** (`src/encoding/frame_encoder.rs`):
  - `ZstdLevel` and `CompressionLevel`, their conversions to and from the primitive integer types and to each other, and `normalize`.
  - `FrameCompressor::new`.
  - `FrameCompressor::compress`, which reads the whole input and writes a frame header. It then cuts the input into blocks of at most `MAX_BLOCK_SIZE` bytes and writes each block as `Raw`, `RLE` or `Compressed`, depending on the compression level and the block's contents.
- **Huffman table construction** (`src/huff0/huff0_encoder.rs`):
  - `HuffmanTable::build_from_weights` assigns canonical (codeword, bit length) pairs to symbols from their weights. The model keeps its walk as written and also a corrected walk that halves the start value at every weight level; the table builders use the corrected walk (see Findings).
  - `HuffmanTable::build_from_counts` turns symbol counts into weights with `distribute_weights` and `redistribute_weights`, then hands them out by count order.
  - `highest_bit_set`.

The modules are:

| module | file | contents |
|---|---|---|
| `Results` | `results.dfy` | `Option` and `Result` for the error paths |
| `Levels` | `levels.dfy` | level types, conversions, normalisation |
| `Frame` | `frame.dfy` | the records of a frame, the block split, the layout each level produces, and a reference decoder with round-trip lemmas |
| `FrameEncoder` | `frame_encoder.dfy` | the `MatchGenerator` and `FrameCompressor` classes and the block loops as methods |
| `Bits` | `bits.dfy` | powers of two and `log2` |
| `Entries` | `entries.dfy` | (symbol, key) entries, their sort order, and sums over them |
| `HuffmanSpec` | `huffman_spec.dfy` | the canonical table in closed form and its properties (Kraft equality, runs, the test vectors) |
| `HuffmanWeights` | `huffman_weights.dfy` | `distribute_weights` and `redistribute_weights` over an array |
| `HuffmanTable` | `huffman_table.dfy` | `build_from_weights` (both walks), `build_from_counts` and `highest_bit_set` as the loops the encoder runs |
| `HuffmanCorrected` | `huffman_corrected.dfy` | the corrected numbering, the input on which it differs from the source, and the proof that it always fits |

How the model treats the source:

- **Panics become error values.** Every panic of the source becomes a `None`, an `Err`, a `Panicked` outcome or `Unimplemented`:
  - an `assert!`;
  - an `unwrap` on a conversion;
  - an arithmetic underflow, as in a build with overflow checks on (the default for debug builds);
  - `unimplemented!`.
- **Reader and sink.** The reader is the sequence of bytes it still holds. The sink is an append-only sequence of records.
- **Headers.** A frame header or block header is one record, because its byte layout belongs to serialisers that are not part of this model.
- **Collaborators.** The block compressor is a function parameter, and every result about `Fastest` holds for any such function. The match generator is a class whose only state is the list of blocks it has been shown.
- **The cap is a floor log.** `build_from_counts` passes `ilog2(k) + 2` to `redistribute_weights`, and `ilog2` rounds down; the model does the same.

## Model

| member | source | states |
|---|---|---|
| Levels.TryFromInt | src/encoding/frame_encoder.rs:23-33 | the conversion fails exactly when the value is negative or above 255; a value up to 22 is kept as is, a value from 23 to 255 silently becomes level 0, and every level it makes holds at most 22 |
| Levels.IntoInt | src/encoding/frame_encoder.rs:35-39 | converting a level to a type gives the level's byte, and panics (None) exactly when the byte does not fit in the type |
| Levels.ByteInRange | src/encoding/frame_encoder.rs:35-39 | a byte fits in every one of the twelve integer types except `i8` when it is above 127 |
| Levels.IntoIntNeverFails | src/encoding/frame_encoder.rs:35-39 | converting any level the conversions can make (at most 22) to any integer type never panics |
| Levels.IntRoundTrip | src/encoding/frame_encoder.rs:21-41 | integer to level to integer is the identity for 0..=22 in every type |
| Levels.LevelOf | src/encoding/frame_encoder.rs:43-54 | `Other` gives its own level; only `Uncompressed` among the presets gives 0, and every preset gives one of 0, 1, 3, 7, 11 |
| Levels.FromLevel | src/encoding/frame_encoder.rs:108-119 | a level becomes `Other` exactly when it is not one of 0, 1, 3, 7, 11, and then it keeps the level |
| Levels.Normalize | src/encoding/frame_encoder.rs:95-106 | a named preset is left unchanged |
| Levels.LevelRoundTrip | src/encoding/frame_encoder.rs:108-119 | level to compression level and back to level is the identity |
| Levels.PresetRoundTrip | src/encoding/frame_encoder.rs:43-54 | compression level to level and back is normalisation, and the identity on the named presets |
| Levels.NormalizeProperties | src/encoding/frame_encoder.rs:95-106 | normalising keeps the level and is idempotent, and a normalised `Other` holds no preset's number |
| Levels.NormalizeExamples | src/encoding/frame_encoder.rs:95-106 | `Other(3)` becomes `Default`, `Other(0)` becomes `Uncompressed`, `Other(5)` stays `Other(5)` |
| Frame.BlockSize | src/encoding/frame_encoder.rs:197-203 | every block holds 1..=`MAX_BLOCK_SIZE` bytes within the input, and it reaches the end of the input exactly when it is flagged last |
| Frame.BlockSlices | src/encoding/frame_encoder.rs:195-213 | the offset loop's slices are all in range, and there are none exactly when the offset is at the end of the input |
| Frame.BlockSlicesCover | src/encoding/frame_encoder.rs:195-213 | from any offset, the slices concatenate to the rest of the input, and all but the last are full |
| Frame.BlocksCover | src/encoding/frame_encoder.rs:195-203 | the blocks concatenate to the whole input in order, and all but the last hold exactly `MAX_BLOCK_SIZE` bytes |
| Frame.EmptyInputFrame | src/encoding/frame_encoder.rs:180-189 | an empty input has no blocks, and both implemented levels write just the frame header and one last `Raw` header of size 0 |
| Frame.RawFramesLayout | src/encoding/frame_encoder.rs:204-211 | under `Uncompressed`, block k is a `Raw` header with the slice's length, flagged last only for the final block, followed by the slice |
| Frame.FastestFramesAt | src/encoding/frame_encoder.rs:217-263 | under `Fastest`, block k's two records are the block's records computed with the matcher having seen exactly the blocks before k |
| Frame.FastestFramesLayout | src/encoding/frame_encoder.rs:217-263 | the `Fastest` frame is two records per block, in input order, each block compressed against the history of the blocks before it and flagged last only when it is the final block |
| Frame.FastestBlockKind | src/encoding/frame_encoder.rs:228-259 | a block is written `RLE` exactly when all its bytes equal the first; a non-uniform block is `Compressed` exactly when the compressed form is shorter than `MAX_BLOCK_SIZE`, and otherwise `Raw`; the header carries the `last` flag |
| Frame.CompressedMayExpand | src/encoding/frame_encoder.rs:241-259 | the choice compares with the constant, not the block's length: a 2-byte block whose compressed form takes 3 bytes is written `Compressed` with size 3 |
| Frame.DecodeRawFrames | src/encoding/frame_encoder.rs:192-214 | the reference decoder reads the `Uncompressed` block records back to exactly the blocks |
| Frame.DecodeFastestFrames | src/encoding/frame_encoder.rs:215-265 | the reference decoder reads the `Fastest` block records back to exactly the blocks, given a decompressor that undoes the block compressor with the same history |
| Frame.EmptyFrameDecodes | src/encoding/frame_encoder.rs:180-189 | the frame of an empty input decodes to the empty input |
| Frame.UncompressedRoundTrip | src/encoding/frame_encoder.rs:320-343 | decoding the `Uncompressed` frame of any input gives the input back |
| Frame.FastestRoundTrip | src/encoding/frame_encoder.rs:215-265 | decoding the `Fastest` frame of any input gives the input back, whenever the block decompressor undoes the block compressor |
| FrameEncoder.MatchGenerator.constructor | src/encoding/frame_encoder.rs:178 | a new matcher has the given window and has seen nothing |
| FrameEncoder.MatchGenerator.AddDataNoMatching | src/encoding/frame_encoder.rs:229 | the block is appended to what the matcher has seen |
| FrameEncoder.CompressBlock | src/encoding/frame_encoder.rs:239-240 | the compressed bytes are the compressor applied to the matcher's history before the call, and afterwards the history includes the block |
| FrameEncoder.UncompressedBlocks | src/encoding/frame_encoder.rs:192-214 | the `Uncompressed` loop writes exactly the `Raw` layout of the input's blocks |
| FrameEncoder.FastestBlockRecords | src/encoding/frame_encoder.rs:226-260 | one block's records are those of the `Fastest` choice against the matcher's history before the block, and the matcher is shown the block exactly once either way |
| FrameEncoder.FastestLoopStep | src/encoding/frame_encoder.rs:217-263 | one iteration (records of the block added to what is pending, flushed to the sink, pending cleared) keeps "sink + pending + records of the remaining blocks" equal to the whole output |
| FrameEncoder.FrameCompressor.FastestIteration | src/encoding/frame_encoder.rs:218-263 | one pass of the `Fastest` loop advances the offset by the block size and keeps the loop's account of sink, pending output and matcher history |
| FrameEncoder.FrameCompressor.FastestBlocks | src/encoding/frame_encoder.rs:215-265 | the `Fastest` loop appends to the sink exactly the pending output followed by the `Fastest` layout of the input, leaves nothing pending when the input is non-empty, and shows the matcher every block once, in order |
| FrameEncoder.FrameCompressor.constructor | src/encoding/frame_encoder.rs:146-157 | the compressor keeps its reader and sink and stores the normalised level |
| FrameEncoder.FrameCompressor.Compress | src/encoding/frame_encoder.rs:160-284 | the input is consumed; under `Uncompressed` or `Fastest` the sink gains exactly the whole frame of that level (header, empty-input marker, blocks); under any other level the outcome is `Unimplemented` with the level's number and the sink is unchanged; the matcher is shown every block in order under `Fastest` and nothing under any other level |
| Entries.SortEntries | src/huff0/huff0_encoder.rs:45-48 | the sort returns a strictly sorted permutation of its distinct input entries |
| Entries.SumOfPermutation | src/huff0/huff0_encoder.rs:57 | a sum over the entries does not depend on their order |
| HuffmanTable.HighestBitSet | src/huff0/huff0_encoder.rs:84-88 | for positive x the result r is at least 1 and 2^(r-1) <= x < 2^r |
| HuffmanTable.HighestBitSetIsLog2 | src/huff0/huff0_encoder.rs:85-88 | `highest_bit_set(x)` is floor(log2 x) + 1 |
| HuffmanTable.CollectPresent | src/huff0/huff0_encoder.rs:37-44 | the collected entries are exactly the symbols of non-zero weight, with their weights, in symbol order |
| HuffmanTable.EmptyCodes | src/huff0/huff0_encoder.rs:50-55 | the table starts with one (0, 0) pair per symbol |
| HuffmanTable.WalkNewRun | src/huff0/huff0_encoder.rs:68-76 | at the first entry of a run, the code written is (start of the run, max bits + 1 - weight), and the counters move on to the next run's start |
| HuffmanTable.OpensRun | src/huff0/huff0_encoder.rs:67-68 | an entry whose weight differs from `current_weight` has a larger weight than the entry before it, and `start_value` is then the start of the level above the previous run |
| HuffmanTable.WalkSameRun | src/huff0/huff0_encoder.rs:76-77 | inside a run, the code written is the previous value plus one with the same bit length |
| HuffmanTable.WalkWrite | src/huff0/huff0_encoder.rs:76 | writing the entry's code extends the part of the table that agrees with the target table |
| HuffmanTable.WalkDone | src/huff0/huff0_encoder.rs:67-78 | once all entries are walked, the written table is the target table and no weight exceeds the maximum bit count |
| HuffmanTable.AssignCodes | src/huff0/huff0_encoder.rs:63-78 | the walk as written succeeds exactly when no weight exceeds `max_num_bits`, and then the table is the as-written canonical table; otherwise `max_num_bits - weight` underflows |
| HuffmanTable.CorrectedNewRun | src/huff0/huff0_encoder.rs:68-75 | a new run's weight lies above the previous run's; shifting `start_value` right by the number of skipped levels gives the run's corrected start, and the counters move on to the next level |
| HuffmanTable.CorrectedSameRun | src/huff0/huff0_encoder.rs:76-77 | inside a run, the corrected code is the previous value plus one with the same bit length |
| HuffmanTable.AssignCorrectedCodes | src/huff0/huff0_encoder.rs:63-78 | the corrected walk succeeds exactly when no weight exceeds `max_num_bits` (the same underflow otherwise), and then the table is the corrected table |
| HuffmanTable.BuildFromWeights | src/huff0/huff0_encoder.rs:31-81 | succeeds exactly when the weight sum is a power of two and no weight exceeds its log; fails with the internal-error panic exactly when the sum is not a power of two; on success returns the corrected table, where every present symbol's codeword is below 2^(its bit length), and this is the source's table whenever no weight level is skipped |
| HuffmanSpec.CanonicalCode | src/huff0/huff0_encoder.rs:63-78 | a symbol of weight 0 gets (0, 0); a present symbol's bit length is at most `max_num_bits` |
| HuffmanSpec.CodeLengths | src/huff0/huff0_encoder.rs:74 | a symbol is absent exactly when its bit length is 0; a present symbol's length is `max_num_bits + 1 - weight`, in 1..=`max_num_bits` |
| HuffmanSpec.KraftEquality | src/huff0/huff0_encoder.rs:57-61 | the sum of 2^(`max_num_bits` - length) over the present symbols equals 2^`max_num_bits` |
| HuffmanSpec.WeightSumLink | src/huff0/huff0_encoder.rs:57 | the sum over the sorted vector of 2^(w-1) equals the weight sum of the array |
| HuffmanSpec.CountLink | src/huff0/huff0_encoder.rs:69 | counting entries of weight w in the vector counts the symbols of weight w |
| HuffmanSpec.FirstRunStartsAtZero | src/huff0/huff0_encoder.rs:63-70 | the first symbol in (weight, symbol) order gets codeword 0 |
| HuffmanSpec.RunConsecutive | src/huff0/huff0_encoder.rs:76-77 | two consecutive symbols of the same weight get consecutive codewords of the same length |
| HuffmanSpec.LengthAntitone | src/huff0/huff0_encoder.rs:74 | a larger weight never gets a longer code |
| HuffmanSpec.TestVectorA | src/huff0/huff0_encoder.rs:92-97 | weights [2,2,2,1,1] give (1,2), (2,2), (3,2), (0,3), (1,3) |
| HuffmanSpec.TestVectorBValid | src/huff0/huff0_encoder.rs:99-105 | the weights [4,3,2,0,1,1] sum to a power of two, with `max_num_bits` 4 |
| HuffmanSpec.TestVectorB | src/huff0/huff0_encoder.rs:99-105 | weights [4,3,2,0,1,1] give (1,1), (1,2), (1,3), (0,0), (0,4), (1,4) |
| HuffmanWeights.PushRepeated | src/huff0/huff0_encoder.rs:127-129 | the inner loop appends exactly n copies of the weight |
| HuffmanWeights.DistributeWeights | src/huff0/huff0_encoder.rs:108-134 | panics exactly when the amount is outside 2..=256; otherwise returns exactly `amount` positive non-decreasing weights starting [1, 1] whose sum of 2^(w-1) (and so of 2^w) is a power of two, and the vector is `DistributeSpec(amount)` |
| HuffmanWeights.DistributeStep | src/huff0/huff0_encoder.rs:118-131 | one pass of the loop (2^(counter - target) copies of the target, or one copy of the counter as the new target when they do not fit) leaves the same end vector `DistributeFrom` |
| HuffmanWeights.DistributeRound | src/huff0/huff0_encoder.rs:119-130 | one pass adds at least one weight without passing `amount`, keeps the vector ordered, positive and starting [1, 1], ends it with the new target, doubles the sum of 2^(w-1), and leaves the same end vector |
| HuffmanWeights.DistributeLoop | src/huff0/huff0_encoder.rs:111-133 | from [1, 1] the loop ends with exactly `amount` ordered positive weights, a sum of 2^(w-1) equal to 2^(counter - 1), and the vector `DistributeSpec(amount)` |
| HuffmanWeights.DistributeExamples | src/huff0/huff0_encoder.rs:108-134 | `distribute_weights(5)` is [1, 1, 1, 1, 3] and `distribute_weights(10)` is eight 1s followed by 4 and 5; both last weights are within the `ilog2 + 2` cap |
| HuffmanWeights.DistributeFromOrdered | src/huff0/huff0_encoder.rs:118-131 | from an ordered positive vector that ends in the target weight, the loop's end vector stays non-decreasing and positive |
| HuffmanWeights.DistributeSpecOrdered | src/huff0/huff0_encoder.rs:108-134 | `distribute_weights(amount)` is non-decreasing and positive for every amount |
| HuffmanWeights.DistributeTwelve | src/huff0/huff0_encoder.rs:108-134 | `distribute_weights(12)` is eight 1s, three 4s and a 6, and its last weight is above the cap `ilog2(12) + 2 = 5` |
| HuffmanWeights.RaiseWeights | src/huff0/huff0_encoder.rs:141-150 | every weight below the floor is raised to it, the others are unchanged, and the sum of 2^w grows by exactly the returned `added_weights` |
| HuffmanWeights.RaiseGrows | src/huff0/huff0_encoder.rs:141-150 | raising the weights to a floor never lowers their sum of 2^w, so the surplus `added_weights` is a natural number |
| HuffmanWeights.AffordablePrefix | src/huff0/huff0_encoder.rs:155-158 | every weight the scan accepts before it breaks is positive with 2^(w-1) within the budget, and the weight it breaks at is zero or over the budget |
| HuffmanWeights.HeaviestInMax | src/huff0/huff0_encoder.rs:159-162 | the scan's `current_idx` over a prefix is the first index of its largest weight: no weight of the prefix is larger, and every earlier one is smaller |
| HuffmanWeights.HeaviestAffordable | src/huff0/huff0_encoder.rs:153-165 | the scan panics exactly when it accepts no weight (so `current_weight - 1` underflows, or the first weight is 0); otherwise it returns the first of the heaviest affordable weights: it is affordable, every earlier weight is smaller, every later affordable weight equals it, and it is `HeaviestIn` of the prefix `Affordable` accepts |
| HuffmanWeights.PaidBackStep | src/huff0/huff0_encoder.rs:153-166 | lowering the greedy pick by one and paying its 2^(w-1) leaves the same end result of the pay-back: `PaidBack` of the lowered weights and what is left owed equals `PaidBack` before the round |
| HuffmanWeights.LowerKeepsOrder | src/huff0/huff0_encoder.rs:166 | lowering the first of the equal weights by one keeps the weights non-decreasing |
| HuffmanWeights.PaidBackPowSum | src/huff0/huff0_encoder.rs:152-167 | a pay-back that completes keeps the length and takes exactly the amount owed off the sum of 2^w |
| HuffmanWeights.PaidBackKeepsOrder | src/huff0/huff0_encoder.rs:152-167 | a pay-back that completes leaves non-decreasing weights non-decreasing |
| HuffmanWeights.PayOnce | src/huff0/huff0_encoder.rs:153-166 | one round of the loop either panics, exactly when the pay-back from here panics, or lowers the pick, owes strictly less, keeps the order and leaves the same end result |
| HuffmanWeights.PayBackCanPanic | src/huff0/huff0_encoder.rs:152-167 | sorted weights [1, 3, 3] owing 2, whose sum of 2^w minus what is owed is a power of two, still make the pay-back panic |
| HuffmanWeights.PayBack | src/huff0/huff0_encoder.rs:152-167 | the loop completes exactly when `PaidBack` of the original weights and amount does, and then the array holds exactly `PaidBack`'s result: non-decreasing, with the sum of 2^w lower by exactly what was owed |
| HuffmanWeights.ShiftDown | src/huff0/huff0_encoder.rs:169-174 | the result is the old weights each lowered by the same offset, which is the first weight minus 1 when that exceeds 1 (so the first becomes 1) and 0 otherwise; the order is kept and the sum of 2^w is divided by 2^offset |
| HuffmanWeights.RaiseAndPayBack | src/huff0/huff0_encoder.rs:141-167 | the first two loops: the weights are raised to `last - max_weight` with surplus `added_weights`; the pay-back completes exactly when `PaidBack` of the raised weights and the surplus does, and then the array holds that result, non-decreasing, with the sum of 2^w lower by the surplus |
| HuffmanWeights.RedistributedPanics | src/huff0/huff0_encoder.rs:152-167 | over the cap, when the pay-back of the raised weights panics, `Redistributed` is `None` |
| HuffmanWeights.RedistributedValue | src/huff0/huff0_encoder.rs:136-175 | over the cap, when the pay-back completes with `paid`, `Redistributed` is `paid` lowered by `ShiftOffset(paid)` (its first weight minus 1 when that exceeds 1, else 0) |
| HuffmanWeights.CapWeights | src/huff0/huff0_encoder.rs:141-174 | over the cap, the weights are raised to `last - max_weight` with surplus `surplus`; the rest completes exactly when `PaidBack` of the raised weights and the surplus does, and exactly when `Redistributed` is defined; then `offset` is the first paid-back weight minus 1 when that exceeds 1 and 0 otherwise, and the result is the pay-back shifted down by it, equal to `Redistributed`'s value: non-decreasing, first weight at most 1, sum of 2^w times 2^offset equal to the original, and a power-of-two sum stays one |
| HuffmanWeights.RedistributeWeights | src/huff0/huff0_encoder.rs:136-175 | an empty slice panics; the slice is unchanged when its last weight is within the cap; otherwise the result is `Raise` to `last - max_weight`, then `PaidBack` of the surplus (panicking exactly when that does), then `Shifted` by `offset`, the first paid-back weight minus 1 when that exceeds 1 and 0 otherwise (0 within the cap); it completes exactly when `Redistributed(weights, max_weight)` is defined and then leaves exactly its value; on success it is non-decreasing, its first weight is at most 1, its sum of 2^w times 2^offset is the original sum, and a power-of-two sum stays a power of two |
| HuffmanWeights.CappedUnchanged | src/huff0/huff0_encoder.rs:141-174 | a floor no weight is below, over weights whose first is at most 1, raises nothing, owes nothing and shifts nothing |
| HuffmanWeights.CountWeightsOf | src/huff0/huff0_encoder.rs:12-14 | the weights `distribute_weights(k)` hands to `redistribute_weights` are sorted and positive, and the capped result for k symbols is `Redistributed` of them at `ilog2(k) + 2` |
| HuffmanWeights.CountWeightsOneOver | src/huff0/huff0_encoder.rs:12-14 | when the last distributed weight is exactly one above `ilog2(k) + 2` and the first is at most 1, the capped weights are `distribute_weights(k)` unchanged |
| HuffmanWeights.CountWeightsTwelve | src/huff0/huff0_encoder.rs:12-14 | twelve symbols are over the cap, yet the capped weights are `distribute_weights(12)` unchanged |
| HuffmanTable.RedistributeVec | src/huff0/huff0_encoder.rs:14 | `redistribute_weights` on a vector holding the weights gives exactly `Redistributed` of them (panicking exactly when that is `None`); on success the length and order are kept and a power-of-two sum stays one |
| HuffmanTable.CappedWeights | src/huff0/huff0_encoder.rs:12-14 | fails on the amount assertion exactly when fewer than 2 symbols are present; otherwise fails with the redistribution panic exactly when `CountWeights(amount)` (`distribute_weights(amount)` put through `Redistributed` at `ilog2(amount) + 2`) is `None`, and else returns its value: `amount` non-decreasing weights whose sum of 2^w is a power of two; within the cap that value is `distribute_weights(amount)` unchanged |
| HuffmanTable.HandOut | src/huff0/huff0_encoder.rs:15-27 | walking the sorted counts, each zero count gets 0 and each non-zero count gets the next weight in order (popped off the reversed vector), the pops never fail, and the result is a permutation of the weights plus one zero per zero count |
| HuffmanTable.HandOutOrder | src/huff0/huff0_encoder.rs:16-27 | zero counts get weight 0, and a larger count, or an equal count at a later index, never gets a smaller weight |
| HuffmanTable.HandOutByCount | src/huff0/huff0_encoder.rs:15-27 | the weights handed out are a permutation of the given weights plus one zero per zero count, zero counts get 0, and a larger count, or an equal count at a later index, never gets a smaller weight |
| HuffmanTable.DistributeCounts | src/huff0/huff0_encoder.rs:11-27 | fails on the amount assertion exactly when fewer than two counts are non-zero, and with the redistribution panic exactly when `CountWeights(k)` is `None` for the k non-zero counts; otherwise the capped weights are `CountWeights(k)` (`distribute_weights(k)` itself within the cap), and the weights handed out are a permutation of them plus one zero per zero count, zero counts get 0, and the order of counts is kept |
| HuffmanTable.BuildFromCounts | src/huff0/huff0_encoder.rs:10-29 | fails on the amount assertion exactly when fewer than two counts are non-zero, and with the redistribution panic exactly when `CountWeights(k)` is `None`; on success the capped weights are `CountWeights(k)`, the table is the corrected table of the handed-out weights (the source's own table whenever no weight level is skipped), every codeword fits its bit length, zero counts get (0, 0), and a larger count, or an equal count at a later index, never gets a longer code |
| HuffmanTable.CountOrderLengths | src/huff0/huff0_encoder.rs:207-232 | when weights follow the count order, zero counts get (0, 0) and code lengths never grow with the count, as the tests assert |
| HuffmanCorrected.SkippedLevelCodeOverflows | src/huff0/huff0_encoder.rs:63-78 | for weights [1,1,1,1,3] the builder as written gives the weight-3 symbol (2, 1): the value does not fit in its single bit, while the corrected numbering gives (1, 1) |
| HuffmanCorrected.CorrectedCodesFit | src/huff0/huff0_encoder.rs:63-78 | with the start value halved at every weight level, every present symbol's codeword is below 2^(its bit length) |
| HuffmanCorrected.RunStartsAgree | src/huff0/huff0_encoder.rs:68-72 | when no weight level below w is empty, the source's run start equals the corrected one |
| HuffmanCorrected.TablesAgreeWithoutSkippedLevels | src/huff0/huff0_encoder.rs:63-78 | when no weight level is skipped, the table as written is the corrected table |
| HuffmanCorrected.CorrectedSkip | src/huff0/huff0_encoder.rs:70-72 | across weight levels with no symbol, the corrected start is divided by 2 once per level |
| HuffmanCorrected.CorrectedTestVectors | src/huff0/huff0_encoder.rs:90-106 | the corrected numbering gives both tables the source's unit test expects |

## Left out

- Reading the input and writing to the sink are not modelled as I/O. The reader is a sequence that `compress` empties, and the sink is a sequence of records that only grows. Their `unwrap`s cannot fail here.
- The byte layouts of the frame header and block headers, and the magic number, are not modelled. `FrameHeader::serialize` and `BlockHeader::serialize` are not part of this model; each header is one record.
- `compress_block`, `compress_raw_block` and the internals of `MatchGenerator` are not part of this model:
  - `compress_block` is an arbitrary function of the history and the block;
  - `compress_raw_block` appends one `RawBlock` record holding the slice;
  - the matcher records only the blocks it is shown.
- The `u32` block-size conversions in the headers are not modelled, because every size is at most `MAX_BLOCK_SIZE`.
- The `1 << shift` widths, the `symbol as u8` cast and the `(u32, u8)` table pairs are not modelled as machine integers. All numbers are unbounded, and `build_from_weights` and `build_from_counts` require at most 256 symbols, as the symbol type implies.
- The `Default`, `Better`, `Best` and `Other` arms of `compress` are modelled as the outcome `Unimplemented` with nothing written to the sink. The panic message is not modelled.
- HuffmanWeights.RedistributeWeights: the tests' bound on the last weight (at most `ilog2(amount) + 3`) is not proved. Neither is the positivity of the weights after redistribution, nor that the pay-back never panics. Both depend on which weight vectors the pay-back can actually reach, not only on their order and power sum. For example, the sorted weights [1, 3, 3] with 2 still owed have a sum of 2^w of 18, and 18 minus the 2 owed is a power of two. Yet the pay-back lowers the 1 to 0 and then panics (`HuffmanWeights.PayBackCanPanic`).
- HuffmanTable.CappedWeights: does not promise success or positive weights. In every case its result is `CountWeights(k)`, the value-level `distribute_weights(k)` followed by `Redistributed` at `ilog2(k) + 2`, and it fails with `RedistributePanicked` exactly when that is `None`. What is not proved is that `CountWeights(k)` is defined and positive for every k in 2..=256. The last distributed weight does go over the cap: for k = 12 it is 6 against a cap of 5 (`DistributeTwelve`), where the floor of 1 leaves the vector unchanged (`CountWeightsTwelve`). For larger k the floor grows, and the raise, the pay-back and the shift all do work. A general proof would have to follow the pay-back on each such vector (see `RedistributeWeights` above). The source's `weights` test runs only the `ilog2(k) + 1` cap, and it checks neither property.
- HuffmanTable.DistributeCounts: for the same reason, success for 2..=256 non-zero counts is not proved. The contract allows `Err(RedistributePanicked)` exactly when `CountWeights(k)` is `None`.
- HuffmanTable.BuildFromCounts: success for 2..=256 non-zero counts is not proved. The contract allows `Err(RedistributePanicked)` from `DistributeCounts`, exactly when `CountWeights(k)` is `None`, and a failed `build_from_weights` on the handed-out weights. The source has neither error path.
- Builds without overflow checks (the default for release builds) are not modelled. There the subtractions wrap instead of panicking. `max_num_bits - weight + 1` (`src/huff0/huff0_encoder.rs:74`) then gives bit length 0 to a single present symbol, whose weight is `max_num_bits + 1`. `weights[idx] - 1` and `current_weight - 1` (lines 156 and 165) do not panic on a zero weight either. The model follows builds with the checks on, where each of these is an error.
- HuffmanTable.BuildFromCounts: builds the corrected table, like `BuildFromWeights`, so its promise that every codeword fits its bit length does not hold for the source. For the counts [3, 0, 4, 0, 7, 2, 2, 2, 0, 2, 2, 1, 5] of the source's `counts` test, the handed-out weights are [1, 0, 1, 0, 5, 1, 1, 1, 0, 1, 1, 1, 4]: `distribute_weights(10)`, within its cap (`DistributeExamples`), handed out in count order. Weight levels 2 and 3 are empty, so the source gives symbol 4 the code (2, 1) and symbol 12 the code (4, 2). When no weight level is skipped, the contract states that the table is the source's `CanonicalTable`.
- HuffmanTable.BuildFromWeights: builds the table with the corrected numbering, not the source's (see Findings). The walk as written is `HuffmanTable.AssignCodes`, proved to give `CanonicalTable`. The two agree whenever no weight level is skipped.
- Prefix-freeness is not proved for either numbering. For the corrected table the model proves only that each codeword fits its bit length, which the table as written does not guarantee.
- The `Fastest` level is covered only by this model. Every compressor test in the source uses `Uncompressed`.

## Findings

| source | as written | input that shows it | evidently intended | confidence | as-written member | corrected member |
|---|---|---|---|---|---|---|
| src/huff0/huff0_encoder.rs:63-78 | `start_value` is halved once per run of present weights, so a weight level with no symbols is not halved for | weights [1,1,1,1,3], which `distribute_weights(5)` produces and `build_from_counts` passes through for five non-zero counts (`DistributeExamples`, `CappedWeights`): the weight-3 symbol gets value 2 with 1 bit, which does not fit and whose low bit collides with symbol 0's code 000 | halve `start_value` at every weight level (section 4.2.1 of RFC 8878), so that weight 3 gets (1, 1) and every codeword fits its bit length | not executed | HuffmanCorrected.SkippedLevelCodeOverflows | HuffmanTable.BuildFromWeights |

The walk as written is `HuffmanTable.AssignCodes`, which gives `CanonicalTable`. `SkippedLevelCodeOverflows` exhibits that table on the input above.

`HuffmanTable.BuildFromWeights`, and so `BuildFromCounts`, use the corrected walk `AssignCorrectedCodes`. On each new run it shifts `start_value` right by the number of weight levels skipped since the previous run. It gives `CorrectedTable`, and `CorrectedCodesFit` proves that every codeword fits.

The correction changes no bit length, and it agrees with the source whenever no weight level is skipped (`TablesAgreeWithoutSkippedLevels`), as in both of the source's test vectors (`CorrectedTestVectors`).
