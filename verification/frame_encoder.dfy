/**
 * `FrameCompressor`: reads its whole input, writes a frame header, cuts the
 * input into blocks and writes each block in the form its compression level
 * asks for. Only `Uncompressed` and `Fastest` are implemented; every other
 * level stops with `Unimplemented` before anything reaches the sink.
 *
 * The reader is the sequence of bytes it still holds and the writer is the
 * append-only sequence of records written so far. The match generator is
 * modelled by the blocks it has been shown, and the block compressor is a
 * parameter: the model holds for every block compressor.
 */
module FrameEncoder {
  import opened Levels
  import opened Frame

  /** The match generator, seen only through the blocks it has been shown, in order. */
  class MatchGenerator {
    const maxWindowSize: nat
    var history: seq<seq<u8>>

    constructor (maxWindowSize: nat)
      ensures this.maxWindowSize == maxWindowSize && history == []
    {
      this.maxWindowSize := maxWindowSize;
      history := [];
    }

    /** `add_data_no_matching`: the block joins the window without being matched. */
    method AddDataNoMatching(data: seq<u8>)
      modifies this
      ensures history == old(history) + [data]
    {
      history := history + [data];
    }
  }

  /** `compress_block`: compresses `block` against what `matcher` has seen, which then includes `block`. */
  method CompressBlock(matcher: MatchGenerator, block: seq<u8>, compress: BlockCompressor) returns (compressed: seq<u8>)
    modifies matcher
    ensures compressed == compress(old(matcher.history), block)
    ensures matcher.history == old(matcher.history) + [block]
  {
    compressed := compress(matcher.history, block);
    matcher.history := matcher.history + [block];
  }

  /** One step of the offset loop for `Uncompressed`: the next block's two records. */
  lemma RawStep(data: seq<u8>, index: nat)
    requires index < |data|
    ensures var size := BlockSize(|data|, index);
      RawFrames(BlockSlices(data, index)) ==
      [BlockHeader(IsLastBlock(|data|, index), Raw, size), RawBlock(data[index..index + size])] +
      RawFrames(BlockSlices(data, index + size))
  {
    var size := BlockSize(|data|, index);
    var bs := BlockSlices(data, index);
    assert bs[1..] == BlockSlices(data, index + size);
  }

  /** One step of the offset loop for `Fastest`: the next block's records, after which the matcher has seen it. */
  lemma FastestStep(data: seq<u8>, index: nat, size: nat, history: seq<seq<u8>>, compress: BlockCompressor)
    requires index < |data| && size == BlockSize(|data|, index)
    ensures BlockSlices(data, index) == [data[index..index + size]] + BlockSlices(data, index + size)
    ensures FastestFrames(BlockSlices(data, index), history, compress) ==
      FastestBlock(data[index..index + size], IsLastBlock(|data|, index), history, compress) +
      FastestFrames(BlockSlices(data, index + size), history + [data[index..index + size]], compress)
  {
    var bs := BlockSlices(data, index);
    assert bs[1..] == BlockSlices(data, index + size);
  }

  /** Writing the pending records and the block's records to the sink, then clearing, keeps the order. */
  lemma FlushAppend(flushed: seq<Record>, pending: seq<Record>, records: seq<Record>, later: seq<Record>)
    ensures (flushed + (pending + records)) + [] + later == (flushed + pending) + (records + later)
  {
  }

  lemma ShownAppend(seen: seq<seq<u8>>, block: seq<u8>, later: seq<seq<u8>>)
    ensures (seen + [block]) + later == seen + ([block] + later)
  {
  }

  /** The `Uncompressed` block loop: each block becomes a `Raw` header and the slice. */
  method UncompressedBlocks(data: seq<u8>) returns (output: seq<Record>)
    ensures output == RawFrames(Blocks(data))
  {
    output := [];
    var index := 0;
    while index < |data|
      invariant index <= |data|
      invariant output + RawFrames(BlockSlices(data, index)) == RawFrames(Blocks(data))
      decreases |data| - index
    {
      var lastBlock := index + MAX_BLOCK_SIZE >= |data|;
      var blockSize := if lastBlock then |data| - index else MAX_BLOCK_SIZE;
      RawStep(data, index);
      output := output + [BlockHeader(lastBlock, Raw, blockSize)];
      output := output + [RawBlock(data[index..index + blockSize])];
      index := index + blockSize;
    }
  }

  /**
   * The body of the `Fastest` loop for one block: RLE when every byte equals
   * the first, otherwise the block compressor's output unless that reaches
   * `MAX_BLOCK_SIZE`, in which case the slice is written `Raw`. Either way
   * the matcher is shown the block.
   */
  method FastestBlockRecords(uncompressed: seq<u8>, lastBlock: bool, matcher: MatchGenerator, compress: BlockCompressor)
    returns (records: seq<Record>)
    requires 1 <= |uncompressed| <= MAX_BLOCK_SIZE
    modifies matcher
    ensures records == FastestBlock(uncompressed, lastBlock, old(matcher.history), compress)
    ensures matcher.history == old(matcher.history) + [uncompressed]
  {
    if forall k | 0 <= k < |uncompressed| :: uncompressed[k] == uncompressed[0] {
      matcher.AddDataNoMatching(uncompressed);
      records := [BlockHeader(lastBlock, RLE, |uncompressed|)];
      records := records + [Bytes([uncompressed[0]])];
    } else {
      var compressed := CompressBlock(matcher, uncompressed, compress);
      if |compressed| >= MAX_BLOCK_SIZE {
        records := [BlockHeader(lastBlock, Raw, |uncompressed|)];
        records := records + [RawBlock(uncompressed)];
      } else {
        records := [BlockHeader(lastBlock, Compressed, |compressed|)];
        records := records + [Bytes(compressed)];
      }
    }
  }

  /**
   * The `Fastest` block loop after the blocks before `index`: the matcher
   * has been shown exactly those blocks, and the sink followed by what is
   * still pending, followed by the records of the remaining blocks, is the
   * whole output `start` is to be followed by.
   */
  ghost predicate FastestLoop(data: seq<u8>, compress: BlockCompressor, start: seq<Record>,
                              index: nat, history: seq<seq<u8>>, sink: seq<Record>, rest: seq<Record>)
  {
    index <= |data| &&
    history + BlockSlices(data, index) == Blocks(data) &&
    sink + rest + FastestFrames(BlockSlices(data, index), history, compress) ==
      start + FastestFrames(Blocks(data), [], compress) &&
    (index > 0 ==> rest == [])
  }

  /** One iteration: the block's records are added to what is pending, all of it is flushed, and the matcher is shown the block. */
  lemma FastestLoopStep(data: seq<u8>, compress: BlockCompressor, start: seq<Record>,
                        index: nat, size: nat, history: seq<seq<u8>>, sink: seq<Record>, rest: seq<Record>)
    requires FastestLoop(data, compress, start, index, history, sink, rest)
    requires index < |data| && size == BlockSize(|data|, index)
    ensures FastestLoop(data, compress, start, index + size, history + [data[index..index + size]],
                        sink + (rest + FastestBlock(data[index..index + size], IsLastBlock(|data|, index), history, compress)), [])
  {
    var block := data[index..index + size];
    var records := FastestBlock(block, IsLastBlock(|data|, index), history, compress);
    FastestStep(data, index, size, history, compress);
    var next := FastestFrames(BlockSlices(data, index + size), history + [block], compress);
    ShownAppend(history, block, BlockSlices(data, index + size));
    FlushAppend(sink, rest, records, next);
  }

  datatype CompressOutcome = Completed | Unimplemented(level: ZstdLevel)

  class FrameCompressor {
    /** What the reader still holds. */
    var uncompressedData: seq<u8>
    /** Everything written to the sink so far. */
    var compressedData: seq<Record>
    var compressionLevel: CompressionLevel

    /** `new`: the level is stored normalised, so a preset given as `Other` behaves as the preset. */
    constructor (uncompressedData: seq<u8>, compressedData: seq<Record>, compressionLevel: CompressionLevel)
      ensures this.uncompressedData == uncompressedData
      ensures this.compressedData == compressedData
      ensures this.compressionLevel == Normalize(compressionLevel)
    {
      this.uncompressedData := uncompressedData;
      this.compressedData := compressedData;
      this.compressionLevel := Normalize(compressionLevel);
    }

    /**
     * The `Fastest` block loop: every block's records are appended to
     * `output`, which is then written to the sink and cleared. What is left
     * in `output` afterwards is returned as `rest`.
     */
    method FastestBlocks(data: seq<u8>, matcher: MatchGenerator, compress: BlockCompressor, output: seq<Record>)
      returns (rest: seq<Record>)
      requires matcher.history == []
      modifies this, matcher
      ensures compressedData + rest == old(compressedData) + output + FastestFrames(Blocks(data), [], compress)
      ensures data != [] ==> rest == []
      ensures matcher.history == Blocks(data)
      ensures uncompressedData == old(uncompressedData) && compressionLevel == old(compressionLevel)
    {
      rest := output;
      var index := 0;
      while index < |data|
        invariant FastestLoop(data, compress, old(compressedData) + output, index, matcher.history, compressedData, rest)
        invariant uncompressedData == old(uncompressedData) && compressionLevel == old(compressionLevel)
        decreases |data| - index
      {
        index := FastestIteration(data, compress, old(compressedData) + output, index, matcher, rest);
        rest := [];
      }
      assert BlockSlices(data, index) == [];
    }

    /** One pass of the `Fastest` loop: the block at `index` is compressed, its records flushed to the sink. */
    method FastestIteration(data: seq<u8>, compress: BlockCompressor, ghost start: seq<Record>,
                            index: nat, matcher: MatchGenerator, rest: seq<Record>) returns (next: nat)
      requires index < |data|
      requires FastestLoop(data, compress, start, index, matcher.history, compressedData, rest)
      modifies this, matcher
      ensures next == index + BlockSize(|data|, index)
      ensures FastestLoop(data, compress, start, next, matcher.history, compressedData, [])
      ensures uncompressedData == old(uncompressedData) && compressionLevel == old(compressionLevel)
    {
      var lastBlock := index + MAX_BLOCK_SIZE >= |data|;
      var blockSize := if lastBlock then |data| - index else MAX_BLOCK_SIZE;
      var uncompressed := data[index..index + blockSize];
      FastestLoopStep(data, compress, start, index, blockSize, matcher.history, compressedData, rest);
      var records := FastestBlockRecords(uncompressed, lastBlock, matcher, compress);
      var pending := rest + records;
      next := index + blockSize;
      compressedData := compressedData + pending;
    }

    /**
     * `compress`: reads the whole input, then appends a whole frame to the
     * sink. `shown` is the list of blocks the match generator was shown:
     * under `Fastest` it is every block of the input, once each, in order.
     */
    method Compress(compress: BlockCompressor) returns (outcome: CompressOutcome, ghost shown: seq<seq<u8>>)
      modifies this
      ensures uncompressedData == [] && compressionLevel == old(compressionLevel)
      ensures old(compressionLevel) == Uncompressed ==>
        outcome == Completed &&
        compressedData == old(compressedData) + UncompressedRecords(old(uncompressedData)) &&
        shown == []
      ensures old(compressionLevel) == Fastest ==>
        outcome == Completed &&
        compressedData == old(compressedData) + FastestRecords(old(uncompressedData), compress) &&
        shown == Blocks(old(uncompressedData))
      ensures !(old(compressionLevel).Uncompressed? || old(compressionLevel).Fastest?) ==>
        outcome == Unimplemented(LevelOf(old(compressionLevel))) && compressedData == old(compressedData) &&
        shown == []
    {
      var output: seq<Record> := [FrameHeader(WINDOW_SIZE)];
      var data := uncompressedData;
      uncompressedData := [];
      var matcher := new MatchGenerator(1024 * 128);
      shown := [];
      if |data| == 0 {
        output := output + [BlockHeader(true, Raw, 0)];
      }
      match compressionLevel {
        case Uncompressed =>
          var blocks := UncompressedBlocks(data);
          output := output + blocks;
        case Fastest =>
          output := FastestBlocks(data, matcher, compress, output);
          shown := matcher.history;
        case _ =>
          return Unimplemented(LevelOf(compressionLevel)), shown;
      }
      compressedData := compressedData + output;
      outcome := Completed;
    }
  }
}
