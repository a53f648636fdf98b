/**
 * The frame a `FrameCompressor` writes, as a sequence of records.
 *
 * The byte layouts of the frame header and of the block headers belong to
 * serialisers that are not part of this model, so each header is one
 * record. A payload is either what `compress_raw_block` appends for a slice
 * (`RawBlock`) or bytes pushed or extended directly (`Bytes`).
 *
 * The input is cut into blocks by an offset loop: every block holds
 * `MAX_BLOCK_SIZE` bytes except the last, which holds the rest. Each block
 * becomes a header and one payload. A small reference decoder reads records
 * back, and the lemmas at the end prove that it recovers the input from the
 * `Uncompressed` and the `Fastest` frames.
 */
module Frame {
  import opened Results
  import opened Levels

  /** Largest block the encoder emits: 128 KiB minus 20 bytes (RFC 8878 section 3.1.1.2.3 allows up to 128 KiB). */
  const MAX_BLOCK_SIZE: nat := 128 * 1024 - 20

  /** The window size the frame header announces. */
  const WINDOW_SIZE: nat := 256 * 1024

  datatype BlockType = Raw | RLE | Compressed

  datatype Record =
    | FrameHeader(windowSize: nat)
    | BlockHeader(lastBlock: bool, blockType: BlockType, blockSize: nat)
    | RawBlock(data: seq<u8>)
    | Bytes(data: seq<u8>)

  /** Whether the block starting at `index` of an input of length `n` is the last. */
  predicate IsLastBlock(n: nat, index: nat)
  {
    index + MAX_BLOCK_SIZE >= n
  }

  /** Size of the block starting at `index`: the rest of the input, or `MAX_BLOCK_SIZE`. */
  function BlockSize(n: nat, index: nat): (size: nat)
    requires index < n
    ensures 1 <= size <= MAX_BLOCK_SIZE && index + size <= n
    ensures index + size == n <==> IsLastBlock(n, index)
  {
    if IsLastBlock(n, index) then n - index else MAX_BLOCK_SIZE
  }

  /** Every block holds between 1 and `MAX_BLOCK_SIZE` bytes. */
  predicate BlocksInRange(bs: seq<seq<u8>>)
  {
    forall k :: 0 <= k < |bs| ==> 1 <= |bs[k]| <= MAX_BLOCK_SIZE
  }

  /** The slices the offset loop cuts from `data`, starting at `index`. */
  function BlockSlices(data: seq<u8>, index: nat): (bs: seq<seq<u8>>)
    requires index <= |data|
    ensures BlocksInRange(bs)
    ensures bs == [] <==> index == |data|
    decreases |data| - index
  {
    if index == |data| then []
    else
      var size := BlockSize(|data|, index);
      [data[index..index + size]] + BlockSlices(data, index + size)
  }

  function Blocks(data: seq<u8>): (bs: seq<seq<u8>>)
    ensures BlocksInRange(bs)
  {
    BlockSlices(data, 0)
  }

  function Flatten(bs: seq<seq<u8>>): seq<u8>
  {
    if bs == [] then [] else bs[0] + Flatten(bs[1..])
  }

  /**
   * The blocks cover the input in order: they concatenate to it, and every
   * block except the last is full.
   */
  lemma {:induction false} BlockSlicesCover(data: seq<u8>, index: nat)
    requires index <= |data|
    decreases |data| - index
    ensures Flatten(BlockSlices(data, index)) == data[index..]
    ensures forall k :: 0 <= k < |BlockSlices(data, index)| - 1 ==> |BlockSlices(data, index)[k]| == MAX_BLOCK_SIZE
  {
    if index < |data| {
      var size := BlockSize(|data|, index);
      BlockSlicesCover(data, index + size);
      var bs := BlockSlices(data, index);
      assert bs[1..] == BlockSlices(data, index + size);
      assert data[index..] == data[index..index + size] + data[index + size..];
      if !IsLastBlock(|data|, index) {
        assert bs[0] == data[index..index + MAX_BLOCK_SIZE];
      }
    }
  }

  /** Splitting the input and joining the blocks gives the input back. */
  lemma BlocksCover(data: seq<u8>)
    ensures Flatten(Blocks(data)) == data
    ensures forall k :: 0 <= k < |Blocks(data)| - 1 ==> |Blocks(data)[k]| == MAX_BLOCK_SIZE
  {
    BlockSlicesCover(data, 0);
  }

  /** The header written before any block when the input is empty. */
  function EmptyMarker(data: seq<u8>): seq<Record>
  {
    if |data| == 0 then [BlockHeader(true, Raw, 0)] else []
  }

  /** The `Uncompressed` layout of a list of blocks: each a `Raw` header and the slice. */
  function RawFrames(bs: seq<seq<u8>>): seq<Record>
  {
    if bs == [] then []
    else [BlockHeader(|bs| == 1, Raw, |bs[0]|), RawBlock(bs[0])] + RawFrames(bs[1..])
  }

  /** The whole frame under `CompressionLevel::Uncompressed`. */
  function UncompressedRecords(data: seq<u8>): seq<Record>
  {
    [FrameHeader(WINDOW_SIZE)] + EmptyMarker(data) + RawFrames(Blocks(data))
  }

  /** The block compressor: given what the matcher has seen and a block, the compressed bytes. */
  type BlockCompressor = (seq<seq<u8>>, seq<u8>) -> seq<u8>

  predicate AllSame(block: seq<u8>)
  {
    forall k :: 0 <= k < |block| ==> block[k] == block[0]
  }

  /** The records `Fastest` writes for one block, given the blocks the matcher has seen. */
  function FastestBlock(block: seq<u8>, last: bool, history: seq<seq<u8>>, compress: BlockCompressor): seq<Record>
    requires |block| > 0
  {
    if AllSame(block) then [BlockHeader(last, RLE, |block|), Bytes([block[0]])]
    else
      var compressed := compress(history, block);
      if |compressed| >= MAX_BLOCK_SIZE then [BlockHeader(last, Raw, |block|), RawBlock(block)]
      else [BlockHeader(last, Compressed, |compressed|), Bytes(compressed)]
  }

  /** The `Fastest` layout of a list of blocks; each block joins the matcher's history after its turn. */
  function FastestFrames(bs: seq<seq<u8>>, history: seq<seq<u8>>, compress: BlockCompressor): seq<Record>
    requires BlocksInRange(bs)
  {
    if bs == [] then []
    else FastestBlock(bs[0], |bs| == 1, history, compress) + FastestFrames(bs[1..], history + [bs[0]], compress)
  }

  /** The whole frame under `CompressionLevel::Fastest`, with a matcher that starts empty. */
  function FastestRecords(data: seq<u8>, compress: BlockCompressor): seq<Record>
  {
    [FrameHeader(WINDOW_SIZE)] + EmptyMarker(data) + FastestFrames(Blocks(data), [], compress)
  }

  /** An empty input gives the frame header and one empty last `Raw` block header, at either level. */
  lemma EmptyInputFrame(compress: BlockCompressor)
    ensures Blocks([]) == []
    ensures UncompressedRecords([]) == [FrameHeader(WINDOW_SIZE), BlockHeader(true, Raw, 0)]
    ensures FastestRecords([], compress) == [FrameHeader(WINDOW_SIZE), BlockHeader(true, Raw, 0)]
  {
  }

  /**
   * The `Uncompressed` layout block by block: block `k` is a `Raw` header
   * with the slice's length, flagged last only for the final block, then
   * the slice itself.
   */
  lemma {:induction false} RawFramesLayout(bs: seq<seq<u8>>)
    ensures |RawFrames(bs)| == 2 * |bs|
    ensures forall k :: 0 <= k < |bs| ==>
              RawFrames(bs)[2 * k] == BlockHeader(k == |bs| - 1, Raw, |bs[k]|) &&
              RawFrames(bs)[2 * k + 1] == RawBlock(bs[k])
  {
    if bs != [] {
      RawFramesLayout(bs[1..]);
      forall k | 1 <= k < |bs|
        ensures RawFrames(bs)[2 * k] == BlockHeader(k == |bs| - 1, Raw, |bs[k]|)
        ensures RawFrames(bs)[2 * k + 1] == RawBlock(bs[k])
      {
        assert RawFrames(bs)[2 * k] == RawFrames(bs[1..])[2 * (k - 1)];
        assert RawFrames(bs)[2 * k + 1] == RawFrames(bs[1..])[2 * (k - 1) + 1];
      }
    }
  }

  lemma {:induction false} FastestFramesLength(bs: seq<seq<u8>>, history: seq<seq<u8>>, compress: BlockCompressor)
    requires BlocksInRange(bs)
    ensures |FastestFrames(bs, history, compress)| == 2 * |bs|
  {
    if bs != [] {
      FastestFramesLength(bs[1..], history + [bs[0]], compress);
    }
  }

  /** Block `k`'s two records, compressed with the matcher having seen the blocks before it. */
  lemma {:induction false} FastestFramesAt(bs: seq<seq<u8>>, history: seq<seq<u8>>, compress: BlockCompressor, k: nat)
    requires BlocksInRange(bs) && k < |bs|
    ensures |FastestFrames(bs, history, compress)| == 2 * |bs|
    ensures FastestFrames(bs, history, compress)[2 * k..2 * k + 2] ==
            FastestBlock(bs[k], k == |bs| - 1, history + bs[..k], compress)
  {
    FastestFramesLength(bs, history, compress);
    var first := FastestBlock(bs[0], |bs| == 1, history, compress);
    var rest := FastestFrames(bs[1..], history + [bs[0]], compress);
    assert FastestFrames(bs, history, compress) == first + rest;
    if k == 0 {
      assert bs[..0] == [] && history + [] == history;
    } else {
      FastestFramesAt(bs[1..], history + [bs[0]], compress, k - 1);
      PairAfterFirst(first, rest, k);
      HistoryAfterFirst(history, bs, k);
    }
  }

  lemma PairAfterFirst(first: seq<Record>, rest: seq<Record>, k: nat)
    requires |first| == 2 && 1 <= k && 2 * k + 2 <= |first| + |rest|
    ensures (first + rest)[2 * k..2 * k + 2] == rest[2 * (k - 1)..2 * (k - 1) + 2]
  {
  }

  lemma HistoryAfterFirst(history: seq<seq<u8>>, bs: seq<seq<u8>>, k: nat)
    requires 1 <= k < |bs|
    ensures bs[1..][k - 1] == bs[k]
    ensures history + [bs[0]] + bs[1..][..k - 1] == history + bs[..k]
  {
    assert bs[..k] == [bs[0]] + bs[1..][..k - 1];
  }

  /**
   * The `Fastest` layout block by block: block `k` takes two records, it is
   * flagged last only when it is the final block, and it is compressed with
   * the matcher having seen exactly the blocks before it.
   */
  lemma FastestFramesLayout(bs: seq<seq<u8>>, history: seq<seq<u8>>, compress: BlockCompressor)
    requires BlocksInRange(bs)
    ensures |FastestFrames(bs, history, compress)| == 2 * |bs|
    ensures forall k :: 0 <= k < |bs| ==>
              FastestFrames(bs, history, compress)[2 * k..2 * k + 2] ==
              FastestBlock(bs[k], k == |bs| - 1, history + bs[..k], compress)
  {
    FastestFramesLength(bs, history, compress);
    forall k | 0 <= k < |bs|
      ensures FastestFrames(bs, history, compress)[2 * k..2 * k + 2] ==
              FastestBlock(bs[k], k == |bs| - 1, history + bs[..k], compress)
    {
      FastestFramesAt(bs, history, compress, k);
    }
  }

  /**
   * `Fastest` writes a block as RLE exactly when all its bytes equal the
   * first; a non-uniform block is `Compressed` exactly when the compressor's
   * output is shorter than `MAX_BLOCK_SIZE`, and `Raw` otherwise.
   */
  lemma FastestBlockKind(block: seq<u8>, last: bool, history: seq<seq<u8>>, compress: BlockCompressor)
    requires |block| > 0
    ensures var r := FastestBlock(block, last, history, compress);
      |r| == 2 && r[0].BlockHeader? && r[0].lastBlock == last &&
      (r[0].blockType == RLE <==> AllSame(block)) &&
      (!AllSame(block) ==> (r[0].blockType == Compressed <==> |compress(history, block)| < MAX_BLOCK_SIZE))
  {
  }

  /**
   * The choice compares the compressed size with the constant, not with the
   * block: a two-byte block whose compressed form takes three bytes is still
   * written `Compressed`.
   */
  lemma CompressedMayExpand(compress: BlockCompressor)
    requires |compress([], [0, 1])| == 3
    ensures FastestBlock([0, 1], true, [], compress)[0] == BlockHeader(true, Compressed, 3)
  {
    var block: seq<u8> := [0, 1];
    assert block[1] != block[0];
  }

  function Repeat(b: u8, n: nat): (r: seq<u8>)
    ensures |r| == n && forall k :: 0 <= k < n ==> r[k] == b
  {
    seq(n, _ => b)
  }

  /** The block decompressor, given the blocks decoded so far. */
  type BlockDecompressor = (seq<seq<u8>>, seq<u8>) -> seq<u8>

  /** The decompressor undoes the compressor whenever both have seen the same blocks. */
  ghost predicate Inverts(compress: BlockCompressor, decompress: BlockDecompressor)
  {
    forall history, block :: decompress(history, compress(history, block)) == block
  }

  /**
   * Decodes the block whose header is `recs[0]`: its content and the number
   * of records it takes. A `Raw` block of size 0 may stand alone, as in the
   * frame of an empty input.
   */
  function DecodeBlock(recs: seq<Record>, history: seq<seq<u8>>, decompress: BlockDecompressor): (r: Option<(seq<u8>, nat)>)
    requires |recs| > 0 && recs[0].BlockHeader?
    ensures r.Some? ==> 1 <= r.value.1 <= |recs|
  {
    var header := recs[0];
    var payload: Option<Record> := if |recs| > 1 then Some(recs[1]) else None;
    match header.blockType
    case Raw =>
      if payload.Some? && payload.value.RawBlock? && |payload.value.data| == header.blockSize then
        Some((payload.value.data, 2))
      else if header.blockSize == 0 then Some(([], 1))
      else None
    case RLE =>
      if payload.Some? && payload.value.Bytes? && |payload.value.data| == 1 then
        Some((Repeat(payload.value.data[0], header.blockSize), 2))
      else None
    case Compressed =>
      if payload.Some? && payload.value.Bytes? && |payload.value.data| == header.blockSize then
        Some((decompress(history, payload.value.data), 2))
      else None
  }

  /** Decodes blocks up to and including the one flagged last, which must end the records. */
  function DecodeBlocks(recs: seq<Record>, history: seq<seq<u8>>, decompress: BlockDecompressor): Option<seq<seq<u8>>>
    decreases |recs|
  {
    if recs == [] || !recs[0].BlockHeader? then None
    else
      var block := DecodeBlock(recs, history, decompress);
      if block.None? then None
      else
        var content, used := block.value.0, block.value.1;
        if recs[0].lastBlock then (if used == |recs| then Some([content]) else None)
        else
          var rest := DecodeBlocks(recs[used..], history + [content], decompress);
          if rest.None? then None else Some([content] + rest.value)
  }

  /** Decodes a frame: a frame header, then blocks. */
  function DecodeFrame(recs: seq<Record>, decompress: BlockDecompressor): Option<seq<u8>>
  {
    if recs == [] || !recs[0].FrameHeader? then None
    else match DecodeBlocks(recs[1..], [], decompress)
      case None => None
      case Some(bs) => Some(Flatten(bs))
  }

  lemma {:induction false} DecodeRawFrames(bs: seq<seq<u8>>, history: seq<seq<u8>>, decompress: BlockDecompressor)
    requires bs != [] && BlocksInRange(bs)
    ensures DecodeBlocks(RawFrames(bs), history, decompress) == Some(bs)
  {
    var recs := RawFrames(bs);
    assert recs[0] == BlockHeader(|bs| == 1, Raw, |bs[0]|) && recs[1] == RawBlock(bs[0]);
    assert recs[2..] == RawFrames(bs[1..]);
    assert DecodeBlock(recs, history, decompress) == Some((bs[0], 2));
    if |bs| > 1 {
      DecodeRawFrames(bs[1..], history + [bs[0]], decompress);
      assert [bs[0]] + bs[1..] == bs;
    } else {
      assert |recs| == 2 && bs == [bs[0]];
    }
  }

  lemma {:induction false} DecodeFastestFrames(bs: seq<seq<u8>>, history: seq<seq<u8>>, compress: BlockCompressor, decompress: BlockDecompressor)
    requires bs != [] && BlocksInRange(bs) && Inverts(compress, decompress)
    ensures DecodeBlocks(FastestFrames(bs, history, compress), history, decompress) == Some(bs)
  {
    var block := bs[0];
    var first := FastestBlock(block, |bs| == 1, history, compress);
    var recs := FastestFrames(bs, history, compress);
    assert recs == first + FastestFrames(bs[1..], history + [block], compress);
    assert recs[2..] == FastestFrames(bs[1..], history + [block], compress);
    if AllSame(block) {
      assert Repeat(block[0], |block|) == block;
    } else {
      assert decompress(history, compress(history, block)) == block;
    }
    assert DecodeBlock(recs, history, decompress) == Some((block, 2));
    assert recs[0].lastBlock == (|bs| == 1);
    if |bs| > 1 {
      DecodeFastestFrames(bs[1..], history + [block], compress, decompress);
      assert [bs[0]] + bs[1..] == bs;
    } else {
      assert |recs| == 2 && bs == [bs[0]];
    }
  }

  /** The frame of an empty input decodes to nothing. */
  lemma EmptyFrameDecodes(decompress: BlockDecompressor)
    ensures DecodeFrame([FrameHeader(WINDOW_SIZE), BlockHeader(true, Raw, 0)], decompress) == Some([])
  {
    var recs := [FrameHeader(WINDOW_SIZE), BlockHeader(true, Raw, 0)];
    assert recs[1..] == [BlockHeader(true, Raw, 0)];
    assert Flatten([[]]) == [];
  }

  /** Decoding an `Uncompressed` frame gives back the input. */
  lemma UncompressedRoundTrip(data: seq<u8>, decompress: BlockDecompressor)
    ensures DecodeFrame(UncompressedRecords(data), decompress) == Some(data)
  {
    if data != [] {
      var bs := Blocks(data);
      var recs := UncompressedRecords(data);
      assert EmptyMarker(data) == [] && bs != [];
      assert recs[1..] == RawFrames(bs);
      DecodeRawFrames(bs, [], decompress);
      assert DecodeFrame(recs, decompress) == Some(Flatten(bs));
      BlocksCover(data);
    } else {
      EmptyFrameDecodes(decompress);
    }
  }

  /** Decoding a `Fastest` frame with a decompressor that undoes the block compressor gives back the input. */
  lemma FastestRoundTrip(data: seq<u8>, compress: BlockCompressor, decompress: BlockDecompressor)
    requires Inverts(compress, decompress)
    ensures DecodeFrame(FastestRecords(data, compress), decompress) == Some(data)
  {
    if data != [] {
      var frames := FastestFrames(Blocks(data), [], compress);
      assert FastestRecords(data, compress) == [FrameHeader(WINDOW_SIZE)] + frames;
      assert FastestRecords(data, compress)[1..] == frames;
      DecodeFastestFrames(Blocks(data), [], compress, decompress);
      BlocksCover(data);
    } else {
      EmptyFrameDecodes(decompress);
    }
  }
}
