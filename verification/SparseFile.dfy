/** The sparse file: counting chunks, writing all blocks, predicting the written length. */
module SparseFile {
  import opened Defs
  import opened Image
  import opened BackedBlockList
  import opened OutputFile

  // ---- specification functions ----

  /** Chunks needed from block `last` on: one per extent, one per gap before it, one for a hole at the end. */
  function CountChunks(l: seq<Block>, last: nat, bs: nat, len: nat): nat
    requires 0 < bs
  {
    if l == [] then if last < DivRoundUp(len, bs) then 1 else 0
    else (if l[0].block > last then 2 else 1) + CountChunks(l[1..], End(l[0], bs), bs, len)
  }

  function LastBlock(l: seq<Block>, last: nat, bs: nat): nat
    requires 0 < bs
  {
    if l == [] then last else LastBlock(l[1..], End(l[0], bs), bs)
  }

  /** The writer's state after the gap before b, if any. */
  function PutGap(cfg: Config, o: Out, b: Block, last: nat): Out
    requires 0 < cfg.bs
  {
    if b.block > last then PutSkip(cfg, o, (b.block - last) * cfg.bs) else o
  }

  function PutBlocks(cfg: Config, o: Out, l: seq<Block>, last: nat, st: Store): Out
    requires 0 < cfg.bs
    decreases |l|
  {
    if l == [] then o
    else PutBlocks(cfg, PutBlock(cfg, PutGap(cfg, o, l[0], last), l[0], st), l[1..], End(l[0], cfg.bs), st)
  }

  /** write_all_blocks: None when its assertion that no block ends beyond the file fails. */
  function PutAll(cfg: Config, o: Out, l: seq<Block>, st: Store): Option<Out>
    requires 0 < cfg.bs
  {
    var o1 := PutBlocks(cfg, o, l, 0, st);
    var pad := cfg.len - LastBlock(l, 0, cfg.bs) * cfg.bs;
    if pad < 0 then None
    else if pad > 0 then Some(PutSkip(cfg, o1, pad))
    else Some(o1)
  }

  /** sparse_file_write and sparse_file_len: header, all blocks, end chunk. */
  function Written(l: seq<Block>, cfg: Config, sink: Sink, st: Store): Option<Out>
    requires 0 < cfg.bs
  {
    match PutAll(cfg, PutHeader(cfg, sink, CountChunks(l, 0, cfg.bs, cfg.len)), l, st)
    case None => None
    case Some(o) => Some(PutEnd(cfg, o))
  }

  /** What an extent needs to be written: non-empty, and its rounded-up end below 2^32. */
  predicate Writable(b: Block, bs: nat)
    requires 0 < bs
  {
    0 < b.len && b.len + bs <= U32 && End(b, bs) < U32
  }

  predicate AllWritable(l: seq<Block>, bs: nat)
    requires 0 < bs
  {
    forall i :: 0 <= i < |l| ==> Writable(l[i], bs)
  }

  /** The counting callback takes lengths as `int`. */
  predicate IntSized(l: seq<Block>) {
    forall i :: 0 <= i < |l| ==> l[i].len <= INT_MAX
  }

  datatype WriteResult = Done | AssertionFailed

  class SparseFile {
    const blockSize: u32
    var len: nat
    const list: List

    ghost predicate Valid()
      reads this, list, list.nodes
    {
      list.Valid() && list.blockSize == blockSize
    }

    /** sparse_file_new. */
    constructor (blockSize: u32, len: nat)
      ensures Valid() && this.blockSize == blockSize && this.len == len
      ensures list.blocks == [] && list.nodes == [] && fresh(list)
    {
      this.blockSize, this.len := blockSize, len;
      list := new List(blockSize);
    }

    /** sparse_count_chunks. */
    method CountAllChunks() returns (chunks: nat)
      requires Valid() && 0 < blockSize && AllWritable(list.blocks, blockSize)
      ensures chunks == CountChunks(list.blocks, 0, blockSize, len)
    {
      hide Distinct, DivRoundUp, DivRoundUp32;
      var bb := list.dataBlocks;
      var lastBlock := 0;
      chunks := 0;
      ghost var k := 0;
      while bb != null
        invariant 0 <= k <= |list.nodes| && bb == NodeAt(list.nodes, k) && 0 <= lastBlock
        invariant chunks + CountChunks(list.blocks[k..], lastBlock, blockSize, len) ==
          CountChunks(list.blocks, 0, blockSize, len)
        decreases |list.nodes| - k
      {
        ghost var rest := list.blocks[k..];
        assert rest[0] == list.blocks[k] == bb.val && rest[1..] == list.blocks[k + 1..];
        Align32Exact(bb.val.len, blockSize);
        if bb.val.block > lastBlock {
          chunks := chunks + 1;
        }
        chunks := chunks + 1;
        lastBlock := bb.val.block + DivRoundUp32(bb.val.len, blockSize);
        bb, k := bb.next, k + 1;
      }
      if lastBlock < DivRoundUp(len, blockSize) {
        chunks := chunks + 1;
      }
    }

    /** One turn of the loop of write_all_blocks: the gap before bb if there is one, then bb. */
    method WriteAfter(out: OutputFile, b: Block, lastBlock: nat, st: Store)
      requires out.Valid() && Writable(b, out.cfg.bs) && (out.file == null ==> b.len <= INT_MAX)
      modifies out, out.file, out.fillBuf
      ensures out.Valid()
      ensures out.State() == PutBlock(out.cfg, PutGap(out.cfg, old(out.State()), b, lastBlock), b, st)
    {
      hide PutBlock, PutSkip, DivRoundUp;
      if b.block > lastBlock {
        MulMono(0, b.block - lastBlock, out.cfg.bs);
        var _ := out.WriteSkipChunk((b.block - lastBlock) * out.cfg.bs);
      }
      out.WriteBlock(b, st);
    }

    /** write_all_blocks: the result of a skip is ignored, a negative pad aborts. */
    method WriteAllBlocks(out: OutputFile, st: Store) returns (r: WriteResult)
      requires Valid() && 0 < blockSize && AllWritable(list.blocks, blockSize) &&
        (out.file == null ==> IntSized(list.blocks))
      requires out.Valid() && out.cfg.bs == blockSize && out.cfg.len == len
      modifies out, out.file, out.fillBuf
      ensures out.Valid() && Valid() && list.blocks == old(list.blocks)
      ensures r == match PutAll(out.cfg, old(out.State()), list.blocks, st)
        case Some(_) => Done
        case None => AssertionFailed
      ensures r.Done? ==> PutAll(out.cfg, old(out.State()), list.blocks, st) == Some(out.State())
    {
      var lastBlock := WriteEachBlock(out, st);
      hide DivRoundUp, PutBlocks, PutSkip, LastBlock;
      var pad := len - lastBlock * blockSize;
      if pad < 0 {
        return AssertionFailed;
      }
      if pad > 0 {
        var _ := out.WriteSkipChunk(pad);
      }
      r := Done;
    }

    /** The loop of write_all_blocks; the result is its last_block. */
    method WriteEachBlock(out: OutputFile, st: Store) returns (lastBlock: nat)
      requires Valid() && 0 < blockSize && AllWritable(list.blocks, blockSize) &&
        (out.file == null ==> IntSized(list.blocks))
      requires out.Valid() && out.cfg.bs == blockSize
      modifies out, out.file, out.fillBuf
      ensures out.Valid() && Valid() && list.blocks == old(list.blocks)
      ensures out.State() == PutBlocks(out.cfg, old(out.State()), list.blocks, 0, st)
      ensures lastBlock == LastBlock(list.blocks, 0, blockSize)
    {
      hide Distinct, DivRoundUp, DivRoundUp32, PutBlock, PutGap;
      var bb := list.dataBlocks;
      lastBlock := 0;
      ghost var k := 0;
      ghost var l := list.blocks;
      while bb != null
        invariant out.Valid() && Valid() && list.blocks == l
        invariant 0 <= k <= |l| && bb == NodeAt(list.nodes, k)
        invariant PutBlocks(out.cfg, out.State(), l[k..], lastBlock, st) ==
          PutBlocks(out.cfg, old(out.State()), l, 0, st)
        invariant LastBlock(l[k..], lastBlock, blockSize) == LastBlock(l, 0, blockSize)
        decreases |l| - k
      {
        assert bb.val == l[k] && l[k..][0] == l[k] && l[k..][1..] == l[k + 1..];
        Align32Exact(bb.val.len, blockSize);
        WriteAfter(out, bb.val, lastBlock, st);
        lastBlock := bb.val.block + DivRoundUp32(bb.val.len, blockSize);
        bb, k := bb.next, k + 1;
      }
    }

    /** sparse_file_write into a file at its current offset. */
    method Write(file: File, sparse: bool, crc: bool, st: Store) returns (r: WriteResult)
      requires Valid() && 0 < blockSize <= INT_MAX && blockSize % 4 == 0 && AllWritable(list.blocks, blockSize)
      modifies file
      ensures Valid() && list.blocks == old(list.blocks)
      ensures var w := Written(list.blocks, Config(sparse, crc, blockSize, len),
        FileSink(old(file.bytes), old(file.pos)), st);
        if w.None? then r == AssertionFailed else r == Done && FileSink(file.bytes, file.pos) == w.value.sink
    {
      hide Distinct, PutAll, PutHeader, PutEnd, CountChunks;
      var chunks := CountAllChunks();
      var out := new OutputFile(file, Config(sparse, crc, blockSize, len), chunks);
      r := WriteAllBlocks(out, st);
      if r == Done {
        out.Close();
      }
    }

    /** sparse_file_len: write to the counting callback. */
    method Len(sparse: bool, crc: bool, st: Store) returns (r: WriteResult, count: int)
      requires Valid() && 0 < blockSize <= INT_MAX && blockSize % 4 == 0
      requires AllWritable(list.blocks, blockSize) && IntSized(list.blocks)
      ensures var w := Written(list.blocks, Config(sparse, crc, blockSize, len), CountSink(0), st);
        if w.None? then r == AssertionFailed else r == Done && CountSink(count) == w.value.sink
    {
      hide Distinct, PutAll, PutHeader, PutEnd, CountChunks;
      var chunks := CountAllChunks();
      var out := new OutputFile(null, Config(sparse, crc, blockSize, len), chunks);
      r := WriteAllBlocks(out, st);
      count := 0;
      if r == Done {
        out.Close();
        count := out.count;
      }
    }
  }
}
