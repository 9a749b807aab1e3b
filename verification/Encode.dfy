/** What the two writers leave behind for a whole list: the sparse encoding and the raw image. */
module Encode {
  import opened Defs
  import opened Image
  import opened Crc32
  import opened BackedBlock
  import opened OutputFile
  import opened SparseFile

  predicate FillsWhole(l: seq<Block>, bs: nat)
    requires 0 < bs
  {
    forall i :: 0 <= i < |l| && l[i].src.Fill? ==> l[i].len % bs == 0
  }

  /**
   * A list of an image of len bytes: sorted, disjoint, non-empty extents inside it, and one more block
   * than the image still below 2^32 bytes.
   */
  predicate InImage(l: seq<Block>, bs: nat, len: nat) {
    && 0 < bs <= INT_MAX && bs % 4 == 0
    && Sorted(l, bs)
    && (forall i :: 0 <= i < |l| ==> 0 < l[i].len && End(l[i], bs) <= DivRoundUp(len, bs))
    && Align(len, bs) + bs <= U32
  }

  predicate WellFormed(l: seq<Block>, bs: nat, len: nat) {
    InImage(l, bs, len) && FillsWhole(l, bs)
  }

  lemma WellFormedSize(l: seq<Block>, bs: nat, len: nat)
    requires WellFormed(l, bs, len)
    ensures 0 < bs <= INT_MAX && bs % 4 == 0 && InImage(l, bs, len)
  {
  }

  lemma WellFormedFits(l: seq<Block>, bs: nat, len: nat, i: nat)
    requires InImage(l, bs, len) && i < |l|
    ensures Start(l[i], bs) + Align(l[i].len, bs) <= Align(len, bs)
    ensures Start(l[i], bs) + l[i].len <= Align(len, bs)
    ensures Writable(l[i], bs)
  {
    var b := l[i];
    hide DivRoundUp, Align;
    AlignBounds(b.len, bs);
    AlignBounds(len, bs);
    Distribute(b.block, DivRoundUp(b.len, bs), bs);
    MulMono(End(b, bs), DivRoundUp(len, bs), bs);
    MulMono(0, b.block, bs);
    MulMono(1, bs, End(b, bs));
  }

  lemma WellFormedAll(l: seq<Block>, bs: nat, len: nat)
    requires WellFormed(l, bs, len)
    ensures AllWritable(l, bs) && Bounded(l, bs) && InSpace(l, bs)
  {
    forall i | 0 <= i < |l|
      ensures Writable(l[i], bs) && Start(l[i], bs) + l[i].len < U32 && End(l[i], bs) < U32
    {
      WellFormedFits(l, bs, len, i);
    }
  }

  lemma TailSorted(l: seq<Block>, bs: nat)
    requires 0 < bs && l != [] && Sorted(l, bs)
    ensures Sorted(l[1..], bs)
    ensures |l| > 1 ==> End(l[0], bs) <= l[1].block
  {
  }

  // ---- appending ----

  predicate Positive(l: seq<Block>) {
    forall i :: 0 <= i < |l| ==> 0 < l[i].len
  }

  lemma AppendPositive(l: seq<Block>, b: Block, bs: nat)
    requires 0 < bs && Positive(l) && 0 < b.len && Start(b, bs) + b.len < U32
    requires forall i :: 0 <= i < |l| ==> l[i].block < b.block && End(l[i], bs) <= b.block
    requires FillsWhole(l, bs) && (b.src.Fill? ==> b.len % bs == 0)
    ensures Positive(Queue(l, b, bs)) && FillsWhole(Queue(l, b, bs), bs)
  {
    hide DivRoundUp;
    QueueInOrder(l, b, bs);
    if l != [] {
      var n := |l| - 1;
      var m := l + [b];
      hide Queue;
      if Mergeable(m[n], m[n + 1], bs) {
        MergeAtElements(m, n, bs);
        NoWrapBelow(l[n], b, bs);
        if b.src.Fill? {
          SumWhole(l[n].len, b.len, bs);
        }
      }
    }
  }

  lemma SumWhole(a: nat, b: nat, bs: nat)
    requires 0 < bs && a % bs == 0 && b % bs == 0
    ensures (a + b) % bs == 0
  {
    assert a == (a / bs) * bs && b == (b / bs) * bs;
    Distribute(a / bs, b / bs, bs);
    DivModUnique(a + b, bs, a / bs + b / bs, 0);
  }

  // ---- the sparse encoding ----

  /** The chunk for a hole from block `last` to block `next`. */
  function HoleBytes(last: nat, next: nat): seq<byte> {
    if last < next then SkipBytes(next - last) else []
  }

  function GapBytes(b: Block, last: nat): seq<byte> {
    HoleBytes(last, b.block)
  }

  function BlocksBytes(l: seq<Block>, last: nat, bs: nat, st: Store): seq<byte>
    requires 0 < bs
  {
    if l == [] then []
    else GapBytes(l[0], last) + ChunkBytes(l[0], bs, st) + BlocksBytes(l[1..], End(l[0], bs), bs, st)
  }

  function HashBlocks(c: bv32, l: seq<Block>, bs: nat, st: Store): bv32
    requires 0 < bs
    decreases |l|
  {
    if l == [] then c else HashBlocks(Crc(c, Hashed(l[0], bs, st)), l[1..], bs, st)
  }

  /** The chunk for a hole at the end; nothing is written for it when it is not a whole number of blocks. */
  function TailBytes(l: seq<Block>, bs: nat, len: nat): seq<byte>
    requires 0 < bs
  {
    QuotientBound(len, bs);
    if len % bs == 0 then HoleBytes(LastBlock(l, 0, bs), len / bs) else []
  }

  /** The sparse file. */
  function Encoded(l: seq<Block>, bs: nat, len: nat, crc: bool, st: Store): seq<byte>
    requires 0 < bs
  {
    SparseHeader(bs, len / bs, CountChunks(l, 0, bs, len) + (if crc then 1 else 0))
    + BlocksBytes(l, 0, bs, st) + TailBytes(l, bs, len)
    + (if crc then CrcBytes(HashBlocks(0, l, bs, st)) else [])
  }

  lemma WholeBlocks(n: nat, bs: nat)
    requires 0 < bs
    ensures 0 <= n * bs && (n * bs) % bs == 0 && (n * bs) / bs == n
  {
    MulMono(0, n, bs);
    DivModUnique(n * bs, bs, n, 0);
  }

  lemma PutGapSparse(cfg: Config, o: Out, b: Block, last: nat)
    requires 0 < cfg.bs && cfg.sparse
    ensures PutGap(cfg, o, b, last) == Out(Put(o.sink, GapBytes(b, last)),
      o.curOutPtr + (if b.block > last then (b.block - last) * cfg.bs else 0),
      o.chunkCnt + (if b.block > last then 1 else 0), o.crc)
  {
    if b.block > last {
      WholeBlocks(b.block - last, cfg.bs);
    }
  }

  /** The sparse writer appends the encoding of the blocks, counts a chunk for each part of it and hashes each block. */
  lemma PutBlocksSparse(cfg: Config, o: Out, l: seq<Block>, last: nat, st: Store)
    requires 0 < cfg.bs && cfg.sparse
    ensures var r := PutBlocks(cfg, o, l, last, st);
      && r.sink == Put(o.sink, BlocksBytes(l, last, cfg.bs, st))
      && r.chunkCnt == o.chunkCnt + CountChunks(l, last, cfg.bs, 0)
      && r.crc == if cfg.useCrc then HashBlocks(o.crc, l, cfg.bs, st) else o.crc
    decreases |l|
  {
    if l != [] {
      PutGapSparse(cfg, o, l[0], last);
      var o1 := PutGap(cfg, o, l[0], last);
      var o2 := PutBlock(cfg, o1, l[0], st);
      PutTwice(o.sink, GapBytes(l[0], last), ChunkBytes(l[0], cfg.bs, st));
      PutBlocksSparse(cfg, o2, l[1..], End(l[0], cfg.bs), st);
      PutTwice(o.sink, GapBytes(l[0], last) + ChunkBytes(l[0], cfg.bs, st),
        BlocksBytes(l[1..], End(l[0], cfg.bs), cfg.bs, st));
    }
  }

  lemma {:induction false} CountTail(l: seq<Block>, last: nat, bs: nat, len: nat)
    requires 0 < bs
    ensures CountChunks(l, last, bs, len) ==
            CountChunks(l, last, bs, 0) + (if LastBlock(l, last, bs) < DivRoundUp(len, bs) then 1 else 0)
  {
    hide DivRoundUp;
    if l == [] {
      AlignBounds(0, bs);
    } else {
      CountTail(l[1..], End(l[0], bs), bs, len);
    }
  }

  lemma {:induction false} LastBlockBound(l: seq<Block>, last: nat, bs: nat, m: nat)
    requires 0 < bs && last <= m && forall i :: 0 <= i < |l| ==> End(l[i], bs) <= m
    ensures LastBlock(l, last, bs) <= m
  {
    if l != [] {
      assert forall i :: 0 <= i < |l| - 1 ==> l[1..][i] == l[i + 1];
      LastBlockBound(l[1..], End(l[0], bs), bs, m);
    }
  }

  lemma {:induction false} LastBlockAfter(l: seq<Block>, last: nat, bs: nat, i: nat)
    requires 0 < bs && Sorted(l, bs) && i < |l|
    ensures End(l[i], bs) <= LastBlock(l, last, bs)
  {
    TailSorted(l, bs);
    hide DivRoundUp, Sorted;
    if i != 0 {
      assert l[1..][i - 1] == l[i];
      LastBlockAfter(l[1..], End(l[0], bs), bs, i - 1);
    } else if |l| > 1 {
      LastBlockAfter(l[1..], End(l[0], bs), bs, 0);
      assert l[1..][0] == l[1];
      StartsBeforeEnd(l[1], bs);
    } else {
      assert l[1..] == [];
    }
  }

  lemma StartsBeforeEnd(b: Block, bs: nat)
    requires 0 < bs
    ensures b.block <= End(b, bs)
  {
    AlignBounds(b.len, bs);
  }

  /** len - last * bs, for len of q whole blocks and r bytes more. */
  lemma PadParts(q: nat, r: nat, last: nat, bs: nat)
    requires 0 < bs && r < bs
    ensures r == 0 && last <= q ==> q * bs - last * bs == (q - last) * bs && 0 <= (q - last) * bs
    ensures r == 0 && last <= q ==> (q * bs - last * bs) % bs == 0 && (q * bs - last * bs) / bs == q - last
    ensures r == 0 && last < q ==> 0 < q * bs - last * bs
    ensures 0 < r && last <= q ==> 0 < q * bs + r - last * bs && (q * bs + r - last * bs) % bs == r
    ensures last == q + 1 ==> q * bs + r < last * bs
  {
    Distribute(q - last, last, bs);
    Distribute(q, 1, bs);
    if last <= q {
      MulMono(0, q - last, bs);
      MulMono(last + 1, q, bs);
      DivModUnique(q * bs + r - last * bs, bs, q - last, r);
    }
  }

  lemma RoundUpParts(len: nat, bs: nat)
    requires 0 < bs
    ensures len == (len / bs) * bs + len % bs
    ensures DivRoundUp(len, bs) == if len % bs == 0 then len / bs else len / bs + 1
  {
    var q, r := len / bs, len % bs;
    assert len == q * bs + r;
    RoundUpSum(q, r, bs);
    if r == 0 {
      AlignBounds(0, bs);
    } else {
      DivModUnique(r + bs - 1, bs, 1, r - 1);
    }
  }

  /** The last block of a well-formed image reaches at most to its end, rounded up. */
  lemma PadWithin(l: seq<Block>, bs: nat, len: nat)
    requires InImage(l, bs, len)
    ensures var last, pad := LastBlock(l, 0, bs), len - LastBlock(l, 0, bs) * bs;
      && last <= DivRoundUp(len, bs)
      && (len % bs == 0 ==> 0 <= pad && pad % bs == 0 && pad / bs == len / bs - last && DivRoundUp(len, bs) == len / bs)
      && (len % bs == 0 ==> (0 < pad <==> last < len / bs))
      && (len % bs != 0 ==> (last < DivRoundUp(len, bs) <==> 0 < pad))
      && (len % bs != 0 && 0 < pad ==> pad % bs != 0)
      && (len % bs != 0 ==> pad != 0)
  {
    LastBlockBound(l, 0, bs, DivRoundUp(len, bs));
    RoundUpParts(len, bs);
    PadParts(len / bs, len % bs, LastBlock(l, 0, bs), bs);
  }

  /** What is left behind the last block: a hole has a chunk when it is a number of whole blocks. */
  lemma TailIs(l: seq<Block>, bs: nat, len: nat)
    requires 0 < bs && LastBlock(l, 0, bs) * bs <= len
    ensures var pad := len - LastBlock(l, 0, bs) * bs;
      && TailBytes(l, bs, len) == (if 0 < pad && pad % bs == 0 then SkipBytes(pad / bs) else [])
      && (0 < pad <==> LastBlock(l, 0, bs) < DivRoundUp(len, bs))
      && (0 < pad && pad % bs != 0 <==> len % bs != 0)
  {
    var last := LastBlock(l, 0, bs);
    RoundUpParts(len, bs);
    hide LastBlock, SkipBytes, DivRoundUp;
    MulMono(last, len / bs, bs);
    PadParts(len / bs, len % bs, last, bs);
  }

  /** write_all_blocks into the sparse writer. */
  lemma SparsePutAll(l: seq<Block>, cfg: Config, o: Out, st: Store)
    requires 0 < cfg.bs && cfg.sparse
    ensures var r := PutAll(cfg, o, l, st);
      && (r.Some? <==> LastBlock(l, 0, cfg.bs) * cfg.bs <= cfg.len)
      && (r.Some? ==>
           && r.value.sink == Put(Put(o.sink, BlocksBytes(l, 0, cfg.bs, st)), TailBytes(l, cfg.bs, cfg.len))
           && (r.value.chunkCnt == o.chunkCnt + CountChunks(l, 0, cfg.bs, cfg.len) <==> cfg.len % cfg.bs == 0)
           && r.value.crc == if cfg.useCrc then HashBlocks(o.crc, l, cfg.bs, st) else o.crc)
  {
    PutBlocksSparse(cfg, o, l, 0, st);
    CountTail(l, 0, cfg.bs, cfg.len);
    if LastBlock(l, 0, cfg.bs) * cfg.bs <= cfg.len {
      TailIs(l, cfg.bs, cfg.len);
    }
    hide PutBlocks, HashBlocks, BlocksBytes, TailBytes, CountChunks, LastBlock, SkipBytes, DivRoundUp, WriteAt;
  }

  lemma JoinThree(s: Sink, a: seq<byte>, b: seq<byte>, c: seq<byte>)
    ensures Put(Put(Put(s, a), b), c) == Put(s, a + b + c) && Put(Put(s, a), b) == Put(s, a + b + [])
  {
    PutTwice(s, a, b);
    PutTwice(s, a + b, c);
    assert a + b + [] == a + b;
  }

  lemma WrittenIs(l: seq<Block>, cfg: Config, sink: Sink, st: Store)
    requires 0 < cfg.bs
    ensures Written(l, cfg, sink, st) ==
      match PutAll(cfg, PutHeader(cfg, sink, CountChunks(l, 0, cfg.bs, cfg.len)), l, st)
      case None => None
      case Some(o) => Some(PutEnd(cfg, o))
  {
    hide PutAll, PutEnd, PutHeader, CountChunks;
  }

  /** Header, body and end chunk, for a body that went out as b with the CRC h. */
  lemma ThreeParts(cfg: Config, sink: Sink, blks: nat, n: nat, r: Out, b: seq<byte>, h: bv32)
    requires 0 < cfg.bs && cfg.sparse && blks == cfg.len / cfg.bs && r.sink == Put(PutHeader(cfg, sink, n).sink, b)
    requires (cfg.useCrc ==> r.crc == h)
    ensures var extra := if cfg.useCrc then 1 else 0;
      && PutEnd(cfg, r).chunkCnt == r.chunkCnt + extra
      && PutEnd(cfg, r).sink ==
        Put(sink, SparseHeader(cfg.bs, blks, n + extra) + b + (if cfg.useCrc then CrcBytes(h) else []))
  {
    hide Put, SparseHeader, CrcBytes;
    JoinThree(sink, SparseHeader(cfg.bs, blks, n + (if cfg.useCrc then 1 else 0)), b, CrcBytes(h));
  }

  /** The sparse file, with its body in one piece. */
  lemma EncodedBody(l: seq<Block>, bs: nat, len: nat, crc: bool, st: Store)
    requires 0 < bs
    ensures Encoded(l, bs, len, crc, st) ==
      SparseHeader(bs, len / bs, CountChunks(l, 0, bs, len) + (if crc then 1 else 0))
      + (BlocksBytes(l, 0, bs, st) + TailBytes(l, bs, len)) + (if crc then CrcBytes(HashBlocks(0, l, bs, st)) else [])
  {
    hide SparseHeader, BlocksBytes, TailBytes, CrcBytes, HashBlocks, CountChunks;
    var h := SparseHeader(bs, len / bs, CountChunks(l, 0, bs, len) + (if crc then 1 else 0));
    assert h + BlocksBytes(l, 0, bs, st) + TailBytes(l, bs, len) ==
      h + (BlocksBytes(l, 0, bs, st) + TailBytes(l, bs, len));
  }

  /**
   * sparse_file_write with sparse set, for every list: it stops exactly when a block ends beyond the file, otherwise
   * it is one contiguous write of the encoding; that has as many chunks as its header says exactly for whole blocks.
   */
  lemma SparseWrites(l: seq<Block>, bs: nat, len: nat, crc: bool, sink: Sink, st: Store)
    requires 0 < bs
    ensures var w := Written(l, Config(true, crc, bs, len), sink, st);
      && (w.Some? <==> LastBlock(l, 0, bs) * bs <= len)
      && (w.Some? ==>
           && w.value.sink == Put(sink, Encoded(l, bs, len, crc, st))
           && (w.value.chunkCnt == CountChunks(l, 0, bs, len) + (if crc then 1 else 0) <==> len % bs == 0))
    ensures InImage(l, bs, len) && len % bs == 0 ==> Written(l, Config(true, crc, bs, len), sink, st).Some?
  {
    hide *;
    if InImage(l, bs, len) {
      PadWithin(l, bs, len);
    }
    QuotientBound(len, bs);
    var cfg, n := Config(true, crc, bs, len), CountChunks(l, 0, bs, len);
    var o := PutHeader(cfg, sink, n);
    HeaderStarts(cfg, sink, n);
    SparsePutAll(l, cfg, o, st);
    WrittenIs(l, cfg, sink, st);
    if PutAll(cfg, o, l, st).Some? {
      var r, b, t := PutAll(cfg, o, l, st).value, BlocksBytes(l, 0, bs, st), TailBytes(l, bs, len);
      PutTwice(o.sink, b, t);
      ThreeParts(cfg, sink, len / bs, n, r, b + t, HashBlocks(0, l, bs, st));
      EncodedBody(l, bs, len, crc, st);
    }
  }

  /** The file that a fresh file becomes, and the count of the callback: both are the encoding. */
  lemma PutFresh(f: seq<byte>)
    ensures Put(FileSink([], 0), f) == FileSink(f, |f|) && Put(CountSink(0), f) == CountSink(|f|)
  {
    if f != [] {
      assert WriteAt([], 0, f) == f;
    }
  }

  lemma HeaderStarts(cfg: Config, sink: Sink, n: nat)
    requires 0 < cfg.bs
    ensures PutHeader(cfg, sink, n).chunkCnt == 0 && PutHeader(cfg, sink, n).crc == 0 &&
      PutHeader(cfg, sink, n).curOutPtr == 0
  {
  }

  // ---- where every writer ends up ----

  /** Bytes of the image passed so far: cur_out_ptr, the offset of a raw file, or the callback's count. */
  function Progress(cfg: Config, o: Out): int {
    if cfg.sparse then o.curOutPtr
    else match o.sink
      case FileSink(_, pos) => pos
      case CountSink(count) => count
  }

  predicate From(l: seq<Block>, last: nat) {
    l != [] ==> last <= l[0].block
  }

  lemma GapAdvances(cfg: Config, o: Out, b: Block, last: nat)
    requires 0 < cfg.bs && last <= b.block
    ensures Progress(cfg, PutGap(cfg, o, b, last)) == Progress(cfg, o) + (b.block - last) * cfg.bs
    ensures PutGap(cfg, o, b, last).sink.FileSink? == o.sink.FileSink?
    ensures !cfg.sparse && o.sink.FileSink? ==> PutGap(cfg, o, b, last).sink.bytes == o.sink.bytes
  {
    WholeBlocks(b.block - last, cfg.bs);
    hide WriteAt, SkipBytes;
  }

  /**
   * Bytes by which a backend falls behind: the raw writer does not skip the padding of a fill, and the sparse one
   * adds a rounded length to its pointer as an `int`.
   */
  function Slip(cfg: Config, b: Block): (r: nat)
    requires 0 < cfg.bs
    ensures r == 0 <==> if cfg.sparse then Align(b.len, cfg.bs) <= INT_MAX else b.src.Fill? ==> b.len % cfg.bs == 0
  {
    AlignBounds(b.len, cfg.bs);
    if cfg.sparse then if Align(b.len, cfg.bs) > INT_MAX then U32 else 0
    else if b.src.Fill? then Align(b.len, cfg.bs) - b.len
    else 0
  }

  function Slips(cfg: Config, l: seq<Block>): nat
    requires 0 < cfg.bs
  {
    if l == [] then 0 else Slip(cfg, l[0]) + Slips(cfg, l[1..])
  }

  lemma {:induction false} SlipsNone(cfg: Config, l: seq<Block>)
    requires 0 < cfg.bs
    ensures Slips(cfg, l) == 0 <==> forall i :: 0 <= i < |l| ==> Slip(cfg, l[i]) == 0
  {
    hide Slip;
    if l != [] {
      SlipsNone(cfg, l[1..]);
      assert forall i :: 0 <= i < |l| - 1 ==> l[1..][i] == l[i + 1];
      assert forall i :: 1 <= i < |l| ==> l[i] == l[1..][i - 1];
    }
  }

  lemma BlockAdvances(cfg: Config, o: Out, b: Block, st: Store)
    requires 0 < cfg.bs && (cfg.sparse ==> Align(b.len, cfg.bs) < U32)
    ensures Progress(cfg, PutBlock(cfg, o, b, st)) == Progress(cfg, o) + Align(b.len, cfg.bs) - Slip(cfg, b)
  {
    AlignBounds(b.len, cfg.bs);
    if cfg.sparse {
      Int32Wraps(Align(b.len, cfg.bs));
    }
    hide WriteAt, ChunkBytes, Hashed, Crc, Align, DivRoundUp, Payload, ToInt32, SrcByte;
  }

  lemma Int32Wraps(x: int)
    requires 0 <= x < U32
    ensures ToInt32(x) == x - (if x > INT_MAX then U32 else 0)
  {
  }

  lemma EndParts(b: Block, last: nat, bs: nat)
    requires 0 < bs
    ensures (b.block - last) * bs + Align(b.len, bs) == (End(b, bs) - last) * bs
    ensures Start(b, bs) + Align(b.len, bs) == End(b, bs) * bs
    ensures b.len <= Align(b.len, bs)
  {
    AlignBounds(b.len, bs);
    Distribute(b.block - last, DivRoundUp(b.len, bs), bs);
    Distribute(b.block, DivRoundUp(b.len, bs), bs);
  }

  lemma ExtentAdvances(cfg: Config, o: Out, b: Block, last: nat, st: Store)
    requires 0 < cfg.bs && last <= b.block && (cfg.sparse ==> Align(b.len, cfg.bs) < U32)
    ensures Progress(cfg, PutBlock(cfg, PutGap(cfg, o, b, last), b, st)) ==
            Progress(cfg, o) + (End(b, cfg.bs) - last) * cfg.bs - Slip(cfg, b)
  {
    hide *;
    GapAdvances(cfg, o, b, last);
    BlockAdvances(cfg, PutGap(cfg, o, b, last), b, st);
    EndParts(b, last, cfg.bs);
  }

  /** Whatever the backend, the blocks of a sorted list advance it to the end of the last one, less what it slips. */
  lemma {:induction false} PutBlocksAdvance(cfg: Config, o: Out, l: seq<Block>, last: nat, st: Store)
    requires 0 < cfg.bs && Sorted(l, cfg.bs) && From(l, last)
    requires cfg.sparse ==> forall i :: 0 <= i < |l| ==> Align(l[i].len, cfg.bs) < U32
    ensures Progress(cfg, PutBlocks(cfg, o, l, last, st)) ==
            Progress(cfg, o) + (LastBlock(l, last, cfg.bs) - last) * cfg.bs - Slips(cfg, l)
    decreases |l|
  {
    if l != [] {
      var b, rest := l[0], l[1..];
      TailSorted(l, cfg.bs);
      assert forall i :: 0 <= i < |l| - 1 ==> rest[i] == l[i + 1];
      hide Sorted, PutBlock, PutGap, DivRoundUp, Progress, Align, End, Start, Slip;
      ExtentAdvances(cfg, o, b, last, st);
      PutBlocksAdvance(cfg, PutBlock(cfg, PutGap(cfg, o, b, last), b, st), rest, End(b, cfg.bs), st);
      Distribute(End(b, cfg.bs) - last, LastBlock(rest, End(b, cfg.bs), cfg.bs) - End(b, cfg.bs), cfg.bs);
    }
  }

  /** The sparse length is the size of the file written, for every list and length for which one is written. */
  lemma LengthPrediction(l: seq<Block>, bs: nat, len: nat, crc: bool, st: Store)
    requires 0 < bs
    ensures var cfg := Config(true, crc, bs, len);
      var w, c := Written(l, cfg, FileSink([], 0), st), Written(l, cfg, CountSink(0), st);
      && (c.Some? <==> w.Some?)
      && (w.Some? ==> w.value.sink.FileSink? && c.value.sink == CountSink(|w.value.sink.bytes|))
  {
    hide *;
    SparseWrites(l, bs, len, crc, FileSink([], 0), st);
    SparseWrites(l, bs, len, crc, CountSink(0), st);
    PutFresh(Encoded(l, bs, len, crc, st));
  }

  /**
   * The raw length is that of the image exactly when no fill ends inside a block: nothing is counted for its padding.
   */
  lemma RawLength(l: seq<Block>, bs: nat, len: nat, crc: bool, st: Store)
    requires 0 < bs && Sorted(l, bs)
    ensures var c := Written(l, Config(false, crc, bs, len), CountSink(0), st);
      && (c.Some? <==> LastBlock(l, 0, bs) * bs <= len)
      && (c.Some? ==> c.value.sink.CountSink? && (c.value.sink.count == len <==> FillsWhole(l, bs)))
  {
    var cfg, o := Config(false, crc, bs, len), Out(CountSink(0), 0, 0, 0);
    PutBlocksAdvance(cfg, o, l, 0, st);
    SlipsNone(cfg, l);
    CountStays(cfg, o, l, 0, st);
    hide PutBlocks, LastBlock, Sorted, Slips, CountChunks;
  }

  lemma CountStays(cfg: Config, o: Out, l: seq<Block>, last: nat, st: Store)
    requires 0 < cfg.bs && o.sink.CountSink?
    ensures PutBlocks(cfg, o, l, last, st).sink.CountSink?
    decreases |l|
  {
    if l != [] {
      CountStays(cfg, PutBlock(cfg, PutGap(cfg, o, l[0], last), l[0], st), l[1..], End(l[0], cfg.bs), st);
    }
  }

  /** cur_out_ptr ends at the length of the image exactly when every rounded length fits an `int`. */
  lemma PointerEndsAtLen(l: seq<Block>, bs: nat, len: nat, crc: bool, sink: Sink, st: Store)
    requires InImage(l, bs, len) && len % bs == 0
    ensures var w := Written(l, Config(true, crc, bs, len), sink, st);
      w.Some? && (w.value.curOutPtr == len <==> forall i :: 0 <= i < |l| ==> Align(l[i].len, bs) <= INT_MAX)
  {
    var cfg := Config(true, crc, bs, len);
    forall i | 0 <= i < |l|
      ensures Align(l[i].len, bs) < U32
    {
      WellFormedFits(l, bs, len, i);
    }
    SlipsNone(cfg, l);
    PadWithin(l, bs, len);
    hide Written, LastBlock, Sorted, DivRoundUp, Align, Slips, Slip;
    PointerIs(l, cfg, sink, st);
  }

  lemma PointerIs(l: seq<Block>, cfg: Config, sink: Sink, st: Store)
    requires 0 < cfg.bs && cfg.sparse && Sorted(l, cfg.bs) && From(l, 0)
    requires forall i :: 0 <= i < |l| ==> Align(l[i].len, cfg.bs) < U32
    requires var pad := cfg.len - LastBlock(l, 0, cfg.bs) * cfg.bs; 0 <= pad && pad % cfg.bs == 0
    ensures var w := Written(l, cfg, sink, st); w.Some? && w.value.curOutPtr == cfg.len - Slips(cfg, l)
  {
    hide *;
    var n := CountChunks(l, 0, cfg.bs, cfg.len);
    var o := PutHeader(cfg, sink, n);
    HeaderStarts(cfg, sink, n);
    PutBlocksAdvance(cfg, o, l, 0, st);
    PutAllPointer(l, cfg, o, st);
    var r := PutAll(cfg, o, l, st).value;
    WrittenIs(l, cfg, sink, st);
    PointerOf(cfg, r);
    PointerOf(cfg, o);
  }

  lemma PutAllPointer(l: seq<Block>, cfg: Config, o: Out, st: Store)
    requires 0 < cfg.bs && cfg.sparse
    requires var pad := cfg.len - LastBlock(l, 0, cfg.bs) * cfg.bs; 0 <= pad && pad % cfg.bs == 0
    ensures PutAll(cfg, o, l, st).Some?
    ensures PutAll(cfg, o, l, st).value.curOutPtr ==
            Progress(cfg, PutBlocks(cfg, o, l, 0, st)) + (cfg.len - LastBlock(l, 0, cfg.bs) * cfg.bs)
  {
    hide PutBlocks, LastBlock, Put, SkipBytes;
  }

  lemma PointerOf(cfg: Config, o: Out)
    requires cfg.sparse
    ensures PutEnd(cfg, o).curOutPtr == o.curOutPtr == Progress(cfg, o)
  {
    hide Put, CrcBytes;
  }

  /** The chunk_sz fields of the blocks of a list and of the gaps before them, added up. */
  function BlockSizes(l: seq<Block>, last: nat, bs: nat): nat
    requires 0 < bs
  {
    if l == [] then 0
    else
      (if l[0].block > last then l[0].block - last else 0) + DivRoundUp(l[0].len, bs)
      + BlockSizes(l[1..], End(l[0], bs), bs)
  }

  /** The same for the whole file, with the hole at the end. */
  function ChunkSizes(l: seq<Block>, bs: nat, len: nat): int
    requires 0 < bs
  {
    var pad := len - LastBlock(l, 0, bs) * bs;
    BlockSizes(l, 0, bs) + (if 0 < pad && pad % bs == 0 then pad / bs else 0)
  }

  lemma {:induction false} SizesReach(l: seq<Block>, last: nat, bs: nat)
    requires 0 < bs && Sorted(l, bs) && From(l, last)
    ensures last + BlockSizes(l, last, bs) == LastBlock(l, last, bs)
    decreases |l|
  {
    if l != [] {
      TailSorted(l, bs);
      hide Sorted, DivRoundUp;
      SizesReach(l[1..], End(l[0], bs), bs);
    }
  }

  /** The block count in the header is the sum of the chunk sizes, whatever the lengths of the extents. */
  lemma SizesAddUp(l: seq<Block>, bs: nat, len: nat)
    requires InImage(l, bs, len) && len % bs == 0
    ensures ChunkSizes(l, bs, len) == len / bs
  {
    PadWithin(l, bs, len);
    SizesReach(l, 0, bs);
    hide Sorted, DivRoundUp, LastBlock, BlockSizes;
  }

  // ---- the raw image ----

  /** The file f with the extents of l written over it, cut or extended to len bytes. */
  function Overlay(f: seq<byte>, l: seq<Block>, bs: nat, st: Store, len: nat): (r: seq<byte>)
    ensures |r| == len
  {
    seq(len, (p: nat) => GetOr(Lookup(l, bs, st, p), At(f, p)))
  }

  lemma AtWriteAt(f: seq<byte>, pos: nat, d: seq<byte>, p: nat)
    ensures At(WriteAt(f, pos, d), p) == if pos <= p < pos + |d| then d[p - pos] else At(f, p)
  {
  }

  /** Every fill but the last extent is whole blocks. */
  predicate FillsWholeBefore(l: seq<Block>, bs: nat)
    requires 0 < bs
  {
    forall i :: 0 <= i < |l| - 1 && l[i].src.Fill? ==> l[i].len % bs == 0
  }

  lemma RawPutOne(cfg: Config, o: Out, b: Block, st: Store, p: nat)
    requires 0 < cfg.bs && !cfg.sparse && o.sink.FileSink? && o.sink.pos == Start(b, cfg.bs)
    ensures var r := PutBlock(cfg, o, b, st).sink;
      && r.FileSink?
      && ((b.src.Fill? ==> b.len % cfg.bs == 0) ==> r.pos == End(b, cfg.bs) * cfg.bs)
      && At(r.bytes, p) == GetOr(Lookup([b], cfg.bs, st, p), At(o.sink.bytes, p))
  {
    BlockAdvances(cfg, o, b, st);
    EndParts(b, 0, cfg.bs);
    AtWriteAt(o.sink.bytes, Start(b, cfg.bs), Payload(b, st), p);
    LookupOne(b, cfg.bs, st, p);
    hide WriteAt, At, SrcByte, Align, End, Start;
  }

  /** The raw writer writes exactly the bytes of the extents and leaves every other byte of the file alone. */
  lemma {:induction false} RawPutBlocks(cfg: Config, o: Out, l: seq<Block>, last: nat, st: Store, p: nat)
    requires 0 < cfg.bs && !cfg.sparse && Sorted(l, cfg.bs) && From(l, last) && FillsWholeBefore(l, cfg.bs)
    requires o.sink.FileSink? && o.sink.pos == last * cfg.bs
    ensures var r := PutBlocks(cfg, o, l, last, st).sink;
      && r.FileSink?
      && At(r.bytes, p) == GetOr(Lookup(l, cfg.bs, st, p), At(o.sink.bytes, p))
    decreases |l|
  {
    if l != [] {
      var b, rest := l[0], l[1..];
      TailSorted(l, cfg.bs);
      assert forall i :: 0 <= i < |l| - 1 ==> rest[i] == l[i + 1];
      hide Sorted, PutBlock, PutGap, DivRoundUp, Lookup, At, Start, End;
      GapAdvances(cfg, o, b, last);
      StartFrom(b, last, cfg.bs);
      var o1 := PutGap(cfg, o, b, last);
      RawPutOne(cfg, o1, b, st, p);
      if rest != [] {
        RawPutBlocks(cfg, PutBlock(cfg, o1, b, st), rest, End(b, cfg.bs), st, p);
      }
      assert [b] + rest == l;
      LookupConcat([b], rest, cfg.bs, st, p);
      LookupApart(b, rest, cfg.bs, st, p);
      LookupNothing(cfg.bs, st, p);
    }
  }

  lemma StartFrom(b: Block, last: nat, bs: nat)
    ensures last * bs + (b.block - last) * bs == Start(b, bs)
  {
    Distribute(b.block - last, last, bs);
  }

  lemma LookupNothing(bs: nat, st: Store, p: nat)
    ensures Lookup([], bs, st, p) == None
  {
  }

  lemma LookupApart(b: Block, rest: seq<Block>, bs: nat, st: Store, p: nat)
    requires 0 < bs && Sorted([b] + rest, bs)
    ensures Lookup([b], bs, st, p).None? || Lookup(rest, bs, st, p).None?
  {
    LookupOne(b, bs, st, p);
    LookupHole(rest, bs, st, p);
    forall i | 0 <= i < |rest| && Covers(b, bs, p)
      ensures !Covers(rest[i], bs, p)
    {
      assert ([b] + rest)[0] == b && ([b] + rest)[i + 1] == rest[i];
      ExtentsApart(b, rest[i], bs, p);
    }
  }

  /**
   * sparse_file_write with sparse clear, onto a file at offset zero: the file overlaid with the image, unless an
   * extent ends beyond it, in the partial block.
   */
  lemma RawWrites(l: seq<Block>, bs: nat, len: nat, crc: bool, f: seq<byte>, st: Store)
    requires InImage(l, bs, len) && FillsWholeBefore(l, bs)
    ensures var w := Written(l, Config(false, crc, bs, len), FileSink(f, 0), st);
      && (w.Some? <==> LastBlock(l, 0, bs) * bs <= len)
      && (len % bs == 0 ==> w.Some?)
      && (w.Some? ==> w.value.sink.FileSink? && w.value.sink.bytes == Overlay(f, l, bs, st, len))
  {
    var cfg := Config(false, crc, bs, len);
    var o := Out(FileSink(f, 0), 0, 0, 0);
    PadWithin(l, bs, len);
    RawPutBlocks(cfg, o, l, 0, st, 0);
    forall p: nat
      ensures At(PutBlocks(cfg, o, l, 0, st).sink.bytes, p) == GetOr(Lookup(l, bs, st, p), At(f, p))
    {
      RawPutBlocks(cfg, o, l, 0, st, p);
    }
    hide PutBlocks, LastBlock, Lookup, At, CountChunks, Sorted, DivRoundUp;
    var w := Written(l, cfg, FileSink(f, 0), st);
    if w.Some? {
      assert w.value.sink.bytes == Overlay(f, l, bs, st, len);
    }
  }

  // ---- fills that are not whole blocks ----

  /** The offset of a raw file at which the writer puts extent i. */
  function RawOffset(l: seq<Block>, i: nat, bs: nat, f: seq<byte>, st: Store): int
    requires 0 < bs && i < |l|
  {
    var cfg := Config(false, false, bs, 0);
    var o := PutBlocks(cfg, Out(FileSink(f, 0), 0, 0, 0), l[..i], 0, st);
    Progress(cfg, PutGap(cfg, o, l[i], LastBlock(l[..i], 0, bs)))
  }

  lemma RawOffsetIs(l: seq<Block>, i: nat, bs: nat, f: seq<byte>, st: Store)
    requires 0 < bs && i < |l| && Sorted(l, bs)
    ensures RawOffset(l, i, bs, f, st) == Start(l[i], bs) - Slips(Config(false, false, bs, 0), l[..i])
  {
    var cfg, o, last := Config(false, false, bs, 0), Out(FileSink(f, 0), 0, 0, 0), LastBlock(l[..i], 0, bs);
    hide DivRoundUp, PutGap, PutBlocks, LastBlock, Slips, Start;
    LastBlockBound(l[..i], 0, bs, l[i].block);
    PutBlocksAdvance(cfg, o, l[..i], 0, st);
    hide Sorted, Progress, End;
    GapAdvances(cfg, PutBlocks(cfg, o, l[..i], 0, st), l[i], last);
    StartFrom(l[i], last, bs);
  }

  /** Every extent goes to its own place in a raw file exactly when no fill but the last extent ends inside a block. */
  lemma RawOffsetsExactly(l: seq<Block>, bs: nat, f: seq<byte>, st: Store)
    requires 0 < bs && Sorted(l, bs)
    ensures (forall i :: 0 <= i < |l| ==> RawOffset(l, i, bs, f, st) == Start(l[i], bs)) <==> FillsWholeBefore(l, bs)
  {
    hide RawOffset, Sorted, Slips, Start;
    forall i | 0 <= i < |l|
      ensures RawOffset(l, i, bs, f, st) == Start(l[i], bs) <==> FillsWhole(l[..i], bs)
    {
      RawOffsetIs(l, i, bs, f, st);
      SlipsNone(Config(false, false, bs, 0), l[..i]);
    }
    if l != [] {
      var n := |l| - 1;
      assert FillsWholeBefore(l, bs) <==> FillsWhole(l[..n], bs);
      if FillsWhole(l[..n], bs) {
        forall i | 0 <= i < |l|
          ensures FillsWhole(l[..i], bs)
        {
          assert forall k :: 0 <= k < i ==> l[..i][k] == l[..n][k];
        }
      }
      assert RawOffset(l, n, bs, f, st) == Start(l[n], bs) <==> FillsWhole(l[..n], bs);
    }
  }

  /** Half a block filled, and a whole block behind it that goes to offset 4 instead of 8. */
  lemma FillDisplaces(f: seq<byte>, st: Store)
    ensures var l := [Block(0, 4, Fill(1)), Block(1, 8, Fill(2))];
      Sorted(l, 8) && Start(l[1], 8) == 8 && RawOffset(l, 1, 8, f, st) == 4
  {
    var l, cfg := [Block(0, 4, Fill(1)), Block(1, 8, Fill(2))], Config(false, false, 8, 0);
    DivModUnique(11, 8, 1, 3);
    assert Slip(cfg, l[0]) == 4 && l[..1][0] == l[0] && l[..1][1..] == [] && Slips(cfg, []) == 0;
    hide RawOffset;
    RawOffsetIs(l, 1, 8, f, st);
  }
}
