/** Writers: the sparse and the raw chunk encoders over a seekable file or a counting callback. */
module OutputFile {
  import opened Defs
  import opened Image
  import opened Crc32

  const SPARSE_HEADER_MAGIC: nat := 0xED26_FF3A
  const SPARSE_HEADER_LEN: nat := 28
  const CHUNK_HEADER_LEN: nat := 12

  const CHUNK_TYPE_RAW: nat := 0xCAC1
  const CHUNK_TYPE_FILL: nat := 0xCAC2
  const CHUNK_TYPE_DONT_CARE: nat := 0xCAC3
  const CHUNK_TYPE_CRC32: nat := 0xCAC4

  // ---- the on-disk format ----

  function SparseHeader(bs: nat, totalBlks: nat, totalChunks: nat): (r: seq<byte>)
    ensures |r| == SPARSE_HEADER_LEN
  {
    Le32(SPARSE_HEADER_MAGIC) + Le16(1) + Le16(0) + Le16(SPARSE_HEADER_LEN) + Le16(CHUNK_HEADER_LEN)
    + Le32(bs) + Le32(totalBlks) + Le32(totalChunks) + Le32(0)
  }

  function ChunkHeader(chunkType: nat, chunkSz: nat, totalSz: nat): (r: seq<byte>)
    ensures |r| == CHUNK_HEADER_LEN
  {
    Le16(chunkType) + Le16(0) + Le32(chunkSz) + Le32(totalSz)
  }

  /** The bytes of an extent rounded up to whole blocks. */
  function Padded(b: Block, bs: nat, st: Store): (r: seq<byte>)
    requires 0 < bs
    ensures |r| == Align(b.len, bs)
  {
    AlignBounds(b.len, bs);
    Payload(b, st) + Zeros(Align(b.len, bs) - b.len)
  }

  function ChunkBytes(b: Block, bs: nat, st: Store): seq<byte>
    requires 0 < bs
  {
    match b.src
    case Fill(val) => ChunkHeader(CHUNK_TYPE_FILL, DivRoundUp(b.len, bs), CHUNK_HEADER_LEN + 4) + Le32(val)
    case _ =>
      ChunkHeader(CHUNK_TYPE_RAW, DivRoundUp(b.len, bs), ToU32(CHUNK_HEADER_LEN + Align(b.len, bs))) + Padded(b, bs, st)
  }

  function SkipBytes(blocks: nat): (r: seq<byte>)
    ensures |r| == CHUNK_HEADER_LEN
  {
    ChunkHeader(CHUNK_TYPE_DONT_CARE, blocks, CHUNK_HEADER_LEN)
  }

  function CrcBytes(c: bv32): seq<byte> {
    ChunkHeader(CHUNK_TYPE_CRC32, 0, CHUNK_HEADER_LEN + 4) + CrcField(c)
  }

  function Pattern(val: u32, n: nat): seq<byte> {
    seq(n, (i: nat) => Le32(val)[i % 4])
  }

  /** What the writer feeds to its running CRC for a block: for a fill, one block of it whatever its length. */
  function Hashed(b: Block, bs: nat, st: Store): seq<byte>
    requires 0 < bs
  {
    match b.src
    case Fill(val) => Pattern(val, bs)
    case _ => Padded(b, bs, st)
  }

  // ---- sinks ----

  /** A file with its offset, or the running count kept by the callback. */
  datatype Sink = FileSink(bytes: seq<byte>, pos: nat) | CountSink(count: int)

  /** Writing d at offset pos of a file: the gap a seek may have left reads as zero. */
  function WriteAt(f: seq<byte>, pos: nat, d: seq<byte>): seq<byte> {
    if d == [] then f
    else seq(Max(|f|, pos + |d|), (p: nat) => if pos <= p < pos + |d| then d[p - pos] else At(f, p))
  }

  /** f cut, or extended with zeros, to n bytes. */
  function Truncate(f: seq<byte>, n: nat): (r: seq<byte>)
    ensures |r| == n
  {
    seq(n, (p: nat) => At(f, p))
  }

  function Put(s: Sink, d: seq<byte>): Sink {
    match s
    case FileSink(bytes, pos) => FileSink(WriteAt(bytes, pos, d), pos + |d|)
    case CountSink(count) => CountSink(count + |d|)
  }

  function Skip(s: Sink, n: nat): Sink {
    match s
    case FileSink(bytes, pos) => FileSink(bytes, pos + n)
    case CountSink(count) => CountSink(count + n)
  }

  function Pad(s: Sink, len: nat): Sink {
    match s
    case FileSink(bytes, pos) => FileSink(Truncate(bytes, len), pos)
    case CountSink(_) => s
  }

  lemma WriteAtTwice(f: seq<byte>, pos: nat, a: seq<byte>, b: seq<byte>)
    requires a != [] && b != []
    ensures WriteAt(WriteAt(f, pos, a), pos + |a|, b) == WriteAt(f, pos, a + b)
  {
    var x, y := WriteAt(WriteAt(f, pos, a), pos + |a|, b), WriteAt(f, pos, a + b);
    assert |x| == |y|;
    forall p | 0 <= p < |x|
      ensures x[p] == y[p]
    {
    }
  }

  lemma PutTwice(s: Sink, a: seq<byte>, b: seq<byte>)
    ensures Put(Put(s, a), b) == Put(s, a + b)
  {
    if a == [] {
      assert a + b == b;
    } else if b == [] {
      assert a + b == a;
    } else if s.FileSink? {
      WriteAtTwice(s.bytes, s.pos, a, b);
    }
    hide WriteAt;
  }

  // ---- what the writers do, as functions of the writer's state ----

  datatype Config = Config(sparse: bool, useCrc: bool, bs: nat, len: nat)

  datatype Out = Out(sink: Sink, curOutPtr: int, chunkCnt: nat, crc: bv32)

  predicate ValidConfig(cfg: Config) {
    0 < cfg.bs <= INT_MAX && cfg.bs % 4 == 0
  }

  function PutSkip(cfg: Config, o: Out, n: nat): Out
    requires 0 < cfg.bs
  {
    if !cfg.sparse then o.(sink := Skip(o.sink, n))
    else if n % cfg.bs != 0 then o
    else o.(sink := Put(o.sink, SkipBytes(n / cfg.bs)), curOutPtr := o.curOutPtr + n, chunkCnt := o.chunkCnt + 1)
  }

  function PutBlock(cfg: Config, o: Out, b: Block, st: Store): Out
    requires 0 < cfg.bs
  {
    AlignBounds(b.len, cfg.bs);
    if cfg.sparse then
      Out(Put(o.sink, ChunkBytes(b, cfg.bs, st)), o.curOutPtr + ToInt32(Align(b.len, cfg.bs)), o.chunkCnt + 1,
          if cfg.useCrc then Crc(o.crc, Hashed(b, cfg.bs, st)) else o.crc)
    else if b.src.Fill? then o.(sink := Put(o.sink, Payload(b, st)))
    else o.(sink := Skip(Put(o.sink, Payload(b, st)), Align(b.len, cfg.bs) - b.len))
  }

  function PutEnd(cfg: Config, o: Out): Out {
    if !cfg.sparse then o.(sink := Pad(o.sink, cfg.len))
    else if !cfg.useCrc then o
    else o.(sink := Put(o.sink, CrcBytes(o.crc)), chunkCnt := o.chunkCnt + 1)
  }

  function PutHeader(cfg: Config, sink: Sink, chunks: nat): Out
    requires 0 < cfg.bs
  {
    var total := if cfg.useCrc then chunks + 1 else chunks;
    Out(if cfg.sparse then Put(sink, SparseHeader(cfg.bs, cfg.len / cfg.bs, total)) else sink, 0, 0, 0)
  }

  // ---- the writers ----

  class File {
    var bytes: seq<byte>
    var pos: nat

    constructor (bytes: seq<byte>)
      ensures this.bytes == bytes && pos == 0
    {
      this.bytes, pos := bytes, 0;
    }
  }

  class OutputFile {
    const cfg: Config
    const file: File?            // null for the counting callback
    var count: int
    var curOutPtr: int
    var chunkCnt: nat
    var crc32: bv32
    const zeroBuf: seq<byte>
    const fillBuf: array<u32>

    ghost predicate Valid()
      reads this
    {
      ValidConfig(cfg) && zeroBuf == Zeros(cfg.bs) && fillBuf.Length == cfg.bs / 4
    }

    function Target(): Sink
      reads this, file
    {
      if file != null then FileSink(file.bytes, file.pos) else CountSink(count)
    }

    function State(): Out
      reads this, file
    {
      Out(Target(), curOutPtr, chunkCnt, crc32)
    }

    /** output_file_open_fd and output_file_open_callback, with output_file_init. */
    constructor (file: File?, cfg: Config, chunks: nat)
      requires ValidConfig(cfg)
      modifies file
      ensures Valid() && this.file == file && this.cfg == cfg && fresh(fillBuf)
      ensures var sink := if file != null then FileSink(old(file.bytes), old(file.pos)) else CountSink(0);
        State() == PutHeader(cfg, sink, chunks)
    {
      this.cfg, this.file := cfg, file;
      count, curOutPtr, chunkCnt, crc32 := 0, 0, 0, 0;
      zeroBuf := Zeros(cfg.bs);
      fillBuf := new u32[cfg.bs / 4];
      new;
      if cfg.sparse {
        var total := if cfg.useCrc then chunks + 1 else chunks;
        Write(SparseHeader(cfg.bs, cfg.len / cfg.bs, total));
      }
    }

    /** file_write, or the callback with its `int` length. */
    method Write(data: seq<byte>)
      requires file == null ==> |data| <= INT_MAX
      modifies this`count, file
      ensures State() == old(State()).(sink := Put(old(Target()), data))
    {
      if file != null {
        file.bytes := WriteAt(file.bytes, file.pos, data);
        file.pos := file.pos + |data|;
      } else {
        count := count + ToInt32(|data|);
      }
    }

    /** file_skip, or the callback in steps of at most INT_MAX. */
    method SkipOver(cnt: nat)
      modifies this`count, file
      ensures State() == old(State()).(sink := Skip(old(Target()), cnt))
    {
      if file != null {
        file.pos := file.pos + cnt;
      } else {
        var off := cnt;
        while off > 0
          invariant 0 <= off <= cnt && count == old(count) + cnt - off
        {
          var toWrite := if off < INT_MAX then off else INT_MAX;
          count := count + ToInt32(toWrite);
          off := off - toWrite;
        }
      }
    }

    method WriteSkipChunk(len: nat) returns (ret: int)
      requires Valid()
      modifies this, file
      ensures State() == PutSkip(cfg, old(State()), len)
      ensures ret == 0 <==> !cfg.sparse || len % cfg.bs == 0
    {
      if !cfg.sparse {
        SkipOver(len);
        return 0;
      }
      if len % cfg.bs != 0 {
        return -1;
      }
      Write(ChunkHeader(CHUNK_TYPE_DONT_CARE, len / cfg.bs, CHUNK_HEADER_LEN));
      curOutPtr := curOutPtr + len;
      chunkCnt := chunkCnt + 1;
      ret := 0;
    }

    /** write_sparse_fill_chunk on the extent b. */
    method WriteSparseFill(b: Block, ghost st: Store)
      requires Valid() && cfg.sparse && b.len + cfg.bs <= U32 && b.src.Fill?
      modifies this, file
      ensures State() == PutBlock(cfg, old(State()), b, st)
    {
      Align32Exact(b.len, cfg.bs);
      AlignBounds(b.len, cfg.bs);
      IntRoundTrip(Align32(b.len, cfg.bs));
      hide Align, DivRoundUp, Align32, ToInt32, ToU32, ChunkHeader, Le32, Crc;
      var rndUpLen := ToInt32(Align32(b.len, cfg.bs));
      ghost var s := Target();
      var header := ChunkHeader(CHUNK_TYPE_FILL, ToU32(rndUpLen) / cfg.bs, CHUNK_HEADER_LEN + 4);
      Write(header);
      Write(Le32(b.src.val));
      PutTwice(s, header, Le32(b.src.val));
      if cfg.useCrc {
        HashFill(b.src.val);
      }
      curOutPtr := curOutPtr + rndUpLen;
      chunkCnt := chunkCnt + 1;
    }

    /** The loop that hashes one block of the fill value, word by word. */
    method HashFill(val: u32)
      requires Valid()
      modifies this`crc32
      ensures crc32 == Crc(old(crc32), Pattern(val, cfg.bs))
    {
      HashedNothing(crc32, val);
      hide Crc, Pattern, Le32;
      var count := cfg.bs / 4;
      while count != 0
        invariant 0 <= count <= cfg.bs / 4
        invariant crc32 == Crc(old(crc32), Pattern(val, cfg.bs - 4 * count))
      {
        HashedWord(old(crc32), val, cfg.bs - 4 * count);
        crc32 := SparseCrc32(crc32, Le32(val));
        count := count - 1;
      }
    }

    /** write_sparse_data_chunk on the extent b, whose bytes are data. */
    method WriteSparseData(b: Block, data: seq<byte>, ghost st: Store)
      requires Valid() && cfg.sparse && b.len + cfg.bs <= U32 && !b.src.Fill? && data == Payload(b, st)
      requires file == null ==> b.len <= INT_MAX
      modifies this, file
      ensures State() == PutBlock(cfg, old(State()), b, st)
    {
      Align32Exact(b.len, cfg.bs);
      PadLength(b.len, cfg.bs);
      var rndUpLen := ToInt32(Align32(b.len, cfg.bs));
      var zeroLen := ToInt32(ToU32(rndUpLen - b.len));
      var totalSz := ToU32(CHUNK_HEADER_LEN + ToU32(rndUpLen));
      var header := ChunkHeader(CHUNK_TYPE_RAW, ToU32(rndUpLen) / cfg.bs, totalSz);
      var zeros := zeroBuf[..zeroLen];
      RawChunkBytes(b, cfg.bs, st, header, zeros);
      hide Align, DivRoundUp, Align32, ToInt32, ToU32, ChunkHeader, Padded, ChunkBytes, Payload, Crc, Put;
      WriteThree(header, data, zeros);
      if cfg.useCrc {
        HashData(data, zeros);
      }
      curOutPtr := curOutPtr + rndUpLen;
      chunkCnt := chunkCnt + 1;
    }

    /** Chunk header, data, and the zero padding when there is any. */
    method WriteThree(header: seq<byte>, data: seq<byte>, zeros: seq<byte>)
      requires file == null ==> |header| <= INT_MAX && |data| <= INT_MAX && |zeros| <= INT_MAX
      modifies this`count, file
      ensures State() == old(State()).(sink := Put(old(Target()), header + (data + zeros)))
    {
      ThreeWrites(Target(), header, data, zeros);
      hide Put;
      Write(header);
      Write(data);
      if |zeros| != 0 {
        Write(zeros);
      }
    }

    method HashData(data: seq<byte>, zeros: seq<byte>)
      modifies this`crc32
      ensures crc32 == Crc(old(crc32), data + zeros)
    {
      CrcConcat(crc32, data, zeros);
      hide Crc;
      crc32 := SparseCrc32(crc32, data);
      if |zeros| != 0 {
        crc32 := SparseCrc32(crc32, zeros);
      } else {
        assert data + zeros == data;
      }
    }

    /** write_normal_data_chunk: the padding is skipped, not written. */
    method WriteNormalData(b: Block, data: seq<byte>, ghost st: Store)
      requires Valid() && !cfg.sparse && b.len + cfg.bs <= U32 && !b.src.Fill? && data == Payload(b, st)
      requires file == null ==> b.len <= INT_MAX
      modifies this, file
      ensures State() == PutBlock(cfg, old(State()), b, st)
    {
      Align32Exact(b.len, cfg.bs);
      AlignBounds(b.len, cfg.bs);
      hide Align, DivRoundUp, Align32, Payload;
      var rndUpLen := Align32(b.len, cfg.bs);
      Write(data);
      if rndUpLen > b.len {
        SkipOver(rndUpLen - b.len);
      }
    }

    /** write_normal_fill_chunk: the pattern goes out a block at a time, and nothing is skipped after it. */
    method WriteNormalFill(b: Block, ghost st: Store)
      requires Valid() && !cfg.sparse && b.src.Fill?
      modifies this`count, file, fillBuf
      ensures State() == PutBlock(cfg, old(State()), b, st)
    {
      var val := b.src.val;
      FillBuffer(val);
      var len := b.len;
      ghost var s := Target();
      PatternEnds(s, b, st);
      hide Put, Pattern, Payload, WordBytes;
      while len != 0
        invariant 0 <= len <= b.len && (len == 0 || (b.len - len) % cfg.bs == 0)
        invariant State() == old(State()).(sink := Put(s, Pattern(val, b.len - len)))
        invariant WordBytes(fillBuf[..]) == Pattern(val, cfg.bs)
      {
        var writeLen := if len < cfg.bs then len else cfg.bs;
        WriteFillPart(val, writeLen, s, b.len - len);
        len := len - writeLen;
      }
    }

    /** One turn of that loop. */
    method WriteFillPart(val: u32, writeLen: nat, ghost s: Sink, ghost done: nat)
      requires Valid() && writeLen <= cfg.bs && done % cfg.bs == 0
      requires WordBytes(fillBuf[..]) == Pattern(val, cfg.bs) && Target() == Put(s, Pattern(val, done))
      modifies this`count, file
      ensures State() == old(State()).(sink := Put(s, Pattern(val, done + writeLen)))
      ensures (done + cfg.bs) % cfg.bs == 0
    {
      hide Put, Pattern, WordBytes;
      PatternSum(s, val, done, writeLen, cfg.bs);
      Write(WordBytes(fillBuf[..])[..writeLen]);
    }

    method FillBuffer(val: u32)
      requires Valid()
      modifies fillBuf
      ensures WordBytes(fillBuf[..]) == Pattern(val, cfg.bs)
    {
      for i := 0 to fillBuf.Length
        invariant forall k :: 0 <= k < i ==> fillBuf[k] == val
      {
        fillBuf[i] := val;
      }
    }

    /** write_fd_chunk: the file is mapped from the 4096-byte boundary at or below the offset. */
    method WriteFd(b: Block, contents: seq<byte>, off: nat, ghost st: Store)
      requires Valid() && b.len + cfg.bs <= U32 && !b.src.Fill? && (file == null ==> b.len <= INT_MAX)
      requires forall i: nat :: SrcByte(b.src, st, i) == At(contents, off + i)
      modifies this, file
      ensures State() == PutBlock(cfg, old(State()), b, st)
    {
      var alignedOffset := off - off % 4096;
      var alignedDiff := off - alignedOffset;
      var bufferSize := b.len + alignedDiff;
      var data := seq(bufferSize, (i: nat) => At(contents, alignedOffset + i));
      assert data[alignedDiff..] == Payload(b, st);
      WriteData(b, data[alignedDiff..], st);
    }

    method WriteData(b: Block, data: seq<byte>, ghost st: Store)
      requires Valid() && b.len + cfg.bs <= U32 && !b.src.Fill? && data == Payload(b, st)
      requires file == null ==> b.len <= INT_MAX
      modifies this, file
      ensures State() == PutBlock(cfg, old(State()), b, st)
    {
      if cfg.sparse {
        WriteSparseData(b, data, st);
      } else {
        WriteNormalData(b, data, st);
      }
    }

    /** sparse_file_write_block. */
    method WriteBlock(b: Block, st: Store)
      requires Valid() && 0 < b.len && b.len + cfg.bs <= U32 && (file == null ==> b.len <= INT_MAX)
      modifies this, file, fillBuf
      ensures Valid() && State() == PutBlock(cfg, old(State()), b, st)
    {
      match b.src {
        case Data(mem) => WriteData(b, Payload(b, st), st);
        case File(name, off) => WriteFd(b, FileBytes(st, name), off, st);
        case Fd(fd, off) => WriteFd(b, FdBytes(st, fd), off, st);
        case Fill(val) =>
          if cfg.sparse {
            WriteSparseFill(b, st);
          } else {
            WriteNormalFill(b, st);
          }
      }
    }

    /** output_file_close. */
    method Close()
      requires Valid()
      modifies this, file
      ensures State() == PutEnd(cfg, old(State()))
    {
      if cfg.sparse {
        if cfg.useCrc {
          ghost var s := Target();
          var header := ChunkHeader(CHUNK_TYPE_CRC32, 0, CHUNK_HEADER_LEN + 4);
          PutTwice(s, header, CrcField(crc32));
          Write(header);
          Write(CrcField(crc32));
          chunkCnt := chunkCnt + 1;
        }
      } else if file != null {
        file.bytes := Truncate(file.bytes, cfg.len);
      }
    }
  }

  /** A buffer of words as the bytes it occupies. */
  function WordBytes(words: seq<u32>): (r: seq<byte>)
    ensures |r| == 4 * |words|
  {
    seq(4 * |words|, (i: nat) requires i < 4 * |words| => Le32(words[i / 4])[i % 4])
  }

  lemma PatternJoin(val: u32, done: nat, more: nat)
    requires done % 4 == 0
    ensures Pattern(val, done) + Pattern(val, more) == Pattern(val, done + more)
  {
    hide Le32;
  }

  lemma HashedNothing(c: bv32, val: u32)
    ensures Crc(c, Pattern(val, 0)) == c
  {
    hide Le32;
    assert Pattern(val, 0) == [];
    ComplementTwice(c);
  }

  lemma HashedWord(c: bv32, val: u32, done: nat)
    requires done % 4 == 0
    ensures Crc(Crc(c, Pattern(val, done)), Le32(val)) == Crc(c, Pattern(val, done + 4))
  {
    hide Crc;
    CrcConcat(c, Pattern(val, done), Le32(val));
    assert Pattern(val, done) + Le32(val) == Pattern(val, done + 4) by {
      hide Crc;
      var x, y := Pattern(val, done) + Le32(val), Pattern(val, done + 4);
      forall i | 0 <= i < |x|
        ensures x[i] == y[i]
      {
      }
    }
  }

  lemma PatternPrefix(val: u32, more: nat, bs: nat)
    requires more <= bs
    ensures Pattern(val, bs)[..more] == Pattern(val, more)
  {
    hide Le32;
  }

  lemma PatternEnds(s: Sink, b: Block, st: Store)
    requires b.src.Fill?
    ensures Put(s, Pattern(b.src.val, 0)) == s && Pattern(b.src.val, b.len) == Payload(b, st)
  {
    hide Le32;
    assert Pattern(b.src.val, 0) == [];
  }

  /** One turn of the loop that writes a fill to a raw file. */
  lemma PatternSum(s: Sink, val: u32, done: nat, more: nat, bs: nat)
    requires 0 < bs && bs % 4 == 0 && done % bs == 0 && more <= bs
    ensures more <= |Pattern(val, bs)|
    ensures Put(Put(s, Pattern(val, done)), Pattern(val, bs)[..more]) == Put(s, Pattern(val, done + more))
    ensures (done + bs) % bs == 0
  {
    assert |Pattern(val, bs)| == bs;
    hide *;
    MultipleOfFour(done, bs);
    DivModUnique(done + bs, bs, done / bs + 1, 0);
    PatternPrefix(val, more, bs);
    PatternJoin(val, done, more);
    PutTwice(s, Pattern(val, done), Pattern(val, more));
  }

  lemma SignedDifference(a: u32, b: u32)
    requires 0 <= a - b <= INT_MAX
    ensures ToInt32(ToU32(ToInt32(a) - b)) == a - b
  {
  }

  lemma PadLength(len: u32, bs: nat)
    requires 0 < bs <= INT_MAX && len + bs <= U32
    ensures len <= Align(len, bs) < U32 && Align(len, bs) - len < bs
    ensures ToInt32(ToU32(ToInt32(Align(len, bs)) - len)) == Align(len, bs) - len
    ensures ToU32(ToInt32(Align(len, bs))) == Align(len, bs)
    ensures Align(len, bs) / bs == DivRoundUp(len, bs)
  {
    AlignBounds(len, bs);
    SignedDifference(Align(len, bs), len);
    IntRoundTrip(Align(len, bs));
  }

  lemma RawChunkBytes(b: Block, bs: nat, st: Store, header: seq<byte>, zeros: seq<byte>)
    requires 0 < bs && !b.src.Fill? && b.len <= Align(b.len, bs) && zeros == Zeros(Align(b.len, bs) - b.len)
    requires header == ChunkHeader(CHUNK_TYPE_RAW, DivRoundUp(b.len, bs), ToU32(CHUNK_HEADER_LEN + Align(b.len, bs)))
    ensures Payload(b, st) + zeros == Padded(b, bs, st) == Hashed(b, bs, st)
    ensures header + (Payload(b, st) + zeros) == ChunkBytes(b, bs, st)
  {
  }

  lemma ThreeWrites(s: Sink, a: seq<byte>, b: seq<byte>, c: seq<byte>)
    ensures Put(Put(s, a), b) == Put(s, a + b)
    ensures Put(Put(Put(s, a), b), c) == Put(s, a + (b + c))
    ensures c == [] ==> Put(s, a + b) == Put(s, a + (b + c))
  {
    PutTwice(s, a, b);
    PutTwice(s, a + b, c);
    assert a + b + c == a + (b + c);
    assert c == [] ==> b + c == b;
  }
}
