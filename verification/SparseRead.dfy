/** Reading a sparse file back into a list of blocks, and sparsing a raw file. */
module SparseRead {
  import opened Defs
  import opened Image
  import opened Crc32
  import opened BackedBlock
  import opened OutputFile

  /** Invalid: the reader returns a negative error. Abort: an assertion or a division by zero stops the program. */
  datatype ReadResult<+T> = Ok(value: T) | Invalid | Abort

  // ---- the fields of the two headers ----

  function Magic(f: seq<byte>): u32 { Get32(f, 0) }
  function MajorVersion(f: seq<byte>): nat { Get16(f, 4) }
  function FileHdrSz(f: seq<byte>): nat { Get16(f, 8) }
  function ChunkHdrSz(f: seq<byte>): nat { Get16(f, 10) }
  function BlkSz(f: seq<byte>): u32 { Get32(f, 12) }
  function TotalBlks(f: seq<byte>): u32 { Get32(f, 16) }
  function TotalChunks(f: seq<byte>): u32 { Get32(f, 20) }

  predicate HeaderOk(f: seq<byte>) {
    && |f| >= SPARSE_HEADER_LEN
    && Magic(f) == SPARSE_HEADER_MAGIC
    && MajorVersion(f) == 1
    && FileHdrSz(f) >= SPARSE_HEADER_LEN
    && ChunkHdrSz(f) >= CHUNK_HEADER_LEN
  }

  datatype Chunk = Chunk(chunkType: nat, chunkSz: u32, totalSz: u32)

  function ChunkAt(f: seq<byte>, pos: nat): Chunk {
    Chunk(Get16(f, pos), Get32(f, pos + 4), Get32(f, pos + 8))
  }

  // ---- what reading computes ----

  /** The file being read: its descriptor, contents, block size and chunk header size, and whether CRCs are checked. */
  datatype Input = Input(fd: nat, f: seq<byte>, bs: nat, hdrSz: nat, useCrc: bool)

  /** Offset in the file, next block, running CRC and the blocks so far. */
  datatype Reader = Reader(pos: nat, cur: u32, crc: bv32, l: seq<Block>)

  function Added(inp: Input, r: Reader, len: u32, src: Source): seq<Block> {
    Queue(r.l, Block(r.cur, len, src), inp.bs)
  }

  /** cur_block += ret, where ret is the chunk size as an `int` and the counter wraps. */
  function Advance(r: Reader, sz: u32): ReadResult<Reader> {
    if sz > INT_MAX then Invalid else Ok(r.(cur := ToU32(r.cur + sz)))
  }

  function RawChunk(inp: Input, r: Reader, c: Chunk): ReadResult<Reader> {
    var off := r.pos + inp.hdrSz;
    var dataSz := ToU32(c.totalSz - inp.hdrSz);
    var len := ToU32(c.chunkSz * inp.bs);
    if inp.bs == 0 then Abort
    else if dataSz % inp.bs != 0 || dataSz / inp.bs != c.chunkSz then Invalid
    else if !Addable(r.l, Block(r.cur, len, Fd(inp.fd, off)), inp.bs) then Abort
    else if inp.useCrc && len != 0 && off + len > |inp.f| then Invalid
    else Advance(r.(pos := off + len, l := Added(inp, r, len, Fd(inp.fd, off)),
                    crc := if inp.useCrc && len != 0 then Crc(r.crc, inp.f[off..off + len]) else r.crc), c.chunkSz)
  }

  function FillChunk(inp: Input, r: Reader, c: Chunk): ReadResult<Reader> {
    var off := r.pos + inp.hdrSz;
    var len, val := ToU32(c.chunkSz * inp.bs), Get32(inp.f, off);
    if ToU32(c.totalSz - inp.hdrSz) != 4 || off + 4 > |inp.f| then Invalid
    else if !Addable(r.l, Block(r.cur, len, Fill(val)), inp.bs) then Abort
    else Advance(r.(pos := off + 4, l := Added(inp, r, len, Fill(val)),
                    crc := if inp.useCrc then Crc(r.crc, Pattern(val, c.chunkSz * inp.bs)) else r.crc), c.chunkSz)
  }

  function SkipChunk(inp: Input, r: Reader, c: Chunk): ReadResult<Reader> {
    if ToU32(c.totalSz - inp.hdrSz) != 0 then Invalid
    else Advance(r.(pos := r.pos + inp.hdrSz,
                    crc := if inp.useCrc then Crc(r.crc, Zeros(c.chunkSz * inp.bs)) else r.crc), c.chunkSz)
  }

  function CrcChunk(inp: Input, r: Reader, c: Chunk): ReadResult<Reader> {
    var off := r.pos + inp.hdrSz;
    if ToU32(c.totalSz - inp.hdrSz) != 4 || off + 4 > |inp.f| then Invalid
    else if inp.useCrc && inp.f[off..off + 4] != CrcField(r.crc) then Invalid
    else Ok(r.(pos := off + 4))
  }

  /** process_chunk, after the chunk header has been read; an unknown chunk is passed over as if it were empty. */
  function Step(inp: Input, r: Reader): ReadResult<Reader> {
    var c := ChunkAt(inp.f, r.pos);
    if r.pos + CHUNK_HEADER_LEN > |inp.f| then Invalid
    else if c.chunkType == CHUNK_TYPE_RAW then RawChunk(inp, r, c)
    else if c.chunkType == CHUNK_TYPE_FILL then FillChunk(inp, r, c)
    else if c.chunkType == CHUNK_TYPE_DONT_CARE then SkipChunk(inp, r, c)
    else if c.chunkType == CHUNK_TYPE_CRC32 then CrcChunk(inp, r, c)
    else Ok(r.(pos := r.pos + inp.hdrSz))
  }

  function Steps(inp: Input, r: Reader, n: nat): ReadResult<Reader>
    decreases n
  {
    if n == 0 then Ok(r)
    else match Step(inp, r)
      case Ok(r') => Steps(inp, r', n - 1)
      case e => e
  }

  /** An imported image. */
  datatype Imported = Imported(bs: u32, len: nat, blocks: seq<Block>)

  function InputOf(f: seq<byte>, fd: nat, crc: bool): Input {
    Input(fd, f, BlkSz(f), ChunkHdrSz(f), crc)
  }

  function StartOf(f: seq<byte>): Reader {
    Reader(FileHdrSz(f), 0, 0, [])
  }

  function Finish(f: seq<byte>, r: ReadResult<Reader>): ReadResult<Imported> {
    match r
    case Ok(r) =>
      MulMono(0, TotalBlks(f), BlkSz(f));
      if TotalBlks(f) == r.cur then Ok(Imported(BlkSz(f), TotalBlks(f) * BlkSz(f), r.l)) else Invalid
    case Invalid => Invalid
    case Abort => Abort
  }

  /** sparse_file_import. */
  function Import(f: seq<byte>, fd: nat, crc: bool): ReadResult<Imported> {
    if !HeaderOk(f) then Invalid
    else Finish(f, Steps(InputOf(f, fd, crc), StartOf(f), TotalChunks(f)))
  }

  // ---- the reader keeps the list sorted and behind its block counter ----

  predicate Behind(l: seq<Block>, bs: nat, cur: nat)
    requires 0 < bs
  {
    Sorted(l, bs) && InSpace(l, bs) && forall i :: 0 <= i < |l| ==> End(l[i], bs) <= cur
  }

  predicate ReaderOk(bs: nat, r: Reader)
    requires 0 < bs
  {
    Behind(r.l, bs, r.cur)
  }

  /** The number of the next block is not in use: only an empty block, or a counter that has wrapped, can have it. */
  predicate CanAdd(r: Reader) {
    Unused(r.l, r.cur)
  }

  lemma ReaderFree(bs: nat, r: Reader, b: Block)
    requires 0 < bs && ReaderOk(bs, r) && CanAdd(r) && b.block == r.cur
    ensures Free(r.l, b, bs) && Addable(r.l, b, bs)
    ensures forall i :: 0 <= i < |r.l| ==> r.l[i].block < b.block
  {
    forall i | 0 <= i < |r.l|
      ensures r.l[i].block < r.cur
    {
      AlignBounds(r.l[i].len, bs);
    }
  }

  lemma WrappedLenFits(sz: u32, bs: nat)
    requires 0 < bs
    ensures DivRoundUp(ToU32(sz * bs), bs) <= sz
  {
    WholeLen(sz, bs);
    RoundUpMono(ToU32(sz * bs), sz * bs, bs);
  }

  lemma WholeLen(sz: nat, bs: nat)
    requires 0 < bs
    ensures 0 <= sz * bs && DivRoundUp(sz * bs, bs) == sz && Align(sz * bs, bs) == sz * bs
    ensures (sz * bs) % bs == 0 && (sz * bs) / bs == sz
  {
    MulMono(0, sz, bs);
    DivModUnique(sz * bs, bs, sz, 0);
    AlignBounds(sz * bs, bs);
  }

  /** The blocks in a queued list end no later than those queued. */
  lemma QueueEnds(l: seq<Block>, b: Block, bs: nat, m: nat)
    requires 0 < bs && Sorted(l, bs) && InSpace(l, bs) && Free(l, b, bs)
    requires forall i :: 0 <= i < |l| ==> l[i].block < b.block && End(l[i], bs) <= m
    requires End(b, bs) <= m
    ensures forall i :: 0 <= i < |Queue(l, b, bs)| ==> End(Queue(l, b, bs)[i], bs) <= m
  {
    QueueInOrder(l, b, bs);
    if l != [] && Queue(l, b, bs) != l + [b] {
      var n := |l| - 1;
      var m1 := l + [b];
      InsertKeepsOrder(l, b, bs);
      MergedEnd(m1[n], m1[n + 1], bs);
      MergeAtElements(m1, n, bs);
    }
  }

  lemma AddKeepsReader(inp: Input, r: Reader, sz: u32, src: Source)
    requires 0 < inp.bs && ReaderOk(inp.bs, r) && CanAdd(r) && r.cur + sz < U32
    ensures Behind(Added(inp, r, ToU32(sz * inp.bs), src), inp.bs, r.cur + sz)
  {
    var b := Block(r.cur, ToU32(sz * inp.bs), src);
    ReaderFree(inp.bs, r, b);
    WrappedLenFits(sz, inp.bs);
    QueueKeepsOrder(r.l, b, inp.bs);
    QueueEnds(r.l, b, inp.bs, r.cur + sz);
  }

  lemma BehindLater(l: seq<Block>, bs: nat, cur: nat, later: nat)
    requires 0 < bs && cur <= later && Behind(l, bs, cur)
    ensures Behind(l, bs, later)
  {
  }

  /** The blocks that a chunk counts for. */
  function ChunkBlocks(f: seq<byte>, pos: nat): u32 {
    var c := ChunkAt(f, pos);
    if c.chunkType == CHUNK_TYPE_RAW || c.chunkType == CHUNK_TYPE_FILL || c.chunkType == CHUNK_TYPE_DONT_CARE
    then c.chunkSz else 0
  }

  /** The blocks of the next n chunks, added up without a bound. */
  function BlocksAhead(inp: Input, r: Reader, n: nat): nat
    decreases n
  {
    if n == 0 then 0
    else match Step(inp, r)
      case Ok(r') => ChunkBlocks(inp.f, r.pos) + BlocksAhead(inp, r', n - 1)
      case _ => 0
  }

  lemma StepCounts(inp: Input, r: Reader)
    requires Step(inp, r).Ok?
    ensures ChunkBlocks(inp.f, r.pos) <= INT_MAX && Step(inp, r).value.cur == ToU32(r.cur + ChunkBlocks(inp.f, r.pos))
    ensures r.cur <= Step(inp, r).value.cur ==> Step(inp, r).value.cur == r.cur + ChunkBlocks(inp.f, r.pos)
    ensures r.cur + ChunkBlocks(inp.f, r.pos) < U32 ==> r.cur <= Step(inp, r).value.cur
  {
    hide ChunkAt, Queue, Addable, Crc, Pattern, Zeros, Get32, Le32, CrcField;
  }

  /** What an accepted chunk does to the list. */
  lemma StepList(inp: Input, r: Reader)
    requires Step(inp, r).Ok?
    ensures var c, l := ChunkAt(inp.f, r.pos), Step(inp, r).value.l;
      if c.chunkType == CHUNK_TYPE_RAW || c.chunkType == CHUNK_TYPE_FILL then
        var src := if c.chunkType == CHUNK_TYPE_RAW then Fd(inp.fd, r.pos + inp.hdrSz)
          else Fill(Get32(inp.f, r.pos + inp.hdrSz));
        && Unused(r.l, r.cur) && ChunkBlocks(inp.f, r.pos) == c.chunkSz
        && l == Added(inp, r, ToU32(c.chunkSz * inp.bs), src)
      else l == r.l
  {
    hide ChunkAt, Added, Unused, Compared, Crc, Pattern, Zeros, Get32, ToU32, CrcField;
  }

  /** Whatever bytes a chunk has, an accepted one keeps the block numbers of the list in order. */
  lemma StepKeepsAscending(inp: Input, r: Reader)
    requires Ascending(r.l) && Step(inp, r).Ok?
    ensures Ascending(Step(inp, r).value.l)
  {
    hide *;
    StepList(inp, r);
    AddedAscending(inp, r);
  }

  lemma AddedAscending(inp: Input, r: Reader)
    requires Ascending(r.l)
    ensures Unused(r.l, r.cur) ==> forall len: u32, src :: Ascending(Added(inp, r, len, src))
  {
    if Unused(r.l, r.cur) {
      forall len: u32, src
        ensures Ascending(Added(inp, r, len, src))
      {
        QueueAscending(r.l, Block(r.cur, len, src), inp.bs);
      }
    }
    hide Ascending, Unused;
  }

  /** One that does not wrap the block counter also keeps its extents disjoint and behind the counter. */
  lemma StepKeepsReader(inp: Input, r: Reader)
    requires 0 < inp.bs && ReaderOk(inp.bs, r) && Step(inp, r).Ok? && r.cur <= Step(inp, r).value.cur
    ensures ReaderOk(inp.bs, Step(inp, r).value)
  {
    StepCounts(inp, r);
    StepList(inp, r);
    hide Step, ChunkAt, ChunkBlocks, Behind, Added, Get32, ToU32, Unused;
    var c := ChunkAt(inp.f, r.pos);
    if c.chunkType == CHUNK_TYPE_RAW {
      AddKeepsReader(inp, r, c.chunkSz, Fd(inp.fd, r.pos + inp.hdrSz));
    } else if c.chunkType == CHUNK_TYPE_FILL {
      AddKeepsReader(inp, r, c.chunkSz, Fill(Get32(inp.f, r.pos + inp.hdrSz)));
    } else {
      BehindLater(r.l, inp.bs, r.cur, Step(inp, r).value.cur);
    }
  }

  lemma {:induction false} StepsKeepAscending(inp: Input, r: Reader, n: nat)
    requires Ascending(r.l) && Steps(inp, r, n).Ok?
    ensures Ascending(Steps(inp, r, n).value.l)
    ensures Steps(inp, r, n).value.cur == ToU32(r.cur + BlocksAhead(inp, r, n))
    decreases n
  {
    hide Ascending, Step, ChunkBlocks, ToU32;
    if n == 0 {
      SmallMod(r.cur);
    } else {
      StepKeepsAscending(inp, r);
      StepCounts(inp, r);
      StepsKeepAscending(inp, Step(inp, r).value, n - 1);
      SumTwice(r.cur, ChunkBlocks(inp.f, r.pos), BlocksAhead(inp, Step(inp, r).value, n - 1));
    }
  }

  lemma SumTwice(a: nat, b: nat, c: nat)
    ensures ToU32(ToU32(a + b) + c) == ToU32(a + b + c)
  {
  }

  lemma {:induction false} StepsKeepReader(inp: Input, r: Reader, n: nat)
    requires 0 < inp.bs && ReaderOk(inp.bs, r) && Steps(inp, r, n).Ok? && r.cur + BlocksAhead(inp, r, n) < U32
    ensures ReaderOk(inp.bs, Steps(inp, r, n).value)
    ensures Steps(inp, r, n).value.cur == r.cur + BlocksAhead(inp, r, n)
    decreases n
  {
    hide ReaderOk, Step, ChunkBlocks;
    if n != 0 {
      StepCounts(inp, r);
      StepKeepsReader(inp, r);
      StepsKeepReader(inp, Step(inp, r).value, n - 1);
    }
  }

  /** The blocks of all chunks of a file, added up without a bound. */
  function BlocksIn(f: seq<byte>, fd: nat, crc: bool): nat {
    BlocksAhead(InputOf(f, fd, crc), StartOf(f), TotalChunks(f))
  }

  /**
   * Whatever bytes are read, an accepted file has as many blocks as its header announces, modulo 2^32, and its list
   * has increasing block numbers. When the blocks do not wrap the counter, the list is sorted, disjoint and inside
   * the image that the header announces.
   */
  lemma ImportIsSound(f: seq<byte>, fd: nat, crc: bool)
    requires Import(f, fd, crc).Ok?
    ensures var s := Import(f, fd, crc).value;
      && s.bs == BlkSz(f) && s.len == TotalBlks(f) * s.bs
      && Ascending(s.blocks) && ToU32(BlocksIn(f, fd, crc)) == TotalBlks(f)
    ensures 0 < BlkSz(f) && BlocksIn(f, fd, crc) == TotalBlks(f) ==>
      var s := Import(f, fd, crc).value;
      && Sorted(s.blocks, s.bs)
      && forall i :: 0 <= i < |s.blocks| ==> End(s.blocks[i], s.bs) <= TotalBlks(f)
  {
    hide Steps, BlocksAhead, HeaderOk, Get32, Get16, ToU32, DivRoundUp;
    StepsKeepAscending(InputOf(f, fd, crc), StartOf(f), TotalChunks(f));
    if 0 < BlkSz(f) && BlocksIn(f, fd, crc) == TotalBlks(f) {
      StepsKeepReader(InputOf(f, fd, crc), StartOf(f), TotalChunks(f));
    }
  }
}
