/** The reader's running CRC is the CRC-32 of the image expanded so far. */
module ReaderCrc {
  import opened Defs
  import opened Image
  import opened Crc32
  import opened BackedBlock
  import opened OutputFile
  import opened SparseRead

  lemma BehindHole(l: seq<Block>, bs: nat, st: Store, cur: nat, p: nat)
    requires 0 < bs && Behind(l, bs, cur) && cur * bs <= p
    ensures Lookup(l, bs, st, p).None?
  {
    LookupHole(l, bs, st, p);
    forall i | 0 <= i < |l|
      ensures !Covers(l[i], bs, p)
    {
      hide DivRoundUp, Align;
      AlignBounds(l[i].len, bs);
      Distribute(l[i].block, DivRoundUp(l[i].len, bs), bs);
      MulMono(End(l[i], bs), cur, bs);
    }
  }

  lemma BehindBounded(l: seq<Block>, bs: nat, cur: nat)
    requires 0 < bs && Behind(l, bs, cur) && cur * bs < U32
    ensures Bounded(l, bs)
  {
    forall i | 0 <= i < |l|
      ensures Start(l[i], bs) + l[i].len < U32
    {
      hide DivRoundUp, Align;
      AlignBounds(l[i].len, bs);
      Distribute(l[i].block, DivRoundUp(l[i].len, bs), bs);
      MulMono(End(l[i], bs), cur, bs);
    }
  }

  /** A hole of sz blocks adds zeros to the expansion. */
  lemma ExpandHole(l: seq<Block>, bs: nat, st: Store, cur: nat, sz: nat)
    requires 0 < bs && Behind(l, bs, cur)
    ensures 0 <= cur * bs && 0 <= sz * bs
    ensures Expand(l, bs, st, cur * bs) + Zeros(sz * bs) == Expand(l, bs, st, cur * bs + sz * bs)
  {
    MulMono(0, cur, bs);
    MulMono(0, sz, bs);
    forall p: nat | cur * bs <= p
      ensures Lookup(l, bs, st, p).None?
    {
      BehindHole(l, bs, st, cur, p);
    }
  }

  /** An extent of sz blocks queued at the end adds its bytes to the expansion. */
  lemma ExpandQueued(l: seq<Block>, b: Block, bs: nat, st: Store, sz: nat)
    requires 0 < bs && bs % 4 == 0 && Behind(l, bs, b.block) && b.len == sz * bs
    requires (forall i :: 0 <= i < |l| ==> l[i].block < b.block) && (b.block + sz) * bs < U32
    ensures 0 <= b.block * bs
    ensures Expand(l, bs, st, b.block * bs) + Payload(b, st) == Expand(Queue(l, b, bs), bs, st, b.block * bs + sz * bs)
  {
    var cur := b.block;
    Distribute(cur, sz, bs);
    MulMono(0, cur, bs);
    BehindBounded(l, bs, cur);
    forall p: nat
      ensures Lookup(Queue(l, b, bs), bs, st, p) ==
        if cur * bs <= p < cur * bs + sz * bs then Some(SrcByte(b.src, st, p - cur * bs)) else Lookup(l, bs, st, p)
    {
      assert Free(l, b, bs);
      QueueOverlays(l, b, bs, st, p);
      LookupOne(b, bs, st, p);
    }
    hide Lookup, Queue, SrcByte, Behind;
  }

  /** The CRC so far is that of the image so far, holes counted as zero. */
  predicate CrcIsOfImage(inp: Input, r: Reader, st: Store)
    requires 0 < inp.bs
  {
    MulMono(0, r.cur, inp.bs);
    r.crc == Crc(0, Expand(r.l, inp.bs, st, r.cur * inp.bs))
  }

  lemma AddedCrc(inp: Input, r: Reader, r': Reader, sz: u32, src: Source, st: Store, data: seq<byte>)
    requires 0 < inp.bs && inp.bs % 4 == 0 && ReaderOk(inp.bs, r) && CanAdd(r) && CrcIsOfImage(inp, r, st)
    requires (r.cur + sz) * inp.bs < U32 && 0 <= sz * inp.bs && r'.cur == r.cur + sz
    requires data == Payload(Block(r.cur, ToU32(sz * inp.bs), src), st)
    requires r'.l == Added(inp, r, ToU32(sz * inp.bs), src) && r'.crc == Crc(r.crc, data)
    ensures CrcIsOfImage(inp, r', st)
  {
    var b := Block(r.cur, ToU32(sz * inp.bs), src);
    Distribute(r.cur, sz, inp.bs);
    MulMono(0, r.cur, inp.bs);
    SmallMod(sz * inp.bs);
    ReaderFree(inp.bs, r, b);
    ExpandQueued(r.l, b, inp.bs, st, sz);
    CrcConcat(0, Expand(r.l, inp.bs, st, r.cur * inp.bs), data);
    hide Crc, Expand, Payload, Queue, Behind;
  }

  lemma SkippedCrc(inp: Input, r: Reader, r': Reader, sz: u32, st: Store)
    requires 0 < inp.bs && ReaderOk(inp.bs, r) && CrcIsOfImage(inp, r, st)
    requires 0 <= sz * inp.bs && r'.cur == r.cur + sz && r'.l == r.l && r'.crc == Crc(r.crc, Zeros(sz * inp.bs))
    ensures CrcIsOfImage(inp, r', st)
  {
    Distribute(r.cur, sz, inp.bs);
    ExpandHole(r.l, inp.bs, st, r.cur, sz);
    CrcConcat(0, Expand(r.l, inp.bs, st, r.cur * inp.bs), Zeros(sz * inp.bs));
    hide Crc, Expand, Zeros, Behind;
  }

  /** The bytes hashed for a raw chunk are those of the block it adds. */
  lemma RawData(inp: Input, cur: u32, off: nat, len: u32, st: Store) returns (data: seq<byte>)
    requires FdBytes(st, inp.fd) == inp.f && (len != 0 ==> off + len <= |inp.f|)
    ensures data == Payload(Block(cur, len, Fd(inp.fd, off)), st)
    ensures forall c :: Crc(c, data) == if len != 0 then Crc(c, inp.f[off..off + len]) else c
  {
    data := if len == 0 then [] else inp.f[off..off + len];
    forall c
      ensures Crc(c, []) == c
    {
      ComplementTwice(c);
    }
    hide Crc;
    assert data == Payload(Block(cur, len, Fd(inp.fd, off)), st);
  }

  lemma SizesFit(cur: u32, sz: u32, bs: nat)
    requires 0 < bs && (cur + sz) * bs < U32
    ensures 0 <= sz * bs < U32 && ToU32(sz * bs) == sz * bs
    ensures ToU32(cur + sz) == cur + sz < U32
  {
    MulMono(0, sz, bs);
    MulMono(sz, cur + sz, bs);
    MulMono(1, bs, cur + sz);
    SmallMod(sz * bs);
    SmallMod(cur + sz);
  }

  /** The reader after an accepted raw chunk. */
  lemma RawAccepted(inp: Input, r: Reader, c: Chunk)
    requires RawChunk(inp, r, c).Ok?
    ensures var off, len, r' := r.pos + inp.hdrSz, ToU32(c.chunkSz * inp.bs), RawChunk(inp, r, c).value;
      && CanAdd(r) && r'.cur == ToU32(r.cur + c.chunkSz) && r'.l == Added(inp, r, len, Fd(inp.fd, off))
      && (inp.useCrc && len != 0 ==> off + len <= |inp.f| && r'.crc == Crc(r.crc, inp.f[off..off + len]))
      && (len == 0 ==> r'.crc == r.crc)
  {
    hide Crc, Added, ToU32, Unused, Compared;
  }

  lemma RawKeepsCrc(inp: Input, r: Reader, c: Chunk, st: Store)
    requires 0 < inp.bs && inp.bs % 4 == 0 && inp.useCrc && FdBytes(st, inp.fd) == inp.f
    requires ReaderOk(inp.bs, r) && CrcIsOfImage(inp, r, st)
    requires RawChunk(inp, r, c).Ok? && (r.cur + c.chunkSz) * inp.bs < U32
    ensures CrcIsOfImage(inp, RawChunk(inp, r, c).value, st)
  {
    hide *;
    var off := r.pos + inp.hdrSz;
    SizesFit(r.cur, c.chunkSz, inp.bs);
    RawAccepted(inp, r, c);
    var data := RawData(inp, r.cur, off, ToU32(c.chunkSz * inp.bs), st);
    AddedCrc(inp, r, RawChunk(inp, r, c).value, c.chunkSz, Fd(inp.fd, off), st, data);
  }

  /** The reader after an accepted fill chunk. */
  lemma FillAccepted(inp: Input, r: Reader, c: Chunk)
    requires FillChunk(inp, r, c).Ok? && 0 <= c.chunkSz * inp.bs
    ensures var len, val, r' := c.chunkSz * inp.bs, Get32(inp.f, r.pos + inp.hdrSz), FillChunk(inp, r, c).value;
      && CanAdd(r) && r'.cur == ToU32(r.cur + c.chunkSz) && r'.l == Added(inp, r, ToU32(len), Fill(val))
      && (inp.useCrc ==> r'.crc == Crc(r.crc, Pattern(val, len)))
  {
    hide Crc, Added, ToU32, Unused, Compared, Pattern, Get32;
  }

  lemma FillData(cur: u32, len: u32, val: u32, st: Store)
    ensures Pattern(val, len) == Payload(Block(cur, len, Fill(val)), st)
  {
    hide Le32;
  }

  lemma FillKeepsCrc(inp: Input, r: Reader, c: Chunk, st: Store)
    requires 0 < inp.bs && inp.bs % 4 == 0 && inp.useCrc
    requires ReaderOk(inp.bs, r) && CrcIsOfImage(inp, r, st)
    requires FillChunk(inp, r, c).Ok? && (r.cur + c.chunkSz) * inp.bs < U32
    ensures CrcIsOfImage(inp, FillChunk(inp, r, c).value, st)
  {
    hide *;
    var sz, val := c.chunkSz, Get32(inp.f, r.pos + inp.hdrSz);
    SizesFit(r.cur, sz, inp.bs);
    FillAccepted(inp, r, c);
    FillData(r.cur, ToU32(sz * inp.bs), val, st);
    AddedCrc(inp, r, FillChunk(inp, r, c).value, sz, Fill(val), st, Pattern(val, sz * inp.bs));
  }

  lemma SkipKeepsCrc(inp: Input, r: Reader, c: Chunk, st: Store)
    requires 0 < inp.bs && inp.useCrc && ReaderOk(inp.bs, r) && CrcIsOfImage(inp, r, st)
    requires SkipChunk(inp, r, c).Ok? && (r.cur + c.chunkSz) * inp.bs < U32
    ensures CrcIsOfImage(inp, SkipChunk(inp, r, c).value, st)
  {
    SizesFit(r.cur, c.chunkSz, inp.bs);
    hide ReaderOk, CrcIsOfImage, Crc, Zeros, ToU32;
    SkippedCrc(inp, r, SkipChunk(inp, r, c).value, c.chunkSz, st);
  }

  /** What an accepted chunk is. */
  lemma StepCases(inp: Input, r: Reader)
    requires Step(inp, r).Ok?
    ensures var c, r' := ChunkAt(inp.f, r.pos), Step(inp, r).value;
      if c.chunkType == CHUNK_TYPE_RAW then RawChunk(inp, r, c) == Ok(r')
      else if c.chunkType == CHUNK_TYPE_FILL then FillChunk(inp, r, c) == Ok(r')
      else if c.chunkType == CHUNK_TYPE_DONT_CARE then SkipChunk(inp, r, c) == Ok(r')
      else r'.cur == r.cur && r'.l == r.l && r'.crc == r.crc
    ensures ChunkBlocks(inp.f, r.pos) ==
      if ChunkAt(inp.f, r.pos).chunkType in {CHUNK_TYPE_RAW, CHUNK_TYPE_FILL, CHUNK_TYPE_DONT_CARE}
      then ChunkAt(inp.f, r.pos).chunkSz else 0
  {
    hide ChunkAt, RawChunk, FillChunk, SkipChunk, CrcField;
  }

  /** With crc set, every chunk that is accepted keeps the running CRC equal to that of the expanded image. */
  lemma StepKeepsCrc(inp: Input, r: Reader, st: Store)
    requires 0 < inp.bs && inp.bs % 4 == 0 && inp.useCrc && FdBytes(st, inp.fd) == inp.f
    requires ReaderOk(inp.bs, r) && CrcIsOfImage(inp, r, st)
    requires Step(inp, r).Ok? && (r.cur + ChunkBlocks(inp.f, r.pos)) * inp.bs < U32
    ensures CrcIsOfImage(inp, Step(inp, r).value, st)
  {
    StepCases(inp, r);
    hide Step, ChunkAt, ChunkBlocks, RawChunk, FillChunk, SkipChunk, ReaderOk, Crc, Expand;
    var c := ChunkAt(inp.f, r.pos);
    if c.chunkType == CHUNK_TYPE_RAW {
      RawKeepsCrc(inp, r, c, st);
    } else if c.chunkType == CHUNK_TYPE_FILL {
      FillKeepsCrc(inp, r, c, st);
    } else if c.chunkType == CHUNK_TYPE_DONT_CARE {
      SkipKeepsCrc(inp, r, c, st);
    }
  }

  /** After any number of chunks of an image below 2^32 bytes. */
  lemma {:induction false} StepsKeepCrc(inp: Input, r: Reader, n: nat, st: Store)
    requires 0 < inp.bs && inp.bs % 4 == 0 && inp.useCrc && FdBytes(st, inp.fd) == inp.f
    requires ReaderOk(inp.bs, r) && CrcIsOfImage(inp, r, st)
    requires Steps(inp, r, n).Ok? && (r.cur + BlocksAhead(inp, r, n)) * inp.bs < U32
    ensures CrcIsOfImage(inp, Steps(inp, r, n).value, st)
    decreases n
  {
    hide Step, ReaderOk, CrcIsOfImage, ChunkBlocks;
    if n != 0 {
      var r', k := Step(inp, r).value, r.cur + ChunkBlocks(inp.f, r.pos);
      MulMono(k, r.cur + BlocksAhead(inp, r, n), inp.bs);
      MulMono(1, inp.bs, k);
      StepCounts(inp, r);
      StepKeepsReader(inp, r);
      StepKeepsCrc(inp, r, st);
      StepsKeepCrc(inp, r', n - 1, st);
    }
  }
}
