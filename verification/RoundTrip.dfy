/** Writing a sparse file and importing it again. */
module RoundTrip {
  import opened Defs
  import opened Image
  import opened Crc32
  import opened BackedBlock
  import opened OutputFile
  import opened SparseFile
  import opened Encode
  import opened SparseRead
  import opened ReaderCrc

  /** The file f has the bytes d at offset pos. */
  predicate Holds(f: seq<byte>, pos: nat, d: seq<byte>) {
    pos + |d| <= |f| && f[pos..pos + |d|] == d
  }

  lemma HoldsSplit(f: seq<byte>, pos: nat, a: seq<byte>, b: seq<byte>)
    requires Holds(f, pos, a + b)
    ensures Holds(f, pos, a) && Holds(f, pos + |a|, b)
  {
    var d := f[pos..pos + |a + b|];
    assert d[..|a|] == a && d[|a|..] == b;
    assert f[pos..pos + |a|] == d[..|a|];
    assert f[pos + |a|..pos + |a| + |b|] == d[|a|..];
  }

  lemma HoldsLe32(f: seq<byte>, pos: nat, n: nat)
    requires Holds(f, pos, Le32(n))
    ensures Get32(f, pos) == n % U32
  {
    Get32Le32(n, f, pos);
  }

  lemma HoldsLe16(f: seq<byte>, pos: nat, n: nat)
    requires Holds(f, pos, Le16(n))
    ensures Get16(f, pos) == n % 0x1_0000
  {
    Get16Le16(n, f, pos);
  }

  // ---- the fields read back are the fields written ----

  lemma ChunkFields(f: seq<byte>, pos: nat, t: nat, sz: nat, total: nat)
    requires Holds(f, pos, ChunkHeader(t, sz, total)) && t < 0x1_0000 && sz < U32 && total < U32
    ensures ChunkAt(f, pos) == Chunk(t, sz, total)
  {
    hide Le16, Le32, Get16, Get32, Holds;
    HoldsSplit(f, pos, Le16(t) + Le16(0) + Le32(sz), Le32(total));
    HoldsSplit(f, pos, Le16(t) + Le16(0), Le32(sz));
    HoldsSplit(f, pos, Le16(t), Le16(0));
    FieldSizes();
    HoldsLe16(f, pos, t);
    HoldsLe32(f, pos + 4, sz);
    HoldsLe32(f, pos + 8, total);
  }

  lemma FieldSizes()
    ensures forall n: nat :: |Le16(n)| == 2 && |Le32(n)| == 4
  {
  }

  lemma HeaderFields(f: seq<byte>, bs: u32, blks: u32, chunks: u32)
    requires Holds(f, 0, SparseHeader(bs, blks, chunks))
    ensures HeaderOk(f) && FileHdrSz(f) == SPARSE_HEADER_LEN && ChunkHdrSz(f) == CHUNK_HEADER_LEN
    ensures BlkSz(f) == bs && TotalBlks(f) == blks && TotalChunks(f) == chunks
  {
    hide Le16, Le32, Get16, Get32;
    FieldSizes();
    var h1 := Le32(SPARSE_HEADER_MAGIC);
    var h2 := h1 + Le16(1);
    var h3 := h2 + Le16(0);
    var h4 := h3 + Le16(SPARSE_HEADER_LEN);
    var h5 := h4 + Le16(CHUNK_HEADER_LEN);
    var h6 := h5 + Le32(bs);
    var h7 := h6 + Le32(blks);
    var h8 := h7 + Le32(chunks);
    HoldsSplit(f, 0, h8, Le32(0));
    HoldsSplit(f, 0, h7, Le32(chunks));
    HoldsSplit(f, 0, h6, Le32(blks));
    HoldsSplit(f, 0, h5, Le32(bs));
    HoldsSplit(f, 0, h4, Le16(CHUNK_HEADER_LEN));
    HoldsSplit(f, 0, h3, Le16(SPARSE_HEADER_LEN));
    HoldsSplit(f, 0, h2, Le16(0));
    HoldsSplit(f, 0, h1, Le16(1));
    HoldsLe32(f, 0, SPARSE_HEADER_MAGIC);
    HoldsLe16(f, 4, 1);
    HoldsLe16(f, 8, SPARSE_HEADER_LEN);
    HoldsLe16(f, 10, CHUNK_HEADER_LEN);
    HoldsLe32(f, 12, bs);
    HoldsLe32(f, 16, blks);
    HoldsLe32(f, 20, chunks);
  }

  // ---- one chunk read back ----

  /** A file whose descriptor is inp.fd, with the chunk headers this writer uses. */
  predicate Reads(inp: Input, st: Store) {
    0 < inp.bs && inp.bs % 4 == 0 && inp.hdrSz == CHUNK_HEADER_LEN && FdBytes(st, inp.fd) == inp.f
  }

  /** The block that the reader builds from the chunk of b: whole blocks, data now backed by the file read. */
  function Reread(b: Block, bs: nat, fd: nat, off: nat): Block
    requires 0 < bs && b.len + bs <= U32
  {
    PadLength32(b.len, bs);
    Block(b.block, Align(b.len, bs), if b.src.Fill? then b.src else Fd(fd, off))
  }

  lemma PadLength32(len: u32, bs: nat)
    requires 0 < bs && len + bs <= U32
    ensures len <= Align(len, bs) < U32
  {
    AlignBounds(len, bs);
  }

  /** b rounded up to whole blocks, with its padding made explicit. */
  function PadBlock(b: Block, bs: nat, st: Store): Block
    requires 0 < bs && b.len + bs <= U32
  {
    PadLength32(b.len, bs);
    Block(b.block, Align(b.len, bs), if b.src.Fill? then b.src else Data(Padded(b, bs, st)))
  }

  function PadAll(l: seq<Block>, bs: nat, st: Store): (r: seq<Block>)
    requires 0 < bs && AllWritable(l, bs)
    ensures |r| == |l|
    ensures forall i :: 0 <= i < |l| ==> r[i] == PadBlock(l[i], bs, st)
  {
    seq(|l|, i requires 0 <= i < |l| => PadBlock(l[i], bs, st))
  }

  lemma StepGap(inp: Input, r: Reader, n: nat)
    requires 0 < inp.bs && inp.hdrSz == CHUNK_HEADER_LEN
    requires 0 < n <= INT_MAX && r.cur + n < U32 && Holds(inp.f, r.pos, SkipBytes(n))
    ensures Step(inp, r).Ok?
    ensures var r' := Step(inp, r).value; r'.pos == r.pos + CHUNK_HEADER_LEN && r'.cur == r.cur + n && r'.l == r.l
  {
    ChunkFields(inp.f, r.pos, CHUNK_TYPE_DONT_CARE, n, CHUNK_HEADER_LEN);
    hide ChunkAt, Crc, Zeros;
  }

  lemma FillSizes(b: Block, bs: nat)
    requires 0 < bs && Writable(b, bs)
    ensures Align(b.len, bs) == ToU32(DivRoundUp(b.len, bs) * bs)
    ensures DivRoundUp(b.len, bs) < U32
  {
    AlignBounds(b.len, bs);
    SmallMod(Align(b.len, bs));
  }

  lemma AcceptFill(inp: Input, r: Reader, b: Block, c: Chunk, val: u32)
    requires 0 < inp.bs && inp.hdrSz == CHUNK_HEADER_LEN && Writable(b, inp.bs) && b.src == Fill(val)
    requires r.cur == b.block && CanAdd(r) && DivRoundUp(b.len, inp.bs) <= INT_MAX
    requires c.chunkSz == DivRoundUp(b.len, inp.bs) && c.totalSz == CHUNK_HEADER_LEN + 4
    requires r.pos + CHUNK_HEADER_LEN + 4 <= |inp.f| && Get32(inp.f, r.pos + CHUNK_HEADER_LEN) == val
    ensures FillChunk(inp, r, c).Ok?
    ensures var r' := FillChunk(inp, r, c).value;
      && r'.pos == r.pos + CHUNK_HEADER_LEN + 4 && r'.cur == End(b, inp.bs)
      && r'.l == Queue(r.l, Reread(b, inp.bs, inp.fd, r.pos + CHUNK_HEADER_LEN), inp.bs)
  {
    FillSizes(b, inp.bs);
    hide Crc, Pattern, Get32, Queue, DivRoundUp, Align, CanAdd;
  }

  lemma FillFields(f: seq<byte>, pos: nat, n: u32, val: u32)
    requires Holds(f, pos, ChunkHeader(CHUNK_TYPE_FILL, n, CHUNK_HEADER_LEN + 4) + Le32(val))
    ensures pos + CHUNK_HEADER_LEN + 4 <= |f|
    ensures ChunkAt(f, pos) == Chunk(CHUNK_TYPE_FILL, n, CHUNK_HEADER_LEN + 4)
    ensures Get32(f, pos + CHUNK_HEADER_LEN) == val
  {
    FieldSizes();
    hide ChunkAt, Get32, ChunkHeader, Le32;
    HoldsSplit(f, pos, ChunkHeader(CHUNK_TYPE_FILL, n, CHUNK_HEADER_LEN + 4), Le32(val));
    ChunkFields(f, pos, CHUNK_TYPE_FILL, n, CHUNK_HEADER_LEN + 4);
    HoldsLe32(f, pos + CHUNK_HEADER_LEN, val);
  }

  lemma StepFill(inp: Input, r: Reader, b: Block, st: Store)
    requires 0 < inp.bs && inp.hdrSz == CHUNK_HEADER_LEN && b.src.Fill? && Writable(b, inp.bs)
    requires r.cur == b.block && CanAdd(r) && DivRoundUp(b.len, inp.bs) <= INT_MAX
    requires Holds(inp.f, r.pos, ChunkBytes(b, inp.bs, st))
    ensures Step(inp, r).Ok?
    ensures var r' := Step(inp, r).value;
      && r'.pos == r.pos + |ChunkBytes(b, inp.bs, st)| && r'.cur == End(b, inp.bs)
      && r'.l == Queue(r.l, Reread(b, inp.bs, inp.fd, r.pos + CHUNK_HEADER_LEN), inp.bs)
  {
    FieldSizes();
    hide Step, ChunkAt, FillChunk, Get32, Queue, DivRoundUp, CanAdd, Reread, Writable, Holds, Le32, ChunkHeader;
    FillSizes(b, inp.bs);
    FillFields(inp.f, r.pos, DivRoundUp(b.len, inp.bs), b.src.val);
    AcceptFill(inp, r, b, ChunkAt(inp.f, r.pos), b.src.val);
    StepIsFill(inp, r);
  }

  lemma StepIsFill(inp: Input, r: Reader)
    requires 0 < inp.bs && r.pos + CHUNK_HEADER_LEN <= |inp.f| && ChunkAt(inp.f, r.pos).chunkType == CHUNK_TYPE_FILL
    ensures Step(inp, r) == FillChunk(inp, r, ChunkAt(inp.f, r.pos))
  {
  }

  lemma HoldsBound(f: seq<byte>, pos: nat, d: seq<byte>)
    requires Holds(f, pos, d)
    ensures pos + |d| <= |f|
  {
  }

  lemma RawSizes(b: Block, bs: nat)
    requires 0 < bs && Writable(b, bs)
    ensures b.len <= Align(b.len, bs) < U32 && Align(b.len, bs) == ToU32(DivRoundUp(b.len, bs) * bs)
    ensures ToU32(ToU32(CHUNK_HEADER_LEN + Align(b.len, bs)) - CHUNK_HEADER_LEN) == Align(b.len, bs)
    ensures Align(b.len, bs) % bs == 0 && Align(b.len, bs) / bs == DivRoundUp(b.len, bs) < U32
  {
    AlignBounds(b.len, bs);
    PadLength32(b.len, bs);
    FillSizes(b, bs);
    DifferenceExact(Align(b.len, bs), CHUNK_HEADER_LEN);
    hide *;
  }

  lemma DifferenceExact(x: u32, h: nat)
    ensures ToU32(ToU32(h + x) - h) == x
  {
  }

  lemma AcceptRaw(inp: Input, r: Reader, b: Block, c: Chunk)
    requires 0 < inp.bs && inp.hdrSz == CHUNK_HEADER_LEN && Writable(b, inp.bs) && !b.src.Fill?
    requires r.cur == b.block && CanAdd(r) && DivRoundUp(b.len, inp.bs) <= INT_MAX
    requires c.chunkSz == DivRoundUp(b.len, inp.bs) && c.totalSz == ToU32(CHUNK_HEADER_LEN + Align(b.len, inp.bs))
    requires r.pos + CHUNK_HEADER_LEN + Align(b.len, inp.bs) <= |inp.f|
    ensures RawChunk(inp, r, c).Ok?
    ensures var r' := RawChunk(inp, r, c).value;
      && r'.pos == r.pos + CHUNK_HEADER_LEN + Align(b.len, inp.bs) && r'.cur == End(b, inp.bs)
      && r'.l == Queue(r.l, Reread(b, inp.bs, inp.fd, r.pos + CHUNK_HEADER_LEN), inp.bs)
  {
    hide *;
    RawSizes(b, inp.bs);
    BlockEnds(b, inp.bs);
    RawOk(inp, r, c, Align(b.len, inp.bs));
    RereadIs(b, inp.bs, inp.fd, r.pos + CHUNK_HEADER_LEN);
  }

  lemma BlockEnds(b: Block, bs: nat)
    requires 0 < bs && Writable(b, bs)
    ensures End(b, bs) == b.block + DivRoundUp(b.len, bs) == ToU32(b.block + DivRoundUp(b.len, bs))
    ensures b.len + bs <= U32
  {
    hide DivRoundUp;
  }

  lemma RereadIs(b: Block, bs: nat, fd: nat, off: nat)
    requires 0 < bs && b.len + bs <= U32 && !b.src.Fill? && 0 <= Align(b.len, bs) < 0x1_0000_0000
    ensures Reread(b, bs, fd, off) == Block(b.block, Align(b.len, bs), Fd(fd, off))
  {
    hide Align;
  }

  lemma RawOk(inp: Input, r: Reader, c: Chunk, len: u32)
    requires 0 < inp.bs && CanAdd(r) && c.chunkSz <= INT_MAX && r.pos + inp.hdrSz + len <= |inp.f|
    requires ToU32(c.totalSz - inp.hdrSz) == len == ToU32(c.chunkSz * inp.bs)
    requires len % inp.bs == 0 && len / inp.bs == c.chunkSz
    ensures RawChunk(inp, r, c).Ok?
    ensures var r' := RawChunk(inp, r, c).value;
      && r'.pos == r.pos + inp.hdrSz + len && r'.cur == ToU32(r.cur + c.chunkSz)
      && r'.l == Queue(r.l, Block(r.cur, len, Fd(inp.fd, r.pos + inp.hdrSz)), inp.bs)
  {
    hide Crc, Queue, ToU32, Unused, Compared;
  }

  lemma StepRaw(inp: Input, r: Reader, b: Block, st: Store)
    requires 0 < inp.bs && inp.hdrSz == CHUNK_HEADER_LEN && !b.src.Fill? && Writable(b, inp.bs)
    requires r.cur == b.block && CanAdd(r) && DivRoundUp(b.len, inp.bs) <= INT_MAX
    requires Holds(inp.f, r.pos, ChunkBytes(b, inp.bs, st))
    ensures Step(inp, r).Ok?
    ensures var r' := Step(inp, r).value;
      && r'.pos == r.pos + |ChunkBytes(b, inp.bs, st)| && r'.cur == End(b, inp.bs)
      && r'.l == Queue(r.l, Reread(b, inp.bs, inp.fd, r.pos + CHUNK_HEADER_LEN), inp.bs)
    ensures Holds(inp.f, r.pos + CHUNK_HEADER_LEN, Padded(b, inp.bs, st))
  {
    var n := DivRoundUp(b.len, inp.bs);
    var total := ToU32(CHUNK_HEADER_LEN + Align(b.len, inp.bs));
    var header := ChunkHeader(CHUNK_TYPE_RAW, n, total);
    assert ChunkBytes(b, inp.bs, st) == header + Padded(b, inp.bs, st);
    hide ChunkAt, FillChunk, RawChunk, SkipChunk, CrcChunk, Queue, DivRoundUp, ChunkHeader, ChunkBytes, CanAdd;
    hide Reread, ToU32, Padded, Align, Holds;
    RawSizes(b, inp.bs);
    HoldsSplit(inp.f, r.pos, header, Padded(b, inp.bs, st));
    HoldsBound(inp.f, r.pos + CHUNK_HEADER_LEN, Padded(b, inp.bs, st));
    ChunkFields(inp.f, r.pos, CHUNK_TYPE_RAW, n, total);
    AcceptRaw(inp, r, b, ChunkAt(inp.f, r.pos));
  }

  /** The block read back has the bytes of the one written, padding included. */
  lemma RereadBytes(b: Block, inp: Input, off: nat, st: Store, st': Store, p: nat)
    requires Reads(inp, st') && Writable(b, inp.bs)
    requires !b.src.Fill? ==> Holds(inp.f, off, Padded(b, inp.bs, st))
    ensures Lookup([Reread(b, inp.bs, inp.fd, off)], inp.bs, st', p) == Lookup([PadBlock(b, inp.bs, st)], inp.bs, st, p)
  {
    var x, y := Reread(b, inp.bs, inp.fd, off), PadBlock(b, inp.bs, st);
    LookupOne(x, inp.bs, st', p);
    LookupOne(y, inp.bs, st, p);
    if !b.src.Fill? && Covers(x, inp.bs, p) {
      var i := p - Start(x, inp.bs);
      var d := Padded(b, inp.bs, st);
      assert inp.f[off..off + |d|][i] == inp.f[off + i];
    }
  }

  /** k accepted chunks take the reader from r to r', and the counter does not wrap on the way. */
  ghost predicate Leads(inp: Input, r: Reader, r': Reader, k: nat) {
    && (forall n: nat :: k <= n ==> Steps(inp, r, n) == Steps(inp, r', n - k))
    && r'.cur == r.cur + BlocksAhead(inp, r, k)
  }

  lemma LeadsStep(inp: Input, r: Reader)
    requires Step(inp, r).Ok? && r.cur <= Step(inp, r).value.cur
    ensures Leads(inp, r, Step(inp, r).value, 1)
  {
    StepCounts(inp, r);
    hide Step, ChunkBlocks;
    assert BlocksAhead(inp, Step(inp, r).value, 0) == 0;
  }

  lemma {:induction false} BlocksAfter(inp: Input, r: Reader, j: nat, k: nat)
    requires Steps(inp, r, j).Ok?
    ensures BlocksAhead(inp, r, j + k) == BlocksAhead(inp, r, j) + BlocksAhead(inp, Steps(inp, r, j).value, k)
    decreases j
  {
    hide Step, ChunkBlocks;
    if j != 0 {
      BlocksAfter(inp, Step(inp, r).value, j - 1, k);
    }
  }

  lemma LeadsThen(inp: Input, r: Reader, r1: Reader, r': Reader, j: nat, k: nat)
    requires Leads(inp, r, r1, j) && Leads(inp, r1, r', k)
    ensures Leads(inp, r, r', j + k)
  {
    hide Step, ChunkBlocks;
    forall n: nat | j + k <= n
      ensures Steps(inp, r, n) == Steps(inp, r', n - (j + k))
    {
      assert Steps(inp, r1, n - j) == Steps(inp, r', n - j - k);
    }
    assert Steps(inp, r, j) == Steps(inp, r1, 0) == Ok(r1);
    BlocksAfter(inp, r, j, k);
  }

  // ---- all chunks of a list read back ----

  lemma QueueNumbers(l: seq<Block>, b: Block, bs: nat)
    requires 0 < bs && forall i :: 0 <= i < |l| ==> l[i].block < b.block
    ensures forall i :: 0 <= i < |Queue(l, b, bs)| ==> Queue(l, b, bs)[i].block <= b.block
  {
    QueueInOrder(l, b, bs);
    if l != [] && Mergeable(l[|l| - 1], b, bs) {
      MergeAtElements(l + [b], |l| - 1, bs);
    }
  }

  /** What the reader needs to carry on from one extent to the next. */
  predicate Ready(inp: Input, r: Reader)
    requires 0 < inp.bs
  {
    ReaderOk(inp.bs, r) && CanAdd(r) && Positive(r.l) && FillsWhole(r.l, inp.bs)
  }

  lemma StepBlock(inp: Input, r: Reader, b: Block, st: Store)
    requires 0 < inp.bs && inp.hdrSz == CHUNK_HEADER_LEN && Writable(b, inp.bs)
    requires CanAdd(r) && r.cur == b.block && End(b, inp.bs) <= INT_MAX
    requires Holds(inp.f, r.pos, ChunkBytes(b, inp.bs, st))
    ensures Step(inp, r).Ok?
    ensures var r' := Step(inp, r).value;
      && r'.pos == r.pos + |ChunkBytes(b, inp.bs, st)| && r'.cur == End(b, inp.bs)
      && r'.l == Queue(r.l, Reread(b, inp.bs, inp.fd, r.pos + CHUNK_HEADER_LEN), inp.bs)
    ensures !b.src.Fill? ==> Holds(inp.f, r.pos + CHUNK_HEADER_LEN, Padded(b, inp.bs, st))
  {
    assert DivRoundUp(b.len, inp.bs) <= INT_MAX;
    hide Step, ChunkBytes, Queue, DivRoundUp, Reread, Align, Holds, CanAdd, Writable, Padded;
    if b.src.Fill? {
      StepFill(inp, r, b, st);
    } else {
      StepRaw(inp, r, b, st);
    }
  }

  lemma ReadyParts(inp: Input, r: Reader)
    requires 0 < inp.bs && Ready(inp, r)
    ensures ReaderOk(inp.bs, r) && CanAdd(r) && Behind(r.l, inp.bs, r.cur) && Sorted(r.l, inp.bs)
    ensures Positive(r.l) && FillsWhole(r.l, inp.bs)
    ensures forall i :: 0 <= i < |r.l| ==> End(r.l[i], inp.bs) <= r.cur
  {
    hide Positive, FillsWhole, DivRoundUp;
  }

  /** The reader after a queued extent is ready for the next one. */
  lemma QueuedReady(inp: Input, r: Reader, r': Reader, b: Block)
    requires 0 < inp.bs && Ready(inp, r) && b.block == r.cur < r'.cur && r'.l == Queue(r.l, b, inp.bs)
    requires ReaderOk(inp.bs, r')
    requires 0 < b.len && Start(b, inp.bs) + b.len < U32 && (b.src.Fill? ==> b.len % inp.bs == 0)
    ensures Ready(inp, r')
  {
    hide Positive, FillsWhole, DivRoundUp, Queue, ReaderOk, Behind, Sorted;
    ReadyParts(inp, r);
    ReaderFree(inp.bs, r, b);
    QueueNumbers(r.l, b, inp.bs);
    AppendPositive(r.l, b, inp.bs);
  }

  /** The bytes that the reader has after the chunk of b. */
  lemma ChunkBytesAdded(inp: Input, r: Reader, b: Block, off: nat, st: Store, st': Store, p: nat)
    requires Reads(inp, st') && Writable(b, inp.bs) && Ready(inp, r) && r.cur == b.block
    requires End(b, inp.bs) * inp.bs < U32
    requires !b.src.Fill? ==> Holds(inp.f, off, Padded(b, inp.bs, st))
    ensures Lookup(Queue(r.l, Reread(b, inp.bs, inp.fd, off), inp.bs), inp.bs, st', p) ==
            OrElse(Lookup([PadBlock(b, inp.bs, st)], inp.bs, st, p), Lookup(r.l, inp.bs, st', p))
  {
    assert 0 < inp.bs && inp.bs % 4 == 0;
    hide Positive, FillsWhole, DivRoundUp, Queue, Behind, Sorted, Lookup, Reread, PadBlock, Padded, Holds, Align, Ready;
    var b' := Reread(b, inp.bs, inp.fd, off);
    ReadyParts(inp, r);
    RereadFits(b, inp.bs, inp.fd, off);
    ReaderFree(inp.bs, r, b');
    MulMono(r.cur, End(b, inp.bs), inp.bs);
    BehindBounded(r.l, inp.bs, r.cur);
    QueueOverlays(r.l, b', inp.bs, st', p);
    RereadBytes(b, inp, off, st, st', p);
  }

  lemma DecodeChunk(inp: Input, r: Reader, b: Block, st: Store, st': Store)
    requires Reads(inp, st') && Writable(b, inp.bs) && (b.src.Fill? ==> b.len % inp.bs == 0)
    requires Ready(inp, r) && r.cur == b.block && End(b, inp.bs) <= INT_MAX && End(b, inp.bs) * inp.bs < U32
    requires Holds(inp.f, r.pos, ChunkBytes(b, inp.bs, st))
    ensures Step(inp, r).Ok?
    ensures var r' := Step(inp, r).value;
      && Ready(inp, r') && r'.cur == End(b, inp.bs) && r'.pos == r.pos + |ChunkBytes(b, inp.bs, st)|
      && forall p: nat :: Lookup(r'.l, inp.bs, st', p) ==
           OrElse(Lookup([PadBlock(b, inp.bs, st)], inp.bs, st, p), Lookup(r.l, inp.bs, st', p))
  {
    hide *;
    ReadsGives(inp, st');
    WritableSize(b, inp.bs);
    ReadyParts(inp, r);
    var off := r.pos + CHUNK_HEADER_LEN;
    StepBlock(inp, r, b, st);
    RereadFits(b, inp.bs, inp.fd, off);
    StepKeepsReader(inp, r);
    QueuedReady(inp, r, Step(inp, r).value, Reread(b, inp.bs, inp.fd, off));
    forall p: nat
      ensures Lookup(Step(inp, r).value.l, inp.bs, st', p) ==
              OrElse(Lookup([PadBlock(b, inp.bs, st)], inp.bs, st, p), Lookup(r.l, inp.bs, st', p))
    {
      ChunkBytesAdded(inp, r, b, off, st, st', p);
    }
  }

  lemma WritableSize(b: Block, bs: nat)
    requires 0 < bs && Writable(b, bs)
    ensures b.len + bs <= U32
  {
  }

  lemma ReadsGives(inp: Input, st: Store)
    requires Reads(inp, st)
    ensures 0 < inp.bs && inp.bs % 4 == 0 && inp.hdrSz == CHUNK_HEADER_LEN && FdBytes(st, inp.fd) == inp.f
  {
  }

  lemma RereadFits(b: Block, bs: nat, fd: nat, off: nat)
    requires 0 < bs && Writable(b, bs) && End(b, bs) * bs < U32
    ensures var r := Reread(b, bs, fd, off);
      && r.block == b.block && 0 < r.len && Start(r, bs) + r.len < U32 && r.len % bs == 0 && r.src.Fill? == b.src.Fill?
    ensures b.block < End(b, bs)
  {
    AlignBounds(b.len, bs);
    Distribute(b.block, DivRoundUp(b.len, bs), bs);
  }

  lemma DecodeGap(inp: Input, r: Reader, b: Block)
    requires 0 < inp.bs && inp.hdrSz == CHUNK_HEADER_LEN && Ready(inp, r) && r.cur < b.block <= INT_MAX
    requires Holds(inp.f, r.pos, GapBytes(b, r.cur))
    ensures Step(inp, r).Ok?
    ensures var r' := Step(inp, r).value;
      Ready(inp, r') && r'.cur == b.block && r'.pos == r.pos + |GapBytes(b, r.cur)| && r'.l == r.l
  {
    StepGap(inp, r, b.block - r.cur);
    StepKeepsReader(inp, r);
    hide Step, Behind, SkipBytes;
  }

  /** The reader is past the encoding of the blocks l, having added their padded bytes to what it had. */
  ghost predicate HasRead(inp: Input, r: Reader, r': Reader, l: seq<Block>, st: Store, st': Store)
    requires 0 < inp.bs && AllWritable(l, inp.bs)
  {
    && Ready(inp, r') && r'.cur == LastBlock(l, r.cur, inp.bs)
    && r'.pos == r.pos + |BlocksBytes(l, r.cur, inp.bs, st)|
    && forall p: nat :: Lookup(r'.l, inp.bs, st', p) ==
         OrElse(Lookup(PadAll(l, inp.bs, st), inp.bs, st, p), Lookup(r.l, inp.bs, st', p))
  }

  /** The chunk for one extent, with its gap. */
  lemma DecodeOne(inp: Input, r: Reader, b: Block, st: Store, st': Store) returns (r': Reader)
    requires Reads(inp, st') && Writable(b, inp.bs) && (b.src.Fill? ==> b.len % inp.bs == 0)
    requires Ready(inp, r) && r.cur <= b.block && End(b, inp.bs) <= INT_MAX && End(b, inp.bs) * inp.bs < U32
    requires Holds(inp.f, r.pos, GapBytes(b, r.cur) + ChunkBytes(b, inp.bs, st))
    ensures Leads(inp, r, r', if b.block > r.cur then 2 else 1)
    ensures Ready(inp, r') && r'.cur == End(b, inp.bs)
    ensures r'.pos == r.pos + |GapBytes(b, r.cur) + ChunkBytes(b, inp.bs, st)|
    ensures forall p: nat ::
      Lookup(r'.l, inp.bs, st', p) == OrElse(Lookup([PadBlock(b, inp.bs, st)], inp.bs, st, p),
        Lookup(r.l, inp.bs, st', p))
  {
    hide Step, ChunkBytes, Lookup, Ready, PadBlock, Holds, DivRoundUp, Leads;
    HoldsSplit(inp.f, r.pos, GapBytes(b, r.cur), ChunkBytes(b, inp.bs, st));
    var r1 := r;
    if b.block > r.cur {
      DecodeGap(inp, r, b);
      LeadsStep(inp, r);
      r1 := Step(inp, r).value;
    }
    DecodeChunk(inp, r1, b, st, st');
    LeadsStep(inp, r1);
    r' := Step(inp, r1).value;
    if b.block > r.cur {
      LeadsThen(inp, r, r1, r', 1, 1);
    }
  }

  // ---- padding made explicit ----

  lemma PadExtent(b: Block, bs: nat, st: Store)
    requires 0 < bs && b.len + bs <= U32
    ensures var q := PadBlock(b, bs, st);
      q.block == b.block && End(q, bs) == End(b, bs) && Start(q, bs) == Start(b, bs) && b.len <= q.len
  {
    PadLength32(b.len, bs);
    AlignBounds(b.len, bs);
    AlignBounds(Align(b.len, bs), bs);
  }

  lemma PadSorted(l: seq<Block>, bs: nat, st: Store)
    requires 0 < bs && AllWritable(l, bs) && Sorted(l, bs)
    ensures Sorted(PadAll(l, bs, st), bs)
  {
    forall i | 0 <= i < |l|
      ensures PadAll(l, bs, st)[i].block == l[i].block && End(PadAll(l, bs, st)[i], bs) == End(l[i], bs)
    {
      PadExtent(l[i], bs, st);
    }
    hide End, PadAll;
  }

  lemma PadCons(l: seq<Block>, bs: nat, st: Store)
    requires 0 < bs && AllWritable(l, bs) && l != []
    ensures AllWritable(l[1..], bs) && PadAll(l, bs, st) == [PadBlock(l[0], bs, st)] + PadAll(l[1..], bs, st)
  {
    hide PadBlock, Writable;
  }

  lemma PadOne(b: Block, bs: nat, st: Store, p: nat)
    requires 0 < bs && b.len + bs <= U32 && (b.src.Fill? ==> b.len % bs == 0)
    ensures var x, y := Lookup([PadBlock(b, bs, st)], bs, st, p), Lookup([b], bs, st, p);
      GetOr(x, 0) == GetOr(y, 0) && (x.None? ==> y.None?) && (b.len % bs == 0 ==> x == y)
  {
    PadExtent(b, bs, st);
    AlignBounds(b.len, bs);
    LookupOne(PadBlock(b, bs, st), bs, st, p);
    LookupOne(b, bs, st, p);
    if Covers(PadBlock(b, bs, st), bs, p) && !b.src.Fill? {
      var i := p - Start(b, bs);
      assert Padded(b, bs, st)[i] == if i < b.len then SrcByte(b.src, st, i) else 0;
    }
  }

  /** Explicit padding reads as zero, so the expansion does not change; whole extents keep their holes too. */
  lemma {:induction false} PadKeepsImage(l: seq<Block>, bs: nat, st: Store, p: nat)
    requires 0 < bs && AllWritable(l, bs) && FillsWhole(l, bs) && Sorted(l, bs)
    ensures var x, y := Lookup(PadAll(l, bs, st), bs, st, p), Lookup(l, bs, st, p);
      GetOr(x, 0) == GetOr(y, 0) && (x.None? ==> y.None?)
    ensures (forall i :: 0 <= i < |l| ==> l[i].len % bs == 0) ==>
      Lookup(PadAll(l, bs, st), bs, st, p) == Lookup(l, bs, st, p)
  {
    if l != [] {
      var b, rest := l[0], l[1..];
      assert forall i :: 0 <= i < |rest| ==> rest[i] == l[i + 1];
      PadCons(l, bs, st);
      PadKeepsImage(rest, bs, st, p);
      PadSorted(l, bs, st);
      PadOne(b, bs, st, p);
      hide Lookup, PadBlock, PadAll, Sorted, DivRoundUp;
      LookupConcat([b], rest, bs, st, p);
      LookupConcat([PadBlock(b, bs, st)], PadAll(rest, bs, st), bs, st, p);
      LookupApart(PadBlock(b, bs, st), PadAll(rest, bs, st), bs, st, p);
      assert [b] + rest == l;
    }
  }

  // ---- the whole file ----

  lemma ReadThen(inp: Input, r: Reader, r1: Reader, r': Reader, l: seq<Block>, st: Store, st': Store)
    requires 0 < inp.bs && l != [] && AllWritable(l, inp.bs) && Sorted(l, inp.bs) && AllWritable(l[1..], inp.bs)
    requires r1.cur == End(l[0], inp.bs)
    requires r1.pos == r.pos + |GapBytes(l[0], r.cur) + ChunkBytes(l[0], inp.bs, st)|
    requires forall p: nat ::
      Lookup(r1.l, inp.bs, st', p) == OrElse(Lookup([PadBlock(l[0], inp.bs, st)], inp.bs, st, p),
        Lookup(r.l, inp.bs, st', p))
    requires HasRead(inp, r1, r', l[1..], st, st')
    ensures HasRead(inp, r, r', l, st, st')
  {
    var b, rest, bs := l[0], l[1..], inp.bs;
    PadCons(l, bs, st);
    PadSorted(l, bs, st);
    hide Lookup, PadBlock, PadAll, Ready, Sorted, GapBytes, ChunkBytes, DivRoundUp;
    forall p: nat
      ensures Lookup(r'.l, bs, st', p) == OrElse(Lookup(PadAll(l, bs, st), bs, st, p), Lookup(r.l, bs, st', p))
    {
      LookupConcat([PadBlock(b, bs, st)], PadAll(rest, bs, st), bs, st, p);
      LookupApart(PadBlock(b, bs, st), PadAll(rest, bs, st), bs, st, p);
    }
  }

  lemma ReadNothing(inp: Input, r: Reader, st: Store, st': Store)
    requires 0 < inp.bs && Ready(inp, r)
    ensures CountChunks([], r.cur, inp.bs, 0) == 0 && Leads(inp, r, r, 0) && HasRead(inp, r, r, [], st, st')
  {
    AlignBounds(0, inp.bs);
    DivModUnique(0, inp.bs, 0, 0);
    assert PadAll([], inp.bs, st) == [];
    hide Ready;
  }

  predicate Decodable(l: seq<Block>, bs: nat)
    requires 0 < bs
  {
    && AllWritable(l, bs) && FillsWhole(l, bs) && Sorted(l, bs)
    && forall i :: 0 <= i < |l| ==> End(l[i], bs) <= INT_MAX && End(l[i], bs) * bs < U32
  }

  lemma DecodableTail(l: seq<Block>, bs: nat)
    requires 0 < bs && l != [] && Decodable(l, bs)
    ensures Decodable(l[1..], bs) && From(l[1..], End(l[0], bs))
  {
    assert forall i :: 0 <= i < |l| - 1 ==> l[1..][i] == l[i + 1];
  }

  /** The first extent of a list and the rest, as the reader meets them. */
  lemma FirstExtent(l: seq<Block>, last: nat, bs: nat)
    requires 0 < bs && l != [] && Decodable(l, bs) && From(l, last)
    ensures Writable(l[0], bs) && (l[0].src.Fill? ==> l[0].len % bs == 0) && last <= l[0].block
    ensures End(l[0], bs) <= INT_MAX && End(l[0], bs) * bs < U32
    ensures Decodable(l[1..], bs) && From(l[1..], End(l[0], bs))
    ensures AllWritable(l, bs) && AllWritable(l[1..], bs) && Sorted(l, bs)
  {
    DecodableTail(l, bs);
  }

  lemma FirstBytes(f: seq<byte>, pos: nat, l: seq<Block>, last: nat, bs: nat, st: Store)
    requires 0 < bs && l != [] && Holds(f, pos, BlocksBytes(l, last, bs, st))
    ensures var b, bytes := l[0], GapBytes(l[0], last) + ChunkBytes(l[0], bs, st);
      && Holds(f, pos, bytes)
      && Holds(f, pos + |bytes|, BlocksBytes(l[1..], End(b, bs), bs, st))
    ensures CountChunks(l, last, bs, 0) ==
      (if l[0].block > last then 2 else 1) + CountChunks(l[1..], End(l[0], bs), bs, 0)
  {
    hide Holds, GapBytes, ChunkBytes;
    HoldsSplit(f, pos, GapBytes(l[0], last) + ChunkBytes(l[0], bs, st), BlocksBytes(l[1..], End(l[0], bs), bs, st));
  }

  lemma {:induction false} DecodeBlocks(inp: Input, r: Reader, l: seq<Block>, st: Store, st': Store)
    returns (r': Reader)
    requires Reads(inp, st') && Decodable(l, inp.bs) && Ready(inp, r) && From(l, r.cur)
    requires Holds(inp.f, r.pos, BlocksBytes(l, r.cur, inp.bs, st))
    ensures Leads(inp, r, r', CountChunks(l, r.cur, inp.bs, 0))
    ensures AllWritable(l, inp.bs) && HasRead(inp, r, r', l, st, st')
    decreases |l|
  {
    hide Decodable, Ready, Holds, From, GapBytes, ChunkBytes, BlocksBytes, CountChunks, Leads, Lookup, Writable;
    hide HasRead, DivRoundUp;
    if l == [] {
      ReadNothing(inp, r, st, st');
      r' := r;
    } else {
      var k := if l[0].block > r.cur then 2 else 1;
      FirstExtent(l, r.cur, inp.bs);
      FirstBytes(inp.f, r.pos, l, r.cur, inp.bs, st);
      var r1 := DecodeOne(inp, r, l[0], st, st');
      r' := DecodeBlocks(inp, r1, l[1..], st, st');
      LeadsThen(inp, r, r1, r', k, CountChunks(l[1..], r1.cur, inp.bs, 0));
      ReadThen(inp, r, r1, r', l, st, st');
    }
  }

  lemma {:induction false} ChunksBelow(l: seq<Block>, last: nat, bs: nat)
    requires 0 < bs && AllWritable(l, bs) && Sorted(l, bs) && From(l, last)
    ensures CountChunks(l, last, bs, 0) + last <= LastBlock(l, last, bs)
  {
    if l == [] {
      AlignBounds(0, bs);
      DivModUnique(0, bs, 0, 0);
    } else {
      AlignBounds(l[0].len, bs);
      TailSorted(l, bs);
      assert forall i :: 0 <= i < |l| - 1 ==> l[1..][i] == l[i + 1];
      ChunksBelow(l[1..], End(l[0], bs), bs);
    }
  }

  lemma StepCrcChunk(inp: Input, r: Reader, c: bv32)
    requires 0 < inp.bs && inp.hdrSz == CHUNK_HEADER_LEN && Holds(inp.f, r.pos, CrcBytes(c))
    ensures Step(inp, r) ==
      if inp.useCrc && CrcField(c) != CrcField(r.crc) then Invalid else Ok(r.(pos := r.pos + CHUNK_HEADER_LEN + 4))
  {
    var header := ChunkHeader(CHUNK_TYPE_CRC32, 0, CHUNK_HEADER_LEN + 4);
    hide ChunkAt, ChunkHeader, CrcField, RawChunk, FillChunk, SkipChunk;
    HoldsSplit(inp.f, r.pos, header, CrcField(c));
    ChunkFields(inp.f, r.pos, CHUNK_TYPE_CRC32, 0, CHUNK_HEADER_LEN + 4);
  }

  function HoleChunks(last: nat, blks: nat): nat {
    if last < blks then 1 else 0
  }

  lemma HoleChunksIs(last: nat, blks: nat)
    ensures HoleChunks(last, blks) == if last < blks then 1 else 0
  {
  }

  lemma CountsFit(blks: int, chunks: nat, n: nat)
    requires blks <= INT_MAX && chunks <= INT_MAX + 1 && n <= chunks + 1
    ensures blks < 0x1_0000_0000 && n < 0x1_0000_0000
  {
  }

  lemma DecodeHole(inp: Input, r: Reader, blks: nat) returns (r': Reader)
    requires 0 < inp.bs && inp.hdrSz == CHUNK_HEADER_LEN && r.cur <= blks <= INT_MAX
    requires Holds(inp.f, r.pos, HoleBytes(r.cur, blks))
    ensures Leads(inp, r, r', HoleChunks(r.cur, blks))
    ensures r'.pos == r.pos + |HoleBytes(r.cur, blks)| && r'.cur == blks && r'.l == r.l
  {
    hide Step, SkipBytes;
    r' := r;
    if r.cur < blks {
      StepGap(inp, r, blks - r.cur);
      LeadsStep(inp, r);
      r' := Step(inp, r).value;
    }
  }

  lemma FourParts(h: seq<byte>, b: seq<byte>, t: seq<byte>, e: seq<byte>)
    ensures var f := h + b + t + e;
      Holds(f, 0, h) && Holds(f, |h|, b) && Holds(f, |h| + |b|, t) && Holds(f, |h| + |b| + |t|, e)
  {
    var f := h + b + t + e;
    HoldsAll(f);
    hide Holds;
    HoldsSplit(f, 0, h + b + t, e);
    HoldsSplit(f, 0, h + b, t);
    HoldsSplit(f, 0, h, b);
  }

  lemma SixParts(a: seq<byte>, b: seq<byte>, c: seq<byte>, d: seq<byte>, e: seq<byte>, g: seq<byte>)
    ensures var f := a + b + c + d + e + g;
      && Holds(f, 0, a) && Holds(f, |a|, b) && Holds(f, |a| + |b|, c) && Holds(f, |a| + |b| + |c|, d)
      && Holds(f, |a| + |b| + |c| + |d|, e) && Holds(f, |a| + |b| + |c| + |d| + |e|, g)
  {
    var f := a + b + c + d + e + g;
    HoldsAll(f);
    hide Holds;
    HoldsSplit(f, 0, a + b + c + d + e, g);
    HoldsSplit(f, 0, a + b + c + d, e);
    HoldsSplit(f, 0, a + b + c, d);
    HoldsSplit(f, 0, a + b, c);
    HoldsSplit(f, 0, a, b);
  }

  lemma HoldsAll(f: seq<byte>)
    ensures Holds(f, 0, f)
  {
  }

  lemma BlockCounts(l: seq<Block>, bs: nat, len: nat)
    requires WellFormed(l, bs, len) && len % bs == 0
    ensures 0 <= len / bs <= INT_MAX && (len / bs) * bs == len < U32 && LastBlock(l, 0, bs) <= len / bs
    ensures CountChunks(l, 0, bs, len) ==
            CountChunks(l, 0, bs, 0) + (if LastBlock(l, 0, bs) < len / bs then 1 else 0)
    ensures CountChunks(l, 0, bs, len) <= INT_MAX + 1
    ensures Decodable(l, bs)
  {
    WellFormedAll(l, bs, len);
    PadWithin(l, bs, len);
    CountTail(l, 0, bs, len);
    ChunksBelow(l, 0, bs);
    AlignBounds(len, bs);
    QuotientSmall(len, bs);
    forall i | 0 <= i < |l|
      ensures End(l[i], bs) <= INT_MAX && End(l[i], bs) * bs < U32
    {
      MulMono(End(l[i], bs), len / bs, bs);
    }
  }

  lemma QuotientSmall(len: nat, bs: nat)
    requires 0 < bs && bs % 4 == 0 && len < U32
    ensures 0 <= len / bs <= INT_MAX
  {
    var q := len / bs;
    assert len == q * bs + len % bs;
    if q < 0 {
      MulMono(q, -1, bs);
    } else {
      MulMono(4, bs, q);
    }
  }

  lemma ReadyAtStart(inp: Input, r: Reader, l: seq<Block>)
    requires 0 < inp.bs && r.cur == 0 && r.l == []
    ensures Ready(inp, r) && From(l, 0)
  {
  }

  /** The reader ends at the end of the image, with the padded bytes of the list. */
  lemma DecodeBody(inp: Input, r0: Reader, l: seq<Block>, blks: nat, st: Store, st': Store) returns (r: Reader)
    requires Reads(inp, st') && Decodable(l, inp.bs) && AllWritable(l, inp.bs) && r0.cur == 0 && r0.l == []
    requires LastBlock(l, 0, inp.bs) <= blks <= INT_MAX
    requires Holds(inp.f, r0.pos, BlocksBytes(l, 0, inp.bs, st))
    requires Holds(inp.f, r0.pos + |BlocksBytes(l, 0, inp.bs, st)|, HoleBytes(LastBlock(l, 0, inp.bs), blks))
    ensures Leads(inp, r0, r, CountChunks(l, 0, inp.bs, 0) + HoleChunks(LastBlock(l, 0, inp.bs), blks))
    ensures r.cur == blks && Positive(r.l) && FillsWhole(r.l, inp.bs) && ReaderOk(inp.bs, r)
    ensures r.pos == r0.pos + |BlocksBytes(l, 0, inp.bs, st)| + |HoleBytes(LastBlock(l, 0, inp.bs), blks)|
    ensures forall p: nat :: Lookup(r.l, inp.bs, st', p) == Lookup(PadAll(l, inp.bs, st), inp.bs, st, p)
  {
    hide *;
    ReadsGives(inp, st');
    ReadyAtStart(inp, r0, l);
    var r1 := DecodeBlocks(inp, r0, l, st, st');
    ReadFromNothing(inp, r0, r1, l, st, st');
    r := DecodeHole(inp, r1, blks);
    ReaderLater(inp.bs, r1, r);
    LeadsThen(inp, r0, r1, r, CountChunks(l, 0, inp.bs, 0), HoleChunks(LastBlock(l, 0, inp.bs), blks));
  }

  lemma ReaderLater(bs: nat, r: Reader, r': Reader)
    requires 0 < bs && ReaderOk(bs, r) && r'.l == r.l && r.cur <= r'.cur
    ensures ReaderOk(bs, r')
  {
    BehindLater(r.l, bs, r.cur, r'.cur);
  }

  lemma ReadFromNothing(inp: Input, r0: Reader, r1: Reader, l: seq<Block>, st: Store, st': Store)
    requires 0 < inp.bs && AllWritable(l, inp.bs) && HasRead(inp, r0, r1, l, st, st') && r0.l == []
    ensures r1.cur == LastBlock(l, r0.cur, inp.bs) && r1.pos == r0.pos + |BlocksBytes(l, r0.cur, inp.bs, st)|
    ensures Positive(r1.l) && FillsWhole(r1.l, inp.bs) && ReaderOk(inp.bs, r1)
    ensures forall p: nat :: Lookup(r1.l, inp.bs, st', p) == Lookup(PadAll(l, inp.bs, st), inp.bs, st, p)
  {
  }

  lemma TailIsHole(l: seq<Block>, bs: nat, len: nat, blks: nat)
    requires 0 < bs && len % bs == 0 && blks == len / bs
    ensures TailBytes(l, bs, len) == HoleBytes(LastBlock(l, 0, bs), blks)
  {
    hide HoleBytes, LastBlock;
  }

  /** The parts of an encoded image, at their offsets. */
  lemma EncodedParts(l: seq<Block>, bs: nat, len: nat, c: bool, st: Store, f: seq<byte>, blks: u32, n: u32)
    requires WellFormed(l, bs, len) && len % bs == 0 && f == Encoded(l, bs, len, c, st)
    requires blks == len / bs && n == CountChunks(l, 0, bs, len) + (if c then 1 else 0)
    ensures var h, b, t := SPARSE_HEADER_LEN, BlocksBytes(l, 0, bs, st), HoleBytes(LastBlock(l, 0, bs), blks);
      && Holds(f, 0, SparseHeader(bs, blks, n)) && Holds(f, h, b) && Holds(f, h + |b|, t)
      && (c ==> Holds(f, h + |b| + |t|, CrcBytes(HashBlocks(0, l, bs, st))))
  {
    TailIsHole(l, bs, len, blks);
    hide BlocksBytes, SparseHeader, CrcBytes, HashBlocks, CountChunks, TailBytes, HoleBytes, LastBlock, WellFormed;
    hide Holds;
    FourParts(SparseHeader(bs, blks, n), BlocksBytes(l, 0, bs, st), HoleBytes(LastBlock(l, 0, bs), blks),
              if c then CrcBytes(HashBlocks(0, l, bs, st)) else []);
  }

  /** The CRC chunk, when there is one, is all that can make the import of a written file fail. */
  ghost predicate CrcAccepted(l: seq<Block>, bs: nat, len: nat, c: bool, u: bool, st: Store)
    requires 0 < bs
  {
    c && u ==> CrcField(HashBlocks(0, l, bs, st)) == CrcField(Crc(0, Expand(l, bs, st, len)))
  }

  lemma StartCrc(inp: Input, r: Reader, st: Store)
    requires 0 < inp.bs && r.cur == 0 && r.l == [] && r.crc == 0
    ensures ReaderOk(inp.bs, r) && CrcIsOfImage(inp, r, st)
  {
    MulMono(0, 0, inp.bs);
    assert Expand(r.l, inp.bs, st, 0) == [];
    ComplementTwice(0);
  }

  lemma WrittenHeader(l: seq<Block>, bs: nat, len: nat, c: bool, st: Store)
    requires WellFormed(l, bs, len) && len % bs == 0
    ensures var f := Encoded(l, bs, len, c, st);
      && HeaderOk(f) && BlkSz(f) == bs && TotalBlks(f) == len / bs
      && FileHdrSz(f) == SPARSE_HEADER_LEN && ChunkHdrSz(f) == CHUNK_HEADER_LEN
      && TotalChunks(f) == CountChunks(l, 0, bs, len) + (if c then 1 else 0)
  {
    BlockCounts(l, bs, len);
    EncodedParts(l, bs, len, c, st, Encoded(l, bs, len, c, st), len / bs,
      CountChunks(l, 0, bs, len) + (if c then 1 else 0));
    hide Encoded, HeaderOk, Holds, SparseHeader, CountChunks, WellFormed, DivRoundUp;
    HeaderFields(Encoded(l, bs, len, c, st), bs, len / bs, CountChunks(l, 0, bs, len) + (if c then 1 else 0));
  }

  /** The reader's view of a written file: where its parts are and how many chunks they make. */
  lemma BodyParts(l: seq<Block>, bs: nat, len: nat, c: bool, st: Store, f: seq<byte>)
    requires WellFormed(l, bs, len) && len % bs == 0 && f == Encoded(l, bs, len, c, st)
    ensures AllWritable(l, bs) && Decodable(l, bs) && LastBlock(l, 0, bs) <= len / bs <= INT_MAX
    ensures CountChunks(l, 0, bs, len) == CountChunks(l, 0, bs, 0) + HoleChunks(LastBlock(l, 0, bs), len / bs)
    ensures var h, b, t := SPARSE_HEADER_LEN, BlocksBytes(l, 0, bs, st), HoleBytes(LastBlock(l, 0, bs), len / bs);
      && Holds(f, h, b) && Holds(f, h + |b|, t)
      && (c ==> Holds(f, h + |b| + |t|, CrcBytes(HashBlocks(0, l, bs, st))))
  {
    hide *;
    WellFormedSize(l, bs, len);
    BlockCounts(l, bs, len);
    var n := CountChunks(l, 0, bs, len) + (if c then 1 else 0);
    WellFormedAll(l, bs, len);
    var last, blks := LastBlock(l, 0, bs), len / bs;
    HoleChunksIs(last, blks);
    CountsFit(blks, CountChunks(l, 0, bs, len), n);
    EncodedParts(l, bs, len, c, st, f, blks, n);
  }

  /** The reader after the blocks of a written file. */
  lemma ReadBody(inp: Input, r0: Reader, l: seq<Block>, len: nat, c: bool, st: Store, st': Store) returns (r: Reader)
    requires Reads(inp, st') && WellFormed(l, inp.bs, len) && len % inp.bs == 0
    requires inp.f == Encoded(l, inp.bs, len, c, st)
    requires r0.pos == SPARSE_HEADER_LEN && r0.cur == 0 && r0.l == []
    ensures Leads(inp, r0, r, CountChunks(l, 0, inp.bs, len))
    ensures c ==> Holds(inp.f, r.pos, CrcBytes(HashBlocks(0, l, inp.bs, st)))
    ensures r.cur == len / inp.bs && AllWritable(l, inp.bs) && Positive(r.l) && FillsWhole(r.l, inp.bs) &&
      ReaderOk(inp.bs, r)
    ensures forall p: nat :: Lookup(r.l, inp.bs, st', p) == Lookup(PadAll(l, inp.bs, st), inp.bs, st, p)
  {
    hide *;
    ReadsGives(inp, st');
    BodyParts(l, inp.bs, len, c, st, inp.f);
    r := DecodeBody(inp, r0, l, len / inp.bs, st, st');
  }

  /** With crc set, the reader that has passed the blocks holds the CRC of the image. */
  lemma BodyCrc(inp: Input, r0: Reader, r: Reader, k: nat, st': Store)
    requires Reads(inp, st') && inp.useCrc && r0.cur == 0 && r0.l == [] && r0.crc == 0
    requires Leads(inp, r0, r, k) && r.cur * inp.bs < U32
    ensures CrcIsOfImage(inp, r, st')
  {
    StartCrc(inp, r0, st');
    assert Steps(inp, r0, k) == Steps(inp, r, 0) == Ok(r);
    hide CrcIsOfImage, Leads;
    StepsKeepCrc(inp, r0, k, st');
  }

  lemma SameImage(x: seq<Block>, l: seq<Block>, bs: nat, len: nat, st: Store, st': Store)
    requires 0 < bs && AllWritable(l, bs) && FillsWhole(l, bs) && Sorted(l, bs)
    requires forall p: nat :: Lookup(x, bs, st', p) == Lookup(PadAll(l, bs, st), bs, st, p)
    ensures Expand(x, bs, st', len) == Expand(l, bs, st, len)
    ensures (forall i :: 0 <= i < |l| ==> l[i].len % bs == 0) ==>
      forall p: nat :: Lookup(x, bs, st', p) == Lookup(l, bs, st, p)
  {
    forall p: nat
      ensures GetOr(Lookup(x, bs, st', p), 0) == GetOr(Lookup(l, bs, st, p), 0)
      ensures (forall i :: 0 <= i < |l| ==> l[i].len % bs == 0) ==> Lookup(x, bs, st', p) == Lookup(l, bs, st, p)
    {
      PadKeepsImage(l, bs, st, p);
    }
    hide Lookup, PadAll, Sorted, AllWritable, FillsWhole;
  }

  /** The import of a written file, chunk by chunk: all of it but the verdict on the CRC chunk. */
  lemma ImportChunks(l: seq<Block>, bs: nat, len: nat, c: bool, u: bool, fd: nat, st: Store, st': Store)
    returns (r: Reader)
    requires WellFormed(l, bs, len) && len % bs == 0 && FdBytes(st', fd) == Encoded(l, bs, len, c, st)
    ensures var f := Encoded(l, bs, len, c, st);
      && HeaderOk(f) && BlkSz(f) == bs
      && (Steps(InputOf(f, fd, u), StartOf(f), TotalChunks(f)).Ok? <==> CrcAccepted(l, bs, len, c, u, st))
      && (!CrcAccepted(l, bs, len, c, u, st) ==> Steps(InputOf(f, fd, u), StartOf(f), TotalChunks(f)) == Invalid)
      && (CrcAccepted(l, bs, len, c, u, st) ==> Steps(InputOf(f, fd, u), StartOf(f), TotalChunks(f)) == Ok(r))
    ensures r.cur == len / bs == TotalBlks(Encoded(l, bs, len, c, st)) && AllWritable(l, bs)
    ensures Positive(r.l) && FillsWhole(r.l, bs) && ReaderOk(bs, r)
    ensures forall p: nat :: Lookup(r.l, bs, st', p) == Lookup(PadAll(l, bs, st), bs, st, p)
  {
    var f := Encoded(l, bs, len, c, st);
    WrittenHeader(l, bs, len, c, st);
    var inp, r0, k := InputOf(f, fd, u), StartOf(f), CountChunks(l, 0, bs, len);
    r := ReadBody(inp, r0, l, len, c, st, st');
    BlockCounts(l, bs, len);
    if u {
      BodyCrc(inp, r0, r, k, st');
      SameImage(r.l, l, bs, len, st, st');
    }
    assert Steps(inp, r0, TotalChunks(f)) == Steps(inp, r, TotalChunks(f) - k);
    hide Encoded, Holds, HashBlocks, CountChunks, Lookup, PadAll, AllWritable, WellFormed, Decodable, Leads;
    hide DivRoundUp, Expand;
    hide Crc, CrcField, CrcBytes;
    if c {
      StepCrcChunk(inp, r, HashBlocks(0, l, bs, st));
      var r1 := r.(pos := r.pos + CHUNK_HEADER_LEN + 4);
      assert Steps(inp, r1, 0) == Ok(r1);
      r := r1;
    }
  }

  /**
   * Importing what sparse_file_write wrote succeeds, with or without CRC on either side, unless both sides
   * use it and the writer's CRC is not that of the image; and then it yields the same block size, the same
   * length, the same expansion, and, for extents of whole blocks, the same holes.
   */
  lemma ImportOfWritten(l: seq<Block>, bs: nat, len: nat, c: bool, u: bool, fd: nat, st: Store, st': Store)
    requires WellFormed(l, bs, len) && len % bs == 0 && FdBytes(st', fd) == Encoded(l, bs, len, c, st)
    ensures var f := Encoded(l, bs, len, c, st);
      && (Import(f, fd, u).Ok? <==> CrcAccepted(l, bs, len, c, u, st))
      && (Import(f, fd, u).Ok? ==>
           var s := Import(f, fd, u).value;
           && s.bs == bs && s.len == len
           && Expand(s.blocks, bs, st', len) == Expand(l, bs, st, len)
           && ((forall i :: 0 <= i < |l| ==> l[i].len % bs == 0) ==>
                forall p: nat :: Lookup(s.blocks, bs, st', p) == Lookup(l, bs, st, p)))
  {
    var r := ImportChunks(l, bs, len, c, u, fd, st, st');
    BlockCounts(l, bs, len);
    SameImage(r.l, l, bs, len, st, st');
    hide Encoded, Steps, HeaderOk, BlkSz, TotalBlks, TotalChunks, Lookup, PadAll, AllWritable, CrcAccepted;
    hide DivRoundUp, Expand;
  }
}
