/** Files that the reader accepts although their chunks take its block counter past 2^32. */
module Wrapping {
  import opened Defs
  import opened Image
  import opened BackedBlock
  import opened OutputFile
  import opened SparseRead
  import opened RoundTrip

  function FillBytes(n: u32, val: u32): (r: seq<byte>)
    ensures |r| == CHUNK_HEADER_LEN + 4
  {
    ChunkHeader(CHUNK_TYPE_FILL, n, CHUNK_HEADER_LEN + 4) + Le32(val)
  }

  /** A counter after n more blocks. */
  predicate Counts(cur: u32, n: u32, next: u32) {
    n <= 0x7FFF_FFFF && (cur + n == next || cur + n == next + 0x1_0000_0000)
  }

  lemma CountsIs(cur: u32, n: u32, next: u32)
    requires Counts(cur, n, next)
    ensures n <= INT_MAX && ToU32(cur + n) == next
  {
  }

  /** The files here: no longer chunk headers, blocks of four bytes, CRCs not checked. */
  predicate Plain(inp: Input) {
    inp.hdrSz == CHUNK_HEADER_LEN && inp.bs == 4 && !inp.useCrc
  }

  lemma FillAccepts(inp: Input, r: Reader, n: u32, val: u32, c: Chunk)
    requires Plain(inp) && n <= 0x10 && Unused(r.l, r.cur) && c == Chunk(CHUNK_TYPE_FILL, n, CHUNK_HEADER_LEN + 4)
    requires r.pos + 16 <= |inp.f| && Get32(inp.f, r.pos + 12) == val
    ensures FillChunk(inp, r, c) ==
      Ok(Reader(r.pos + 16, ToU32(r.cur + n), r.crc, Queue(r.l, Block(r.cur, 4 * n, Fill(val)), 4)))
  {
    hide Get32, Queue, Unused, Compared;
  }

  /** The reader passes a fill chunk. */
  lemma FillRead(inp: Input, r: Reader, n: u32, val: u32, r': Reader, k: nat)
    requires Plain(inp) && n <= 0x10 && 0 < k && Holds(inp.f, r.pos, FillBytes(n, val)) && Unused(r.l, r.cur)
    requires Counts(r.cur, n, r'.cur) && r'.pos == r.pos + 16 && r'.crc == r.crc
    requires r'.l == Queue(r.l, Block(r.cur, 4 * n, Fill(val)), 4)
    ensures Steps(inp, r, k) == Steps(inp, r', k - 1)
  {
    CountsIs(r.cur, n, r'.cur);
    FillFields(inp.f, r.pos, n, val);
    hide ChunkAt, Get32, Queue, FillChunk, RawChunk, SkipChunk, Unused, Le32, ChunkHeader, Holds, ToU32;
    FillAccepts(inp, r, n, val, ChunkAt(inp.f, r.pos));
  }

  /** The reader passes a don't-care chunk. */
  lemma SkipRead(inp: Input, r: Reader, n: u32, r': Reader, k: nat)
    requires Plain(inp) && 0 < k && Holds(inp.f, r.pos, SkipBytes(n))
    requires Counts(r.cur, n, r'.cur) && r'.pos == r.pos + 12 && r'.crc == r.crc && r'.l == r.l
    ensures Steps(inp, r, k) == Steps(inp, r', k - 1)
  {
    CountsIs(r.cur, n, r'.cur);
    ChunkFields(inp.f, r.pos, CHUNK_TYPE_DONT_CARE, n, CHUNK_HEADER_LEN);
    hide ChunkAt, Get32, RawChunk, FillChunk, ChunkHeader, Holds;
  }

  /** A file with a written header, chunks that lead to as many blocks as announced, and so an image. */
  lemma Accepted(f: seq<byte>, fd: nat, bs: u32, blks: u32, n: u32, r: Reader)
    requires Holds(f, 0, SparseHeader(bs, blks, n)) && r.cur == blks
    requires Steps(Input(fd, f, bs, CHUNK_HEADER_LEN, false), Reader(SPARSE_HEADER_LEN, 0, 0, []), n) == Ok(r)
    ensures 0 <= blks * bs && Import(f, fd, false) == Ok(Imported(bs, blks * bs, r.l))
  {
    MulMono(0, blks, bs);
    HeaderFields(f, bs, blks, n);
    hide HeaderOk, BlkSz, TotalBlks, TotalChunks, FileHdrSz, ChunkHdrSz, Holds, SparseHeader, Steps;
  }

  /** Two blocks filled, holes of 2^32 - 1 blocks, one block filled: 96 bytes. */
  function TwoLaps(v: u32, w: u32): seq<byte> {
    SparseHeader(4, 2, 5) + FillBytes(2, v) + SkipBytes(INT_MAX) + SkipBytes(INT_MAX) + SkipBytes(1) + FillBytes(1, w)
  }

  lemma TwoLapsList(v: u32, w: u32)
    ensures var a, b := Block(0, 8, Fill(v)), Block(1, 4, Fill(w));
      && Unused([a], 1) && Queue([], a, 4) == [a] && Queue([a], b, 4) == [a, b] && !Sorted([a, b], 4)
  {
    var a, b := Block(0, 8, Fill(v)), Block(1, 4, Fill(w));
    QueueInOrder([], a, 4);
    QueueInOrder([a], b, 4);
    assert [a] + [b] == [a, b] && !Mergeable(a, b, 4);
    assert [a, b][0] == a && [a, b][1] == b;
  }

  /** The last fill is read at block 1, inside the first one: the file is accepted with overlapping extents. */
  lemma OverlapAccepted(v: u32, w: u32, fd: nat)
    ensures Import(TwoLaps(v, w), fd, false) == Ok(Imported(4, 8, [Block(0, 8, Fill(v)), Block(1, 4, Fill(w))]))
    ensures !Sorted([Block(0, 8, Fill(v)), Block(1, 4, Fill(w))], 4)
  {
    var f := TwoLaps(v, w);
    SixParts(SparseHeader(4, 2, 5), FillBytes(2, v), SkipBytes(INT_MAX), SkipBytes(INT_MAX), SkipBytes(1),
      FillBytes(1, w));
    TwoLapsList(v, w);
    var inp := Input(fd, f, 4, CHUNK_HEADER_LEN, false);
    var a, b := Block(0, 8, Fill(v)), Block(1, 4, Fill(w));
    hide Holds, Queue, SkipBytes, FillBytes, TwoLaps, SparseHeader, Steps, Sorted, Import, Unused;
    Alone(0);
    FillRead(inp, Reader(28, 0, 0, []), 2, v, Reader(44, 2, 0, [a]), 5);
    SkipRead(inp, Reader(44, 2, 0, [a]), INT_MAX, Reader(56, 0x8000_0001, 0, [a]), 4);
    SkipRead(inp, Reader(56, 0x8000_0001, 0, [a]), INT_MAX, Reader(68, 0, 0, [a]), 3);
    SkipRead(inp, Reader(68, 0, 0, [a]), 1, Reader(80, 1, 0, [a]), 2);
    FillRead(inp, Reader(80, 1, 0, [a]), 1, w, Reader(96, 2, 0, [a, b]), 1);
    NoSteps(inp, Reader(96, 2, 0, [a, b]));
    Accepted(f, fd, 4, 2, 5, Reader(96, 2, 0, [a, b]));
  }

  lemma Alone(k: nat)
    ensures Unused([], k)
  {
  }

  lemma NoSteps(inp: Input, r: Reader)
    ensures Steps(inp, r, 0) == Ok(r)
  {
  }

  /** Holes of 2^32 - 2 blocks, two blocks filled, one block filled. */
  function FarBlock(v: u32, w: u32): seq<byte> {
    SparseHeader(4, 1, 4) + SkipBytes(INT_MAX) + SkipBytes(INT_MAX) + FillBytes(2, v) + FillBytes(1, w)
  }

  lemma FarBlockList(v: u32, w: u32)
    ensures var a, b := Block(0xFFFF_FFFE, 8, Fill(v)), Block(0, 4, Fill(w));
      Unused([a], 0) && Queue([], a, 4) == [a] && Queue([a], b, 4) == [b, a] && End(a, 4) == U32
  {
    var a, b := Block(0xFFFF_FFFE, 8, Fill(v)), Block(0, 4, Fill(w));
    QueueInOrder([], a, 4);
    assert InsertPos([a], 0) == 0 && Insert([a], b) == [b, a];
  }

  /** A file of one block is accepted with an extent at block 0xFFFFFFFE. */
  lemma OutsideAccepted(v: u32, w: u32, fd: nat)
    ensures var far := Block(0xFFFF_FFFE, 8, Fill(v));
      Import(FarBlock(v, w), fd, false) == Ok(Imported(4, 4, [Block(0, 4, Fill(w)), far])) && End(far, 4) == U32
  {
    var f := FarBlock(v, w);
    SixParts(SparseHeader(4, 1, 4), SkipBytes(INT_MAX), SkipBytes(INT_MAX), FillBytes(2, v), FillBytes(1, w), []);
    assert f + [] == f;
    FarBlockList(v, w);
    var inp := Input(fd, f, 4, CHUNK_HEADER_LEN, false);
    var a, b := Block(0xFFFF_FFFE, 8, Fill(v)), Block(0, 4, Fill(w));
    hide Holds, Queue, SkipBytes, FillBytes, FarBlock, SparseHeader, Steps, Import, Unused, End;
    Alone(0xFFFF_FFFE);
    SkipRead(inp, Reader(28, 0, 0, []), INT_MAX, Reader(40, 0x7FFF_FFFF, 0, []), 4);
    SkipRead(inp, Reader(40, 0x7FFF_FFFF, 0, []), INT_MAX, Reader(52, 0xFFFF_FFFE, 0, []), 3);
    FillRead(inp, Reader(52, 0xFFFF_FFFE, 0, []), 2, v, Reader(68, 0, 0, [a]), 2);
    FillRead(inp, Reader(68, 0, 0, [a]), 1, w, Reader(84, 1, 0, [b, a]), 1);
    NoSteps(inp, Reader(84, 1, 0, [b, a]));
    Accepted(f, fd, 4, 1, 4, Reader(84, 1, 0, [b, a]));
  }

  /** A header alone is accepted with a block size of zero. */
  lemma ZeroBlockSizeAccepted(fd: nat)
    ensures Import(SparseHeader(0, 0, 0), fd, false) == Ok(Imported(0, 0, []))
  {
    var f := SparseHeader(0, 0, 0);
    HoldsAll(f);
    hide SparseHeader, Import;
    NoSteps(Input(fd, f, 0, CHUNK_HEADER_LEN, false), Reader(SPARSE_HEADER_LEN, 0, 0, []));
    Accepted(f, fd, 0, 0, 0, Reader(SPARSE_HEADER_LEN, 0, 0, []));
  }
}
