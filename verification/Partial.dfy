/** Images that are not a whole number of blocks, and the limits of the writer's CRC. */
module Partial {
  import opened Defs
  import opened Image
  import opened Crc32
  import opened OutputFile
  import opened SparseFile
  import opened Encode
  import opened SparseRead
  import opened RoundTrip

  /** The assertion of write_all_blocks fails exactly when the last extent ends in the partial block. */
  lemma PartialAborts(l: seq<Block>, bs: nat, len: nat, c: bool, sink: Sink, st: Store)
    requires WellFormed(l, bs, len) && len % bs != 0
    ensures Written(l, Config(true, c, bs, len), sink, st).None? <==> LastBlock(l, 0, bs) == DivRoundUp(len, bs)
  {
    hide *;
    WellFormedSize(l, bs, len);
    PadWithin(l, bs, len);
    SparseWrites(l, bs, len, c, sink, st);
  }

  /** When the hole at the end is not a whole number of blocks its chunk is missing. */
  lemma NoTail(l: seq<Block>, bs: nat, len: nat, c: bool, st: Store)
    requires 0 < bs && len % bs != 0
    ensures Encoded(l, bs, len, c, st) == SparseHeader(bs, len / bs, CountChunks(l, 0, bs, len) + (if c then 1 else 0))
      + BlocksBytes(l, 0, bs, st) + (if c then CrcBytes(HashBlocks(0, l, bs, st)) else [])
  {
    hide SparseHeader, BlocksBytes, CrcBytes, HashBlocks, CountChunks;
  }

  /** The file without the chunk for its last hole, as the reader meets it. */
  ghost predicate PartialFile(f: seq<byte>, l: seq<Block>, bs: nat, c: bool, st: Store)
    requires 0 < bs
  {
    var b := BlocksBytes(l, 0, bs, st);
    && HeaderOk(f) && BlkSz(f) == bs && TotalChunks(f) == CountChunks(l, 0, bs, 0) + 1 + (if c then 1 else 0)
    && FileHdrSz(f) == SPARSE_HEADER_LEN && ChunkHdrSz(f) == CHUNK_HEADER_LEN
    && |f| == SPARSE_HEADER_LEN + |b| + (if c then CHUNK_HEADER_LEN + 4 else 0)
    && Holds(f, SPARSE_HEADER_LEN, b) && (c ==> Holds(f, SPARSE_HEADER_LEN + |b|, CrcBytes(HashBlocks(0, l, bs, st))))
  }

  lemma PartialHeader(l: seq<Block>, bs: nat, len: nat)
    requires WellFormed(l, bs, len) && len % bs != 0 && LastBlock(l, 0, bs) < DivRoundUp(len, bs)
    ensures CountChunks(l, 0, bs, len) == CountChunks(l, 0, bs, 0) + 1
    ensures 0 <= len / bs < U32 && 0 < bs < U32 && CountChunks(l, 0, bs, len) + 1 < U32
  {
    CountTail(l, 0, bs, len);
    PartialCounts(l, bs, len);
    hide CountChunks, LastBlock, DivRoundUp;
  }

  /** The reader meets the blocks of l in a file written for m when both have the same chunks. */
  lemma ReadsEncoded(l: seq<Block>, m: seq<Block>, bs: nat, len: nat, c: bool, st: Store)
    requires 0 < bs < U32 && 0 <= len / bs < U32 && len % bs != 0 && CountChunks(m, 0, bs, len) + 1 < U32
    requires CountChunks(m, 0, bs, len) == CountChunks(l, 0, bs, 0) + 1
    requires BlocksBytes(m, 0, bs, st) == BlocksBytes(l, 0, bs, st)
    requires c ==> HashBlocks(0, m, bs, st) == HashBlocks(0, l, bs, st)
    ensures PartialFile(Encoded(m, bs, len, c, st), l, bs, c, st)
  {
    hide *;
    WordSizes(bs, len / bs, CountChunks(m, 0, bs, len) + 1);
    var f := Encoded(m, bs, len, c, st);
    var n := CountChunks(m, 0, bs, len) + (if c then 1 else 0);
    var b, e := BlocksBytes(m, 0, bs, st), if c then CrcBytes(HashBlocks(0, m, bs, st)) else [];
    var h := SparseHeader(bs, len / bs, n);
    NoTail(m, bs, len, c, st);
    HoldsThree(h, b, e);
    HeaderFields(f, bs, len / bs, n);
    CrcBytesSize(HashBlocks(0, m, bs, st));
    PartialFileIs(f, l, bs, c, st);
  }

  lemma WordSizes(x: int, y: int, z: int)
    requires 0 <= x < U32 && 0 <= y < U32 && 0 <= z < U32
    ensures x < 0x1_0000_0000 && y < 0x1_0000_0000 && z < 0x1_0000_0000
  {
  }

  lemma CrcBytesSize(h: bv32)
    ensures |CrcBytes(h)| == CHUNK_HEADER_LEN + 4
  {
  }

  lemma PartialFileIs(f: seq<byte>, l: seq<Block>, bs: nat, c: bool, st: Store)
    requires 0 < bs
    ensures PartialFile(f, l, bs, c, st) <==>
      var b := BlocksBytes(l, 0, bs, st);
      && HeaderOk(f) && BlkSz(f) == bs && TotalChunks(f) == CountChunks(l, 0, bs, 0) + 1 + (if c then 1 else 0)
      && FileHdrSz(f) == SPARSE_HEADER_LEN && ChunkHdrSz(f) == CHUNK_HEADER_LEN
      && |f| == SPARSE_HEADER_LEN + |b| + (if c then CHUNK_HEADER_LEN + 4 else 0)
      && Holds(f, SPARSE_HEADER_LEN, b) && (c ==> Holds(f, SPARSE_HEADER_LEN + |b|, CrcBytes(HashBlocks(0, l, bs, st))))
  {
    hide HeaderOk, BlkSz, TotalChunks, FileHdrSz, ChunkHdrSz, Holds, BlocksBytes, CountChunks, HashBlocks, CrcBytes;
  }

  lemma HoldsThree(h: seq<byte>, b: seq<byte>, e: seq<byte>)
    ensures Holds(h + b + e, 0, h) && Holds(h + b + e, |h|, b) && Holds(h + b + e, |h| + |b|, e)
  {
    FourParts(h, b, [], e);
    assert h + b + [] + e == h + b + e;
  }

  lemma RoundedBlocks(len: nat, bs: nat)
    requires 0 < bs && bs % 4 == 0 && Align(len, bs) + bs <= U32
    ensures 0 <= len / bs <= DivRoundUp(len, bs) <= INT_MAX && DivRoundUp(len, bs) * bs < U32
  {
    AlignBounds(len, bs);
    QuotientSmall(Align(len, bs), bs);
    RoundUpParts(len, bs);
    QuotientBound(len, bs);
  }

  lemma PartialCounts(l: seq<Block>, bs: nat, len: nat)
    requires WellFormed(l, bs, len)
    ensures 0 <= len / bs <= INT_MAX && Decodable(l, bs) && LastBlock(l, 0, bs) <= INT_MAX
    ensures CountChunks(l, 0, bs, len) < INT_MAX + 2
  {
    RoundedBlocks(len, bs);
    WellFormedAll(l, bs, len);
    CountTail(l, 0, bs, len);
    ChunksBelow(l, 0, bs);
    LastBlockBound(l, 0, bs, DivRoundUp(len, bs));
    hide DivRoundUp, Align, CountChunks, LastBlock;
    forall i | 0 <= i < |l|
      ensures End(l[i], bs) <= INT_MAX && End(l[i], bs) * bs < U32
    {
      MulMono(End(l[i], bs), DivRoundUp(len, bs), bs);
    }
  }

  lemma EndOfFile(inp: Input, r: Reader)
    requires 0 < inp.bs && r.pos == |inp.f|
    ensures Steps(inp, r, 1) == Invalid
  {
    assert Step(inp, r) == Invalid;
    hide Step;
  }

  /** One chunk is expected where the file ends. */
  lemma MissingChunk(inp: Input, r0: Reader, r: Reader, n: nat, c: bool, h: bv32)
    requires 0 < inp.bs && inp.hdrSz == CHUNK_HEADER_LEN && Leads(inp, r0, r, n)
    requires r.pos + (if c then CHUNK_HEADER_LEN + 4 else 0) == |inp.f| && (c ==> Holds(inp.f, r.pos, CrcBytes(h)))
    ensures Steps(inp, r0, n + 1 + (if c then 1 else 0)) == Invalid
  {
    if c {
      StepCrcChunk(inp, r, h);
      hide Step;
      assert Steps(inp, r0, n + 2) == Steps(inp, r, 2);
      if Step(inp, r).Ok? {
        EndOfFile(inp, Step(inp, r).value);
        assert Steps(inp, r, 2) == Steps(inp, Step(inp, r).value, 1);
      }
    } else {
      hide Step;
      assert Steps(inp, r0, n + 1) == Steps(inp, r, 1);
      EndOfFile(inp, r);
    }
  }

  lemma PartialSteps(inp: Input, r0: Reader, l: seq<Block>, c: bool, st: Store, st': Store)
    requires Reads(inp, st') && Decodable(l, inp.bs) && AllWritable(l, inp.bs) && LastBlock(l, 0, inp.bs) <= INT_MAX
    requires PartialFile(inp.f, l, inp.bs, c, st) && r0.pos == SPARSE_HEADER_LEN && r0.cur == 0 && r0.l == []
    ensures Steps(inp, r0, TotalChunks(inp.f)) == Invalid
  {
    hide *;
    ReadsGives(inp, st');
    var last := LastBlock(l, 0, inp.bs);
    PartialTail(inp.f, l, inp.bs, c, st);
    var n := CountChunks(l, 0, inp.bs, 0);
    var r := DecodeBody(inp, r0, l, last, st, st');
    MissingChunk(inp, r0, r, n, c, HashBlocks(0, l, inp.bs, st));
  }

  lemma PartialTail(f: seq<byte>, l: seq<Block>, bs: nat, c: bool, st: Store)
    requires 0 < bs && PartialFile(f, l, bs, c, st)
    ensures var b, last := BlocksBytes(l, 0, bs, st), LastBlock(l, 0, bs);
      && |HoleBytes(last, last)| == HoleChunks(last, last) == 0
      && Holds(f, SPARSE_HEADER_LEN + |b|, HoleBytes(last, last))
      && |f| == SPARSE_HEADER_LEN + |b| + (if c then CHUNK_HEADER_LEN + 4 else 0)
      && TotalChunks(f) == CountChunks(l, 0, bs, 0) + 1 + (if c then 1 else 0)
      && Holds(f, SPARSE_HEADER_LEN, b) && (c ==> Holds(f, SPARSE_HEADER_LEN + |b|, CrcBytes(HashBlocks(0, l, bs, st))))
  {
    hide CountChunks, BlocksBytes, HashBlocks, LastBlock, CrcBytes, HeaderOk, BlkSz, TotalChunks, FileHdrSz, ChunkHdrSz;
  }

  /** The reader finds one chunk fewer than the header promises. */
  lemma PartialRefused(f: seq<byte>, l: seq<Block>, bs: nat, c: bool, u: bool, fd: nat, st: Store)
    requires 0 < bs && bs % 4 == 0 && PartialFile(f, l, bs, c, st)
    requires Decodable(l, bs) && LastBlock(l, 0, bs) <= INT_MAX
    ensures Import(f, fd, u) == Invalid
  {
    var st' := Store(map[fd := f], map[]);
    assert AllWritable(l, bs);
    hide Holds, BlocksBytes, CountChunks, LastBlock, Decodable, AllWritable;
    hide Steps, HashBlocks, HeaderOk, BlkSz, TotalChunks, FileHdrSz, ChunkHdrSz;
    PartialSteps(InputOf(f, fd, u), StartOf(f), l, c, st, st');
  }

  lemma PartialNotImported(l: seq<Block>, bs: nat, len: nat, c: bool, u: bool, fd: nat, st: Store)
    requires WellFormed(l, bs, len) && len % bs != 0 && LastBlock(l, 0, bs) < DivRoundUp(len, bs)
    ensures Import(Encoded(l, bs, len, c, st), fd, u) == Invalid
  {
    hide *;
    WellFormedSize(l, bs, len);
    PartialHeader(l, bs, len);
    PartialCounts(l, bs, len);
    ReadsEncoded(l, l, bs, len, c, st);
    PartialRefused(Encoded(l, bs, len, c, st), l, bs, c, u, fd, st);
  }

  /** Writing an image and importing the file works exactly when the image is a whole number of blocks. */
  lemma WriteThenImport(l: seq<Block>, bs: nat, len: nat, c: bool, fd: nat, st: Store)
    requires WellFormed(l, bs, len)
    ensures var w := Written(l, Config(true, c, bs, len), FileSink([], 0), st);
      (w.Some? && w.value.sink.FileSink? && Import(w.value.sink.bytes, fd, false).Ok?) <==> len % bs == 0
  {
    hide *;
    WellFormedSize(l, bs, len);
    if len % bs == 0 {
      WholeImports(l, bs, len, c, fd, st);
    } else {
      PartialAborts(l, bs, len, c, FileSink([], 0), st);
      PadWithin(l, bs, len);
      if LastBlock(l, 0, bs) != DivRoundUp(len, bs) {
        SparseWrites(l, bs, len, c, FileSink([], 0), st);
        PutFresh(Encoded(l, bs, len, c, st));
        PartialNotImported(l, bs, len, c, false, fd, st);
        assert !ReadResult<Imported>.Invalid.Ok?;
      }
    }
  }

  lemma WholeImports(l: seq<Block>, bs: nat, len: nat, c: bool, fd: nat, st: Store)
    requires WellFormed(l, bs, len) && len % bs == 0
    ensures var w := Written(l, Config(true, c, bs, len), FileSink([], 0), st);
      w.Some? && w.value.sink.FileSink? && Import(w.value.sink.bytes, fd, false).Ok?
  {
    WellFormedSize(l, bs, len);
    hide Written, Import, WellFormed, Encoded, Put;
    var f := Encoded(l, bs, len, c, st);
    SparseWrites(l, bs, len, c, FileSink([], 0), st);
    PutFresh(f);
    ImportOfWritten(l, bs, len, c, false, fd, st, Store(map[fd := f], map[]));
  }

  lemma PatternIsZero(val: u32)
    ensures (forall i :: 0 <= i < 4 ==> Le32(val)[i] == 0) <==> val == 0
  {
    if forall i :: 0 <= i < 4 ==> Le32(val)[i] == 0 {
      assert Le32(val)[0] == 0 && Le32(val)[1] == 0 && Le32(val)[2] == 0 && Le32(val)[3] == 0;
    }
  }

  lemma FourApart(a: nat, b: nat, i: nat)
    requires a % 4 == 0 && b % 4 == 0 && a < b && i < 4
    ensures a + i < b && (a + i) % 4 == i
  {
  }

  lemma FillAt(b: Block, bs: nat, st: Store, k: nat)
    requires b.src.Fill?
    ensures 0 <= Start(b, bs)
    ensures Lookup([b], bs, st, Start(b, bs) + k) == if k < b.len then Some(Le32(b.src.val)[k % 4]) else None
  {
    LookupOne(b, bs, st, Start(b, bs) + k);
  }

  /** The bytes of the pattern between the end of a fill and the end of its last block are zero. */
  predicate PadsWithZero(b: Block, bs: nat)
    requires 0 < bs && b.src.Fill?
  {
    var pattern := Pattern(b.src.val, Align(b.len, bs));
    forall i :: b.len <= i < |pattern| ==> pattern[i] == 0
  }

  /**
   * The library promises that a fill which ends inside a block is padded with zeros. The chunk written for it
   * is read back as whole blocks of the pattern, so the promise is kept only where the pattern is zero there.
   */
  lemma FillPadding(b: Block, bs: nat, st: Store)
    requires 0 < bs && bs % 4 == 0 && b.src.Fill? && Writable(b, bs)
    ensures (forall p: nat ::
              GetOr(Lookup([Reread(b, bs, 0, 0)], bs, st, p), 0) == GetOr(Lookup([b], bs, st, p), 0))
        <==> PadsWithZero(b, bs)
  {
    var r, pattern := Reread(b, bs, 0, 0), Pattern(b.src.val, Align(b.len, bs));
    AlignBounds(b.len, bs);
    hide Align, DivRoundUp, Le32, Lookup;
    if !PadsWithZero(b, bs) {
      var i :| b.len <= i < |pattern| && pattern[i] != 0;
      FillAt(r, bs, st, i);
      FillAt(b, bs, st, i);
    } else {
      forall p: nat
        ensures GetOr(Lookup([r], bs, st, p), 0) == GetOr(Lookup([b], bs, st, p), 0)
      {
        LookupOne(r, bs, st, p);
        LookupOne(b, bs, st, p);
        assert Covers(r, bs, p) ==> pattern[p - Start(r, bs)] == SrcByte(r.src, st, p - Start(r, bs));
      }
    }
  }

  /** For fills of whole words: only whole blocks and the value zero keep it. */
  lemma WordFillPadding(b: Block, bs: nat)
    requires 0 < bs && bs % 4 == 0 && b.src.Fill? && b.len % 4 == 0
    ensures PadsWithZero(b, bs) <==> b.len % bs == 0 || b.src.val == 0
  {
    var val, pattern := b.src.val, Pattern(b.src.val, Align(b.len, bs));
    AlignBounds(b.len, bs);
    PatternIsZero(val);
    hide Align, DivRoundUp, Le32;
    if b.len % bs != 0 && val != 0 {
      var i :| 0 <= i < 4 && Le32(val)[i] != 0;
      MultipleOfFour(Align(b.len, bs), bs);
      FourApart(b.len, Align(b.len, bs), i);
      assert pattern[b.len + i] != 0;
    }
  }

  /** Half a block filled with ones: the other half is read as ones too. */
  lemma PaddingNotZero(st: Store)
    ensures var b := Block(0, 4, Fill(0xFFFF_FFFF));
      && Writable(b, 8) && Lookup([b], 8, st, 4) == None && Lookup([Reread(b, 8, 0, 0)], 8, st, 4) == Some(0xFF)
  {
    var b := Block(0, 4, Fill(0xFFFF_FFFF));
    DivModUnique(11, 8, 1, 3);
    FillAt(b, 8, st, 4);
    FillAt(Reread(b, 8, 0, 0), 8, st, 4);
  }

  // ---- where the writer's CRC is that of the image ----

  /** No holes, and no fill of more than one block. */
  predicate Hashable(l: seq<Block>, last: nat, bs: nat)
    requires 0 < bs
  {
    l == [] || (l[0].block == last && (l[0].src.Fill? ==> l[0].len == bs) && Hashable(l[1..], End(l[0], bs), bs))
  }

  function HashedAll(l: seq<Block>, bs: nat, st: Store): seq<byte>
    requires 0 < bs
  {
    if l == [] then [] else Hashed(l[0], bs, st) + HashedAll(l[1..], bs, st)
  }

  lemma {:induction false} HashBlocksConcat(x: seq<byte>, l: seq<Block>, bs: nat, st: Store)
    requires 0 < bs
    ensures HashBlocks(Crc(0, x), l, bs, st) == Crc(0, x + HashedAll(l, bs, st))
    decreases |l|
  {
    hide Crc, Hashed;
    if l == [] {
      assert x + [] == x;
    } else {
      var h, rest := Hashed(l[0], bs, st), HashedAll(l[1..], bs, st);
      CrcConcat(0, x, h);
      HashBlocksConcat(x + h, l[1..], bs, st);
      assert x + h + rest == x + (h + rest);
    }
  }

  lemma HashedOne(b: Block, bs: nat, st: Store, k: nat)
    requires 0 < bs && 0 < b.len && (b.src.Fill? ==> b.len == bs) && k < Align(b.len, bs)
    ensures |Hashed(b, bs, st)| == Align(b.len, bs)
    ensures Hashed(b, bs, st)[k] == GetOr(Lookup([b], bs, st, Start(b, bs) + k), 0)
  {
    AlignBounds(b.len, bs);
    if b.src.Fill? {
      DivModUnique(bs, bs, 1, 0);
    }
    LookupOne(b, bs, st, Start(b, bs) + k);
  }

  /** t is what l denotes from position start on. */
  ghost predicate ImageFrom(t: seq<byte>, l: seq<Block>, bs: nat, st: Store, start: nat) {
    forall k: nat :: k < |t| ==> t[k] == GetOr(Lookup(l, bs, st, start + k), 0)
  }

  lemma HashedByte(b: Block, rest: seq<Block>, t: seq<byte>, bs: nat, st: Store, k: nat)
    requires 0 < bs && 0 < b.len && (b.src.Fill? ==> b.len == bs) && Sorted([b] + rest, bs)
    requires 0 <= End(b, bs) * bs && ImageFrom(t, rest, bs, st, End(b, bs) * bs)
    requires k < |Hashed(b, bs, st) + t|
    ensures 0 <= Start(b, bs)
    ensures (Hashed(b, bs, st) + t)[k] == GetOr(Lookup([b] + rest, bs, st, Start(b, bs) + k), 0)
  {
    var h, p := Hashed(b, bs, st), Start(b, bs) + k;
    AlignBounds(b.len, bs);
    EndParts(b, 0, bs);
    HashedOne(b, bs, st, 0);
    hide Hashed, Lookup, Sorted, DivRoundUp, Align, End;
    LookupConcat([b], rest, bs, st, p);
    if k < |h| {
      HashedOne(b, bs, st, k);
      BeforeRest(b, rest, bs, st, p);
    } else {
      LookupOne(b, bs, st, p);
      assert (h + t)[k] == t[k - |h|];
      assert p == End(b, bs) * bs + (k - |h|);
    }
  }

  lemma HashedStep(b: Block, rest: seq<Block>, t: seq<byte>, bs: nat, st: Store)
    requires 0 < bs && 0 < b.len && (b.src.Fill? ==> b.len == bs) && Sorted([b] + rest, bs)
    requires 0 <= End(b, bs) * bs && ImageFrom(t, rest, bs, st, End(b, bs) * bs)
    ensures 0 <= Start(b, bs) && Start(b, bs) + |Hashed(b, bs, st)| == End(b, bs) * bs
    ensures ImageFrom(Hashed(b, bs, st) + t, [b] + rest, bs, st, Start(b, bs))
  {
    AlignBounds(b.len, bs);
    EndParts(b, 0, bs);
    HashedOne(b, bs, st, 0);
    hide Hashed, Lookup, Sorted, DivRoundUp, Align, End;
    forall k: nat | k < |Hashed(b, bs, st) + t|
      ensures (Hashed(b, bs, st) + t)[k] == GetOr(Lookup([b] + rest, bs, st, Start(b, bs) + k), 0)
    {
      HashedByte(b, rest, t, bs, st, k);
    }
  }

  /** The hashed bytes of a gap-free list are its image. */
  lemma {:induction false} HashedIsImage(l: seq<Block>, last: nat, bs: nat, st: Store)
    requires 0 < bs && Hashable(l, last, bs) && Sorted(l, bs) && forall i :: 0 <= i < |l| ==> 0 < l[i].len
    ensures 0 <= last * bs && last * bs + |HashedAll(l, bs, st)| == LastBlock(l, last, bs) * bs
    ensures ImageFrom(HashedAll(l, bs, st), l, bs, st, last * bs)
    decreases |l|
  {
    MulMono(0, last, bs);
    if l != [] {
      var b, rest := l[0], l[1..];
      TailSorted(l, bs);
      assert forall i :: 0 <= i < |rest| ==> rest[i] == l[i + 1];
      hide Hashed, Sorted, DivRoundUp, Align, End, Lookup, ImageFrom;
      HashedIsImage(rest, End(b, bs), bs, st);
      assert [b] + rest == l;
      HashedStep(b, rest, HashedAll(rest, bs, st), bs, st);
    }
  }

  lemma BeforeRest(b: Block, rest: seq<Block>, bs: nat, st: Store, p: nat)
    requires 0 < bs && Sorted([b] + rest, bs) && p < Start(b, bs) + Align(b.len, bs)
    ensures Lookup(rest, bs, st, p).None?
  {
    LookupHole(rest, bs, st, p);
    forall i | 0 <= i < |rest|
      ensures !Covers(rest[i], bs, p)
    {
      assert ([b] + rest)[0] == b && ([b] + rest)[i + 1] == rest[i];
      ExtentsApart(b, rest[i], bs, p);
    }
  }

  lemma HashedIsExpansion(l: seq<Block>, bs: nat, st: Store)
    requires 0 < bs && Hashable(l, 0, bs) && Sorted(l, bs) && forall i :: 0 <= i < |l| ==> 0 < l[i].len
    ensures 0 <= LastBlock(l, 0, bs) * bs && HashedAll(l, bs, st) == Expand(l, bs, st, LastBlock(l, 0, bs) * bs)
  {
    HashedIsImage(l, 0, bs, st);
    hide HashedAll, Lookup, Hashable, LastBlock, DivRoundUp;
  }

  /** A fill is hashed as one block, whatever its length; other extents as what they occupy. */
  lemma HashedLength(b: Block, bs: nat, st: Store)
    requires 0 < bs && 0 < b.len && (b.src.Fill? ==> b.len % bs == 0)
    ensures |Hashed(b, bs, st)| <= DivRoundUp(b.len, bs) * bs
    ensures |Hashed(b, bs, st)| == DivRoundUp(b.len, bs) * bs <==> (b.src.Fill? ==> b.len == bs)
  {
    AlignBounds(b.len, bs);
  }

  /** The hashed bytes fall short of the image by every gap and every further block of a fill. */
  lemma {:induction false} HashedShort(l: seq<Block>, last: nat, bs: nat, st: Store)
    requires 0 < bs && Sorted(l, bs) && From(l, last) && FillsWhole(l, bs) && Positive(l)
    ensures last * bs + |HashedAll(l, bs, st)| <= LastBlock(l, last, bs) * bs
    ensures last * bs + |HashedAll(l, bs, st)| == LastBlock(l, last, bs) * bs ==> Hashable(l, last, bs)
    decreases |l|
  {
    if l != [] {
      var b, rest := l[0], l[1..];
      TailSorted(l, bs);
      assert forall i :: 0 <= i < |rest| ==> rest[i] == l[i + 1];
      hide Hashed, Sorted, DivRoundUp;
      HashedLength(b, bs, st);
      HashedShort(rest, End(b, bs), bs, st);
      Distribute(b.block, DivRoundUp(b.len, bs), bs);
      MulMono(b.block, last, bs);
      MulMono(last, b.block, bs);
    }
  }

  lemma WellFormedParts(l: seq<Block>, bs: nat, len: nat)
    requires WellFormed(l, bs, len)
    ensures 0 < bs && InImage(l, bs, len) && Sorted(l, bs) && From(l, 0) && FillsWhole(l, bs) && Positive(l)
    ensures len == (len / bs) * bs + len % bs
  {
  }

  lemma PositiveLengths(l: seq<Block>)
    requires Positive(l)
    ensures forall i :: 0 <= i < |l| ==> 0 < l[i].len
  {
  }

  lemma HashedFull(l: seq<Block>, bs: nat, len: nat, st: Store)
    requires WellFormed(l, bs, len) && len % bs == 0
    ensures |HashedAll(l, bs, st)| == len ==> Hashable(l, 0, bs) && LastBlock(l, 0, bs) == len / bs
  {
    hide *;
    WellFormedParts(l, bs, len);
    PadWithin(l, bs, len);
    HashedShort(l, 0, bs, st);
    MulMono(len / bs, LastBlock(l, 0, bs), bs);
  }

  lemma HashedIsExpansionOf(l: seq<Block>, bs: nat, len: nat, st: Store)
    requires WellFormed(l, bs, len) && len % bs == 0 && Hashable(l, 0, bs) && LastBlock(l, 0, bs) == len / bs
    ensures HashedAll(l, bs, st) == Expand(l, bs, st, len)
  {
    hide *;
    WellFormedParts(l, bs, len);
    PositiveLengths(l);
    HashedIsExpansion(l, bs, st);
  }

  /**
   * The writer hashes the expanded image exactly when there is no hole, no fill of more than one block, and
   * nothing missing at the end.
   */
  lemma HashedExactly(l: seq<Block>, bs: nat, len: nat, st: Store)
    requires WellFormed(l, bs, len) && len % bs == 0
    ensures HashedAll(l, bs, st) == Expand(l, bs, st, len) <==> Hashable(l, 0, bs) && LastBlock(l, 0, bs) == len / bs
  {
    hide *;
    WellFormedParts(l, bs, len);
    HashedFull(l, bs, len, st);
    if Hashable(l, 0, bs) && LastBlock(l, 0, bs) == len / bs {
      HashedIsExpansionOf(l, bs, len, st);
    }
    assert |Expand(l, bs, st, len)| == len;
  }

  /** The CRC that the writer stores is that of the bytes it hashed. */
  lemma StoredCrc(l: seq<Block>, bs: nat, st: Store)
    requires 0 < bs
    ensures HashBlocks(0, l, bs, st) == Crc(0, HashedAll(l, bs, st))
  {
    ComplementTwice(0);
    assert Crc(0, []) == 0;
    hide Crc;
    HashBlocksConcat([], l, bs, st);
    assert [] + HashedAll(l, bs, st) == HashedAll(l, bs, st);
  }

  /** For an image without holes whose fills are single blocks, the writer's CRC is accepted by the reader. */
  lemma GapFreeCrc(l: seq<Block>, bs: nat, len: nat, st: Store)
    requires WellFormed(l, bs, len) && len % bs == 0 && Hashable(l, 0, bs) && LastBlock(l, 0, bs) == len / bs
    ensures CrcAccepted(l, bs, len, true, true, st)
  {
    hide Crc, CrcField, HashedAll, Expand, HashBlocks;
    HashedExactly(l, bs, len, st);
    StoredCrc(l, bs, st);
  }

  lemma EmptyImage()
    ensures WellFormed([], 4, 4)
  {
  }

  /** A hole is read as zeros but never hashed by the writer: a file with CRC of one empty block is refused. */
  lemma HoleCrcRefused(st: Store)
    ensures WellFormed([], 4, 4) && !CrcAccepted([], 4, 4, true, true, st)
    ensures Import(Encoded([], 4, 4, true, st), 0, true) == Invalid
  {
    assert Expand([], 4, st, 4) == [0, 0, 0, 0];
    FourZeros();
    assert CrcField(0x2144_DF1C)[0] != CrcField(0)[0];
    EmptyImage();
    hide Crc, CrcField, Expand, Encoded, HeaderOk, Steps, WellFormed;
    var f := Encoded([], 4, 4, true, st);
    var r := ImportChunks([], 4, 4, true, true, 0, st, Store(map[0 := f], map[]));
  }
}
