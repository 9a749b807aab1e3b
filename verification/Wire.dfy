/** The sparse format byte for byte: a file that is written and a file that is read. */
module Wire {
  import opened Defs
  import opened Image
  import opened Crc32
  import opened BackedBlock
  import opened OutputFile
  import opened SparseFile
  import opened Encode
  import opened SparseRead
  import opened RoundTrip
  import opened Sparsify
  import opened Reassemble
  import opened Append
  import opened Tools

  // ---- CRCs of the data below ----

  lemma FillDigitsFirst()
    ensures Bits8(Xor(0xFFFF_FFFF, AsBv(0x44))) == 0x5C4C_95FB && Bits8(Xor(0x5C4C_95FB, AsBv(0x33))) == 0x95E3_0617
  {
  }

  lemma FillDigitsLast()
    ensures Bits8(Xor(0x95E3_0617, AsBv(0x22))) == 0x5626_2725 && Bits8(Xor(0x5626_2725, AsBv(0x11))) == 0x21E2_D292
  {
  }

  lemma FillDigits()
    ensures Bits8(Xor(0xFFFF_FFFF, AsBv(0x44))) == 0x5C4C_95FB && Bits8(Xor(0x5C4C_95FB, AsBv(0x33))) == 0x95E3_0617
    ensures Bits8(Xor(0x95E3_0617, AsBv(0x22))) == 0x5626_2725 && Bits8(Xor(0x5626_2725, AsBv(0x11))) == 0x21E2_D292
  {
    hide *;
    FillDigitsFirst();
    FillDigitsLast();
  }

  lemma DataDigitsFirst()
    ensures Bits8(Xor(0x21E2_D292, AsBv(0xA1))) == 0xBFF1_83C4 && Bits8(Xor(0xBFF1_83C4, AsBv(0xA2))) == 0xA46E_35EE
  {
  }

  lemma DataDigitsLast()
    ensures Bits8(Xor(0xA46E_35EE, AsBv(0xA3))) == 0x08C9_5318 && Bits8(Xor(0x08C9_5318, AsBv(0xA4))) == 0xC2DF_36F4
  {
  }

  lemma DataDigits()
    ensures Bits8(Xor(0x21E2_D292, AsBv(0xA1))) == 0xBFF1_83C4 && Bits8(Xor(0xBFF1_83C4, AsBv(0xA2))) == 0xA46E_35EE
    ensures Bits8(Xor(0xA46E_35EE, AsBv(0xA3))) == 0x08C9_5318 && Bits8(Xor(0x08C9_5318, AsBv(0xA4))) == 0xC2DF_36F4
  {
    hide *;
    DataDigitsFirst();
    DataDigitsLast();
  }

  lemma PaddedDigitsFirst()
    ensures Bits8(Xor(0xC2DF_36F4, AsBv(0xA5))) == 0x1CAE_BE54 && Bits8(Xor(0x1CAE_BE54, AsBv(0xA6))) == 0x53AF_3D8E
  {
  }

  lemma PaddedDigitsLast()
    ensures Bits8(Xor(0x53AF_3D8E, AsBv(0xA7))) == 0x42E1_3751 && Bits8(Xor(0x42E1_3751, AsBv(0x00))) == 0x1C2E_8055
  {
  }

  lemma PaddedDigits()
    ensures Bits8(Xor(0xC2DF_36F4, AsBv(0xA5))) == 0x1CAE_BE54 && Bits8(Xor(0x1CAE_BE54, AsBv(0xA6))) == 0x53AF_3D8E
    ensures Bits8(Xor(0x53AF_3D8E, AsBv(0xA7))) == 0x42E1_3751 && Bits8(Xor(0x42E1_3751, AsBv(0x00))) == 0x1C2E_8055
  {
    hide *;
    PaddedDigitsFirst();
    PaddedDigitsLast();
  }

  lemma HoleDigitsFirst()
    ensures Bits8(Xor(0x21E2_D292, AsBv(0x00))) == 0x1E20_10BA && Bits8(Xor(0x1E20_10BA, AsBv(0x00))) == 0x2BAA_7A82
  {
  }

  lemma HoleDigitsLast()
    ensures Bits8(Xor(0x2BAA_7A82, AsBv(0x00))) == 0x039D_4876 && Bits8(Xor(0x039D_4876, AsBv(0x00))) == 0xB965_4941
  {
  }

  lemma HoleDigits()
    ensures Bits8(Xor(0x21E2_D292, AsBv(0x00))) == 0x1E20_10BA && Bits8(Xor(0x1E20_10BA, AsBv(0x00))) == 0x2BAA_7A82
    ensures Bits8(Xor(0x2BAA_7A82, AsBv(0x00))) == 0x039D_4876 && Bits8(Xor(0x039D_4876, AsBv(0x00))) == 0xB965_4941
  {
    hide *;
    HoleDigitsFirst();
    HoleDigitsLast();
  }

  lemma LastDigitsFirst()
    ensures Bits8(Xor(0xB965_4941, AsBv(0xB1))) == 0xBD04_9755 && Bits8(Xor(0xBD04_9755, AsBv(0xB2))) == 0x3ED3_734C
  {
  }

  lemma LastDigitsLast()
    ensures Bits8(Xor(0x3ED3_734C, AsBv(0xB3))) == 0x2D3C_3CFE && Bits8(Xor(0x2D3C_3CFE, AsBv(0xB4))) == 0x9624_94B2
  {
  }

  lemma LastDigits()
    ensures Bits8(Xor(0xB965_4941, AsBv(0xB1))) == 0xBD04_9755 && Bits8(Xor(0xBD04_9755, AsBv(0xB2))) == 0x3ED3_734C
    ensures Bits8(Xor(0x3ED3_734C, AsBv(0xB3))) == 0x2D3C_3CFE && Bits8(Xor(0x2D3C_3CFE, AsBv(0xB4))) == 0x9624_94B2
  {
    hide *;
    LastDigitsFirst();
    LastDigitsLast();
  }

  /** Four bytes fed into a register. */
  lemma FourFed(c: bv32, b0: byte, b1: byte, b2: byte, b3: byte)
    ensures Register(c, [b0, b1, b2, b3]) ==
      Bits8(Xor(Bits8(Xor(Bits8(Xor(Bits8(Xor(c, AsBv(b0))), AsBv(b1))), AsBv(b2))), AsBv(b3)))
  {
    hide Bits8, Xor, AsBv;
    var c1 := Bits8(Xor(c, AsBv(b0)));
    var c2 := Bits8(Xor(c1, AsBv(b1)));
    var c3 := Bits8(Xor(c2, AsBv(b2)));
    RegisterByte(c, b0, [b1, b2, b3]);
    RegisterByte(c1, b1, [b2, b3]);
    RegisterByte(c2, b2, [b3]);
    RegisterByte(c3, b3, []);
    assert [b0] + [b1, b2, b3] == [b0, b1, b2, b3] && [b1] + [b2, b3] == [b1, b2, b3];
    assert [b2] + [b3] == [b2, b3] && [b3] + [] == [b3];
  }

  lemma CrcStep(c: bv32, d: seq<byte>)
    ensures Crc(Complement(c), d) == Complement(Register(c, d))
  {
    ComplementTwice(c);
    hide Complement, Register;
  }

  lemma Literals()
    ensures Complement(0xFFFF_FFFF) == 0 && Complement(0x1C2E_8055) == 0xE3D1_7FAA
    ensures Complement(0x9624_94B2) == 0x69DB_6B4D
    ensures CrcField(0xE3D1_7FAA) == [0xAA, 0x7F, 0xD1, 0xE3] && CrcField(0x69DB_6B4D) == [0x4D, 0x6B, 0xDB, 0x69]
  {
  }

  // ---- a file that is written ----

  /** A hole, a filled block, two blocks of data less one byte, and a hole, in blocks of four bytes. */
  const IMAGE: seq<Block> :=
    [Block(1, 4, Fill(0x1122_3344)), Block(2, 7, Data([0xA1, 0xA2, 0xA3, 0xA4, 0xA5, 0xA6, 0xA7]))]

  lemma HeaderBytesAre()
    ensures SparseHeader(4, 5, 5) ==
      [0x3A, 0xFF, 0x26, 0xED, 1, 0, 0, 0, 28, 0, 12, 0, 4, 0, 0, 0, 5, 0, 0, 0, 5, 0, 0, 0, 0, 0, 0, 0]
  {
  }

  lemma HoleBytesAre()
    ensures SkipBytes(1) == [0xC3, 0xCA, 0, 0, 1, 0, 0, 0, 12, 0, 0, 0]
  {
  }

  lemma FillBytesAre(st: Store)
    ensures ChunkBytes(IMAGE[0], 4, st) == [0xC2, 0xCA, 0, 0, 1, 0, 0, 0, 16, 0, 0, 0, 0x44, 0x33, 0x22, 0x11]
    ensures Hashed(IMAGE[0], 4, st) == [0x44, 0x33, 0x22, 0x11]
  {
    DivModUnique(7, 4, 1, 3);
  }

  lemma DataBytesAre(st: Store)
    ensures Padded(IMAGE[1], 4, st) == [0xA1, 0xA2, 0xA3, 0xA4, 0xA5, 0xA6, 0xA7, 0]
    ensures ChunkBytes(IMAGE[1], 4, st) ==
      [0xC1, 0xCA, 0, 0, 2, 0, 0, 0, 20, 0, 0, 0, 0xA1, 0xA2, 0xA3, 0xA4, 0xA5, 0xA6, 0xA7, 0]
  {
    DivModUnique(10, 4, 2, 2);
    var p, d := Padded(IMAGE[1], 4, st), [0xA1, 0xA2, 0xA3, 0xA4, 0xA5, 0xA6, 0xA7];
    assert Payload(IMAGE[1], st) == d;
    assert Zeros(1) == [0];
    assert p == d + [0];
    hide Padded;
    assert ChunkHeader(CHUNK_TYPE_RAW, 2, 20) == [0xC1, 0xCA, 0, 0, 2, 0, 0, 0, 20, 0, 0, 0];
  }

  lemma CrcBytesAre(st: Store)
    ensures CrcBytes(0xE3D1_7FAA) == [0xC4, 0xCA, 0, 0, 0, 0, 0, 0, 16, 0, 0, 0, 0xAA, 0x7F, 0xD1, 0xE3]
  {
    Literals();
    hide CrcField;
  }

  lemma ImageHashed(st: Store)
    ensures HashBlocks(0, IMAGE, 4, st) == 0xE3D1_7FAA
  {
    FillBytesAre(st);
    DataBytesAre(st);
    FillDigits();
    DataDigits();
    PaddedDigits();
    Literals();
    hide Bits8, Xor, AsBv, Complement, Register, Padded, ChunkBytes, Crc;
    var d, e := [0xA1, 0xA2, 0xA3, 0xA4], [0xA5, 0xA6, 0xA7, 0];
    FourFed(0xFFFF_FFFF, 0x44, 0x33, 0x22, 0x11);
    FourFed(0x21E2_D292, 0xA1, 0xA2, 0xA3, 0xA4);
    FourFed(0xC2DF_36F4, 0xA5, 0xA6, 0xA7, 0);
    RegisterConcat(0x21E2_D292, d, e);
    assert d + e == Padded(IMAGE[1], 4, st);
    CrcStep(0xFFFF_FFFF, [0x44, 0x33, 0x22, 0x11]);
    CrcStep(0x21E2_D292, d + e);
    assert IMAGE[1..] == [IMAGE[1]] && IMAGE[1..][1..] == [];
    assert Hashed(IMAGE[1], 4, st) == Padded(IMAGE[1], 4, st);
  }

  lemma ImageChunks()
    ensures CountChunks(IMAGE, 0, 4, 20) == 4 && LastBlock(IMAGE, 0, 4) == 4 && End(IMAGE[0], 4) == 2
  {
    DivModUnique(7, 4, 1, 3);
    DivModUnique(10, 4, 2, 2);
    DivModUnique(23, 4, 5, 3);
    assert IMAGE[1..] == [IMAGE[1]] && IMAGE[1..][1..] == [];
    assert End(IMAGE[0], 4) == 2 && End(IMAGE[1], 4) == 4;
    hide End;
  }

  /** The whole file: header, hole, fill, data with its padding, hole, CRC. */
  lemma WrittenBytes(st: Store)
    ensures Encoded(IMAGE, 4, 20, true, st) ==
      [0x3A, 0xFF, 0x26, 0xED, 1, 0, 0, 0, 28, 0, 12, 0, 4, 0, 0, 0, 5, 0, 0, 0, 5, 0, 0, 0, 0, 0, 0, 0]
      + [0xC3, 0xCA, 0, 0, 1, 0, 0, 0, 12, 0, 0, 0]
      + [0xC2, 0xCA, 0, 0, 1, 0, 0, 0, 16, 0, 0, 0, 0x44, 0x33, 0x22, 0x11]
      + [0xC1, 0xCA, 0, 0, 2, 0, 0, 0, 20, 0, 0, 0, 0xA1, 0xA2, 0xA3, 0xA4, 0xA5, 0xA6, 0xA7, 0]
      + [0xC3, 0xCA, 0, 0, 1, 0, 0, 0, 12, 0, 0, 0]
      + [0xC4, 0xCA, 0, 0, 0, 0, 0, 0, 16, 0, 0, 0, 0xAA, 0x7F, 0xD1, 0xE3]
  {
    HeaderBytesAre();
    HoleBytesAre();
    FillBytesAre(st);
    DataBytesAre(st);
    CrcBytesAre(st);
    ImageHashed(st);
    ImageChunks();
    BodyIs(st);
    assert TailBytes(IMAGE, 4, 20) == SkipBytes(1);
    hide SparseHeader, SkipBytes, ChunkBytes, CrcBytes, HashBlocks, CountChunks, BlocksBytes, TailBytes, LastBlock;
    var h, s, a, b := SparseHeader(4, 5, 5), SkipBytes(1), ChunkBytes(IMAGE[0], 4, st), ChunkBytes(IMAGE[1], 4, st);
    assert h + (s + a + b) == h + s + a + b;
  }

  lemma BodyIs(st: Store)
    ensures BlocksBytes(IMAGE, 0, 4, st) == SkipBytes(1) + ChunkBytes(IMAGE[0], 4, st) + ChunkBytes(IMAGE[1], 4, st)
  {
    ImageChunks();
    hide SkipBytes, ChunkBytes, End;
    var rest := IMAGE[1..];
    assert rest[0] == IMAGE[1] && rest[1..] == [];
    assert BlocksBytes([], End(IMAGE[1], 4), 4, st) == [];
    assert GapBytes(IMAGE[1], 2) == [] && GapBytes(IMAGE[0], 0) == SkipBytes(1);
    assert [] + ChunkBytes(IMAGE[1], 4, st) + [] == ChunkBytes(IMAGE[1], 4, st);
  }

  // ---- a file that is read ----

  /** A header of 32 bytes that announces chunk headers of 14, blocks of 4, three blocks and five chunks. */
  const HEAD: seq<byte> :=
    [0x3A, 0xFF, 0x26, 0xED, 1, 0, 0, 0, 32, 0, 14, 0, 4, 0, 0, 0, 3, 0, 0, 0, 5, 0, 0, 0, 0, 0, 0, 0, 9, 9, 9, 9]

  const FILLED: seq<byte> := [0xC2, 0xCA, 0, 0, 1, 0, 0, 0, 18, 0, 0, 0, 7, 7, 0x44, 0x33, 0x22, 0x11]
  const UNKNOWN: seq<byte> := [0xC9, 0xCA, 0, 0, 5, 0, 0, 0, 99, 0, 0, 0, 7, 7]
  const SKIPPED: seq<byte> := [0xC3, 0xCA, 0, 0, 1, 0, 0, 0, 14, 0, 0, 0, 7, 7]
  const RAW: seq<byte> := [0xC1, 0xCA, 0, 0, 1, 0, 0, 0, 18, 0, 0, 0, 7, 7, 0xB1, 0xB2, 0xB3, 0xB4]

  function Checked(x: byte): seq<byte> {
    [0xC4, 0xCA, 0, 0, 0, 0, 0, 0, 18, 0, 0, 0, 7, 7, 0x4D, 0x6B, 0xDB, x]
  }

  function Given(x: byte): seq<byte> {
    HEAD + FILLED + UNKNOWN + SKIPPED + RAW + Checked(x)
  }

  lemma GivenParts(x: byte)
    ensures var f := Given(x);
      && |f| == 114 && Holds(f, 0, HEAD) && Holds(f, 32, FILLED) && Holds(f, 50, UNKNOWN) && Holds(f, 64, SKIPPED)
      && Holds(f, 78, RAW) && Holds(f, 96, Checked(x))
  {
    SixParts(HEAD, FILLED, UNKNOWN, SKIPPED, RAW, Checked(x));
    assert |HEAD| == 32 && |FILLED| == 18 && |UNKNOWN| == 14 && |SKIPPED| == 14 && |RAW| == 18 && |Checked(x)| == 18;
    hide Holds, HEAD, FILLED, UNKNOWN, SKIPPED, RAW, Checked;
  }

  /** The fields of a part of a file. */
  lemma FieldsOf(f: seq<byte>, pos: nat, d: seq<byte>, i: nat)
    requires Holds(f, pos, d) && i + 4 <= |d|
    ensures Get16(f, pos + i) == Get16(d, i) && Get32(f, pos + i) == Get32(d, i)
  {
    var e := f[pos..pos + |d|];
    assert e[i] == f[pos + i] && e[i + 1] == f[pos + i + 1] && e[i + 2] == f[pos + i + 2] && e[i + 3] == f[pos + i + 3];
  }

  lemma ChunkIn(f: seq<byte>, pos: nat, d: seq<byte>)
    requires Holds(f, pos, d) && 12 <= |d|
    ensures ChunkAt(f, pos) == ChunkAt(d, 0)
  {
    hide Holds, Get16, Get32;
    FieldsOf(f, pos, d, 0);
    FieldsOf(f, pos, d, 4);
    FieldsOf(f, pos, d, 8);
  }

  lemma PartFields(x: byte)
    ensures ChunkAt(FILLED, 0) == Chunk(0xCAC2, 1, 18) && ChunkAt(UNKNOWN, 0) == Chunk(0xCAC9, 5, 99)
    ensures ChunkAt(SKIPPED, 0) == Chunk(0xCAC3, 1, 14) && ChunkAt(RAW, 0) == Chunk(0xCAC1, 1, 18)
    ensures ChunkAt(Checked(x), 0) == Chunk(0xCAC4, 0, 18) && Get32(FILLED, 14) == 0x1122_3344
  {
  }

  lemma HeadSizes()
    ensures Get32(HEAD, 0) == 0xED26_FF3A && Get16(HEAD, 4) == 1 && Get16(HEAD, 8) == 32 && Get16(HEAD, 10) == 14
  {
  }

  lemma HeadCounts()
    ensures Get32(HEAD, 12) == 4 && Get32(HEAD, 16) == 3 && Get32(HEAD, 20) == 5
  {
  }

  lemma HeadAccepted(f: seq<byte>)
    requires Holds(f, 0, HEAD)
    ensures HeaderOk(f) && FileHdrSz(f) == 32 && ChunkHdrSz(f) == 14
    ensures BlkSz(f) == 4 && TotalBlks(f) == 3 && TotalChunks(f) == 5
  {
    HeadSizes();
    HeadCounts();
    HoldsBound(f, 0, HEAD);
    hide Holds, Get16, Get32;
    FieldsOf(f, 0, HEAD, 0);
    FieldsOf(f, 0, HEAD, 4);
    FieldsOf(f, 0, HEAD, 8);
    FieldsOf(f, 0, HEAD, 10);
    FieldsOf(f, 0, HEAD, 12);
    FieldsOf(f, 0, HEAD, 16);
    FieldsOf(f, 0, HEAD, 20);
  }

  const FIRST: Block := Block(0, 4, Fill(0x1122_3344))

  /** What the reader sees of each chunk. */
  lemma ChunksSeen(x: byte)
    ensures var f := Given(x);
      && |f| == 114 && ChunkAt(f, 32) == Chunk(0xCAC2, 1, 18) && Get32(f, 46) == 0x1122_3344
      && ChunkAt(f, 50) == Chunk(0xCAC9, 5, 99) && ChunkAt(f, 64) == Chunk(0xCAC3, 1, 14)
      && ChunkAt(f, 78) == Chunk(0xCAC1, 1, 18) && ChunkAt(f, 96) == Chunk(0xCAC4, 0, 18)
      && f[92..96] == [0xB1, 0xB2, 0xB3, 0xB4] && f[110..114] == [0x4D, 0x6B, 0xDB, x]
  {
    hide *;
    var f := Given(x);
    GivenParts(x);
    PartFields(x);
    PartSizes(x);
    ChunkIn(f, 32, FILLED);
    FieldsOf(f, 32, FILLED, 14);
    ChunkIn(f, 50, UNKNOWN);
    ChunkIn(f, 64, SKIPPED);
    ChunkIn(f, 78, RAW);
    ChunkIn(f, 96, Checked(x));
    LastFour(f, 78, RAW);
    LastFour(f, 96, Checked(x));
  }

  lemma PartSizes(x: byte)
    ensures |FILLED| == 18 && |UNKNOWN| == 14 && |SKIPPED| == 14 && |RAW| == 18 && |Checked(x)| == 18
    ensures RAW[14..] == [0xB1, 0xB2, 0xB3, 0xB4] && Checked(x)[14..] == [0x4D, 0x6B, 0xDB, x]
  {
  }

  lemma LastFour(f: seq<byte>, pos: nat, d: seq<byte>)
    requires Holds(f, pos, d) && |d| == 18
    ensures pos + 18 <= |f| && f[pos + 14..pos + 18] == d[14..]
  {
    assert f[pos..pos + 18][14..] == f[pos + 14..pos + 18];
  }

  lemma FillStep(f: seq<byte>, fd: nat, u: bool)
    requires |f| == 114 && ChunkAt(f, 32) == Chunk(0xCAC2, 1, 18) && Get32(f, 46) == 0x1122_3344
    ensures Step(Input(fd, f, 4, 14, u), Reader(32, 0, 0, [])) ==
      Ok(Reader(50, 1, if u then Crc(0, Pattern(0x1122_3344, 4)) else 0, [FIRST]))
  {
    FirstList();
    hide ChunkAt, Get32, Crc, Pattern, Queue, Addable;
  }

  lemma FirstList()
    ensures Addable([], FIRST, 4) && Queue([], FIRST, 4) == [FIRST]
  {
    QueueInOrder([], FIRST, 4);
  }

  lemma UnknownStep(f: seq<byte>, fd: nat, u: bool, c: bv32)
    requires |f| == 114 && ChunkAt(f, 50) == Chunk(0xCAC9, 5, 99)
    ensures Step(Input(fd, f, 4, 14, u), Reader(50, 1, c, [FIRST])) == Ok(Reader(64, 1, c, [FIRST]))
  {
    hide ChunkAt, RawChunk, FillChunk, SkipChunk, CrcChunk;
  }

  lemma SkipStep(f: seq<byte>, fd: nat, u: bool, c: bv32)
    requires |f| == 114 && ChunkAt(f, 64) == Chunk(0xCAC3, 1, 14)
    ensures Step(Input(fd, f, 4, 14, u), Reader(64, 1, c, [FIRST])) ==
      Ok(Reader(78, 2, if u then Crc(c, Zeros(4)) else c, [FIRST]))
  {
    hide ChunkAt, RawChunk, FillChunk, CrcChunk, Crc, Zeros;
  }

  lemma RawList(fd: nat)
    ensures Unused([FIRST], 2) && Queue([FIRST], Block(2, 4, Fd(fd, 92)), 4) == [FIRST, Block(2, 4, Fd(fd, 92))]
  {
    QueueInOrder([FIRST], Block(2, 4, Fd(fd, 92)), 4);
    assert [FIRST] + [Block(2, 4, Fd(fd, 92))] == [FIRST, Block(2, 4, Fd(fd, 92))];
  }

  lemma RawStep(f: seq<byte>, fd: nat, u: bool, c: bv32)
    requires |f| == 114 && ChunkAt(f, 78) == Chunk(0xCAC1, 1, 18) && f[92..96] == [0xB1, 0xB2, 0xB3, 0xB4]
    ensures Step(Input(fd, f, 4, 14, u), Reader(78, 2, c, [FIRST])) ==
      Ok(Reader(96, 3, if u then Crc(c, [0xB1, 0xB2, 0xB3, 0xB4]) else c, [FIRST, Block(2, 4, Fd(fd, 92))]))
  {
    RawList(fd);
    AddableUnused([FIRST], Block(2, 4, Fd(fd, 92)), 4);
    hide ChunkAt, FillChunk, SkipChunk, CrcChunk, Crc, Queue, Addable, Unused, FIRST;
  }

  lemma LastStep(f: seq<byte>, fd: nat, u: bool, l: seq<Block>, x: byte)
    requires |f| == 114 && ChunkAt(f, 96) == Chunk(0xCAC4, 0, 18) && f[110..114] == [0x4D, 0x6B, 0xDB, x]
    ensures var r := Reader(96, 3, if u then 0x69DB_6B4D else 0, l);
      Step(Input(fd, f, 4, 14, u), r) == if !u || x == 0x69 then Ok(r.(pos := 114)) else Invalid
  {
    Literals();
    assert x != 0x69 ==> [0x4D, 0x6B, 0xDB, x][3] != [0x4D, 0x6B, 0xDB, 0x69][3];
    hide ChunkAt, RawChunk, FillChunk, SkipChunk, CrcField, Complement;
  }

  lemma GivenCrc()
    ensures Crc(Crc(Crc(0, Pattern(0x1122_3344, 4)), Zeros(4)), [0xB1, 0xB2, 0xB3, 0xB4]) == 0x69DB_6B4D
  {
    assert Pattern(0x1122_3344, 4) == [0x44, 0x33, 0x22, 0x11];
    assert Zeros(4) == [0, 0, 0, 0];
    FillDigits();
    HoleDigits();
    LastDigits();
    Literals();
    hide Bits8, Xor, AsBv, Complement, Register, Pattern, Zeros, Crc;
    FourFed(0xFFFF_FFFF, 0x44, 0x33, 0x22, 0x11);
    FourFed(0x21E2_D292, 0, 0, 0, 0);
    FourFed(0xB965_4941, 0xB1, 0xB2, 0xB3, 0xB4);
    CrcStep(0xFFFF_FFFF, [0x44, 0x33, 0x22, 0x11]);
    CrcStep(0x21E2_D292, [0, 0, 0, 0]);
    CrcStep(0xB965_4941, [0xB1, 0xB2, 0xB3, 0xB4]);
  }

  lemma FiveSteps(inp: Input, r0: Reader, r1: Reader, r2: Reader, r3: Reader, r4: Reader)
    requires Step(inp, r0) == Ok(r1) && Step(inp, r1) == Ok(r2) && Step(inp, r2) == Ok(r3) && Step(inp, r3) == Ok(r4)
    ensures Steps(inp, r0, 5) == Step(inp, r4)
  {
    hide Step;
    assert Steps(inp, r4, 1) == Step(inp, r4);
    assert Steps(inp, r3, 2) == Steps(inp, r4, 1);
    assert Steps(inp, r2, 3) == Steps(inp, r3, 2);
    assert Steps(inp, r1, 4) == Steps(inp, r2, 3);
  }

  /** The five chunks, one after the other. */
  lemma StepsOfGiven(x: byte, fd: nat, u: bool)
    ensures var f, c3 := Given(x), if u then 0x69DB_6B4D else 0;
      Steps(Input(fd, f, 4, 14, u), Reader(32, 0, 0, []), 5) ==
        if !u || x == 0x69 then Ok(Reader(114, 3, c3, [FIRST, Block(2, 4, Fd(fd, 92))])) else Invalid
  {
    var f := Given(x);
    GivenParts(x);
    ChunksSeen(x);
    var inp := Input(fd, f, 4, 14, u);
    var c1 := if u then Crc(0, Pattern(0x1122_3344, 4)) else 0;
    var c2 := if u then Crc(c1, Zeros(4)) else 0;
    var c3 := if u then 0x69DB_6B4D else 0;
    var l := [FIRST, Block(2, 4, Fd(fd, 92))];
    GivenCrc();
    hide Given, Holds, Crc, Pattern, Zeros, Step, Steps, ChunkAt, Get32;
    FillStep(f, fd, u);
    UnknownStep(f, fd, u, c1);
    SkipStep(f, fd, u, c1);
    RawStep(f, fd, u, c2);
    LastStep(f, fd, u, l, x);
    FiveSteps(inp, Reader(32, 0, 0, []), Reader(50, 1, c1, [FIRST]), Reader(64, 1, c1, [FIRST]),
              Reader(78, 2, c2, [FIRST]), Reader(96, 3, c3, l));
  }

  /**
   * A fill, an unknown chunk of which only the header is passed, a hole, a slice of the file behind the longer chunk
   * header, and a CRC chunk that is right or wrong in its last byte, which matters only when CRCs are checked.
   */
  lemma ReadBytes(x: byte, fd: nat, u: bool)
    ensures Import(Given(x), fd, u) ==
      if !u || x == 0x69 then
        Ok(Imported(4, 12, [Block(0, 4, Fill(0x1122_3344)), Block(2, 4, Fd(fd, 92))]))
      else Invalid
  {
    GivenParts(x);
    HeadAccepted(Given(x));
    StepsOfGiven(x, fd, u);
    hide Given, Holds, Steps, HeaderOk, FileHdrSz, ChunkHdrSz, BlkSz, TotalBlks, TotalChunks;
  }

  lemma GivenInside(fd: nat)
    ensures InImage([FIRST, Block(2, 4, Fd(fd, 92))], 4, 12) && FillsWholeBefore([FIRST, Block(2, 4, Fd(fd, 92))], 4)
  {
    DivModUnique(7, 4, 1, 3);
    DivModUnique(15, 4, 3, 3);
    assert DivRoundUp(4, 4) == 1 && DivRoundUp(12, 4) == 3;
    hide DivRoundUp;
  }

  lemma FilledByte(st: Store, p: nat)
    ensures Lookup([FIRST], 4, st, p) == if p < 4 then Some([0x44, 0x33, 0x22, 0x11][p]) else None
  {
    LookupOne(FIRST, 4, st, p);
    assert Le32(0x1122_3344) == [0x44, 0x33, 0x22, 0x11];
    hide Lookup, Le32;
  }

  lemma SliceByte(fd: nat, st: Store, p: nat)
    requires var f := FdBytes(st, fd); 96 <= |f| && f[92..96] == [0xB1, 0xB2, 0xB3, 0xB4]
    ensures Lookup([Block(2, 4, Fd(fd, 92))], 4, st, p) ==
      if 8 <= p < 12 then Some([0xB1, 0xB2, 0xB3, 0xB4][p - 8]) else None
  {
    LookupOne(Block(2, 4, Fd(fd, 92)), 4, st, p);
    var f := FdBytes(st, fd);
    assert 8 <= p < 12 ==> f[84 + p] == f[92..96][p - 8];
    hide Lookup, FdBytes;
  }

  lemma GivenByte(fd: nat, st: Store, p: nat)
    requires var f := FdBytes(st, fd); 96 <= |f| && f[92..96] == [0xB1, 0xB2, 0xB3, 0xB4]
    requires p < 12
    ensures GetOr(Lookup([FIRST, Block(2, 4, Fd(fd, 92))], 4, st, p), 0) ==
      [0x44, 0x33, 0x22, 0x11, 0, 0, 0, 0, 0xB1, 0xB2, 0xB3, 0xB4][p]
  {
    var b := Block(2, 4, Fd(fd, 92));
    hide Lookup, FIRST, FdBytes;
    FilledByte(st, p);
    SliceByte(fd, st, p);
    assert [FIRST, b] == [FIRST] + [b];
    LookupConcat([FIRST], [b], 4, st, p);
  }

  lemma GivenImage(fd: nat, st: Store, x: byte)
    requires FdBytes(st, fd) == Given(x)
    ensures Overlay([], [FIRST, Block(2, 4, Fd(fd, 92))], 4, st, 12) ==
      [0x44, 0x33, 0x22, 0x11, 0, 0, 0, 0, 0xB1, 0xB2, 0xB3, 0xB4]
  {
    ChunksSeen(x);
    hide Lookup, Given, FIRST, ChunkAt, Get32;
    forall p: nat | p < 12
      ensures GetOr(Lookup([FIRST, Block(2, 4, Fd(fd, 92))], 4, st, p), 0) ==
        [0x44, 0x33, 0x22, 0x11, 0, 0, 0, 0, 0xB1, 0xB2, 0xB3, 0xB4][p]
    {
      GivenByte(fd, st, p);
    }
  }

  /** simg2img does not check CRCs: whatever the last byte of the CRC, it writes these twelve bytes. */
  lemma RawOfGiven(fd: nat, st: Store, x: byte)
    requires FdBytes(st, fd) == Given(x)
    ensures OneOver([], fd, st) == Some([0x44, 0x33, 0x22, 0x11, 0, 0, 0, 0, 0xB1, 0xB2, 0xB3, 0xB4])
  {
    ReadBytes(x, fd, false);
    GivenImage(fd, st, x);
    GivenInside(fd);
    hide Given, Import, Written, InImage, FillsWholeBefore, Overlay, Lookup;
    RawWrites([Block(0, 4, Fill(0x1122_3344)), Block(2, 4, Fd(fd, 92))], 4, 12, false, [], st);
  }

  /** Nor does append2simg. */
  lemma AutoOfGiven(fd: nat, x: byte)
    ensures |Given(x)| == 114
    ensures ImportAuto(Given(x), fd) == Some(Imported(4, 12, [Block(0, 4, Fill(0x1122_3344)), Block(2, 4, Fd(fd, 92))]))
  {
    GivenParts(x);
    ReadBytes(x, fd, false);
    hide Given, Import, Sparsified;
  }

  // ---- a file that repeats one word ----

  lemma PatternWord(v: u32, n: nat, off: nat)
    requires off % 4 == 0 && off + 4 <= n
    ensures Get32(Pattern(v, n), off) == v
  {
    var f := Pattern(v, n);
    assert f[off..off + 4] == Le32(v);
    hide Le32, Get32, Pattern;
    Get32Le32(v, f, off);
  }

  lemma PatternRepeats(v: u32, n: nat, k: nat, bs: nat)
    requires 4 <= bs && bs % 4 == 0 && 0 <= k * bs && k * bs + bs <= n && (k * bs) % 4 == 0
    ensures Repeats(Pattern(v, n), k, bs)
  {
    PatternLength(v, n);
    hide Le32, Pattern;
    var f, a := Pattern(v, n), k * bs;
    var b := f[a..a + bs];
    forall i | 0 <= i < bs
      ensures b[i] == b[i % 4]
    {
      PatternAt(v, n, a, i);
      PatternAt(v, n, a, i % 4);
    }
  }

  lemma PatternAt(v: u32, n: nat, a: nat, i: nat)
    requires a % 4 == 0 && a + i < n
    ensures Pattern(v, n)[a + i] == Le32(v)[i % 4] && (i % 4) % 4 == i % 4
  {
    hide Le32;
    assert (a + i) % 4 == i % 4;
  }

  lemma PatternBlock(v: u32, n: nat, fd: nat, bs: nat, k: nat)
    requires 4 <= bs && bs % 4 == 0 && k < n && n * bs < U32
    ensures 0 <= k * bs && k * bs + bs <= n * bs && k < U32
    ensures RawBlock(Pattern(v, n * bs), fd, bs, k) == Block(k, bs, Fill(v))
  {
    MulMono(0, k, bs);
    MulMono(k + 1, n, bs);
    Distribute(k, 1, bs);
    MulMono(1, bs, n);
    WholeLen(k, bs);
    MultipleOfFour(k * bs, bs);
    PatternWord(v, n * bs, k * bs);
    PatternRepeats(v, n * bs, k, bs);
    RawBlockKind(Pattern(v, n * bs), fd, bs, k);
    hide Pattern, Repeats, Uniform, Get32;
  }

  lemma RunGrows(v: u32, m: nat, bs: nat)
    requires 0 < bs && 0 < m && 0 <= m * bs && (m + 1) * bs < U32 && m < U32
    ensures m * bs < U32
    ensures Queue([Block(0, m * bs, Fill(v))], Block(m, bs, Fill(v)), bs) == [Block(0, (m + 1) * bs, Fill(v))]
  {
    var a := Block(0, m * bs, Fill(v));
    var b := Block(m, bs, Fill(v));
    Distribute(m, 1, bs);
    WholeLen(m, bs);
    SmallMod(m);
    SmallMod(m * bs + bs);
    QueueInOrder([a], b, bs);
    assert [a] + [b] == [a, b];
    MergeAtConcat([a, b], 0, bs);
    hide Queue, DivRoundUp;
  }

  lemma {:induction false} PatternList(v: u32, n: nat, fd: nat, bs: nat, m: nat)
    requires 4 <= bs && bs % 4 == 0 && n * bs + bs <= U32 && 0 < m <= n
    ensures 0 <= m * bs < U32 && n == DivRoundUp(n * bs, bs) && |Pattern(v, n * bs)| == n * bs
    ensures Sparsified(Pattern(v, n * bs), fd, bs, m) == [Block(0, m * bs, Fill(v))]
    decreases m
  {
    hide *;
    MulMono(m, n, bs);
    WholeLen(m, bs);
    WholeLen(n, bs);
    PatternLength(v, n * bs);
    SparsifiedUnfold(Pattern(v, n * bs), fd, bs, m);
    PatternBlock(v, n, fd, bs, m - 1);
    Distribute(m - 1, 1, bs);
    if m == 1 {
      SparsifiedUnfold(Pattern(v, n * bs), fd, bs, 0);
      QueueInOrder([], Block(0, bs, Fill(v)), bs);
    } else {
      PatternList(v, n, fd, bs, m - 1);
      RunGrows(v, m - 1, bs);
    }
  }

  lemma PatternLength(v: u32, n: nat)
    ensures |Pattern(v, n)| == n
  {
  }

  /** img2simg makes a header and one fill chunk, 44 bytes, of a raw file that repeats one word. */
  lemma RepeatedWord(v: u32, n: nat, fd: nat, bs: nat, st: Store)
    requires 4 <= bs && bs % 4 == 0 && 0 < n && n * bs + bs <= U32
    ensures 0 <= n * bs && |Pattern(v, n * bs)| == n * bs < U32
    ensures var s := SparsifiedFile(Pattern(v, n * bs), fd, bs, st);
      s == SparseHeader(bs, n, 1) + (ChunkHeader(0xCAC2, n, 16) + Le32(v)) && |s| == 44
  {
    hide *;
    PatternList(v, n, fd, bs, n);
    OneFill(v, n, bs, st);
    FileIs(Pattern(v, n * bs), fd, bs, st);
  }

  lemma FileIs(f: seq<byte>, fd: nat, bs: nat, st: Store)
    requires 0 < bs && |f| < U32
    ensures SparsifiedFile(f, fd, bs, st) == Encoded(Sparsified(f, fd, bs, DivRoundUp(|f|, bs)), bs, |f|, false, st)
  {
    hide Encoded, Sparsified, DivRoundUp;
  }

  lemma OneFill(v: u32, n: nat, bs: nat, st: Store)
    requires 4 <= bs && bs % 4 == 0 && 0 < n && 0 <= n * bs && n * bs + bs <= U32
    ensures var e := Encoded([Block(0, n * bs, Fill(v))], bs, n * bs, false, st);
      e == SparseHeader(bs, n, 1) + (ChunkHeader(0xCAC2, n, 16) + Le32(v)) && |e| == 44
  {
    var b := Block(0, n * bs, Fill(v));
    WholeLen(n, bs);
    assert [b][1..] == [] && End(b, bs) == n;
    assert CountChunks([b], 0, bs, n * bs) == 1 && LastBlock([b], 0, bs) == n;
    hide SparseHeader, DivRoundUp, ChunkHeader, Le32;
    assert |Le32(v)| == 4 by {
      WordLength(v);
    }
    assert BlocksBytes([b], 0, bs, st) == ChunkHeader(0xCAC2, n, 16) + Le32(v);
  }

  lemma WordLength(v: u32)
    ensures |Le32(v)| == 4
  {
  }

  // ---- what is refused ----

  lemma MagicBytes(b0: byte, b1: byte, b2: byte, b3: byte)
    ensures 0 + b0 + 0x100 * b1 + 0x1_0000 * b2 + 0x100_0000 * b3 == 0xED26_FF3A
       <==> b0 == 0x3A && b1 == 0xFF && b2 == 0x26 && b3 == 0xED
  {
  }

  /** A header is accepted exactly for the magic number, major version one, and headers that are not too short. */
  lemma HeaderExactly(f: seq<byte>)
    ensures HeaderOk(f) <==>
      && 28 <= |f| && f[0..4] == [0x3A, 0xFF, 0x26, 0xED] && f[4..6] == [1, 0]
      && 28 <= Get16(f, 8) && 12 <= Get16(f, 10)
  {
    if 28 <= |f| {
      MagicBytes(f[0], f[1], f[2], f[3]);
      assert f[0..4] == [f[0], f[1], f[2], f[3]] && f[4..6] == [f[4], f[5]];
    }
  }

  lemma Exactly(d: u32, bs: nat, n: u32)
    requires 0 < bs
    ensures d % bs == 0 && d / bs == n <==> d == n * bs
  {
    if d == n * bs {
      DivModUnique(d, bs, n, 0);
    }
  }

  /** The bytes of a chunk behind its header, as its total size tells them. */
  function Announced(inp: Input, r: Reader): u32 {
    ToU32(ChunkAt(inp.f, r.pos).totalSz - inp.hdrSz)
  }

  /** A raw chunk is accepted exactly when it has its blocks, they can be added, and, for a CRC, they are in the
      file. */
  lemma RawExactly(inp: Input, r: Reader)
    requires r.pos + CHUNK_HEADER_LEN <= |inp.f| && ChunkAt(inp.f, r.pos).chunkType == 0xCAC1 && 0 < inp.bs
    ensures var n, len := ChunkAt(inp.f, r.pos).chunkSz, Announced(inp, r);
      Step(inp, r).Ok? <==>
        && len == n * inp.bs && n <= INT_MAX && Unused(r.l, r.cur)
        && (inp.useCrc && len != 0 ==> r.pos + inp.hdrSz + len <= |inp.f|)
  {
    var c := ChunkAt(inp.f, r.pos);
    Exactly(Announced(inp, r), inp.bs, c.chunkSz);
    if Announced(inp, r) == c.chunkSz * inp.bs {
      SmallMod(c.chunkSz * inp.bs);
    }
    hide ChunkAt, ToU32, Queue, Unused, Compared, Crc;
  }

  /** The other chunks: four bytes for a fill and a CRC, none for a hole. */
  lemma OthersExactly(inp: Input, r: Reader)
    requires r.pos + CHUNK_HEADER_LEN <= |inp.f| && ChunkAt(inp.f, r.pos).chunkType in {0xCAC2, 0xCAC3, 0xCAC4}
    requires 0 < inp.bs
    ensures var c, off := ChunkAt(inp.f, r.pos), r.pos + inp.hdrSz;
      Step(inp, r).Ok? <==>
        && (c.chunkType == 0xCAC3 ==> Announced(inp, r) == 0 && c.chunkSz <= INT_MAX)
        && (c.chunkType != 0xCAC3 ==> Announced(inp, r) == 4 && off + 4 <= |inp.f|)
        && (c.chunkType == 0xCAC2 ==> Unused(r.l, r.cur) && c.chunkSz <= INT_MAX)
        && (c.chunkType == 0xCAC4 && inp.useCrc ==> inp.f[off..off + 4] == CrcField(r.crc))
  {
    hide ChunkAt, ToU32, Queue, Unused, Compared, Crc, CrcField, Pattern, Zeros, Get32;
  }
}
