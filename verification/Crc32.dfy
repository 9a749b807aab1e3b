/** The table-driven CRC-32 of sparse_crc32.c, proved against its bit-by-bit definition. */
module Crc32 {
  import opened Defs

  const POLYNOMIAL: bv32 := 0xEDB8_8320
  const ONES: bv32 := 0xFFFF_FFFF

  // ---- the reference: one shift/xor step per bit, lowest-order bit first ----

  function Bit(c: bv32): bv32 {
    if c & 1 == 1 then (c >> 1) ^ POLYNOMIAL else c >> 1
  }

  function Bits2(c: bv32): bv32 {
    Bit(Bit(c))
  }

  function Bits4(c: bv32): bv32 {
    Bits2(Bits2(c))
  }

  function Bits8(c: bv32): bv32 {
    Bits4(Bits4(c))
  }

  function AsBv(b: byte): (v: bv32)
    ensures v <= 0xFF
  {
    (b as bv8) as bv32
  }

  /** The shift register after the bytes of data have been fed in. */
  function Register(c: bv32, data: seq<byte>): bv32
    decreases |data|
  {
    if data == [] then c else Register(Bits8(Xor(c, AsBv(data[0]))), data[1..])
  }

  function Xor(a: bv32, b: bv32): bv32 {
    a ^ b
  }

  function Complement(c: bv32): bv32 {
    c ^ ONES
  }

  lemma ComplementTwice(c: bv32)
    ensures Complement(Complement(c)) == c
  {
  }

  /** CRC-32 of clause 3.2.9 of IEEE 802.3, continued from the CRC of earlier data. */
  function Crc(crcIn: bv32, data: seq<byte>): bv32 {
    Complement(Register(Complement(crcIn), data))
  }

  // ---- crc32_tab: 256 entries, sixteen to a row ----

  const TAB: seq<seq<bv32>> := [
    [0x00000000, 0x77073096, 0xee0e612c, 0x990951ba, 0x076dc419, 0x706af48f, 0xe963a535, 0x9e6495a3,
     0x0edb8832, 0x79dcb8a4, 0xe0d5e91e, 0x97d2d988, 0x09b64c2b, 0x7eb17cbd, 0xe7b82d07, 0x90bf1d91],
    [0x1db71064, 0x6ab020f2, 0xf3b97148, 0x84be41de, 0x1adad47d, 0x6ddde4eb, 0xf4d4b551, 0x83d385c7,
     0x136c9856, 0x646ba8c0, 0xfd62f97a, 0x8a65c9ec, 0x14015c4f, 0x63066cd9, 0xfa0f3d63, 0x8d080df5],
    [0x3b6e20c8, 0x4c69105e, 0xd56041e4, 0xa2677172, 0x3c03e4d1, 0x4b04d447, 0xd20d85fd, 0xa50ab56b,
     0x35b5a8fa, 0x42b2986c, 0xdbbbc9d6, 0xacbcf940, 0x32d86ce3, 0x45df5c75, 0xdcd60dcf, 0xabd13d59],
    [0x26d930ac, 0x51de003a, 0xc8d75180, 0xbfd06116, 0x21b4f4b5, 0x56b3c423, 0xcfba9599, 0xb8bda50f,
     0x2802b89e, 0x5f058808, 0xc60cd9b2, 0xb10be924, 0x2f6f7c87, 0x58684c11, 0xc1611dab, 0xb6662d3d],
    [0x76dc4190, 0x01db7106, 0x98d220bc, 0xefd5102a, 0x71b18589, 0x06b6b51f, 0x9fbfe4a5, 0xe8b8d433,
     0x7807c9a2, 0x0f00f934, 0x9609a88e, 0xe10e9818, 0x7f6a0dbb, 0x086d3d2d, 0x91646c97, 0xe6635c01],
    [0x6b6b51f4, 0x1c6c6162, 0x856530d8, 0xf262004e, 0x6c0695ed, 0x1b01a57b, 0x8208f4c1, 0xf50fc457,
     0x65b0d9c6, 0x12b7e950, 0x8bbeb8ea, 0xfcb9887c, 0x62dd1ddf, 0x15da2d49, 0x8cd37cf3, 0xfbd44c65],
    [0x4db26158, 0x3ab551ce, 0xa3bc0074, 0xd4bb30e2, 0x4adfa541, 0x3dd895d7, 0xa4d1c46d, 0xd3d6f4fb,
     0x4369e96a, 0x346ed9fc, 0xad678846, 0xda60b8d0, 0x44042d73, 0x33031de5, 0xaa0a4c5f, 0xdd0d7cc9],
    [0x5005713c, 0x270241aa, 0xbe0b1010, 0xc90c2086, 0x5768b525, 0x206f85b3, 0xb966d409, 0xce61e49f,
     0x5edef90e, 0x29d9c998, 0xb0d09822, 0xc7d7a8b4, 0x59b33d17, 0x2eb40d81, 0xb7bd5c3b, 0xc0ba6cad],
    [0xedb88320, 0x9abfb3b6, 0x03b6e20c, 0x74b1d29a, 0xead54739, 0x9dd277af, 0x04db2615, 0x73dc1683,
     0xe3630b12, 0x94643b84, 0x0d6d6a3e, 0x7a6a5aa8, 0xe40ecf0b, 0x9309ff9d, 0x0a00ae27, 0x7d079eb1],
    [0xf00f9344, 0x8708a3d2, 0x1e01f268, 0x6906c2fe, 0xf762575d, 0x806567cb, 0x196c3671, 0x6e6b06e7,
     0xfed41b76, 0x89d32be0, 0x10da7a5a, 0x67dd4acc, 0xf9b9df6f, 0x8ebeeff9, 0x17b7be43, 0x60b08ed5],
    [0xd6d6a3e8, 0xa1d1937e, 0x38d8c2c4, 0x4fdff252, 0xd1bb67f1, 0xa6bc5767, 0x3fb506dd, 0x48b2364b,
     0xd80d2bda, 0xaf0a1b4c, 0x36034af6, 0x41047a60, 0xdf60efc3, 0xa867df55, 0x316e8eef, 0x4669be79],
    [0xcb61b38c, 0xbc66831a, 0x256fd2a0, 0x5268e236, 0xcc0c7795, 0xbb0b4703, 0x220216b9, 0x5505262f,
     0xc5ba3bbe, 0xb2bd0b28, 0x2bb45a92, 0x5cb36a04, 0xc2d7ffa7, 0xb5d0cf31, 0x2cd99e8b, 0x5bdeae1d],
    [0x9b64c2b0, 0xec63f226, 0x756aa39c, 0x026d930a, 0x9c0906a9, 0xeb0e363f, 0x72076785, 0x05005713,
     0x95bf4a82, 0xe2b87a14, 0x7bb12bae, 0x0cb61b38, 0x92d28e9b, 0xe5d5be0d, 0x7cdcefb7, 0x0bdbdf21],
    [0x86d3d2d4, 0xf1d4e242, 0x68ddb3f8, 0x1fda836e, 0x81be16cd, 0xf6b9265b, 0x6fb077e1, 0x18b74777,
     0x88085ae6, 0xff0f6a70, 0x66063bca, 0x11010b5c, 0x8f659eff, 0xf862ae69, 0x616bffd3, 0x166ccf45],
    [0xa00ae278, 0xd70dd2ee, 0x4e048354, 0x3903b3c2, 0xa7672661, 0xd06016f7, 0x4969474d, 0x3e6e77db,
     0xaed16a4a, 0xd9d65adc, 0x40df0b66, 0x37d83bf0, 0xa9bcae53, 0xdebb9ec5, 0x47b2cf7f, 0x30b5ffe9],
    [0xbdbdf21c, 0xcabac28a, 0x53b39330, 0x24b4a3a6, 0xbad03605, 0xcdd70693, 0x54de5729, 0x23d967bf,
     0xb3667a2e, 0xc4614ab8, 0x5d681b02, 0x2a6f2b94, 0xb40bbe37, 0xc30c8ea1, 0x5a05df1b, 0x2d02ef8d]
  ]

  /** crc32_tab[i]. */
  function Tab(i: bv32): bv32
    requires i <= 0xFF
  {
    assert (i as nat) / 16 < 16;
    TAB[(i as nat) / 16][(i as nat) % 16]
  }

  lemma Row0(x: bv32)
    requires 0x00 <= x <= 0x0F
    ensures Tab(x) == Bits8(x)
  {
  }

  lemma Row1(x: bv32)
    requires 0x10 <= x <= 0x1F
    ensures Tab(x) == Bits8(x)
  {
  }

  lemma Row2(x: bv32)
    requires 0x20 <= x <= 0x2F
    ensures Tab(x) == Bits8(x)
  {
  }

  lemma Row3(x: bv32)
    requires 0x30 <= x <= 0x3F
    ensures Tab(x) == Bits8(x)
  {
  }

  lemma Row4(x: bv32)
    requires 0x40 <= x <= 0x4F
    ensures Tab(x) == Bits8(x)
  {
  }

  lemma Row5(x: bv32)
    requires 0x50 <= x <= 0x5F
    ensures Tab(x) == Bits8(x)
  {
  }

  lemma Row6(x: bv32)
    requires 0x60 <= x <= 0x6F
    ensures Tab(x) == Bits8(x)
  {
  }

  lemma Row7(x: bv32)
    requires 0x70 <= x <= 0x7F
    ensures Tab(x) == Bits8(x)
  {
  }

  lemma Row8(x: bv32)
    requires 0x80 <= x <= 0x8F
    ensures Tab(x) == Bits8(x)
  {
  }

  lemma Row9(x: bv32)
    requires 0x90 <= x <= 0x9F
    ensures Tab(x) == Bits8(x)
  {
  }

  lemma RowA(x: bv32)
    requires 0xA0 <= x <= 0xAF
    ensures Tab(x) == Bits8(x)
  {
  }

  lemma RowB(x: bv32)
    requires 0xB0 <= x <= 0xBF
    ensures Tab(x) == Bits8(x)
  {
  }

  lemma RowC(x: bv32)
    requires 0xC0 <= x <= 0xCF
    ensures Tab(x) == Bits8(x)
  {
  }

  lemma RowD(x: bv32)
    requires 0xD0 <= x <= 0xDF
    ensures Tab(x) == Bits8(x)
  {
  }

  lemma RowE(x: bv32)
    requires 0xE0 <= x <= 0xEF
    ensures Tab(x) == Bits8(x)
  {
  }

  lemma RowF(x: bv32)
    requires 0xF0 <= x <= 0xFF
    ensures Tab(x) == Bits8(x)
  {
  }

  /** Each table entry is eight shift/xor steps of the polynomial applied to its index. */
  lemma TableIsBitwise(x: bv32)
    requires x <= 0xFF
    ensures Tab(x) == Bits8(x)
  {
    if x <= 0x0F {
      Row0(x);
    } else if x <= 0x1F {
      Row1(x);
    } else if x <= 0x2F {
      Row2(x);
    } else if x <= 0x3F {
      Row3(x);
    } else if x <= 0x4F {
      Row4(x);
    } else if x <= 0x5F {
      Row5(x);
    } else if x <= 0x6F {
      Row6(x);
    } else if x <= 0x7F {
      Row7(x);
    } else if x <= 0x8F {
      Row8(x);
    } else if x <= 0x9F {
      Row9(x);
    } else if x <= 0xAF {
      RowA(x);
    } else if x <= 0xBF {
      RowB(x);
    } else if x <= 0xCF {
      RowC(x);
    } else if x <= 0xDF {
      RowD(x);
    } else if x <= 0xEF {
      RowE(x);
    } else {
      RowF(x);
    }
  }

  // ---- the byte step follows by xor-linearity ----

  lemma BothOdd(u: bv32, v: bv32)
    requires u & 1 == 1 && v & 1 == 1
    ensures Bit(Xor(u, v)) == Xor(Bit(u), Bit(v))
  {
  }

  lemma FirstOddBits(u: bv32, v: bv32)
    requires u & 1 == 1 && v & 1 != 1
    ensures (u ^ v) & 1 == 1
    ensures ((u ^ v) >> 1) ^ POLYNOMIAL == ((u >> 1) ^ POLYNOMIAL) ^ (v >> 1)
  {
  }

  lemma FirstOdd(u: bv32, v: bv32)
    requires u & 1 == 1 && v & 1 != 1
    ensures Bit(Xor(u, v)) == Xor(Bit(u), Bit(v))
  {
    FirstOddBits(u, v);
  }

  lemma BothEven(u: bv32, v: bv32)
    requires u & 1 != 1 && v & 1 != 1
    ensures Bit(Xor(u, v)) == Xor(Bit(u), Bit(v))
  {
  }

  lemma XorSwap(u: bv32, v: bv32)
    ensures Xor(u, v) == Xor(v, u)
  {
  }

  lemma BitLinear(u: bv32, v: bv32)
    ensures Bit(Xor(u, v)) == Xor(Bit(u), Bit(v))
  {
    hide Bit, Xor;
    if u & 1 == 1 && v & 1 == 1 {
      BothOdd(u, v);
    } else if u & 1 == 1 {
      FirstOdd(u, v);
    } else if v & 1 == 1 {
      FirstOdd(v, u);
      XorSwap(u, v);
      XorSwap(Bit(u), Bit(v));
    } else {
      BothEven(u, v);
    }
  }

  lemma Bits8Linear(u: bv32, v: bv32)
    ensures Bits8(Xor(u, v)) == Xor(Bits8(u), Bits8(v))
  {
    hide Bit, Xor;
    BitLinear(u, v);
    BitLinear(Bit(u), Bit(v));
    BitLinear(Bits2(u), Bits2(v));
    BitLinear(Bit(Bits2(u)), Bit(Bits2(v)));
    BitLinear(Bits4(u), Bits4(v));
    BitLinear(Bit(Bits4(u)), Bit(Bits4(v)));
    BitLinear(Bits2(Bits4(u)), Bits2(Bits4(v)));
    BitLinear(Bit(Bits2(Bits4(u))), Bit(Bits2(Bits4(v))));
  }

  /** The table index: low byte of the register, xored with the data byte. */
  function Index(c: bv32, b: bv32): (x: bv32)
    ensures x <= 0xFF
  {
    (c ^ b) & 0xFF
  }

  function High(c: bv32): bv32 {
    c & 0xFFFF_FF00
  }

  function Shift8(c: bv32): bv32 {
    c >> 8
  }

  /** One iteration of the C loop. */
  function TableStep(c: bv32, b: bv32): bv32 {
    Xor(Tab(Index(c, b)), Shift8(c))
  }

  /** A register with nothing in its low byte just shifts out eight zero bits. */
  lemma HighBytesShift(c: bv32)
    ensures Bits8(High(c)) == Shift8(c)
  {
  }

  /** The register splits into the table index and the bytes that are shifted down. */
  lemma SplitLow(c: bv32, b: bv32)
    requires b <= 0xFF
    ensures Xor(Index(c, b), High(c)) == Xor(c, b)
  {
  }

  /** The table step is the eight-bit reference step. */
  lemma TableStepIsBitwise(c: bv32, b: bv32)
    requires b <= 0xFF
    ensures TableStep(c, b) == Bits8(Xor(c, b))
  {
    hide Bits8, Tab, Xor, Index, High, Shift8;
    SplitLow(c, b);
    HighBytesShift(c);
    Bits8Linear(Index(c, b), High(c));
    TableIsBitwise(Index(c, b));
  }

  lemma {:induction false} RegisterConcat(c: bv32, a: seq<byte>, b: seq<byte>)
    ensures Register(c, a + b) == Register(Register(c, a), b)
    decreases |a|
  {
    if a == [] {
      assert a + b == b;
    } else {
      assert (a + b)[0] == a[0] && (a + b)[1..] == a[1..] + b;
      RegisterConcat(Bits8(Xor(c, AsBv(a[0]))), a[1..], b);
    }
  }

  /** The CRC may be continued across buffers. */
  lemma CrcConcat(c: bv32, a: seq<byte>, b: seq<byte>)
    ensures Crc(Crc(c, a), b) == Crc(c, a + b)
  {
    hide Register, Complement;
    RegisterConcat(Complement(c), a, b);
    ComplementTwice(Register(Complement(c), a));
  }

  // ---- check values ----

  function Low(c: bv32): byte {
    ((c & 0xFF) as bv8) as byte
  }

  /** A CRC as it is stored in a file, low byte first. */
  function CrcField(c: bv32): (r: seq<byte>)
    ensures |r| == 4
  {
    [Low(c), Low(c >> 8), Low(c >> 16), Low(c >> 24)]
  }

  lemma RegisterByte(c: bv32, b: byte, rest: seq<byte>)
    ensures Register(c, [b] + rest) == Register(Bits8(Xor(c, AsBv(b))), rest)
  {
    assert ([b] + rest)[0] == b && ([b] + rest)[1..] == rest;
  }

  lemma FirstDigits()
    ensures Bits8(Xor(0xFFFF_FFFF, AsBv(0x31))) == 0x7C23_1048 && Bits8(Xor(0x7C23_1048, AsBv(0x32))) == 0xB0AC_BB32
    ensures Bits8(Xor(0xB0AC_BB32, AsBv(0x33))) == 0x77B7_9C2D && Bits8(Xor(0x77B7_9C2D, AsBv(0x34))) == 0x641C_1F5C
    ensures Bits8(Xor(0x641C_1F5C, AsBv(0x35))) == 0x340A_C5E3
  {
  }

  lemma LastDigits()
    ensures Bits8(Xor(0x340A_C5E3, AsBv(0x36))) == 0xF68D_2C9E && Bits8(Xor(0xF68D_2C9E, AsBv(0x37))) == 0xAFFC_9660
    ensures Bits8(Xor(0xAFFC_9660, AsBv(0x38))) == 0x651F_2550 && Bits8(Xor(0x651F_2550, AsBv(0x39))) == 0x340B_C6D9
  {
  }

  lemma Ends()
    ensures Complement(0) == 0xFFFF_FFFF && Complement(0x340B_C6D9) == 0xCBF4_3926
    ensures Complement(0xDEBB_20E3) == 0x2144_DF1C
  {
  }

  lemma FedFirst()
    ensures Register(0xFFFF_FFFF, [0x31, 0x32, 0x33, 0x34, 0x35]) == 0x340A_C5E3
  {
    FirstDigits();
    hide Bits8, Xor, AsBv;
    RegisterByte(0xFFFF_FFFF, 0x31, [0x32, 0x33, 0x34, 0x35]);
    RegisterByte(0x7C23_1048, 0x32, [0x33, 0x34, 0x35]);
    RegisterByte(0xB0AC_BB32, 0x33, [0x34, 0x35]);
    RegisterByte(0x77B7_9C2D, 0x34, [0x35]);
    RegisterByte(0x641C_1F5C, 0x35, []);
    assert [0x31] + [0x32, 0x33, 0x34, 0x35] == [0x31, 0x32, 0x33, 0x34, 0x35];
    assert [0x32] + [0x33, 0x34, 0x35] == [0x32, 0x33, 0x34, 0x35];
    assert [0x33] + [0x34, 0x35] == [0x33, 0x34, 0x35];
    assert [0x34] + [0x35] == [0x34, 0x35];
    assert [0x35] + [] == [0x35];
  }

  lemma FedLast()
    ensures Register(0x340A_C5E3, [0x36, 0x37, 0x38, 0x39]) == 0x340B_C6D9
  {
    LastDigits();
    hide Bits8, Xor, AsBv;
    RegisterByte(0x340A_C5E3, 0x36, [0x37, 0x38, 0x39]);
    RegisterByte(0xF68D_2C9E, 0x37, [0x38, 0x39]);
    RegisterByte(0xAFFC_9660, 0x38, [0x39]);
    RegisterByte(0x651F_2550, 0x39, []);
    assert [0x36] + [0x37, 0x38, 0x39] == [0x36, 0x37, 0x38, 0x39];
    assert [0x37] + [0x38, 0x39] == [0x37, 0x38, 0x39];
    assert [0x38] + [0x39] == [0x38, 0x39];
    assert [0x39] + [] == [0x39];
  }

  /** The CRC of the digits "123456789". */
  lemma CheckValue()
    ensures Crc(0, [0x31, 0x32, 0x33, 0x34, 0x35, 0x36, 0x37, 0x38, 0x39]) == 0xCBF4_3926
  {
    FedFirst();
    FedLast();
    Ends();
    hide Register, Complement;
    var a, b := [0x31, 0x32, 0x33, 0x34, 0x35], [0x36, 0x37, 0x38, 0x39];
    RegisterConcat(0xFFFF_FFFF, a, b);
    assert a + b == [0x31, 0x32, 0x33, 0x34, 0x35, 0x36, 0x37, 0x38, 0x39];
  }

  lemma ByteAndBack(y: bv8)
    ensures 0 <= y as int < 0x100 && (y as int) as bv8 == y
  {
  }

  lemma LowBits(w: bv32)
    ensures ((w & 0xFF) as bv8) as bv32 == w & 0xFF
  {
  }

  lemma LowByte(w: bv32)
    ensures AsBv(Low(w)) == w & 0xFF
  {
    var y := (w & 0xFF) as bv8;
    LowBits(w);
    ByteAndBack(y);
    assert Low(w) == y as byte;
    assert AsBv(y as byte) == y as bv32;
    hide Low, AsBv;
  }

  lemma Halves(w: bv32)
    ensures Xor(w & 0xFF, High(w)) == w
  {
  }

  lemma XorAssociative(a: bv32, b: bv32, c: bv32)
    ensures Xor(Xor(a, b), c) == Xor(a, Xor(b, c))
  {
  }

  lemma SplitWord(r: bv32, w: bv32)
    ensures Xor(Xor(r, w & 0xFF), High(w)) == Xor(r, w)
  {
    hide Xor, High;
    Halves(w);
    XorAssociative(r, w & 0xFF, High(w));
  }

  lemma XorBack(a: bv32, b: bv32)
    ensures Xor(Xor(a, b), b) == a
  {
  }

  /** Feeding the low byte of a word into a register: the rest of the word is still to come. */
  lemma FeedByte(r: bv32, w: bv32)
    ensures Bits8(Xor(r, AsBv(Low(w)))) == Xor(Bits8(Xor(r, w)), Shift8(w))
  {
    hide Bits8, Xor, AsBv, Low, High, Shift8;
    LowByte(w);
    SplitWord(r, w);
    Bits8Linear(Xor(r, w & 0xFF), High(w));
    HighBytesShift(w);
    XorBack(Bits8(Xor(r, w & 0xFF)), Shift8(w));
  }

  lemma Shifts(w: bv32)
    ensures Shift8(w) == w >> 8 && Shift8(w >> 8) == w >> 16 && Shift8(w >> 16) == w >> 24 && Shift8(w >> 24) == 0
  {
  }

  lemma XorNothing(c: bv32)
    ensures Xor(c, 0) == c
  {
  }

  function Bits32(c: bv32): bv32 {
    Bits8(Bits8(Bits8(Bits8(c))))
  }

  /** Four bytes, low byte first, are fed in as one word. */
  lemma FeedWord(r: bv32, w: bv32)
    ensures Register(r, CrcField(w)) == Bits32(Xor(r, w))
  {
    hide Bits8, Xor, AsBv, Low, Shift8;
    Shifts(w);
    var x0, f := Xor(r, w), CrcField(w);
    var x1 := Bits8(x0);
    var x2 := Bits8(x1);
    var x3 := Bits8(x2);
    FeedByte(r, w);
    RegisterByte(r, f[0], f[1..]);
    var r1 := Xor(x1, w >> 8);
    FeedByte(r1, w >> 8);
    XorBack(x1, w >> 8);
    RegisterByte(r1, f[1], f[2..]);
    var r2 := Xor(x2, w >> 16);
    FeedByte(r2, w >> 16);
    XorBack(x2, w >> 16);
    RegisterByte(r2, f[2], f[3..]);
    var r3 := Xor(x3, w >> 24);
    FeedByte(r3, w >> 24);
    XorBack(x3, w >> 24);
    RegisterByte(r3, f[3], []);
    XorNothing(Bits8(x3));
    assert f == [f[0]] + f[1..] && f[1..] == [f[1]] + f[2..] && f[2..] == [f[2]] + f[3..] && f[3..] == [f[3]] + [];
  }

  lemma ResidueWord()
    ensures Bits32(0xFFFF_FFFF) == 0xDEBB_20E3
  {
    assert Bits8(0xFFFF_FFFF) == 0x2DFD_1072 && Bits8(0x2DFD_1072) == 0xBE26_ED00;
    assert Bits8(0xBE26_ED00) == 0x00BE_26ED && Bits8(0x00BE_26ED) == 0xDEBB_20E3;
  }

  lemma XorComplement(r: bv32)
    ensures Xor(r, Complement(r)) == 0xFFFF_FFFF
  {
  }

  /** Data followed by its own CRC has the same CRC whatever the data are. */
  lemma Residue(c: bv32, d: seq<byte>)
    ensures Crc(c, d + CrcField(Crc(c, d))) == 0x2144_DF1C
  {
    hide Register, Complement, CrcField, Bits32, Xor;
    var r := Register(Complement(c), d);
    RegisterConcat(Complement(c), d, CrcField(Crc(c, d)));
    FeedWord(r, Complement(r));
    XorComplement(r);
    ResidueWord();
    Ends();
  }

  /** Four zero bytes hold the field of the CRC of nothing. */
  lemma FourZeros()
    ensures Crc(0, [0, 0, 0, 0]) == 0x2144_DF1C
  {
    assert Crc(0, []) == 0;
    assert CrcField(0) == [0, 0, 0, 0];
    hide Crc, CrcField;
    Residue(0, []);
    assert [] + [0, 0, 0, 0] == [0, 0, 0, 0];
  }

  method SparseCrc32(crcIn: bv32, buf: seq<byte>) returns (crc: bv32)
    ensures crc == Crc(crcIn, buf)
  {
    hide TableStep, Bits8, Xor, AsBv, Complement;
    crc := Complement(crcIn);
    var p := 0;
    while p < |buf|
      invariant 0 <= p <= |buf|
      invariant Register(crc, buf[p..]) == Register(Complement(crcIn), buf)
    {
      TableStepIsBitwise(crc, AsBv(buf[p]));
      assert buf[p..][0] == buf[p] && buf[p..][1..] == buf[p + 1..];
      crc := TableStep(crc, AsBv(buf[p]));
      p := p + 1;
    }
    crc := Complement(crc);
  }
}
