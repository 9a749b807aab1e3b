/** Where the guarantees of resparse end. */
module ResparseLimits {
  import opened Defs
  import opened Image
  import opened BackedBlock
  import opened OutputFile
  import opened SparseFile
  import opened Encode
  import opened Resparse
  import opened ResparseSize

  /** Every pass that stops early leaves less than it was given. */
  ghost predicate AlwaysProgresses(budget: u32, bs: nat)
    requires 0 < bs
  {
    forall l: seq<Block> :: CutAt(l, budget, bs).more ==> Measure(CutAt(l, budget, bs).rest) < Measure(l)
  }

  /** A block that fills one block of the image. */
  function OneBlock(bs: u32): seq<Block> {
    [Block(0, bs, Data(Zeros(bs)))]
  }

  /** A budget that covers a chunk header but not a block as well: the same list is left for ever. */
  lemma StuckOnOneBlock(budget: u32, bs: u32)
    requires 0 < bs && CHUNK_HEADER_LEN <= budget < CHUNK_HEADER_LEN + bs
    ensures CutAt(OneBlock(bs), budget, bs).more && CutAt(OneBlock(bs), budget, bs).rest == OneBlock(bs)
  {
    var l := OneBlock(bs);
    DivModUnique(bs + bs - 1, bs, 1, bs - 1);
    assert Cost(l[0], bs) == CHUNK_HEADER_LEN + bs;
    assert Fits(l, 0, 0, budget, bs) == Fit(0, 0);
    var room := budget - CHUNK_HEADER_LEN;
    DivModUnique(room, bs, 0, room);
    assert AlignDown(room, bs) == 0;
    assert Zeros(bs)[0..] == Zeros(bs);
    SplitAtElements(l, 0, room, bs);
  }

  /** With no room for a chunk header, or room for a block beside it, every pass that stops early makes progress. */
  lemma ProgressFrom(l: seq<Block>, budget: u32, bs: u32)
    requires 0 < bs && CutAt(l, budget, bs).more
    requires bs <= INT_MAX && (budget < CHUNK_HEADER_LEN || CHUNK_HEADER_LEN + bs <= budget)
    ensures Measure(CutAt(l, budget, bs).rest) < Measure(l)
  {
    var f := Fits(l, 0, 0, budget, bs);
    FitsSize(l, 0, 0, budget, bs);
    EmptySize(l, bs);
    var room := ToU32(Room(f, budget));
    assert f.n == 0 ==> bs <= room by {
      FirstRoom(budget, bs);
    }
    hide Fits, SplitAt, Measure, ToU32, Size, Cost, GapCost, LastBlock;
    if f.n == 0 {
      SplitProgress(l, 0, room, bs);
    } else if Room(f, budget) > budget / 8 {
      LateSplitProgress(l, f.n, room, bs);
    } else {
      RestMeasure(l, f.n, []);
    }
  }

  lemma FirstRoom(budget: u32, bs: u32)
    requires bs <= INT_MAX
    requires budget < CHUNK_HEADER_LEN || CHUNK_HEADER_LEN + bs <= budget
    ensures bs <= ToU32(budget - CHUNK_HEADER_LEN)
  {
  }

  /** Even a split that leaves an empty block makes progress when whole blocks come before it. */
  lemma LateSplitProgress(l: seq<Block>, n: nat, room: u32, bs: nat)
    requires 0 < bs && 0 < n < |l|
    ensures Measure(SplitAt(l, n, room, bs)[n + 1..]) < Measure(l)
  {
    var k := AlignDown(room, bs);
    var t := if k < l[n].len then [TailOf(l[n], k, bs)] else [];
    assert l[n..][0] == l[n] && l[n..][1..] == l[n + 1..];
    assert Measure(l[n..]) == l[n].len + 1 + Measure(l[n + 1..]);
    hide SplitAt, AlignDown, TailOf, Measure;
    MeasureNothing();
    SplitRest(l, n, room, bs);
    MeasureConcat(t, l[n + 1..]);
    RestMeasure(l, n, []);
  }

  /**
   * Resparse terminates on every list exactly when its budget does not fall between a chunk header and one block
   * more.
   */
  lemma ProgressExactly(budget: u32, bs: u32)
    requires 0 < bs && CHUNK_HEADER_LEN + bs <= INT_MAX
    ensures AlwaysProgresses(budget, bs) <==> budget < CHUNK_HEADER_LEN || CHUNK_HEADER_LEN + bs <= budget
  {
    if CHUNK_HEADER_LEN <= budget < CHUNK_HEADER_LEN + bs {
      StuckOnOneBlock(budget, bs);
    } else {
      forall l: seq<Block> | CutAt(l, budget, bs).more
        ensures Measure(CutAt(l, budget, bs).rest) < Measure(l)
      {
        ProgressFrom(l, budget, bs);
      }
    }
  }

  predicate HasEmpty(l: seq<Block>) {
    exists i :: 0 <= i < |l| && l[i].len == 0
  }

  /** A cut leaves an empty block exactly when a block is split with less room than one block of the image. */
  lemma EmptyBlockExactly(l: seq<Block>, budget: u32, bs: nat, len: nat)
    requires WellFormed(l, bs, len)
    ensures var f := Fits(l, 0, 0, budget, bs);
      HasEmpty(CutAt(l, budget, bs).piece) <==>
        Splits(l, f, budget) && ToU32(Room(f, budget)) < bs
  {
    var f, c := Fits(l, 0, 0, budget, bs), CutAt(l, budget, bs);
    hide WellFormed, Fits, SplitAt, AlignDown, ToU32;
    NoneEmpty(l, bs, len);
    if Splits(l, f, budget) {
      CutLast(l, f.n, ToU32(Room(f, budget)), bs);
      assert ToU32(Room(f, budget)) < bs ==> c.piece[f.n].len == 0;
    }
  }

  lemma NoneEmpty(l: seq<Block>, bs: nat, len: nat)
    requires WellFormed(l, bs, len)
    ensures 0 < bs && forall i :: 0 <= i < |l| ==> 0 < l[i].len
  {
  }

  /** Four fills of different values and one block of data, with blocks of twelve bytes. */
  const FOUR_FILLS: seq<Block> :=
    [Block(0, 12, Fill(0)), Block(1, 12, Fill(1)), Block(2, 12, Fill(2)), Block(3, 12, Fill(3)),
      Block(4, 12, Data(Zeros(12)))]

  lemma FitsOneMore(l: seq<Block>, last: nat, size: nat, budget: nat, bs: nat, r: Fit)
    requires 0 < bs && l != [] && size + GapCost(l[0], last) + Cost(l[0], bs) <= budget
    requires Fits(l[1..], End(l[0], bs), size + GapCost(l[0], last) + Cost(l[0], bs), budget, bs) == r
    ensures Fits(l, last, size, budget, bs) == Fit(r.n + 1, r.size)
  {
    hide GapCost, Cost, End;
  }

  lemma FourFillsFit()
    ensures Fits(FOUR_FILLS, 0, 0, 87, 12) == Fit(4, 64)
  {
    var l := FOUR_FILLS;
    DivModUnique(23, 12, 1, 11);
    assert End(l[0], 12) == 1 && End(l[1], 12) == 2 && End(l[2], 12) == 3 && End(l[3], 12) == 4;
    assert l[4..][0] == l[4] && l[3..][0] == l[3] && l[2..][0] == l[2] && l[1..][0] == l[1];
    assert l[3..][1..] == l[4..] && l[2..][1..] == l[3..] && l[1..][1..] == l[2..];
    assert Cost(l[4], 12) == 24 && Fits(l[4..], 4, 64, 87, 12) == Fit(0, 64);
    hide Fits, End;
    FitsOneMore(l[3..], 3, 48, 87, 12, Fit(0, 64));
    FitsOneMore(l[2..], 2, 32, 87, 12, Fit(1, 64));
    FitsOneMore(l[1..], 1, 16, 87, 12, Fit(2, 64));
    FitsOneMore(l, 0, 0, 87, 12, Fit(3, 64));
  }

  lemma FourFillsWellFormed()
    ensures WellFormed(FOUR_FILLS, 12, 60)
  {
    DivModUnique(23, 12, 1, 11);
    DivModUnique(71, 12, 5, 11);
    var l := FOUR_FILLS;
    assert |l| == 5 && DivRoundUp(60, 12) == 5 && Align(60, 12) == 60;
    assert forall i :: 0 <= i < 5 ==> l[i].block == i && l[i].len == 12;
    assert DivRoundUp(12, 12) == 1;
    hide DivRoundUp, Align, FOUR_FILLS;
  }

  lemma CutInFifth(l: seq<Block>)
    requires |l| == 5 && Fits(l, 0, 0, 87, 12) == Fit(4, 64) && 0 < l[4].len
    ensures CutAt(l, 87, 12).piece == l[..4] + [HeadOf(l[4], 0)]
  {
    DivModUnique(11, 12, 0, 11);
    SplitAtConcat(l, 4, 11, 12);
    hide Fits, SplitAt, HeadOf, TailOf;
  }

  /** One byte below the limit that rules it out, a piece can end in an empty block. */
  lemma EmptyBlockBelowLimit()
    ensures WellFormed(FOUR_FILLS, 12, 60) && RoomyLen(144, 12) && !RoomyLen(143, 12)
    ensures Budget(143) == 87 && CutAt(FOUR_FILLS, 87, 12).piece == FOUR_FILLS[..4] + [Block(4, 0, Data(Zeros(12)))]
  {
    FourFillsFit();
    FourFillsWellFormed();
    CutInFifth(FOUR_FILLS);
    hide Fits, CutAt, WellFormed;
  }

  /** Data of one hundred bytes after a hole of one block, with blocks of four bytes. */
  const AFTER_HOLE: seq<Block> := [Block(1, 100, Data(Zeros(100)))]

  lemma AfterHoleWellFormed()
    ensures WellFormed(AFTER_HOLE, 4, 200)
  {
    DivModUnique(103, 4, 25, 3);
    DivModUnique(203, 4, 50, 3);
  }

  lemma AfterHoleCut()
    ensures CutAt(AFTER_HOLE, 24, 4).piece == [Block(1, 12, Data(Zeros(100)))]
  {
    var l := AFTER_HOLE;
    assert Fits(l, 0, 0, 24, 4) == Fit(0, 0);
    assert AlignDown(12, 4) == 12;
    SplitAtConcat(l, 0, 12, 4);
    hide Fits, SplitAt;
    assert SplitAt(l, 0, 12, 4)[..1] == [Block(1, 12, Data(Zeros(100)))];
  }

  lemma AfterHoleParts(st: Store)
    ensures |BlocksBytes([Block(1, 12, Data(Zeros(100)))], 0, 4, st)| == 36
    ensures |TailBytes([Block(1, 12, Data(Zeros(100)))], 4, 200)| == CHUNK_HEADER_LEN
  {
    var p := [Block(1, 12, Data(Zeros(100)))];
    SizeIsBytes(p, 0, 4, st);
    assert p[1..] == [] && Size(p, 0, 4) == 36 && LastBlock(p, 0, 4) == 4;
    hide BlocksBytes;
  }

  /** The excess of one chunk header that a CRC chunk allows does occur. */
  lemma CrcExceedsLimit(st: Store)
    ensures WellFormed(AFTER_HOLE, 4, 200) && RoomyLen(80, 4) && Roomy(Budget(80), 4)
    ensures |Encoded(Pieces(AFTER_HOLE, Budget(80), 4)[0], 4, 200, true, st)| == 80 + CHUNK_HEADER_LEN
  {
    AfterHoleWellFormed();
    AfterHoleCut();
    RoomyBudget(80, 4);
    AfterHoleParts(st);
    hide CutAt, WellFormed, LastBlock, TailBytes, BlocksBytes, SparseHeader, CountChunks, HashBlocks;
  }

  // ---- a piece less than seven eighths full ----

  /** Data of sixty bytes and of one hundred, with blocks of four bytes. */
  const TWO_RUNS: seq<Block> := [Block(0, 60, Data(Zeros(60))), Block(15, 100, Data(Zeros(100)))]

  lemma TwoRunsFit()
    ensures Fits(TWO_RUNS, 0, 0, 96, 4) == Fit(1, 72)
  {
    var l := TWO_RUNS;
    assert Cost(l[0], 4) == 72 && Cost(l[1], 4) == 112 && End(l[0], 4) == 15;
    assert l[1..][0] == l[1];
    assert Fits(l[1..], 15, 72, 96, 4) == Fit(0, 72);
    hide Fits, End, Cost;
    FitsOneMore(l, 0, 0, 96, 4, Fit(0, 72));
  }

  /**
   * With a budget of 96 bytes the first piece has 72, less than 84; twelve bytes of room are neither used nor split
   * off.
   */
  lemma NotNearlyFull()
    ensures WellFormed(TWO_RUNS, 4, 160) && Roomy(96, 4) && CutAt(TWO_RUNS, 96, 4).more
    ensures Size(CutAt(TWO_RUNS, 96, 4).piece, 0, 4) == 72 < 96 - 96 / 8
  {
    TwoRunsFit();
    FitsSize(TWO_RUNS, 0, 0, 96, 4);
    DivModUnique(163, 4, 40, 3);
    hide Fits, Size;
  }
}
