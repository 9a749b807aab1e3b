/** How large the pieces of a resparse are. */
module ResparseSize {
  import opened Defs
  import opened Image
  import opened BackedBlock
  import opened OutputFile
  import opened SparseFile
  import opened Encode
  import opened Resparse

  // ---- the byte count kept while cutting is the size of the chunks written ----

  lemma ChunkSize(b: Block, bs: nat, st: Store, last: nat)
    requires 0 < bs
    ensures |ChunkBytes(b, bs, st)| == Cost(b, bs) && |GapBytes(b, last)| == GapCost(b, last)
  {
  }

  lemma {:induction false} SizeIsBytes(l: seq<Block>, last: nat, bs: nat, st: Store)
    requires 0 < bs
    ensures |BlocksBytes(l, last, bs, st)| == Size(l, last, bs)
    decreases |l|
  {
    hide ChunkBytes, Cost, GapBytes, GapCost, End;
    if l != [] {
      ChunkSize(l[0], bs, st, last);
      SizeIsBytes(l[1..], End(l[0], bs), bs, st);
    }
  }

  lemma {:induction false} SizeSnoc(l: seq<Block>, b: Block, last: nat, bs: nat)
    requires 0 < bs
    ensures Size(l + [b], last, bs) == Size(l, last, bs) + GapCost(b, LastBlock(l, last, bs)) + Cost(b, bs)
    decreases |l|
  {
    hide Cost, GapCost, End;
    if l == [] {
      assert l + [b] == [b] && [b][1..] == [];
    } else {
      assert (l + [b])[0] == l[0] && (l + [b])[1..] == l[1..] + [b];
      SizeSnoc(l[1..], b, End(l[0], bs), bs);
    }
  }

  // ---- one cut ----

  /** A block cut to the room there was, or left whole because it was no longer than that, still fits beside a gap. */
  lemma HeadCost(b: Block, room: u32, bs: nat)
    requires 4 <= bs <= room
    ensures var n := AlignDown(room, bs);
      var h := if b.len <= n then b else b.(len := n);
      && Cost(h, bs) <= CHUNK_HEADER_LEN + room
      && (h == b || b.src.Fill? ==> Cost(h, bs) == Cost(b, bs))
      && (h != b && !b.src.Fill? ==> Cost(h, bs) == CHUNK_HEADER_LEN + n && room < n + bs)
  {
    AlignDownBounds(room, bs);
    var n := AlignDown(room, bs);
    AlignBounds(n, bs);
    AlignBounds(b.len, bs);
    if b.len <= n {
      RoundUpMono(b.len, n, bs);
      MulMono(DivRoundUp(b.len, bs), DivRoundUp(n, bs), bs);
    }
  }

  /** The last block of a piece that was filled up to the cut, which is empty when there is no room for a block. */
  lemma CutLast(l: seq<Block>, n: nat, room: u32, bs: nat)
    requires 0 < bs && n < |l|
    ensures var k := AlignDown(room, bs);
      && 0 <= k && (k == 0 <==> room < bs)
      && SplitAt(l, n, room, bs)[..n + 1] == l[..n] + [if l[n].len <= k then l[n] else l[n].(len := k)]
  {
    AlignDownBounds(room, bs);
    if AlignDown(room, bs) < l[n].len {
      SplitAtConcat(l, n, room, bs);
    }
    hide AlignDown, SplitAt;
  }

  /** The size of a piece that ends with whole blocks. */
  lemma WholeSize(l: seq<Block>, budget: u32, bs: nat)
    requires Roomy(budget, bs)
    ensures var f, c := Fits(l, 0, 0, budget, bs), CutAt(l, budget, bs);
      !Splits(l, f, budget) ==>
        Size(c.piece, 0, bs) == f.size <= budget && (c.more <==> f.n < |l|) && (c.more ==> 0 < f.n)
  {
    FitsSize(l, 0, 0, budget, bs);
    EmptySize(l, bs);
    assert l[..|l|] == l;
    hide Fits, Size, SplitAt;
  }

  /** The size of a piece whose last block is split off, or fits but for the header of the gap before it. */
  lemma SplitSize(l: seq<Block>, budget: u32, bs: nat)
    requires Roomy(budget, bs) && Splits(l, Fits(l, 0, 0, budget, bs), budget)
    ensures var f := Fits(l, 0, 0, budget, bs);
      var b, room, k := l[f.n], Room(f, budget), AlignDown(ToU32(Room(f, budget)), bs);
      var gap, size := GapCost(b, LastBlock(l[..f.n], 0, bs)), Size(CutAt(l, budget, bs).piece, 0, bs);
      && CutAt(l, budget, bs).more && gap <= CHUNK_HEADER_LEN && k <= room < k + bs
      && size <= f.size + gap + CHUNK_HEADER_LEN + room
      && (if k < b.len && !b.src.Fill? then size == f.size + gap + CHUNK_HEADER_LEN + k else size > budget)
  {
    var f := Fits(l, 0, 0, budget, bs);
    FitsSize(l, 0, 0, budget, bs);
    EmptySize(l, bs);
    RoomForBlock(l, budget, bs);
    var room := ToU32(Room(f, budget));
    var k := AlignDown(room, bs);
    AlignDownBounds(room, bs);
    CutLast(l, f.n, room, bs);
    HeadCost(l[f.n], room, bs);
    SizeSnoc(l[..f.n], if l[f.n].len <= k then l[f.n] else l[f.n].(len := k), 0, bs);
    hide Fits, Size, Cost, SplitAt, LastBlock, AlignDown, ToU32;
  }

  lemma RoomyGives(budget: u32, bs: nat)
    requires Roomy(budget, bs)
    ensures 0 < bs && bs - 1 <= budget / 8
  {
  }

  lemma RoomIs(f: Fit, budget: u32)
    ensures Room(f, budget) == budget - f.size - CHUNK_HEADER_LEN
  {
  }

  /** A piece exceeds the budget by a gap header at most, and when the pass stopped early it is nearly full. */
  lemma PieceSize(l: seq<Block>, budget: u32, bs: nat)
    requires Roomy(budget, bs)
    ensures var c := CutAt(l, budget, bs);
      && Size(c.piece, 0, bs) <= budget + CHUNK_HEADER_LEN
      && (c.more ==> Size(c.piece, 0, bs) >= budget - budget / 8 - CHUNK_HEADER_LEN)
  {
    var f := Fits(l, 0, 0, budget, bs);
    WholeSize(l, budget, bs);
    RoomyGives(budget, bs);
    RoomIs(f, budget);
    if Splits(l, f, budget) {
      SplitSize(l, budget, bs);
    }
    hide Fits, CutAt, Size, LastBlock, AlignDown, ToU32, Room;
  }

  /** The room left after the blocks that fit is neither split off nor within an eighth of the budget. */
  predicate WastesRoom(f: Fit, budget: u32) {
    0 < f.n && Room(f, budget) <= budget / 8 < Room(f, budget) + CHUNK_HEADER_LEN
  }

  /**
   * A piece that stopped early is seven eighths full exactly when it did not waste room: the test for a split
   * takes the next chunk header off the room first, so up to that header may be missing.
   */
  lemma NearlyFullExactly(l: seq<Block>, budget: u32, bs: nat)
    requires Roomy(budget, bs) && CutAt(l, budget, bs).more
    ensures Size(CutAt(l, budget, bs).piece, 0, bs) >= budget - budget / 8
       <==> !WastesRoom(Fits(l, 0, 0, budget, bs), budget)
  {
    var f := Fits(l, 0, 0, budget, bs);
    WholeSize(l, budget, bs);
    RoomyGives(budget, bs);
    RoomIs(f, budget);
    if Splits(l, f, budget) {
      SplitSize(l, budget, bs);
    }
    hide Fits, CutAt, Size, LastBlock, AlignDown, ToU32, Room;
  }

  // ---- every piece written ----

  lemma EncodedSize(l: seq<Block>, bs: nat, len: nat, c: bool, st: Store)
    requires 0 < bs
    ensures |Encoded(l, bs, len, c, st)| ==
            SPARSE_HEADER_LEN + Size(l, 0, bs) + |TailBytes(l, bs, len)| + (if c then CHUNK_HEADER_LEN + 4 else 0)
    ensures |TailBytes(l, bs, len)| <= CHUNK_HEADER_LEN
  {
    SizeIsBytes(l, 0, bs, st);
    hide SparseHeader, BlocksBytes, HashBlocks, CountChunks, LastBlock;
  }

  /** Enough for the header, the CRC, a hole at the end and at least eight blocks less eight bytes. */
  predicate RoomyLen(maxLen: u32, bs: nat) {
    0 < bs && bs % 4 == 0 && OVERHEAD + 8 * (bs - 1) <= maxLen
  }

  lemma RoomyBudget(maxLen: u32, bs: nat)
    requires RoomyLen(maxLen, bs)
    ensures Roomy(Budget(maxLen), bs) && Budget(maxLen) == maxLen - OVERHEAD
  {
    SmallMod(maxLen - OVERHEAD);
  }

  /**
   * Every piece written without CRC is smaller than the limit, although a split ignores the header of the gap
   * before it; with a CRC chunk it may exceed the limit by that header.
   */
  lemma {:induction false} PiecesBelowLimit(l: seq<Block>, maxLen: u32, bs: nat, len: nat, st: Store, i: nat)
    requires RoomyLen(maxLen, bs) && Roomy(Budget(maxLen), bs) && i < |Pieces(l, Budget(maxLen), bs)|
    ensures var piece := Pieces(l, Budget(maxLen), bs)[i];
      && |Encoded(piece, bs, len, false, st)| < maxLen
      && |Encoded(piece, bs, len, true, st)| <= maxLen + CHUNK_HEADER_LEN
    decreases Measure(l)
  {
    var budget := Budget(maxLen);
    var c := CutAt(l, budget, bs);
    RoomyBudget(maxLen, bs);
    hide Encoded, Size, CutAt;
    if i == 0 {
      PieceSize(l, budget, bs);
      EncodedSize(c.piece, bs, len, false, st);
      EncodedSize(c.piece, bs, len, true, st);
    } else {
      CutProgress(l, budget, bs);
      PiecesBelowLimit(c.rest, maxLen, bs, len, st, i - 1);
    }
  }

  /** A piece written with a CRC chunk stays below the limit exactly when its chunks leave room for that of a gap. */
  lemma CrcBelowLimit(piece: seq<Block>, maxLen: u32, bs: nat, len: nat, st: Store)
    requires RoomyLen(maxLen, bs)
    ensures |Encoded(piece, bs, len, true, st)| < maxLen
       <==> Size(piece, 0, bs) + |TailBytes(piece, bs, len)| < Budget(maxLen) + CHUNK_HEADER_LEN
  {
    RoomyBudget(maxLen, bs);
    EncodedSize(piece, bs, len, true, st);
    hide Encoded, Size, TailBytes;
  }

  /**
   * The cut stays strictly within the budget: a block of data is split, and rounding the room down to whole blocks
   * gives up more than the header of the gap before it; or no block is split and the budget is not used up.
   */
  predicate CutsWithin(l: seq<Block>, budget: u32, bs: nat)
    requires 0 < bs
  {
    var f := Fits(l, 0, 0, budget, bs);
    var room := Room(f, budget);
    if Splits(l, f, budget) then
      && !l[f.n].src.Fill? && AlignDown(ToU32(room), bs) < l[f.n].len
      && GapCost(l[f.n], LastBlock(l[..f.n], 0, bs)) < room - AlignDown(ToU32(room), bs)
    else f.size < budget
  }

  lemma CutSize(l: seq<Block>, budget: u32, bs: nat)
    requires Roomy(budget, bs) && CutAt(l, budget, bs).more
    ensures Size(CutAt(l, budget, bs).piece, 0, bs) < budget <==> CutsWithin(l, budget, bs)
  {
    var f := Fits(l, 0, 0, budget, bs);
    WholeSize(l, budget, bs);
    RoomyGives(budget, bs);
    RoomIs(f, budget);
    if Splits(l, f, budget) {
      SplitSize(l, budget, bs);
    }
    hide Fits, CutAt, Size, LastBlock, AlignDown, ToU32, Room;
  }

  lemma TailBeforeRest(piece: seq<Block>, rest: seq<Block>, bs: nat, len: nat)
    requires WellFormed(piece + rest, bs, len) && WellFormed(piece, bs, len) && len % bs == 0 && rest != []
    ensures |TailBytes(piece, bs, len)| == CHUNK_HEADER_LEN
  {
    hide DivRoundUp, LastBlock;
    Boundary(piece, rest, bs);
    assert (piece + rest)[|piece|] == rest[0];
    AlignBounds(rest[0].len, bs);
    LastBlockBound(piece, 0, bs, rest[0].block);
    PadWithin(piece, bs, len);
  }

  /** For a piece that others follow, that is decided where it is cut. */
  lemma CrcBelowLimitExactly(l: seq<Block>, maxLen: u32, bs: nat, len: nat, st: Store)
    requires WellFormed(l, bs, len) && len % bs == 0 && RoomyLen(maxLen, bs)
    requires CutAt(l, Budget(maxLen), bs).more && CutAt(l, Budget(maxLen), bs).rest != []
    ensures |Encoded(CutAt(l, Budget(maxLen), bs).piece, bs, len, true, st)| < maxLen
       <==> CutsWithin(l, Budget(maxLen), bs)
  {
    hide *;
    RoomyBudget(maxLen, bs);
    var c := CutAt(l, Budget(maxLen), bs);
    CutKeeps(l, Budget(maxLen), bs, len, st);
    TailBeforeRest(c.piece, c.rest, bs, len);
    CrcBelowLimit(c.piece, maxLen, bs, len, st);
    CutSize(l, Budget(maxLen), bs);
  }

  /** Every piece but the last fills at least seven eighths of the budget, less one chunk header. */
  lemma {:induction false} PiecesNearlyFull(l: seq<Block>, budget: u32, bs: nat, i: nat)
    requires Roomy(budget, bs) && i < |Pieces(l, budget, bs)| - 1
    ensures Size(Pieces(l, budget, bs)[i], 0, bs) >= budget - budget / 8 - CHUNK_HEADER_LEN
    decreases Measure(l)
  {
    var c := CutAt(l, budget, bs);
    hide Size, CutAt;
    PieceSize(l, budget, bs);
    if i != 0 {
      CutProgress(l, budget, bs);
      PiecesNearlyFull(c.rest, budget, bs, i - 1);
    }
  }
}
