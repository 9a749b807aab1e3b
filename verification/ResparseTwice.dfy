/** Resparsing a list that has already been split and put back cuts it at the same places. */
module ResparseTwice {
  import opened Defs
  import opened Image
  import opened BackedBlock
  import opened OutputFile
  import opened SparseFile
  import opened Encode
  import opened Resparse
  import opened ResparseSize

  /** f begins as r does, except that its first block may be the head of r's, cut to the room of an empty piece. */
  predicate BeginsLike(f: seq<Block>, r: seq<Block>, budget: u32, bs: nat)
    requires 0 < bs
  {
    if r == [] then f == []
    else
      && f != [] && f[0].block == r[0].block
      && (f[0] == r[0] ||
          (f[0].src == r[0].src && CHUNK_HEADER_LEN <= budget &&
            0 < f[0].len == AlignDown(budget - CHUNK_HEADER_LEN, bs)))
  }

  /** The pieces of r put end to end begin like r. */
  lemma FlatBegins(r: seq<Block>, budget: u32, bs: nat)
    requires Roomy(budget, bs)
    ensures BeginsLike(Flat(Pieces(r, budget, bs)), r, budget, bs)
  {
    var c, ps := CutAt(r, budget, bs), Pieces(r, budget, bs);
    if r == [] {
      CutOfNothing(budget, bs);
    } else {
      assert c.piece != [] && ps[0] == c.piece by {
        CutStarts(r, budget, bs);
      }
      assert Flat(ps)[0] == c.piece[0];
      CutHead(r, budget, bs);
    }
  }

  /** The first block of a piece is that of the list, or its head cut to the room of an empty piece. */
  lemma CutHead(l: seq<Block>, budget: u32, bs: nat)
    requires Roomy(budget, bs) && l != []
    ensures var c := CutAt(l, budget, bs);
      && c.piece != [] && c.piece[0].block == l[0].block
      && (c.piece[0] == l[0] ||
          (c.piece[0].src == l[0].src && CHUNK_HEADER_LEN <= budget
           && 0 < c.piece[0].len == AlignDown(budget - CHUNK_HEADER_LEN, bs)))
  {
    var f := Fits(l, 0, 0, budget, bs);
    RoomForBlock(l, budget, bs);
    FitsSize(l, 0, 0, budget, bs);
    EmptySize(l, bs);
    if Splits(l, f, budget) {
      var room := ToU32(Room(f, budget));
      AlignDownBounds(room, bs);
      if AlignDown(room, bs) < l[f.n].len {
        SplitAtElements(l, f.n, room, bs);
      }
    }
    hide SplitAt, AlignDown, Fits, Size, ToU32;
  }

  /** Cutting again where a cut did not split, or where the block at the cut still does not fit. */
  lemma SameCut(x: seq<Block>, y: seq<Block>, n: nat, budget: u32, bs: nat)
    requires Roomy(budget, bs)
    requires Fits(x + y, 0, 0, budget, bs).n == n < |x + y|
    requires var f := Fits(x + y, 0, 0, budget, bs);
      if n == 0 || Room(f, budget) > budget / 8
      then |x| == n + 1 && x[n].len <= AlignDown(ToU32(Room(f, budget)), bs)
      else |x| == n
    ensures CutAt(x + y, budget, bs) == Cut(x, y, true)
  {
    var l := x + y;
    assert l[..|x|] == x && l[|x|..] == y;
    assert |x| == n + 1 ==> l[n] == x[n];
    hide Fits, AlignDown, ToU32;
  }

  /** A block that did not fit is still too large when it has become the head of a later piece. */
  lemma HeadStillTooLarge(r: seq<Block>, g: seq<Block>, size: nat, last: nat, budget: u32, bs: nat)
    requires Roomy(budget, bs) && r != [] && BeginsLike(g, r, budget, bs)
    requires size + GapCost(r[0], last) + Cost(r[0], bs) > budget && budget - size - CHUNK_HEADER_LEN <= budget / 8
    ensures size + GapCost(g[0], last) + Cost(g[0], bs) > budget
  {
    if g[0] != r[0] && !g[0].src.Fill? {
      AlignDownBounds(budget - CHUNK_HEADER_LEN, bs);
      AlignBounds(g[0].len, bs);
    }
    hide AlignDown, Align;
  }

  /** A cut that did not split. */
  lemma CutAgainWhole(l: seq<Block>, g: seq<Block>, budget: u32, bs: nat)
    requires Roomy(budget, bs)
    requires var f := Fits(l, 0, 0, budget, bs);
      0 < f.n < |l| && Room(f, budget) <= budget / 8 && BeginsLike(g, l[f.n..], budget, bs)
    ensures CutAt(l[..Fits(l, 0, 0, budget, bs).n] + g, budget, bs) == Cut(l[..Fits(l, 0, 0, budget, bs).n], g, true)
  {
    var f := Fits(l, 0, 0, budget, bs);
    FitsSize(l, 0, 0, budget, bs);
    FitsPrefix(l, 0, 0, budget, bs);
    hide Fits, LastBlock, Size, Cost, GapCost;
    assert l[f.n..][0] == l[f.n];
    HeadStillTooLarge(l[f.n..], g, f.size, LastBlock(l[..f.n], 0, bs), budget, bs);
    FitsExactly(l[..f.n], g, budget, bs);
    SameCut(l[..f.n], g, f.n, budget, bs);
  }

  /** A cut at a block h that still does not fit. */
  lemma CutAgainTooLarge(x: seq<Block>, h: Block, g: seq<Block>, budget: u32, bs: nat)
    requires Roomy(budget, bs) && Fits(x, 0, 0, budget, bs).n == |x|
    requires var f := Fits(x, 0, 0, budget, bs);
      && f.size + GapCost(h, LastBlock(x, 0, bs)) + Cost(h, bs) > budget
      && (|x| == 0 || Room(f, budget) > budget / 8)
      && h.len <= AlignDown(ToU32(Room(f, budget)), bs)
    ensures CutAt(x + [h] + g, budget, bs) == Cut(x + [h], g, true)
  {
    assert x + [h] + g == x + ([h] + g);
    FitsExactly(x, [h] + g, budget, bs);
    hide Fits, LastBlock, Cost, GapCost, AlignDown, ToU32;
    SameCut(x + [h], g, |x|, budget, bs);
  }

  /** A cut after a head h that now fits, with its tail, or the head of its tail, next. */
  lemma CutAgainFits(x: seq<Block>, h: Block, g: seq<Block>, budget: u32, bs: nat)
    requires Roomy(budget, bs) && Fits(x, 0, 0, budget, bs).n == |x|
    requires var f := Fits(x, 0, 0, budget, bs);
      && f.size + GapCost(h, LastBlock(x, 0, bs)) + Cost(h, bs) <= budget
      && Cost(h, bs) + bs > CHUNK_HEADER_LEN + Room(f, budget)
    requires g != [] && !g[0].src.Fill? && 0 < g[0].len
    ensures CutAt(x + [h] + g, budget, bs) == Cut(x + [h], g, true)
  {
    var f := Fits(x, 0, 0, budget, bs);
    var next := f.size + GapCost(h, LastBlock(x, 0, bs)) + Cost(h, bs);
    FitsAppend(x, [h], 0, 0, budget, bs);
    assert [h][1..] == [];
    assert Fits([h], LastBlock(x, 0, bs), f.size, budget, bs) == Fit(1, next);
    AlignBounds(g[0].len, bs);
    assert Cost(g[0], bs) >= CHUNK_HEADER_LEN + bs;
    hide Fits, LastBlock, Cost, GapCost, AlignDown, Align;
    FitsExactly(x + [h], g, budget, bs);
    SameCut(x + [h], g, |x| + 1, budget, bs);
  }

  /** A piece followed by anything that begins like the rest is cut off again, unchanged. */
  lemma CutAgain(l: seq<Block>, g: seq<Block>, budget: u32, bs: nat)
    requires Roomy(budget, bs) && CutAt(l, budget, bs).more && BeginsLike(g, CutAt(l, budget, bs).rest, budget, bs)
    requires forall i :: 0 <= i < |l| ==> 0 < l[i].len
    ensures CutAt(CutAt(l, budget, bs).piece + g, budget, bs) == Cut(CutAt(l, budget, bs).piece, g, true)
  {
    var f, c := Fits(l, 0, 0, budget, bs), CutAt(l, budget, bs);
    RoomForBlock(l, budget, bs);
    if f.n == 0 || Room(f, budget) > budget / 8 {
      CutAgainSplit(l, g, budget, bs);
    } else {
      CutAgainWhole(l, g, budget, bs);
    }
  }

  lemma CutAgainSplit(l: seq<Block>, g: seq<Block>, budget: u32, bs: nat)
    requires Roomy(budget, bs) && BeginsLike(g, CutAt(l, budget, bs).rest, budget, bs)
    requires forall i :: 0 <= i < |l| ==> 0 < l[i].len
    requires var f := Fits(l, 0, 0, budget, bs); f.n < |l| && (f.n == 0 || Room(f, budget) > budget / 8)
    ensures CutAt(CutAt(l, budget, bs).piece + g, budget, bs) == Cut(CutAt(l, budget, bs).piece, g, true)
  {
    var f, c := Fits(l, 0, 0, budget, bs), CutAt(l, budget, bs);
    RoomForBlock(l, budget, bs);
    var n, room := f.n, ToU32(Room(f, budget));
    var k := AlignDown(room, bs);
    AlignDownBounds(room, bs);
    var h := if l[n].len <= k then l[n] else l[n].(len := k);
    CutLast(l, n, room, bs);
    HeadCost(l[n], room, bs);
    FitsSize(l, 0, 0, budget, bs);
    FitsPrefix(l, 0, 0, budget, bs);
    assert c.piece == l[..n] + [h];
    if f.size + GapCost(h, LastBlock(l[..n], 0, bs)) + Cost(h, bs) > budget {
      CutAgainTooLarge(l[..n], h, g, budget, bs);
    } else {
      SplitAtElements(l, n, room, bs);
      assert c.rest[0] == TailOf(l[n], k, bs);
      CutAgainFits(l[..n], h, g, budget, bs);
    }
  }

  /**
   * Two-pass agreement: a list split by a first pass and put back is cut at the same places by a second one,
   * so both return the same count.
   */
  lemma {:induction false} SecondPassAgrees(l: seq<Block>, budget: u32, bs: nat, len: nat, st: Store)
    requires WellFormed(l, bs, len) && Roomy(budget, bs)
    ensures Pieces(Flat(Pieces(l, budget, bs)), budget, bs) == Pieces(l, budget, bs)
    decreases Measure(l)
  {
    var c := CutAt(l, budget, bs);
    if c.more {
      CutProgress(l, budget, bs);
      CutKeeps(l, budget, bs, len, st);
      var ps := Pieces(c.rest, budget, bs);
      SecondPassAgrees(c.rest, budget, bs, len, st);
      FlatBegins(c.rest, budget, bs);
      FlatCons(c.piece, ps);
      CutAgain(l, Flat(ps), budget, bs);
    } else {
      CutDivides(l, budget, bs);
      FlatCons(l, []);
    }
  }
}
