/** Cutting an image into pieces under a byte budget: what sparse_file_resparse computes. */
module Resparse {
  import opened Defs
  import opened Image
  import opened BackedBlock
  import opened OutputFile
  import opened SparseFile
  import opened Encode

  /** Sparse header, two chunk headers (the hole at the end and the CRC chunk) and the CRC itself. */
  const OVERHEAD: int := SPARSE_HEADER_LEN + 2 * CHUNK_HEADER_LEN + 4

  function Budget(maxLen: u32): u32 {
    ToU32(maxLen - OVERHEAD)
  }

  /** Bytes of the chunk of a block. */
  function Cost(b: Block, bs: nat): nat
    requires 0 < bs
  {
    CHUNK_HEADER_LEN + if b.src.Fill? then 4 else Align(b.len, bs)
  }

  function GapCost(b: Block, last: nat): nat {
    if b.block > last then CHUNK_HEADER_LEN else 0
  }

  /** Bytes of the chunks of a list, gaps included. */
  function Size(l: seq<Block>, last: nat, bs: nat): nat
    requires 0 < bs
  {
    if l == [] then 0 else GapCost(l[0], last) + Cost(l[0], bs) + Size(l[1..], End(l[0], bs), bs)
  }

  /** How many whole blocks from the front stay within the budget, and the bytes they take, starting from size. */
  datatype Fit = Fit(n: nat, size: nat)

  function Fits(l: seq<Block>, last: nat, size: nat, budget: nat, bs: nat): (f: Fit)
    requires 0 < bs
    ensures f.n <= |l|
    decreases |l|
  {
    if l == [] then Fit(0, size)
    else
      var next := size + GapCost(l[0], last) + Cost(l[0], bs);
      if next > budget then Fit(0, size)
      else var r := Fits(l[1..], End(l[0], bs), next, budget, bs); Fit(r.n + 1, r.size)
  }

  /** The piece moved out, what is left, and whether the pass stopped before the end of the list. */
  datatype Cut = Cut(piece: seq<Block>, rest: seq<Block>, more: bool)

  /** Room left in the budget for the data of a further chunk. */
  function Room(f: Fit, budget: u32): int {
    budget - f.size - CHUNK_HEADER_LEN
  }

  /** The cut splits the first block that does not fit. */
  predicate Splits(l: seq<Block>, f: Fit, budget: u32) {
    f.n < |l| && (f.n == 0 || Room(f, budget) > budget / 8)
  }

  function CutAt(l: seq<Block>, budget: u32, bs: nat): Cut
    requires 0 < bs
  {
    var f := Fits(l, 0, 0, budget, bs);
    if f.n == |l| then Cut(l, [], false)
    else if f.n == 0 || Room(f, budget) > budget / 8 then
      var m := SplitAt(l, f.n, ToU32(Room(f, budget)), bs);
      Cut(m[..f.n + 1], m[f.n + 1..], true)
    else Cut(l[..f.n], l[f.n..], true)
  }

  /** Enough budget that every split leaves a whole block on both sides. */
  predicate Roomy(budget: u32, bs: nat) {
    0 < bs && bs % 4 == 0 && 8 * (bs - 1) <= budget
  }

  // ---- the blocks that fit ----

  lemma {:induction false} FitsSize(l: seq<Block>, last: nat, size: nat, budget: nat, bs: nat)
    requires 0 < bs
    ensures var f := Fits(l, last, size, budget, bs);
      && f.size == size + Size(l[..f.n], last, bs)
      && (0 < f.n ==> f.size <= budget)
      && (f.n < |l| ==> f.size + GapCost(l[f.n], LastBlock(l[..f.n], last, bs)) + Cost(l[f.n], bs) > budget)
    decreases |l|
  {
    hide Cost, GapCost, End;
    if l != [] {
      var next := size + GapCost(l[0], last) + Cost(l[0], bs);
      if next <= budget {
        var r := Fits(l[1..], End(l[0], bs), next, budget, bs);
        FitsSize(l[1..], End(l[0], bs), next, budget, bs);
        assert l[..r.n + 1][1..] == l[1..][..r.n] && l[..r.n + 1][0] == l[0];
        assert r.n < |l[1..]| ==> l[1..][r.n] == l[r.n + 1];
      }
    }
  }

  /** What fits of x + y, when all of x does. */
  lemma {:induction false} FitsAppend(x: seq<Block>, y: seq<Block>, last: nat, size: nat, budget: nat, bs: nat)
    requires 0 < bs && Fits(x, last, size, budget, bs).n == |x|
    ensures var f, g := Fits(x, last, size, budget, bs), Fits(x + y, last, size, budget, bs);
      g == Fit(|x| + Fits(y, LastBlock(x, last, bs), f.size, budget, bs).n,
        Fits(y, LastBlock(x, last, bs), f.size, budget, bs).size)
    decreases |x|
  {
    hide Cost, GapCost, End;
    if x == [] {
      assert x + y == y;
    } else {
      assert (x + y)[0] == x[0] && (x + y)[1..] == x[1..] + y;
      FitsAppend(x[1..], y, End(x[0], bs), size + GapCost(x[0], last) + Cost(x[0], bs), budget, bs);
    }
  }

  /** The blocks that fit in a list all fit on their own. */
  lemma {:induction false} FitsPrefix(l: seq<Block>, last: nat, size: nat, budget: nat, bs: nat)
    requires 0 < bs
    ensures var f := Fits(l, last, size, budget, bs); Fits(l[..f.n], last, size, budget, bs) == f
    decreases |l|
  {
    hide Cost, GapCost, End;
    if l != [] {
      var next := size + GapCost(l[0], last) + Cost(l[0], bs);
      if next <= budget {
        var r := Fits(l[1..], End(l[0], bs), next, budget, bs);
        FitsPrefix(l[1..], End(l[0], bs), next, budget, bs);
        assert l[..r.n + 1][1..] == l[1..][..r.n] && l[..r.n + 1][0] == l[0];
      }
    }
  }

  /** If the blocks x fit and the next one does not, x is what fits. */
  lemma FitsExactly(x: seq<Block>, y: seq<Block>, budget: nat, bs: nat)
    requires 0 < bs && Fits(x, 0, 0, budget, bs).n == |x|
    requires y != [] ==>
      Fits(x, 0, 0, budget, bs).size + GapCost(y[0], LastBlock(x, 0, bs)) + Cost(y[0], bs) > budget
    ensures Fits(x + y, 0, 0, budget, bs) == Fits(x, 0, 0, budget, bs)
  {
    FitsAppend(x, y, 0, 0, budget, bs);
  }

  // ---- one cut ----

  /** Where a split happens, a whole block fits before it. */
  lemma RoomForBlock(l: seq<Block>, budget: u32, bs: nat)
    requires Roomy(budget, bs)
    ensures var f := Fits(l, 0, 0, budget, bs);
      Splits(l, f, budget) ==>
        bs <= Room(f, budget) <= budget && ToU32(Room(f, budget)) == Room(f, budget)
  {
    var f := Fits(l, 0, 0, budget, bs);
    FitsSize(l, 0, 0, budget, bs);
    EmptySize(l, bs);
    hide Fits, Size, GapCost, Cost, LastBlock;
    assert bs >= 4;
    assert f.n == 0 ==> f.size == 0;
    if Splits(l, f, budget) {
      SmallMod(Room(f, budget));
    }
  }

  lemma EmptySize(l: seq<Block>, bs: nat)
    requires 0 < bs
    ensures l[..0] == [] && Size([], 0, bs) == 0
  {
  }

  /** The list a cut divides: the original, with one block split when the cut falls inside it. */
  function Divided(l: seq<Block>, budget: u32, bs: nat): seq<Block>
    requires 0 < bs
  {
    var f := Fits(l, 0, 0, budget, bs);
    if Splits(l, f, budget) then SplitAt(l, f.n, ToU32(Room(f, budget)), bs) else l
  }

  lemma CutDivides(l: seq<Block>, budget: u32, bs: nat)
    requires 0 < bs
    ensures var c := CutAt(l, budget, bs);
      c.piece + c.rest == Divided(l, budget, bs) && (!c.more ==> c.piece == l && c.rest == [])
  {
    hide SplitAt, Room;
    var c := CutAt(l, budget, bs);
    var m := Divided(l, budget, bs);
    assert c.piece == m[..|c.piece|] && c.rest == m[|c.piece|..];
  }

  lemma MultipleDifference(x: nat, n: nat, bs: nat)
    requires 0 < bs && n <= x && x % bs == 0 && n % bs == 0
    ensures (x - n) % bs == 0
  {
    assert x == (x / bs) * bs && n == (n / bs) * bs;
    Distribute(x / bs - n / bs, n / bs, bs);
    DivModUnique(x - n, bs, x / bs - n / bs, 0);
  }

  /** Splitting off at least one block keeps an image well formed. */
  lemma SplitKeepsWellFormed(l: seq<Block>, i: nat, room: u32, bs: nat, len: nat)
    requires WellFormed(l, bs, len) && i < |l| && bs <= room
    ensures WellFormed(SplitAt(l, i, room, bs), bs, len)
  {
    WellFormedAll(l, bs, len);
    SplitAtKeepsOrder(l, i, room, bs);
    AlignDownBounds(room, bs);
    var n := AlignDown(room, bs);
    var m := SplitAt(l, i, room, bs);
    if n < l[i].len {
      SplitExtents(l[i], n, bs);
      SplitAtElements(l, i, room, bs);
      if l[i].src.Fill? {
        MultipleDifference(l[i].len, n, bs);
      }
      hide SplitAt, AlignDown, DivRoundUp, Align, Sorted;
      forall k | 0 <= k < |m|
        ensures 0 < m[k].len && End(m[k], bs) <= DivRoundUp(len, bs) && (m[k].src.Fill? ==> m[k].len % bs == 0)
      {
        assert k < i ==> m[k] == l[k];
        assert k > i + 1 ==> m[k] == l[k - 1];
      }
    }
  }

  lemma SliceWellFormed(l: seq<Block>, k: nat, bs: nat, len: nat)
    requires WellFormed(l, bs, len) && k <= |l|
    ensures WellFormed(l[..k], bs, len) && WellFormed(l[k..], bs, len)
  {
    hide DivRoundUp, Align;
    assert forall i :: 0 <= i < |l| - k ==> l[k..][i] == l[i + k];
  }

  /** A cut leaves two images of the same length that together denote the original. */
  lemma CutKeeps(l: seq<Block>, budget: u32, bs: nat, len: nat, st: Store)
    requires WellFormed(l, bs, len) && Roomy(budget, bs)
    ensures var c := CutAt(l, budget, bs);
      && WellFormed(c.piece, bs, len) && WellFormed(c.rest, bs, len) && WellFormed(c.piece + c.rest, bs, len)
      && SameBytes(c.piece + c.rest, l, bs, st)
  {
    var c, f := CutAt(l, budget, bs), Fits(l, 0, 0, budget, bs);
    CutDivides(l, budget, bs);
    RoomForBlock(l, budget, bs);
    WellFormedAll(l, bs, len);
    var m := Divided(l, budget, bs);
    if m != l {
      SplitKeepsWellFormed(l, f.n, ToU32(Room(f, budget)), bs, len);
      forall p: nat
        ensures Lookup(m, bs, st, p) == Lookup(l, bs, st, p)
      {
        SplitAtKeepsImage(l, f.n, ToU32(Room(f, budget)), bs, st, p);
      }
    }
    hide WellFormed, SplitAt, Fits, CutAt;
    SliceWellFormed(m, |c.piece|, bs, len);
    assert m[..|c.piece|] == c.piece && m[|c.piece|..] == c.rest;
  }

  /** Bytes of extents, plus one for each extent. */
  function Measure(l: seq<Block>): nat {
    if l == [] then 0 else l[0].len + 1 + Measure(l[1..])
  }

  lemma {:induction false} MeasureConcat(x: seq<Block>, y: seq<Block>)
    ensures Measure(x + y) == Measure(x) + Measure(y)
  {
    if x == [] {
      assert x + y == y;
    } else {
      assert (x + y)[0] == x[0] && (x + y)[1..] == x[1..] + y;
      MeasureConcat(x[1..], y);
    }
  }

  lemma MeasureFrom(l: seq<Block>, n: nat)
    requires n < |l|
    ensures Measure(l[n..]) == l[n].len + 1 + Measure(l[n + 1..])
  {
    assert l[n..][0] == l[n] && l[n..][1..] == l[n + 1..];
  }

  /** What follows element n of l, with element n replaced by something shorter. */
  lemma RestMeasure(l: seq<Block>, n: nat, x: seq<Block>)
    requires n < |l| && Measure(x) < l[n].len + 1
    ensures Measure(x + l[n + 1..]) < Measure(l)
    ensures 0 < n ==> Measure(l[n..]) < Measure(l)
  {
    hide Measure;
    MeasureConcat(x, l[n + 1..]);
    MeasureConcat(l[..n], l[n..]);
    assert l[..n] + l[n..] == l;
    MeasureFrom(l, n);
    if 0 < n {
      MeasureFrom(l[..n], 0);
    }
  }

  /** While a pass stops early, what is left strictly decreases. */
  lemma CutProgress(l: seq<Block>, budget: u32, bs: nat)
    requires Roomy(budget, bs) && CutAt(l, budget, bs).more
    ensures Measure(CutAt(l, budget, bs).rest) < Measure(l)
  {
    var f := Fits(l, 0, 0, budget, bs);
    RoomForBlock(l, budget, bs);
    if f.n == 0 || Room(f, budget) > budget / 8 {
      SplitProgress(l, f.n, ToU32(Room(f, budget)), bs);
    } else {
      RestMeasure(l, f.n, []);
    }
    hide Fits, SplitAt, Measure, ToU32;
  }

  /** What a split leaves after element n. */
  lemma SplitRest(l: seq<Block>, n: nat, room: u32, bs: nat)
    requires 0 < bs && n < |l|
    ensures var k := AlignDown(room, bs);
      && 0 <= k && (bs <= room ==> 0 < k)
      && SplitAt(l, n, room, bs)[n + 1..] == (if k < l[n].len then [TailOf(l[n], k, bs)] else []) + l[n + 1..]
      && (k < l[n].len ==> Measure([TailOf(l[n], k, bs)]) == l[n].len - k + 1)
  {
    AlignDownBounds(room, bs);
    var k := AlignDown(room, bs);
    if k < l[n].len {
      SplitAtConcat(l, n, room, bs);
      assert [TailOf(l[n], k, bs)][1..] == [];
    }
    hide SplitAt, AlignDown;
  }

  lemma SplitProgress(l: seq<Block>, n: nat, room: u32, bs: nat)
    requires 0 < bs <= room && n < |l|
    ensures Measure(SplitAt(l, n, room, bs)[n + 1..]) < Measure(l)
  {
    hide SplitAt, AlignDown, TailOf, Measure;
    SplitRest(l, n, room, bs);
    var k := AlignDown(room, bs);
    assert Measure([]) == 0 by {
      MeasureNothing();
    }
    RestMeasure(l, n, if k < l[n].len then [TailOf(l[n], k, bs)] else []);
  }

  function Bytes(l: seq<Block>): nat {
    if l == [] then 0 else l[0].len + Bytes(l[1..])
  }

  lemma {:induction false} BytesConcat(x: seq<Block>, y: seq<Block>)
    ensures Bytes(x + y) == Bytes(x) + Bytes(y)
  {
    if x == [] {
      assert x + y == y;
    } else {
      assert (x + y)[0] == x[0] && (x + y)[1..] == x[1..] + y;
      BytesConcat(x[1..], y);
    }
  }

  lemma BytesOf(l: seq<Block>, i: nat)
    requires i < |l|
    ensures Bytes(l) == Bytes(l[..i]) + l[i].len + Bytes(l[i + 1..])
  {
    assert l == l[..i] + l[i..] && l[i..][0] == l[i] && l[i..][1..] == l[i + 1..];
    BytesConcat(l[..i], l[i..]);
  }

  lemma BytesBetween(x: seq<Block>, h: Block, t: Block, y: seq<Block>)
    ensures Bytes(x + [h, t] + y) == Bytes(x) + h.len + t.len + Bytes(y)
  {
    var m := x + [h, t] + y;
    BytesOf(m, |x|);
    assert m[..|x|] == x && m[|x|] == h && m[|x| + 1..] == [t] + y;
    BytesOf([t] + y, 0);
    assert ([t] + y)[1..] == y && ([t] + y)[..0] == [] && Bytes([]) == 0;
    hide Bytes;
  }

  lemma SplitKeepsBytes(l: seq<Block>, i: nat, room: u32, bs: nat)
    requires 0 < bs && i < |l|
    ensures Bytes(SplitAt(l, i, room, bs)) == Bytes(l)
  {
    AlignDownBounds(room, bs);
    var k := AlignDown(room, bs);
    if k < l[i].len {
      SplitAtConcat(l, i, room, bs);
      hide SplitAt, AlignDown, Bytes;
      BytesBetween(l[..i], HeadOf(l[i], k), TailOf(l[i], k, bs), l[i + 1..]);
      BytesOf(l, i);
    }
  }

  /** The piece and what is left have the bytes of the list between them, and of a well-formed list both have fewer. */
  lemma CutBytes(l: seq<Block>, budget: u32, bs: nat, len: nat, st: Store)
    requires WellFormed(l, bs, len) && Roomy(budget, bs) && l != []
    ensures Bytes(CutAt(l, budget, bs).piece) + Bytes(CutAt(l, budget, bs).rest) == Bytes(l)
    ensures 0 < Bytes(CutAt(l, budget, bs).piece)
  {
    hide *;
    WellFormedSize(l, bs, len);
    var c := CutAt(l, budget, bs);
    CutDivides(l, budget, bs);
    DividedBytes(l, budget, bs);
    BytesConcat(c.piece, c.rest);
    CutStarts(l, budget, bs);
    CutKeeps(l, budget, bs, len, st);
    SomeBytes(c.piece, bs, len);
  }

  lemma DividedBytes(l: seq<Block>, budget: u32, bs: nat)
    requires 0 < bs
    ensures Bytes(Divided(l, budget, bs)) == Bytes(l)
  {
    var f := Fits(l, 0, 0, budget, bs);
    if f.n < |l| {
      SplitKeepsBytes(l, f.n, ToU32(Room(f, budget)), bs);
    }
    hide Fits, SplitAt, Bytes, ToU32;
  }

  lemma SomeBytes(l: seq<Block>, bs: nat, len: nat)
    requires WellFormed(l, bs, len) && l != []
    ensures 0 < Bytes(l)
  {
  }

  lemma MeasureNothing()
    ensures Measure([]) == 0
  {
  }

  // ---- the whole resparse ----

  /** The pieces, in the order they are cut. */
  function Pieces(l: seq<Block>, budget: u32, bs: nat): (r: seq<seq<Block>>)
    requires Roomy(budget, bs)
    ensures r != []
    decreases Measure(l)
  {
    var c := CutAt(l, budget, bs);
    if c.more then CutProgress(l, budget, bs); [c.piece] + Pieces(c.rest, budget, bs) else [c.piece]
  }

  /** All pieces end to end: the list that is put back into the input. */
  function Flat(ps: seq<seq<Block>>): seq<Block> {
    if ps == [] then [] else ps[0] + Flat(ps[1..])
  }

  lemma FlatCons(x: seq<Block>, ps: seq<seq<Block>>)
    ensures Flat([x] + ps) == x + Flat(ps) && Flat([x]) == x
  {
    assert ([x] + ps)[0] == x && ([x] + ps)[1..] == ps;
    assert [x][1..] == [] && Flat([]) == [] && x + [] == x;
  }

  lemma ConcatWellFormed(x: seq<Block>, y: seq<Block>, m: nat, bs: nat, len: nat)
    requires WellFormed(x, bs, len) && WellFormed(y, bs, len)
    requires forall i :: 0 <= i < |x| ==> x[i].block < m && End(x[i], bs) <= m
    requires forall j :: 0 <= j < |y| ==> m <= y[j].block
    ensures WellFormed(x + y, bs, len)
  {
    hide DivRoundUp, Align;
  }

  /** Where a well-formed concatenation was divided, everything before ends by the first block after. */
  lemma Boundary(x: seq<Block>, y: seq<Block>, bs: nat)
    requires 0 < bs && Sorted(x + y, bs) && y != []
    ensures forall i :: 0 <= i < |x| ==> x[i].block < y[0].block && End(x[i], bs) <= y[0].block
    ensures x != [] ==> (x + y)[0] == x[0] && x[0].block < y[0].block
  {
    hide DivRoundUp;
    assert (x + y)[|x|] == y[0];
    assert forall i :: 0 <= i < |x| ==> (x + y)[i] == x[i];
  }

  lemma CutOfNothing(budget: u32, bs: nat)
    requires Roomy(budget, bs)
    ensures CutAt([], budget, bs) == Cut([], [], false) && Pieces([], budget, bs) == [[]] && Flat([[]]) == []
  {
    FlatCons([], []);
  }

  /** A cut takes something, and the first block keeps its number. */
  lemma CutStarts(l: seq<Block>, budget: u32, bs: nat)
    requires Roomy(budget, bs) && l != []
    ensures var c := CutAt(l, budget, bs);
      c.piece != [] && c.piece[0].block == l[0].block && c.piece[0].src == l[0].src
  {
    var f := Fits(l, 0, 0, budget, bs);
    if Splits(l, f, budget) {
      var room := ToU32(Room(f, budget));
      if AlignDown(room, bs) < l[f.n].len {
        SplitAtElements(l, f.n, room, bs);
      }
    }
    hide SplitAt, AlignDown, Fits;
  }

  /** Nothing in f lies before the first block of l. */
  predicate StartsAt(f: seq<Block>, l: seq<Block>) {
    (l == [] ==> f == []) && forall i :: 0 <= i < |f| && l != [] ==> l[0].block <= f[i].block
  }

  /** The same bytes and the same holes. */
  ghost predicate SameBytes(x: seq<Block>, y: seq<Block>, bs: nat, st: Store) {
    forall p: nat :: Lookup(x, bs, st, p) == Lookup(y, bs, st, p)
  }

  ghost predicate AllWellFormed(ps: seq<seq<Block>>, bs: nat, len: nat) {
    forall i :: 0 <= i < |ps| ==> WellFormed(ps[i], bs, len)
  }

  /**
   * Conservation: every piece is a well-formed image of the full length, and put end to end they are a
   * well-formed image with the bytes and the holes of the original.
   */
  lemma {:induction false} PiecesConserve(l: seq<Block>, budget: u32, bs: nat, len: nat, st: Store)
    requires WellFormed(l, bs, len) && Roomy(budget, bs)
    ensures var ps := Pieces(l, budget, bs);
      && AllWellFormed(ps, bs, len) && WellFormed(Flat(ps), bs, len)
      && StartsAt(Flat(ps), l) && SameBytes(Flat(ps), l, bs, st)
    decreases Measure(l)
  {
    hide WellFormed, Flat, StartsAt, CutAt, SameBytes, Sorted;
    var c := CutAt(l, budget, bs);
    if c.more {
      CutProgress(l, budget, bs);
      MoreMeansSome(l, budget, bs);
      CutKeeps(l, budget, bs, len, st);
      CutStarts(l, budget, bs);
      PiecesConserve(c.rest, budget, bs, len, st);
      PiecesJoin(l, c, Pieces(c.rest, budget, bs), bs, len, st);
    } else {
      LastPiece(l, budget, bs, len, st);
    }
  }

  lemma MoreMeansSome(l: seq<Block>, budget: u32, bs: nat)
    requires Roomy(budget, bs) && CutAt(l, budget, bs).more
    ensures l != []
  {
  }

  lemma AllFrom(l: seq<Block>, bs: nat)
    requires 0 < bs && l != [] && Sorted(l, bs)
    ensures forall i :: 0 <= i < |l| ==> l[0].block <= l[i].block
  {
  }

  lemma StartsAtNothing(f: seq<Block>)
    requires StartsAt(f, [])
    ensures f == []
  {
  }

  /** The last piece: nothing is left. */
  lemma LastPiece(l: seq<Block>, budget: u32, bs: nat, len: nat, st: Store)
    requires WellFormed(l, bs, len) && Roomy(budget, bs) && !CutAt(l, budget, bs).more
    ensures Pieces(l, budget, bs) == [l] && Flat([l]) == l && StartsAt(l, l) && SameBytes(l, l, bs, st)
  {
    CutDivides(l, budget, bs);
    FlatCons(l, []);
    if l != [] {
      AllFrom(l, bs);
    }
    hide CutAt;
  }

  lemma PiecesJoin(l: seq<Block>, c: Cut, ps: seq<seq<Block>>, bs: nat, len: nat, st: Store)
    requires 0 < bs && l != [] && c.piece != [] && c.piece[0].block == l[0].block
    requires WellFormed(c.piece, bs, len) && WellFormed(c.piece + c.rest, bs, len)
    requires SameBytes(c.piece + c.rest, l, bs, st)
    requires WellFormed(Flat(ps), bs, len) && StartsAt(Flat(ps), c.rest) && SameBytes(Flat(ps), c.rest, bs, st)
    ensures WellFormed(Flat([c.piece] + ps), bs, len)
    ensures StartsAt(Flat([c.piece] + ps), l) && SameBytes(Flat([c.piece] + ps), l, bs, st)
  {
    var f := Flat(ps);
    FlatCons(c.piece, ps);
    hide Flat, Lookup, DivRoundUp, Align, FillsWhole;
    AllFrom(c.piece, bs);
    if c.rest != [] {
      Boundary(c.piece, c.rest, bs);
      ConcatWellFormed(c.piece, f, c.rest[0].block, bs, len);
    } else {
      StartsAtNothing(f);
      assert c.piece + f == c.piece + c.rest;
    }
    forall p: nat
      ensures Lookup(c.piece + f, bs, st, p) == Lookup(l, bs, st, p)
    {
      LookupConcat(c.piece, f, bs, st, p);
      LookupConcat(c.piece, c.rest, bs, st, p);
    }
  }
}
