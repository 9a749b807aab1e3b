/** sparse_file_resparse on the linked lists: one pass over the blocks per piece, then a move of its nodes. */
module ResparseFile {
  import opened Defs
  import opened Image
  import opened BackedBlock
  import opened BackedBlockList
  import opened OutputFile
  import opened SparseFile
  import opened Encode
  import opened Resparse
  import opened ResparseSize

  // ---- what a cut keeps of the lengths ----

  lemma SplitIntSized(l: seq<Block>, i: nat, room: u32, bs: nat)
    requires 0 < bs && i < |l| && IntSized(l)
    ensures IntSized(SplitAt(l, i, room, bs))
  {
    AlignDownBounds(room, bs);
    if AlignDown(room, bs) < l[i].len {
      SplitAtElements(l, i, room, bs);
      hide SplitAt, AlignDown;
    }
  }

  lemma CutIntSized(l: seq<Block>, budget: u32, bs: nat)
    requires 0 < bs && IntSized(l)
    ensures var c := CutAt(l, budget, bs); IntSized(c.piece) && IntSized(c.rest)
  {
    var f, c := Fits(l, 0, 0, budget, bs), CutAt(l, budget, bs);
    var m := Divided(l, budget, bs);
    CutDivides(l, budget, bs);
    if f.n < |l| {
      SplitIntSized(l, f.n, ToU32(Room(f, budget)), bs);
    }
    hide SplitAt, CutAt, Fits;
    assert IntSized(m) && c.piece + c.rest == m;
    assert forall i :: 0 <= i < |c.piece| ==> c.piece[i] == m[i];
    assert forall i :: 0 <= i < |c.rest| ==> c.rest[i] == m[|c.piece| + i];
  }

  // ---- one pass ----

  /** The counting callback after one block: what that block adds to the file. */
  lemma CountOne(cfg: Config, o: Out, b: Block, st: Store)
    requires 0 < cfg.bs && cfg.sparse && o.sink.CountSink?
    ensures PutBlock(cfg, o, b, st).sink == CountSink(o.sink.count + Cost(b, cfg.bs))
  {
    ChunkSize(b, cfg.bs, st, 0);
    hide ChunkBytes, Cost;
  }

  lemma FitsNext(l: seq<Block>, k: nat, last: nat, size: nat, budget: nat, bs: nat)
    requires 0 < bs && k < |l|
    ensures var next := size + GapCost(l[k], last) + Cost(l[k], bs);
      && (next > budget ==> Fits(l[k..], last, size, budget, bs) == Fit(0, size))
      && (next <= budget ==>
           var r := Fits(l[k + 1..], End(l[k], bs), next, budget, bs);
           Fits(l[k..], last, size, budget, bs) == Fit(r.n + 1, r.size))
  {
    assert l[k..][0] == l[k] && l[k..][1..] == l[k + 1..];
    hide GapCost, Cost, End;
  }

  /** One turn of the loop of move_chunks_up_to_len: count the bytes of b and of the gap before it. */
  method CountBlock(out: OutputFile, b: Block, lastBlock: nat, st: Store)
    requires out.Valid() && out.file == null && out.cfg.sparse && Writable(b, out.cfg.bs) && b.len <= INT_MAX
    modifies out, out.fillBuf
    ensures out.Valid() && out.count == GapCost(b, lastBlock) + Cost(b, out.cfg.bs)
  {
    hide PutBlock, Cost;
    out.count := 0;
    if b.block > lastBlock {
      out.count := out.count + CHUNK_HEADER_LEN;
    }
    CountOne(out.cfg, out.State(), b, st);
    out.WriteBlock(b, st);
  }

  /** The loop of move_chunks_up_to_len: the first block that no longer fits, and the one before it. */
  method PassOver(from: SparseFile, out: OutputFile, budget: u32, st: Store)
    returns (bb: Node?, lastBb: Node?, fileLen: nat, ghost n: nat)
    requires from.Valid() && 0 < from.blockSize && AllWritable(from.list.blocks, from.blockSize) &&
      IntSized(from.list.blocks)
    requires out.Valid() && out.file == null && out.cfg.sparse && out.cfg.bs == from.blockSize
    modifies out, out.fillBuf
    ensures from.Valid() && from.list.blocks == old(from.list.blocks) && from.list.nodes == old(from.list.nodes)
    ensures Fits(from.list.blocks, 0, 0, budget, from.blockSize) == Fit(n, fileLen)
    ensures bb == NodeAt(from.list.nodes, n) && lastBb == if n == 0 then null else from.list.nodes[n - 1]
  {
    ghost var l, bs := from.list.blocks, from.blockSize;
    hide Distinct, DivRoundUp, DivRoundUp32, Cost, GapCost, Fits;
    bb, lastBb, fileLen := from.list.dataBlocks, null, 0;
    var lastBlock: nat := 0;
    n := 0;
    assert l[0..] == l;
    while bb != null
      invariant from.Valid() && from.list.blocks == l && from.list.nodes == old(from.list.nodes) && out.Valid()
      invariant 0 <= n <= |l| && bb == NodeAt(from.list.nodes, n)
      invariant lastBb == if n == 0 then null else from.list.nodes[n - 1]
      invariant var r := Fits(l[n..], lastBlock, fileLen, budget, bs); Fits(l, 0, 0, budget, bs) == Fit(n + r.n, r.size)
      decreases |l| - n
    {
      assert bb.val == l[n];
      Align32Exact(bb.val.len, from.blockSize);
      FitsNext(l, n, lastBlock, fileLen, budget, bs);
      CountBlock(out, bb.val, lastBlock, st);
      lastBlock := bb.val.block + DivRoundUp32(bb.val.len, from.blockSize);
      if fileLen + out.count > budget {
        break;
      }
      fileLen := fileLen + out.count;
      lastBb := bb;
      bb, n := bb.next, n + 1;
    }
    assert n == |l| ==> l[n..] == [];
    FitsEnd(lastBlock, fileLen, budget, bs);
  }

  lemma FitsEnd(last: nat, size: nat, budget: nat, bs: nat)
    requires 0 < bs
    ensures Fits([], last, size, budget, bs) == Fit(0, size)
  {
  }

  /** What a cut takes and leaves, in terms of the list it divides. */
  lemma CutSlices(l: seq<Block>, budget: u32, bs: nat, f: Fit)
    requires 0 < bs && f == Fits(l, 0, 0, budget, bs)
    ensures var c := CutAt(l, budget, bs);
      var m := if Splits(l, f, budget)
        then SplitAt(l, f.n, ToU32(Room(f, budget)), bs) else l;
      var k := if Splits(l, f, budget) then f.n + 1 else f.n;
      c.piece == m[..k] && c.rest == m[k..] && (c.more <==> f.n < |l|)
  {
    hide SplitAt, Room, Fits;
  }

  /** The end of move_chunks_up_to_len's loop body: split the block that does not fit if that is worth it. */
  method SplitLast(list: List, bb: Node, before: Node?, size: nat, len: u32, ghost n: nat)
    returns (lastBb: Node?, ghost k: nat)
    requires list.Valid() && 0 < list.blockSize && n < |list.nodes| && bb == list.nodes[n]
    requires before == if n == 0 then null else list.nodes[n - 1]
    modifies list`nodes, list`blocks, bb
    ensures list.Valid()
    ensures var split := n == 0 || len - (size + CHUNK_HEADER_LEN) > len / 8;
      && list.blocks ==
        (if split then SplitAt(old(list.blocks), n, ToU32(len - (size + CHUNK_HEADER_LEN)), list.blockSize)
         else old(list.blocks))
      && k == (if split then n + 1 else n)
    ensures k <= |list.nodes| && lastBb == if k == 0 then null else list.nodes[k - 1]
    ensures forall x :: x in list.nodes ==> x in old(list.nodes) || fresh(x)
  {
    hide Distinct, SplitAt;
    lastBb, k := before, n;
    var fileLen := size + CHUNK_HEADER_LEN;
    if lastBb == null || len - fileLen > len / 8 {
      list.Split(bb, ToU32(len - fileLen), n);
      lastBb, k := bb, n + 1;
    }
  }

  lemma StillApart(was: seq<Node>, now: seq<Node>, other: seq<Node>)
    requires Apart(was, other) && forall x :: x in now ==> x in was || x !in other
    ensures Apart(now, other)
  {
    forall i, j | 0 <= i < |now| && 0 <= j < |other|
      ensures now[i] != other[j]
    {
      assert now[i] in now && other[j] in other;
    }
  }

  /** All of move_chunks_up_to_len but the move: the last block of the piece, now ending where the piece ends. */
  method CutPiece(from: SparseFile, to: SparseFile, len: u32, st: Store)
    returns (bb: Node?, lastBb: Node?, ghost k: nat)
    requires from.Valid() && 0 < to.blockSize == from.blockSize <= INT_MAX && from.blockSize % 4 == 0
    requires AllWritable(from.list.blocks, from.blockSize) && IntSized(from.list.blocks)
    modifies from.list`nodes, from.list`blocks, from.list.nodes
    ensures from.Valid()
    ensures var c := CutAt(old(from.list.blocks), len, from.blockSize);
      k <= |from.list.nodes| && c.piece == from.list.blocks[..k] && c.rest == from.list.blocks[k..] &&
        (bb != null <==> c.more)
    ensures lastBb == if k == 0 then null else from.list.nodes[k - 1]
    ensures lastBb == null ==> from.list.nodes == []
    ensures forall i :: 0 <= i < |from.list.nodes| ==>
      from.list.nodes[i] in old(from.list.nodes) || fresh(from.list.nodes[i])
  {
    hide Distinct, CutAt, SplitAt, Fits, AllWritable, IntSized;
    var out := new OutputFile(null, Config(true, false, to.blockSize, to.len), 0);
    var fileLen;
    ghost var n;
    bb, lastBb, fileLen, n := PassOver(from, out, len, st);
    CutSlices(from.list.blocks, len, from.blockSize, Fit(n, fileLen));
    k := n;
    if bb != null {
      lastBb, k := SplitLast(from.list, bb, lastBb, fileLen, len, n);
    }
  }

  /** move_chunks_up_to_len: moves the blocks of one piece; the result is null at the end of the list. */
  method MoveChunksUpToLen(from: SparseFile, to: SparseFile, maxLen: u32, st: Store) returns (bb: Node?)
    requires from.Valid() && to.Valid() && from.list != to.list && Apart(from.list.nodes, to.list.nodes)
    requires 0 < to.blockSize == from.blockSize <= INT_MAX && from.blockSize % 4 == 0
    requires AllWritable(from.list.blocks, from.blockSize) && IntSized(from.list.blocks)
    modifies from.list, to.list, from.list.nodes, to.list.nodes
    ensures from.Valid() && to.Valid() && Apart(from.list.nodes, to.list.nodes)
    ensures var c := CutAt(old(from.list.blocks), Budget(maxLen), from.blockSize);
      && from.list.blocks == c.rest && to.list.blocks == Splice(old(to.list.blocks), c.piece)
      && (bb != null <==> c.more)
    ensures forall x :: x in from.list.nodes || x in to.list.nodes ==>
      x in old(from.list.nodes) || x in old(to.list.nodes) || fresh(x)
  {
    hide Distinct, CutAt, Splice, AllWritable, IntSized;
    var start := from.list.dataBlocks;
    var lastBb;
    ghost var k;
    bb, lastBb, k := CutPiece(from, to, Budget(maxLen), st);
    StillApart(old(from.list.nodes), from.list.nodes, to.list.nodes);
    hide Apart;
    ListMove(from.list, to.list, start, lastBb, 0, k);
  }

  // ---- all passes ----

  lemma FlatSnoc(ps: seq<seq<Block>>, x: seq<Block>)
    ensures Flat(ps + [x]) == Flat(ps) + x
  {
    if ps == [] {
      assert ps + [x] == [x];
      FlatCons(x, []);
    } else {
      assert (ps + [x])[0] == ps[0] && (ps + [x])[1..] == ps[1..] + [x];
      FlatSnoc(ps[1..], x);
      assert ps[0] + (Flat(ps[1..]) + x) == ps[0] + Flat(ps[1..]) + x;
    }
  }

  /** No block of x lies after the first block of y. */
  predicate Precedes(x: seq<Block>, y: seq<Block>) {
    y != [] ==> forall i :: 0 <= i < |x| ==> x[i].block <= y[0].block
  }

  /** A piece may be linked after those put aside before it. */
  lemma CutPrecedes(t: seq<Block>, l: seq<Block>, budget: u32, bs: nat, len: nat, st: Store)
    requires WellFormed(l, bs, len) && Roomy(budget, bs) && Precedes(t, l)
    ensures var c := CutAt(l, budget, bs);
      && Splice(t, c.piece) == t + c.piece && Splice([], c.piece) == c.piece
      && Precedes(t, c.rest) && Precedes(t + c.piece, c.rest)
  {
    var c := CutAt(l, budget, bs);
    if l == [] {
      CutOfNothing(budget, bs);
    } else {
      CutStarts(l, budget, bs);
      CutKeeps(l, budget, bs, len, st);
      if c.rest != [] {
        Boundary(c.piece, c.rest, bs);
      }
    }
    hide CutAt, DivRoundUp, Align;
    SpliceAppends(t, c.piece);
    SpliceAppends([], c.piece);
  }

  lemma PutAside(done: seq<seq<Block>>, x: seq<Block>, n: nat)
    ensures |done| < n ==> Flat(done[Min(|done|, n)..]) == [] && Flat((done + [x])[Min(|done| + 1, n)..]) == []
    ensures |done| >= n ==> Flat((done + [x])[Min(|done| + 1, n)..]) == Flat(done[Min(|done|, n)..]) + x
  {
    if |done| < n {
      assert done[Min(|done|, n)..] == [] && (done + [x])[Min(|done| + 1, n)..] == [];
    } else {
      assert (done + [x])[n..] == done[n..] + [x];
      FlatSnoc(done[n..], x);
    }
  }

  lemma Movable(l: seq<Block>, bs: nat, len: nat)
    requires WellFormed(l, bs, len)
    ensures AllWritable(l, bs) && 0 < bs <= INT_MAX && bs % 4 == 0
  {
    WellFormedAll(l, bs, len);
  }

  /** The first half of the loop of sparse_file_resparse: a new sparse file holding the next piece. */
  method NextPiece(inS: SparseFile, maxLen: u32, st: Store) returns (s: SparseFile, bb: Node?)
    requires inS.Valid() && WellFormed(inS.list.blocks, inS.blockSize, inS.len) && IntSized(inS.list.blocks)
    modifies inS.list, inS.list.nodes
    ensures inS.Valid() && s.Valid() && fresh(s) && fresh(s.list) && Apart(inS.list.nodes, s.list.nodes)
    ensures s.blockSize == inS.blockSize && s.len == inS.len
    ensures var c := CutAt(old(inS.list.blocks), Budget(maxLen), inS.blockSize);
      s.list.blocks == Splice([], c.piece) && inS.list.blocks == c.rest && (bb != null <==> c.more)
    ensures forall x :: x in inS.list.nodes || x in s.list.nodes ==> x in old(inS.list.nodes) || fresh(x)
  {
    Movable(inS.list.blocks, inS.blockSize, inS.len);
    hide *;
    s := new SparseFile(inS.blockSize, inS.len);
    bb := MoveChunksUpToLen(inS, s, maxLen, st);
  }

  /** A piece as it was delivered: a valid sparse file whose nodes are all among those given away. */
  ghost predicate Delivered(s: SparseFile?, piece: seq<Block>, bs: u32, len: nat, given: set<Node>)
    reads s, if s == null then {} else {s.list}, if s == null then [] else s.list.nodes
  {
    && s != null && s.Valid() && s.blockSize == bs && s.len == len && s.list.blocks == piece
    && forall x :: x in s.list.nodes ==> x in given
  }

  /** What the passes so far have done: the pieces, those put aside, and what is left. */
  ghost predicate Resparsing(l: seq<Block>, rest: seq<Block>, aside: seq<Block>, done: seq<seq<Block>>, more: bool,
                             n: nat, budget: u32, bs: u32, len: nat)
    requires Roomy(budget, bs)
  {
    && WellFormed(rest, bs, len) && IntSized(rest)
    && Pieces(l, budget, bs) == done + (if more then Pieces(rest, budget, bs) else [])
    && (!more ==> rest == [])
    && aside == Flat(done[Min(|done|, n)..]) && Precedes(aside, rest)
  }

  lemma PiecesStep(rest: seq<Block>, done: seq<seq<Block>>, budget: u32, bs: u32)
    requires Roomy(budget, bs)
    ensures var c := CutAt(rest, budget, bs);
      && done + Pieces(rest, budget, bs) == done + [c.piece] + (if c.more then Pieces(c.rest, budget, bs) else [])
      && (c.more ==> Measure(c.rest) < Measure(rest)) && (!c.more ==> c.rest == [])
  {
    var c := CutAt(rest, budget, bs);
    if c.more {
      CutProgress(rest, budget, bs);
      var ps := Pieces(c.rest, budget, bs);
      assert done + ([c.piece] + ps) == done + [c.piece] + ps;
    } else {
      CutDivides(rest, budget, bs);
    }
    hide CutAt, Measure;
  }

  lemma ResparsingStep(l: seq<Block>, rest: seq<Block>, aside: seq<Block>, done: seq<seq<Block>>, n: nat,
                       budget: u32, bs: u32, len: nat, st: Store)
    requires Roomy(budget, bs) && Resparsing(l, rest, aside, done, true, n, budget, bs, len)
    ensures var c := CutAt(rest, budget, bs);
      && Resparsing(l, c.rest, if |done| < n then aside else aside + c.piece,
                    done + [c.piece], c.more, n, budget, bs, len)
      && Splice([], c.piece) == c.piece && Splice(aside, c.piece) == aside + c.piece
      && (c.more ==> Measure(c.rest) < Measure(rest))
    ensures WellFormed(rest, bs, len) && IntSized(rest)
  {
    var c := CutAt(rest, budget, bs);
    CutKeeps(rest, budget, bs, len, st);
    CutIntSized(rest, budget, bs);
    CutPrecedes(aside, rest, budget, bs, len, st);
    PiecesStep(rest, done, budget, bs);
    PutAside(done, c.piece, n);
    hide CutAt, Splice, WellFormed, IntSized, Precedes, Flat, Measure, SameBytes, Pieces, Min, Roomy;
  }

  lemma ResparsingStart(l: seq<Block>, n: nat, budget: u32, bs: u32, len: nat)
    requires Roomy(budget, bs) && WellFormed(l, bs, len) && IntSized(l)
    ensures 0 < bs && Resparsing(l, l, [], [], true, n, budget, bs, len)
  {
    assert [] + Pieces(l, budget, bs) == Pieces(l, budget, bs);
    hide Pieces, WellFormed;
  }

  lemma ResparsingEnd(l: seq<Block>, rest: seq<Block>, aside: seq<Block>, done: seq<seq<Block>>, n: nat,
                      budget: u32, bs: u32, len: nat)
    requires Roomy(budget, bs) && Resparsing(l, rest, aside, done, false, n, budget, bs, len)
    ensures done == Pieces(l, budget, bs) && rest == [] && Splice(rest, aside) == Flat(done[Min(|done|, n)..])
  {
    hide Pieces, WellFormed, Flat;
  }

  /** backed_block_list_move with no bounds. */
  method MoveAll(from: SparseFile, to: SparseFile)
    requires from.Valid() && to.Valid() && from.list != to.list && Apart(from.list.nodes, to.list.nodes)
    modifies from.list, to.list, from.list.nodes, to.list.nodes
    ensures from.Valid() && to.Valid() && from.list.nodes == [] && from.list.blocks == []
    ensures to.list.blocks == Splice(old(to.list.blocks), old(from.list.blocks))
    ensures forall x :: x in to.list.nodes ==> x in old(to.list.nodes) || x in old(from.list.nodes)
  {
    hide Distinct, Splice;
    ghost var blocks := from.list.blocks;
    assert blocks[..|from.list.nodes|] == blocks;
    ListMove(from.list, to.list, null, null, 0, |from.list.nodes|);
  }

  lemma JoinApart(a: seq<Node>, b: seq<Node>, joined: seq<Node>, other: seq<Node>)
    requires Apart(other, a) && Apart(other, b) && forall x :: x in joined ==> x in a || x in b
    ensures Apart(other, joined)
  {
    forall i, j | 0 <= i < |other| && 0 <= j < |joined|
      ensures other[i] != joined[j]
    {
      assert joined[j] in joined;
    }
  }

  /** Every node of a list was in one of two others, or is new. */
  twostate predicate Provided(new nodes: seq<Node>, a: seq<Node>, b: seq<Node>) {
    forall i :: 0 <= i < |nodes| ==> nodes[i] in a || nodes[i] in b || fresh(nodes[i])
  }

  /** One turn of the loop of sparse_file_resparse: the next piece is delivered, or put aside when the array is full. */
  method DeliverPiece(inS: SparseFile, tmp: SparseFile, outS: array<SparseFile?>, c: nat, maxLen: u32, st: Store)
    returns (s: SparseFile, bb: Node?)
    requires inS.Valid() && tmp.Valid() && inS.list != tmp.list && Apart(inS.list.nodes, tmp.list.nodes)
    requires WellFormed(inS.list.blocks, inS.blockSize, inS.len) && IntSized(inS.list.blocks)
    modifies inS.list, inS.list.nodes, tmp.list, tmp.list.nodes, outS
    ensures inS.Valid() && tmp.Valid() && Apart(inS.list.nodes, tmp.list.nodes)
    ensures var x := CutAt(old(inS.list.blocks), Budget(maxLen), inS.blockSize);
      && inS.list.blocks == x.rest && (bb != null <==> x.more)
      && if c < outS.Length then
           && outS[..] == old(outS[..])[c := s] && fresh(s) && fresh(s.list) && s.Valid()
           && s.blockSize == inS.blockSize && s.len == inS.len && s.list.blocks == Splice([], x.piece)
           && Apart(inS.list.nodes, s.list.nodes) && Apart(s.list.nodes, tmp.list.nodes)
           && tmp.list.blocks == old(tmp.list.blocks)
         else
           outS[..] == old(outS[..]) && tmp.list.blocks == Splice(old(tmp.list.blocks), Splice([], x.piece))
    ensures Provided(inS.list.nodes, old(inS.list.nodes), old(tmp.list.nodes))
    ensures Provided(tmp.list.nodes, old(inS.list.nodes), old(tmp.list.nodes))
  {
    hide Chain, List.Shape, List.Valid, NodeAt, Distinct, CutAt, WellFormed, IntSized, Splice, Budget;
    s, bb := NextPiece(inS, maxLen, st);
    StillApart(old(inS.list.nodes), inS.list.nodes, tmp.list.nodes);
    StillApart(old(inS.list.nodes), s.list.nodes, tmp.list.nodes);
    ghost var moved := s.list.nodes;
    assert forall i :: 0 <= i < |moved| ==> moved[i] in old(inS.list.nodes) || fresh(moved[i]);
    if c < outS.Length {
      outS[c] := s;
    } else {
      MoveAll(s, tmp);
      JoinApart(old(tmp.list.nodes), moved, tmp.list.nodes, inS.list.nodes);
    }
  }

  /** The pieces delivered so far, none of them sharing a node with what is still being worked on. */
  ghost predicate Deliveries(outS: array<SparseFile?>, done: seq<seq<Block>>, inS: SparseFile, tmp: SparseFile,
                             given: set<Node>)
    reads *
  {
    && (forall i :: 0 <= i < |inS.list.nodes| ==> inS.list.nodes[i] !in given)
    && (forall i :: 0 <= i < |tmp.list.nodes| ==> tmp.list.nodes[i] !in given)
    && (forall i :: 0 <= i < |done| && i < outS.Length ==>
         Delivered(outS[i], done[i], inS.blockSize, inS.len, given) && outS[i].list != inS.list &&
           outS[i].list != tmp.list)
  }

  predicate Within(nodes: seq<Node>, pool: set<Node>) {
    forall i :: 0 <= i < |nodes| ==> nodes[i] in pool
  }

  /** One turn of the loop, with what was delivered before it; pool holds every node still being worked on. */
  method Turn(inS: SparseFile, tmp: SparseFile, outS: array<SparseFile?>, c: nat, maxLen: u32, st: Store,
              ghost done: seq<seq<Block>>, ghost given: set<Node>, ghost pool: set<Node>)
    returns (more: bool, ghost given': set<Node>, ghost pool': set<Node>)
    requires inS.Valid() && tmp.Valid() && inS.list != tmp.list && Apart(inS.list.nodes, tmp.list.nodes)
    requires WellFormed(inS.list.blocks, inS.blockSize, inS.len) && IntSized(inS.list.blocks)
    requires |done| == c && Deliveries(outS, done, inS, tmp, given)
    requires Within(inS.list.nodes, pool) && Within(tmp.list.nodes, pool)
    requires var x := CutAt(inS.list.blocks, Budget(maxLen), inS.blockSize); Splice([], x.piece) == x.piece
    modifies inS.list, tmp.list, pool, outS
    ensures inS.Valid() && tmp.Valid() && Apart(inS.list.nodes, tmp.list.nodes)
    ensures var x := CutAt(old(inS.list.blocks), Budget(maxLen), inS.blockSize);
      && inS.list.blocks == x.rest && more == x.more
      && tmp.list.blocks == (if c < outS.Length then old(tmp.list.blocks) else Splice(old(tmp.list.blocks), x.piece))
      && Deliveries(outS, done + [x.piece], inS, tmp, given')
    ensures Within(inS.list.nodes, pool') && Within(tmp.list.nodes, pool') && fresh(pool' - pool)
    ensures forall i :: 0 <= i < outS.Length && i != c ==> outS[i] == old(outS[i])
  {
    hide Chain, List.Shape, List.Valid, NodeAt, Distinct, CutAt, WellFormed, IntSized, Splice, Budget;
    var s, bb := DeliverPiece(inS, tmp, outS, c, maxLen, st);
    more := bb != null;
    given' := given;
    pool' := pool + (set x | x in inS.list.nodes) + (set x | x in tmp.list.nodes);
    if c < outS.Length {
      given' := given + set x | x in s.list.nodes;
    }
  }

  lemma NothingDelivered(outS: array<SparseFile?>, inS: SparseFile, tmp: SparseFile)
    ensures Deliveries(outS, [], inS, tmp, {})
  {
  }

  /** Everything the loop keeps. */
  ghost predicate Working(l: seq<Block>, inS: SparseFile, tmp: SparseFile, outS: array<SparseFile?>, budget: u32,
                          done: seq<seq<Block>>, given: set<Node>, pool: set<Node>, more: bool)
    reads *
  {
    && Roomy(budget, inS.blockSize)
    && inS.Valid() && tmp.Valid() && inS.list != tmp.list && Apart(inS.list.nodes, tmp.list.nodes)
    && Resparsing(l, inS.list.blocks, tmp.list.blocks, done, more, outS.Length, budget, inS.blockSize, inS.len)
    && Deliveries(outS, done, inS, tmp, given) && Within(inS.list.nodes, pool) && Within(tmp.list.nodes, pool)
  }

  lemma WorkingParts(l: seq<Block>, inS: SparseFile, tmp: SparseFile, outS: array<SparseFile?>, budget: u32,
                     done: seq<seq<Block>>, given: set<Node>, pool: set<Node>, more: bool)
    ensures 0 < inS.blockSize ==> (Working(l, inS, tmp, outS, budget, done, given, pool, more) <==>
      && Roomy(budget, inS.blockSize)
      && inS.Valid() && tmp.Valid() && inS.list != tmp.list && Apart(inS.list.nodes, tmp.list.nodes)
      && Resparsing(l, inS.list.blocks, tmp.list.blocks, done, more, outS.Length, budget, inS.blockSize, inS.len)
      && Deliveries(outS, done, inS, tmp, given) && Within(inS.list.nodes, pool) && Within(tmp.list.nodes, pool))
    ensures Working(l, inS, tmp, outS, budget, done, given, pool, more) ==> 0 < inS.blockSize
  {
    assert Roomy(budget, inS.blockSize) ==> 0 < inS.blockSize;
    hide Roomy, Resparsing, Deliveries, Within, Apart, List.Valid;
  }

  method KeepTurning(inS: SparseFile, tmp: SparseFile, outS: array<SparseFile?>, c: nat, maxLen: u32, st: Store,
                     ghost l: seq<Block>, ghost done: seq<seq<Block>>, ghost given: set<Node>, ghost pool: set<Node>)
    returns (more: bool, ghost done': seq<seq<Block>>, ghost given': set<Node>, ghost pool': set<Node>)
    requires |done| == c && Working(l, inS, tmp, outS, Budget(maxLen), done, given, pool, true)
    modifies inS.list, tmp.list, pool, outS
    ensures |done'| == c + 1 && Working(l, inS, tmp, outS, Budget(maxLen), done', given', pool', more)
    ensures fresh(pool' - pool)
    ensures forall i :: 0 <= i < outS.Length && i != c ==> outS[i] == old(outS[i])
    ensures more ==> Measure(inS.list.blocks) < Measure(old(inS.list.blocks))
  {
    hide *;
    WorkingParts(l, inS, tmp, outS, Budget(maxLen), done, given, pool, true);
    ResparsingStep(l, inS.list.blocks, tmp.list.blocks, done, outS.Length, Budget(maxLen), inS.blockSize, inS.len, st);
    done' := done + [CutAt(inS.list.blocks, Budget(maxLen), inS.blockSize).piece];
    more, given', pool' := Turn(inS, tmp, outS, c, maxLen, st, done, given, pool);
    WorkingParts(l, inS, tmp, outS, Budget(maxLen), done', given', pool', more);
  }

  /** The loop of sparse_file_resparse. */
  method AllTurns(inS: SparseFile, tmp: SparseFile, outS: array<SparseFile?>, maxLen: u32, st: Store,
                  ghost nodes: set<Node>)
    returns (c: nat, ghost done: seq<seq<Block>>, ghost given: set<Node>, ghost pool: set<Node>)
    requires Working(inS.list.blocks, inS, tmp, outS, Budget(maxLen), [], {}, nodes, true)
    modifies inS.list, tmp.list, nodes, outS
    ensures |done| == c && Working(old(inS.list.blocks), inS, tmp, outS, Budget(maxLen), done, given, pool, false)
    ensures fresh(pool - nodes)
    ensures forall i :: c <= i < outS.Length ==> outS[i] == old(outS[i])
  {
    hide *;
    ghost var l := inS.list.blocks;
    c := 0;
    var more := true;
    done, given, pool := [], {}, nodes;
    while more
      invariant |done| == c && Working(l, inS, tmp, outS, Budget(maxLen), done, given, pool, more)
      invariant fresh(pool - nodes)
      invariant forall i :: c <= i < outS.Length ==> outS[i] == old(outS[i])
      decreases more, Measure(inS.list.blocks)
    {
      more, done, given, pool := KeepTurning(inS, tmp, outS, c, maxLen, st, l, done, given, pool);
      c := c + 1;
    }
  }

  /** The array holds the pieces, as far as it reaches, each as a sparse file of the whole length. */
  ghost predicate Filled(outS: array<SparseFile?>, ps: seq<seq<Block>>, bs: u32, len: nat)
    reads *
  {
    forall i :: 0 <= i < |ps| && i < outS.Length ==>
      outS[i] != null && outS[i].Valid() && outS[i].blockSize == bs && outS[i].len == len &&
        outS[i].list.blocks == ps[i]
  }

  method MoveBack(inS: SparseFile, tmp: SparseFile, outS: array<SparseFile?>,
                  ghost done: seq<seq<Block>>, ghost given: set<Node>, ghost pool: set<Node>)
    requires inS.Valid() && tmp.Valid() && inS.list != tmp.list && Apart(inS.list.nodes, tmp.list.nodes)
    requires Deliveries(outS, done, inS, tmp, given) && Within(inS.list.nodes, pool) && Within(tmp.list.nodes, pool)
    modifies inS.list, tmp.list, pool
    ensures inS.Valid() && inS.list.blocks == Splice(old(inS.list.blocks), old(tmp.list.blocks))
    ensures forall k :: 0 <= k < |inS.list.nodes| ==> inS.list.nodes[k] in pool
    ensures Filled(outS, done, inS.blockSize, inS.len)
  {
    hide Chain, List.Shape, List.Valid, Distinct, Splice;
    assert Apart(tmp.list.nodes, inS.list.nodes);
    WithinMembers(inS.list.nodes, pool);
    WithinMembers(tmp.list.nodes, pool);
    MoveAll(tmp, inS);
    assert forall k :: 0 <= k < |inS.list.nodes| ==> inS.list.nodes[k] in inS.list.nodes;
  }

  /** The end of sparse_file_resparse: what was put aside goes back into the input. */
  method PutBack(inS: SparseFile, tmp: SparseFile, outS: array<SparseFile?>, ghost l: seq<Block>, ghost budget: u32,
                 ghost done: seq<seq<Block>>, ghost given: set<Node>, ghost pool: set<Node>)
    requires Working(l, inS, tmp, outS, budget, done, given, pool, false)
    modifies inS.list, tmp.list, pool
    ensures inS.Valid() && 0 < inS.blockSize && Roomy(budget, inS.blockSize) && done == Pieces(l, budget, inS.blockSize)
    ensures forall k :: 0 <= k < |inS.list.nodes| ==> inS.list.nodes[k] in pool
    ensures inS.list.blocks == Flat(done[Min(|done|, outS.Length)..])
    ensures Filled(outS, done, inS.blockSize, inS.len)
  {
    hide *;
    WorkingParts(l, inS, tmp, outS, budget, done, given, pool, false);
    ResparsingEnd(l, inS.list.blocks, tmp.list.blocks, done, outS.Length, budget, inS.blockSize, inS.len);
    MoveBack(inS, tmp, outS, done, given, pool);
  }

  lemma WithinMembers(nodes: seq<Node>, pool: set<Node>)
    requires Within(nodes, pool)
    ensures forall x :: x in nodes ==> x in pool
  {
  }

  /** All of sparse_file_resparse after its start. */
  method CutAll(inS: SparseFile, tmp: SparseFile, outS: array<SparseFile?>, maxLen: u32, st: Store,
                ghost nodes: set<Node>)
    returns (c: nat)
    requires Working(inS.list.blocks, inS, tmp, outS, Budget(maxLen), [], {}, nodes, true)
    modifies inS.list, tmp.list, nodes, outS
    ensures inS.Valid() && 0 < inS.blockSize && Roomy(Budget(maxLen), inS.blockSize)
    ensures var ps := Pieces(old(inS.list.blocks), Budget(maxLen), inS.blockSize);
      c == |ps| && inS.list.blocks == Flat(ps[Min(c, outS.Length)..]) && Filled(outS, ps, inS.blockSize, inS.len)
    ensures forall i :: c <= i < outS.Length ==> outS[i] == old(outS[i])
    ensures forall k :: 0 <= k < |inS.list.nodes| ==> inS.list.nodes[k] in nodes || fresh(inS.list.nodes[k])
  {
    hide *;
    ghost var l := inS.list.blocks;
    ghost var done, given, pool;
    c, done, given, pool := AllTurns(inS, tmp, outS, maxLen, st, nodes);
    PutBack(inS, tmp, outS, l, Budget(maxLen), done, given, pool);
  }

  /** The start of sparse_file_resparse. */
  method SetOut(inS: SparseFile, outS: array<SparseFile?>, ghost budget: u32)
    returns (tmp: SparseFile, ghost nodes: set<Node>)
    requires inS.Valid() && WellFormed(inS.list.blocks, inS.blockSize, inS.len) && IntSized(inS.list.blocks)
    requires Roomy(budget, inS.blockSize)
    ensures fresh(tmp) && fresh(tmp.list) && Working(inS.list.blocks, inS, tmp, outS, budget, [], {}, nodes, true)
    ensures forall x :: x in nodes ==> x in inS.list.nodes
  {
    ResparsingStart(inS.list.blocks, outS.Length, budget, inS.blockSize, inS.len);
    hide *;
    nodes := set x | x in inS.list.nodes;
    tmp := new SparseFile(inS.blockSize, inS.len);
    NothingApart(inS.list.nodes, tmp.list.nodes, nodes);
    NothingDelivered(outS, inS, tmp);
    WorkingParts(inS.list.blocks, inS, tmp, outS, budget, [], {}, nodes, true);
  }

  /** sparse_file_resparse: the first pieces go to outS, the others are put back into the input. */
  method ResparseInto(inS: SparseFile, maxLen: u32, outS: array<SparseFile?>, st: Store) returns (c: nat)
    requires inS.Valid() && WellFormed(inS.list.blocks, inS.blockSize, inS.len) && IntSized(inS.list.blocks)
    requires Roomy(Budget(maxLen), inS.blockSize)
    modifies inS.list, inS.list.nodes, outS
    ensures inS.Valid()
    ensures var ps := Pieces(old(inS.list.blocks), Budget(maxLen), inS.blockSize);
      c == |ps| && inS.list.blocks == Flat(ps[Min(c, outS.Length)..]) && Filled(outS, ps, inS.blockSize, inS.len)
    ensures forall i :: c <= i < outS.Length ==> outS[i] == old(outS[i])
    ensures forall k :: 0 <= k < |inS.list.nodes| ==>
      inS.list.nodes[k] in old(inS.list.nodes) || fresh(inS.list.nodes[k])
  {
    hide *;
    var tmp;
    ghost var nodes;
    tmp, nodes := SetOut(inS, outS, Budget(maxLen));
    c := CutAll(inS, tmp, outS, maxLen, st, nodes);
  }

  lemma NothingApart(a: seq<Node>, b: seq<Node>, nodes: set<Node>)
    requires b == [] && forall x :: x in a ==> x in nodes
    ensures Apart(a, b) && Within(a, nodes) && Within(b, nodes)
  {
  }
}
