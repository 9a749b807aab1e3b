/** Building a sparse list from a raw file, block by block: what sparse_file_read_normal computes. */
module Sparsify {
  import opened Defs
  import opened Image
  import opened BackedBlock
  import opened BackedBlockList
  import opened OutputFile
  import opened SparseFile
  import opened Encode
  import opened SparseRead
  import opened SparseReader

  /** Every word of a buffer is its first. */
  predicate Uniform(buf: seq<byte>) {
    forall i :: 0 <= i < |buf| / 4 ==> Get32(buf, 4 * i) == Get32(buf, 0)
  }

  /** The k-th block of the raw file f: a fill when it is whole and uniform, otherwise a slice of the file. */
  function RawBlock(f: seq<byte>, fd: nat, bs: nat, k: nat): Block
    requires 0 < bs && k * bs < |f| && |f| < U32 && k < U32
  {
    var off := k * bs;
    MulMono(0, k, bs);
    var n := Min(|f| - off, bs);
    if n == bs && Uniform(f[off..off + n]) then Block(k, n, Fill(Get32(f, off))) else Block(k, n, Fd(fd, off))
  }

  lemma BlockInside(len: nat, bs: nat, n: nat)
    requires 0 < bs && 0 < n <= DivRoundUp(len, bs)
    ensures 0 <= (n - 1) * bs < len && n <= len && n * bs == (n - 1) * bs + bs
    ensures len < n * bs ==> n == DivRoundUp(len, bs)
  {
    hide DivRoundUp, Align;
    AlignBounds(len, bs);
    MulMono(DivRoundUp(len, bs), n, bs);
    MulMono(n, DivRoundUp(len, bs), bs);
    Distribute(n - 1, 1, bs);
    MulMono(0, n - 1, bs);
    MulMono(1, bs, n - 1);
  }

  /** The list after n blocks. */
  function Sparsified(f: seq<byte>, fd: nat, bs: nat, n: nat): seq<Block>
    requires 0 < bs && n <= DivRoundUp(|f|, bs) && |f| < U32
  {
    if n == 0 then []
    else
      BlockInside(|f|, bs, n);
      Queue(Sparsified(f, fd, bs, n - 1), RawBlock(f, fd, bs, n - 1), bs)
  }

  // ---- appending in order ----

  /** Appending keeps a list coalesced: a merge changes neither where its block starts nor what backs it. */
  lemma AppendCoalesced(l: seq<Block>, b: Block, bs: nat)
    requires 0 < bs && Coalesced(l, bs) && forall i :: 0 <= i < |l| ==> l[i].block < b.block
    ensures Coalesced(Queue(l, b, bs), bs)
  {
    QueueInOrder(l, b, bs);
    if l != [] {
      var n := |l| - 1;
      var m := l + [b];
      var q := Queue(l, b, bs);
      hide Queue;
      if Mergeable(m[n], m[n + 1], bs) {
        MergeAtElements(m, n, bs);
        forall i | 0 <= i < |q| - 1
          ensures !Mergeable(q[i], q[i + 1], bs)
        {
          assert !Mergeable(l[i], l[i + 1], bs);
          if i == n - 1 {
            MergeSeenFromBefore(l[i], l[n], b, bs);
          }
        }
      }
    }
  }

  // ---- the bytes of one block ----

  lemma UniformByte(buf: seq<byte>, i: nat)
    requires Uniform(buf) && |buf| % 4 == 0 && i < |buf|
    ensures buf[i] == Le32(Get32(buf, 0))[i % 4]
  {
    var q := i / 4;
    assert 4 * q + 4 <= |buf|;
    assert Get32(buf, 4 * q) == Get32(buf, 0);
    Le32Get32(buf, 4 * q, i % 4);
    hide Le32, Get32;
  }

  lemma RawBlockBytes(f: seq<byte>, fd: nat, bs: nat, k: nat, st: Store, i: nat)
    requires 0 < bs && bs % 4 == 0 && k * bs < |f| && |f| < U32 && k < U32 && FdBytes(st, fd) == f
    requires i < RawBlock(f, fd, bs, k).len
    ensures 0 <= k * bs && k * bs + i < |f| && SrcByte(RawBlock(f, fd, bs, k).src, st, i) == f[k * bs + i]
  {
    var off := k * bs;
    MulMono(0, k, bs);
    var b := RawBlock(f, fd, bs, k);
    if b.src.Fill? {
      var buf := f[off..off + bs];
      UniformByte(buf, i);
      assert Get32(buf, 0) == Get32(f, off) by {
        hide Uniform;
        assert buf[0] == f[off] && buf[1] == f[off + 1] && buf[2] == f[off + 2] && buf[3] == f[off + 3];
      }
      assert buf[i] == f[off + i];
    }
    hide Uniform, Get32;
  }

  // ---- the whole file ----

  /** l holds exactly the first n blocks of f. */
  ghost predicate SparseOf(l: seq<Block>, f: seq<byte>, bs: nat, st: Store, n: nat)
    requires 0 < bs
  {
    && Behind(l, bs, n) && Bounded(l, bs) && Coalesced(l, bs) && Positive(l) && FillsWhole(l, bs)
    && (forall i :: 0 <= i < |l| ==> l[i].block < n)
    && forall p: nat :: Lookup(l, bs, st, p) == if p < n * bs && p < |f| then Some(f[p]) else None
  }

  lemma SparseOfNothing(f: seq<byte>, bs: nat, st: Store)
    requires 0 < bs
    ensures SparseOf([], f, bs, st, 0)
  {
  }

  /** The block at the end of the list and its extent. */
  lemma RawExtent(f: seq<byte>, fd: nat, bs: nat, n: nat)
    requires 0 < bs && 0 < n <= DivRoundUp(|f|, bs) && Align(|f|, bs) + bs <= U32
    ensures 0 <= (n - 1) * bs < |f| < U32 && n < U32
    ensures var b := RawBlock(f, fd, bs, n - 1);
      && b.block == n - 1 && 0 < b.len && End(b, bs) == n && Start(b, bs) + b.len < U32
      && (b.src.Fill? ==> b.len % bs == 0)
      && forall p: nat :: (Covers(b, bs, p) <==> (n - 1) * bs <= p < n * bs && p < |f|)
  {
    BlockInside(|f|, bs, n);
    AlignBounds(|f|, bs);
    var b := RawBlock(f, fd, bs, n - 1);
    hide Uniform, Align;
    DivModUnique(b.len + bs - 1, bs, 1, b.len - 1);
    DivModUnique(bs, bs, 1, 0);
  }

  lemma AppendBlocks(l: seq<Block>, b: Block, bs: nat, n: nat)
    requires 0 < bs && b.block < n && forall i :: 0 <= i < |l| ==> l[i].block < b.block
    ensures forall i :: 0 <= i < |Queue(l, b, bs)| ==> Queue(l, b, bs)[i].block < n
  {
    QueueInOrder(l, b, bs);
    if l != [] && Mergeable(l[|l| - 1], b, bs) {
      MergeAtElements(l + [b], |l| - 1, bs);
    }
  }

  lemma AppendFree(l: seq<Block>, b: Block, bs: nat)
    requires 0 < bs && Behind(l, bs, b.block) && forall i :: 0 <= i < |l| ==> l[i].block < b.block
    ensures Free(l, b, bs) && Sorted(l, bs) && InSpace(l, bs)
    ensures forall i :: 0 <= i < |l| ==> End(l[i], bs) <= b.block
  {
    hide DivRoundUp;
  }

  lemma AppendBehind(l: seq<Block>, b: Block, bs: nat)
    requires 0 < bs && Behind(l, bs, b.block) && (forall i :: 0 <= i < |l| ==> l[i].block < b.block)
    requires b.block < End(b, bs) < U32
    ensures Behind(Queue(l, b, bs), bs, End(b, bs))
  {
    AppendFree(l, b, bs);
    QueueKeepsOrder(l, b, bs);
    QueueEnds(l, b, bs, End(b, bs));
    hide DivRoundUp, Queue;
  }

  /** The bytes of the next block join those of the blocks before it. */
  lemma AppendBytes(l: seq<Block>, f: seq<byte>, fd: nat, bs: nat, st: Store, n: nat, p: nat)
    requires 0 < bs && bs % 4 == 0 && 0 < n <= DivRoundUp(|f|, bs) && Align(|f|, bs) + bs <= U32 && FdBytes(st, fd) == f
    requires SparseOf(l, f, bs, st, n - 1)
    ensures 0 <= (n - 1) * bs < |f| < U32 && n < U32
    ensures Bounded(Queue(l, RawBlock(f, fd, bs, n - 1), bs), bs)
    ensures Lookup(Queue(l, RawBlock(f, fd, bs, n - 1), bs), bs, st, p) ==
      if p < n * bs && p < |f| then Some(f[p]) else None
  {
    hide Queue, Lookup, RawBlock, Behind, DivRoundUp, Align, Coalesced, Positive, FillsWhole, SrcByte, Covers, Free;
    RawExtent(f, fd, bs, n);
    BlockInside(|f|, bs, n);
    var b := RawBlock(f, fd, bs, n - 1);
    AppendFree(l, b, bs);
    QueueOverlays(l, b, bs, st, p);
    LookupOne(b, bs, st, p);
    if Covers(b, bs, p) {
      CoveredInside(b, bs, p);
      RawBlockBytes(f, fd, bs, n - 1, st, p - (n - 1) * bs);
    }
  }

  lemma CoveredInside(b: Block, bs: nat, p: nat)
    requires Covers(b, bs, p)
    ensures Start(b, bs) <= p < Start(b, bs) + b.len
  {
  }

  lemma SparseStep(l: seq<Block>, f: seq<byte>, fd: nat, bs: nat, st: Store, n: nat)
    requires 0 < bs && bs % 4 == 0 && 0 < n <= DivRoundUp(|f|, bs) && Align(|f|, bs) + bs <= U32 && FdBytes(st, fd) == f
    requires SparseOf(l, f, bs, st, n - 1)
    ensures 0 <= (n - 1) * bs < |f| < U32 && n < U32
    ensures SparseOf(Queue(l, RawBlock(f, fd, bs, n - 1), bs), f, bs, st, n)
  {
    RawExtent(f, fd, bs, n);
    var b := RawBlock(f, fd, bs, n - 1);
    hide Queue, Lookup, RawBlock, Behind, DivRoundUp, Align, Coalesced, Positive, FillsWhole, Bounded;
    AppendFree(l, b, bs);
    AppendBehind(l, b, bs);
    AppendBlocks(l, b, bs, n);
    AppendCoalesced(l, b, bs);
    AppendPositive(l, b, bs);
    AppendBytes(l, f, fd, bs, st, n, 0);
    forall p: nat
      ensures Lookup(Queue(l, b, bs), bs, st, p) == if p < n * bs && p < |f| then Some(f[p]) else None
    {
      AppendBytes(l, f, fd, bs, st, n, p);
    }
  }

  lemma {:induction false} SparsifiedHolds(f: seq<byte>, fd: nat, bs: nat, st: Store, n: nat)
    requires 0 < bs && bs % 4 == 0 && n <= DivRoundUp(|f|, bs) && Align(|f|, bs) + bs <= U32 && FdBytes(st, fd) == f
    ensures |f| < U32 && SparseOf(Sparsified(f, fd, bs, n), f, bs, st, n)
  {
    hide *;
    SparsifiedUnfold(f, fd, bs, n);
    if n == 0 {
      SparseOfNothing(f, bs, st);
    } else {
      SparsifiedHolds(f, fd, bs, st, n - 1);
      SparseStep(Sparsified(f, fd, bs, n - 1), f, fd, bs, st, n);
    }
  }

  lemma SparsifiedUnfold(f: seq<byte>, fd: nat, bs: nat, n: nat)
    requires 0 < bs && n <= DivRoundUp(|f|, bs) && Align(|f|, bs) + bs <= U32
    ensures |f| < U32
    ensures n == 0 ==> Sparsified(f, fd, bs, n) == []
    ensures 0 < n ==> 0 <= (n - 1) * bs < |f| && n - 1 < U32 && n - 1 <= DivRoundUp(|f|, bs)
    ensures 0 < n ==>
      Sparsified(f, fd, bs, n) == Queue(Sparsified(f, fd, bs, n - 1), RawBlock(f, fd, bs, n - 1), bs)
  {
    hide RawBlock, Align, DivRoundUp, Queue;
    AlignBounds(|f|, bs);
    if 0 < n {
      BlockInside(|f|, bs, n);
    }
  }

  /**
   * The list built from a raw file expands to that file, is an image that can be written, and is fully
   * coalesced.
   */
  lemma SparsifiedIsFile(f: seq<byte>, fd: nat, bs: nat, st: Store)
    requires 0 < bs <= INT_MAX && bs % 4 == 0 && Align(|f|, bs) + bs <= U32 && FdBytes(st, fd) == f
    ensures |f| < U32
    ensures var l := Sparsified(f, fd, bs, DivRoundUp(|f|, bs));
      Expand(l, bs, st, |f|) == f && WellFormed(l, bs, |f|) && Coalesced(l, bs)
  {
    SparsifiedHolds(f, fd, bs, st, DivRoundUp(|f|, bs));
    AlignBounds(|f|, bs);
    hide Sparsified, Lookup, DivRoundUp, Align, Coalesced;
  }

  // ---- which blocks become fills ----

  /** Block k of f is whole and repeats its first four bytes. */
  predicate Repeats(f: seq<byte>, k: nat, bs: nat)
    requires 4 <= bs
  {
    0 <= k * bs && k * bs + bs <= |f| && var b := f[k * bs..k * bs + bs]; forall i :: 0 <= i < bs ==> b[i] == b[i % 4]
  }

  lemma RepeatedWord(buf: seq<byte>, j: nat)
    requires |buf| % 4 == 0 && 4 * j + 4 <= |buf| && forall i :: 0 <= i < |buf| ==> buf[i] == buf[i % 4]
    ensures Get32(buf, 4 * j) == Get32(buf, 0)
  {
    assert (4 * j) % 4 == 0 && (4 * j + 1) % 4 == 1 && (4 * j + 2) % 4 == 2 && (4 * j + 3) % 4 == 3;
  }

  lemma UniformRepeats(buf: seq<byte>)
    requires 4 <= |buf| && |buf| % 4 == 0
    ensures Uniform(buf) <==> forall i :: 0 <= i < |buf| ==> buf[i] == buf[i % 4]
  {
    if Uniform(buf) {
      forall i | 0 <= i < |buf|
        ensures buf[i] == buf[i % 4]
      {
        UniformByte(buf, i);
        UniformByte(buf, i % 4);
      }
    }
    if forall i :: 0 <= i < |buf| ==> buf[i] == buf[i % 4] {
      forall j | 0 <= j < |buf| / 4
        ensures Get32(buf, 4 * j) == Get32(buf, 0)
      {
        RepeatedWord(buf, j);
      }
    }
  }

  lemma RawBlockKind(f: seq<byte>, fd: nat, bs: nat, k: nat)
    requires 4 <= bs && bs % 4 == 0 && k * bs < |f| && |f| < U32 && k < U32
    ensures 0 <= k * bs
    ensures var b := RawBlock(f, fd, bs, k); if Repeats(f, k, bs) then b.src.Fill? else b.src == Fd(fd, k * bs)
  {
    MulMono(0, k, bs);
    if k * bs + bs <= |f| {
      UniformRepeats(f[k * bs..k * bs + bs]);
    }
    hide Uniform, Get32;
  }

  /** Extent b holds block k as what it is in the file. */
  predicate HoldsBlock(b: Block, k: nat, f: seq<byte>, fd: nat, bs: nat)
    requires 4 <= bs
  {
    && b.block <= k < End(b, bs)
    && if Repeats(f, k, bs) then b.src.Fill? else b.src == Fd(fd, Start(b, bs))
  }

  lemma MergedExtent(a: Block, b: Block, bs: nat)
    requires 0 < bs && End(a, bs) <= b.block && Mergeable(a, b, bs) && Start(b, bs) + b.len < U32
    ensures Merged(a, b).block == a.block && Merged(a, b).src == a.src && End(Merged(a, b), bs) == End(b, bs)
    ensures Start(b, bs) == Start(a, bs) + a.len && a.block <= b.block && End(a, bs) <= End(b, bs)
  {
    MergeableMeet(a, b, bs);
    NoWrapBelow(a, b, bs);
    assert a.len == (a.len / bs) * bs;
    RoundUpSum(a.len / bs, b.len, bs);
  }

  /** A block queued behind others is held by the last extent. */
  lemma QueuedLast(l: seq<Block>, b: Block, f: seq<byte>, fd: nat, bs: nat) returns (i: nat)
    requires 4 <= bs && HoldsBlock(b, b.block, f, fd, bs) && Start(b, bs) + b.len < U32
    requires forall i :: 0 <= i < |l| ==> l[i].block < b.block && End(l[i], bs) <= b.block
    ensures i < |Queue(l, b, bs)| && HoldsBlock(Queue(l, b, bs)[i], b.block, f, fd, bs)
  {
    QueueInOrder(l, b, bs);
    i := |l|;
    if l != [] && Mergeable(l[|l| - 1], b, bs) {
      MergeAtElements(l + [b], |l| - 1, bs);
      MergedExtent(l[|l| - 1], b, bs);
      i := |l| - 1;
    }
    hide Queue, Repeats, DivRoundUp;
  }

  /** The blocks that were held stay held. */
  lemma QueuedKeeps(l: seq<Block>, b: Block, i: nat, k: nat, f: seq<byte>, fd: nat, bs: nat)
    requires 4 <= bs && i < |l| && HoldsBlock(l[i], k, f, fd, bs) && Start(b, bs) + b.len < U32
    requires forall i :: 0 <= i < |l| ==> l[i].block < b.block && End(l[i], bs) <= b.block
    ensures i < |Queue(l, b, bs)| && HoldsBlock(Queue(l, b, bs)[i], k, f, fd, bs)
  {
    QueueInOrder(l, b, bs);
    if Mergeable(l[|l| - 1], b, bs) {
      MergeAtElements(l + [b], |l| - 1, bs);
      MergedExtent(l[|l| - 1], b, bs);
    }
    hide Queue, Repeats, DivRoundUp, Mergeable;
  }

  lemma SparseOrder(l: seq<Block>, f: seq<byte>, bs: nat, st: Store, n: nat)
    requires 0 < bs && SparseOf(l, f, bs, st, n)
    ensures forall i :: 0 <= i < |l| ==> l[i].block < n && End(l[i], bs) <= n
  {
    hide DivRoundUp;
  }

  lemma RawHeld(f: seq<byte>, fd: nat, bs: nat, k: nat)
    requires 4 <= bs && bs % 4 == 0 && k * bs < |f| && |f| < U32 && k < U32
    requires RawBlock(f, fd, bs, k).block == k && k < End(RawBlock(f, fd, bs, k), bs)
    ensures HoldsBlock(RawBlock(f, fd, bs, k), k, f, fd, bs)
  {
    RawBlockKind(f, fd, bs, k);
    hide RawBlock, Repeats, End;
  }

  /**
   * Every block of the file lies in an extent of the list, and that is a fill exactly when the block is whole and
   * repeats its first four bytes; otherwise it is a slice of the file.
   */
  lemma {:induction false} BlockHeld(f: seq<byte>, fd: nat, bs: nat, st: Store, n: nat, k: nat) returns (i: nat)
    requires 4 <= bs && bs % 4 == 0 && n <= DivRoundUp(|f|, bs) && Align(|f|, bs) + bs <= U32 && FdBytes(st, fd) == f
    requires k < n
    ensures |f| < U32 && i < |Sparsified(f, fd, bs, n)| && HoldsBlock(Sparsified(f, fd, bs, n)[i], k, f, fd, bs)
    decreases n
  {
    hide *;
    SparsifiedUnfold(f, fd, bs, n);
    SparsifiedHolds(f, fd, bs, st, n - 1);
    RawExtent(f, fd, bs, n);
    var l, b := Sparsified(f, fd, bs, n - 1), RawBlock(f, fd, bs, n - 1);
    SparseOrder(l, f, bs, st, n - 1);
    if k == n - 1 {
      RawHeld(f, fd, bs, k);
      i := QueuedLast(l, b, f, fd, bs);
    } else {
      i := BlockHeld(f, fd, bs, st, n - 1, k);
      QueuedKeeps(l, b, i, k, f, fd, bs);
    }
  }

  // ---- the method ----

  /** The word comparison loop of sparse_file_read_normal. */
  method IsUniform(buf: seq<byte>) returns (sparseBlock: bool)
    ensures sparseBlock == Uniform(buf)
  {
    hide Get32;
    sparseBlock := true;
    var i := 1;
    while i < |buf| / 4
      invariant 1 <= i && forall k :: 0 <= k < i && k < |buf| / 4 ==> Get32(buf, 4 * k) == Get32(buf, 0)
    {
      if Get32(buf, 0) != Get32(buf, 4 * i) {
        return false;
      }
      i := i + 1;
    }
  }

  /** The list under construction, and where the next block goes. */
  ghost predicate Building(l: seq<Block>, f: seq<byte>, fd: nat, bs: nat, n: nat)
    requires 0 < bs && Align(|f|, bs) + bs <= U32
  {
    AlignBounds(|f|, bs);
    && n <= DivRoundUp(|f|, bs) && l == Sparsified(f, fd, bs, n)
    && Behind(l, bs, n) && forall i :: 0 <= i < |l| ==> l[i].block < n
  }

  lemma BuildingParts(l: seq<Block>, f: seq<byte>, fd: nat, bs: nat, n: nat)
    requires 0 < bs && Align(|f|, bs) + bs <= U32
    ensures |f| < U32 && (Building(l, f, fd, bs, n) <==>
      n <= DivRoundUp(|f|, bs) && l == Sparsified(f, fd, bs, n) && Behind(l, bs, n)
      && forall i :: 0 <= i < |l| ==> l[i].block < n)
  {
    AlignBounds(|f|, bs);
    hide Behind, Sparsified, DivRoundUp, Align;
  }

  lemma OneMoreBlock(len: nat, bs: nat, n: nat)
    requires 0 < bs && n * bs < len && n <= DivRoundUp(len, bs)
    ensures 0 <= n * bs && n + 1 <= DivRoundUp(len, bs) && n < len && (n + 1) * bs == n * bs + bs
  {
    AlignBounds(len, bs);
    MulMono(DivRoundUp(len, bs), n, bs);
    MulMono(0, n, bs);
    hide DivRoundUp, Align;
    BlockInside(len, bs, n + 1);
  }

  lemma BuildingStep(l: seq<Block>, f: seq<byte>, fd: nat, bs: nat, n: nat)
    requires 0 < bs && Align(|f|, bs) + bs <= U32 && Building(l, f, fd, bs, n) && n * bs < |f|
    ensures n + 1 <= DivRoundUp(|f|, bs) && 0 <= n * bs && n < U32 && |f| < U32 && (n + 1) * bs == n * bs + bs
    ensures Sorted(l, bs) && Free(l, RawBlock(f, fd, bs, n), bs)
    ensures Building(Queue(l, RawBlock(f, fd, bs, n), bs), f, fd, bs, n + 1)
  {
    hide *;
    BuildingParts(l, f, fd, bs, n);
    OneMoreBlock(|f|, bs, n);
    RawExtent(f, fd, bs, n + 1);
    var b := RawBlock(f, fd, bs, n);
    AppendFree(l, b, bs);
    AppendBehind(l, b, bs);
    AppendBlocks(l, b, bs, n + 1);
    SparsifiedUnfold(f, fd, bs, n + 1);
    BuildingParts(Queue(l, b, bs), f, fd, bs, n + 1);
  }

  lemma BuildingDone(l: seq<Block>, f: seq<byte>, fd: nat, bs: nat, n: nat)
    requires 0 < bs && Align(|f|, bs) + bs <= U32 && Building(l, f, fd, bs, n) && |f| <= n * bs
    ensures |f| < U32 && l == Sparsified(f, fd, bs, DivRoundUp(|f|, bs))
  {
    hide *;
    BuildingParts(l, f, fd, bs, n);
    if n < DivRoundUp(|f|, bs) {
      BlockInside(|f|, bs, n + 1);
      assert false;
    }
  }

  /** The block at an offset, from the bytes read there. */
  lemma RawBlockRead(f: seq<byte>, fd: nat, bs: nat, k: nat, buf: seq<byte>)
    requires 0 < bs && bs % 4 == 0 && 0 <= k * bs < |f| < U32 && k < U32
    requires buf == f[k * bs..k * bs + Min(|f| - k * bs, bs)]
    ensures |buf| <= bs && |buf| < U32
    ensures RawBlock(f, fd, bs, k) ==
      if |buf| == bs && Uniform(buf) then Block(k, |buf|, Fill(Get32(buf, 0))) else Block(k, |buf|, Fd(fd, k * bs))
  {
    if |buf| == bs {
      FirstWord(f, k * bs, bs);
    }
    hide Uniform, Get32;
  }

  /** One turn of the loop of sparse_file_read_normal, after the bytes of block `block` have been read. */
  method AddRaw(s: SparseFile, buf: seq<byte>, fd: nat, offset: nat, block: u32, ghost f: seq<byte>)
    requires s.Valid() && 0 < s.blockSize && s.blockSize % 4 == 0 && Align(|f|, s.blockSize) + s.blockSize <= U32
    requires Building(s.list.blocks, f, fd, s.blockSize, block)
    requires offset == block * s.blockSize < |f| && buf == f[offset..offset + Min(|f| - offset, s.blockSize)]
    modifies s.list, s.list.nodes
    ensures s.Valid() && Building(s.list.blocks, f, fd, s.blockSize, block + 1)
    ensures forall n :: n in s.list.nodes ==> n in old(s.list.nodes) || fresh(n)
  {
    hide Building, Distinct, List.Valid, Uniform, Queue, Sorted, Free, Ascending, Unused, DivRoundUp, Align;
    hide RawBlock, Get32;
    BuildingStep(s.list.blocks, f, fd, s.blockSize, block);
    RawBlockRead(f, fd, s.blockSize, block, buf);
    var sparseBlock := false;
    if |buf| == s.blockSize {
      sparseBlock := IsUniform(buf);
    }
    ghost var b := RawBlock(f, fd, s.blockSize, block);
    SortedAscending(s.list.blocks, s.blockSize);
    FreeUnused(s.list.blocks, b, s.blockSize);
    if sparseBlock {
      var _ := s.list.Add(Fill(Get32(buf, 0)), |buf|, block);
    } else {
      var _ := s.list.Add(Fd(fd, offset), |buf|, block);
    }
  }

  lemma FirstWord(f: seq<byte>, off: nat, n: nat)
    requires 4 <= n && off + n <= |f|
    ensures Get32(f[off..off + n], 0) == Get32(f, off)
  {
    var buf := f[off..off + n];
    assert buf[0] == f[off] && buf[1] == f[off + 1] && buf[2] == f[off + 2] && buf[3] == f[off + 3];
  }

  lemma BuildingStart(f: seq<byte>, fd: nat, bs: nat)
    requires 0 < bs && Align(|f|, bs) + bs <= U32
    ensures Building([], f, fd, bs, 0)
  {
    AlignBounds(|f|, bs);
  }

  /** One turn of the loop of sparse_file_read_normal. */
  method ReadBlock(s: SparseFile, file: File, fd: nat, remain: nat, offset: nat, block: nat, ghost f: seq<byte>)
    returns (ok: bool, toRead: nat)
    requires s.Valid() && 0 < s.blockSize && s.blockSize % 4 == 0 && Align(|f|, s.blockSize) + s.blockSize <= U32
    requires Building(s.list.blocks, f, fd, s.blockSize, block) && 0 < remain
    requires offset == block * s.blockSize && offset + remain == |f| && file.pos == offset
    requires f == Truncate(file.bytes, |f|)
    modifies s.list, s.list.nodes, file`pos
    ensures s.Valid() && toRead == Min(remain, s.blockSize) && ok == (offset + toRead <= |file.bytes|)
    ensures ok ==> file.pos == offset + toRead && Building(s.list.blocks, f, fd, s.blockSize, block + 1)
    ensures (block + 1) * s.blockSize == offset + s.blockSize
    ensures forall i :: 0 <= i < |s.list.nodes| ==> s.list.nodes[i] in old(s.list.nodes) || fresh(s.list.nodes[i])
  {
    hide Building, Distinct, List.Valid, DivRoundUp, Align, Sorted, Free, Queue, RawBlock;
    BuildingStep(s.list.blocks, f, fd, s.blockSize, block);
    toRead := if remain < s.blockSize then remain else s.blockSize;
    var buf;
    ok, buf := ReadAll(file, toRead);
    if ok {
      assert buf == f[offset..offset + toRead];
      AddRaw(s, buf, fd, offset, block, f);
    }
    assert forall i :: 0 <= i < |s.list.nodes| ==> s.list.nodes[i] in s.list.nodes;
  }

  lemma PrefixIs(f: seq<byte>, len: nat)
    requires len <= |f|
    ensures Truncate(f, len) == f[..len]
  {
  }

  lemma TruncatedTwice(f: seq<byte>, len: nat)
    ensures |Truncate(f, len)| == len && Truncate(f, |Truncate(f, len)|) == Truncate(f, len)
  {
  }

  lemma MinIs(a: nat, b: nat)
    ensures Min(a, b) == if a < b then a else b
  {
  }

  /** sparse_file_read_normal, on a sparse file that has no blocks yet. */
  method ReadNormal(s: SparseFile, file: File, fd: nat) returns (ok: bool)
    requires s.Valid() && s.list.blocks == [] && 0 < s.blockSize && s.blockSize % 4 == 0
    requires Align(s.len, s.blockSize) + s.blockSize <= U32 && file.pos == 0
    modifies s.list, s.list.nodes, file`pos
    ensures s.Valid() && file.bytes == old(file.bytes) && ok == (s.len <= |file.bytes|)
    ensures ok ==> s.len < U32
    ensures ok ==>
      s.list.blocks == Sparsified(file.bytes[..s.len], fd, s.blockSize, DivRoundUp(s.len, s.blockSize))
    ensures forall k :: 0 <= k < |s.list.nodes| ==> s.list.nodes[k] in old(s.list.nodes) || fresh(s.list.nodes[k])
  {
    hide *;
    ghost var f := Truncate(file.bytes, s.len);
    TruncatedTwice(file.bytes, s.len);
    BuildingStart(f, fd, s.blockSize);
    var block: nat, remain, offset := 0, s.len, 0;
    while remain > 0
      invariant s.Valid() && offset == file.pos && 0 <= remain == s.len - offset && offset <= |file.bytes|
      invariant if remain > 0 then offset == block * s.blockSize else s.len <= block * s.blockSize
      invariant Building(s.list.blocks, f, fd, s.blockSize, block)
      invariant forall k :: 0 <= k < |s.list.nodes| ==> s.list.nodes[k] in old(s.list.nodes) || fresh(s.list.nodes[k])
      decreases remain
    {
      var toRead;
      ok, toRead := ReadBlock(s, file, fd, remain, offset, block, f);
      MinIs(remain, s.blockSize);
      if !ok {
        return;
      }
      remain := remain - toRead;
      offset := offset + toRead;
      block := block + 1;
    }
    ok := true;
    BuildingDone(s.list.blocks, f, fd, s.blockSize, block);
    PrefixIs(file.bytes, s.len);
  }
}
