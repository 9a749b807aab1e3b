/** append2simg: one file added behind an image. */
module Append {
  import opened Defs
  import opened Image
  import opened BackedBlock
  import opened BackedBlockList
  import opened OutputFile
  import opened SparseFile
  import opened Encode
  import opened SparseRead
  import opened SparseReader
  import opened RoundTrip
  import opened Partial
  import opened Sparsify
  import opened Resparse
  import opened ResparseSize
  import opened Reassemble

  /** The list after the input has been added behind an image of len bytes. */
  function Appended(l: seq<Block>, bs: nat, len: nat, fd: nat, n: nat): seq<Block>
    requires 0 < bs && len < U32 && n < U32
  {
    QuotientBound(len, bs);
    Queue(l, Block(len / bs, n, Fd(fd, 0)), bs)
  }

  /** What append2simg asks of its input and of the size of the result. */
  predicate Suits(bs: nat, len: nat, n: nat) {
    0 < bs && 0 < n && n % bs == 0 && len + n + bs <= U32
  }

  lemma SuitsSmall(bs: nat, len: nat, n: nat)
    requires Suits(bs, len, n)
    ensures 0 <= len / bs <= len < U32 && n < U32 && n < 0x1_0000_0000
  {
    QuotientBound(len, bs);
  }

  predicate Appendable(l: seq<Block>, bs: nat, len: nat, n: nat) {
    Suits(bs, len, n) && WellFormed(l, bs, len) && len % bs == 0
  }

  lemma AppendSizes(bs: nat, len: nat, n: nat)
    requires 0 < bs && len % bs == 0 && n % bs == 0 && 0 < n
    ensures (len + n) % bs == 0 && Align(len + n, bs) == len + n && DivRoundUp(len, bs) == len / bs
    ensures 0 <= len / bs && (len / bs) * bs == len
    ensures len / bs < len / bs + DivRoundUp(n, bs) == DivRoundUp(len + n, bs)
  {
    SumWhole(len, n, bs);
    AlignBounds(len + n, bs);
    AlignBounds(len, bs);
    AlignBounds(n, bs);
    QuotientBound(len, bs);
    RoundUpSum(len / bs, n, bs);
  }

  /** Everything in an image of whole blocks lies before its end. */
  lemma BeforeEnd(l: seq<Block>, bs: nat, len: nat, b: Block)
    requires WellFormed(l, bs, len) && b.block == DivRoundUp(len, bs)
    ensures Free(l, b, bs) && forall i :: 0 <= i < |l| ==> l[i].block < b.block && End(l[i], bs) <= b.block
  {
    forall i | 0 <= i < |l|
      ensures l[i].block < End(l[i], bs)
    {
      AlignBounds(l[i].len, bs);
    }
    hide DivRoundUp;
  }

  lemma AppendedWellFormed(l: seq<Block>, bs: nat, len: nat, fd: nat, n: nat)
    requires Appendable(l, bs, len, n)
    ensures WellFormed(Appended(l, bs, len, fd, n), bs, len + n)
  {
    AppendSizes(bs, len, n);
    WellFormedAll(l, bs, len);
    var b := Block(len / bs, n, Fd(fd, 0));
    BeforeEnd(l, bs, len, b);
    hide DivRoundUp, Align, Queue;
    QueueKeepsOrder(l, b, bs);
    QueueEnds(l, b, bs, DivRoundUp(len + n, bs));
    AppendPositive(l, b, bs);
  }

  lemma AppendedByte(l: seq<Block>, bs: nat, len: nat, fd: nat, st: Store, p: nat)
    requires Appendable(l, bs, len, |FdBytes(st, fd)|) && p < len + |FdBytes(st, fd)|
    ensures GetOr(Lookup(Appended(l, bs, len, fd, |FdBytes(st, fd)|), bs, st, p), 0) ==
            if p < len then GetOr(Lookup(l, bs, st, p), 0) else FdBytes(st, fd)[p - len]
  {
    var n := |FdBytes(st, fd)|;
    AppendSizes(bs, len, n);
    WellFormedAll(l, bs, len);
    var b := Block(len / bs, n, Fd(fd, 0));
    BeforeEnd(l, bs, len, b);
    hide DivRoundUp, Align, Queue, Lookup, WellFormed, Free;
    QueueOverlays(l, b, bs, st, p);
    LookupOne(b, bs, st, p);
  }

  /** Appending is concatenation, for an input of whole blocks that still fits in 32 bits. */
  lemma AppendIsConcatenation(l: seq<Block>, bs: nat, len: nat, fd: nat, st: Store)
    requires Appendable(l, bs, len, |FdBytes(st, fd)|)
    ensures var input := FdBytes(st, fd);
      var m := Appended(l, bs, len, fd, |input|);
      && WellFormed(m, bs, len + |input|) && (len + |input|) % bs == 0
      && Expand(m, bs, st, len + |input|) == Expand(l, bs, st, len) + input
  {
    var input := FdBytes(st, fd);
    AppendSizes(bs, len, |input|);
    AppendedWellFormed(l, bs, len, fd, |input|);
    hide WellFormed, Lookup, DivRoundUp, Align, FdBytes, Appended;
    var x, y := Expand(Appended(l, bs, len, fd, |input|), bs, st, len + |input|), Expand(l, bs, st, len) + input;
    forall p: nat | p < len + |input|
      ensures x[p] == y[p]
    {
      AppendedByte(l, bs, len, fd, st, p);
    }
    assert x == y;
  }

  /** append2simg end to end: the file it writes is read as the old expansion followed by the input. */
  lemma AppendRoundTrip(l: seq<Block>, bs: nat, len: nat, fd: nat, out: nat, st: Store, st': Store)
    requires Appendable(l, bs, len, |FdBytes(st, fd)|)
    requires FdBytes(st', out) ==
      Encoded(Appended(l, bs, len, fd, |FdBytes(st, fd)|), bs, len + |FdBytes(st, fd)|, false, st)
    ensures var i, input := Import(FdBytes(st', out), out, false), FdBytes(st, fd);
      && i.Ok? && i.value.bs == bs && i.value.len == len + |input|
      && Expand(i.value.blocks, bs, st', len + |input|) == Expand(l, bs, st, len) + input
  {
    var n := |FdBytes(st, fd)|;
    var m := Appended(l, bs, len, fd, n);
    AppendIsConcatenation(l, bs, len, fd, st);
    NoCrcAccepted(m, bs, len + n, false, st);
    hide Import, WellFormed, Expand, Encoded, Lookup, CrcAccepted, Appended;
    ImportOfWritten(m, bs, len + n, false, false, out, st, st');
  }

  // ---- images that are not a whole number of blocks ----

  /** The block number of the new extent, rounded down, is either in use or behind all others. */
  lemma NumbersBelow(l: seq<Block>, bs: nat, len: nat)
    requires WellFormed(l, bs, len) && Unused(l, len / bs)
    ensures forall i :: 0 <= i < |l| ==> l[i].block < len / bs && End(l[i], bs) <= DivRoundUp(len, bs)
  {
    RoundUpParts(len, bs);
    forall i | 0 <= i < |l|
      ensures l[i].block < End(l[i], bs)
    {
      AlignBounds(l[i].len, bs);
    }
    hide DivRoundUp;
  }

  lemma NewExtent(bs: nat, len: nat, n: nat, fd: nat)
    requires Suits(bs, len, n)
    ensures 0 <= len / bs < U32 && n < U32
    ensures var b := Block(len / bs, n, Fd(fd, 0)); Writable(b, bs) && End(b, bs) == len / bs + n / bs
  {
    SuitsSmall(bs, len, n);
    AlignBounds(n, bs);
    QuotientBound(n, bs);
  }

  /** The new extent is appended and never merged: no extent ends at offset zero of its file. */
  lemma AppendedIs(l: seq<Block>, bs: nat, len: nat, fd: nat, n: nat)
    requires WellFormed(l, bs, len) && Suits(bs, len, n) && Unused(l, len / bs)
    ensures 0 <= len / bs < U32 && n < U32
    ensures Appended(l, bs, len, fd, n) == l + [Block(len / bs, n, Fd(fd, 0))]
    ensures AllWritable(Appended(l, bs, len, fd, n), bs)
  {
    NewExtent(bs, len, n, fd);
    NumbersBelow(l, bs, len);
    WellFormedAll(l, bs, len);
    var b := Block(len / bs, n, Fd(fd, 0));
    hide DivRoundUp, Writable, Queue, MergeAt;
    QueueInOrder(l, b, bs);
    if l != [] {
      assert (l + [b])[|l| - 1] == l[|l| - 1] && 0 < l[|l| - 1].len;
      MergeAtSame(l + [b], |l| - 1, bs);
    }
  }

  /** Moving the last extent up to where the one before it ends changes none of the chunks. */
  lemma {:induction false} LastMoved(l: seq<Block>, b: Block, c: Block, last: nat, bs: nat, st: Store)
    requires 0 < bs && c == b.(block := c.block)
    requires c.block == b.block || (b.block <= LastBlock(l, last, bs) && c.block <= LastBlock(l, last, bs))
    ensures BlocksBytes(l + [b], last, bs, st) == BlocksBytes(l + [c], last, bs, st)
    ensures CountChunks(l + [b], last, bs, 0) == CountChunks(l + [c], last, bs, 0)
    ensures LastBlock(l + [b], last, bs) == End(b, bs)
    decreases |l|
  {
    if l == [] {
      AlignBounds(0, bs);
      DivModUnique(0, bs, 0, 0);
      assert [] + [b] == [b] && [] + [c] == [c] && [b][1..] == [] && [c][1..] == [];
      assert ChunkBytes(b, bs, st) == ChunkBytes(c, bs, st) && GapBytes(b, last) == GapBytes(c, last);
    } else {
      hide DivRoundUp, ChunkBytes, GapBytes;
      assert (l + [b])[0] == (l + [c])[0] == l[0] && (l + [b])[1..] == l[1..] + [b] && (l + [c])[1..] == l[1..] + [c];
      LastMoved(l[1..], b, c, End(l[0], bs), bs, st);
    }
  }

  /** The new extent where the reader takes it to be: behind the last block, which may be the partial one. */
  function Moved(l: seq<Block>, bs: nat, len: nat, fd: nat, n: u32): Block
    requires 0 < bs && 0 <= len / bs < U32 && LastBlock(l, 0, bs) < U32
  {
    Block(Max(len / bs, LastBlock(l, 0, bs)), n, Fd(fd, 0))
  }

  lemma MovedEnd(bs: nat, len: nat, n: nat, k: nat)
    requires bs % 4 == 0 && Suits(bs, len, n) && k <= DivRoundUp(len, bs)
    ensures (k + DivRoundUp(n, bs)) * bs < U32 && k + DivRoundUp(n, bs) <= INT_MAX
  {
    AlignBounds(len, bs);
    AlignBounds(n, bs);
    MulMono(k, DivRoundUp(len, bs), bs);
    var e := k + DivRoundUp(n, bs);
    Distribute(k, DivRoundUp(n, bs), bs);
    MulMono(4, bs, e);
  }

  lemma LastWithin(l: seq<Block>, bs: nat, len: nat)
    requires WellFormed(l, bs, len)
    ensures LastBlock(l, 0, bs) <= DivRoundUp(len, bs) &&
      (forall i :: 0 <= i < |l| ==> End(l[i], bs) <= LastBlock(l, 0, bs))
  {
    PadWithin(l, bs, len);
    forall i | 0 <= i < |l|
      ensures End(l[i], bs) <= LastBlock(l, 0, bs)
    {
      LastBlockAfter(l, 0, bs, i);
    }
  }

  lemma EndsFit(l: seq<Block>, bs: nat, len: nat, n: nat)
    requires WellFormed(l, bs, len) && Suits(bs, len, n)
    ensures forall i :: 0 <= i < |l| ==> End(l[i], bs) <= INT_MAX && End(l[i], bs) * bs < U32
  {
    forall i | 0 <= i < |l|
      ensures End(l[i], bs) <= INT_MAX && End(l[i], bs) * bs < U32
    {
      MovedEnd(bs, len, n, End(l[i], bs));
      MulMono(0, DivRoundUp(n, bs), bs);
      Distribute(End(l[i], bs), DivRoundUp(n, bs), bs);
    }
  }

  lemma SnocDecodable(l: seq<Block>, c: Block, bs: nat)
    requires 0 < bs && AllWritable(l, bs) && Writable(c, bs) && Sorted(l + [c], bs) && FillsWhole(l + [c], bs)
    requires forall i :: 0 <= i < |l| ==> End(l[i], bs) <= INT_MAX && End(l[i], bs) * bs < U32
    requires End(c, bs) <= INT_MAX && End(c, bs) * bs < U32
    ensures Decodable(l + [c], bs)
  {
    hide DivRoundUp, Sorted, FillsWhole, Writable;
  }

  lemma MovedFits(l: seq<Block>, bs: nat, len: nat, fd: nat, n: nat)
    requires WellFormed(l, bs, len) && Suits(bs, len, n) && Unused(l, len / bs)
    ensures 0 <= len / bs < U32 && n < U32 && LastBlock(l, 0, bs) < U32
    ensures var c := Moved(l, bs, len, fd, n);
      && Writable(c, bs) && End(c, bs) <= INT_MAX && End(c, bs) * bs < U32
      && forall i :: 0 <= i < |l| ==> l[i].block < c.block && End(l[i], bs) <= c.block
  {
    SuitsSmall(bs, len, n);
    WellFormedSize(l, bs, len);
    LastWithin(l, bs, len);
    RoundUpParts(len, bs);
    NumbersBelow(l, bs, len);
    hide WellFormed, Unused, LastBlock, DivRoundUp;
    MovedEnd(bs, len, n, Max(len / bs, LastBlock(l, 0, bs)));
  }

  /** The chunks of the overlapping list are those of a list that does not overlap. */
  lemma MovedDecodable(l: seq<Block>, bs: nat, len: nat, fd: nat, n: nat)
    requires WellFormed(l, bs, len) && Suits(bs, len, n) && Unused(l, len / bs)
    ensures 0 <= len / bs < U32 && n < U32 && LastBlock(l, 0, bs) < U32
    ensures var m := l + [Moved(l, bs, len, fd, n)];
      Decodable(m, bs) && LastBlock(m, 0, bs) <= INT_MAX && CountChunks(m, 0, bs, 0) + 2 < U32
  {
    hide *;
    SuitsSmall(bs, len, n);
    MovedFits(l, bs, len, fd, n);
    WellFormedParts(l, bs, len);
    WellFormedAll(l, bs, len);
    EndsFit(l, bs, len, n);
    var c := Moved(l, bs, len, fd, n);
    MovedIs(l, bs, len, fd, n);
    MovedSorted(l, c, bs);
    SnocDecodable(l, c, bs);
    LastMoved(l, c, c, 0, bs, Store(map[], map[]));
    DecodableWritable(l + [c], bs);
    ChunksBelow(l + [c], 0, bs);
    IntFits(LastBlock(l + [c], 0, bs));
  }

  lemma IntFits(x: int)
    requires x <= INT_MAX
    ensures x + 2 < U32
  {
  }

  lemma MovedIs(l: seq<Block>, bs: nat, len: nat, fd: nat, n: u32)
    requires 0 < bs && 0 <= len / bs < U32 && LastBlock(l, 0, bs) < U32
    ensures var c := Moved(l, bs, len, fd, n);
      && c.src == Fd(fd, 0) && c.len == n && (c.block == len / bs || len / bs < c.block == LastBlock(l, 0, bs))
  {
    hide LastBlock;
  }

  lemma DecodableWritable(l: seq<Block>, bs: nat)
    requires 0 < bs && Decodable(l, bs)
    ensures AllWritable(l, bs)
  {
    hide AllWritable;
  }

  lemma MovedSorted(l: seq<Block>, c: Block, bs: nat)
    requires 0 < bs && Sorted(l, bs) && FillsWhole(l, bs) && c.src.Fd?
    requires forall i :: 0 <= i < |l| ==> l[i].block < c.block && End(l[i], bs) <= c.block
    ensures Sorted(l + [c], bs) && FillsWhole(l + [c], bs) && From(l + [c], 0)
  {
    hide DivRoundUp;
  }

  lemma SumParts(len: nat, n: nat, bs: nat)
    requires 0 < bs && n % bs == 0
    ensures (len + n) / bs == len / bs + n / bs && (len + n) % bs == len % bs
    ensures len + n - (len / bs + n / bs) * bs == len % bs && (len % bs) % bs == len % bs
  {
    var q, k, r := len / bs, n / bs, len % bs;
    assert len == q * bs + r && n == k * bs;
    Distribute(q, k, bs);
    DivModUnique(len + n, bs, q + k, r);
    DivModUnique(r, bs, 0, r);
  }

  lemma PartialSizes(bs: nat, len: nat, n: nat)
    requires Suits(bs, len, n) && len % bs != 0
    ensures 0 <= (len + n) / bs == len / bs + n / bs < U32 && bs < U32
    ensures 0 <= len / bs < 0x1_0000_0000 && n < 0x1_0000_0000 && len < U32 && n < U32
    ensures DivRoundUp(len + n, bs) == len / bs + n / bs + 1
    ensures var pad := len + n - (len / bs + n / bs) * bs; 0 < pad && pad % bs != 0
  {
    SuitsSmall(bs, len, n);
    SumParts(len, n, bs);
    QuotientBound(len + n, bs);
    RoundUpParts(len + n, bs);
    hide DivRoundUp;
  }

  /** A file announced with a partial block at its end: the chunk for it is missing, whatever the extents. */
  lemma PartialAppend(l: seq<Block>, bs: nat, len: nat, fd: nat, n: nat, out: nat, st: Store)
    requires WellFormed(l, bs, len) && len % bs != 0 && Suits(bs, len, n) && Unused(l, len / bs)
    ensures len < U32 && n < U32
    ensures var m := Appended(l, bs, len, fd, n);
      var f := Encoded(m, bs, len + n, false, st);
      && Written(m, Config(true, false, bs, len + n), FileSink([], 0), st).Some?
      && Written(m, Config(true, false, bs, len + n), FileSink([], 0), st).value.sink == FileSink(f, |f|)
      && Import(f, out, false) == Invalid
  {
    hide *;
    AppendedIs(l, bs, len, fd, n);
    PartialSizes(bs, len, n);
    WellFormedSize(l, bs, len);
    MovedDecodable(l, bs, len, fd, n);
    NewExtent(bs, len, n, fd);
    var b, c := Block(len / bs, n, Fd(fd, 0)), Moved(l, bs, len, fd, n);
    MovedIs(l, bs, len, fd, n);
    LastMoved(l, b, c, 0, bs, st);
    LastMoved(l, c, c, 0, bs, st);
    var m := l + [b];
    CountTail(m, 0, bs, len + n);
    Distribute(len / bs, n / bs, bs);
    assert len + n - LastBlock(m, 0, bs) * bs == len + n - (len / bs + n / bs) * bs;
    SparseWrites(m, bs, len + n, false, FileSink([], 0), st);
    PutFresh(Encoded(m, bs, len + n, false, st));
    ReadsEncoded(l + [c], m, bs, len + n, false, st);
    PartialRefused(Encoded(m, bs, len + n, false, st), l + [c], bs, false, false, out, st);
  }

  // ---- what the program writes ----

  function BytesOf(s: Sink): seq<byte> {
    match s
    case FileSink(bytes, _) => bytes
    case CountSink(_) => []
  }

  /**
   * The file that append2simg leaves behind for an imported image and an input: None when it exits or stops. It
   * stops when a block with the number of the new extent exists (merge_bb) or an extent ends beyond the image
   * (write_all_blocks).
   */
  function AppendedFile(im: Imported, fd: nat, st: Store): Option<seq<byte>>
    requires 0 < im.bs && im.len < U32 && |FdBytes(st, fd)| < U32
  {
    var n := |FdBytes(st, fd)|;
    if n % im.bs != 0 || n == 0 || !Unused(im.blocks, im.len / im.bs) then None
    else
      var m := Appended(im.blocks, im.bs, im.len, fd, n);
      match Written(m, Config(true, false, im.bs, im.len + n), FileSink([], 0), st)
      case Some(o) => Some(BytesOf(o.sink))
      case None => None
  }

  /** The file is read as the image followed by the input. */
  ghost predicate Concatenates(im: Imported, fd: nat, out: nat, st: Store)
    requires 0 < im.bs && im.len < U32 && |FdBytes(st, fd)| < U32
  {
    var input, f := FdBytes(st, fd), AppendedFile(im, fd, st);
    && f.Some?
    && var i := Import(f.value, out, false);
    && i.Ok? && i.value.bs == im.bs && i.value.len == im.len + |input|
    && Expand(i.value.blocks, im.bs, Store(map[out := f.value], map[]), im.len + |input|)
       == Expand(im.blocks, im.bs, st, im.len) + input
  }

  /** The cases of AppendedFile in which nothing is written. */
  lemma ResultUnless(im: Imported, fd: nat, st: Store)
    requires 0 < im.bs && im.len + |FdBytes(st, fd)| + im.bs <= U32
    ensures im.len < U32 && |FdBytes(st, fd)| < U32
    ensures |FdBytes(st, fd)| % im.bs != 0 || |FdBytes(st, fd)| == 0 ==> AppendedFile(im, fd, st) == None
  {
  }

  /** The others: the assertion of merge_bb fails, or the lengthened image is written. */
  lemma AppendsOrStops(im: Imported, fd: nat, st: Store)
    requires WellFormed(im.blocks, im.bs, im.len) && Suits(im.bs, im.len, |FdBytes(st, fd)|)
    ensures 0 <= im.len / im.bs < 0x1_0000_0000 && |FdBytes(st, fd)| < 0x1_0000_0000
    ensures im.len < U32 && |FdBytes(st, fd)| < U32 && 0 < im.bs <= INT_MAX && im.bs % 4 == 0
    ensures Ascending(im.blocks)
    ensures !Unused(im.blocks, im.len / im.bs) ==> AppendedFile(im, fd, st) == None
    ensures Unused(im.blocks, im.len / im.bs) ==>
      var n := |FdBytes(st, fd)|;
      var m := Appended(im.blocks, im.bs, im.len, fd, n);
      var w := Written(m, Config(true, false, im.bs, im.len + n), FileSink([], 0), st);
      && m == Queue(im.blocks, Block(im.len / im.bs, n, Fd(fd, 0)), im.bs) && AllWritable(m, im.bs)
      && AppendedFile(im, fd, st) == if w.Some? then Some(BytesOf(w.value.sink)) else None
  {
    SuitsSmall(im.bs, im.len, |FdBytes(st, fd)|);
    WellFormedSize(im.blocks, im.bs, im.len);
    WellFormedParts(im.blocks, im.bs, im.len);
    SortedAscending(im.blocks, im.bs);
    if Unused(im.blocks, im.len / im.bs) {
      AppendedIs(im.blocks, im.bs, im.len, fd, |FdBytes(st, fd)|);
    }
    hide WellFormed, Unused, Ascending, Written, AllWritable, FdBytes, Queue, Sorted;
  }

  lemma ConcatenatesIs(im: Imported, fd: nat, out: nat, st: Store)
    requires 0 < im.bs && im.len < U32 && |FdBytes(st, fd)| < U32
    ensures Concatenates(im, fd, out, st) <==>
      var input, f := FdBytes(st, fd), AppendedFile(im, fd, st);
      && f.Some?
      && var i := Import(f.value, out, false);
      && i.Ok? && i.value.bs == im.bs && i.value.len == im.len + |input|
      && Expand(i.value.blocks, im.bs, Store(map[out := f.value], map[]), im.len + |input|)
         == Expand(im.blocks, im.bs, st, im.len) + input
  {
    hide AppendedFile, Import, Expand, FdBytes;
  }

  lemma SinkBytes(f: seq<byte>, pos: nat, out: nat)
    ensures FdBytes(Store(map[out := f], map[]), out) == f
    ensures BytesOf(FileSink(f, pos)) == f
  {
  }

  lemma WholeUnused(l: seq<Block>, bs: nat, len: nat, n: nat, fd: nat)
    requires Appendable(l, bs, len, n)
    ensures 0 < bs && Unused(l, len / bs) && len < U32 && n < U32
    ensures WellFormed(Appended(l, bs, len, fd, n), bs, len + n) && (len + n) % bs == 0
  {
    SuitsSmall(bs, len, n);
    AppendSizes(bs, len, n);
    AppendedWellFormed(l, bs, len, fd, n);
    hide WellFormed, Appended, DivRoundUp, Align;
    BeforeEnd(l, bs, len, Block(len / bs, n, Fd(fd, 0)));
  }

  /** For an image of whole blocks the file is the encoding of the lengthened image. */
  lemma WholeAppend(im: Imported, fd: nat, out: nat, st: Store)
    requires Appendable(im.blocks, im.bs, im.len, |FdBytes(st, fd)|)
    ensures im.len < U32 && |FdBytes(st, fd)| < U32 && Concatenates(im, fd, out, st)
    ensures AppendedFile(im, fd, st) ==
      Some(Encoded(Appended(im.blocks, im.bs, im.len, fd, |FdBytes(st, fd)|),
                   im.bs, im.len + |FdBytes(st, fd)|, false, st))
  {
    hide *;
    var n := |FdBytes(st, fd)|;
    AppendableParts(im.blocks, im.bs, im.len, n);
    WholeUnused(im.blocks, im.bs, im.len, n, fd);
    var m := Appended(im.blocks, im.bs, im.len, fd, n);
    var f := Encoded(m, im.bs, im.len + n, false, st);
    AppendsOrStops(im, fd, st);
    WellFormedSize(m, im.bs, im.len + n);
    SparseWrites(m, im.bs, im.len + n, false, FileSink([], 0), st);
    PutFresh(f);
    SinkBytes(f, |f|, out);
    AppendRoundTrip(im.blocks, im.bs, im.len, fd, out, st, Store(map[out := f], map[]));
    ConcatenatesIs(im, fd, out, st);
  }

  /** It has no CRC chunk. */
  lemma WholeAppendLength(im: Imported, fd: nat, out: nat, st: Store)
    requires Appendable(im.blocks, im.bs, im.len, |FdBytes(st, fd)|)
    ensures im.len < U32 && |FdBytes(st, fd)| < U32 && AppendedFile(im, fd, st).Some?
    ensures var n := |FdBytes(st, fd)|; var m := Appended(im.blocks, im.bs, im.len, fd, n);
      |AppendedFile(im, fd, st).value| == 28 + Size(m, 0, im.bs) + |TailBytes(m, im.bs, im.len + n)|
  {
    WholeAppend(im, fd, out, st);
    hide Appendable, AppendedFile, Encoded, Appended, Size, TailBytes, FdBytes, Concatenates;
    var n := |FdBytes(st, fd)|;
    EncodedSize(Appended(im.blocks, im.bs, im.len, fd, n), im.bs, im.len + n, false, st);
  }

  lemma AppendableParts(l: seq<Block>, bs: nat, len: nat, n: nat)
    ensures Appendable(l, bs, len, n) <==> Suits(bs, len, n) && WellFormed(l, bs, len) && len % bs == 0
  {
    hide WellFormed;
  }

  /**
   * append2simg concatenates exactly when the image it appends to is a number of whole blocks. Otherwise it stops,
   * when the partial block is an extent of its own, or else writes a file that the library refuses to read.
   */
  lemma AppendExactly(im: Imported, fd: nat, out: nat, st: Store)
    requires WellFormed(im.blocks, im.bs, im.len) && Suits(im.bs, im.len, |FdBytes(st, fd)|)
    ensures im.len < U32 && |FdBytes(st, fd)| < U32
    ensures Concatenates(im, fd, out, st) <==> im.len % im.bs == 0
    ensures im.len % im.bs != 0 ==> (AppendedFile(im, fd, st).None? <==> !Unused(im.blocks, im.len / im.bs))
    ensures im.len % im.bs != 0 && AppendedFile(im, fd, st).Some? ==>
      Import(AppendedFile(im, fd, st).value, out, false) == Invalid
  {
    hide *;
    AppendsOrStops(im, fd, st);
    ConcatenatesIs(im, fd, out, st);
    if im.len % im.bs == 0 {
      AppendableParts(im.blocks, im.bs, im.len, |FdBytes(st, fd)|);
      WholeAppend(im, fd, out, st);
    } else if Unused(im.blocks, im.len / im.bs) {
      var n := |FdBytes(st, fd)|;
      PartialAppend(im.blocks, im.bs, im.len, fd, n, out, st);
      var f := Encoded(Appended(im.blocks, im.bs, im.len, fd, n), im.bs, im.len + n, false, st);
      SinkBytes(f, |f|, out);
    }
  }

  // ---- the program ----

  const AUTO_BLOCK_SIZE: u32 := 4096

  /** sparse_file_import_auto without CRC: a file that is not sparse is taken as raw; None when the program stops. */
  function ImportAuto(f: seq<byte>, fd: nat): Option<Imported>
    requires |f| < U32
  {
    match Import(f, fd, false)
    case Ok(s) => Some(s)
    case Invalid =>
      Some(Imported(AUTO_BLOCK_SIZE, |f|, Sparsified(f, fd, AUTO_BLOCK_SIZE, DivRoundUp(|f|, AUTO_BLOCK_SIZE))))
    case _ => None
  }

  /** A sparse image is always whole blocks; a raw one is when its length is a multiple of 4096. */
  lemma AutoWhole(f: seq<byte>, fd: nat)
    requires |f| < U32 && ImportAuto(f, fd).Some? && 0 < ImportAuto(f, fd).value.bs
    ensures var im := ImportAuto(f, fd).value;
      im.len % im.bs == 0 <==> Import(f, fd, false).Ok? || |f| % AUTO_BLOCK_SIZE == 0
  {
    hide Import, Sparsified, DivRoundUp;
    if Import(f, fd, false).Ok? {
      ImportIsSound(f, fd, false);
      WholeLen(TotalBlks(f), Import(f, fd, false).value.bs);
    }
  }

  method ImportAutoFile(file: File, fd: nat) returns (s: Option<SparseFile>)
    requires file.pos == 0 && |file.bytes| < U32 && Align(|file.bytes|, AUTO_BLOCK_SIZE) + AUTO_BLOCK_SIZE <= U32
    modifies file`pos
    ensures file.bytes == old(file.bytes)
    ensures match ImportAuto(file.bytes, fd)
      case Some(im) => s.Some? && fresh(s.value) && fresh(s.value.list) && s.value.Valid()
        && (forall k :: 0 <= k < |s.value.list.nodes| ==> fresh(s.value.list.nodes[k]))
        && Imported(s.value.blockSize, s.value.len, s.value.list.blocks) == im
      case None => s == None
  {
    hide Import, List.Valid, Align, DivRoundUp, Sparsified;
    var res := ImportFile(file, fd, false);
    if res.Ok? {
      return Some(res.value);
    }
    if !res.Invalid? {
      return None;
    }
    var raw := new SparseFile(AUTO_BLOCK_SIZE, |file.bytes|);
    file.pos := 0;
    assert file.bytes[..|file.bytes|] == file.bytes;
    var ok := ReadNormal(raw, file, fd);
    s := Some(raw);
  }

  /**
   * append2simg: import the image, add the input behind it, write the result to a new file. With a block size of zero
   * it stops when it divides the length of the input.
   */
  method Append2Simg(output: nat, input: nat, st: Store) returns (bytes: Option<seq<byte>>)
    requires |FdBytes(st, output)| < U32 && Align(|FdBytes(st, output)|, AUTO_BLOCK_SIZE) + AUTO_BLOCK_SIZE <= U32
    requires match ImportAuto(FdBytes(st, output), output)
      case Some(im) =>
        im.bs == 0 || (WellFormed(im.blocks, im.bs, im.len) && im.len + |FdBytes(st, input)| + im.bs <= U32)
      case None => true
    ensures match ImportAuto(FdBytes(st, output), output)
      case Some(im) =>
        if im.bs == 0 then bytes == None
        else im.len < U32 && |FdBytes(st, input)| < U32 && bytes == AppendedFile(im, input, st)
      case None => bytes == None
  {
    hide ImportAuto, WellFormed, List.Valid, Align, AppendedFile, FdBytes;
    var file := new File(FdBytes(st, output));
    var auto := ImportAutoFile(file, output);
    if auto == None || auto.value.blockSize == 0 {
      return None;
    }
    bytes := AppendTo(auto.value, input, st);
  }

  /** append2simg after the import: exits for an input that is not whole blocks, or is empty and cannot be mapped. */
  method AppendTo(s: SparseFile, input: nat, st: Store) returns (bytes: Option<seq<byte>>)
    requires s.Valid() && WellFormed(s.list.blocks, s.blockSize, s.len)
    requires s.len + |FdBytes(st, input)| + s.blockSize <= U32
    modifies s, s.list, s.list.nodes
    ensures 0 < s.blockSize && old(s.len) < U32 && |FdBytes(st, input)| < U32
    ensures bytes == AppendedFile(Imported(s.blockSize, old(s.len), old(s.list.blocks)), input, st)
  {
    hide *;
    WellFormedSize(s.list.blocks, s.blockSize, s.len);
    var inputLen := |FdBytes(st, input)|;
    ghost var im := Imported(s.blockSize, s.len, s.list.blocks);
    ResultUnless(im, input, st);
    if inputLen % s.blockSize != 0 {
      return None;
    }
    if inputLen == 0 {
      return None;
    }
    SuitsIs(s.blockSize, s.len, inputLen);
    AppendsOrStops(im, input, st);
    AddableUnused(s.list.blocks, Block(s.len / s.blockSize, inputLen, Fd(input, 0)), s.blockSize);
    var ok := AddInput(s, input, inputLen, s.len / s.blockSize);
    if !ok {
      return None;
    }
    var out := new File([]);
    var r := s.Write(out, true, false, st);
    SinkBytes(out.bytes, out.pos, 0);
    bytes := if r == Done then Some(out.bytes) else None;
  }

  /** The extent for the input, and the new length; false when the program stops in queue_bb. */
  method AddInput(s: SparseFile, input: nat, inputLen: u32, outputBlock: u32) returns (ok: bool)
    requires s.Valid() && Ascending(s.list.blocks)
    modifies s, s.list, s.list.nodes
    ensures ok == Addable(old(s.list.blocks), Block(outputBlock, inputLen, Fd(input, 0)), s.blockSize)
    ensures ok ==> s.Valid() && s.len == old(s.len) + inputLen
    ensures ok ==> s.list.blocks == Queue(old(s.list.blocks), Block(outputBlock, inputLen, Fd(input, 0)), s.blockSize)
  {
    hide List.Valid, Queue, Ascending, Addable;
    ok := s.list.Add(Fd(input, 0), inputLen, outputBlock);
    s.len := s.len + inputLen;
  }

  lemma SuitsIs(bs: nat, len: nat, n: nat)
    ensures Suits(bs, len, n) <==> 0 < bs && 0 < n && n % bs == 0 && len + n + bs <= U32
  {
  }

  // ---- both failures occur ----

  lemma OneRawBlock(f: seq<byte>, fd: nat)
    requires f == [7]
    ensures Sparsified(f, fd, AUTO_BLOCK_SIZE, DivRoundUp(|f|, AUTO_BLOCK_SIZE)) == [Block(0, 1, Fd(fd, 0))]
  {
    DivModUnique(4096, 4096, 1, 0);
    SparsifiedUnfold(f, fd, AUTO_BLOCK_SIZE, 0);
    SparsifiedUnfold(f, fd, AUTO_BLOCK_SIZE, 1);
  }

  /** A raw file of one byte: its only block has the number of the new extent, and the assertion of merge_bb fails. */
  lemma StopsAfterOneByte(fd: nat, input: nat, st: Store)
    requires FdBytes(st, fd) == [7] && |FdBytes(st, input)| == AUTO_BLOCK_SIZE
    ensures ImportAuto([7], fd) == Some(Imported(AUTO_BLOCK_SIZE, 1, [Block(0, 1, Fd(fd, 0))]))
    ensures AppendedFile(Imported(AUTO_BLOCK_SIZE, 1, [Block(0, 1, Fd(fd, 0))]), input, st) == None
  {
    OneRawBlock([7], fd);
    hide Sparsified;
  }

  lemma TwoRawBlocks(f: seq<byte>, fd: nat)
    requires f == [1] + Zeros(AUTO_BLOCK_SIZE)
    ensures Sparsified(f, fd, AUTO_BLOCK_SIZE, DivRoundUp(|f|, AUTO_BLOCK_SIZE)) == [Block(0, 4097, Fd(fd, 0))]
  {
    DivModUnique(4097 + 4095, 4096, 2, 0);
    SparsifiedUnfold(f, fd, 4096, 0);
    SparsifiedUnfold(f, fd, 4096, 1);
    SparsifiedUnfold(f, fd, 4096, 2);
    assert RawBlock(f, fd, 4096, 0) == Block(0, 4096, Fd(fd, 0)) by {
      assert Get32(f[0..4096], 4 * 1) == 0 && Get32(f[0..4096], 0) == 1;
    }
    assert RawBlock(f, fd, 4096, 1) == Block(1, 1, Fd(fd, 4096));
    var a, b := Block(0, 4096, Fd(fd, 0)), Block(1, 1, Fd(fd, 4096));
    QueueInOrder([], a, 4096);
    QueueInOrder([a], b, 4096);
    hide Sparsified, Uniform, RawBlock, Get32, Queue;
    assert [a] + [b] == [a, b] && Mergeable(a, b, 4096);
    MergeAtConcat([a, b], 0, 4096);
  }

  lemma RunWellFormed(fd: nat)
    ensures WellFormed([Block(0, 4097, Fd(fd, 0))], AUTO_BLOCK_SIZE, 4097) && Unused([Block(0, 4097, Fd(fd, 0))], 1)
  {
    DivModUnique(4097 + 4095, 4096, 2, 0);
  }

  /** Two blocks merged into one extent: the new one overlaps it, and the file written is refused. */
  lemma OverlapsRun(fd: nat, input: nat, out: nat, st: Store)
    requires FdBytes(st, fd) == [1] + Zeros(AUTO_BLOCK_SIZE) && |FdBytes(st, input)| == AUTO_BLOCK_SIZE
    ensures var im := Imported(AUTO_BLOCK_SIZE, 4097, [Block(0, 4097, Fd(fd, 0))]);
      && ImportAuto(FdBytes(st, fd), fd) == Some(im)
      && AppendedFile(im, input, st).Some? && Import(AppendedFile(im, input, st).value, out, false) == Invalid
  {
    var f := FdBytes(st, fd);
    TwoRawBlocks(f, fd);
    assert Import(f, fd, false) == Invalid by {
      assert Get32(f, 0) == 1;
      hide Steps;
    }
    RunWellFormed(fd);
    SuitsIs(4096, 4097, 4096);
    hide Sparsified, Import, AppendedFile, WellFormed, DivRoundUp, Unused, Suits;
    AppendExactly(Imported(AUTO_BLOCK_SIZE, 4097, [Block(0, 4097, Fd(fd, 0))]), input, out, st);
  }
}
