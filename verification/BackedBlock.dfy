/** What the backed-block list operations compute, as functions on the list of blocks. */
module BackedBlock {
  import opened Defs
  import opened Image

  // ---- merging ----

  /** b continues a: same backing, and for descriptors and files the next byte of it. */
  predicate Continues(a: Block, b: Block) {
    match (a.src, b.src)
    case (Fill(v), Fill(w)) => v == w
    case (File(n, o), File(m, q)) => n == m && o + a.len == q
    case (Fd(n, o), Fd(m, q)) => n == m && o + a.len == q
    case _ => false
  }

  predicate SameKind(a: Block, b: Block) {
    match (a.src, b.src)
    case (Data(_), Data(_)) => true
    case (File(_, _), File(_, _)) => true
    case (Fd(_, _), Fd(_, _)) => true
    case (Fill(_), Fill(_)) => true
    case _ => false
  }

  /** merge_bb gets past its assertion, and past its division when the blocks are of the same kind. */
  predicate Passes(a: Block, b: Block, bs: nat) {
    a.block < b.block && (bs == 0 ==> !SameKind(a, b))
  }

  predicate Mergeable(a: Block, b: Block, bs: nat) {
    0 < bs && ToU32(a.block + a.len / bs) == b.block && Continues(a, b)
  }

  /** The 32-bit length field of the merged block may wrap. */
  function Merged(a: Block, b: Block): Block {
    a.(len := ToU32(a.len + b.len))
  }

  /** merge_bb on elements i and i + 1. */
  function MergeAt(l: seq<Block>, i: nat, bs: nat): seq<Block> {
    if i + 1 < |l| && Mergeable(l[i], l[i + 1], bs)
    then Removed(l[i := Merged(l[i], l[i + 1])], i + 1)
    else l
  }

  lemma MergeAtElements(l: seq<Block>, i: nat, bs: nat)
    requires 0 < bs && i + 1 < |l| && Mergeable(l[i], l[i + 1], bs)
    ensures |MergeAt(l, i, bs)| == |l| - 1
    ensures forall k :: 0 <= k < |l| - 1 ==>
      MergeAt(l, i, bs)[k] == if k < i then l[k] else if k == i then Merged(l[i], l[i + 1]) else l[k + 1]
  {
  }

  lemma MergeAtSame(l: seq<Block>, i: nat, bs: nat)
    requires i + 1 < |l| ==> !Mergeable(l[i], l[i + 1], bs)
    ensures MergeAt(l, i, bs) == l
  {
  }

  lemma MergeAtConcat(l: seq<Block>, i: nat, bs: nat)
    requires 0 < bs && i + 1 < |l| && Mergeable(l[i], l[i + 1], bs)
    ensures MergeAt(l, i, bs) == l[..i] + [Merged(l[i], l[i + 1])] + l[i + 2..]
  {
  }

  lemma RoundUpSum(q: nat, x: nat, bs: nat)
    requires 0 < bs
    ensures DivRoundUp(q * bs + x, bs) == q + DivRoundUp(x, bs)
  {
    var d := DivRoundUp(x, bs);
    var r := (x + bs - 1) % bs;
    assert x + bs - 1 == d * bs + r;
    Distribute(q, d, bs);
    DivModUnique(q * bs + x + bs - 1, bs, q + d, r);
  }

  lemma RoundUpMono(x: nat, y: nat, bs: nat)
    requires 0 < bs && x <= y
    ensures DivRoundUp(x, bs) <= DivRoundUp(y, bs)
  {
    AlignBounds(x, bs);
    AlignBounds(y, bs);
    MulMono(DivRoundUp(x, bs), DivRoundUp(y, bs), bs);
  }

  /** Adjacent, disjoint extents meet exactly at a block boundary. */
  lemma MergeableMeet(a: Block, b: Block, bs: nat)
    requires 0 < bs && End(a, bs) <= b.block && Mergeable(a, b, bs)
    ensures a.len % bs == 0 && End(a, bs) == b.block == a.block + a.len / bs
    ensures Start(b, bs) == Start(a, bs) + a.len
  {
    var q, r := a.len / bs, a.len % bs;
    assert a.len == q * bs + r;
    RoundUpSum(q, r, bs);
    AlignBounds(r, bs);
    SmallMod(a.block + q);
    TailStart(a.block, a.len, bs);
  }

  /** Of two disjoint extents exactly those merge that meet in whole blocks and whose backing goes on. */
  lemma MergeableExactly(a: Block, b: Block, bs: nat)
    requires 0 < bs && End(a, bs) <= b.block
    ensures Mergeable(a, b, bs) <==>
      && a.len % bs == 0 && End(a, bs) == b.block
      && (|| (a.src.Fill? && b.src == a.src)
          || (a.src.Fd? && b.src == Fd(a.src.fd, a.src.off + a.len))
          || (a.src.File? && b.src == File(a.src.name, a.src.off + a.len)))
  {
    if Mergeable(a, b, bs) {
      MergeableMeet(a, b, bs);
    }
    if a.len % bs == 0 {
      AlignBounds(a.len, bs);
      if End(a, bs) == b.block {
        SmallMod(b.block);
      }
    }
    hide DivRoundUp, ToU32;
  }

  lemma MergedEnd(a: Block, b: Block, bs: nat)
    requires 0 < bs && End(a, bs) <= b.block && Mergeable(a, b, bs)
    ensures End(Merged(a, b), bs) <= End(b, bs)
  {
    MergeableMeet(a, b, bs);
    var q := a.len / bs;
    assert a.len == q * bs;
    RoundUpSum(q, b.len, bs);
    RoundUpMono(ToU32(a.len + b.len), a.len + b.len, bs);
  }

  /** Merging two neighbours keeps their bytes if and only if the length field does not wrap. */
  lemma MergeLossless(a: Block, b: Block, bs: nat, st: Store)
    requires 0 < bs && bs % 4 == 0 && Sorted([a, b], bs) && Mergeable(a, b, bs)
    ensures (forall p: nat :: Lookup([Merged(a, b)], bs, st, p) == Lookup([a, b], bs, st, p)) <==> a.len + b.len < U32
  {
    var m := Merged(a, b);
    assert [a, b][0] == a && [a, b][1] == b;
    if a.len + b.len < U32 {
      forall p: nat
        ensures Lookup([m], bs, st, p) == Lookup([a, b], bs, st, p)
      {
        MergeKeepsBytes(a, b, bs, st, p);
      }
    } else {
      var p := Start(a, bs) + m.len;
      LookupOne(m, bs, st, p);
      assert Lookup([a, b], bs, st, p).Some?;
    }
  }

  /** Two equal fills of 2^31 bytes, in blocks of 4096, are merged into an empty one. */
  lemma MergeLoses(val: u32, st: Store)
    ensures var a, b := Block(0, 0x8000_0000, Fill(val)), Block(0x8_0000, 0x8000_0000, Fill(val));
      && Sorted([a, b], 4096) && Queue(Queue([], a, 4096), b, 4096) == [Block(0, 0, Fill(val))]
      && !(forall p: nat :: Lookup([Block(0, 0, Fill(val))], 4096, st, p) == Lookup([a, b], 4096, st, p))
  {
    var a, b := Block(0, 0x8000_0000, Fill(val)), Block(0x8_0000, 0x8000_0000, Fill(val));
    DivModUnique(0x8000_0000 + 4095, 4096, 0x8_0000, 4095);
    assert Merged(a, b) == Block(0, 0, Fill(val)) && Sorted([a, b], 4096);
    QueueInOrder([], a, 4096);
    QueueInOrder([a], b, 4096);
    assert [a] + [b] == [a, b];
    MergeAtConcat([a, b], 0, 4096);
    hide Queue, Lookup, Sorted;
    MergeLossless(a, b, 4096, st);
  }

  lemma MergeKeepsBytes(a: Block, b: Block, bs: nat, st: Store, p: nat)
    requires 0 < bs && bs % 4 == 0 && End(a, bs) <= b.block && Mergeable(a, b, bs) && a.len + b.len < U32
    ensures Lookup([Merged(a, b)], bs, st, p) == Lookup([a, b], bs, st, p)
  {
    var m := Merged(a, b);
    MergeableMeet(a, b, bs);
    SmallMod(a.len + b.len);
    MultipleOfFour(a.len, bs);
    assert [a, b] == [a] + [b];
    LookupConcat([a], [b], bs, st, p);
    LookupOne(a, bs, st, p);
    LookupOne(b, bs, st, p);
    LookupOne(m, bs, st, p);
    if Covers(b, bs, p) {
      assert b.src == Shifted(a.src, a.len) || a.src.Fill?;
      ShiftedByte(a.src, st, a.len, p - Start(b, bs));
    }
  }

  lemma NoWrapBelow(a: Block, b: Block, bs: nat)
    requires 0 < bs && End(a, bs) <= b.block && Mergeable(a, b, bs) && Start(b, bs) + b.len < U32
    ensures a.len + b.len < U32 && Merged(a, b).len == a.len + b.len
    ensures Start(a, bs) + Merged(a, b).len < U32
  {
    MergeableMeet(a, b, bs);
    SmallMod(a.len + b.len);
  }

  lemma MergeAtKeepsOrder(l: seq<Block>, i: nat, bs: nat)
    requires 0 < bs && Sorted(l, bs)
    ensures Sorted(MergeAt(l, i, bs), bs)
    ensures InSpace(l, bs) ==> InSpace(MergeAt(l, i, bs), bs)
  {
    hide DivRoundUp;
    var m := MergeAt(l, i, bs);
    if m != l {
      MergeableMeet(l[i], l[i + 1], bs);
      MergedEnd(l[i], l[i + 1], bs);
      MergeAtElements(l, i, bs);
    }
  }

  lemma MergeAtKeepsFree(l: seq<Block>, i: nat, c: Block, bs: nat)
    requires 0 < bs && Sorted(l, bs) && Free(l, c, bs)
    ensures Free(MergeAt(l, i, bs), c, bs)
  {
    hide DivRoundUp;
    var m := MergeAt(l, i, bs);
    if m != l {
      MergeableMeet(l[i], l[i + 1], bs);
      MergedEnd(l[i], l[i + 1], bs);
      MergeAtElements(l, i, bs);
    }
  }

  /** Merging keeps the image of a list whose extents end below 2^32 bytes. */
  lemma MergeAtKeepsImage(l: seq<Block>, i: nat, bs: nat, st: Store, p: nat)
    requires 0 < bs && bs % 4 == 0 && Sorted(l, bs) && Bounded(l, bs)
    ensures Lookup(MergeAt(l, i, bs), bs, st, p) == Lookup(l, bs, st, p)
    ensures Bounded(MergeAt(l, i, bs), bs)
  {
    hide DivRoundUp;
    if i + 1 < |l| && Mergeable(l[i], l[i + 1], bs) {
      var a, b := l[i], l[i + 1];
      NoWrapBelow(a, b, bs);
      MergeAtElements(l, i, bs);
      MergeKeepsBytes(a, b, bs, st, p);
      MergeAtConcat(l, i, bs);
      LookupReplace(l[..i], [a, b], [Merged(a, b)], l[i + 2..], bs, st, p);
      assert l == l[..i] + [a, b] + l[i + 2..];
    }
  }

  // ---- queueing ----

  /** The number of blocks before block number k. */
  function InsertPos(l: seq<Block>, k: nat): (i: nat)
    ensures i <= |l|
    ensures forall j :: 0 <= j < i ==> l[j].block < k
    ensures i < |l| ==> k <= l[i].block
  {
    if l == [] || k <= l[0].block then 0 else 1 + InsertPos(l[1..], k)
  }

  function Insert(l: seq<Block>, b: Block): seq<Block> {
    Inserted(l, InsertPos(l, b.block), b)
  }

  /** queue_bb: prepended blocks are not merged, all others with both neighbours. */
  function Queue(l: seq<Block>, b: Block, bs: nat): seq<Block> {
    var i := InsertPos(l, b.block);
    if i == 0 then Insert(l, b) else MergeAt(MergeAt(Insert(l, b), i, bs), i - 1, bs)
  }

  /** Block numbers strictly increase; extents may still overlap. */
  predicate Ascending(l: seq<Block>) {
    forall i, j :: 0 <= i < j < |l| ==> l[i].block < l[j].block
  }

  predicate Unused(l: seq<Block>, k: int) {
    forall i :: 0 <= i < |l| ==> l[i].block != k
  }

  /** queue_bb compares the new block with a neighbour of its kind. */
  predicate Compared(l: seq<Block>, b: Block) {
    var i := InsertPos(l, b.block);
    0 < i && (SameKind(l[i - 1], b) || (i < |l| && SameKind(b, l[i])))
  }

  /** No assertion of queue_bb fails, and it does not divide by a block size of zero. */
  predicate Addable(l: seq<Block>, b: Block, bs: nat) {
    Unused(l, b.block) && (bs == 0 ==> !Compared(l, b))
  }

  lemma AddableUnused(l: seq<Block>, b: Block, bs: nat)
    requires 0 < bs
    ensures Addable(l, b, bs) <==> Unused(l, b.block)
  {
  }

  /** Block numbers stay in order whatever is added, overlapping or not. */
  lemma QueueAscending(l: seq<Block>, b: Block, bs: nat)
    requires Ascending(l) && Unused(l, b.block)
    ensures Ascending(Queue(l, b, bs))
  {
    hide Queue;
    InsertAt(l, b);
    var i := InsertPos(l, b.block);
    assert Ascending(Insert(l, b));
    hide Insert;
    QueueIs(l, b, bs);
    if i != 0 {
      MergeAtAscending(Insert(l, b), i, bs);
      MergeAtAscending(MergeAt(Insert(l, b), i, bs), i - 1, bs);
    }
  }

  lemma QueueIs(l: seq<Block>, b: Block, bs: nat)
    ensures var i := InsertPos(l, b.block);
      Queue(l, b, bs) == if i == 0 then Insert(l, b) else MergeAt(MergeAt(Insert(l, b), i, bs), i - 1, bs)
  {
  }

  lemma MergeAtAscending(l: seq<Block>, i: nat, bs: nat)
    requires Ascending(l)
    ensures Ascending(MergeAt(l, i, bs))
  {
  }

  lemma InsertAt(l: seq<Block>, b: Block)
    ensures |Insert(l, b)| == |l| + 1
    ensures forall k :: 0 <= k <= |l| ==>
      Insert(l, b)[k] ==
        if k < InsertPos(l, b.block) then l[k] else if k == InsertPos(l, b.block) then b else l[k - 1]
  {
  }

  lemma InsertKeepsOrder(l: seq<Block>, b: Block, bs: nat)
    requires 0 < bs && Sorted(l, bs) && Free(l, b, bs)
    ensures Sorted(Insert(l, b), bs)
    ensures InSpace(l, bs) && End(b, bs) < U32 ==> InSpace(Insert(l, b), bs)
    ensures Bounded(l, bs) && Start(b, bs) + b.len < U32 ==> Bounded(Insert(l, b), bs)
  {
    hide DivRoundUp;
    InsertAt(l, b);
  }

  lemma QueueKeepsOrder(l: seq<Block>, b: Block, bs: nat)
    requires 0 < bs && Sorted(l, bs) && Free(l, b, bs)
    ensures Sorted(Queue(l, b, bs), bs)
    ensures InSpace(l, bs) && End(b, bs) < U32 ==> InSpace(Queue(l, b, bs), bs)
  {
    hide DivRoundUp, Insert, Sorted, InSpace, Free, MergeAt;
    InsertKeepsOrder(l, b, bs);
    var i := InsertPos(l, b.block);
    if i != 0 {
      MergeAtKeepsOrder(Insert(l, b), i, bs);
      MergeAtKeepsOrder(MergeAt(Insert(l, b), i, bs), i - 1, bs);
    }
  }

  lemma QueueKeepsFree(l: seq<Block>, b: Block, c: Block, bs: nat)
    requires 0 < bs && Sorted(l, bs) && Free(l, b, bs) && Free(l, c, bs) && Free([b], c, bs)
    ensures Free(Queue(l, b, bs), c, bs)
  {
    hide DivRoundUp, Sorted, MergeAt;
    var i := InsertPos(l, b.block);
    InsertKeepsOrder(l, b, bs);
    InsertAt(l, b);
    assert [b][0] == b;
    assert Free(Insert(l, b), c, bs);
    if i != 0 {
      MergeAtKeepsFree(Insert(l, b), i, c, bs);
      MergeAtKeepsOrder(Insert(l, b), i, bs);
      MergeAtKeepsFree(MergeAt(Insert(l, b), i, bs), i - 1, c, bs);
    }
  }

  /** Adding an unused extent overlays exactly its bytes, through both merges. */
  lemma QueueOverlays(l: seq<Block>, b: Block, bs: nat, st: Store, p: nat)
    requires 0 < bs && bs % 4 == 0 && Sorted(l, bs) && Free(l, b, bs) && Bounded(l, bs) && Start(b, bs) + b.len < U32
    ensures Lookup(Queue(l, b, bs), bs, st, p) == OrElse(Lookup([b], bs, st, p), Lookup(l, bs, st, p))
    ensures Bounded(Queue(l, b, bs), bs)
  {
    hide Sorted, Bounded, Lookup, MergeAt, Start, Inserted;
    InsertKeepsOrder(l, b, bs);
    InsertedConcat(l, InsertPos(l, b.block), b);
    var i := InsertPos(l, b.block);
    assert Free(l[..i], b, bs);
    LookupInsert(l[..i], b, l[i..], bs, st, p);
    assert l[..i] + l[i..] == l;
    if i != 0 {
      MergeAtKeepsOrder(Insert(l, b), i, bs);
      MergeAtKeepsImage(Insert(l, b), i, bs, st, p);
      MergeAtKeepsImage(MergeAt(Insert(l, b), i, bs), i - 1, bs, st, p);
    }
  }

  // ---- neighbours that could still be merged ----

  /** No two neighbours could still be merged. */
  predicate Coalesced(l: seq<Block>, bs: nat)
    requires 0 < bs
  {
    forall i :: 0 <= i < |l| - 1 ==> !Mergeable(l[i], l[i + 1], bs)
  }

  lemma MergeSeenFromBefore(a: Block, x: Block, y: Block, bs: nat)
    requires 0 < bs
    ensures Mergeable(a, Merged(x, y), bs) <==> Mergeable(a, x, bs)
  {
  }

  /** A merged block ends where its second half did, in as many bytes of its last block. */
  lemma MergedMeets(x: Block, y: Block, bs: nat)
    requires 0 < bs && End(x, bs) <= y.block && Mergeable(x, y, bs) && Start(y, bs) + y.len < U32
    ensures var m := Merged(x, y);
      End(m, bs) == End(y, bs) && m.len == x.len + y.len && m.len % bs == y.len % bs && m.src == x.src
  {
    hide ToU32;
    NoWrapBelow(x, y, bs);
    MergeableMeet(x, y, bs);
    hide Mergeable, DivRoundUp;
    var q := x.len / bs;
    assert x.len == q * bs;
    RoundUpSum(q, y.len, bs);
    RemainderSum(q, y.len, bs);
  }

  lemma RemainderSum(q: nat, x: nat, bs: nat)
    requires 0 < bs
    ensures 0 <= q * bs && (q * bs + x) % bs == x % bs
  {
    MulMono(0, q, bs);
    Distribute(q, x / bs, bs);
    DivModUnique(q * bs + x, bs, q + x / bs, x % bs);
  }

  lemma MergeSeenFromBehind(x: Block, y: Block, d: Block, bs: nat)
    requires 0 < bs && End(x, bs) <= y.block && End(y, bs) <= d.block
    requires Mergeable(x, y, bs) && Start(y, bs) + y.len < U32
    ensures Mergeable(Merged(x, y), d, bs) <==> Mergeable(y, d, bs)
  {
    MergedMeets(x, y, bs);
    assert Continues(x, y);
    MergeableExactly(y, d, bs);
    MergeableExactly(Merged(x, y), d, bs);
    hide Mergeable, Merged, End;
  }

  /** Only the pairs from lo to hi may still be mergeable. */
  predicate CoalescedBut(l: seq<Block>, lo: int, hi: int, bs: nat) {
    forall i :: 0 <= i < |l| - 1 && !(lo <= i <= hi) ==> !Mergeable(l[i], l[i + 1], bs)
  }

  lemma MergeAtCoalesces(l: seq<Block>, i: nat, lo: int, bs: nat)
    requires 0 < bs && Sorted(l, bs) && Bounded(l, bs) && CoalescedBut(l, lo, i, bs)
    ensures CoalescedBut(MergeAt(l, i, bs), lo, i - 1, bs)
  {
    hide DivRoundUp, ToU32;
    var m := MergeAt(l, i, bs);
    if i + 1 < |l| && Mergeable(l[i], l[i + 1], bs) {
      MergeAtElements(l, i, bs);
      if 0 < i {
        MergeSeenFromBefore(l[i - 1], l[i], l[i + 1], bs);
      }
      if i + 2 < |l| {
        MergeSeenFromBehind(l[i], l[i + 1], l[i + 2], bs);
      }
      hide MergeAt, Mergeable, Merged, Sorted, Bounded;
      forall j | 0 <= j < |m| - 1 && !(lo <= j <= i - 1)
        ensures !Mergeable(m[j], m[j + 1], bs)
      {
        assert i < j ==> !Mergeable(l[j + 1], l[j + 2], bs);
        assert j < i ==> !Mergeable(l[j], l[j + 1], bs);
      }
    }
  }

  lemma InsertCoalesces(l: seq<Block>, b: Block, bs: nat)
    requires 0 < bs && Coalesced(l, bs)
    ensures var i := InsertPos(l, b.block); CoalescedBut(Insert(l, b), i - 1, i, bs)
  {
    var i := InsertPos(l, b.block);
    var m := Insert(l, b);
    InsertAt(l, b);
    hide Insert, Mergeable, InsertPos;
    forall j | 0 <= j < |m| - 1 && !(i - 1 <= j <= i)
      ensures !Mergeable(m[j], m[j + 1], bs)
    {
      assert i < j ==> !Mergeable(l[j - 1], l[j], bs);
      assert j < i ==> !Mergeable(l[j], l[j + 1], bs);
    }
  }

  /** In front of the head nothing is merged. */
  lemma PrependCoalesces(l: seq<Block>, b: Block, bs: nat)
    requires 0 < bs && Coalesced(l, bs) && InsertPos(l, b.block) == 0
    ensures Coalesced(Queue(l, b, bs), bs) <==> (l != [] ==> !Mergeable(b, l[0], bs))
  {
    InsertAt(l, b);
    QueueIs(l, b, bs);
    InsertCoalesces(l, b, bs);
    var q := Queue(l, b, bs);
    hide Queue, Insert, Mergeable, InsertPos;
    if l != [] {
      assert q[0] == b && q[1] == l[0];
      assert Coalesced(q, bs) ==> !Mergeable(q[0], q[1], bs);
    }
  }

  /** Queueing leaves no two mergeable neighbours, unless the new block is prepended in front of one that goes on. */
  lemma QueueCoalesces(l: seq<Block>, b: Block, bs: nat)
    requires 0 < bs && bs % 4 == 0 && Sorted(l, bs) && Free(l, b, bs) && Bounded(l, bs) && Coalesced(l, bs)
    requires Start(b, bs) + b.len < U32
    ensures Coalesced(Queue(l, b, bs), bs) <==>
      !(l != [] && b.block < l[0].block && Mergeable(b, l[0], bs))
  {
    hide *;
    FirstPosition(l, b, bs);
    var i := InsertPos(l, b.block);
    if i == 0 {
      PrependCoalesces(l, b, bs);
    } else {
      var m := Insert(l, b);
      InsertKeepsOrder(l, b, bs);
      QueueIs(l, b, bs);
      InsertCoalesces(l, b, bs);
      MergeAtKeepsOrder(m, i, bs);
      MergeAtKeepsImage(m, i, bs, Store(map[], map[]), 0);
      MergeAtCoalesces(m, i, i - 1, bs);
      MergeAtCoalesces(MergeAt(m, i, bs), i - 1, i - 1, bs);
      CoalescedAll(Queue(l, b, bs), i - 1, bs);
    }
  }

  lemma FirstPosition(l: seq<Block>, b: Block, bs: nat)
    requires 0 < bs && Free(l, b, bs)
    ensures InsertPos(l, b.block) == 0 <==> l == [] || b.block < l[0].block
  {
  }

  lemma CoalescedAll(l: seq<Block>, i: int, bs: nat)
    requires 0 < bs && CoalescedBut(l, i, i - 1, bs)
    ensures Coalesced(l, bs)
  {
    hide Mergeable;
  }

  /** Every extent of adds is unused by the ones added before it. */
  predicate Disjoint(adds: seq<Block>, bs: nat)
    requires 0 < bs
  {
    forall i, j :: 0 <= i < j < |adds| ==> Free([adds[i]], adds[j], bs)
  }

  function QueueAll(adds: seq<Block>, bs: nat): seq<Block>
    requires 0 < bs
  {
    if adds == [] then [] else Queue(QueueAll(adds[..|adds| - 1], bs), adds[|adds| - 1], bs)
  }

  lemma {:induction false} QueueAllKeeps(adds: seq<Block>, bs: nat)
    requires 0 < bs && Disjoint(adds, bs)
    ensures Sorted(QueueAll(adds, bs), bs)
    ensures forall c :: (forall i :: 0 <= i < |adds| ==> Free([adds[i]], c, bs)) ==> Free(QueueAll(adds, bs), c, bs)
  {
    hide Sorted, Free, Queue;
    if adds == [] {
      assert Sorted([], bs) && forall c :: Free([], c, bs) by {
        EmptyKeeps(bs);
      }
    } else {
      var n := |adds| - 1;
      var prefix, b := adds[..n], adds[n];
      var l := QueueAll(prefix, bs);
      QueueAllKeeps(prefix, bs);
      assert forall i :: 0 <= i < n ==> prefix[i] == adds[i];
      assert Free(l, b, bs);
      QueueKeepsOrder(l, b, bs);
      forall c | forall i :: 0 <= i < |adds| ==> Free([adds[i]], c, bs)
        ensures Free(Queue(l, b, bs), c, bs)
      {
        assert forall i :: 0 <= i < n ==> Free([prefix[i]], c, bs);
        QueueKeepsFree(l, b, c, bs);
      }
    }
  }

  lemma EmptyKeeps(bs: nat)
    requires 0 < bs
    ensures Sorted([], bs) && forall c :: Free([], c, bs)
  {
  }

  /** Any sequence of disjoint adds, in any order, builds a sorted list that denotes exactly those extents. */
  lemma {:induction false} QueueAllDenotes(adds: seq<Block>, bs: nat, st: Store, p: nat)
    requires 0 < bs && bs % 4 == 0 && Disjoint(adds, bs) && Bounded(adds, bs)
    ensures Sorted(QueueAll(adds, bs), bs) && Bounded(QueueAll(adds, bs), bs)
    ensures Lookup(QueueAll(adds, bs), bs, st, p) == Lookup(adds, bs, st, p)
  {
    hide Queue, Sorted, Lookup, Free;
    QueueAllKeeps(adds, bs);
    if adds != [] {
      var n := |adds| - 1;
      var prefix, b := adds[..n], adds[n];
      QueueAllKeeps(prefix, bs);
      QueueAllDenotes(prefix, bs, st, p);
      assert forall i :: 0 <= i < n ==> prefix[i] == adds[i];
      QueueOverlays(QueueAll(prefix, bs), b, bs, st, p);
      assert prefix + [b] + [] == adds && prefix + [] == prefix;
      assert Free(prefix, b, bs) by {
        FreeEach(prefix, b, bs);
      }
      LookupInsert(prefix, b, [], bs, st, p);
    }
  }

  lemma FreeEach(l: seq<Block>, c: Block, bs: nat)
    requires 0 < bs && forall i :: 0 <= i < |l| ==> Free([l[i]], c, bs)
    ensures Free(l, c, bs)
  {
    forall i | 0 <= i < |l|
      ensures Free([l[i]], c, bs) && [l[i]][0] == l[i]
    {
    }
  }

  /** Extents queued in order are appended, merging at most with the last one. */
  lemma QueueInOrder(l: seq<Block>, b: Block, bs: nat)
    requires 0 < bs && forall i :: 0 <= i < |l| ==> l[i].block < b.block
    ensures Queue(l, b, bs) == if l == [] then [b] else MergeAt(l + [b], |l| - 1, bs)
  {
    var i := InsertPos(l, b.block);
    assert i == |l|;
    assert Insert(l, b) == l + [b];
  }

  // ---- splitting ----

  function HeadOf(b: Block, n: u32): Block {
    b.(len := n)
  }

  function TailOf(b: Block, n: u32, bs: nat): Block
    requires 0 < bs && n <= b.len
  {
    Block(ToU32(b.block + n / bs), b.len - n, Shifted(b.src, n))
  }

  /** backed_block_split on element i: cut it at maxLen rounded down to whole blocks, unless it is no longer. */
  function SplitAt(l: seq<Block>, i: nat, maxLen: u32, bs: nat): (r: seq<Block>)
    requires 0 < bs && i < |l|
    ensures |l| <= |r|
  {
    AlignDownBounds(maxLen, bs);
    var n := AlignDown(maxLen, bs);
    if l[i].len <= n then l else Inserted(l[i := HeadOf(l[i], n)], i + 1, TailOf(l[i], n, bs))
  }

  lemma SplitExtents(b: Block, n: u32, bs: nat)
    requires 0 < bs && n % bs == 0 && n < b.len && End(b, bs) < U32
    ensures TailOf(b, n, bs).block == b.block + n / bs == End(HeadOf(b, n), bs)
    ensures End(TailOf(b, n, bs), bs) == End(b, bs)
    ensures 0 < n ==> b.block < TailOf(b, n, bs).block < End(b, bs)
    ensures Start(TailOf(b, n, bs), bs) == Start(b, bs) + n
  {
    AlignBounds(n, bs);
    AlignBounds(b.len - n, bs);
    var q := n / bs;
    assert n == q * bs;
    RoundUpSum(q, b.len - n, bs);
    SmallMod(b.block + q);
    TailStart(b.block, n, bs);
  }

  /** Replacing an element by two that share its extent. */
  lemma CutKeepsOrder(l: seq<Block>, i: nat, h: Block, t: Block, bs: nat)
    requires 0 < bs && i < |l| && Sorted(l, bs)
    requires h.block == l[i].block < t.block && End(h, bs) <= t.block < End(t, bs) <= End(l[i], bs)
    ensures Sorted(Inserted(l[i := h], i + 1, t), bs)
    ensures InSpace(l, bs) ==> InSpace(Inserted(l[i := h], i + 1, t), bs)
  {
    hide DivRoundUp;
    var m := Inserted(l[i := h], i + 1, t);
    forall a, b | 0 <= a < b < |m|
      ensures m[a].block < m[b].block && End(m[a], bs) <= m[b].block
    {
      var a', b' := if a <= i then a else a - 1, if b <= i then b else b - 1;
      assert a' < b' ==> l[a'].block < l[b'].block && End(l[a'], bs) <= l[b'].block;
    }
  }

  lemma CutKeepsBounds(l: seq<Block>, i: nat, h: Block, t: Block, bs: nat)
    requires i < |l| && Bounded(l, bs) && Start(h, bs) + h.len < U32 && Start(t, bs) + t.len < U32
    ensures Bounded(Inserted(l[i := h], i + 1, t), bs)
  {
    hide Start;
  }

  /** A split with at least one block before the cut keeps the list sorted and in range. */
  lemma SplitAtKeepsOrder(l: seq<Block>, i: nat, maxLen: u32, bs: nat)
    requires 0 < bs && i < |l| && bs <= maxLen && Sorted(l, bs) && InSpace(l, bs)
    ensures Sorted(SplitAt(l, i, maxLen, bs), bs) && InSpace(SplitAt(l, i, maxLen, bs), bs)
    ensures Bounded(l, bs) ==> Bounded(SplitAt(l, i, maxLen, bs), bs)
  {
    AlignDownBounds(maxLen, bs);
    var n := AlignDown(maxLen, bs);
    if n < l[i].len {
      var h, t := HeadOf(l[i], n), TailOf(l[i], n, bs);
      SplitExtents(l[i], n, bs);
      CutKeepsOrder(l, i, h, t, bs);
      if Bounded(l, bs) {
        assert Start(h, bs) == Start(l[i], bs);
        CutKeepsBounds(l, i, h, t, bs);
      }
    }
  }

  lemma SplitAtKeepsImage(l: seq<Block>, i: nat, maxLen: u32, bs: nat, st: Store, p: nat)
    requires 0 < bs && bs % 4 == 0 && i < |l| && InSpace(l, bs)
    ensures Lookup(SplitAt(l, i, maxLen, bs), bs, st, p) == Lookup(l, bs, st, p)
  {
    AlignDownBounds(maxLen, bs);
    var n := AlignDown(maxLen, bs);
    var m := SplitAt(l, i, maxLen, bs);
    if n < l[i].len {
      var head, tail := HeadOf(l[i], n), TailOf(l[i], n, bs);
      SplitExtents(l[i], n, bs);
      LookupCut(l[i], head, tail, n, bs, st, p);
      LookupReplace(l[..i], [l[i]], [head, tail], l[i + 1..], bs, st, p);
      SplitAtConcat(l, i, maxLen, bs);
      assert l == l[..i] + [l[i]] + l[i + 1..];
    }
  }

  lemma SplitAtElements(l: seq<Block>, i: nat, maxLen: u32, bs: nat)
    requires 0 < bs && i < |l| && AlignDown(maxLen, bs) < l[i].len
    ensures |SplitAt(l, i, maxLen, bs)| == |l| + 1
    ensures forall k :: 0 <= k <= |l| ==>
      SplitAt(l, i, maxLen, bs)[k] ==
        if k < i then l[k]
        else if k == i then HeadOf(l[i], AlignDown(maxLen, bs))
        else if k == i + 1 then TailOf(l[i], AlignDown(maxLen, bs), bs)
        else l[k - 1]
  {
    hide AlignDown, HeadOf, TailOf;
  }

  lemma SplitAtConcat(l: seq<Block>, i: nat, maxLen: u32, bs: nat)
    requires 0 < bs && i < |l| && AlignDown(maxLen, bs) < l[i].len
    ensures var n := AlignDown(maxLen, bs);
      SplitAt(l, i, maxLen, bs) == l[..i] + [HeadOf(l[i], n), TailOf(l[i], n, bs)] + l[i + 1..]
  {
    hide AlignDown, HeadOf, TailOf;
  }

  // ---- moving ----

  /** The first index from 1 on whose block lies after k. */
  function SplicePos(l: seq<Block>, k: nat, from: nat): (j: nat)
    requires 0 < from <= |l|
    ensures from <= j <= |l|
    ensures forall i :: from <= i < j ==> l[i].block <= k
    ensures j < |l| ==> k < l[j].block
    decreases |l| - from
  {
    if from == |l| || l[from].block > k then from else SplicePos(l, k, from + 1)
  }

  /** Where backed_block_list_move links a run into the target: never before its head. */
  function Splice(to: seq<Block>, run: seq<Block>): seq<Block>
  {
    if run == [] then to
    else if to == [] then run
    else Spliced(to, SplicePos(to, run[0].block, 1), run)
  }

  /** A run that starts after everything in the target is appended. */
  lemma SpliceAppends(to: seq<Block>, run: seq<Block>)
    requires run != [] ==> forall i :: 0 <= i < |to| ==> to[i].block <= run[0].block
    ensures Splice(to, run) == to + run
  {
    if run != [] && to != [] {
      assert SplicePos(to, run[0].block, 1) == |to|;
    }
  }
}
