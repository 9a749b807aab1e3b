/** Writing the pieces of an image over one raw file, in any order. */
module Reassemble {
  import opened Defs
  import opened Image
  import opened OutputFile
  import opened SparseFile
  import opened Encode
  import opened SparseRead
  import opened RoundTrip
  import opened Resparse

  // ---- what import gives for a written file ----

  /** The imported list is again an image that can be written, with the padded bytes of the list written. */
  lemma ImportedIsWellFormed(l: seq<Block>, bs: nat, len: nat, c: bool, fd: nat, st: Store, st': Store)
    requires WellFormed(l, bs, len) && len % bs == 0 && FdBytes(st', fd) == Encoded(l, bs, len, c, st)
    ensures AllWritable(l, bs)
    ensures var i := Import(Encoded(l, bs, len, c, st), fd, false);
      && i.Ok? && i.value.bs == bs && i.value.len == len && WellFormed(i.value.blocks, bs, len)
      && forall p: nat :: Lookup(i.value.blocks, bs, st', p) == Lookup(PadAll(l, bs, st), bs, st, p)
  {
    hide *;
    WellFormedSize(l, bs, len);
    var f := Encoded(l, bs, len, c, st);
    NoCrcAccepted(l, bs, len, c, st);
    var r := ImportChunks(l, bs, len, c, false, fd, st, st');
    BlockCounts(l, bs, len);
    ImportFinishes(f, fd, r);
    ReaderInside(r, bs);
    ReadBackWellFormed(l, r.l, bs, len);
  }

  lemma ReaderInside(r: Reader, bs: nat)
    requires 0 < bs && ReaderOk(bs, r)
    ensures Sorted(r.l, bs) && forall i :: 0 <= i < |r.l| ==> End(r.l[i], bs) <= r.cur
  {
    hide Sorted, DivRoundUp;
  }

  lemma NoCrcAccepted(l: seq<Block>, bs: nat, len: nat, c: bool, st: Store)
    requires 0 < bs
    ensures CrcAccepted(l, bs, len, c, false, st)
  {
  }

  lemma ImportFinishes(f: seq<byte>, fd: nat, r: Reader)
    requires HeaderOk(f) && 0 < BlkSz(f) && Steps(InputOf(f, fd, false), StartOf(f), TotalChunks(f)) == Ok(r)
    requires r.cur == TotalBlks(f)
    ensures 0 <= TotalBlks(f) * BlkSz(f)
    ensures Import(f, fd, false) == Ok(Imported(BlkSz(f), TotalBlks(f) * BlkSz(f), r.l))
  {
    hide Steps, HeaderOk, BlkSz, TotalBlks, TotalChunks;
    MulMono(0, TotalBlks(f), BlkSz(f));
  }

  lemma ReadBackWellFormed(l: seq<Block>, m: seq<Block>, bs: nat, len: nat)
    requires WellFormed(l, bs, len) && len % bs == 0
    requires Sorted(m, bs) && (forall i :: 0 <= i < |m| ==> End(m[i], bs) <= len / bs)
    requires Positive(m) && FillsWhole(m, bs)
    ensures WellFormed(m, bs, len)
  {
    AlignBounds(len, bs);
    hide DivRoundUp, Align;
  }

  // ---- who owns a byte ----

  lemma PadConcat(x: seq<Block>, y: seq<Block>, bs: nat, st: Store)
    requires 0 < bs && AllWritable(x + y, bs)
    ensures AllWritable(x, bs) && AllWritable(y, bs)
    ensures PadAll(x + y, bs, st) == PadAll(x, bs, st) + PadAll(y, bs, st)
  {
    hide PadBlock, Writable;
    assert forall i :: 0 <= i < |x| ==> (x + y)[i] == x[i];
    assert forall i :: 0 <= i < |y| ==> (x + y)[|x| + i] == y[i];
  }

  /** Two parts of a sorted list have no byte in common. */
  lemma PartsApart(x: seq<Block>, y: seq<Block>, bs: nat, st: Store, p: nat)
    requires 0 < bs && Sorted(x + y, bs)
    ensures Lookup(x, bs, st, p).None? || Lookup(y, bs, st, p).None?
  {
    LookupHole(x, bs, st, p);
    LookupHole(y, bs, st, p);
    hide Lookup, DivRoundUp;
    forall i, j | 0 <= i < |x| && 0 <= j < |y| && Covers(x[i], bs, p)
      ensures !Covers(y[j], bs, p)
    {
      assert (x + y)[i] == x[i] && (x + y)[|x| + j] == y[j];
      ExtentsApart(x[i], y[j], bs, p);
    }
  }

  lemma SortedParts(x: seq<Block>, y: seq<Block>, bs: nat)
    requires 0 < bs && Sorted(x + y, bs)
    ensures Sorted(x, bs) && Sorted(y, bs)
  {
    assert forall i :: 0 <= i < |x| ==> (x + y)[i] == x[i];
    assert forall i :: 0 <= i < |y| ==> (x + y)[|x| + i] == y[i];
  }

  /** Piece by piece: who has a byte has it for the whole image, and nobody else has it. */
  ghost predicate OwnedBy(ps: seq<seq<Block>>, i: nat, bs: nat, st: Store, p: nat)
    requires 0 < bs && i < |ps|
  {
    AllWritable(ps[i], bs) && Lookup(PadAll(ps[i], bs, st), bs, st, p).Some?
  }

  lemma {:induction false} OwnerHasByte(ps: seq<seq<Block>>, i: nat, bs: nat, st: Store, p: nat)
    requires 0 < bs && AllWritable(Flat(ps), bs) && Sorted(Flat(ps), bs) && i < |ps|
    ensures AllWritable(ps[i], bs)
    ensures OwnedBy(ps, i, bs, st, p) ==>
      Lookup(PadAll(Flat(ps), bs, st), bs, st, p) == Lookup(PadAll(ps[i], bs, st), bs, st, p)
  {
    var x, y := ps[0], Flat(ps[1..]);
    assert Flat(ps) == x + y;
    hide Flat, Lookup, PadAll, AllWritable, Sorted;
    PadConcat(x, y, bs, st);
    PadSorted(x + y, bs, st);
    LookupConcat(PadAll(x, bs, st), PadAll(y, bs, st), bs, st, p);
    PartsApart(PadAll(x, bs, st), PadAll(y, bs, st), bs, st, p);
    SortedParts(x, y, bs);
    if i != 0 {
      OwnerHasByte(ps[1..], i - 1, bs, st, p);
      assert ps[1..][i - 1] == ps[i];
    }
  }

  lemma NobodyOwns(bs: nat, st: Store, p: nat)
    requires 0 < bs
    ensures Flat([]) == [] && Lookup(PadAll([], bs, st), bs, st, p).None?
  {
    assert PadAll([], bs, st) == [];
  }

  lemma {:induction false} SomebodyOwns(ps: seq<seq<Block>>, bs: nat, st: Store, p: nat) returns (i: nat)
    requires 0 < bs && AllWritable(Flat(ps), bs) && Sorted(Flat(ps), bs)
    requires Lookup(PadAll(Flat(ps), bs, st), bs, st, p).Some?
    ensures i < |ps| && OwnedBy(ps, i, bs, st, p)
  {
    assert ps != [] by {
      NobodyOwns(bs, st, p);
    }
    var x, y := ps[0], Flat(ps[1..]);
    assert Flat(ps) == x + y;
    hide Flat, Lookup, PadAll, AllWritable, Sorted;
    PadConcat(x, y, bs, st);
    LookupConcat(PadAll(x, bs, st), PadAll(y, bs, st), bs, st, p);
    SortedParts(x, y, bs);
    if Lookup(PadAll(x, bs, st), bs, st, p).Some? {
      i := 0;
    } else {
      i := SomebodyOwns(ps[1..], bs, st, p);
      assert ps[1..][i] == ps[i + 1];
      i := i + 1;
    }
  }

  // ---- simg2img ----

  /** The raw file after one more sparse file has been imported and written over it; None when either fails. */
  function OneOver(f: seq<byte>, fd: nat, st: Store): Option<seq<byte>> {
    match Import(FdBytes(st, fd), fd, false)
    case Ok(s) =>
      if s.bs == 0 then None
      else (match Written(s.blocks, Config(false, false, s.bs, s.len), FileSink(f, 0), st)
        case Some(o) => if o.sink.FileSink? then Some(o.sink.bytes) else None
        case None => None)
    case _ => None
  }

  /** The raw file after all of them, in order. */
  function AllOver(f: seq<byte>, fds: seq<nat>, st: Store): Option<seq<byte>> {
    if fds == [] then Some(f)
    else match AllOver(f, fds[..|fds| - 1], st)
      case Some(g) => OneOver(g, fds[|fds| - 1], st)
      case None => None
  }

  lemma AtOverlay(f: seq<byte>, l: seq<Block>, bs: nat, st: Store, len: nat, p: nat)
    requires p < len
    ensures At(Overlay(f, l, bs, st, len), p) == GetOr(Lookup(l, bs, st, p), At(f, p))
  {
    hide Lookup;
  }

  /** A written file over a raw file: its padded bytes where it has some, the old bytes elsewhere. */
  lemma PieceOver(f: seq<byte>, l: seq<Block>, bs: nat, len: nat, fd: nat, st: Store, st': Store)
    requires WellFormed(l, bs, len) && len % bs == 0 && FdBytes(st', fd) == Encoded(l, bs, len, false, st)
    ensures AllWritable(l, bs) && OneOver(f, fd, st').Some? && |OneOver(f, fd, st').value| == len
    ensures forall p: nat :: p < len ==>
      At(OneOver(f, fd, st').value, p) == GetOr(Lookup(PadAll(l, bs, st), bs, st, p), At(f, p))
  {
    WellFormedSize(l, bs, len);
    ImportedIsWellFormed(l, bs, len, false, fd, st, st');
    hide Import, Encoded, Written, WellFormed, Lookup, PadAll, AllWritable, At, FdBytes;
    var m := Import(Encoded(l, bs, len, false, st), fd, false).value.blocks;
    RawWrites(m, bs, len, false, f, st');
    forall p: nat | p < len
      ensures At(OneOver(f, fd, st').value, p) == GetOr(Lookup(PadAll(l, bs, st), bs, st, p), At(f, p))
    {
      AtOverlay(f, m, bs, st', len, p);
    }
  }

  /** Every piece is in a file of its own. */
  ghost predicate Stored(ps: seq<seq<Block>>, fds: seq<nat>, bs: nat, len: nat, st: Store, st': Store)
    requires 0 < bs
  {
    |fds| == |ps| && forall i :: 0 <= i < |ps| ==> FdBytes(st', fds[i]) == Encoded(ps[i], bs, len, false, st)
  }

  /** The descriptors of the pieces in the given order. */
  function InOrder(fds: seq<nat>, order: seq<nat>): (r: seq<nat>)
    requires forall k :: 0 <= k < |order| ==> order[k] < |fds|
    ensures |r| == |order| && forall k :: 0 <= k < |r| ==> r[k] == fds[order[k]]
  {
    seq(|order|, k requires 0 <= k < |order| => fds[order[k]])
  }

  /** A byte of the raw file is that of the image once its piece has been written, and zero before. */
  ghost predicate SoFar(f: seq<byte>, ps: seq<seq<Block>>, order: seq<nat>, bs: nat, st: Store, p: nat)
    requires 0 < bs && AllWritable(Flat(ps), bs) && forall k :: 0 <= k < |order| ==> order[k] < |ps|
  {
    || At(f, p) == GetOr(Lookup(PadAll(Flat(ps), bs, st), bs, st, p), 0)
    || (At(f, p) == 0 && forall k :: 0 <= k < |order| ==> !OwnedBy(ps, order[k], bs, st, p))
  }

  lemma SoFarStep(f: seq<byte>, g: seq<byte>, ps: seq<seq<Block>>, order: seq<nat>, bs: nat, st: Store, p: nat)
    requires 0 < bs && AllWritable(Flat(ps), bs) && Sorted(Flat(ps), bs) && order != []
    requires forall k :: 0 <= k < |order| ==> order[k] < |ps|
    requires SoFar(f, ps, order[..|order| - 1], bs, st, p)
    requires var x := ps[order[|order| - 1]];
      AllWritable(x, bs) && At(g, p) == GetOr(Lookup(PadAll(x, bs, st), bs, st, p), At(f, p))
    ensures SoFar(g, ps, order, bs, st, p)
  {
    var i := order[|order| - 1];
    OwnerHasByte(ps, i, bs, st, p);
    hide Flat, Lookup, PadAll, AllWritable, Sorted, At;
    if !OwnedBy(ps, i, bs, st, p) {
      assert forall k :: 0 <= k < |order| - 1 ==> order[..|order| - 1][k] == order[k];
    }
  }

  /** After any number of pieces in any order, repeated or not. */
  lemma {:induction false} OrderSoFar(ps: seq<seq<Block>>, fds: seq<nat>, order: seq<nat>, bs: nat, len: nat,
                                      st: Store, st': Store)
    requires 0 < bs && len % bs == 0 && AllWellFormed(ps, bs, len) && Stored(ps, fds, bs, len, st, st')
    requires AllWritable(Flat(ps), bs) && Sorted(Flat(ps), bs)
    requires forall k :: 0 <= k < |order| ==> order[k] < |ps|
    ensures var g := AllOver([], InOrder(fds, order), st');
      && g.Some? && (order != [] ==> |g.value| == len)
      && forall p: nat :: p < len ==> SoFar(g.value, ps, order, bs, st, p)
  {
    hide Import, Flat, WellFormed, AllWritable, Sorted, OneOver, OwnedBy, Lookup, PadAll, Encoded;
    var sel := InOrder(fds, order);
    if order == [] {
      NothingWritten(ps, order, bs, st);
    } else {
      var n := |order| - 1;
      var i := order[n];
      OrderSoFar(ps, fds, order[..n], bs, len, st, st');
      assert InOrder(fds, order[..n]) == sel[..n];
      var f := AllOver([], sel[..n], st').value;
      PieceOver(f, ps[i], bs, len, fds[i], st, st');
      var g := OneOver(f, fds[i], st').value;
      forall p: nat | p < len
        ensures SoFar(g, ps, order, bs, st, p)
      {
        SoFarStep(f, g, ps, order, bs, st, p);
      }
    }
  }

  lemma NothingWritten(ps: seq<seq<Block>>, order: seq<nat>, bs: nat, st: Store)
    requires 0 < bs && AllWritable(Flat(ps), bs) && order == []
    ensures forall p: nat :: SoFar([], ps, order, bs, st, p)
  {
    hide Flat, Lookup, PadAll, AllWritable, OwnedBy;
  }

  /** Every piece has been written: nothing is left out. */
  lemma AllWritten(g: seq<byte>, ps: seq<seq<Block>>, order: seq<nat>, bs: nat, st: Store, p: nat)
    requires 0 < bs && AllWritable(Flat(ps), bs) && Sorted(Flat(ps), bs) && FillsWhole(Flat(ps), bs)
    requires (forall k :: 0 <= k < |order| ==> order[k] < |ps|) && (forall i :: 0 <= i < |ps| ==> i in order)
    requires SoFar(g, ps, order, bs, st, p)
    ensures At(g, p) == GetOr(Lookup(Flat(ps), bs, st, p), 0)
  {
    PadKeepsImage(Flat(ps), bs, st, p);
    hide Flat, Lookup, PadAll, AllWritable, OwnedBy, Sorted, FillsWhole, At;
    if Lookup(PadAll(Flat(ps), bs, st), bs, st, p).Some? {
      var i := SomebodyOwns(ps, bs, st, p);
      assert i in order;
      var k :| 0 <= k < |order| && order[k] == i;
    }
  }

  /**
   * Split and reassemble: an image is cut into pieces, each is written as a sparse file, and the files are
   * imported and written over one empty raw file in any order, with repetitions or without. The raw file is
   * the expansion of the image.
   */
  lemma SplitAndReassemble(l: seq<Block>, budget: u32, bs: nat, len: nat, fds: seq<nat>, order: seq<nat>, st: Store,
                           st': Store)
    requires WellFormed(l, bs, len) && len % bs == 0 && Roomy(budget, bs)
    requires Stored(Pieces(l, budget, bs), fds, bs, len, st, st')
    requires forall k :: 0 <= k < |order| ==> order[k] < |fds|
    requires forall i :: 0 <= i < |fds| ==> i in order
    ensures AllOver([], InOrder(fds, order), st') == Some(Expand(l, bs, st, len))
  {
    var ps := Pieces(l, budget, bs);
    PiecesConserve(l, budget, bs, len, st);
    WellFormedSize(l, bs, len);
    FlatParts(Flat(ps), bs, len);
    assert 0 in order;
    hide Pieces, WellFormed, AllWellFormed, Flat, AllWritable, Sorted, FillsWhole, AllOver, Lookup, PadAll, Encoded;
    OrderSoFar(ps, fds, order, bs, len, st, st');
    var g := AllOver([], InOrder(fds, order), st').value;
    forall p: nat | p < len
      ensures g[p] == GetOr(Lookup(l, bs, st, p), 0)
    {
      AllWritten(g, ps, order, bs, st, p);
    }
    assert g == Expand(l, bs, st, len);
  }

  lemma FlatParts(l: seq<Block>, bs: nat, len: nat)
    requires WellFormed(l, bs, len)
    ensures AllWritable(l, bs) && Sorted(l, bs) && FillsWhole(l, bs)
  {
    WellFormedAll(l, bs, len);
  }
}
