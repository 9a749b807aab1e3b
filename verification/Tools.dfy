/** The command-line tools: simg2img, simg2simg, append2simg and img2simg. */
module Tools {
  import opened Defs
  import opened Image
  import opened BackedBlock
  import opened BackedBlockList
  import opened OutputFile
  import opened SparseFile
  import opened Encode
  import opened SparseRead
  import opened SparseReader
  import opened RoundTrip
  import opened Partial
  import opened Resparse
  import opened ResparseSize
  import opened ResparseTwice
  import opened ResparseFile
  import opened Sparsify
  import opened Reassemble

  // ---- simg2img ----

  /** An imported image that the writers accept, or one that they divide by zero for. */
  predicate WritableImage(s: Imported) {
    s.bs == 0 || (s.bs <= INT_MAX && s.bs % 4 == 0 && AllWritable(s.blocks, s.bs))
  }

  ghost predicate WritableInput(fd: nat, st: Store) {
    Import(FdBytes(st, fd), fd, false).Ok? ==> WritableImage(Import(FdBytes(st, fd), fd, false).value)
  }

  /** The body of the loop of simg2img: import one file, rewind the output, write it raw. */
  method WriteOver(fd: nat, out: File, st: Store) returns (ok: bool)
    requires WritableInput(fd, st)
    modifies out
    ensures if ok then OneOver(old(out.bytes), fd, st) == Some(out.bytes) else OneOver(old(out.bytes), fd, st) == None
  {
    hide Import, Written, AllWritable, List.Valid;
    var input := new File(FdBytes(st, fd));
    var s := ImportFile(input, fd, false);
    if !s.Ok? || s.value.blockSize == 0 {
      return false;
    }
    out.pos := 0;
    var written := s.value.Write(out, false, false, st);
    ok := written == Done;
  }

  lemma AllOverNext(f: seq<byte>, fds: seq<nat>, k: nat, st: Store)
    requires k < |fds|
    ensures AllOver(f, fds[..k + 1], st) ==
      match AllOver(f, fds[..k], st) case Some(g) => OneOver(g, fds[k], st) case None => None
  {
    hide OneOver;
    assert fds[..k + 1][..k] == fds[..k];
  }

  lemma {:induction false} AllOverFails(f: seq<byte>, fds: seq<nat>, k: nat, st: Store)
    requires k <= |fds| && AllOver(f, fds[..k], st).None?
    ensures AllOver(f, fds, st).None?
    decreases |fds| - k
  {
    hide OneOver;
    if k < |fds| {
      AllOverNext(f, fds, k, st);
      AllOverFails(f, fds, k + 1, st);
    } else {
      assert fds[..k] == fds;
    }
  }

  /** simg2img: every input is written over the same output, which starts out empty. */
  method Simg2Img(fds: seq<nat>, out: File, st: Store) returns (ok: bool)
    requires forall k :: 0 <= k < |fds| ==> WritableInput(fds[k], st)
    modifies out
    ensures if ok then AllOver([], fds, st) == Some(out.bytes) else AllOver([], fds, st) == None
  {
    hide OneOver, WritableInput;
    out.bytes, out.pos := [], 0;
    ok := true;
    for i := 0 to |fds|
      invariant ok && AllOver([], fds[..i], st) == Some(out.bytes)
    {
      AllOverNext([], fds, i, st);
      ok := WriteOver(fds[i], out, st);
      if !ok {
        AllOverFails([], fds, i + 1, st);
        return;
      }
    }
    assert fds[..|fds|] == fds;
  }

  // ---- simg2simg ----

  lemma IntSizedConcat(x: seq<Block>, y: seq<Block>)
    ensures IntSized(x + y) <==> IntSized(x) && IntSized(y)
  {
    if IntSized(x + y) {
      assert forall i :: 0 <= i < |x| ==> x[i] == (x + y)[i];
      assert forall i :: 0 <= i < |y| ==> y[i] == (x + y)[|x| + i];
    }
  }

  lemma {:induction false} PiecesIntSized(l: seq<Block>, budget: u32, bs: nat)
    requires Roomy(budget, bs) && IntSized(l)
    ensures IntSized(Flat(Pieces(l, budget, bs)))
    decreases Measure(l)
  {
    var c := CutAt(l, budget, bs);
    CutIntSized(l, budget, bs);
    hide CutAt, IntSized, Flat;
    if c.more {
      CutProgress(l, budget, bs);
      var ps := Pieces(c.rest, budget, bs);
      PiecesIntSized(c.rest, budget, bs);
      FlatCons(c.piece, ps);
      IntSizedConcat(c.piece, Flat(ps));
    } else {
      FlatCons(c.piece, []);
    }
  }

  /** What resparse asks of an imported image: extents of at most INT_MAX bytes and enough room for whole blocks. */
  ghost predicate Splittable(s: Imported, maxLen: u32) {
    WellFormed(s.blocks, s.bs, s.len) && s.len % s.bs == 0 && IntSized(s.blocks) && Roomy(Budget(maxLen), s.bs)
  }

  /** Both passes: what the first puts back is what the second cuts again. */
  lemma BothPasses(l: seq<Block>, maxLen: u32, bs: u32, len: nat, st: Store)
    requires Splittable(Imported(bs, len, l), maxLen)
    ensures WellFormed(l, bs, len) && IntSized(l) && Roomy(Budget(maxLen), bs)
    ensures var ps := Pieces(l, Budget(maxLen), bs);
      && WellFormed(Flat(ps), bs, len) && IntSized(Flat(ps)) && Pieces(Flat(ps), Budget(maxLen), bs) == ps
      && ps[Min(|ps|, 0)..] == ps && Min(|ps|, |ps|) == |ps| && Flat(ps[|ps|..]) == []
  {
    PiecesConserve(l, Budget(maxLen), bs, len, st);
    PiecesIntSized(l, Budget(maxLen), bs);
    SecondPassAgrees(l, Budget(maxLen), bs, len, st);
    hide Pieces, WellFormed, IntSized, Budget;
  }

  /** The counting pass: nothing is delivered, every piece is put back. */
  method CountPieces(s: SparseFile, maxLen: u32, st: Store) returns (files: nat)
    requires s.Valid() && Splittable(Imported(s.blockSize, s.len, s.list.blocks), maxLen)
    modifies s.list, s.list.nodes
    ensures s.Valid() && Roomy(Budget(maxLen), s.blockSize)
    ensures var ps := Pieces(old(s.list.blocks), Budget(maxLen), s.blockSize);
      files == |ps| && s.list.blocks == Flat(ps)
    ensures forall k :: 0 <= k < |s.list.nodes| ==> s.list.nodes[k] in old(s.list.nodes) || fresh(s.list.nodes[k])
  {
    hide *;
    BothPasses(s.list.blocks, maxLen, s.blockSize, s.len, st);
    var none := new SparseFile?[0];
    files := ResparseInto(s, maxLen, none, st);
  }

  /** The cutting pass, into an array of the size that was counted. */
  method CutPieces(s: SparseFile, maxLen: u32, files: nat, st: Store, ghost l: seq<Block>)
    returns (outS: array<SparseFile?>)
    requires s.Valid() && Splittable(Imported(s.blockSize, s.len, l), maxLen) && Roomy(Budget(maxLen), s.blockSize)
    requires var ps := Pieces(l, Budget(maxLen), s.blockSize); files == |ps| && s.list.blocks == Flat(ps)
    modifies s.list, s.list.nodes
    ensures fresh(outS)
    ensures var ps := Pieces(l, Budget(maxLen), s.blockSize);
      outS.Length == |ps| && Filled(outS, ps, s.blockSize, s.len)
  {
    hide *;
    BothPasses(l, maxLen, s.blockSize, s.len, st);
    outS := new SparseFile?[files];
    var again := ResparseInto(s, maxLen, outS, st);
  }

  /** simg2simg's double call: a counting pass, an array of that size, a cutting pass that fills it exactly. */
  method CountThenCut(s: SparseFile, maxLen: u32, st: Store) returns (outS: array<SparseFile?>)
    requires s.Valid() && Splittable(Imported(s.blockSize, s.len, s.list.blocks), maxLen)
    modifies s.list, s.list.nodes
    ensures fresh(outS) && Roomy(Budget(maxLen), s.blockSize)
    ensures var ps := Pieces(old(s.list.blocks), Budget(maxLen), s.blockSize);
      outS.Length == |ps| && Filled(outS, ps, s.blockSize, s.len)
  {
    hide *;
    ghost var l := s.list.blocks;
    var files := CountPieces(s, maxLen, st);
    outS := CutPieces(s, maxLen, files, st, l);
  }

  /** The contents of the files that simg2simg writes. */
  function PieceFiles(ps: seq<seq<Block>>, bs: nat, len: nat, st: Store): (r: seq<seq<byte>>)
    requires 0 < bs
    ensures |r| == |ps| && forall i :: 0 <= i < |ps| ==> r[i] == Encoded(ps[i], bs, len, false, st)
  {
    seq(|ps|, i requires 0 <= i < |ps| => Encoded(ps[i], bs, len, false, st))
  }

  /** sparse_file_write into a new file, for an image of whole blocks. */
  method WriteNew(s: SparseFile, st: Store) returns (bytes: seq<byte>)
    requires s.Valid() && WellFormed(s.list.blocks, s.blockSize, s.len) && s.len % s.blockSize == 0
    ensures s.Valid() && 0 < s.blockSize && s.list.blocks == old(s.list.blocks)
    ensures bytes == Encoded(s.list.blocks, s.blockSize, s.len, false, st)
  {
    ghost var l, bs := s.list.blocks, s.blockSize;
    WellFormedAll(l, bs, s.len);
    WellFormedSize(l, bs, s.len);
    SparseWrites(l, bs, s.len, false, FileSink([], 0), st);
    PutFresh(Encoded(l, bs, s.len, false, st));
    hide Written, Encoded, WellFormed, AllWritable, List.Valid, Put;
    var out := new File([]);
    var r := s.Write(out, true, false, st);
    bytes := out.bytes;
  }

  lemma FilledAt(outS: array<SparseFile?>, ps: seq<seq<Block>>, bs: u32, len: nat, i: nat)
    requires Filled(outS, ps, bs, len) && AllWellFormed(ps, bs, len) && i < |ps| == outS.Length
    ensures outS[i] != null && outS[i].Valid() && outS[i].blockSize == bs && outS[i].len == len
    ensures outS[i].list.blocks == ps[i]
    ensures WellFormed(ps[i], bs, len)
  {
    hide WellFormed, List.Valid;
  }

  /** The writing loop of simg2simg. */
  method WritePieces(outS: array<SparseFile?>, ghost ps: seq<seq<Block>>, ghost bs: u32, ghost len: nat, st: Store)
    returns (files: seq<seq<byte>>)
    requires 0 < bs && len % bs == 0 && |ps| == outS.Length && AllWellFormed(ps, bs, len) && Filled(outS, ps, bs, len)
    ensures files == PieceFiles(ps, bs, len, st)
  {
    hide *;
    files := [];
    for i := 0 to outS.Length
      invariant |files| == i && forall k :: 0 <= k < i ==> files[k] == Encoded(ps[k], bs, len, false, st)
    {
      FilledAt(outS, ps, bs, len, i);
      var bytes := WriteNew(outS[i], st);
      files := files + [bytes];
    }
  }

  /** What simg2simg asks of its input: nothing when it cannot be imported or has a block size of zero. */
  ghost predicate SplittableInput(fd: nat, maxLen: u32, st: Store) {
    match Import(FdBytes(st, fd), fd, false)
    case Ok(s) => s.bs == 0 || Splittable(s, maxLen)
    case _ => true
  }

  /** The files that simg2simg writes; None when it cannot import its input, or divides by its block size of zero. */
  ghost function SplitFiles(fd: nat, maxLen: u32, st: Store): Option<seq<seq<byte>>>
    requires SplittableInput(fd, maxLen, st)
  {
    match Import(FdBytes(st, fd), fd, false)
    case Ok(s) =>
      if s.bs == 0 then None else Some(PieceFiles(Pieces(s.blocks, Budget(maxLen), s.bs), s.bs, s.len, st))
    case _ => None
  }

  /** simg2simg: the files written are the pieces of the imported image. */
  method Simg2Simg(fd: nat, maxSize: int, st: Store) returns (files: Option<seq<seq<byte>>>)
    requires SplittableInput(fd, ToU32(maxSize), st)
    ensures files == SplitFiles(fd, ToU32(maxSize), st)
  {
    var input := new File(FdBytes(st, fd));
    hide Import, Splittable, List.Valid, Budget, Filled, WellFormed, PieceFiles, Pieces;
    var s := ImportFile(input, fd, false);
    if !s.Ok? || s.value.blockSize == 0 {
      return None;
    }
    ghost var l, bs, len := s.value.list.blocks, s.value.blockSize, s.value.len;
    SplittableParts(Imported(bs, len, l), ToU32(maxSize), st);
    var outS := CountThenCut(s.value, ToU32(maxSize), st);
    var written := WritePieces(outS, Pieces(l, Budget(ToU32(maxSize)), bs), bs, len, st);
    files := Some(written);
  }

  lemma SplittableParts(s: Imported, maxLen: u32, st: Store)
    requires Splittable(s, maxLen)
    ensures 0 < s.bs && s.len % s.bs == 0 && Roomy(Budget(maxLen), s.bs)
    ensures AllWellFormed(Pieces(s.blocks, Budget(maxLen), s.bs), s.bs, s.len)
  {
    PiecesConserve(s.blocks, Budget(maxLen), s.bs, s.len, st);
    hide Pieces, Budget;
  }

  lemma OneFile(fd: nat, st: Store)
    ensures AllOver([], [fd], st) == OneOver([], fd, st)
  {
    assert [fd][..0] == [] && AllOver([], [], st) == Some([]);
  }

  /**
   * Splitting is invisible: simg2img on the files that simg2simg made of a sparse file, in any order, gives what
   * simg2img gives on that file itself, the expansion of its image.
   */
  lemma SplitIsInvisible(fd: nat, maxLen: u32, fds: seq<nat>, order: seq<nat>, st: Store, st': Store)
    requires Import(FdBytes(st, fd), fd, false).Ok? && Splittable(Import(FdBytes(st, fd), fd, false).value, maxLen)
    requires var s := Import(FdBytes(st, fd), fd, false).value;
      Stored(Pieces(s.blocks, Budget(maxLen), s.bs), fds, s.bs, s.len, st, st')
    requires forall k :: 0 <= k < |order| ==> order[k] < |fds|
    requires forall i :: 0 <= i < |fds| ==> i in order
    ensures AllOver([], InOrder(fds, order), st') == AllOver([], [fd], st)
    ensures var s := Import(FdBytes(st, fd), fd, false).value;
      AllOver([], [fd], st) == Some(Expand(s.blocks, s.bs, st, s.len))
  {
    var s := Import(FdBytes(st, fd), fd, false).value;
    SplittableParts(s, maxLen, st);
    OneFile(fd, st);
    RawWrites(s.blocks, s.bs, s.len, false, [], st);
    OverNothing(s.blocks, s.bs, st, s.len);
    hide Import, Pieces, Stored, WellFormed, Written, Budget, Overlay, Expand, AllOver, IntSized, Roomy;
    SplitAndReassemble(s.blocks, Budget(maxLen), s.bs, s.len, fds, order, st, st');
  }

  /**
   * From end to end: simg2simg gives up exactly when simg2img does, and otherwise simg2img puts its files together
   * again, in any order, to what it makes of the input itself.
   */
  lemma SplitAndJoin(fd: nat, maxLen: u32, fds: seq<nat>, order: seq<nat>, st: Store, st': Store)
    requires SplittableInput(fd, maxLen, st)
    ensures SplitFiles(fd, maxLen, st).Some? <==> AllOver([], [fd], st).Some?
    ensures
      && SplitFiles(fd, maxLen, st).Some?
      && |fds| == |SplitFiles(fd, maxLen, st).value|
      && (forall i :: 0 <= i < |fds| ==> FdBytes(st', fds[i]) == SplitFiles(fd, maxLen, st).value[i])
      && (forall k :: 0 <= k < |order| ==> order[k] < |fds|)
      && (forall i :: 0 <= i < |fds| ==> i in order)
      ==> AllOver([], InOrder(fds, order), st') == AllOver([], [fd], st)
  {
    OneFile(fd, st);
    if SplitFiles(fd, maxLen, st).Some? {
      var s := Import(FdBytes(st, fd), fd, false).value;
      hide Import, Pieces, Splittable, Written, Budget, AllOver;
      SplitWhole(s, fd, maxLen, st);
      if |fds| == |SplitFiles(fd, maxLen, st).value|
        && (forall i :: 0 <= i < |fds| ==> FdBytes(st', fds[i]) == SplitFiles(fd, maxLen, st).value[i])
        && (forall k :: 0 <= k < |order| ==> order[k] < |fds|)
        && (forall i :: 0 <= i < |fds| ==> i in order)
      {
        SplitIsInvisible(fd, maxLen, fds, order, st, st');
      }
    }
  }

  /** simg2img writes what can be split. */
  lemma SplitWhole(s: Imported, fd: nat, maxLen: u32, st: Store)
    requires Import(FdBytes(st, fd), fd, false) == Ok(s) && Splittable(s, maxLen)
    ensures AllOver([], [fd], st).Some?
  {
    SplittableParts(s, maxLen, st);
    OneFile(fd, st);
    RawWrites(s.blocks, s.bs, s.len, false, [], st);
    hide Import, WellFormed, Written, Overlay, AllOver;
  }

  lemma OverNothing(l: seq<Block>, bs: nat, st: Store, len: nat)
    ensures Overlay([], l, bs, st, len) == Expand(l, bs, st, len)
  {
    hide Lookup;
  }

  /** The two writers agree: the raw file written from a list is the expansion of what its sparse file is read as. */
  lemma BackendsAgree(l: seq<Block>, bs: nat, len: nat, c: bool, fd: nat, st: Store, st': Store)
    requires WellFormed(l, bs, len) && len % bs == 0 && FdBytes(st', fd) == Encoded(l, bs, len, c, st)
    ensures var raw, i := Written(l, Config(false, c, bs, len), FileSink([], 0), st),
      Import(FdBytes(st', fd), fd, false);
      && raw.Some? && raw.value.sink.FileSink? && i.Ok? && i.value.len == len
      && raw.value.sink.bytes == Expand(i.value.blocks, i.value.bs, st', len) == Expand(l, bs, st, len)
  {
    WellFormedSize(l, bs, len);
    RawWrites(l, bs, len, c, [], st);
    OverNothing(l, bs, st, len);
    NoCrcAccepted(l, bs, len, c, st);
    ImportOfWritten(l, bs, len, c, false, fd, st, st');
    hide Import, Written, WellFormed, Overlay, Expand, Encoded, Lookup, CrcAccepted;
  }

  /** Every file that simg2simg writes is shorter than the limit. */
  lemma FilesBelowLimit(s: Imported, maxLen: u32, st: Store)
    requires RoomyLen(maxLen, s.bs) && Roomy(Budget(maxLen), s.bs)
    ensures var files := PieceFiles(Pieces(s.blocks, Budget(maxLen), s.bs), s.bs, s.len, st);
      forall i :: 0 <= i < |files| ==> |files[i]| < maxLen
  {
    hide Pieces, Encoded, Budget;
    forall i | 0 <= i < |Pieces(s.blocks, Budget(maxLen), s.bs)|
      ensures |PieceFiles(Pieces(s.blocks, Budget(maxLen), s.bs), s.bs, s.len, st)[i]| < maxLen
    {
      PiecesBelowLimit(s.blocks, maxLen, s.bs, s.len, st, i);
    }
  }

  // ---- img2simg ----

  /** The list of a raw file reaches to the end of its last block. */
  lemma RawReachesEnd(f: seq<byte>, fd: nat, bs: nat, st: Store)
    requires 0 < bs <= INT_MAX && bs % 4 == 0 && Align(|f|, bs) + bs <= U32 && FdBytes(st, fd) == f && 0 < |f|
    ensures |f| < U32 && LastBlock(Sparsified(f, fd, bs, DivRoundUp(|f|, bs)), 0, bs) == DivRoundUp(|f|, bs)
  {
    var n := DivRoundUp(|f|, bs);
    AlignBounds(|f|, bs);
    SparsifiedHolds(f, fd, bs, st, n);
    var l, p := Sparsified(f, fd, bs, n), |f| - 1;
    LookupHole(l, bs, st, p);
    hide DivRoundUp, Align, Sparsified, Coalesced, Positive, FillsWhole, Bounded;
    var i :| 0 <= i < |l| && Covers(l[i], bs, p);
    AlignBounds(l[i].len, bs);
    EndParts(l[i], 0, bs);
    MulMono(n, End(l[i], bs), bs);
    LastBlockAfter(l, 0, bs, i);
    LastBlockBound(l, 0, bs, n);
  }

  /** What img2simg writes for the raw file f, when it writes anything. */
  function SparsifiedFile(f: seq<byte>, fd: nat, bs: nat, st: Store): seq<byte>
    requires 0 < bs && |f| < U32
  {
    Encoded(Sparsified(f, fd, bs, DivRoundUp(|f|, bs)), bs, |f|, false, st)
  }

  lemma SparsifiedWritten(f: seq<byte>, fd: nat, bs: nat, st: Store)
    requires 0 < bs <= INT_MAX && bs % 4 == 0 && Align(|f|, bs) + bs <= U32 && FdBytes(st, fd) == f
    ensures |f| < U32
    ensures var l := Sparsified(f, fd, bs, DivRoundUp(|f|, bs));
      var w := Written(l, Config(true, false, bs, |f|), FileSink([], 0), st);
      && WellFormed(l, bs, |f|) && AllWritable(l, bs)
      && (w.Some? <==> |f| % bs == 0)
      && (w.Some? ==> w.value.sink == FileSink(SparsifiedFile(f, fd, bs, st), |SparsifiedFile(f, fd, bs, st)|))
  {
    SparsifiedIsFile(f, fd, bs, st);
    var l := Sparsified(f, fd, bs, DivRoundUp(|f|, bs));
    WellFormedAll(l, bs, |f|);
    hide Written, WellFormed, AllWritable, Sparsified, Encoded, DivRoundUp, Align, LastBlock, Expand, Coalesced;
    if |f| % bs == 0 {
      SparseWrites(l, bs, |f|, false, FileSink([], 0), st);
      PutFresh(SparsifiedFile(f, fd, bs, st));
    } else {
      PartialAborts(l, bs, |f|, false, FileSink([], 0), st);
      RawReachesEnd(f, fd, bs, st);
    }
  }

  lemma FitsU32(len: nat, bs: nat)
    requires 0 < bs && Align(len, bs) + bs <= U32
    ensures len < U32
  {
    AlignBounds(len, bs);
  }

  /**
   * img2simg: None when the block size is refused, or when the file is not a number of whole blocks: then its
   * last extent reaches beyond the file and the writer's assertion stops the program.
   */
  method Img2Simg(input: nat, blockSize: u32, st: Store) returns (bytes: Option<seq<byte>>)
    requires 0 < blockSize <= INT_MAX && Align(|FdBytes(st, input)|, blockSize) + blockSize <= U32
    ensures |FdBytes(st, input)| < U32
    ensures bytes == if 1024 <= blockSize && blockSize % 4 == 0 && |FdBytes(st, input)| % blockSize == 0
      then Some(SparsifiedFile(FdBytes(st, input), input, blockSize, st)) else None
  {
    ghost var f := FdBytes(st, input);
    hide *;
    FitsU32(|f|, blockSize);
    if blockSize < 1024 || blockSize % 4 != 0 {
      return None;
    }
    SparsifiedWritten(f, input, blockSize, st);
    var file := new File(FdBytes(st, input));
    var s := new SparseFile(blockSize, |file.bytes|);
    var ok := ReadNormal(s, file, input);
    assert f[..|f|] == f;
    var out := new File([]);
    var r := s.Write(out, true, false, st);
    bytes := if r == Done then Some(out.bytes) else None;
  }

  /** There and back: img2simg and then simg2img give the raw file again. */
  lemma RawThereAndBack(f: seq<byte>, fd: nat, bs: nat, out: nat, st: Store, st': Store)
    requires 0 < bs <= INT_MAX && bs % 4 == 0 && Align(|f|, bs) + bs <= U32 && FdBytes(st, fd) == f && |f| % bs == 0
    requires |f| < U32 && FdBytes(st', out) == SparsifiedFile(f, fd, bs, st)
    ensures AllOver([], [out], st') == Some(f)
  {
    var l := Sparsified(f, fd, bs, DivRoundUp(|f|, bs));
    SparsifiedIsFile(f, fd, bs, st);
    OneFile(out, st');
    hide Sparsified, WellFormed, DivRoundUp, Align, OneOver, Encoded, Lookup, PadAll, Coalesced;
    PieceOver([], l, bs, |f|, out, st, st');
    WellFormedAll(l, bs, |f|);
    FlatParts(l, bs, |f|);
    var g := OneOver([], out, st').value;
    forall p: nat | p < |f|
      ensures g[p] == Expand(l, bs, st, |f|)[p]
    {
      PadKeepsImage(l, bs, st, p);
    }
    assert g == f;
  }
}
