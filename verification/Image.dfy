/** Backed blocks and the bytes they denote. */
module Image {
  import opened Defs

  /** What backs an extent: memory from a pointer on, a named file, a descriptor, or a 32-bit pattern. */
  datatype Source =
    | Data(mem: seq<byte>)
    | File(name: string, off: nat)
    | Fd(fd: nat, off: nat)
    | Fill(val: u32)

  /** The contents of every descriptor and every named file. */
  datatype Store = Store(fds: map<nat, seq<byte>>, files: map<string, seq<byte>>)

  datatype Block = Block(block: u32, len: u32, src: Source)

  function FdBytes(st: Store, fd: nat): seq<byte> {
    if fd in st.fds then st.fds[fd] else []
  }

  function FileBytes(st: Store, name: string): seq<byte> {
    if name in st.files then st.files[name] else []
  }

  /** Byte i behind a source. */
  function SrcByte(src: Source, st: Store, i: nat): byte {
    match src
    case Data(mem) => At(mem, i)
    case File(name, off) => At(FileBytes(st, name), off + i)
    case Fd(fd, off) => At(FdBytes(st, fd), off + i)
    case Fill(val) => Le32(val)[i % 4]
  }

  /** The source n bytes further on. */
  function Shifted(src: Source, n: nat): Source {
    match src
    case Data(mem) => Data(if n <= |mem| then mem[n..] else [])
    case File(name, off) => File(name, off + n)
    case Fd(fd, off) => Fd(fd, off + n)
    case Fill(val) => src
  }

  lemma ShiftedByte(src: Source, st: Store, n: nat, i: nat)
    requires src.Fill? ==> n % 4 == 0
    ensures SrcByte(Shifted(src, n), st, i) == SrcByte(src, st, n + i)
  {
    if src.Fill? {
      assert (n + i) % 4 == i % 4;
    }
  }

  function Payload(b: Block, st: Store): (r: seq<byte>)
    ensures |r| == b.len
  {
    seq(b.len, (i: nat) => SrcByte(b.src, st, i))
  }

  // ---- extents ----

  function Start(b: Block, bs: nat): nat {
    b.block * bs
  }

  /** The first block after the extent. */
  function End(b: Block, bs: nat): nat
    requires 0 < bs
  {
    b.block + DivRoundUp(b.len, bs)
  }

  predicate Covers(b: Block, bs: nat, p: nat) {
    Start(b, bs) <= p < Start(b, bs) + b.len
  }

  /** Sorted by block number, with disjoint extents. */
  predicate Sorted(l: seq<Block>, bs: nat)
    requires 0 < bs
  {
    forall i, j :: 0 <= i < j < |l| ==> l[i].block < l[j].block && End(l[i], bs) <= l[j].block
  }

  /** Every extent ends within the 32-bit byte space. */
  predicate Bounded(l: seq<Block>, bs: nat) {
    forall i :: 0 <= i < |l| ==> Start(l[i], bs) + l[i].len < U32
  }

  /** Every extent ends within the 32-bit block space. */
  predicate InSpace(l: seq<Block>, bs: nat)
    requires 0 < bs
  {
    forall i :: 0 <= i < |l| ==> End(l[i], bs) < U32
  }

  /** The region of b is not used by l: what the library asks of every caller that adds an extent. */
  predicate Free(l: seq<Block>, b: Block, bs: nat)
    requires 0 < bs
  {
    forall i :: 0 <= i < |l| ==>
      (l[i].block < b.block && End(l[i], bs) <= b.block) || (b.block < l[i].block && End(b, bs) <= l[i].block)
  }

  // ---- the denotation ----

  /** The byte of the image at position p, or None in a hole. */
  function Lookup(l: seq<Block>, bs: nat, st: Store, p: nat): Option<byte> {
    if l == [] then None
    else if Covers(l[0], bs, p) then Some(SrcByte(l[0].src, st, p - Start(l[0], bs)))
    else Lookup(l[1..], bs, st, p)
  }

  function OrElse(x: Option<byte>, y: Option<byte>): Option<byte> {
    if x.Some? then x else y
  }

  function GetOr(x: Option<byte>, default: byte): byte {
    if x.Some? then x.value else default
  }

  /** The whole image of len bytes, holes read as zero. */
  function Expand(l: seq<Block>, bs: nat, st: Store, len: nat): (r: seq<byte>)
    ensures |r| == len
  {
    seq(len, (p: nat) => GetOr(Lookup(l, bs, st, p), 0))
  }

  lemma {:induction false} LookupConcat(x: seq<Block>, y: seq<Block>, bs: nat, st: Store, p: nat)
    ensures Lookup(x + y, bs, st, p) == OrElse(Lookup(x, bs, st, p), Lookup(y, bs, st, p))
  {
    if x == [] {
      assert x + y == y;
    } else {
      assert (x + y)[0] == x[0] && (x + y)[1..] == x[1..] + y;
      LookupConcat(x[1..], y, bs, st, p);
    }
  }

  /** A position is a hole exactly when no extent covers it. */
  lemma {:induction false} LookupHole(l: seq<Block>, bs: nat, st: Store, p: nat)
    ensures Lookup(l, bs, st, p).None? <==> forall i :: 0 <= i < |l| ==> !Covers(l[i], bs, p)
  {
    if l != [] {
      LookupHole(l[1..], bs, st, p);
      forall i | 0 <= i < |l|
        ensures i == 0 || l[i] == l[1..][i - 1]
      {
      }
      if !Covers(l[0], bs, p) && Lookup(l[1..], bs, st, p).Some? {
        var j :| 0 <= j < |l[1..]| && Covers(l[1..][j], bs, p);
        assert Covers(l[j + 1], bs, p);
      }
    }
  }

  lemma LookupOne(b: Block, bs: nat, st: Store, p: nat)
    ensures Lookup([b], bs, st, p) ==
            if Covers(b, bs, p) then Some(SrcByte(b.src, st, p - Start(b, bs))) else None
  {
    assert [b][1..] == [];
  }

  /** Extents of a sorted list have no byte in common. */
  lemma ExtentsApart(a: Block, b: Block, bs: nat, p: nat)
    requires 0 < bs && End(a, bs) <= b.block
    ensures Start(a, bs) + Align(a.len, bs) <= Start(b, bs)
    ensures Covers(a, bs, p) ==> p < Start(b, bs)
    ensures Covers(b, bs, p) ==> Start(a, bs) + a.len <= p
  {
    hide DivRoundUp, Align;
    AlignBounds(a.len, bs);
    Distribute(a.block, DivRoundUp(a.len, bs), bs);
    MulMono(End(a, bs), b.block, bs);
  }

  /** Inserting an extent anywhere between others it does not touch overlays it on the image. */
  lemma LookupInsert(x: seq<Block>, b: Block, y: seq<Block>, bs: nat, st: Store, p: nat)
    requires 0 < bs && Free(x, b, bs)
    ensures Lookup(x + [b] + y, bs, st, p) == OrElse(Lookup([b], bs, st, p), Lookup(x + y, bs, st, p))
  {
    LookupConcat(x + [b], y, bs, st, p);
    LookupConcat(x, [b], bs, st, p);
    LookupConcat(x, y, bs, st, p);
    LookupOne(b, bs, st, p);
    LookupHole(x, bs, st, p);
    if Covers(b, bs, p) {
      forall i | 0 <= i < |x|
        ensures !Covers(x[i], bs, p)
      {
        if x[i].block < b.block {
          ExtentsApart(x[i], b, bs, p);
        } else {
          ExtentsApart(b, x[i], bs, p);
        }
      }
    }
  }

  /** Replacing a run of extents by one with the same image leaves the whole image unchanged. */
  lemma LookupReplace(x: seq<Block>, m: seq<Block>, m': seq<Block>, y: seq<Block>, bs: nat, st: Store, p: nat)
    requires Lookup(m, bs, st, p) == Lookup(m', bs, st, p)
    ensures Lookup(x + m + y, bs, st, p) == Lookup(x + m' + y, bs, st, p)
  {
    LookupConcat(x + m, y, bs, st, p);
    LookupConcat(x, m, bs, st, p);
    LookupConcat(x + m', y, bs, st, p);
    LookupConcat(x, m', bs, st, p);
  }

  lemma TailStart(block: nat, n: nat, bs: nat)
    requires 0 < bs && n % bs == 0
    ensures (block + n / bs) * bs == block * bs + n
  {
    assert n == bs * (n / bs);
    Distribute(block, n / bs, bs);
  }

  /** Cutting an extent at a block boundary does not change the image. */
  lemma LookupCut(b: Block, head: Block, tail: Block, n: nat, bs: nat, st: Store, p: nat)
    requires 0 < bs && bs % 4 == 0 && n % bs == 0 && n <= b.len
    requires head.block == b.block && head.len == n && head.src == b.src
    requires tail.block == b.block + n / bs && tail.len == b.len - n && tail.src == Shifted(b.src, n)
    ensures Lookup([head, tail], bs, st, p) == Lookup([b], bs, st, p)
  {
    assert [head, tail] == [head] + [tail];
    LookupConcat([head], [tail], bs, st, p);
    LookupOne(head, bs, st, p);
    LookupOne(tail, bs, st, p);
    LookupOne(b, bs, st, p);
    MultipleOfFour(n, bs);
    TailStart(b.block, n, bs);
    if Covers(tail, bs, p) {
      ShiftedByte(b.src, st, n, p - Start(tail, bs));
    }
  }
}
