/**
 * The reader of sparse files as the program runs it: a file offset, a block counter and a CRC updated chunk by chunk.
 */
module SparseReader {
  import opened Defs
  import opened Image
  import opened Crc32
  import opened BackedBlock
  import opened BackedBlockList
  import opened OutputFile
  import opened SparseFile
  import opened SparseRead

  const COPY_BUF_SIZE: nat := 1024 * 1024

  /** read_all: all n bytes or an error. */
  method ReadAll(file: File, n: nat) returns (ok: bool, data: seq<byte>)
    modifies file`pos
    ensures ok == (old(file.pos) + n <= |file.bytes|)
    ensures ok ==> data == file.bytes[old(file.pos)..old(file.pos) + n] && file.pos == old(file.pos) + n
  {
    ok, data := file.pos + n <= |file.bytes|, [];
    if ok {
      data := file.bytes[file.pos..file.pos + n];
      file.pos := file.pos + n;
    }
  }

  lemma BufferSize()
    ensures COPY_BUF_SIZE == 0x10_0000
  {
  }

  // ---- the CRC loops, a buffer of COPY_BUF_SIZE bytes at a time ----

  lemma SliceSum(c: bv32, f: seq<byte>, a: nat, b: nat, d: nat)
    requires a <= b <= d <= |f|
    ensures Crc(Crc(c, f[a..b]), f[b..d]) == Crc(c, f[a..d])
  {
    hide Crc;
    CrcConcat(c, f[a..b], f[b..d]);
    assert f[a..b] + f[b..d] == f[a..d];
  }

  lemma NoData(c: bv32)
    ensures Crc(c, []) == c
  {
    ComplementTwice(c);
  }

  /** The loop of process_raw_chunk; nothing is read for an empty chunk. */
  method HashFile(file: File, size: nat, crcIn: bv32) returns (ok: bool, crc: bv32)
    modifies file`pos
    ensures ok == (size == 0 || old(file.pos) + size <= |file.bytes|)
    ensures ok ==> file.pos == old(file.pos) + size
    ensures ok ==> crc == if size == 0 then crcIn else Crc(crcIn, file.bytes[old(file.pos)..old(file.pos) + size])
  {
    hide *;
    BufferSize();
    NoData(crcIn);
    ghost var start := file.pos;
    var len := size;
    ok, crc := true, crcIn;
    while len != 0
      invariant 0 <= len <= size && file.pos == start + size - len && ok
      invariant len < size ==> file.pos <= |file.bytes|
      invariant crc == if len == size then crcIn else Crc(crcIn, file.bytes[start..file.pos])
      decreases len
    {
      var chunk := if len < COPY_BUF_SIZE then len else COPY_BUF_SIZE;
      var data;
      ok, data := ReadAll(file, chunk);
      if !ok {
        return;
      }
      ghost var mid := file.pos - chunk;
      SliceSum(crcIn, file.bytes, start, mid, file.pos);
      assert len == size ==> file.bytes[start..mid] == [];
      crc := SparseCrc32(crc, data);
      len := len - chunk;
    }
  }

  lemma PatternBytes(val: u32, n: nat)
    ensures |Pattern(val, n)| == n && forall i :: 0 <= i < n ==> Pattern(val, n)[i] == Le32(val)[i % 4]
  {
    hide Le32;
  }

  lemma ZeroPattern(n: nat)
    ensures Pattern(0, n) == Zeros(n)
  {
  }

  /** Filling the buffer with a word: the loop of process_fill_chunk. */
  method FillWords(copybuf: array<byte>, val: u32)
    requires copybuf.Length % 4 == 0
    modifies copybuf
    ensures copybuf[..] == Pattern(val, copybuf.Length)
  {
    var word := Le32(val);
    for i := 0 to copybuf.Length / 4
      invariant forall k :: 0 <= k < 4 * i ==> copybuf[k] == word[k % 4]
    {
      copybuf[4 * i], copybuf[4 * i + 1], copybuf[4 * i + 2], copybuf[4 * i + 3] := word[0], word[1], word[2], word[3];
    }
  }

  /** Clearing the buffer, in process_skip_chunk. */
  method ClearBytes(copybuf: array<byte>)
    modifies copybuf
    ensures copybuf[..] == Pattern(0, copybuf.Length)
  {
    forall i | 0 <= i < copybuf.Length {
      copybuf[i] := 0;
    }
    ZeroPattern(copybuf.Length);
  }

  /** The hashing loops of process_fill_chunk and process_skip_chunk. */
  method HashBuffer(copybuf: array<byte>, ghost val: u32, size: nat, crcIn: bv32) returns (crc: bv32)
    requires copybuf.Length == COPY_BUF_SIZE && copybuf[..] == Pattern(val, COPY_BUF_SIZE)
    ensures crc == Crc(crcIn, Pattern(val, size))
  {
    hide *;
    BufferSize();
    HashedNothing(crcIn, val);
    var len := size;
    crc := crcIn;
    while len != 0
      invariant 0 <= len <= size && (len == 0 || (size - len) % 4 == 0)
      invariant crc == Crc(crcIn, Pattern(val, size - len))
      decreases len
    {
      var chunk := if len < COPY_BUF_SIZE then len else COPY_BUF_SIZE;
      PatternTurn(crcIn, val, size - len, chunk);
      assert copybuf[..chunk] == copybuf[..][..chunk];
      crc := SparseCrc32(crc, copybuf[..chunk]);
      len := len - chunk;
    }
  }

  lemma PatternTurn(c: bv32, val: u32, done: nat, more: nat)
    requires done % 4 == 0 && more <= COPY_BUF_SIZE
    ensures |Pattern(val, COPY_BUF_SIZE)| == COPY_BUF_SIZE
    ensures Crc(Crc(c, Pattern(val, done)), Pattern(val, COPY_BUF_SIZE)[..more]) == Crc(c, Pattern(val, done + more))
  {
    PatternBytes(val, COPY_BUF_SIZE);
    hide *;
    PatternPrefix(val, more, COPY_BUF_SIZE);
    PatternJoin(val, done, more);
    CrcConcat(c, Pattern(val, done), Pattern(val, more));
  }

  // ---- one chunk ----

  /** The sparse file being built and the file being read, shift bytes past the offset of r. */
  ghost predicate Reading(s: SparseFile, file: File, inp: Input, r: Reader, shift: nat)
    reads s, s.list, s.list.nodes, file
  {
    && s.Valid() && s.blockSize == inp.bs && s.list.blocks == r.l && Ascending(r.l)
    && file.bytes == inp.f && file.pos == r.pos + shift
  }

  /** sparse_file_add_fd and sparse_file_add_fill at the block counter; false when queue_bb stops the program. */
  method AddNext(s: SparseFile, src: Source, len: u32, cur: u32, ghost inp: Input, ghost r: Reader) returns (ok: bool)
    requires s.Valid() && s.blockSize == inp.bs && s.list.blocks == r.l && Ascending(r.l) && r.cur == cur
    modifies s.list, s.list.nodes
    ensures ok == Addable(r.l, Block(r.cur, len, src), inp.bs)
    ensures ok ==> s.Valid() && s.list.blocks == Added(inp, r, len, src)
    ensures forall n :: n in s.list.nodes ==> n in old(s.list.nodes) || fresh(n)
  {
    hide Distinct, Queue, Ascending, Addable;
    ok := s.list.Add(src, len, cur);
  }

  /** What a process_*_chunk call must have done: spec is the reader after the chunk, before the block counter moves. */
  ghost predicate Processed(s: SparseFile, file: File, inp: Input, cur: u32, crc: bv32, sz: u32,
                            res: ReadResult<()>, spec: ReadResult<Reader>)
    reads s, s.list, s.list.nodes, file
  {
    && (res.Ok? ==> s.Valid()) && s.blockSize == inp.bs && file.bytes == inp.f
    && match res
       case Ok(_) => spec == Advance(Reader(file.pos, cur, crc, s.list.blocks), sz)
       case Invalid => spec == Invalid
       case Abort => spec == Abort
  }

  method ProcessRawChunk(s: SparseFile, chunkSize: u32, file: File, fd: nat, blocks: u32, cur: u32, useCrc: bool,
                         crcIn: bv32, ghost inp: Input, ghost r: Reader, ghost c: Chunk)
    returns (res: ReadResult<()>, crc: bv32)
    requires Reading(s, file, inp, r, inp.hdrSz) && r.cur == cur && r.crc == crcIn && inp.useCrc == useCrc
    requires inp.fd == fd
    requires chunkSize == ToU32(c.totalSz - inp.hdrSz) && blocks == c.chunkSz
    modifies s.list, s.list.nodes, file`pos
    ensures Processed(s, file, inp, cur, crc, c.chunkSz, res, RawChunk(inp, r, c))
    ensures forall n :: n in s.list.nodes ==> n in old(s.list.nodes) || fresh(n)
  {
    hide Distinct, List.Valid, Queue, Ascending, Addable, Added, Crc, ToU32, Advance;
    crc := crcIn;
    if s.blockSize == 0 {
      return Abort, crc;
    }
    var len := ToU32(blocks * s.blockSize);
    if chunkSize % s.blockSize != 0 {
      return Invalid, crc;
    }
    if chunkSize / s.blockSize != blocks {
      return Invalid, crc;
    }
    var added := AddNext(s, Fd(fd, file.pos), len, cur, inp, r);
    if !added {
      return Abort, crc;
    }
    if useCrc {
      var ok;
      ok, crc := HashFile(file, len, crc);
      if !ok {
        return Invalid, crc;
      }
    } else {
      file.pos := file.pos + len;
    }
    res := Ok(());
  }

  method ProcessFillChunk(s: SparseFile, chunkSize: u32, file: File, blocks: u32, cur: u32, useCrc: bool, crcIn: bv32,
                          copybuf: array<byte>, ghost inp: Input, ghost r: Reader, ghost c: Chunk)
    returns (res: ReadResult<()>, crc: bv32)
    requires Reading(s, file, inp, r, inp.hdrSz) && r.cur == cur && r.crc == crcIn && inp.useCrc == useCrc
    requires chunkSize == ToU32(c.totalSz - inp.hdrSz) && blocks == c.chunkSz
    requires copybuf.Length == COPY_BUF_SIZE
    modifies s.list, s.list.nodes, file`pos, copybuf
    ensures Processed(s, file, inp, cur, crc, c.chunkSz, res, FillChunk(inp, r, c))
    ensures forall n :: n in s.list.nodes ==> n in old(s.list.nodes) || fresh(n)
  {
    hide Distinct, List.Valid, Queue, Ascending, Addable, Added, Crc, ToU32, Advance, Pattern, Get32;
    BufferSize();
    crc := crcIn;
    var len := blocks * s.blockSize;
    if chunkSize != 4 {
      return Invalid, crc;
    }
    var ok, word := ReadAll(file, 4);
    if !ok {
      return Invalid, crc;
    }
    FieldSlice(file.bytes, file.pos - 4);
    var fillVal := Get32(word, 0);
    var added := AddNext(s, Fill(fillVal), ToU32(len), cur, inp, r);
    if !added {
      return Abort, crc;
    }
    if useCrc {
      FillWords(copybuf, fillVal);
      crc := HashBuffer(copybuf, fillVal, len, crc);
    }
    res := Ok(());
  }

  lemma FieldSlice(f: seq<byte>, pos: nat)
    requires pos + 4 <= |f|
    ensures Get32(f[pos..pos + 4], 0) == Get32(f, pos)
  {
  }

  method ProcessSkipChunk(chunkSize: u32, blocks: u32, blockSize: u32, useCrc: bool, crcIn: bv32, copybuf: array<byte>)
    returns (res: ReadResult<()>, crc: bv32)
    requires copybuf.Length == COPY_BUF_SIZE
    modifies copybuf
    ensures res == if chunkSize != 0 then Invalid else Ok(())
    ensures crc == if chunkSize == 0 && useCrc then Crc(crcIn, Zeros(blocks * blockSize)) else crcIn
  {
    hide Crc, Pattern, Zeros;
    crc := crcIn;
    if chunkSize != 0 {
      return Invalid, crc;
    }
    if useCrc {
      ClearBytes(copybuf);
      ZeroPattern(blocks * blockSize);
      crc := HashBuffer(copybuf, 0, blocks * blockSize, crc);
    }
    res := Ok(());
  }

  method ProcessCrcChunk(file: File, chunkSize: u32, useCrc: bool, crc: bv32) returns (res: ReadResult<()>)
    modifies file`pos
    ensures var off := old(file.pos);
      if chunkSize != 4 || off + 4 > |file.bytes| || (useCrc && file.bytes[off..off + 4] != CrcField(crc))
      then res == Invalid
      else res == Ok(()) && file.pos == off + 4
  {
    hide CrcField;
    if chunkSize != 4 {
      return Invalid;
    }
    var ok, fileCrc := ReadAll(file, 4);
    if !ok {
      return Invalid;
    }
    if useCrc && fileCrc != CrcField(crc) {
      return Invalid;
    }
    res := Ok(());
  }

  /** process_chunk: the result is the number of blocks to advance by. */
  method ProcessChunk(s: SparseFile, file: File, fd: nat, chunkHdrSz: nat, c: Chunk, cur: u32, useCrc: bool,
                      crcIn: bv32, copybuf: array<byte>, ghost inp: Input, ghost r: Reader)
    returns (res: ReadResult<u32>, crc: bv32)
    requires Reading(s, file, inp, r, inp.hdrSz) && r.cur == cur && r.crc == crcIn && inp.useCrc == useCrc
    requires inp.fd == fd
    requires chunkHdrSz == inp.hdrSz && copybuf.Length == COPY_BUF_SIZE
    requires r.pos + CHUNK_HEADER_LEN <= |inp.f| && c == ChunkAt(inp.f, r.pos)
    modifies s.list, s.list.nodes, file`pos, copybuf
    ensures (res.Ok? ==> s.Valid()) && file.bytes == inp.f
    ensures match res
      case Ok(n) => Step(inp, r) == Advance(Reader(file.pos, cur, crc, s.list.blocks), n)
      case Invalid => Step(inp, r) == Invalid
      case Abort => Step(inp, r) == Abort
    ensures forall n :: n in s.list.nodes ==> n in old(s.list.nodes) || fresh(n)
  {
    hide Distinct, List.Valid, Queue, Ascending, RawChunk, FillChunk, Added, Crc, ToU32, Zeros, CrcField, ChunkAt;
    SmallMod(cur);
    var dataSize := ToU32(c.totalSz - chunkHdrSz);
    var done: ReadResult<()>;
    if c.chunkType == CHUNK_TYPE_RAW {
      done, crc := ProcessRawChunk(s, dataSize, file, fd, c.chunkSz, cur, useCrc, crcIn, inp, r, c);
    } else if c.chunkType == CHUNK_TYPE_FILL {
      done, crc := ProcessFillChunk(s, dataSize, file, c.chunkSz, cur, useCrc, crcIn, copybuf, inp, r, c);
    } else if c.chunkType == CHUNK_TYPE_DONT_CARE {
      done, crc := ProcessSkipChunk(dataSize, c.chunkSz, s.blockSize, useCrc, crcIn, copybuf);
    } else if c.chunkType == CHUNK_TYPE_CRC32 {
      crc := crcIn;
      done := ProcessCrcChunk(file, dataSize, useCrc, crc);
      res := if done.Ok? then Ok(0) else Invalid;
      return;
    } else {
      return Ok(0), crcIn;
    }
    res := match done
      case Ok(_) => Ok(c.chunkSz)
      case Invalid => Invalid
      case Abort => Abort;
  }

  lemma ChunkSlice(f: seq<byte>, pos: nat)
    requires pos + CHUNK_HEADER_LEN <= |f|
    ensures ChunkAt(f[pos..pos + CHUNK_HEADER_LEN], 0) == ChunkAt(f, pos)
  {
  }

  /** One turn of the loop of sparse_file_read_sparse: the result is the new block counter. */
  method ReadChunk(s: SparseFile, file: File, fd: nat, chunkHdrSz: nat, cur: u32, useCrc: bool, crcIn: bv32,
                   copybuf: array<byte>, ghost inp: Input, ghost r: Reader)
    returns (res: ReadResult<u32>, crc: bv32)
    requires Reading(s, file, inp, r, 0) && r.cur == cur && r.crc == crcIn && inp.useCrc == useCrc && inp.fd == fd
    requires CHUNK_HEADER_LEN <= chunkHdrSz == inp.hdrSz && copybuf.Length == COPY_BUF_SIZE
    modifies s.list, s.list.nodes, file`pos, copybuf
    ensures (res.Ok? ==> s.Valid()) && file.bytes == inp.f
    ensures match res
      case Ok(n) => Step(inp, r) == Ok(Reader(file.pos, n, crc, s.list.blocks))
      case Invalid => Step(inp, r) == Invalid
      case Abort => Step(inp, r) == Abort
    ensures forall n :: n in s.list.nodes ==> n in old(s.list.nodes) || fresh(n)
  {
    hide Distinct, List.Valid, Queue, Ascending, RawChunk, FillChunk, SkipChunk, CrcChunk, Added, ChunkAt;
    crc := crcIn;
    var ok, header := ReadAll(file, CHUNK_HEADER_LEN);
    if !ok {
      return Invalid, crc;
    }
    ChunkSlice(file.bytes, r.pos);
    if chunkHdrSz > CHUNK_HEADER_LEN {
      file.pos := file.pos + (chunkHdrSz - CHUNK_HEADER_LEN);
    }
    res, crc := ProcessChunk(s, file, fd, chunkHdrSz, ChunkAt(header, 0), cur, useCrc, crcIn, copybuf, inp, r);
    if res.Ok? {
      res := if res.value > INT_MAX then Invalid else Ok(ToU32(cur + res.value));
    }
  }

  // ---- the whole file ----

  lemma StepsUnfold(inp: Input, r: Reader, n: nat)
    requires 0 < n
    ensures match Step(inp, r)
      case Ok(r') => Steps(inp, r, n) == Steps(inp, r', n - 1)
      case Invalid => Steps(inp, r, n) == Invalid
      case Abort => Steps(inp, r, n) == Abort
    ensures Ascending(r.l) && Step(inp, r).Ok? ==> Ascending(Step(inp, r).value.l)
  {
    if Ascending(r.l) && Step(inp, r).Ok? {
      StepKeepsAscending(inp, r);
    }
    hide Step, Ascending;
  }

  lemma ReadingParts(s: SparseFile, file: File, inp: Input, r: Reader)
    ensures Reading(s, file, inp, r, 0) <==>
      && s.Valid() && s.blockSize == inp.bs && s.list.blocks == r.l && Ascending(r.l)
      && file.bytes == inp.f && file.pos == r.pos
  {
    hide Ascending, List.Valid;
  }

  lemma ReadingStart(s: SparseFile, file: File, inp: Input, r: Reader)
    requires s.Valid() && s.blockSize == inp.bs && s.list.blocks == r.l == [] && file.bytes == inp.f
    requires file.pos == r.pos
    ensures Reading(s, file, inp, r, 0)
  {
  }

  /** The loop of sparse_file_read_sparse over all chunks. */
  method ReadChunks(s: SparseFile, file: File, fd: nat, chunkHdrSz: nat, totalChunks: u32, useCrc: bool,
                    copybuf: array<byte>, ghost inp: Input, ghost r0: Reader)
    returns (res: ReadResult<u32>, ghost r: Reader)
    requires Reading(s, file, inp, r0, 0) && r0.cur == 0 && r0.crc == 0 && inp.useCrc == useCrc
    requires inp.fd == fd
    requires CHUNK_HEADER_LEN <= chunkHdrSz == inp.hdrSz && copybuf.Length == COPY_BUF_SIZE
    modifies s.list, s.list.nodes, file`pos, copybuf
    ensures (res.Ok? ==> s.Valid()) && file.bytes == inp.f
    ensures match res
      case Ok(n) => Steps(inp, r0, totalChunks) == Ok(r) && r.cur == n && r.l == s.list.blocks
      case Invalid => Steps(inp, r0, totalChunks) == Invalid
      case Abort => Steps(inp, r0, totalChunks) == Abort
    ensures forall k :: 0 <= k < |s.list.nodes| ==> s.list.nodes[k] in old(s.list.nodes) || fresh(s.list.nodes[k])
  {
    hide *;
    ReadingParts(s, file, inp, r0);
    StepsNone(inp);
    var cur: u32, crc, i := 0, 0, 0;
    r := r0;
    while i < totalChunks
      invariant 0 <= i <= totalChunks && Reading(s, file, inp, r, 0) && r.cur == cur && r.crc == crc
      invariant s.Valid() && file.bytes == inp.f && r.l == s.list.blocks
      invariant Steps(inp, r, totalChunks - i) == Steps(inp, r0, totalChunks)
      invariant forall k :: 0 <= k < |s.list.nodes| ==> s.list.nodes[k] in old(s.list.nodes) || fresh(s.list.nodes[k])
    {
      StepsUnfold(inp, r, totalChunks - i);
      ReadingParts(s, file, inp, r);
      res, crc := ReadChunk(s, file, fd, chunkHdrSz, cur, useCrc, crc, copybuf, inp, r);
      assert forall k :: 0 <= k < |s.list.nodes| ==> s.list.nodes[k] in s.list.nodes;
      if !res.Ok? {
        return;
      }
      cur := res.value;
      r := Reader(file.pos, cur, crc, s.list.blocks);
      ReadingParts(s, file, inp, r);
      i := i + 1;
    }
    res := Ok(cur);
  }

  lemma StepsNone(inp: Input)
    ensures forall r :: Steps(inp, r, 0) == Ok(r)
  {
  }

  /** sparse_file_read_sparse, on a sparse file that has no blocks yet. */
  method ReadSparse(s: SparseFile, file: File, fd: nat, useCrc: bool) returns (res: ReadResult<()>)
    requires s.Valid() && s.list.blocks == [] && s.blockSize == BlkSz(file.bytes) && file.pos == 0
    modifies s.list, s.list.nodes, file`pos
    ensures (res.Ok? ==> s.Valid()) && file.bytes == old(file.bytes)
    ensures match res
      case Ok(_) => Import(file.bytes, fd, useCrc).Ok? && s.list.blocks == Import(file.bytes, fd, useCrc).value.blocks
      case Invalid => Import(file.bytes, fd, useCrc) == Invalid
      case Abort => Import(file.bytes, fd, useCrc) == Abort
    ensures forall k :: 0 <= k < |s.list.nodes| ==> s.list.nodes[k] in old(s.list.nodes) || fresh(s.list.nodes[k])
  {
    assert forall k :: 0 <= k < |s.list.nodes| ==> s.list.nodes[k] in s.list.nodes;
    hide Distinct, List.Valid, Steps, Reading, Get32, Get16;
    ghost var f := file.bytes;
    var copybuf := new byte[COPY_BUF_SIZE];
    var ok, header := ReadAll(file, SPARSE_HEADER_LEN);
    if !ok {
      return Invalid;
    }
    HeaderSlice(f);
    if !HeaderOk(header) {
      return Invalid;
    }
    if FileHdrSz(header) > SPARSE_HEADER_LEN {
      file.pos := file.pos + (FileHdrSz(header) - SPARSE_HEADER_LEN);
    }
    ghost var inp, r0, r := InputOf(f, fd, useCrc), StartOf(f), StartOf(f);
    ReadingStart(s, file, inp, r0);
    var counted;
    counted, r := ReadChunks(s, file, fd, ChunkHdrSz(header), TotalChunks(header), useCrc, copybuf, inp, r0);
    res := match counted
      case Ok(cur) => if TotalBlks(header) != cur then Invalid else Ok(())
      case Invalid => Invalid
      case Abort => Abort;
  }

  /** The header read from a file has the fields of the file. */
  lemma HeaderSlice(f: seq<byte>)
    requires SPARSE_HEADER_LEN <= |f|
    ensures var h := f[0..SPARSE_HEADER_LEN];
      && (HeaderOk(h) <==> HeaderOk(f)) && FileHdrSz(h) == FileHdrSz(f) && ChunkHdrSz(h) == ChunkHdrSz(f)
      && BlkSz(h) == BlkSz(f) && TotalBlks(h) == TotalBlks(f) && TotalChunks(h) == TotalChunks(f)
  {
    var h := f[0..SPARSE_HEADER_LEN];
    assert forall i: nat :: i < SPARSE_HEADER_LEN ==> At(h, i) == At(f, i);
    hide At;
  }

  /** sparse_file_import: a new sparse file with the blocks that the file describes, or none. */
  method ImportFile(file: File, fd: nat, useCrc: bool) returns (res: ReadResult<SparseFile>)
    requires file.pos == 0
    modifies file`pos
    ensures file.bytes == old(file.bytes)
    ensures match res
      case Ok(s) => fresh(s) && fresh(s.list) && s.Valid() &&
        (forall k :: 0 <= k < |s.list.nodes| ==> fresh(s.list.nodes[k]))
        && Import(file.bytes, fd, useCrc) == Ok(Imported(s.blockSize, s.len, s.list.blocks))
      case Invalid => Import(file.bytes, fd, useCrc) == Invalid
      case Abort => Import(file.bytes, fd, useCrc) == Abort
  {
    hide Distinct, List.Valid, Steps, Get32, Get16;
    var ok, header := ReadAll(file, SPARSE_HEADER_LEN);
    if !ok {
      return Invalid;
    }
    HeaderSlice(file.bytes);
    if !HeaderOk(header) {
      return Invalid;
    }
    MulMono(0, TotalBlks(header), BlkSz(header));
    var s := new SparseFile(BlkSz(header), TotalBlks(header) * BlkSz(header));
    file.pos := 0;
    var read := ReadSparse(s, file, fd, useCrc);
    res := match read
      case Ok(_) => Ok(s)
      case Invalid => Invalid
      case Abort => Abort;
  }
}
