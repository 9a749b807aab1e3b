/** Android boot images: page-aligned parts behind a header, updated in place by abootimg. */
module BootImage {
  import opened Defs
  import opened OutputFile

  const BOOT_MAGIC: seq<byte> := [0x41, 0x4E, 0x44, 0x52, 0x4F, 0x49, 0x44, 0x21]
  const BOOT_NAME_SIZE: nat := 16
  const BOOT_ARGS_SIZE: nat := 512
  const HEADER_LEN: nat := 608

  // ---- the header ----

  datatype Header = Header(
    magic: seq<byte>,
    kernelSize: u32, kernelAddr: u32,
    ramdiskSize: u32, ramdiskAddr: u32,
    secondSize: u32, secondAddr: u32,
    tagsAddr: u32, pageSize: u32,
    unused: seq<byte>, name: seq<byte>, cmdline: seq<byte>, id: seq<byte>)

  /** The fixed sizes of the fields that are byte arrays. */
  predicate ValidHeader(h: Header) {
    |h.magic| == 8 && |h.unused| == 8 && |h.name| == BOOT_NAME_SIZE && |h.cmdline| == BOOT_ARGS_SIZE && |h.id| == 32
  }

  function Words(h: Header): (r: seq<byte>)
    ensures |r| == 32
  {
    Le32(h.kernelSize) + Le32(h.kernelAddr) + Le32(h.ramdiskSize) + Le32(h.ramdiskAddr)
    + Le32(h.secondSize) + Le32(h.secondAddr) + Le32(h.tagsAddr) + Le32(h.pageSize)
  }

  function HeaderBytes(h: Header): (r: seq<byte>)
    requires ValidHeader(h)
    ensures |r| == HEADER_LEN
  {
    h.magic + Words(h) + (h.unused + h.name + h.cmdline + h.id)
  }

  function HeaderOf(f: seq<byte>): (h: Header)
    requires HEADER_LEN <= |f|
    ensures ValidHeader(h)
  {
    Header(f[0..8], Get32(f, 8), Get32(f, 12), Get32(f, 16), Get32(f, 20),
           Get32(f, 24), Get32(f, 28), Get32(f, 32), Get32(f, 36),
           f[40..48], f[48..64], f[64..576], f[576..608])
  }

  lemma FourWords(a: seq<byte>, b: seq<byte>, c: seq<byte>, d: seq<byte>, k: nat)
    requires |a| == |b| == |c| == |d| == 4 && k < 4
    ensures (a + b + c + d)[4 * k..4 * k + 4] == [a, b, c, d][k]
  {
    var s := a + b + c + d;
    assert s[0..4] == a && s[4..8] == b;
    assert s[8..12] == c && s[12..16] == d;
  }

  lemma WordSlice(h: Header, k: nat, w: u32)
    requires k < 8
    requires w == [h.kernelSize, h.kernelAddr, h.ramdiskSize, h.ramdiskAddr, h.secondSize, h.secondAddr, h.tagsAddr,
      h.pageSize][k]
    ensures Words(h)[4 * k..4 * k + 4] == Le32(w)
  {
    FourBytes();
    hide Le32;
    var a := Le32(h.kernelSize) + Le32(h.kernelAddr) + Le32(h.ramdiskSize) + Le32(h.ramdiskAddr);
    var b := Le32(h.secondSize) + Le32(h.secondAddr) + Le32(h.tagsAddr) + Le32(h.pageSize);
    assert Words(h) == a + b;
    if k < 4 {
      FourWords(Le32(h.kernelSize), Le32(h.kernelAddr), Le32(h.ramdiskSize), Le32(h.ramdiskAddr), k);
      assert (a + b)[4 * k..4 * k + 4] == a[4 * k..4 * k + 4];
    } else {
      FourWords(Le32(h.secondSize), Le32(h.secondAddr), Le32(h.tagsAddr), Le32(h.pageSize), k - 4);
      assert (a + b)[4 * k..4 * k + 4] == b[4 * (k - 4)..4 * (k - 4) + 4];
    }
  }

  /** Word k of the header. */
  lemma WordAt(h: Header, f: seq<byte>, k: nat, w: u32)
    requires ValidHeader(h) && HEADER_LEN <= |f| && f[..HEADER_LEN] == HeaderBytes(h) && k < 8
    requires w == [h.kernelSize, h.kernelAddr, h.ramdiskSize, h.ramdiskAddr, h.secondSize, h.secondAddr, h.tagsAddr,
      h.pageSize][k]
    ensures Get32(f, 8 + 4 * k) == w
  {
    WordSlice(h, k, w);
    WordsInHeader(h, f);
    hide *;
    WordRead(f, Words(h), k, w);
  }

  lemma WordRead(f: seq<byte>, words: seq<byte>, k: nat, w: u32)
    requires HEADER_LEN <= |f| && f[8..40] == words && k < 8 && words[4 * k..4 * k + 4] == Le32(w)
    ensures Get32(f, 8 + 4 * k) == w
  {
    hide Le32, Get32;
    var at := f[8 + 4 * k..8 + 4 * k + 4];
    assert |at| == 4 && forall i :: 0 <= i < 4 ==> at[i] == f[8..40][4 * k + i] == words[4 * k..4 * k + 4][i];
    assert at == words[4 * k..4 * k + 4];
    Get32Le32(w, f, 8 + 4 * k);
    SmallMod(w);
  }

  lemma WordsInHeader(h: Header, f: seq<byte>)
    requires ValidHeader(h) && HEADER_LEN <= |f| && f[..HEADER_LEN] == HeaderBytes(h)
    ensures f[8..40] == Words(h)
  {
    hide Words;
    assert f[8..40] == f[..HEADER_LEN][8..40];
  }

  lemma FourBytes()
    ensures forall n: nat :: |Le32(n)| == 4
  {
  }

  lemma WordsRead(h: Header, f: seq<byte>)
    requires ValidHeader(h) && HEADER_LEN <= |f| && f[..HEADER_LEN] == HeaderBytes(h)
    ensures Get32(f, 8) == h.kernelSize && Get32(f, 12) == h.kernelAddr && Get32(f, 16) == h.ramdiskSize
    ensures Get32(f, 20) == h.ramdiskAddr && Get32(f, 24) == h.secondSize && Get32(f, 28) == h.secondAddr
    ensures Get32(f, 32) == h.tagsAddr && Get32(f, 36) == h.pageSize
  {
    hide ValidHeader, HeaderBytes, Get32;
    WordAt(h, f, 0, h.kernelSize);
    WordAt(h, f, 1, h.kernelAddr);
    WordAt(h, f, 2, h.ramdiskSize);
    WordAt(h, f, 3, h.ramdiskAddr);
    WordAt(h, f, 4, h.secondSize);
    WordAt(h, f, 5, h.secondAddr);
    WordAt(h, f, 6, h.tagsAddr);
    WordAt(h, f, 7, h.pageSize);
  }

  lemma ArraysRead(h: Header, f: seq<byte>)
    requires ValidHeader(h) && HEADER_LEN <= |f| && f[..HEADER_LEN] == HeaderBytes(h)
    ensures f[0..8] == h.magic && f[40..48] == h.unused && f[48..64] == h.name && f[64..576] == h.cmdline
    ensures f[576..608] == h.id
  {
    hide Words;
    var g, tail := f[..HEADER_LEN], h.unused + h.name + h.cmdline + h.id;
    assert g[40..] == tail;
    assert f[0..8] == g[0..8];
    assert f[40..48] == tail[0..8] && f[48..64] == tail[8..24];
    assert f[64..576] == tail[24..536] && f[576..608] == tail[536..568];
  }

  /** A header that was written is read back as it was. */
  lemma HeaderRoundTrip(h: Header, f: seq<byte>)
    requires ValidHeader(h) && HEADER_LEN <= |f| && f[..HEADER_LEN] == HeaderBytes(h)
    ensures HeaderOf(f) == h
  {
    hide HeaderBytes, Get32;
    WordsRead(h, f);
    ArraysRead(h, f);
  }

  /** Where each field of a header lies. */
  lemma HeaderLayout(h: Header)
    requires ValidHeader(h)
    ensures var f := HeaderBytes(h);
      && f[0..8] == h.magic && f[8..12] == Le32(h.kernelSize) && f[12..16] == Le32(h.kernelAddr)
      && f[16..20] == Le32(h.ramdiskSize) && f[20..24] == Le32(h.ramdiskAddr) && f[24..28] == Le32(h.secondSize)
      && f[28..32] == Le32(h.secondAddr) && f[32..36] == Le32(h.tagsAddr) && f[36..40] == Le32(h.pageSize)
      && f[40..48] == h.unused && f[48..64] == h.name && f[64..576] == h.cmdline && f[576..608] == h.id && |f| == 608
  {
    FourBytes();
    hide Le32;
    var f, w := HeaderBytes(h), Words(h);
    assert f[8..40] == w;
    assert w[0..4] == Le32(h.kernelSize) && w[4..8] == Le32(h.kernelAddr) && w[8..12] == Le32(h.ramdiskSize);
    assert w[12..16] == Le32(h.ramdiskAddr) && w[16..20] == Le32(h.secondSize) && w[20..24] == Le32(h.secondAddr);
    assert w[24..28] == Le32(h.tagsAddr) && w[28..32] == Le32(h.pageSize);
    hide Words;
    assert f[8..12] == f[8..40][0..4] && f[12..16] == f[8..40][4..8] && f[16..20] == f[8..40][8..12];
    assert f[20..24] == f[8..40][12..16] && f[24..28] == f[8..40][16..20] && f[28..32] == f[8..40][20..24];
    assert f[32..36] == f[8..40][24..28] && f[36..40] == f[8..40][28..32];
    assert f[..608] == f;
    ArraysRead(h, f);
  }

  // ---- the layout, at `unsigned` width ----

  function Pages(size: u32, psize: u32): u32
    requires 0 < psize
  {
    DivRoundUp32(size, psize)
  }

  function RamdiskOffset(h: Header): u32
    requires 0 < h.pageSize
  {
    ToU32((1 + Pages(h.kernelSize, h.pageSize)) * h.pageSize)
  }

  function SecondOffset(h: Header): u32
    requires 0 < h.pageSize
  {
    ToU32((1 + Pages(h.kernelSize, h.pageSize) + Pages(h.ramdiskSize, h.pageSize)) * h.pageSize)
  }

  function TotalSize(h: Header): u32
    requires 0 < h.pageSize
  {
    ToU32((1 + Pages(h.kernelSize, h.pageSize) + Pages(h.ramdiskSize, h.pageSize) + Pages(h.secondSize, h.pageSize))
          * h.pageSize)
  }

  /** check_boot_img_header. */
  predicate CheckHeader(h: Header, size: u32) {
    && h.magic == BOOT_MAGIC && h.kernelSize != 0 && h.ramdiskSize != 0 && h.pageSize != 0
    && TotalSize(h) <= size
  }

  /** None of the sums and products above wraps, and the header fits in its page. */
  predicate Sane(h: Header) {
    && HEADER_LEN <= h.pageSize
    && h.kernelSize + h.pageSize <= U32 && h.ramdiskSize + h.pageSize <= U32 && h.secondSize + h.pageSize <= U32
    && (1 + DivRoundUp(h.kernelSize, h.pageSize) + DivRoundUp(h.ramdiskSize, h.pageSize)
        + DivRoundUp(h.secondSize, h.pageSize))
       * h.pageSize < U32
  }

  lemma SanePage(h: Header)
    requires Sane(h)
    ensures HEADER_LEN <= h.pageSize && 0 < h.pageSize
  {
  }

  /** In a sane image the parts lie behind each other, each in whole pages. */
  lemma RegionsMeet(h: Header)
    requires Sane(h)
    ensures RamdiskOffset(h) == h.pageSize + Align(h.kernelSize, h.pageSize)
    ensures SecondOffset(h) == RamdiskOffset(h) + Align(h.ramdiskSize, h.pageSize)
    ensures TotalSize(h) == SecondOffset(h) + Align(h.secondSize, h.pageSize)
  {
    hide *;
    SanePage(h);
    var p, n, m, o := h.pageSize, DivRoundUp(h.kernelSize, h.pageSize), DivRoundUp(h.ramdiskSize, h.pageSize),
      DivRoundUp(h.secondSize, h.pageSize);
    SanePages(h);
    AlignBounds(h.kernelSize, p);
    AlignBounds(h.ramdiskSize, p);
    AlignBounds(h.secondSize, p);
    Distribute(1, n, p);
    Distribute(1 + n, m, p);
    Distribute(1 + n + m, o, p);
    MulMono(0, n, p);
    MulMono(0, m, p);
    MulMono(0, o, p);
    SmallMod((1 + n) * p);
    SmallMod((1 + n + m) * p);
    SmallMod((1 + n + m + o) * p);
  }

  /** The offsets in terms of unbounded page counts. */
  lemma SanePages(h: Header)
    requires Sane(h)
    ensures 0 < h.pageSize
    ensures var p, n, m, o := h.pageSize, DivRoundUp(h.kernelSize, h.pageSize), DivRoundUp(h.ramdiskSize, h.pageSize),
              DivRoundUp(h.secondSize, h.pageSize);
      && (1 + n + m + o) * p < U32 && RamdiskOffset(h) == ToU32((1 + n) * p)
      && SecondOffset(h) == ToU32((1 + n + m) * p)
      && TotalSize(h) == ToU32((1 + n + m + o) * p)
  {
    Align32Exact(h.kernelSize, h.pageSize);
    Align32Exact(h.ramdiskSize, h.pageSize);
    Align32Exact(h.secondSize, h.pageSize);
    hide DivRoundUp, DivRoundUp32, Align, ToU32;
  }

  /** A sane header passes the check exactly when it has the magic, a kernel, a ramdisk, and room for all its pages. */
  lemma CheckHeaderExactly(h: Header, size: u32)
    requires Sane(h)
    ensures CheckHeader(h, size) <==>
      && h.magic == [0x41, 0x4E, 0x44, 0x52, 0x4F, 0x49, 0x44, 0x21] && 0 < h.kernelSize && 0 < h.ramdiskSize
      && h.pageSize + Align(h.kernelSize, h.pageSize) + Align(h.ramdiskSize, h.pageSize)
         + Align(h.secondSize, h.pageSize) <= size
  {
    RegionsMeet(h);
    hide RamdiskOffset, SecondOffset, TotalSize, Align;
  }

  /** Every part starts at or after the end of the one before, and the last ends within the total. */
  lemma RegionsInOrder(h: Header)
    requires Sane(h)
    ensures h.pageSize + h.kernelSize <= RamdiskOffset(h)
    ensures RamdiskOffset(h) + h.ramdiskSize <= SecondOffset(h)
    ensures SecondOffset(h) + h.secondSize <= TotalSize(h)
  {
    RegionsMeet(h);
    AlignBounds(h.kernelSize, h.pageSize);
    AlignBounds(h.ramdiskSize, h.pageSize);
    AlignBounds(h.secondSize, h.pageSize);
    hide RamdiskOffset, SecondOffset, TotalSize, Align, DivRoundUp;
  }

  // ---- reading and extracting ----

  /** fread of one item of n bytes at an offset: nothing is read at all when n is zero. */
  function ReadAt(f: seq<byte>, off: nat, n: nat): Option<seq<byte>> {
    if n == 0 || off + n > |f| then None else Some(f[off..off + n])
  }

  function KernelIn(f: seq<byte>, h: Header): Option<seq<byte>> {
    ReadAt(f, h.pageSize, h.kernelSize)
  }

  function RamdiskIn(f: seq<byte>, h: Header): Option<seq<byte>>
    requires 0 < h.pageSize
  {
    ReadAt(f, RamdiskOffset(h), h.ramdiskSize)
  }

  function SecondIn(f: seq<byte>, h: Header): Option<seq<byte>>
    requires 0 < h.pageSize
  {
    ReadAt(f, SecondOffset(h), h.secondSize)
  }

  /** Extracting the second stage: its buffer is allocated with the size of the kernel. */
  datatype Extraction = Absent | Extracted(bytes: seq<byte>) | Failed | TooLarge

  function ExtractSecond(f: seq<byte>, h: Header): Extraction
    requires 0 < h.pageSize
  {
    if h.secondSize == 0 then Absent
    else if h.secondSize > h.kernelSize then TooLarge
    else match SecondIn(f, h)
      case Some(b) => Extracted(b)
      case None => Failed
  }

  // ---- updating ----

  /** The part files given on the command line. */
  datatype Parts = Parts(kernel: Option<seq<byte>>, ramdisk: Option<seq<byte>>, second: Option<seq<byte>>)

  /** The fields of t_abootimg that the update works on, with the contents of the stream. */
  datatype Img = Img(size: u32, header: Header, kernel: Option<seq<byte>>, ramdisk: Option<seq<byte>>,
                     second: Option<seq<byte>>, bytes: seq<byte>)

  /** Reading a part file: its length is kept in an `unsigned`, and an empty read fails. */
  function PartOf(f: seq<byte>): Option<seq<byte>> {
    ReadAt(f, 0, ToU32(|f|))
  }

  /** The kernel step of update_images. */
  function WithKernel(img: Img, parts: Parts): Option<Img> {
    if parts.kernel.None? then Some(img)
    else match PartOf(parts.kernel.value)
      case Some(k) => Some(img.(kernel := Some(k), header := img.header.(kernelSize := ToU32(|k|))))
      case None => None
  }

  /** The ramdisk step: a new one, or the old one read again when the kernel was loaded. */
  function WithRamdisk(img: Img, parts: Parts, was: Header): Option<Img>
    requires 0 < was.pageSize
  {
    if parts.ramdisk.Some? then
      match PartOf(parts.ramdisk.value)
      case Some(r) => Some(img.(ramdisk := Some(r), header := img.header.(ramdiskSize := ToU32(|r|))))
      case None => None
    else if img.kernel.Some? then
      match RamdiskIn(img.bytes, was)
      case Some(r) => Some(img.(ramdisk := Some(r)))
      case None => None
    else Some(img)
  }

  /** The second-stage step: a new one, or the old one read again when the ramdisk was loaded. */
  function WithSecond(img: Img, parts: Parts, was: Header): Option<Img>
    requires 0 < was.pageSize
  {
    if parts.second.Some? then
      match PartOf(parts.second.value)
      case Some(s) => Some(img.(second := Some(s), header := img.header.(secondSize := ToU32(|s|))))
      case None => None
    else if img.ramdisk.Some? && img.header.secondSize != 0 then
      match SecondIn(img.bytes, was)
      case Some(s) => Some(img.(second := Some(s)))
      case None => None
    else Some(img)
  }

  /** The size check at the end of update_images. */
  function WithSize(img: Img): Option<Img>
    requires 0 < img.header.pageSize
  {
    if img.size == 0 then Some(img.(size := TotalSize(img.header)))
    else if TotalSize(img.header) > img.size then None
    else Some(img)
  }

  /** update_images; None when it gives up. */
  function Updated(img: Img, parts: Parts): Option<Img> {
    if img.header.pageSize == 0 then None
    else match WithKernel(img, parts)
      case None => None
      case Some(a) =>
        match WithRamdisk(a, parts, img.header)
        case None => None
        case Some(b) =>
          match WithSecond(b, parts, img.header)
          case None => None
          case Some(c) => WithSize(c)
  }

  /** A part and its padding: a whole page of padding when the part already ends on a page. */
  function PaddedPart(d: seq<byte>, psize: nat): (r: seq<byte>)
    requires 0 < psize
    ensures |r| >= |d| && r[..|d|] == d
  {
    d + Zeros(psize - |d| % psize)
  }

  /** write_bootimg up to the header and its padding, then the kernel, then the ramdisk. */
  function HeaderPut(img: Img): seq<byte>
    requires ValidHeader(img.header) && HEADER_LEN <= img.header.pageSize
  {
    WriteAt(img.bytes, 0, HeaderBytes(img.header) + Zeros(img.header.pageSize - HEADER_LEN))
  }

  function KernelPut(img: Img): seq<byte>
    requires ValidHeader(img.header) && HEADER_LEN <= img.header.pageSize
  {
    var psize := img.header.pageSize;
    if img.kernel.Some? then WriteAt(HeaderPut(img), psize, PaddedPart(img.kernel.value, psize)) else HeaderPut(img)
  }

  function RamdiskPut(img: Img): seq<byte>
    requires ValidHeader(img.header) && HEADER_LEN <= img.header.pageSize
  {
    if img.ramdisk.Some?
    then WriteAt(KernelPut(img), RamdiskOffset(img.header), PaddedPart(img.ramdisk.value, img.header.pageSize))
    else KernelPut(img)
  }

  /** The file when all of it has been written before the truncation; None when a second stage was never loaded. */
  function SettledImage(img: Img): Option<seq<byte>>
    requires ValidHeader(img.header) && HEADER_LEN <= img.header.pageSize
  {
    var h := img.header;
    if h.secondSize == 0 then Some(Truncate(RamdiskPut(img), img.size))
    else if img.second.None? then None
    else Some(Truncate(WriteAt(RamdiskPut(img), SecondOffset(h), PaddedPart(img.second.value, h.pageSize)), img.size))
  }

  /** What was written since the last seek: the file before it, where it starts, and its bytes. */
  datatype Tail = Tail(base: seq<byte>, start: nat, data: seq<byte>)

  function LastWrites(img: Img): Tail
    requires ValidHeader(img.header) && HEADER_LEN <= img.header.pageSize
    requires img.header.secondSize != 0 ==> img.second.Some?
  {
    var h := img.header;
    if h.secondSize != 0 then Tail(RamdiskPut(img), SecondOffset(h), PaddedPart(img.second.value, h.pageSize))
    else if img.ramdisk.Some? then Tail(KernelPut(img), RamdiskOffset(h), PaddedPart(img.ramdisk.value, h.pageSize))
    else Tail(img.bytes, 0, FrontBytes(img))
  }

  /** The header and its padding, and the kernel behind it: written without a seek. */
  function FrontBytes(img: Img): seq<byte>
    requires ValidHeader(img.header) && HEADER_LEN <= img.header.pageSize
  {
    HeaderBytes(img.header) + Zeros(img.header.pageSize - HEADER_LEN)
    + (if img.kernel.Some? then PaddedPart(img.kernel.value, img.header.pageSize) else [])
  }

  /** Truncation to size while the last `pending` bytes still wait in the stream's buffer; they are written after it. */
  function Flushed(t: Tail, size: nat, pending: nat): seq<byte> {
    var cut := |t.data| - Min(pending, |t.data|);
    WriteAt(Truncate(WriteAt(t.base, t.start, t.data[..cut]), size), t.start + cut, t.data[cut..])
  }

  /** write_bootimg: the truncation goes past the stream, whose buffer is flushed only when the program exits. */
  function WrittenImage(img: Img, pending: nat): Option<seq<byte>>
    requires ValidHeader(img.header) && HEADER_LEN <= img.header.pageSize
  {
    if img.header.secondSize != 0 && img.second.None? then None else Some(Flushed(LastWrites(img), img.size, pending))
  }

  // ---- regions of a file through writes ----

  /** Bytes before or after what is written are kept. */
  lemma RegionKept(f: seq<byte>, pos: nat, d: seq<byte>, off: nat, n: nat)
    requires off + n <= |f| && (off + n <= pos || pos + |d| <= off)
    ensures off + n <= |WriteAt(f, pos, d)| && ReadAt(WriteAt(f, pos, d), off, n) == ReadAt(f, off, n)
  {
    var g := WriteAt(f, pos, d);
    assert g[off..off + n] == f[off..off + n];
  }

  /** A part is read back whatever follows it in the same write. */
  lemma RegionWritten(f: seq<byte>, pos: nat, d: seq<byte>, psize: nat)
    requires 0 < psize && d != []
    ensures pos + |d| <= |WriteAt(f, pos, PaddedPart(d, psize))|
    ensures ReadAt(WriteAt(f, pos, PaddedPart(d, psize)), pos, |d|) == Some(d)
  {
    var e := PaddedPart(d, psize);
    var g := WriteAt(f, pos, e);
    assert e[..|d|] == d;
    hide PaddedPart;
    assert forall i :: 0 <= i < |d| ==> g[pos + i] == e[i] == d[i];
    assert g[pos..pos + |d|] == d;
  }

  lemma RegionTruncated(f: seq<byte>, size: nat, off: nat, n: nat)
    requires off + n <= |f| && off + n <= size
    ensures ReadAt(Truncate(f, size), off, n) == ReadAt(f, off, n)
  {
    assert Truncate(f, size)[off..off + n] == f[off..off + n];
  }

  lemma PartLength(f: seq<byte>)
    requires PartOf(f).Some?
    ensures 0 < |PartOf(f).value| == ToU32(|f|)
  {
  }

  lemma ReadLength(f: seq<byte>, off: nat, n: nat)
    requires ReadAt(f, off, n).Some?
    ensures |ReadAt(f, off, n).value| == n && 0 < n && off + n <= |f|
  {
  }

  // ---- what an update loads ----

  /** An image that has just been opened: nothing loaded yet. */
  predicate Opened(img: Img) {
    img.kernel == None && img.ramdisk == None && img.second == None && ValidHeader(img.header) &&
      0 < img.header.pageSize
  }

  /** The part that belongs in the updated image: the new one when it is given, otherwise the old one. */
  function Wanted(part: Option<seq<byte>>, was: Option<seq<byte>>): Option<seq<byte>> {
    if part.Some? then PartOf(part.value) else was
  }

  predicate Loaded(img: Img, parts: Parts, c: Img)
    requires 0 < img.header.pageSize
  {
    var h, g := img.header, c.header;
    && c.bytes == img.bytes
    && g == h.(kernelSize := g.kernelSize, ramdiskSize := g.ramdiskSize, secondSize := g.secondSize)
    && (if parts.kernel.Some? then
          c.kernel == PartOf(parts.kernel.value) && c.kernel.Some? && g.kernelSize == |c.kernel.value|
        else c.kernel == None && g.kernelSize == h.kernelSize)
    && (if parts.kernel.Some? || parts.ramdisk.Some? then
          c.ramdisk == Wanted(parts.ramdisk, RamdiskIn(img.bytes, h)) && c.ramdisk.Some?
          && g.ramdiskSize == |c.ramdisk.value|
        else c.ramdisk == None && g.ramdiskSize == h.ramdiskSize)
    && (if parts.second.Some? || (c.ramdisk.Some? && h.secondSize != 0) then
          c.second == Wanted(parts.second, SecondIn(img.bytes, h)) && c.second.Some? && g.secondSize == |c.second.value|
        else c.second == None && g.secondSize == h.secondSize)
    && TotalSize(g) <= c.size && (img.size != 0 ==> c.size == img.size)
  }

  lemma LengthField(f: seq<byte>)
    requires PartOf(f).Some?
    ensures ToU32(|PartOf(f).value|) == |PartOf(f).value|
  {
    PartLength(f);
  }

  lemma UpdatedLoads(img: Img, parts: Parts)
    requires Opened(img) && Updated(img, parts).Some?
    ensures Loaded(img, parts, Updated(img, parts).value)
  {
    if parts.kernel.Some? {
      LengthField(parts.kernel.value);
    }
    if parts.ramdisk.Some? {
      LengthField(parts.ramdisk.value);
    } else if parts.kernel.Some? {
      ReadLength(img.bytes, RamdiskOffset(img.header), img.header.ramdiskSize);
    }
    if parts.second.Some? {
      LengthField(parts.second.value);
    } else if parts.kernel.Some? || parts.ramdisk.Some? {
      if img.header.secondSize != 0 {
        ReadLength(img.bytes, SecondOffset(img.header), img.header.secondSize);
      }
    }
    hide TotalSize, RamdiskOffset, SecondOffset, PartOf, ReadAt, ToU32, ValidHeader;
  }

  // ---- what an update leaves behind ----

  /** What a region of the file holds, and that it lies inside the file. */
  predicate Holding(f: seq<byte>, off: nat, n: nat, d: Option<seq<byte>>) {
    off + n <= |f| && ReadAt(f, off, n) == d
  }

  lemma StillHolding(f: seq<byte>, pos: nat, d: seq<byte>, off: nat, n: nat, v: Option<seq<byte>>)
    requires Holding(f, off, n, v) && (off + n <= pos || pos + |d| <= off)
    ensures Holding(WriteAt(f, pos, d), off, n, v)
  {
    RegionKept(f, pos, d, off, n);
  }

  lemma NowHolding(f: seq<byte>, pos: nat, d: seq<byte>, psize: nat)
    requires 0 < psize && d != []
    ensures Holding(WriteAt(f, pos, PaddedPart(d, psize)), pos, |d|, Some(d))
  {
    RegionWritten(f, pos, d, psize);
  }

  /** The last steps of write_bootimg: the second stage, if any, and the truncation. */
  lemma LastSteps(c: Img, off: nat, n: nat, v: Option<seq<byte>>)
    requires ValidHeader(c.header) && Sane(c.header) && TotalSize(c.header) <= c.size && SettledImage(c).Some?
    requires Holding(RamdiskPut(c), off, n, v) && off + n <= SecondOffset(c.header)
    ensures ReadAt(SettledImage(c).value, off, n) == v
  {
    var h := c.header;
    RegionsInOrder(h);
    hide ReadAt, WriteAt, Truncate, PaddedPart, TotalSize, RamdiskOffset, SecondOffset, RamdiskPut, Sane, ValidHeader;
    if h.secondSize == 0 {
      RegionTruncated(RamdiskPut(c), c.size, off, n);
    } else {
      var d := PaddedPart(c.second.value, h.pageSize);
      StillHolding(RamdiskPut(c), SecondOffset(h), d, off, n, v);
      RegionTruncated(WriteAt(RamdiskPut(c), SecondOffset(h), d), c.size, off, n);
    }
  }

  /** The header goes in front of everything that was not loaded. */
  lemma HeaderKeeps(c: Img, off: nat, n: nat, v: Option<seq<byte>>)
    requires ValidHeader(c.header) && HEADER_LEN <= c.header.pageSize <= off && Holding(c.bytes, off, n, v)
    ensures Holding(HeaderPut(c), off, n, v)
  {
    hide ReadAt, WriteAt, HeaderBytes, ValidHeader;
    StillHolding(c.bytes, 0, HeaderBytes(c.header) + Zeros(c.header.pageSize - HEADER_LEN), off, n, v);
  }

  lemma KernelStays(img: Img, parts: Parts, c: Img)
    requires Opened(img) && Sane(c.header) && Loaded(img, parts, c)
    requires parts.kernel.None? ==> KernelIn(img.bytes, img.header).Some?
    ensures ValidHeader(c.header)
    ensures Holding(RamdiskPut(c), c.header.pageSize, c.header.kernelSize,
      Wanted(parts.kernel, KernelIn(img.bytes, img.header)))
  {
    var h := c.header;
    RegionsInOrder(h);
    if parts.kernel.Some? {
      PartLength(parts.kernel.value);
      NowHolding(HeaderPut(c), h.pageSize, c.kernel.value, h.pageSize);
    } else {
      ReadLength(img.bytes, h.pageSize, h.kernelSize);
      HeaderKeeps(c, h.pageSize, h.kernelSize, KernelIn(img.bytes, img.header));
    }
    hide ReadAt, WriteAt, PaddedPart, HeaderPut, RamdiskOffset, SecondOffset, TotalSize, PartOf;
    if c.ramdisk.Some? {
      StillHolding(KernelPut(c), RamdiskOffset(h), PaddedPart(c.ramdisk.value, h.pageSize), h.pageSize, h.kernelSize,
                   Wanted(parts.kernel, KernelIn(img.bytes, img.header)));
    }
  }

  lemma RamdiskStays(img: Img, parts: Parts, c: Img)
    requires Opened(img) && Sane(c.header) && Loaded(img, parts, c)
    requires parts.kernel.None? && parts.ramdisk.None? ==> RamdiskIn(img.bytes, img.header).Some?
    ensures ValidHeader(c.header)
    ensures Holding(RamdiskPut(c), RamdiskOffset(c.header), c.header.ramdiskSize,
      Wanted(parts.ramdisk, RamdiskIn(img.bytes, img.header)))
  {
    var h := c.header;
    RegionsInOrder(h);
    if c.ramdisk.Some? {
      if parts.ramdisk.Some? {
        PartLength(parts.ramdisk.value);
      } else {
        ReadLength(img.bytes, RamdiskOffset(img.header), img.header.ramdiskSize);
      }
      NowHolding(KernelPut(c), RamdiskOffset(h), c.ramdisk.value, h.pageSize);
    } else {
      assert RamdiskOffset(h) == RamdiskOffset(img.header);
      ReadLength(img.bytes, RamdiskOffset(h), h.ramdiskSize);
      HeaderKeeps(c, RamdiskOffset(h), h.ramdiskSize, RamdiskIn(img.bytes, img.header));
    }
    hide ReadAt, WriteAt, PaddedPart, HeaderPut, RamdiskOffset, SecondOffset, TotalSize, PartOf;
  }

  lemma HeaderStays(c: Img)
    requires ValidHeader(c.header) && Sane(c.header)
    ensures Holding(RamdiskPut(c), 0, HEADER_LEN, Some(HeaderBytes(c.header)))
  {
    var h, zeros := c.header, Zeros(c.header.pageSize - HEADER_LEN);
    RegionsInOrder(h);
    var d := HeaderBytes(h);
    hide HeaderBytes, PaddedPart, RamdiskOffset, SecondOffset, TotalSize, ValidHeader;
    var f := WriteAt(c.bytes, 0, d + zeros);
    assert f[0..HEADER_LEN] == d;
    hide ReadAt, WriteAt;
    if c.kernel.Some? {
      StillHolding(HeaderPut(c), h.pageSize, PaddedPart(c.kernel.value, h.pageSize), 0, HEADER_LEN, Some(d));
    }
    if c.ramdisk.Some? {
      StillHolding(KernelPut(c), RamdiskOffset(h), PaddedPart(c.ramdisk.value, h.pageSize), 0, HEADER_LEN, Some(d));
    }
  }

  lemma SecondStays(img: Img, parts: Parts, c: Img)
    requires Opened(img) && Sane(c.header) && Loaded(img, parts, c) && ValidHeader(c.header) && SettledImage(c).Some?
    ensures ReadAt(SettledImage(c).value, SecondOffset(c.header), c.header.secondSize) ==
      Wanted(parts.second, SecondIn(img.bytes, img.header))
  {
    var h := c.header;
    RegionsInOrder(h);
    if parts.second.Some? {
      PartLength(parts.second.value);
    }
    if h.secondSize != 0 {
      if parts.second.None? {
        ReadLength(img.bytes, SecondOffset(img.header), img.header.secondSize);
      }
      NowHolding(RamdiskPut(c), SecondOffset(h), c.second.value, h.pageSize);
      RegionTruncated(WriteAt(RamdiskPut(c), SecondOffset(h), PaddedPart(c.second.value, h.pageSize)), c.size,
        SecondOffset(h), h.secondSize);
    }
    hide WriteAt, PaddedPart, HeaderPut, RamdiskPut, RamdiskOffset, SecondOffset, TotalSize, PartOf, ValidHeader;
  }

  // ---- what is still buffered at the truncation ----

  /** Buffered bytes change nothing below size, and lengthen the file when they reach beyond it. */
  lemma FlushedIs(t: Tail, size: nat, pending: nat)
    ensures var g := Flushed(t, size, pending);
      && |g| == (if pending == 0 || t.data == [] then size else Max(size, t.start + |t.data|))
      && Truncate(g, size) == Truncate(WriteAt(t.base, t.start, t.data), size)
  {
    var cut := |t.data| - Min(pending, |t.data|);
    var f := Truncate(WriteAt(t.base, t.start, t.data[..cut]), size);
    var g := Flushed(t, size, pending);
    hide Truncate;
    forall p: nat | p < size
      ensures At(g, p) == At(WriteAt(t.base, t.start, t.data), p)
    {
      AtTruncate(WriteAt(t.base, t.start, t.data[..cut]), size, p);
      AtWrite(t.base, t.start, t.data[..cut], p);
      AtWrite(f, t.start + cut, t.data[cut..], p);
      AtWrite(t.base, t.start, t.data, p);
    }
    SameTruncated(g, WriteAt(t.base, t.start, t.data), size);
  }

  lemma AtWrite(f: seq<byte>, pos: nat, d: seq<byte>, p: nat)
    ensures At(WriteAt(f, pos, d), p) == if pos <= p < pos + |d| then d[p - pos] else At(f, p)
  {
  }

  lemma AtTruncate(f: seq<byte>, n: nat, p: nat)
    ensures At(Truncate(f, n), p) == if p < n then At(f, p) else 0
  {
  }

  lemma SameTruncated(f: seq<byte>, g: seq<byte>, n: nat)
    requires forall p: nat :: p < n ==> At(f, p) == At(g, p)
    ensures Truncate(f, n) == Truncate(g, n)
  {
  }

  /** Header and kernel, written in two steps or in one. */
  lemma FrontWritten(img: Img)
    requires ValidHeader(img.header) && HEADER_LEN <= img.header.pageSize
    ensures KernelPut(img) == WriteAt(img.bytes, 0, FrontBytes(img))
  {
    var h := img.header;
    var front := HeaderBytes(h) + Zeros(h.pageSize - HEADER_LEN);
    var rest := if img.kernel.Some? then PaddedPart(img.kernel.value, h.pageSize) else [];
    PutTwice(FileSink(img.bytes, 0), front, rest);
    hide WriteAt, HeaderBytes, PaddedPart, ValidHeader;
    assert front + [] == front;
  }

  /** The steps of write_bootimg, one seek after the other. */
  lemma WriteSteps(img: Img, pending: nat)
    requires ValidHeader(img.header) && HEADER_LEN <= img.header.pageSize
    ensures 0 < img.header.pageSize
    ensures var h := img.header;
      && (img.ramdisk.Some? ==>
           RamdiskPut(img) == WriteAt(KernelPut(img), RamdiskOffset(h), PaddedPart(img.ramdisk.value, h.pageSize)))
      && (img.ramdisk.None? ==> RamdiskPut(img) == KernelPut(img))
      && WrittenImage(img, pending) ==
        if h.secondSize != 0 && img.second.None? then None
        else Some(Flushed(
          if h.secondSize != 0 then Tail(RamdiskPut(img), SecondOffset(h), PaddedPart(img.second.value, h.pageSize))
          else if img.ramdisk.Some? then
            Tail(KernelPut(img), RamdiskOffset(h), PaddedPart(img.ramdisk.value, h.pageSize))
          else Tail(img.bytes, 0, FrontBytes(img)), img.size, pending))
  {
    hide ValidHeader, WriteAt, KernelPut, PaddedPart, RamdiskOffset, SecondOffset, Flushed, FrontBytes;
  }

  /** Below the size asked for, the file written is the settled one, whatever was still buffered. */
  lemma WrittenSettles(img: Img, pending: nat)
    requires ValidHeader(img.header) && HEADER_LEN <= img.header.pageSize
    ensures WrittenImage(img, pending).Some? <==> SettledImage(img).Some?
    ensures WrittenImage(img, pending).Some? ==>
      var g, t := WrittenImage(img, pending).value, LastWrites(img);
      && Truncate(g, img.size) == SettledImage(img).value && img.size <= |g|
      && |g| == (if pending == 0 then img.size else Max(img.size, t.start + |t.data|))
  {
    FrontWritten(img);
    hide WriteAt, Truncate, PaddedPart, HeaderBytes, KernelPut, RamdiskOffset, SecondOffset, ValidHeader, Flushed;
    if WrittenImage(img, pending).Some? {
      var t := LastWrites(img);
      FlushedIs(t, img.size, pending);
      SomethingWritten(img);
    }
  }

  lemma SomethingWritten(img: Img)
    requires ValidHeader(img.header) && HEADER_LEN <= img.header.pageSize
    requires img.header.secondSize != 0 ==> img.second.Some?
    ensures LastWrites(img).data != []
  {
    if img.second.Some? {
      PaddedLength(img.second.value, img.header.pageSize);
    }
    if img.ramdisk.Some? {
      PaddedLength(img.ramdisk.value, img.header.pageSize);
    }
    hide PaddedPart, HeaderBytes, ValidHeader;
  }

  /** A part ends on a page with its padding, which is a whole page when the part does so already. */
  lemma PaddedLength(d: seq<byte>, psize: nat)
    requires 0 < psize
    ensures |PaddedPart(d, psize)| == Align(|d|, psize) + (if |d| % psize == 0 then psize else 0)
    ensures 0 < |PaddedPart(d, psize)|
  {
    var n := |d|;
    AlignBounds(n, psize);
    if n % psize != 0 {
      assert n == (n / psize) * psize + n % psize;
      Distribute(n / psize, 1, psize);
      DivModUnique(n + psize - 1, psize, n / psize + 1, n % psize - 1);
    }
  }

  /** The part written last, after the last seek, is whole pages. */
  predicate LastPartWhole(c: Img)
    requires 0 < c.header.pageSize
  {
    if c.header.secondSize != 0 then c.header.secondSize % c.header.pageSize == 0
    else c.ramdisk.Some? && c.header.ramdiskSize % c.header.pageSize == 0
  }

  /** The length of the file: the size asked for, unless whole-page padding behind the last part is still buffered. */
  function WrittenSize(c: Img, pending: nat): nat
    requires 0 < c.header.pageSize
  {
    if 0 < pending && LastPartWhole(c) then Max(c.size, TotalSize(c.header) + c.header.pageSize) else c.size
  }

  lemma LastWritesEnd(img: Img, parts: Parts, c: Img)
    requires Opened(img) && Sane(c.header) && Loaded(img, parts, c) && ValidHeader(c.header)
    requires c.header.secondSize != 0 ==> c.second.Some?
    ensures var t, h := LastWrites(c), c.header;
      Max(c.size, t.start + |t.data|) == if LastPartWhole(c) then Max(c.size, TotalSize(h) + h.pageSize) else c.size
  {
    var h := c.header;
    RegionsMeet(h);
    RegionsInOrder(h);
    AlignBounds(0, h.pageSize);
    if h.secondSize != 0 {
      PaddedLength(c.second.value, h.pageSize);
    } else if c.ramdisk.Some? {
      PaddedLength(c.ramdisk.value, h.pageSize);
    }
    hide PaddedPart, HeaderBytes, TotalSize, RamdiskOffset, SecondOffset, Align, Sane, PartOf, ReadAt, KernelPut;
    hide RamdiskPut;
  }

  lemma WrittenLength(img: Img, parts: Parts, c: Img, pending: nat)
    requires Opened(img) && Sane(c.header) && Loaded(img, parts, c) && ValidHeader(c.header)
    requires WrittenImage(c, pending).Some?
    ensures c.size <= |WrittenImage(c, pending).value| == WrittenSize(c, pending) <= c.size + c.header.pageSize
  {
    LastWritesEnd(img, parts, c);
    WrittenSettles(c, pending);
    hide LastWrites, Flushed, SettledImage, TotalSize, Sane, LastPartWhole;
  }

  /** The parts that the update keeps must be there to be kept. */
  predicate Kept(img: Img, parts: Parts)
    requires 0 < img.header.pageSize
  {
    && (parts.kernel.None? ==> KernelIn(img.bytes, img.header).Some?)
    && (parts.kernel.None? && parts.ramdisk.None? ==> RamdiskIn(img.bytes, img.header).Some?)
  }

  /**
   * In-place update, and creation: whichever parts are given, the file that is written has the updated header, and
   * extraction finds the new bytes of the parts given and the old bytes of the parts kept, although later parts
   * move, the padding of each part can run into the next, and any number of the last bytes may still be buffered
   * when the file is truncated. Those can make it longer, by one page at most.
   */
  lemma UpdateExtracts(img: Img, parts: Parts, c: Img, pending: nat)
    requires Opened(img) && Updated(img, parts) == Some(c) && Sane(c.header) && Kept(img, parts)
    requires ValidHeader(c.header) && WrittenImage(c, pending).Some?
    ensures var g := WrittenImage(c, pending).value;
      && HEADER_LEN <= c.size <= |g| == WrittenSize(c, pending) <= c.size + c.header.pageSize && HeaderOf(g) == c.header
      && KernelIn(g, c.header) == Wanted(parts.kernel, KernelIn(img.bytes, img.header))
      && RamdiskIn(g, c.header) == Wanted(parts.ramdisk, RamdiskIn(img.bytes, img.header))
      && SecondIn(g, c.header) == Wanted(parts.second, SecondIn(img.bytes, img.header))
  {
    hide *;
    UpdatedLoads(img, parts);
    SanePage(c.header);
    WrittenLength(img, parts, c, pending);
    WrittenSettles(c, pending);
    SettledExtracts(img, parts, c);
    var g, s := WrittenImage(c, pending).value, SettledImage(c).value;
    SettledRegion(g, s, c.size, 0, HEADER_LEN);
    SettledRegions(g, s, c.header, c.size);
    HeaderAtFront(g, c.header);
  }

  /** The header that is written, whatever becomes of the parts: also when the page size has been changed. */
  lemma HeaderWritten(img: Img, parts: Parts, c: Img, pending: nat)
    requires Opened(img) && Updated(img, parts) == Some(c) && Sane(c.header)
    requires ValidHeader(c.header) && WrittenImage(c, pending).Some?
    ensures var g := WrittenImage(c, pending).value;
      HEADER_LEN <= c.size <= |g| == WrittenSize(c, pending) <= c.size + c.header.pageSize && HeaderOf(g) == c.header
    ensures c.header == img.header.(kernelSize := c.header.kernelSize, ramdiskSize := c.header.ramdiskSize,
                                    secondSize := c.header.secondSize)
    ensures img.size != 0 ==> c.size == img.size
  {
    hide *;
    OpenedPage(img);
    UpdatedLoads(img, parts);
    LoadedKeeps(img, parts, c);
    SanePage(c.header);
    RegionsInOrder(c.header);
    WrittenLength(img, parts, c, pending);
    WrittenSettles(c, pending);
    HeaderStays(c);
    LastSteps(c, 0, HEADER_LEN, Some(HeaderBytes(c.header)));
    SettledRegion(WrittenImage(c, pending).value, SettledImage(c).value, c.size, 0, HEADER_LEN);
    HeaderAtFront(WrittenImage(c, pending).value, c.header);
  }

  lemma OpenedPage(img: Img)
    requires Opened(img)
    ensures 0 < img.header.pageSize
  {
  }

  lemma LoadedKeeps(img: Img, parts: Parts, c: Img)
    requires Opened(img) && Loaded(img, parts, c) && Sane(c.header)
    ensures TotalSize(c.header) <= c.size && (img.size != 0 ==> c.size == img.size)
    ensures c.header == img.header.(kernelSize := c.header.kernelSize, ramdiskSize := c.header.ramdiskSize,
                                    secondSize := c.header.secondSize)
  {
    hide TotalSize, RamdiskOffset, SecondOffset, PartOf, ReadAt, Sane;
  }

  // ---- the padding, and the rest of the file ----

  /** A write covers d and its padding: all of the last page of d, or one more when d ends on a page. */
  predicate Covered(d: seq<byte>, off: nat, psize: nat, i: nat)
    requires 0 < psize
  {
    off <= i < off + Align(|d|, psize) + if |d| % psize == 0 then psize else 0
  }

  /** Byte i of a file after a part has been written at off: the part, zeros behind it, and else what was there. */
  function Around(d: seq<byte>, off: nat, psize: nat, i: nat, was: byte): byte
    requires 0 < psize
  {
    if !Covered(d, off, psize, i) then was else if i < off + |d| then d[i - off] else 0
  }

  lemma PartAround(f: seq<byte>, d: seq<byte>, off: nat, psize: nat, i: nat)
    requires 0 < psize
    ensures At(WriteAt(f, off, PaddedPart(d, psize)), i) == Around(d, off, psize, i, At(f, i))
  {
    PaddedLength(d, psize);
    var e := PaddedPart(d, psize);
    assert forall k :: |d| <= k < |e| ==> e[k] == 0;
    hide PaddedPart, Align;
  }

  lemma FrontAround(c: Img, i: nat)
    requires ValidHeader(c.header) && HEADER_LEN <= c.header.pageSize
    ensures At(HeaderPut(c), i) ==
      if i < HEADER_LEN then HeaderBytes(c.header)[i] else if i < c.header.pageSize then 0 else At(c.bytes, i)
  {
    hide HeaderBytes, ValidHeader;
  }

  /** Each byte of an updated file below its size: the last write that covers it decides. */
  lemma ByteWritten(c: Img, i: nat)
    requires ValidHeader(c.header) && HEADER_LEN <= c.header.pageSize && SettledImage(c).Some? && i < c.size
    ensures SettledImage(c).value[i] ==
      var h, p := c.header, c.header.pageSize;
      var front := if i < HEADER_LEN then HeaderBytes(h)[i] else if i < p then 0 else At(c.bytes, i);
      var a := if c.kernel.Some? then Around(c.kernel.value, p, p, i, front) else front;
      var b := if c.ramdisk.Some? then Around(c.ramdisk.value, RamdiskOffset(h), p, i, a) else a;
      if h.secondSize != 0 then Around(c.second.value, SecondOffset(h), p, i, b) else b
  {
    var h, p := c.header, c.header.pageSize;
    FrontAround(c, i);
    if c.kernel.Some? {
      PartAround(HeaderPut(c), c.kernel.value, p, p, i);
    }
    if c.ramdisk.Some? {
      PartAround(KernelPut(c), c.ramdisk.value, RamdiskOffset(h), p, i);
    }
    if h.secondSize != 0 {
      PartAround(RamdiskPut(c), c.second.value, SecondOffset(h), p, i);
    }
    hide WriteAt, PaddedPart, Around, HeaderBytes, HeaderPut, ValidHeader, RamdiskOffset, SecondOffset;
  }

  /** The page of zeros that a last part of whole pages brings with it. */
  function Spill(c: Img): nat
    requires 0 < c.header.pageSize
  {
    if LastPartWhole(c) then c.header.pageSize else 0
  }

  /** What an update loads is there in full, and nothing is written behind a part that stays. */
  lemma LoadedParts(img: Img, parts: Parts, c: Img)
    requires Opened(img) && Loaded(img, parts, c)
    requires c.header.secondSize != 0 ==> c.second.Some?
    ensures c.kernel.Some? == parts.kernel.Some? && c.ramdisk.Some? == (parts.kernel.Some? || parts.ramdisk.Some?)
    ensures c.kernel.Some? ==> 0 < |c.kernel.value| == c.header.kernelSize
    ensures c.ramdisk.Some? ==> 0 < |c.ramdisk.value| == c.header.ramdiskSize
    ensures c.header.secondSize != 0 ==> |c.second.value| == c.header.secondSize
    ensures c.bytes == img.bytes
  {
    hide TotalSize, RamdiskOffset, SecondOffset, ToU32, ValidHeader;
  }

  /** Byte i of a settled file, behind the header or the kernel. */
  lemma ByteInFront(img: Img, parts: Parts, c: Img, i: nat)
    requires Opened(img) && Sane(c.header) && Loaded(img, parts, c) && ValidHeader(c.header)
    requires SettledImage(c).Some? && i < c.size
    ensures var g, h, was := SettledImage(c).value[i], c.header, At(img.bytes, i);
      && (HEADER_LEN <= i < h.pageSize ==> g == 0)
      && (h.pageSize + h.kernelSize <= i < RamdiskOffset(h) ==> g == if parts.kernel.Some? then 0 else was)
  {
    var h := c.header;
    LoadedParts(img, parts, c);
    RegionsMeet(h);
    AlignBounds(h.kernelSize, h.pageSize);
    AlignBounds(h.ramdiskSize, h.pageSize);
    AlignBounds(h.secondSize, h.pageSize);
    ByteWritten(c, i);
    hide SettledImage, Loaded, RamdiskOffset, SecondOffset, TotalSize, Align, DivRoundUp, HeaderBytes, ValidHeader;
  }

  /** Byte i of a settled file, behind the ramdisk. */
  lemma ByteBehind(img: Img, parts: Parts, c: Img, i: nat)
    requires Opened(img) && Sane(c.header) && Loaded(img, parts, c) && ValidHeader(c.header)
    requires SettledImage(c).Some? && i < c.size
    ensures var g, h, was := SettledImage(c).value[i], c.header, At(img.bytes, i);
      && (RamdiskOffset(h) + h.ramdiskSize <= i < SecondOffset(h) ==>
            g == if parts.kernel.Some? || parts.ramdisk.Some? then 0 else was)
      && (SecondOffset(h) + h.secondSize <= i < TotalSize(h) + Spill(c) ==> g == 0)
      && (TotalSize(h) + Spill(c) <= i ==> g == was)
  {
    var h := c.header;
    LoadedParts(img, parts, c);
    RegionsMeet(h);
    AlignBounds(h.kernelSize, h.pageSize);
    AlignBounds(h.ramdiskSize, h.pageSize);
    AlignBounds(h.secondSize, h.pageSize);
    ByteWritten(c, i);
    hide SettledImage, Loaded, RamdiskOffset, SecondOffset, TotalSize, Align, DivRoundUp, HeaderBytes, ValidHeader;
  }

  /**
   * Whatever an update does not put a part into: zeros behind the header and behind each part that is written, up to
   * the next part or for a whole page, and the bytes of the old file everywhere else, as far as its size.
   */
  lemma PaddingWritten(img: Img, parts: Parts, c: Img, pending: nat)
    requires Opened(img) && Updated(img, parts) == Some(c) && Sane(c.header)
    requires ValidHeader(c.header) && WrittenImage(c, pending).Some?
    ensures var g, h := WrittenImage(c, pending).value, c.header;
      && (forall i :: HEADER_LEN <= i < h.pageSize ==> At(g, i) == 0)
      && (forall i :: h.pageSize + h.kernelSize <= i < RamdiskOffset(h) ==>
            At(g, i) == if parts.kernel.Some? then 0 else At(img.bytes, i))
      && (forall i :: RamdiskOffset(h) + h.ramdiskSize <= i < SecondOffset(h) ==>
            At(g, i) == if parts.kernel.Some? || parts.ramdisk.Some? then 0 else At(img.bytes, i))
      && (forall i :: SecondOffset(h) + h.secondSize <= i < TotalSize(h) + Spill(c) && i < c.size ==> At(g, i) == 0)
      && (forall i :: TotalSize(h) + Spill(c) <= i < c.size ==> At(g, i) == At(img.bytes, i))
  {
    hide *;
    UpdatedLoads(img, parts);
    LoadedKeeps(img, parts, c);
    RegionsInOrder(c.header);
    SanePage(c.header);
    WrittenSettles(c, pending);
    var g, s, h := WrittenImage(c, pending).value, SettledImage(c).value, c.header;
    forall i: nat | i < c.size
      ensures At(g, i) == s[i]
    {
      BelowSize(g, c.size, i);
    }
    forall i: nat | i < c.size
      ensures (HEADER_LEN <= i < h.pageSize ==> s[i] == 0)
      ensures (h.pageSize + h.kernelSize <= i < RamdiskOffset(h) ==>
                 s[i] == if parts.kernel.Some? then 0 else At(img.bytes, i))
      ensures (RamdiskOffset(h) + h.ramdiskSize <= i < SecondOffset(h) ==>
                 s[i] == if parts.kernel.Some? || parts.ramdisk.Some? then 0 else At(img.bytes, i))
      ensures (SecondOffset(h) + h.secondSize <= i < TotalSize(h) + Spill(c) ==> s[i] == 0)
      ensures (TotalSize(h) + Spill(c) <= i ==> s[i] == At(img.bytes, i))
    {
      ByteInFront(img, parts, c, i);
      ByteBehind(img, parts, c, i);
    }
  }

  lemma BelowSize(g: seq<byte>, size: nat, i: nat)
    requires i < size <= |g|
    ensures At(g, i) == Truncate(g, size)[i]
  {
  }

  /** What lies below the size is in the settled file as well. */
  lemma SettledRegion(g: seq<byte>, s: seq<byte>, size: nat, off: nat, n: nat)
    requires size <= |g| && s == Truncate(g, size) && off + n <= size
    ensures ReadAt(g, off, n) == ReadAt(s, off, n)
  {
    RegionTruncated(g, size, off, n);
    hide Truncate;
  }

  lemma SettledRegions(g: seq<byte>, s: seq<byte>, h: Header, size: nat)
    requires Sane(h) && TotalSize(h) <= size <= |g| && s == Truncate(g, size)
    ensures KernelIn(g, h) == KernelIn(s, h) && RamdiskIn(g, h) == RamdiskIn(s, h) && SecondIn(g, h) == SecondIn(s, h)
  {
    RegionsInOrder(h);
    hide TotalSize, RamdiskOffset, SecondOffset, ReadAt, Truncate;
    SettledRegion(g, s, size, h.pageSize, h.kernelSize);
    SettledRegion(g, s, size, RamdiskOffset(h), h.ramdiskSize);
    SettledRegion(g, s, size, SecondOffset(h), h.secondSize);
  }

  lemma HeaderAtFront(g: seq<byte>, h: Header)
    requires ValidHeader(h) && ReadAt(g, 0, HEADER_LEN) == Some(HeaderBytes(h))
    ensures HEADER_LEN <= |g| && HeaderOf(g) == h
  {
    assert g[0..HEADER_LEN] == g[..HEADER_LEN];
    hide HeaderBytes, ValidHeader, HeaderOf;
    HeaderRoundTrip(h, g);
  }

  lemma SettledExtracts(img: Img, parts: Parts, c: Img)
    requires Opened(img) && Loaded(img, parts, c) && Sane(c.header) && Kept(img, parts)
    requires ValidHeader(c.header) && SettledImage(c).Some?
    ensures var s := SettledImage(c).value;
      && HEADER_LEN <= c.header.pageSize <= TotalSize(c.header) <= c.size
      && ReadAt(s, 0, HEADER_LEN) == Some(HeaderBytes(c.header))
      && KernelIn(s, c.header) == Wanted(parts.kernel, KernelIn(img.bytes, img.header))
      && RamdiskIn(s, c.header) == Wanted(parts.ramdisk, RamdiskIn(img.bytes, img.header))
      && SecondIn(s, c.header) == Wanted(parts.second, SecondIn(img.bytes, img.header))
  {
    var h := c.header;
    RegionsInOrder(h);
    hide SettledImage, RamdiskPut, RamdiskOffset, SecondOffset, TotalSize, PartOf, HeaderBytes;
    KernelStays(img, parts, c);
    LastSteps(c, h.pageSize, h.kernelSize, Wanted(parts.kernel, KernelIn(img.bytes, img.header)));
    RamdiskStays(img, parts, c);
    LastSteps(c, RamdiskOffset(h), h.ramdiskSize, Wanted(parts.ramdisk, RamdiskIn(img.bytes, img.header)));
    SecondStays(img, parts, c);
    HeaderStays(c);
    LastSteps(c, 0, HEADER_LEN, Some(HeaderBytes(h)));
  }

  // ---- exactly when an update works ----

  /** A part file that is not empty, even after its length has been kept in 32 bits. */
  predicate Readable(part: Option<seq<byte>>) {
    part.Some? ==> ToU32(|part.value|) != 0
  }

  lemma ReadableParts(f: seq<byte>)
    ensures PartOf(f).Some? <==> ToU32(|f|) != 0
    ensures PartOf(f).Some? ==> ToU32(|PartOf(f).value|) == ToU32(|f|)
  {
    QuotientBound(|f|, U32);
    assert |f| == U32 * (|f| / U32) + |f| % U32;
    if PartOf(f).Some? {
      PartLength(f);
    }
  }

  function NewSize(part: Option<seq<byte>>, was: u32): u32 {
    if part.Some? then ToU32(|part.value|) else was
  }

  function NewHeader(h: Header, parts: Parts): Header {
    h.(kernelSize := NewSize(parts.kernel, h.kernelSize), ramdiskSize := NewSize(parts.ramdisk, h.ramdiskSize),
       secondSize := NewSize(parts.second, h.secondSize))
  }

  /** The header h describes parts that are all in the file f. */
  predicate Describes(h: Header, f: seq<byte>) {
    Sane(h) && h.kernelSize != 0 && h.ramdiskSize != 0 && TotalSize(h) <= |f|
  }

  lemma DescribedReads(h: Header, f: seq<byte>)
    requires Describes(h, f)
    ensures KernelIn(f, h).Some? && RamdiskIn(f, h).Some?
    ensures SecondIn(f, h).Some? <==> h.secondSize != 0
  {
    RegionsInOrder(h);
    hide TotalSize, RamdiskOffset, SecondOffset, Sane;
  }

  predicate Complete(img: Img) {
    Opened(img) && Describes(img.header, img.bytes) && img.size != 0
  }

  /**
   * update_images succeeds exactly when no part given is empty and the new total fits, and write_bootimg then
   * succeeds exactly when some part is given or there is no second stage.
   */
  lemma UpdateExactly(img: Img, parts: Parts, pending: nat)
    requires Complete(img)
    ensures Kept(img, parts)
    ensures Updated(img, parts).Some? <==>
      && Readable(parts.kernel) && Readable(parts.ramdisk) && Readable(parts.second)
      && TotalSize(NewHeader(img.header, parts)) <= img.size
    ensures Updated(img, parts).Some? ==>
      var c := Updated(img, parts).value;
      && c.header == NewHeader(img.header, parts) && ValidHeader(c.header) && c.size == img.size
      && (WrittenImage(c, pending).Some? <==>
           img.header.secondSize == 0 || parts.kernel.Some? || parts.ramdisk.Some? || parts.second.Some?)
  {
    DescribedReads(img.header, img.bytes);
    if parts.kernel.Some? {
      ReadableParts(parts.kernel.value);
    }
    if parts.ramdisk.Some? {
      ReadableParts(parts.ramdisk.value);
    }
    if parts.second.Some? {
      ReadableParts(parts.second.value);
    }
    hide TotalSize, RamdiskOffset, SecondOffset, PartOf, ReadAt, ToU32, RamdiskPut;
  }

  /** What has been written can be opened again: the header check passes, unless the length wraps in 32 bits. */
  lemma UpdateCanBeOpened(img: Img, parts: Parts, c: Img, pending: nat)
    requires Opened(img) && Updated(img, parts) == Some(c) && Sane(c.header) && Kept(img, parts)
    requires ValidHeader(c.header) && WrittenImage(c, pending).Some? && img.header.magic == BOOT_MAGIC
    ensures var g := WrittenImage(c, pending).value;
      HEADER_LEN <= |g| && (CheckHeader(HeaderOf(g), ToU32(|g|)) <==> |g| < U32)
  {
    hide *;
    SanePage(c.header);
    UpdateExtracts(img, parts, c, pending);
    UpdatedLoads(img, parts);
    LengthCheck(img, parts, c, |WrittenImage(c, pending).value|);
  }

  lemma LengthCheck(img: Img, parts: Parts, c: Img, n: nat)
    requires Opened(img) && Loaded(img, parts, c) && Kept(img, parts) && Sane(c.header) &&
      img.header.magic == BOOT_MAGIC
    requires c.size <= n <= c.size + c.header.pageSize
    ensures CheckHeader(c.header, ToU32(n)) <==> n < U32
  {
    hide *;
    SizesPresent(img, parts, c);
    SanePage(c.header);
    RegionsInOrder(c.header);
    LoadedTotal(img, parts, c);
    U32Is();
    WrapCheck(TotalSize(c.header), c.size, c.header.pageSize, n);
    CheckIs(c.header, ToU32(n));
  }

  /** A length that wraps is less than a page, and no total is. */
  lemma WrapCheck(total: u32, size: u32, page: u32, n: nat)
    requires page < total <= size <= n <= size + page
    ensures total <= ToU32(n) <==> n < U32
  {
    if n >= U32 {
      DivModUnique(n, U32, 1, n - U32);
    } else {
      SmallMod(n);
    }
  }

  lemma LoadedTotal(img: Img, parts: Parts, c: Img)
    requires Opened(img) && Loaded(img, parts, c)
    ensures 0 < c.header.pageSize && TotalSize(c.header) <= c.size && c.header.magic == img.header.magic
  {
    hide TotalSize;
  }

  lemma CheckIs(h: Header, size: u32)
    ensures CheckHeader(h, size) <==>
      h.magic == BOOT_MAGIC && h.kernelSize != 0 && h.ramdiskSize != 0 && h.pageSize != 0 && TotalSize(h) <= size
  {
    hide TotalSize;
  }

  lemma U32Is()
    ensures U32 == 0x1_0000_0000
  {
  }

  lemma SizesPresent(img: Img, parts: Parts, c: Img)
    requires Opened(img) && Loaded(img, parts, c) && Kept(img, parts)
    ensures c.header.kernelSize != 0 && c.header.ramdiskSize != 0
  {
    if parts.kernel.Some? {
      PartLength(parts.kernel.value);
    }
    if parts.ramdisk.Some? {
      PartLength(parts.ramdisk.value);
    }
    hide TotalSize, RamdiskOffset, SecondOffset, PartOf;
  }

  // ---- the methods ----

  /** new_bootimg: a zeroed header but for the magic and the page size. */
  const NEW_HEADER: Header :=
    Header(BOOT_MAGIC, 0, 0, 0, 0, 0, 0, 0, 2048, Zeros(8), Zeros(BOOT_NAME_SIZE), Zeros(BOOT_ARGS_SIZE), Zeros(32))

  /** A part file that is not empty and shorter than 2^32 bytes is read whole. */
  lemma PartIs(f: seq<byte>)
    requires 0 < |f| < U32
    ensures PartOf(f) == Some(f)
  {
    SmallMod(|f|);
    assert f[0..|f|] == f;
  }

  /** The header that a new image begins with: the magic, no parts, pages of 2048 bytes, and zeros. */
  lemma NewHeaderBytes()
    ensures ValidHeader(NEW_HEADER)
    ensures HeaderBytes(NEW_HEADER)[..48] ==
      [0x41, 0x4E, 0x44, 0x52, 0x4F, 0x49, 0x44, 0x21] + Zeros(28) + [0, 8, 0, 0] + Zeros(8)
    ensures HeaderBytes(NEW_HEADER)[48..] == Zeros(560)
  {
    var f, e := HeaderBytes(NEW_HEADER), BOOT_MAGIC + Zeros(28) + [0, 8, 0, 0] + Zeros(8);
    HeaderLayout(NEW_HEADER);
    assert Le32(0) == [0, 0, 0, 0] && Le32(2048) == [0, 8, 0, 0];
    hide HeaderBytes, Le32;
    assert f[..48] == f[0..8] + f[8..12] + f[12..16] + f[16..20] + f[20..24] + f[24..28] + f[28..32] + f[32..36]
                      + f[36..40] + f[40..48];
    assert f[48..] == f[48..64] + f[64..576] + f[576..608];
  }

  // ---- where the commands fall short ----

  /** A kernel and a ramdisk of one byte and a second stage of two, in four pages. */
  function SmallKernel(): Header {
    NEW_HEADER.(kernelSize := 1, ramdiskSize := 1, secondSize := 2)
  }

  lemma SmallKernelLayout()
    ensures var h := SmallKernel();
      ValidHeader(h) && h.magic == BOOT_MAGIC && h.pageSize == 2048 && SecondOffset(h) == 6144 && TotalSize(h) == 8192
  {
  }

  /** The second stage is in the image, the image is accepted, and yet it is not extracted. */
  lemma SecondStageRefused()
    ensures ValidHeader(SmallKernel())
    ensures var f := HeaderBytes(SmallKernel()) + Zeros(8192 - HEADER_LEN);
      && HeaderOf(f) == SmallKernel() && CheckHeader(SmallKernel(), |f|)
      && 0 < SmallKernel().pageSize && SecondIn(f, SmallKernel()) == Some([0, 0])
      && ExtractSecond(f, SmallKernel()) == TooLarge
  {
    SmallKernelLayout();
    var h := SmallKernel();
    var f := HeaderBytes(h) + Zeros(8192 - HEADER_LEN);
    hide HeaderBytes, ValidHeader, SecondOffset, TotalSize, HeaderOf;
    assert f[..HEADER_LEN] == HeaderBytes(h);
    assert f[6144..6146] == [0, 0];
    HeaderRoundTrip(h, f);
  }

  /** A new image from a kernel of one byte and a ramdisk of one page. */
  const PAGE_PARTS: Parts := Parts(Some([1]), Some(Zeros(2048)), None)

  const PAGE_IMAGE: Img :=
    Img(6144, NEW_HEADER.(kernelSize := 1, ramdiskSize := 2048), Some([1]), Some(Zeros(2048)), None, [])

  lemma PageImageIs()
    ensures Updated(Img(0, NEW_HEADER, None, None, None, []), PAGE_PARTS) == Some(PAGE_IMAGE)
    ensures Opened(Img(0, NEW_HEADER, None, None, None, [])) && ValidHeader(PAGE_IMAGE.header) &&
      Sane(PAGE_IMAGE.header)
    ensures WrittenSize(PAGE_IMAGE, 1) == 8192
  {
    assert [1][0..1] == [1] && Zeros(2048)[0..2048] == Zeros(2048);
  }

  /** Three pages are asked for; with one byte of the last padding still buffered the file has four. */
  lemma PageLonger()
    ensures Updated(Img(0, NEW_HEADER, None, None, None, []), PAGE_PARTS) == Some(PAGE_IMAGE) && PAGE_IMAGE.size == 6144
    ensures ValidHeader(PAGE_IMAGE.header) && HEADER_LEN <= PAGE_IMAGE.header.pageSize
    ensures WrittenImage(PAGE_IMAGE, 1).Some? && |WrittenImage(PAGE_IMAGE, 1).value| == 8192
  {
    var img := Img(0, NEW_HEADER, None, None, None, []);
    PageImageIs();
    UpdatedLoads(img, PAGE_PARTS);
    hide Updated, Opened, Sane, Loaded, ValidHeader, WrittenSize, Flushed, LastWrites;
    WrittenLength(img, PAGE_PARTS, PAGE_IMAGE, 1);
  }

  /** A part and its padding behind what is buffered: the padding goes out in a write of its own. */
  function WithPart(buffer: seq<byte>, d: seq<byte>, psize: nat): (r: seq<byte>)
    requires 0 < psize
    ensures r == buffer + PaddedPart(d, psize)
    ensures buffer == [] ==> r == PaddedPart(d, psize)
  {
    buffer + d + Zeros(psize - |d| % psize)
  }

  class BootImg {
    var size: u32
    var header: Header
    const stream: File
    var kernel: Option<seq<byte>>
    var ramdisk: Option<seq<byte>>
    var second: Option<seq<byte>>

    function State(): Img
      reads this, stream
    {
      Img(size, header, kernel, ramdisk, second, stream.bytes)
    }

    /** new_bootimg, with the stream opened. */
    constructor (stream: File)
      ensures this.stream == stream && State() == Img(0, NEW_HEADER, None, None, None, stream.bytes)
    {
      this.stream := stream;
      size := 0;
      header := NEW_HEADER;
      kernel, ramdisk, second := None, None, None;
    }

    /** fseek and fread of one item. */
    method Read(off: nat, n: nat) returns (d: Option<seq<byte>>)
      modifies stream`pos
      ensures d == ReadAt(stream.bytes, off, n)
    {
      stream.pos := off;
      if n == 0 || off + n > |stream.bytes| {
        return None;
      }
      d := Some(stream.bytes[off..off + n]);
      stream.pos := off + n;
    }

    /** read_header, on a regular file. */
    method ReadHeader() returns (ok: bool)
      modifies this, stream`pos
      ensures ok == (HEADER_LEN <= |stream.bytes| && CheckHeader(HeaderOf(stream.bytes), ToU32(|stream.bytes|)))
      ensures ok ==> State() == old(State()).(header := HeaderOf(stream.bytes), size := ToU32(|stream.bytes|))
    {
      hide CheckHeader, HeaderOf;
      if |stream.bytes| < HEADER_LEN {
        return false;
      }
      header := HeaderOf(stream.bytes);
      stream.pos := HEADER_LEN;
      size := ToU32(|stream.bytes|);
      ok := CheckHeader(header, size);
    }

    /** update_images: the page size and the offsets are those of the header before any part is loaded. */
    method UpdateImages(parts: Parts) returns (ok: bool)
      modifies this, stream`pos
      ensures ok == Updated(old(State()), parts).Some?
      ensures ok ==> Updated(old(State()), parts) == Some(State())
    {
      hide RamdiskOffset, SecondOffset, TotalSize, PartOf, ToU32, ReadAt;
      var was := header;
      if was.pageSize == 0 {
        return false;
      }
      var roffset := RamdiskOffset(was);
      var soffset := SecondOffset(was);
      if parts.kernel.Some? {
        kernel := PartOf(parts.kernel.value);
        if kernel.None? {
          return false;
        }
        header := header.(kernelSize := ToU32(|kernel.value|));
      }
      ok := LoadRamdisk(parts, roffset, was);
      if !ok {
        return;
      }
      ok := LoadSecond(parts, soffset, was);
      if !ok {
        return;
      }
      if size == 0 {
        size := TotalSize(header);
      } else if TotalSize(header) > size {
        return false;
      }
    }

    method LoadRamdisk(parts: Parts, roffset: u32, ghost was: Header) returns (ok: bool)
      requires 0 < was.pageSize && roffset == RamdiskOffset(was) && header.ramdiskSize == was.ramdiskSize
      modifies this, stream`pos
      ensures ok == WithRamdisk(old(State()), parts, was).Some?
      ensures ok ==> WithRamdisk(old(State()), parts, was) == Some(State())
    {
      hide RamdiskOffset, PartOf, ToU32, ReadAt;
      if parts.ramdisk.Some? {
        ramdisk := PartOf(parts.ramdisk.value);
        if ramdisk.None? {
          return false;
        }
        header := header.(ramdiskSize := ToU32(|ramdisk.value|));
      } else if kernel.Some? {
        ramdisk := Read(roffset, header.ramdiskSize);
        if ramdisk.None? {
          return false;
        }
      }
      ok := true;
    }

    method LoadSecond(parts: Parts, soffset: u32, ghost was: Header) returns (ok: bool)
      requires 0 < was.pageSize && soffset == SecondOffset(was) && header.secondSize == was.secondSize
      modifies this, stream`pos
      ensures ok == WithSecond(old(State()), parts, was).Some?
      ensures ok ==> WithSecond(old(State()), parts, was) == Some(State())
    {
      hide SecondOffset, PartOf, ToU32, ReadAt;
      if parts.second.Some? {
        second := PartOf(parts.second.value);
        if second.None? {
          return false;
        }
        header := header.(secondSize := ToU32(|second.value|));
      } else if ramdisk.Some? && header.secondSize != 0 {
        second := Read(soffset, header.secondSize);
        if second.None? {
          return false;
        }
      }
      ok := true;
    }

    /**
     * write_bootimg; false when the second stage was never loaded. A seek writes out the buffer of the stream;
     * after the last one, `pending` bytes are still there when the descriptor is truncated, and follow at the exit.
     */
    method WriteBootimg(pending: nat) returns (ok: bool)
      requires ValidHeader(header) && HEADER_LEN <= header.pageSize
      modifies stream
      ensures ok == WrittenImage(old(State()), pending).Some?
      ensures ok ==> WrittenImage(old(State()), pending) == Some(stream.bytes)
    {
      hide *;
      StateIs();
      ghost var img := State();
      FrontWritten(img);
      WriteSteps(img, pending);
      var start: nat := 0;
      var buffer := BufferFront();
      if ramdisk.Some? {
        Flush(start, buffer);
        start, buffer := RamdiskOffset(header), WithPart([], ramdisk.value, header.pageSize);
      }
      if header.secondSize != 0 {
        if second.None? {
          return false;
        }
        Flush(start, buffer);
        start, buffer := SecondOffset(header), WithPart([], second.value, header.pageSize);
      }
      CutAndFlush(start, buffer, pending);
      ok := true;
    }

    lemma StateIs()
      ensures State() == Img(size, header, kernel, ramdisk, second, stream.bytes)
    {
    }

    /** The header with its padding, and the kernel with its own. */
    method BufferFront() returns (buffer: seq<byte>)
      requires ValidHeader(header) && HEADER_LEN <= header.pageSize
      ensures buffer == FrontBytes(State())
    {
      hide HeaderBytes, ValidHeader, PaddedPart;
      buffer := HeaderBytes(header) + Zeros(header.pageSize - HEADER_LEN);
      if kernel.Some? {
        buffer := WithPart(buffer, kernel.value, header.pageSize);
      } else {
        assert buffer + [] == buffer;
      }
    }

    /** What fseek does with the buffer of the stream. */
    method Flush(start: nat, buffer: seq<byte>)
      modifies stream
      ensures stream.bytes == WriteAt(old(stream.bytes), start, buffer)
    {
      stream.bytes := WriteAt(stream.bytes, start, buffer);
    }

    method CutAndFlush(start: nat, buffer: seq<byte>, pending: nat)
      modifies stream
      ensures stream.bytes == Flushed(Tail(old(stream.bytes), start, buffer), size, pending)
    {
      hide WriteAt, Truncate;
      var cut := |buffer| - Min(pending, |buffer|);
      Flush(start, buffer[..cut]);
      stream.bytes := Truncate(stream.bytes, size);
      Flush(start + cut, buffer[cut..]);
    }

    /** extract_kernel, extract_ramdisk and extract_second: what they write to their files. */
    method ExtractKernel() returns (d: Option<seq<byte>>)
      modifies stream`pos
      ensures d == KernelIn(stream.bytes, header)
    {
      d := Read(header.pageSize, header.kernelSize);
    }

    method ExtractRamdisk() returns (d: Option<seq<byte>>)
      requires 0 < header.pageSize
      modifies stream`pos
      ensures d == RamdiskIn(stream.bytes, header)
    {
      d := Read(RamdiskOffset(header), header.ramdiskSize);
    }

    method ExtractSecondStage() returns (e: Extraction)
      requires 0 < header.pageSize
      modifies stream`pos
      ensures e == ExtractSecond(stream.bytes, header)
    {
      hide SecondOffset, ReadAt;
      if header.secondSize == 0 {
        return Absent;
      }
      if header.secondSize > header.kernelSize {
        return TooLarge;
      }
      var d := Read(SecondOffset(header), header.secondSize);
      e := if d.Some? then Extracted(d.value) else Failed;
    }
  }
}
