/** abootimg's update, create and extract commands from end to end. */
module Abootimg {
  import opened Defs
  import opened OutputFile
  import opened BootImage
  import opened BootConfig

  /** The configuration file, when there is one, and then the command-line settings. */
  function Configured(c: Cfg, file: Option<seq<byte>>, args: seq<byte>): Option<Cfg> {
    match (if file.Some? then Parsed(c, false, file.value) else Some(c))
    case Some(d) => Parsed(d, false, args)
    case None => None
  }

  method Configure(img: BootImg, file: Option<seq<byte>>, args: seq<byte>) returns (ok: bool)
    modifies img`size, img`header
    ensures ok == Configured(Cfg(old(img.size), old(img.header)), file, args).Some?
    ensures ok ==> Configured(Cfg(old(img.size), old(img.header)), file, args) == Some(Cfg(img.size, img.header))
  {
    hide Parsed;
    if file.Some? {
      ok := UpdateHeader(img, false, file.value);
      if !ok {
        return;
      }
    }
    ok := UpdateHeader(img, false, args);
  }

  lemma ConfiguredKeepsSizes(c: Cfg, file: Option<seq<byte>>, args: seq<byte>)
    requires Configured(c, file, args).Some?
    ensures SameSizes(c, Configured(c, file, args).value)
  {
    hide Parsed;
    var d := c;
    if file.Some? {
      ParsedKeepsSizes(c, false, file.value);
      d := Parsed(c, false, file.value).value;
    }
    ParsedKeepsSizes(d, false, args);
  }

  // ---- update ----

  /** The image as update finds it: opened, and configured. */
  function ToUpdate(f: seq<byte>, file: Option<seq<byte>>, args: seq<byte>): Option<Img> {
    if |f| < HEADER_LEN || !CheckHeader(HeaderOf(f), ToU32(|f|)) then None
    else match Configured(Cfg(ToU32(|f|), HeaderOf(f)), file, args)
      case Some(c) => Some(Img(c.size, c.header, None, None, None, f))
      case None => None
  }

  function UpdateResult(f: seq<byte>, file: Option<seq<byte>>, args: seq<byte>, parts: Parts,
                        pending: nat): Option<seq<byte>> {
    match ToUpdate(f, file, args)
    case None => None
    case Some(img) =>
      match Updated(img, parts)
      case None => None
      case Some(c) =>
        if ValidHeader(c.header) && HEADER_LEN <= c.header.pageSize then WrittenImage(c, pending) else None
  }

  lemma ToUpdateOpened(f: seq<byte>, file: Option<seq<byte>>, args: seq<byte>)
    requires ToUpdate(f, file, args).Some?
    ensures var img := ToUpdate(f, file, args).value;
      && img.kernel == None && img.ramdisk == None && img.second == None && img.bytes == f
      && HEADER_LEN <= |f| && ValidHeader(img.header)
      && SameSizes(Cfg(ToU32(|f|), HeaderOf(f)), Cfg(img.size, img.header))
  {
    ConfiguredKeepsSizes(Cfg(ToU32(|f|), HeaderOf(f)), file, args);
    hide Configured, CheckHeader, ToU32;
  }

  /**
   * abootimg -u; with a page smaller than the header the length of the padding wraps, and the program dies reading
   * beyond its buffer.
   */
  method Update(stream: File, file: Option<seq<byte>>, args: seq<byte>, parts: Parts, pending: nat) returns (ok: bool)
    modifies stream
    ensures ok == UpdateResult(old(stream.bytes), file, args, parts, pending).Some?
    ensures ok ==> UpdateResult(old(stream.bytes), file, args, parts, pending) == Some(stream.bytes)
  {
    hide Configured, CheckHeader, HeaderOf, ToU32, Updated, WrittenImage, ValidHeader;
    var img := new BootImg(stream);
    ok := img.ReadHeader();
    if !ok {
      return;
    }
    ok := Configure(img, file, args);
    if !ok {
      return;
    }
    ToUpdateOpened(stream.bytes, file, args);
    ok := img.UpdateImages(parts);
    if !ok {
      return;
    }
    UpdatedHeader(ToUpdate(stream.bytes, file, args).value, parts);
    if img.header.pageSize < HEADER_LEN {
      return false;
    }
    ok := img.WriteBootimg(pending);
  }

  lemma UpdatedHeader(img: Img, parts: Parts)
    requires Updated(img, parts).Some?
    ensures Updated(img, parts).value.header.pageSize == img.header.pageSize
    ensures ValidHeader(img.header) ==> ValidHeader(Updated(img, parts).value.header)
  {
    hide TotalSize, RamdiskOffset, SecondOffset, PartOf, ToU32, ReadAt;
  }

  /**
   * abootimg -u, then abootimg -x: for any configuration that leaves the page size alone and any parts whose sizes
   * do not wrap, extraction from the updated file finds the new bytes of the parts given and the old bytes of the
   * others.
   */
  lemma UpdateThenExtract(f: seq<byte>, file: Option<seq<byte>>, args: seq<byte>, parts: Parts, pending: nat)
    requires HEADER_LEN <= |f| && Sane(HeaderOf(f))
    requires UpdateResult(f, file, args, parts, pending).Some?
    requires ToUpdate(f, file, args).value.header.pageSize == HeaderOf(f).pageSize
    requires Sane(Updated(ToUpdate(f, file, args).value, parts).value.header)
    ensures var g, h := UpdateResult(f, file, args, parts, pending).value, HeaderOf(f);
      && HEADER_LEN <= |g| && 0 < HeaderOf(g).pageSize == h.pageSize
      && (CheckHeader(HeaderOf(g), ToU32(|g|)) <==> |g| < U32)
      && KernelIn(g, HeaderOf(g)) == Wanted(parts.kernel, KernelIn(f, h))
      && RamdiskIn(g, HeaderOf(g)) == Wanted(parts.ramdisk, RamdiskIn(f, h))
      && SecondIn(g, HeaderOf(g)) == Wanted(parts.second, SecondIn(f, h))
  {
    var img := ToUpdate(f, file, args).value;
    var h := HeaderOf(f);
    ToUpdateOpened(f, file, args);
    CheckedDescribes(f);
    DescribedReads(h, f);
    UpdatedHeader(img, parts);
    SameRegions(f, h, img.header);
    var c := Updated(img, parts).value;
    hide Configured, Updated, WrittenImage, CheckHeader, HeaderOf, ToU32, TotalSize, RamdiskOffset, SecondOffset;
    hide ReadAt, Sane, PartOf, Describes;
    UpdateExtracts(img, parts, c, pending);
    UpdateCanBeOpened(img, parts, c, pending);
  }

  lemma CheckedDescribes(f: seq<byte>)
    requires HEADER_LEN <= |f| && CheckHeader(HeaderOf(f), ToU32(|f|)) && Sane(HeaderOf(f))
    ensures Describes(HeaderOf(f), f) && HeaderOf(f).magic == BOOT_MAGIC
  {
    assert ToU32(|f|) <= |f| by {
      QuotientBound(|f|, U32);
    }
    hide TotalSize, HeaderOf, ToU32, Sane;
  }

  /** Where the parts lie depends only on the sizes and the page size. */
  lemma SameRegions(f: seq<byte>, h: Header, g: Header)
    requires 0 < h.pageSize == g.pageSize
    requires h.kernelSize == g.kernelSize && h.ramdiskSize == g.ramdiskSize && h.secondSize == g.secondSize
    ensures KernelIn(f, h) == KernelIn(f, g) && RamdiskIn(f, h) == RamdiskIn(f, g) && SecondIn(f, h) == SecondIn(f, g)
  {
    hide DivRoundUp32, ToU32, ReadAt;
  }

  // ---- create ----

  /** abootimg --create, into a file that starts out empty; kernel and ramdisk are mandatory. */
  function CreateResult(file: Option<seq<byte>>, args: seq<byte>, parts: Parts, pending: nat): Option<seq<byte>> {
    if parts.kernel.None? || parts.ramdisk.None? then None
    else match Configured(Cfg(0, NEW_HEADER), file, args)
      case None => None
      case Some(d) =>
        match Updated(Img(d.size, d.header, None, None, None, []), parts)
        case None => None
        case Some(c) =>
          if CheckHeader(c.header, c.size) && ValidHeader(c.header) && HEADER_LEN <= c.header.pageSize
          then WrittenImage(c, pending) else None
  }

  method Create(stream: File, file: Option<seq<byte>>, args: seq<byte>, parts: Parts, pending: nat) returns (ok: bool)
    modifies stream
    ensures ok == CreateResult(file, args, parts, pending).Some?
    ensures ok ==> CreateResult(file, args, parts, pending) == Some(stream.bytes)
  {
    NewIsValid();
    hide Configured, CheckHeader, Updated, WrittenImage, ValidHeader, NEW_HEADER;
    if parts.kernel.None? || parts.ramdisk.None? {
      return false;
    }
    stream.bytes, stream.pos := [], 0;
    var img := new BootImg(stream);
    ok := Configure(img, file, args);
    if !ok {
      return;
    }
    ConfiguredKeepsSizes(Cfg(0, NEW_HEADER), file, args);
    ghost var start := img.State();
    ok := img.UpdateImages(parts);
    if !ok {
      return;
    }
    UpdatedHeader(start, parts);
    if !CheckHeader(img.header, img.size) {
      return false;
    }
    if img.header.pageSize < HEADER_LEN {
      return false;
    }
    ok := img.WriteBootimg(pending);
  }

  lemma NewIsValid()
    ensures ValidHeader(NEW_HEADER) && NEW_HEADER.magic == BOOT_MAGIC && NEW_HEADER.secondSize == 0
  {
  }

  /** abootimg --create, then abootimg -x: extraction finds the parts that were given. */
  lemma CreateThenExtract(file: Option<seq<byte>>, args: seq<byte>, parts: Parts, pending: nat)
    requires CreateResult(file, args, parts, pending).Some?
    requires var d := Configured(Cfg(0, NEW_HEADER), file, args).value;
      Sane(Updated(Img(d.size, d.header, None, None, None, []), parts).value.header)
    ensures var g := CreateResult(file, args, parts, pending).value;
      && HEADER_LEN <= |g| && 0 < HeaderOf(g).pageSize && (CheckHeader(HeaderOf(g), ToU32(|g|)) <==> |g| < U32)
      && KernelIn(g, HeaderOf(g)) == PartOf(parts.kernel.value)
      && RamdiskIn(g, HeaderOf(g)) == PartOf(parts.ramdisk.value)
      && SecondIn(g, HeaderOf(g)) == (if parts.second.Some? then PartOf(parts.second.value) else None)
  {
    NewIsValid();
    ConfiguredKeepsSizes(Cfg(0, NEW_HEADER), file, args);
    var d := Configured(Cfg(0, NEW_HEADER), file, args).value;
    var img := Img(d.size, d.header, None, None, None, []);
    var c := Updated(img, parts).value;
    UpdatedHeader(img, parts);
    NoSecond(img.header);
    hide Configured, Updated, WrittenImage, CheckHeader, HeaderOf, ToU32, TotalSize, RamdiskOffset, SecondOffset;
    hide ReadAt, Sane, PartOf;
    UpdateExtracts(img, parts, c, pending);
    UpdateCanBeOpened(img, parts, c, pending);
  }

  lemma NoSecond(h: Header)
    requires h.secondSize == 0
    ensures 0 < h.pageSize ==> SecondIn([], h) == None
  {
  }

  // ---- extract ----

  /** What is written: the program stops at the first part it cannot read. */
  datatype Extracts = Extracts(config: seq<byte>, kernel: Option<seq<byte>>, ramdisk: Option<seq<byte>>,
                               second: Extraction)

  function ExtractsOf(f: seq<byte>): Option<Extracts> {
    if |f| < HEADER_LEN || !CheckHeader(HeaderOf(f), ToU32(|f|)) then None
    else
      var h := HeaderOf(f);
      var kernel := KernelIn(f, h);
      var ramdisk := if kernel.Some? then RamdiskIn(f, h) else None;
      var second := if ramdisk.Some? then ExtractSecond(f, h) else Failed;
      Some(Extracts(Printed(Cfg(ToU32(|f|), h)), kernel, ramdisk, second))
  }

  /** abootimg -x, on an image whose strings are terminated. */
  method Extract(stream: File) returns (x: Option<Extracts>)
    requires HEADER_LEN <= |stream.bytes| ==> Printable(Cfg(ToU32(|stream.bytes|), HeaderOf(stream.bytes)))
    modifies stream`pos
    ensures x == ExtractsOf(stream.bytes)
  {
    hide HeaderOf, ToU32, TotalSize, RamdiskOffset, SecondOffset, ReadAt, Printed, Printable;
    var img := new BootImg(stream);
    var ok := img.ReadHeader();
    if !ok {
      return None;
    }
    var config := WriteConfig(img);
    var kernel := img.ExtractKernel();
    if kernel.None? {
      return Some(Extracts(config, None, None, Failed));
    }
    var ramdisk := img.ExtractRamdisk();
    if ramdisk.None? {
      return Some(Extracts(config, kernel, None, Failed));
    }
    var second := img.ExtractSecondStage();
    x := Some(Extracts(config, kernel, ramdisk, second));
  }

  /** What extract finds, given what the parts read. */
  function Found(kernel: Option<seq<byte>>, second: Option<seq<byte>>): Extraction
    requires kernel.Some?
  {
    if second.None? then Absent
    else if |second.value| > |kernel.value| then TooLarge
    else Extracted(second.value)
  }

  lemma ExtractsAre(f: seq<byte>)
    requires HEADER_LEN <= |f| && CheckHeader(HeaderOf(f), ToU32(|f|))
    requires KernelIn(f, HeaderOf(f)).Some? && RamdiskIn(f, HeaderOf(f)).Some?
    requires HeaderOf(f).secondSize != 0 ==> SecondIn(f, HeaderOf(f)).Some?
    ensures ExtractsOf(f).Some?
    ensures var x, h := ExtractsOf(f).value, HeaderOf(f);
      x.kernel == KernelIn(f, h) && x.ramdisk == RamdiskIn(f, h) && x.second == Found(KernelIn(f, h), SecondIn(f, h))
  {
    hide HeaderOf, ToU32, TotalSize, RamdiskOffset, SecondOffset, Printed;
  }

  /**
   * The whole cycle: extracting an updated image, shorter than 2^32 bytes, succeeds and gives the new and the old
   * parts; the second stage comes out exactly when it is no larger than the kernel, whose size its buffer has.
   */
  lemma ExtractsAfterUpdate(f: seq<byte>, file: Option<seq<byte>>, args: seq<byte>, parts: Parts, pending: nat)
    requires HEADER_LEN <= |f| && Sane(HeaderOf(f))
    requires UpdateResult(f, file, args, parts, pending).Some?
    requires ToUpdate(f, file, args).value.header.pageSize == HeaderOf(f).pageSize
    requires Sane(Updated(ToUpdate(f, file, args).value, parts).value.header)
    ensures var h := HeaderOf(f);
      var k, r, s := Wanted(parts.kernel, KernelIn(f, h)), Wanted(parts.ramdisk, RamdiskIn(f, h)),
        Wanted(parts.second, SecondIn(f, h));
      var g := UpdateResult(f, file, args, parts, pending).value;
      && k.Some? && r.Some? && (ExtractsOf(g).Some? <==> |g| < U32)
      && (|g| < U32 ==> var x := ExtractsOf(g).value; x.kernel == k && x.ramdisk == r && x.second == Found(k, s))
  {
    var g := UpdateResult(f, file, args, parts, pending).value;
    UpdateThenExtract(f, file, args, parts, pending);
    DescribedAfter(f, file, args, parts, pending);
    DescribedReads(HeaderOf(g), g);
    if !CheckHeader(HeaderOf(g), ToU32(|g|)) {
      ExtractsUnless(g);
    }
    hide UpdateResult, ToUpdate, CheckHeader, HeaderOf, ToU32, Sane, Updated, KernelIn, RamdiskIn, SecondIn;
    hide Wanted, ExtractsOf, Found;
    if |g| < U32 {
      ExtractsAre(g);
    }
  }

  lemma ExtractsUnless(f: seq<byte>)
    requires HEADER_LEN <= |f| && !CheckHeader(HeaderOf(f), ToU32(|f|))
    ensures ExtractsOf(f) == None
  {
    hide CheckHeader, HeaderOf, ToU32;
  }

  lemma DescribedAfter(f: seq<byte>, file: Option<seq<byte>>, args: seq<byte>, parts: Parts, pending: nat)
    requires HEADER_LEN <= |f| && Sane(HeaderOf(f)) && UpdateResult(f, file, args, parts, pending).Some?
    requires ToUpdate(f, file, args).value.header.pageSize == HeaderOf(f).pageSize
    requires Sane(Updated(ToUpdate(f, file, args).value, parts).value.header)
    ensures var g := UpdateResult(f, file, args, parts, pending).value; HEADER_LEN <= |g| && Describes(HeaderOf(g), g)
  {
    var img := ToUpdate(f, file, args).value;
    ToUpdateOpened(f, file, args);
    CheckedDescribes(f);
    DescribedReads(HeaderOf(f), f);
    UpdatedHeader(img, parts);
    SameRegions(f, HeaderOf(f), img.header);
    hide Configured, Updated, WrittenImage, CheckHeader, HeaderOf, ToU32, TotalSize, RamdiskOffset, SecondOffset;
    hide ReadAt, Sane, PartOf, Describes;
    UpdateExtracts(img, parts, Updated(img, parts).value, pending);
    UpdatedDescribes(img, parts, UpdateResult(f, file, args, parts, pending).value);
  }

  lemma UpdatedDescribes(img: Img, parts: Parts, g: seq<byte>)
    requires Opened(img) && Updated(img, parts).Some? && Kept(img, parts)
    requires var c := Updated(img, parts).value;
      Sane(c.header) && HEADER_LEN <= c.size <= |g| && HeaderOf(g) == c.header
    ensures Describes(HeaderOf(g), g)
  {
    hide *;
    OpenedPage(img);
    UpdatedLoads(img, parts);
    SizesPresent(img, parts, Updated(img, parts).value);
    LoadedTotal(img, parts, Updated(img, parts).value);
    DescribesIs(HeaderOf(g), g);
  }

  lemma DescribesIs(h: Header, f: seq<byte>)
    ensures Describes(h, f) <==> Sane(h) && h.kernelSize != 0 && h.ramdiskSize != 0 && TotalSize(h) <= |f|
  {
    hide Sane, TotalSize;
  }

  // ---- what the settings do ----

  /** The header of the updated file: the configured one, with the sizes of the parts. */
  lemma HeaderAfterUpdate(f: seq<byte>, file: Option<seq<byte>>, args: seq<byte>, parts: Parts, pending: nat)
    requires HEADER_LEN <= |f| && UpdateResult(f, file, args, parts, pending).Some?
    requires Sane(Updated(ToUpdate(f, file, args).value, parts).value.header)
    ensures Configured(Cfg(ToU32(|f|), HeaderOf(f)), file, args).Some?
    ensures var g, d := UpdateResult(f, file, args, parts, pending).value,
      Configured(Cfg(ToU32(|f|), HeaderOf(f)), file, args).value;
      && HEADER_LEN <= |g| && HeaderOf(g) == SameSettings(d.header, HeaderOf(g))
      && (d.size != 0 ==> d.size <= |g| <= d.size + d.header.pageSize)
  {
    hide *;
    UpdateIs(f, file, args, parts, pending);
    ToUpdateOpened(f, file, args);
    var img := ToUpdate(f, file, args).value;
    OpenedFrom(img, parts);
    HeaderWritten(img, parts, Updated(img, parts).value, pending);
    SameSettingsIs(img.header, Updated(img, parts).value.header);
  }

  /** d with the sizes of h. */
  function SameSettings(d: Header, h: Header): Header {
    d.(kernelSize := h.kernelSize, ramdiskSize := h.ramdiskSize, secondSize := h.secondSize)
  }

  lemma SameSettingsIs(d: Header, h: Header)
    ensures SameSettings(d, h) ==
      d.(kernelSize := h.kernelSize, ramdiskSize := h.ramdiskSize, secondSize := h.secondSize)
  {
  }

  lemma UpdateIs(f: seq<byte>, file: Option<seq<byte>>, args: seq<byte>, parts: Parts, pending: nat)
    requires HEADER_LEN <= |f| && UpdateResult(f, file, args, parts, pending).Some?
    ensures ToUpdate(f, file, args).Some? && CheckHeader(HeaderOf(f), ToU32(|f|))
    ensures Configured(Cfg(ToU32(|f|), HeaderOf(f)), file, args).Some?
    ensures var d := Configured(Cfg(ToU32(|f|), HeaderOf(f)), file, args).value;
      ToUpdate(f, file, args).value == Img(d.size, d.header, None, None, None, f)
    ensures Updated(ToUpdate(f, file, args).value, parts).Some?
    ensures var c := Updated(ToUpdate(f, file, args).value, parts).value;
      && ValidHeader(c.header) && HEADER_LEN <= c.header.pageSize
      && WrittenImage(c, pending) == UpdateResult(f, file, args, parts, pending)
  {
    hide Configured, CheckHeader, HeaderOf, ToU32, Updated, WrittenImage, ValidHeader;
  }

  lemma OpenedFrom(img: Img, parts: Parts)
    requires img.kernel == None && img.ramdisk == None && img.second == None && ValidHeader(img.header)
    requires Updated(img, parts).Some?
    ensures Opened(img)
  {
    hide ValidHeader, WithKernel, WithRamdisk, WithSecond, WithSize;
  }

  /** Settings given with -c win over whatever the file says. */
  lemma ArgumentsSet(d: Cfg, file: Option<seq<byte>>, c: Cfg)
    requires PlainStrings(c) && Configured(d, file, Printed(c)).Some?
    ensures Restored(Configured(d, file, Printed(c)).value, c)
  {
    hide *;
    ConfiguredIs(d, file, Printed(c));
    PrintedApplied(if file.Some? then Parsed(d, false, file.value).value else d, c);
  }

  /** Without -c the settings of the file are there. */
  lemma FileSets(d: Cfg, c: Cfg)
    requires PlainStrings(c)
    ensures Configured(d, Some(Printed(c)), []).Some? && Restored(Configured(d, Some(Printed(c)), []).value, c)
  {
    hide *;
    PrintedApplied(d, c);
    ConfiguredIs(d, Some(Printed(c)), []);
    ParsedNothing(Applied(d, c), false);
  }

  lemma ConfiguredIs(c: Cfg, file: Option<seq<byte>>, args: seq<byte>)
    ensures Configured(c, file, args) ==
      if file.None? then Parsed(c, false, args)
      else match Parsed(c, false, file.value) case Some(d) => Parsed(d, false, args) case None => None
  {
    hide Parsed;
  }

  /** A file that ends its last line, and then the arguments, are one text. */
  lemma ConfiguredAtOnce(c: Cfg, text: seq<byte>, args: seq<byte>)
    requires text != [] ==> text[|text| - 1] == NEWLINE
    ensures Configured(c, Some(text), args) == Parsed(c, false, text + args)
  {
    hide *;
    ConfiguredIs(c, Some(text), args);
    ParsedTwice(c, false, text, args);
  }

  /** One setting with -c over a file: that one is the argument's, the others are the file's. */
  lemma ArgumentOverFile(d: Cfg, c: Cfg, w: seq<byte>)
    requires PlainStrings(c) && 0 !in w && Plain(w) && |w| < BOOT_ARGS_SIZE
    ensures var x := Configured(d, Some(Printed(c)), Line(CMDLINE, w));
      x.Some? && Restored(x.value, c.(header := c.header.(cmdline := Stored(w, BOOT_ARGS_SIZE))))
  {
    hide *;
    PrintedApplied(d, c);
    ConfiguredIs(d, Some(Printed(c)), Line(CMDLINE, w));
    CmdlineParsed(Applied(d, c), false, w);
    CommandedRestores(Applied(d, c), c, w);
  }

  lemma CommandedRestores(d: Cfg, c: Cfg, w: seq<byte>)
    requires Restored(d, c)
    ensures Restored(Commanded(d, w), c.(header := c.header.(cmdline := Stored(w, BOOT_ARGS_SIZE))))
  {
    hide CString, Stored;
  }

  /** Decimal numbers given with -c, without blanks, each set the field of their key and nothing else. */
  lemma DecimalSettings(c: Cfg, n: u32)
    ensures Configured(c, None, Setting([], BOOTSIZE, [], [], Numeral(n, 10)) + [NEWLINE]) == Some(c.(size := n))
    ensures Configured(c, None, Setting([], PAGESIZE, [], [], Numeral(n, 10)) + [NEWLINE]) ==
      Some(c.(header := c.header.(pageSize := n)))
    ensures Configured(c, None, Setting([], KERNELADDR, [], [], Numeral(n, 10)) + [NEWLINE]) ==
      Some(c.(header := c.header.(kernelAddr := n)))
    ensures Configured(c, None, Setting([], RAMDISKADDR, [], [], Numeral(n, 10)) + [NEWLINE]) ==
      Some(c.(header := c.header.(ramdiskAddr := n)))
    ensures Configured(c, None, Setting([], SECONDADDR, [], [], Numeral(n, 10)) + [NEWLINE]) ==
      Some(c.(header := c.header.(secondAddr := n)))
    ensures Configured(c, None, Setting([], TAGSADDR, [], [], Numeral(n, 10)) + [NEWLINE]) ==
      Some(c.(header := c.header.(tagsAddr := n)))
  {
    hide *;
    Keys();
    AssignedByKey(c, false, Numeral(n, 10));
    DecimalValue(n);
    OneDecimal(c, BOOTSIZE, n);
    OneDecimal(c, PAGESIZE, n);
    OneDecimal(c, KERNELADDR, n);
    OneDecimal(c, RAMDISKADDR, n);
    OneDecimal(c, SECONDADDR, n);
    OneDecimal(c, TAGSADDR, n);
  }

  lemma DecimalValue(n: u32)
    ensures ToU32(StrToUl(Numeral(n, 10))) == n
  {
    DecimalRead(n);
    hide StrToUl, Numeral;
    SmallMod(n);
  }

  lemma OneDecimal(c: Cfg, k: seq<byte>, n: u32)
    requires Key(k)
    ensures Configured(c, None, Setting([], k, [], [], Numeral(n, 10)) + [NEWLINE]) ==
      Assigned(c, false, k, Numeral(n, 10))
  {
    hide *;
    DecimalText(n);
    NoBlanks();
    var l := Setting([], k, [], [], Numeral(n, 10));
    SettingLine([], k, [], [], Numeral(n, 10));
    OneLineIs(l);
    EnteredSetting(c, false, [], k, [], [], Numeral(n, 10));
    ParsedLine(c, false, l, []);
    assert l + [NEWLINE] + [] == l + [NEWLINE];
    ConfiguredIs(c, None, l + [NEWLINE]);
    if Assigned(c, false, k, Numeral(n, 10)).Some? {
      ParsedNothing(Assigned(c, false, k, Numeral(n, 10)).value, false);
    }
  }

  lemma NoBlanks()
    ensures Blanks([])
  {
  }

  lemma OneLineIs(v: seq<byte>)
    ensures OneLine(v) <==> 0 !in v && NEWLINE !in v
  {
  }

  lemma DecimalText(n: nat)
    ensures OneLine(Numeral(n, 10)) && SkipBlanks(Numeral(n, 10)) == Numeral(n, 10)
  {
    hide *;
    NumeralDigits(n, 10);
    DigitsText(Numeral(n, 10), n);
  }

  lemma DigitsText(s: seq<byte>, n: nat)
    requires ReadsAs(s, n, 10)
    ensures OneLine(s) && SkipBlanks(s) == s
  {
    hide Digits;
  }

  /** abootimg -u without settings: the header keeps all of them, and the file its length but for a page. */
  lemma UpdateWithout(f: seq<byte>, parts: Parts, pending: nat)
    requires HEADER_LEN <= |f| < U32 && UpdateResult(f, None, [], parts, pending).Some?
    requires Sane(Updated(ToUpdate(f, None, []).value, parts).value.header)
    ensures var g := UpdateResult(f, None, [], parts, pending).value;
      && HEADER_LEN <= |g| && HeaderOf(g) == SameSettings(HeaderOf(f), HeaderOf(g))
      && |f| <= |g| <= |f| + HeaderOf(f).pageSize
  {
    hide *;
    HeaderAfterUpdate(f, None, [], parts, pending);
    HeaderLong();
    SmallMod(|f|);
    ConfiguredIs(Cfg(ToU32(|f|), HeaderOf(f)), None, []);
    ParsedNothing(Cfg(ToU32(|f|), HeaderOf(f)), false);
  }

  lemma HeaderLong()
    ensures 0 < HEADER_LEN
  {
  }

  /** abootimg -u with settings: they are in the header of the updated file, and its size is the one asked for. */
  lemma UpdateSettings(f: seq<byte>, file: Option<seq<byte>>, args: seq<byte>, c: Cfg, parts: Parts, pending: nat)
    requires HEADER_LEN <= |f| && UpdateResult(f, file, args, parts, pending).Some? && PlainStrings(c)
    requires args == Printed(c) || (args == [] && file == Some(Printed(c)))
    requires Sane(Updated(ToUpdate(f, file, args).value, parts).value.header)
    ensures var g := UpdateResult(f, file, args, parts, pending).value;
      && HEADER_LEN <= |g| && Restored(Cfg(c.size, HeaderOf(g)), c)
      && (c.size != 0 ==> c.size <= |g| <= c.size + c.header.pageSize)
  {
    hide *;
    HeaderAfterUpdate(f, file, args, parts, pending);
    var d := Cfg(ToU32(|f|), HeaderOf(f));
    if args == Printed(c) {
      ArgumentsSet(d, file, c);
    } else {
      FileSets(d, c);
    }
    RestoredHeader(Configured(d, file, args).value, c, HeaderOf(UpdateResult(f, file, args, parts, pending).value));
  }

  lemma RestoredHeader(d: Cfg, c: Cfg, h: Header)
    requires Restored(d, c) && h == SameSettings(d.header, h)
    ensures Restored(Cfg(c.size, h), c) && d.size == c.size && d.header.pageSize == c.header.pageSize
  {
    hide CString;
  }

  /** abootimg --create with settings. */
  lemma CreateSettings(file: Option<seq<byte>>, args: seq<byte>, c: Cfg, parts: Parts, pending: nat)
    requires CreateResult(file, args, parts, pending).Some? && PlainStrings(c)
    requires args == Printed(c) || (args == [] && file == Some(Printed(c)))
    requires var d := Configured(Cfg(0, NEW_HEADER), file, args).value;
      Sane(Updated(Img(d.size, d.header, None, None, None, []), parts).value.header)
    ensures var g := CreateResult(file, args, parts, pending).value;
      && HEADER_LEN <= |g| && Restored(Cfg(c.size, HeaderOf(g)), c)
      && (c.size != 0 ==> c.size <= |g| <= c.size + c.header.pageSize)
  {
    hide *;
    CreateIs(file, args, parts, pending);
    var d := Cfg(0, NEW_HEADER);
    if args == Printed(c) {
      ArgumentsSet(d, file, c);
    } else {
      FileSets(d, c);
    }
    var e := Configured(d, file, args).value;
    ConfiguredKeepsSizes(d, file, args);
    NewIsValid();
    SameSizesValid(d, e);
    var img := Img(e.size, e.header, None, None, None, []);
    OpenedFrom(img, parts);
    HeaderWritten(img, parts, Updated(img, parts).value, pending);
    SameSettingsIs(e.header, Updated(img, parts).value.header);
    RestoredHeader(e, c, Updated(img, parts).value.header);
  }

  lemma SameSizesValid(c: Cfg, d: Cfg)
    requires SameSizes(c, d) && ValidHeader(c.header)
    ensures ValidHeader(d.header)
  {
  }

  lemma CreateIs(file: Option<seq<byte>>, args: seq<byte>, parts: Parts, pending: nat)
    requires CreateResult(file, args, parts, pending).Some?
    ensures Configured(Cfg(0, NEW_HEADER), file, args).Some?
    ensures var d := Configured(Cfg(0, NEW_HEADER), file, args).value;
      var img := Img(d.size, d.header, None, None, None, []);
      && Updated(img, parts).Some?
      && var c := Updated(img, parts).value;
      && ValidHeader(c.header) && HEADER_LEN <= c.header.pageSize
      && WrittenImage(c, pending) == CreateResult(file, args, parts, pending)
  {
    hide Configured, CheckHeader, Updated, WrittenImage, ValidHeader, NEW_HEADER;
  }

  // ---- the configuration that is extracted ----

  lemma ConfigIs(f: seq<byte>)
    requires ExtractsOf(f).Some?
    ensures HEADER_LEN <= |f| && CheckHeader(HeaderOf(f), ToU32(|f|))
    ensures ExtractsOf(f).value.config == Printed(Cfg(ToU32(|f|), HeaderOf(f)))
  {
    hide HeaderOf, ToU32, CheckHeader, Printed, KernelIn, RamdiskIn, ExtractSecond;
  }

  /** The extracted configuration stands for the settings of the image and for the length of its file. */
  lemma ConfigExtracted(f: seq<byte>, base: Cfg)
    requires ExtractsOf(f).Some? && HEADER_LEN <= |f| < U32 && PlainStrings(Cfg(|f|, HeaderOf(f)))
    ensures var d := Parsed(base, false, ExtractsOf(f).value.config);
      d.Some? && d.value.size == |f| && Restored(d.value, Cfg(|f|, HeaderOf(f)))
  {
    hide *;
    ConfigIs(f);
    SmallMod(|f|);
    U32Is();
    PrintedApplied(base, Cfg(|f|, HeaderOf(f)));
    RestoredSize(Applied(base, Cfg(|f|, HeaderOf(f))), Cfg(|f|, HeaderOf(f)));
  }

  lemma RestoredSize(d: Cfg, c: Cfg)
    requires Restored(d, c)
    ensures d.size == c.size
  {
    hide CString;
  }

  /** The header of f with its strings stored once more: what follows their terminators is cleared. */
  function Cleared(h: Header): Header {
    h.(name := Stored(CString(h.name), BOOT_NAME_SIZE), cmdline := Stored(CString(h.cmdline), BOOT_ARGS_SIZE))
  }

  lemma AppliedToItself(n: u32, h: Header)
    ensures Applied(Cfg(n, h), Cfg(n, h)) == Cfg(n, Cleared(h))
  {
    hide Stored, CString;
  }

  /**
   * Updating an image with the configuration extracted from it, and nothing else, works exactly when it has no second
   * stage, and then leaves the header as it was but for what follows the ends of its strings, which is cleared.
   */
  lemma ExtractThenUpdate(f: seq<byte>, pending: nat)
    requires ExtractsOf(f).Some? && HEADER_LEN <= |f| < U32 && PlainStrings(Cfg(|f|, HeaderOf(f))) && Sane(HeaderOf(f))
    ensures var r := UpdateResult(f, Some(ExtractsOf(f).value.config), [], Parts(None, None, None), pending);
      && (r.Some? <==> HeaderOf(f).secondSize == 0)
      && (r.Some? ==> HEADER_LEN <= |r.value| && HeaderOf(r.value) == Cleared(HeaderOf(f)) && |f| <= |r.value|)
  {
    hide *;
    ConfigIs(f);
    SmallMod(|f|);
    U32Is();
    var h, config, none := HeaderOf(f), ExtractsOf(f).value.config, Parts(None, None, None);
    PrintedApplied(Cfg(|f|, h), Cfg(|f|, h));
    AppliedToItself(|f|, h);
    ConfiguredIs(Cfg(|f|, h), Some(config), []);
    ParsedNothing(Cfg(|f|, Cleared(h)), false);
    var img := Img(|f|, Cleared(h), None, None, None, f);
    ToUpdateIs(f, Some(config), []);
    CheckedDescribes(f);
    ClearedComplete(f, img);
    ClearedSane(h);
    DescribesIs(h, f);
    UpdateExactly(img, none, pending);
    NothingNew(img, none);
    ResultIs(f, Some(config), [], none, pending);
    if UpdateResult(f, Some(config), [], none, pending).Some? {
      HeaderWritten(img, none, Updated(img, none).value, pending);
    }
  }

  lemma ToUpdateIs(f: seq<byte>, file: Option<seq<byte>>, args: seq<byte>)
    requires HEADER_LEN <= |f| && CheckHeader(HeaderOf(f), ToU32(|f|))
    ensures ToUpdate(f, file, args) ==
      match Configured(Cfg(ToU32(|f|), HeaderOf(f)), file, args)
      case Some(c) => Some(Img(c.size, c.header, None, None, None, f))
      case None => None
  {
    hide Configured, CheckHeader, HeaderOf, ToU32;
  }

  lemma ResultIs(f: seq<byte>, file: Option<seq<byte>>, args: seq<byte>, parts: Parts, pending: nat)
    requires ToUpdate(f, file, args).Some?
    ensures UpdateResult(f, file, args, parts, pending) ==
      match Updated(ToUpdate(f, file, args).value, parts)
      case None => None
      case Some(c) =>
        if ValidHeader(c.header) && HEADER_LEN <= c.header.pageSize then WrittenImage(c, pending) else None
  {
    hide ToUpdate, Updated, WrittenImage, ValidHeader;
  }

  lemma ClearedSane(h: Header)
    requires Sane(h)
    ensures Sane(Cleared(h)) && HEADER_LEN <= h.pageSize && Cleared(h).secondSize == h.secondSize
  {
    hide DivRoundUp, Stored, CString;
  }

  lemma ClearedComplete(f: seq<byte>, img: Img)
    requires HEADER_LEN <= |f| < U32 && Describes(HeaderOf(f), f)
    requires img == Img(|f|, Cleared(HeaderOf(f)), None, None, None, f)
    ensures Complete(img) && Opened(img) && TotalSize(img.header) == TotalSize(HeaderOf(f)) && ValidHeader(img.header)
  {
    ClearedSane(HeaderOf(f));
    hide HeaderOf, Stored, CString, Sane, Pages;
  }

  lemma NothingNew(img: Img, parts: Parts)
    requires parts == Parts(None, None, None) && Complete(img) && TotalSize(img.header) <= img.size
    ensures NewHeader(img.header, parts) == img.header
    ensures Readable(parts.kernel) && Readable(parts.ramdisk) && Readable(parts.second)
    ensures HEADER_LEN <= img.header.pageSize
  {
    hide TotalSize;
  }
}
