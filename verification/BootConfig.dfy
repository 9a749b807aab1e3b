/** The textual configuration of a boot image: its printer, and the parser that updates a header from it. */
module BootConfig {
  import opened Defs
  import opened BootImage

  /** Text, one byte to a character. */
  function Ascii(s: string): (r: seq<byte>)
    requires forall i :: 0 <= i < |s| ==> s[i] < '\U{0080}'
    ensures |r| == |s| && forall i :: 0 <= i < |r| ==> r[i] == s[i] as int
  {
    seq(|s|, i requires 0 <= i < |s| => s[i] as int)
  }

  const NEWLINE: byte := 0x0A
  const TAB: byte := 0x09
  const BLANK: byte := 0x20
  const EQUALS: byte := 0x3D

  // ---- C strings ----

  /** s up to the first x. */
  function Upto(s: seq<byte>, x: byte): (r: seq<byte>)
    ensures |r| <= |s| && r == s[..|r|] && x !in r
    ensures |r| < |s| ==> s[|r|] == x
  {
    if s == [] || s[0] == x then [] else [s[0]] + Upto(s[1..], x)
  }

  /** The string in a buffer. */
  function CString(s: seq<byte>): seq<byte> {
    Upto(s, 0)
  }

  predicate IsBlank(b: byte) {
    b == BLANK || b == TAB
  }

  /** strspn(s, " \t") skipped. */
  function SkipBlanks(s: seq<byte>): (r: seq<byte>)
    ensures |r| <= |s| && r == s[|s| - |r|..]
    ensures r != [] ==> !IsBlank(r[0])
  {
    if s != [] && IsBlank(s[0]) then SkipBlanks(s[1..]) else s
  }

  /** strcspn(s, " =\t"). */
  function Token(s: seq<byte>): (r: seq<byte>)
    ensures |r| <= |s| && r == s[..|r|]
    ensures forall i :: 0 <= i < |r| ==> !IsBlank(r[i]) && r[i] != EQUALS
    ensures |r| < |s| ==> IsBlank(s[|r|]) || s[|r|] == EQUALS
  {
    if s == [] || IsBlank(s[0]) || s[0] == EQUALS then [] else [s[0]] + Token(s[1..])
  }

  /** strncpy into a buffer of n bytes that is cut at its last byte. */
  function Stored(v: seq<byte>, n: nat): (r: seq<byte>)
    requires 0 < n
    ensures |r| == n
  {
    seq(n, (i: nat) => if i < n - 1 then At(v, i) else 0)
  }

  // ---- numbers ----

  const ULONG: int := 0x1_0000_0000_0000_0000

  function DigitOf(b: byte): nat {
    if 0x30 <= b <= 0x39 then b - 0x30
    else if 0x61 <= b <= 0x7A then b - 0x61 + 10
    else if 0x41 <= b <= 0x5A then b - 0x41 + 10
    else 36
  }

  /** The value of the longest prefix of digits. */
  function Digits(s: seq<byte>, base: nat, acc: nat): nat {
    if s == [] || DigitOf(s[0]) >= base then acc else Digits(s[1..], base, acc * base + DigitOf(s[0]))
  }

  predicate IsSpace(b: byte) {
    b == BLANK || 0x09 <= b <= 0x0D
  }

  function SkipSpace(s: seq<byte>): seq<byte> {
    if s != [] && IsSpace(s[0]) then SkipSpace(s[1..]) else s
  }

  predicate HasHexPrefix(s: seq<byte>) {
    |s| > 2 && s[0] == 0x30 && (s[1] == 0x78 || s[1] == 0x58) && DigitOf(s[2]) < 16
  }

  /** The magnitude that strtoul reads with base 0. */
  function Magnitude(s: seq<byte>): nat {
    if HasHexPrefix(s) then Digits(s[2..], 16, 0)
    else if s != [] && s[0] == 0x30 then Digits(s, 8, 0)
    else Digits(s, 10, 0)
  }

  /** strtoul(s, NULL, 0) with a 64-bit `unsigned long`: saturating, and negating modulo 2^64. */
  function StrToUl(s: seq<byte>): nat {
    var t := SkipSpace(s);
    var neg := t != [] && t[0] == 0x2D;
    var v := Magnitude(if t != [] && (t[0] == 0x2D || t[0] == 0x2B) then t[1..] else t);
    if v >= ULONG then ULONG - 1 else if neg then (ULONG - v) % ULONG else v
  }

  function HexDigit(d: nat): byte
    requires d < 16
  {
    if d < 10 then 0x30 + d else 0x61 + d - 10
  }

  /** n in a base of at most sixteen, without a prefix. */
  function Numeral(n: nat, base: nat): (r: seq<byte>)
    requires 2 <= base <= 16
    ensures r != []
  {
    if n < base then [HexDigit(n)] else Numeral(n / base, base) + [HexDigit(n % base)]
  }

  /** printf's %x. */
  function Hex(n: nat): (r: seq<byte>)
    ensures r != []
  {
    Numeral(n, 16)
  }

  lemma HexDigitOf(d: nat)
    requires d < 16
    ensures DigitOf(HexDigit(d)) == d && 0x30 <= HexDigit(d)
  {
  }

  lemma {:induction false} DigitsSnoc(s: seq<byte>, b: byte, base: nat, acc: nat)
    requires (forall i :: 0 <= i < |s| ==> DigitOf(s[i]) < base) && DigitOf(b) < base
    ensures Digits(s + [b], base, acc) == Digits(s, base, acc) * base + DigitOf(b)
  {
    hide DigitOf;
    if s == [] {
      assert s + [b] == [b] && [b][1..] == [];
    } else {
      assert (s + [b])[0] == s[0] && (s + [b])[1..] == s[1..] + [b];
      DigitsSnoc(s[1..], b, base, acc * base + DigitOf(s[0]));
    }
  }

  lemma NumeralStep(n: nat, base: nat)
    requires 2 <= base <= 16
    ensures 0 <= n / base && 0 <= n % base < base
    ensures n < base ==> Numeral(n, base) == [HexDigit(n)]
    ensures base <= n ==> 0 < n / base < n && (n / base) * base + n % base == n
    ensures base <= n ==> Numeral(n, base) == Numeral(n / base, base) + [HexDigit(n % base)]
  {
    QuotientBound(n, base);
    assert n == (n / base) * base + n % base;
    MulMono(2, base, n / base);
    hide HexDigit;
  }

  lemma DigitsOne(b: byte, base: nat)
    requires DigitOf(b) < base
    ensures Digits([b], base, 0) == DigitOf(b)
  {
    assert [b][1..] == [];
    hide DigitOf;
  }

  /** A numeral in a base, and what it is read as; only that of zero starts with a zero. */
  ghost predicate ReadsAs(s: seq<byte>, n: nat, base: nat) {
    && s != [] && (forall i :: 0 <= i < |s| ==> DigitOf(s[i]) < base && 0x30 <= s[i])
    && Digits(s, base, 0) == n && (s[0] == 0x30 <==> n == 0)
  }

  lemma {:induction false} NumeralDigits(n: nat, base: nat)
    requires 2 <= base <= 16
    ensures ReadsAs(Numeral(n, base), n, base)
    decreases n
  {
    hide *;
    NumeralStep(n, base);
    if n < base {
      HexDigitOf(n);
      FirstDigit(n);
      OneReads(HexDigit(n), n, base);
    } else {
      HexDigitOf(n % base);
      NumeralDigits(n / base, base);
      SnocReads(Numeral(n / base, base), n / base, HexDigit(n % base), base);
    }
  }

  lemma OneReads(b: byte, n: nat, base: nat)
    requires DigitOf(b) == n < base && 0x30 <= b && (b == 0x30 <==> n == 0)
    ensures ReadsAs([b], n, base)
  {
    DigitsOne(b, base);
    hide DigitOf, Digits;
  }

  lemma SnocReads(s: seq<byte>, n: nat, b: byte, base: nat)
    requires ReadsAs(s, n, base) && 0 < n && DigitOf(b) < base && 0x30 <= b && 0 <= n * base
    ensures ReadsAs(s + [b], n * base + DigitOf(b), base)
  {
    MulMono(1, base, n);
    MulMono(1, n, base);
    DigitsSnoc(s, b, base, 0);
    hide DigitOf, Digits;
  }

  lemma FirstDigit(d: nat)
    requires d < 16
    ensures HexDigit(d) == 0x30 <==> d == 0
  {
  }

  lemma {:induction false} DigitsStop(s: seq<byte>, tail: seq<byte>, base: nat, acc: nat)
    requires forall i :: 0 <= i < |s| ==> DigitOf(s[i]) < base
    requires tail != [] ==> DigitOf(tail[0]) >= base
    ensures Digits(s + tail, base, acc) == Digits(s, base, acc)
  {
    hide DigitOf;
    if s == [] {
      assert s + tail == tail;
    } else {
      assert (s + tail)[0] == s[0] && (s + tail)[1..] == s[1..] + tail;
      DigitsStop(s[1..], tail, base, acc * base + DigitOf(s[0]));
    }
  }

  const HEX_PREFIX: seq<byte> := [0x30, 0x78]

  /** The prefixes that tell strtoul a base. */
  predicate Prefix(prefix: seq<byte>, base: nat) {
    || (prefix == [] && base == 10)
    || (prefix == [0x30] && base == 8)
    || ((prefix == HEX_PREFIX || prefix == [0x30, 0x58]) && base == 16)
  }

  lemma {:induction false} SpaceSkipped(ws: seq<byte>, s: seq<byte>)
    requires (forall i :: 0 <= i < |ws| ==> IsSpace(ws[i])) && s != [] && !IsSpace(s[0])
    ensures SkipSpace(ws + s) == s
  {
    if ws == [] {
      assert ws + s == s;
    } else {
      assert (ws + s)[0] == ws[0] && (ws + s)[1..] == ws[1..] + s;
      SpaceSkipped(ws[1..], s);
    }
  }

  lemma HexRead(prefix: seq<byte>, d: seq<byte>, n: nat, tail: seq<byte>)
    requires ReadsAs(d, n, 16) && (prefix == HEX_PREFIX || prefix == [0x30, 0x58])
    requires tail != [] ==> DigitOf(tail[0]) >= 16
    ensures Magnitude(prefix + d + tail) == n
  {
    var s := prefix + d + tail;
    DigitsStop(d, tail, 16, 0);
    assert s[2..] == d + tail && s[2] == d[0] && s[0] == 0x30 && s[1] == prefix[1];
    hide Digits, DigitOf;
  }

  lemma OctalRead(d: seq<byte>, n: nat, tail: seq<byte>)
    requires ReadsAs(d, n, 8) && (tail != [] ==> DigitOf(tail[0]) >= 8)
    ensures Magnitude([0x30] + d + tail) == n
  {
    var s := [0x30] + d + tail;
    DigitsStop(d, tail, 8, 0);
    assert s == [0x30] + (d + tail) && s[1] == d[0];
    LeadingZero(d + tail, 8);
    OctalDigit(d[0]);
    hide Digits, DigitOf;
  }

  lemma TenRead(d: seq<byte>, n: nat, tail: seq<byte>)
    requires ReadsAs(d, n, 10) && 0 < n && (tail != [] ==> DigitOf(tail[0]) >= 10)
    ensures Magnitude(d + tail) == n
  {
    DigitsStop(d, tail, 10, 0);
    assert (d + tail)[0] == d[0];
    hide Digits, DigitOf;
  }

  lemma ZeroRead()
    ensures Numeral(0, 10) == [0x30] && Magnitude([0x30]) == 0
  {
    DigitsOne(0x30, 8);
  }

  /** A number in decimal, octal or hexadecimal, up to the first character that is no digit of it. */
  lemma MagnitudeRead(prefix: seq<byte>, base: nat, n: nat, tail: seq<byte>)
    requires Prefix(prefix, base) && (tail != [] ==> DigitOf(tail[0]) >= base && (prefix != [] || 0 < n))
    ensures Magnitude(prefix + Numeral(n, base) + tail) == n
    ensures (prefix + Numeral(n, base) + tail)[0] >= 0x30
  {
    NumeralDigits(n, base);
    var d := Numeral(n, base);
    hide Digits, DigitOf, Numeral, Magnitude;
    if base == 16 {
      HexRead(prefix, d, n, tail);
    } else if base == 8 {
      OctalRead(d, n, tail);
    } else {
      assert prefix + d + tail == d + tail;
      if n == 0 {
        ZeroRead();
        assert d + [] == d;
      } else {
        TenRead(d, n, tail);
      }
    }
  }

  lemma LeadingZero(s: seq<byte>, base: nat)
    requires 2 <= base
    ensures Digits([0x30] + s, base, 0) == Digits(s, base, 0)
  {
    assert ([0x30] + s)[1..] == s;
  }

  lemma OctalDigit(b: byte)
    requires DigitOf(b) < 8
    ensures b != 0x78 && b != 0x58
  {
  }

  /**
   * strtoul with base 0: blanks, a sign, a prefix for the base, digits up to the first other character; saturating at
   * 64 bits, and negated modulo 2^64.
   */
  lemma NumberRead(ws: seq<byte>, sign: seq<byte>, prefix: seq<byte>, base: nat, n: nat, tail: seq<byte>)
    requires (forall i :: 0 <= i < |ws| ==> IsSpace(ws[i])) && (sign == [] || sign == [0x2B] || sign == [0x2D])
    requires Prefix(prefix, base) && (tail != [] ==> DigitOf(tail[0]) >= base && (prefix != [] || 0 < n))
    ensures StrToUl(ws + (sign + (prefix + Numeral(n, base) + tail))) ==
      if n >= 0x1_0000_0000_0000_0000 then 0xFFFF_FFFF_FFFF_FFFF
      else if sign == [0x2D] && 0 < n then 0x1_0000_0000_0000_0000 - n
      else n
  {
    MagnitudeRead(prefix, base, n, tail);
    var m := prefix + Numeral(n, base) + tail;
    var t := sign + m;
    assert sign == [] ==> t == m;
    assert sign != [] ==> t[0] == sign[0] && t[1..] == m;
    hide Magnitude, Numeral, Prefix, DigitOf;
    SpaceSkipped(ws, t);
  }

  lemma Bare(prefix: seq<byte>, d: seq<byte>)
    ensures [] + ([] + (prefix + d + [])) == prefix + d && [] + d == d
  {
  }

  lemma NumberRoundTrip(n: u32)
    ensures StrToUl(HEX_PREFIX + Hex(n)) == n
  {
    NumberRead([], [], HEX_PREFIX, 16, n, []);
    Bare(HEX_PREFIX, Numeral(n, 16));
    hide StrToUl, Numeral;
  }

  /** Decimal and octal numbers, as they are typed. */
  lemma DecimalRead(n: u32)
    ensures StrToUl(Numeral(n, 10)) == n && StrToUl([0x30] + Numeral(n, 8)) == n
  {
    NumberRead([], [], [], 10, n, []);
    NumberRead([], [], [0x30], 8, n, []);
    hide StrToUl, Numeral;
    Bare([], Numeral(n, 10));
    Bare([0x30], Numeral(n, 8));
  }

  // ---- the parser ----

  /** What a configuration sets: the image size and the header. */
  datatype Cfg = Cfg(size: u32, header: Header)

  const CMDLINE: seq<byte> := Ascii("cmdline")
  const NAME: seq<byte> := Ascii("name")
  const BOOTSIZE: seq<byte> := Ascii("bootsize")
  const PAGESIZE: seq<byte> := Ascii("pagesize")
  const KERNELADDR: seq<byte> := Ascii("kerneladdr")
  const RAMDISKADDR: seq<byte> := Ascii("ramdiskaddr")
  const SECONDADDR: seq<byte> := Ascii("secondaddr")
  const TAGSADDR: seq<byte> := Ascii("tagsaddr")

  /** strncmp over the length of the key: any token that starts with it will do. */
  predicate StartsWith(token: seq<byte>, key: seq<byte>) {
    |key| <= |token| && token[..|key|] == key
  }

  /** The assignment that a token asks for; None when the program stops. */
  function Assigned(c: Cfg, blk: bool, token: seq<byte>, value: seq<byte>): Option<Cfg> {
    var num := ToU32(StrToUl(value));
    if token == CMDLINE then
      if |value| >= BOOT_ARGS_SIZE then None
      else Some(c.(header := c.header.(cmdline := Stored(value, BOOT_ARGS_SIZE))))
    else if StartsWith(token, NAME) then Some(c.(header := c.header.(name := Stored(value, BOOT_NAME_SIZE))))
    else if StartsWith(token, BOOTSIZE) then if blk && c.size != num then None else Some(c.(size := num))
    else if StartsWith(token, PAGESIZE) then Some(c.(header := c.header.(pageSize := num)))
    else if StartsWith(token, KERNELADDR) then Some(c.(header := c.header.(kernelAddr := num)))
    else if StartsWith(token, RAMDISKADDR) then Some(c.(header := c.header.(ramdiskAddr := num)))
    else if StartsWith(token, SECONDADDR) then Some(c.(header := c.header.(secondAddr := num)))
    else if StartsWith(token, TAGSADDR) then Some(c.(header := c.header.(tagsAddr := num)))
    else None
  }

  /** update_header_entry on one line. */
  function Entered(c: Cfg, blk: bool, line: seq<byte>): Option<Cfg> {
    var t := SkipBlanks(Upto(CString(line), NEWLINE));
    var token := Token(t);
    var r := SkipBlanks(t[|token|..]);
    if r == [] || r[0] != EQUALS then None else Assigned(c, blk, token, SkipBlanks(r[1..]))
  }

  /** getline: up to and with the next newline. */
  function FirstLine(text: seq<byte>): (line: seq<byte>)
    ensures |line| <= |text| && line == text[..|line|] && (text != [] ==> line != [])
  {
    var l := Upto(text, NEWLINE);
    if |l| < |text| then text[..|l| + 1] else text
  }

  /** update_header on one text, line after line. */
  function Parsed(c: Cfg, blk: bool, text: seq<byte>): Option<Cfg>
    decreases |text|
  {
    if text == [] then Some(c)
    else match Entered(c, blk, FirstLine(text))
      case Some(d) => Parsed(d, blk, text[|FirstLine(text)|..])
      case None => None
  }

  // ---- the printer ----

  function Line(key: seq<byte>, value: seq<byte>): (r: seq<byte>)
    ensures r != []
  {
    key + [BLANK, EQUALS, BLANK] + value + [NEWLINE]
  }

  function NumberLine(key: seq<byte>, n: u32): seq<byte> {
    Line(key, HEX_PREFIX + Hex(n))
  }

  function Numbers(c: Cfg): seq<byte> {
    NumberLine(BOOTSIZE, c.size) + (NumberLine(PAGESIZE, c.header.pageSize)
    + (NumberLine(KERNELADDR, c.header.kernelAddr) + (NumberLine(RAMDISKADDR, c.header.ramdiskAddr)
    + (NumberLine(SECONDADDR, c.header.secondAddr) + NumberLine(TAGSADDR, c.header.tagsAddr)))))
  }

  /** write_bootimg_config. */
  function Printed(c: Cfg): seq<byte> {
    Numbers(c) + (Line(NAME, CString(c.header.name)) + Line(CMDLINE, CString(c.header.cmdline)))
  }

  // ---- one line ----

  lemma {:induction false} UptoConcat(a: seq<byte>, x: byte, b: seq<byte>)
    requires x !in a
    ensures Upto(a + [x] + b, x) == a
  {
    if a == [] {
      assert (a + [x] + b)[0] == x;
    } else {
      assert (a + [x] + b)[0] == a[0] && (a + [x] + b)[1..] == a[1..] + [x] + b;
      UptoConcat(a[1..], x, b);
    }
  }

  lemma {:induction false} UptoAll(a: seq<byte>, x: byte)
    requires x !in a
    ensures Upto(a, x) == a
  {
    if a != [] {
      UptoAll(a[1..], x);
    }
  }

  /** The next line of a text is handled, and then the rest. */
  lemma ParsedLine(c: Cfg, blk: bool, l: seq<byte>, rest: seq<byte>)
    requires NEWLINE !in l
    ensures Parsed(c, blk, l + [NEWLINE] + rest) ==
      match Entered(c, blk, l + [NEWLINE]) case Some(d) => Parsed(d, blk, rest) case None => None
  {
    var text := l + [NEWLINE] + rest;
    UptoConcat(l, NEWLINE, rest);
    hide Entered, Upto;
    assert text[..|l| + 1] == l + [NEWLINE];
    assert FirstLine(text) == l + [NEWLINE];
    assert text[|l| + 1..] == rest;
  }

  lemma {:induction false} TokenIs(k: seq<byte>, rest: seq<byte>)
    requires (forall i :: 0 <= i < |k| ==> !IsBlank(k[i]) && k[i] != EQUALS)
    requires rest != [] && (IsBlank(rest[0]) || rest[0] == EQUALS)
    ensures Token(k + rest) == k
  {
    if k == [] {
      assert k + rest == rest;
    } else {
      assert (k + rest)[0] == k[0] && (k + rest)[1..] == k[1..] + rest;
      TokenIs(k[1..], rest);
    }
  }

  /** A word that can be a key. */
  predicate Key(k: seq<byte>) {
    k != [] && forall i :: 0 <= i < |k| ==> !IsBlank(k[i]) && k[i] != EQUALS && k[i] != NEWLINE && k[i] != 0
  }

  /** A value has neither a terminator nor a newline in it. */
  predicate OneLine(v: seq<byte>) {
    0 !in v && NEWLINE !in v
  }

  const BETWEEN: seq<byte> := [BLANK, EQUALS, BLANK]

  predicate Blanks(w: seq<byte>) {
    forall i :: 0 <= i < |w| ==> IsBlank(w[i])
  }

  lemma {:induction false} BlanksSkipped(w: seq<byte>, s: seq<byte>)
    requires Blanks(w)
    ensures SkipBlanks(w + s) == SkipBlanks(s)
  {
    if w == [] {
      assert w + s == s;
    } else {
      assert (w + s)[0] == w[0] && (w + s)[1..] == w[1..] + s;
      BlanksSkipped(w[1..], s);
    }
  }

  /** A setting as it may be typed: blanks around the key and around the value are not needed and do no harm. */
  function Setting(w0: seq<byte>, k: seq<byte>, w1: seq<byte>, w2: seq<byte>, v: seq<byte>): seq<byte> {
    w0 + (k + (w1 + ([EQUALS] + (w2 + v))))
  }

  lemma SettingLine(w0: seq<byte>, k: seq<byte>, w1: seq<byte>, w2: seq<byte>, v: seq<byte>)
    requires Blanks(w0) && Blanks(w1) && Blanks(w2) && Key(k) && OneLine(v)
    ensures OneLine(Setting(w0, k, w1, w2, v))
  {
  }

  lemma LineEnds(l: seq<byte>)
    requires OneLine(l)
    ensures Upto(CString(l), NEWLINE) == l && Upto(CString(l + [NEWLINE]), NEWLINE) == l
  {
    UptoAll(l + [NEWLINE], 0);
    UptoAll(l, 0);
    UptoAll(l, NEWLINE);
    UptoConcat(l, NEWLINE, []);
    assert l + [NEWLINE] + [] == l + [NEWLINE];
  }

  lemma NotBlankKept(s: seq<byte>)
    requires s != [] && !IsBlank(s[0])
    ensures SkipBlanks(s) == s
  {
  }

  lemma AfterKey(k: seq<byte>, w1: seq<byte>, e: seq<byte>)
    requires Blanks(w1) && Key(k) && e != [] && e[0] == EQUALS
    ensures SkipBlanks(k + (w1 + e)) == k + (w1 + e) && Token(k + (w1 + e)) == k && (k + (w1 + e))[|k|..] == w1 + e
    ensures SkipBlanks(w1 + e) == e
  {
    var x := w1 + e;
    assert x[0] == if w1 == [] then EQUALS else w1[0];
    assert (k + x)[0] == k[0];
    hide Token, SkipBlanks;
    NotBlankKept(k + x);
    TokenIs(k, x);
    BlanksSkipped(w1, e);
    NotBlankKept(e);
  }

  lemma SettingParts(w0: seq<byte>, k: seq<byte>, w1: seq<byte>, w2: seq<byte>, v: seq<byte>)
    requires Blanks(w0) && Blanks(w1) && Blanks(w2) && Key(k)
    ensures var x := w1 + ([EQUALS] + (w2 + v));
      && SkipBlanks(Setting(w0, k, w1, w2, v)) == k + x && Token(k + x) == k && (k + x)[|k|..] == x
      && SkipBlanks(x) == [EQUALS] + (w2 + v) && SkipBlanks(w2 + v) == SkipBlanks(v)
  {
    hide Token, SkipBlanks, Blanks, Key;
    var e := [EQUALS] + (w2 + v);
    assert e[0] == EQUALS;
    AfterKey(k, w1, e);
    BlanksSkipped(w0, k + (w1 + e));
    BlanksSkipped(w2, v);
  }

  /** A line assigns its value, without the blanks it starts with, whether it ends with a newline or not. */
  lemma EnteredSetting(c: Cfg, blk: bool, w0: seq<byte>, k: seq<byte>, w1: seq<byte>, w2: seq<byte>, v: seq<byte>)
    requires Blanks(w0) && Blanks(w1) && Blanks(w2) && Key(k) && OneLine(v)
    ensures Entered(c, blk, Setting(w0, k, w1, w2, v)) == Assigned(c, blk, k, SkipBlanks(v))
    ensures Entered(c, blk, Setting(w0, k, w1, w2, v) + [NEWLINE]) == Assigned(c, blk, k, SkipBlanks(v))
  {
    var l := Setting(w0, k, w1, w2, v);
    SettingLine(w0, k, w1, w2, v);
    LineEnds(l);
    SettingParts(w0, k, w1, w2, v);
    hide Assigned, Token, Upto, SkipBlanks, CString, Setting;
    var r := [EQUALS] + (w2 + v);
    assert r[0] == EQUALS && r[1..] == w2 + v;
  }

  /** A line without an equals sign, an empty one included, stops the program. */
  lemma NoAssignment(c: Cfg, blk: bool, line: seq<byte>)
    requires EQUALS !in line
    ensures Entered(c, blk, line) == None
  {
    var u := Upto(CString(line), NEWLINE);
    var t := SkipBlanks(u);
    var r := SkipBlanks(t[|Token(t)|..]);
    if r != [] {
      var i := |t| - |r|;
      assert r[0] == t[i] == u[|u| - |t| + i] == line[|u| - |t| + i];
    }
    hide Upto, SkipBlanks, Token, Assigned, CString;
  }

  lemma LineIs(k: seq<byte>, v: seq<byte>)
    ensures Line(k, v) == Setting([], k, [BLANK], [BLANK], v) + [NEWLINE] && Line(k, v) == k + BETWEEN + v + [NEWLINE]
    ensures Setting([], k, [BLANK], [BLANK], v) == k + BETWEEN + v
  {
  }

  /** A printed line and what follows it. */
  lemma ParsedPrinted(c: Cfg, blk: bool, k: seq<byte>, v: seq<byte>, rest: seq<byte>)
    requires Key(k) && OneLine(v)
    ensures Parsed(c, blk, Line(k, v) + rest) ==
      match Assigned(c, blk, k, SkipBlanks(v)) case Some(d) => Parsed(d, blk, rest) case None => None
  {
    LineIs(k, v);
    hide Assigned, Parsed, Entered, Line, SkipBlanks, Setting;
    SettingLine([], k, [BLANK], [BLANK], v);
    EnteredSetting(c, blk, [], k, [BLANK], [BLANK], v);
    ParsedLine(c, blk, k + BETWEEN + v, rest);
  }

  // ---- the keys ----

  /** The keys differ in their first letters. */
  lemma Letters()
    ensures CMDLINE != [] && NAME != [] && BOOTSIZE != [] && PAGESIZE != []
    ensures KERNELADDR != [] && RAMDISKADDR != [] && SECONDADDR != [] && TAGSADDR != []
    ensures CMDLINE[0] == 0x63 && NAME[0] == 0x6E && BOOTSIZE[0] == 0x62 && PAGESIZE[0] == 0x70
    ensures KERNELADDR[0] == 0x6B && RAMDISKADDR[0] == 0x72 && SECONDADDR[0] == 0x73 && TAGSADDR[0] == 0x74
  {
  }

  lemma LowerCase(s: string)
    requires s != "" && forall i :: 0 <= i < |s| ==> 'a' <= s[i] <= 'z'
    ensures Key(Ascii(s))
  {
  }

  lemma Keys()
    ensures Key(CMDLINE) && Key(NAME) && Key(BOOTSIZE) && Key(PAGESIZE)
    ensures Key(KERNELADDR) && Key(RAMDISKADDR) && Key(SECONDADDR) && Key(TAGSADDR)
  {
    LowerCase("cmdline");
    LowerCase("name");
    LowerCase("bootsize");
    LowerCase("pagesize");
    LowerCase("kerneladdr");
    LowerCase("ramdiskaddr");
    LowerCase("secondaddr");
    LowerCase("tagsaddr");
  }

  lemma StartsItself(k: seq<byte>)
    ensures StartsWith(k, k)
  {
  }

  lemma OtherLetter(token: seq<byte>, key: seq<byte>)
    requires token != [] && key != [] && token[0] != key[0]
    ensures !StartsWith(token, key) && token != key
  {
  }

  /** The key of an assignment decides which field is set. */
  lemma AssignedByKey(c: Cfg, blk: bool, v: seq<byte>)
    ensures var num, h := ToU32(StrToUl(v)), c.header;
      && Assigned(c, blk, CMDLINE, v) ==
        (if |v| >= BOOT_ARGS_SIZE then None else Some(c.(header := h.(cmdline := Stored(v, BOOT_ARGS_SIZE)))))
      && Assigned(c, blk, NAME, v) == Some(c.(header := h.(name := Stored(v, BOOT_NAME_SIZE))))
      && Assigned(c, blk, BOOTSIZE, v) == (if blk && c.size != num then None else Some(c.(size := num)))
      && Assigned(c, blk, PAGESIZE, v) == Some(c.(header := h.(pageSize := num)))
      && Assigned(c, blk, KERNELADDR, v) == Some(c.(header := h.(kernelAddr := num)))
      && Assigned(c, blk, RAMDISKADDR, v) == Some(c.(header := h.(ramdiskAddr := num)))
      && Assigned(c, blk, SECONDADDR, v) == Some(c.(header := h.(secondAddr := num)))
      && Assigned(c, blk, TAGSADDR, v) == Some(c.(header := h.(tagsAddr := num)))
  {
    Letters();
    hide StartsWith, StrToUl, ToU32, Stored, CMDLINE, NAME, BOOTSIZE, PAGESIZE, KERNELADDR, RAMDISKADDR;
    hide SECONDADDR, TAGSADDR;
    var keys := [CMDLINE, NAME, BOOTSIZE, PAGESIZE, KERNELADDR, RAMDISKADDR, SECONDADDR, TAGSADDR];
    forall i, j | 0 <= i < 8 && 0 <= j < 8
      ensures StartsWith(keys[i], keys[j]) == (i == j) && (i != j ==> keys[i] != keys[j])
    {
      if i == j {
        StartsItself(keys[i]);
      } else {
        OtherLetter(keys[i], keys[j]);
      }
    }
    assert keys[0] == CMDLINE && keys[1] == NAME && keys[2] == BOOTSIZE && keys[3] == PAGESIZE;
    assert keys[4] == KERNELADDR && keys[5] == RAMDISKADDR && keys[6] == SECONDADDR && keys[7] == TAGSADDR;
  }

  lemma StartsLonger(k: seq<byte>, x: seq<byte>, key: seq<byte>)
    requires k != [] && key != []
    ensures StartsWith(k + x, k) && (k[0] != key[0] ==> !StartsWith(k + x, key) && k + x != key)
  {
    assert (k + x)[0] == k[0] && (k + x)[..|k|] == k;
  }

  /** Longer words that begin like a key set its field as well, but for the command line, whose key is compared
      whole. */
  lemma LongerKeys(c: Cfg, blk: bool, x: seq<byte>, v: seq<byte>)
    requires x != []
    ensures Assigned(c, blk, CMDLINE + x, v) == None && Assigned(c, blk, NAME + x, v) == Assigned(c, blk, NAME, v)
    ensures Assigned(c, blk, BOOTSIZE + x, v) == Assigned(c, blk, BOOTSIZE, v)
    ensures Assigned(c, blk, PAGESIZE + x, v) == Assigned(c, blk, PAGESIZE, v)
    ensures Assigned(c, blk, KERNELADDR + x, v) == Assigned(c, blk, KERNELADDR, v)
    ensures Assigned(c, blk, RAMDISKADDR + x, v) == Assigned(c, blk, RAMDISKADDR, v)
    ensures Assigned(c, blk, SECONDADDR + x, v) == Assigned(c, blk, SECONDADDR, v)
    ensures Assigned(c, blk, TAGSADDR + x, v) == Assigned(c, blk, TAGSADDR, v)
  {
    Letters();
    AssignedByKey(c, blk, v);
    var keys := [CMDLINE, NAME, BOOTSIZE, PAGESIZE, KERNELADDR, RAMDISKADDR, SECONDADDR, TAGSADDR];
    hide StartsWith, StrToUl, ToU32, Stored, CMDLINE, NAME, BOOTSIZE, PAGESIZE, KERNELADDR, RAMDISKADDR;
    hide SECONDADDR, TAGSADDR;
    forall i, j | 0 <= i < 8 && 0 <= j < 8
      ensures StartsWith(keys[i] + x, keys[j]) == (i == j) && keys[i] + x != keys[0]
    {
      StartsLonger(keys[i], x, keys[j]);
      StartsLonger(keys[i], x, keys[0]);
      assert |keys[i] + x| > |keys[i]|;
    }
    assert keys[0] == CMDLINE && keys[1] == NAME && keys[2] == BOOTSIZE && keys[3] == PAGESIZE;
    assert keys[4] == KERNELADDR && keys[5] == RAMDISKADDR && keys[6] == SECONDADDR && keys[7] == TAGSADDR;
  }

  // ---- the numbers ----

  lemma NumberText(n: u32)
    ensures OneLine(HEX_PREFIX + Hex(n)) && SkipBlanks(HEX_PREFIX + Hex(n)) == HEX_PREFIX + Hex(n)
    ensures ToU32(StrToUl(HEX_PREFIX + Hex(n))) == n
  {
    NumeralDigits(n, 16);
    NumberRoundTrip(n);
    hide Numeral, StrToUl;
    SmallMod(n);
  }

  lemma ParsedNumber(c: Cfg, blk: bool, k: seq<byte>, n: u32, rest: seq<byte>)
    requires Key(k)
    ensures Parsed(c, blk, NumberLine(k, n) + rest) ==
      match Assigned(c, blk, k, HEX_PREFIX + Hex(n)) case Some(d) => Parsed(d, blk, rest) case None => None
    ensures ToU32(StrToUl(HEX_PREFIX + Hex(n))) == n
  {
    hide *;
    NumberText(n);
    NumberLineIs(k, n);
    ParsedPrinted(c, blk, k, HEX_PREFIX + Hex(n), rest);
  }

  lemma NumberLineIs(k: seq<byte>, n: u32)
    ensures NumberLine(k, n) == Line(k, HEX_PREFIX + Hex(n))
  {
  }

  /** base with the numbers of c. */
  function WithNumbers(base: Cfg, c: Cfg): Cfg {
    Cfg(c.size, base.header.(pageSize := c.header.pageSize,
                             kernelAddr := c.header.kernelAddr, ramdiskAddr := c.header.ramdiskAddr,
                             secondAddr := c.header.secondAddr, tagsAddr := c.header.tagsAddr))
  }

  lemma Chain(a: seq<byte>, b: seq<byte>, c: seq<byte>, d: seq<byte>, e: seq<byte>, f: seq<byte>, r: seq<byte>)
    ensures (a + (b + (c + (d + (e + f))))) + r == a + (b + (c + (d + (e + (f + r)))))
  {
    assert (e + f) + r == e + (f + r);
    assert (d + (e + f)) + r == d + (e + (f + r));
    assert (c + (d + (e + f))) + r == c + (d + (e + (f + r)));
    assert (b + (c + (d + (e + f)))) + r == b + (c + (d + (e + (f + r))));
  }

  /** The six printed numbers are read back; on a block device only over an equal size. */
  lemma NumbersParsed(base: Cfg, c: Cfg, blk: bool, rest: seq<byte>)
    requires blk ==> base.size == c.size
    ensures Parsed(base, blk, Numbers(c) + rest) == Parsed(WithNumbers(base, c), blk, rest)
  {
    var h := c.header;
    var l1, l2, l3 := NumberLine(BOOTSIZE, c.size), NumberLine(PAGESIZE, h.pageSize),
      NumberLine(KERNELADDR, h.kernelAddr);
    var l4, l5, l6 := NumberLine(RAMDISKADDR, h.ramdiskAddr), NumberLine(SECONDADDR, h.secondAddr),
      NumberLine(TAGSADDR, h.tagsAddr);
    hide Parsed, NumberLine, Assigned, StrToUl, ToU32, Hex, Key, CMDLINE, NAME, BOOTSIZE, PAGESIZE, KERNELADDR;
    hide RAMDISKADDR, SECONDADDR, TAGSADDR;
    Keys();
    Chain(l1, l2, l3, l4, l5, l6, rest);
    var c1 := base.(size := c.size);
    AssignedByKey(base, blk, HEX_PREFIX + Hex(c.size));
    ParsedNumber(base, blk, BOOTSIZE, c.size, l2 + (l3 + (l4 + (l5 + (l6 + rest)))));
    var c2 := c1.(header := c1.header.(pageSize := h.pageSize));
    AssignedByKey(c1, blk, HEX_PREFIX + Hex(h.pageSize));
    ParsedNumber(c1, blk, PAGESIZE, h.pageSize, l3 + (l4 + (l5 + (l6 + rest))));
    var c3 := c2.(header := c2.header.(kernelAddr := h.kernelAddr));
    AssignedByKey(c2, blk, HEX_PREFIX + Hex(h.kernelAddr));
    ParsedNumber(c2, blk, KERNELADDR, h.kernelAddr, l4 + (l5 + (l6 + rest)));
    var c4 := c3.(header := c3.header.(ramdiskAddr := h.ramdiskAddr));
    AssignedByKey(c3, blk, HEX_PREFIX + Hex(h.ramdiskAddr));
    ParsedNumber(c3, blk, RAMDISKADDR, h.ramdiskAddr, l5 + (l6 + rest));
    var c5 := c4.(header := c4.header.(secondAddr := h.secondAddr));
    AssignedByKey(c4, blk, HEX_PREFIX + Hex(h.secondAddr));
    ParsedNumber(c4, blk, SECONDADDR, h.secondAddr, l6 + rest);
    AssignedByKey(c5, blk, HEX_PREFIX + Hex(h.tagsAddr));
    ParsedNumber(c5, blk, TAGSADDR, h.tagsAddr, rest);
  }

  // ---- the strings ----

  /** A string that survives: no newline, and no blank or tab in front. */
  predicate Plain(v: seq<byte>) {
    NEWLINE !in v && (v != [] ==> !IsBlank(v[0]))
  }

  /** A buffer of n bytes that holds a terminated string. */
  predicate Terminated(s: seq<byte>, n: nat) {
    |s| == n && 0 in s
  }

  lemma TerminatedShort(s: seq<byte>, n: nat)
    requires Terminated(s, n)
    ensures |CString(s)| < n && 0 !in CString(s)
  {
    var i :| 0 <= i < |s| && s[i] == 0;
    var r := CString(s);
    assert forall j :: 0 <= j < |r| ==> s[j] == r[j] != 0;
  }

  /** A buffer written by the parser holds as much of the value as fits. */
  lemma StoredString(v: seq<byte>, n: nat)
    requires 0 < n && 0 !in v
    ensures CString(Stored(v, n)) == if |v| < n then v else v[..n - 1]
  {
    var w := if |v| < n then v else v[..n - 1];
    var b := Stored(v, n);
    assert b[|w|] == 0 && b == w + [0] + b[|w| + 1..];
    UptoConcat(w, 0, b[|w| + 1..]);
  }

  /** The rest of a buffer is cleared. */
  lemma StoredBytes(v: seq<byte>, n: nat)
    requires 0 < n
    ensures Stored(v, n) == if |v| < n then v + Zeros(n - |v|) else v[..n - 1] + [0]
  {
  }

  lemma SkipPlain(v: seq<byte>)
    requires Plain(v)
    ensures SkipBlanks(v) == v
  {
  }

  lemma SkippedSuffix(v: seq<byte>)
    requires OneLine(v)
    ensures Plain(SkipBlanks(v)) && 0 !in SkipBlanks(v)
  {
    SkipOneLine(v);
  }

  lemma StoredPlain(v: seq<byte>, n: nat)
    requires 0 < n && Plain(v) && 0 !in v
    ensures Plain(CString(Stored(v, n)))
  {
    StoredString(v, n);
  }

  /** Whatever is assigned is plain, so strings that are plain stay so. */
  predicate PlainName(c: Cfg) {
    Plain(CString(c.header.name))
  }

  predicate PlainCmdline(c: Cfg) {
    Plain(CString(c.header.cmdline))
  }

  lemma AssignedPlain(c: Cfg, blk: bool, token: seq<byte>, v: seq<byte>)
    requires Plain(v) && 0 !in v && Assigned(c, blk, token, v).Some?
    ensures PlainName(c) ==> PlainName(Assigned(c, blk, token, v).value)
    ensures PlainCmdline(c) ==> PlainCmdline(Assigned(c, blk, token, v).value)
  {
    StoredPlain(v, BOOT_NAME_SIZE);
    StoredPlain(v, BOOT_ARGS_SIZE);
    hide Plain, CString, Stored, StrToUl, ToU32, StartsWith, CMDLINE, NAME, BOOTSIZE, PAGESIZE, KERNELADDR;
    hide RAMDISKADDR, SECONDADDR, TAGSADDR;
  }

  lemma {:induction false} UptoKeeps(s: seq<byte>, x: byte, y: byte)
    requires y !in s
    ensures y !in Upto(s, x)
  {
    if s != [] && s[0] != x {
      UptoKeeps(s[1..], x, y);
    }
  }

  lemma SuffixOneLine(s: seq<byte>, k: nat)
    requires OneLine(s) && k <= |s|
    ensures OneLine(s[k..])
  {
    assert forall x :: x in s[k..] ==> x in s;
  }

  lemma SkipOneLine(s: seq<byte>)
    requires OneLine(s)
    ensures OneLine(SkipBlanks(s))
  {
    SuffixOneLine(s, |s| - |SkipBlanks(s)|);
    hide SkipBlanks;
  }

  /** What follows the equals sign of a line is one line. */
  lemma EnteredPlain(c: Cfg, blk: bool, line: seq<byte>)
    requires Entered(c, blk, line).Some?
    ensures PlainName(c) ==> PlainName(Entered(c, blk, line).value)
    ensures PlainCmdline(c) ==> PlainCmdline(Entered(c, blk, line).value)
  {
    hide Upto, SkipBlanks, Assigned, PlainName, PlainCmdline, Token, CString;
    var u := Upto(CString(line), NEWLINE);
    assert OneLine(u) by {
      CutOnce(line);
    }
    var t := SkipBlanks(u);
    SkipOneLine(u);
    var token := Token(t);
    SuffixOneLine(t, |token|);
    var r := SkipBlanks(t[|token|..]);
    SkipOneLine(t[|token|..]);
    SuffixOneLine(r, 1);
    SkippedSuffix(r[1..]);
    AssignedPlain(c, blk, token, SkipBlanks(r[1..]));
  }

  lemma CutOnce(line: seq<byte>)
    ensures OneLine(Upto(CString(line), NEWLINE))
  {
    UptoKeeps(CString(line), NEWLINE, 0);
  }

  lemma {:induction false} ParsedPlain(c: Cfg, blk: bool, text: seq<byte>)
    requires Parsed(c, blk, text).Some?
    ensures PlainName(c) ==> PlainName(Parsed(c, blk, text).value)
    ensures PlainCmdline(c) ==> PlainCmdline(Parsed(c, blk, text).value)
    decreases |text|
  {
    hide Entered, PlainName, PlainCmdline, FirstLine;
    if text != [] {
      EnteredPlain(c, blk, FirstLine(text));
      ParsedPlain(Entered(c, blk, FirstLine(text)).value, blk, text[|FirstLine(text)|..]);
    }
  }

  /** A line whose value has a newline in it is cut there. */
  lemma ParsedCut(c: Cfg, blk: bool, k: seq<byte>, v: seq<byte>, rest: seq<byte>)
    returns (w: seq<byte>, tail: seq<byte>)
    requires Key(k) && 0 !in v
    ensures Plain(w) && 0 !in w && (Plain(v) ==> w == v)
    ensures Parsed(c, blk, Line(k, v) + rest) ==
      match Assigned(c, blk, k, w) case Some(d) => Parsed(d, blk, tail) case None => None
  {
    hide Parsed, Assigned, Upto;
    var v1 := Upto(v, NEWLINE);
    UptoKeeps(v, NEWLINE, 0);
    SkippedSuffix(v1);
    if |v1| == |v| {
      tail := rest;
      assert v1 == v;
    } else {
      tail := v[|v1| + 1..] + [NEWLINE] + rest;
      LineCut(k, v, |v1|, rest);
    }
    ParsedPrinted(c, blk, k, v1, tail);
    w := SkipBlanks(v1);
    if Plain(v) {
      UptoAll(v, NEWLINE);
      SkipPlain(v);
    }
  }

  lemma LineCut(k: seq<byte>, v: seq<byte>, n: nat, rest: seq<byte>)
    requires n < |v| && v[n] == NEWLINE
    ensures Line(k, v) + rest == Line(k, v[..n]) + (v[n + 1..] + [NEWLINE] + rest)
  {
    assert v == v[..n] + [NEWLINE] + v[n + 1..];
  }

  /** The configuration that a file stands for is back: the numbers and both strings. */
  predicate Restored(d: Cfg, c: Cfg) {
    && d.size == c.size && d.header.pageSize == c.header.pageSize
    && d.header.kernelAddr == c.header.kernelAddr && d.header.ramdiskAddr == c.header.ramdiskAddr
    && d.header.secondAddr == c.header.secondAddr && d.header.tagsAddr == c.header.tagsAddr
    && CString(d.header.name) == CString(c.header.name) && CString(d.header.cmdline) == CString(c.header.cmdline)
  }

  predicate Printable(c: Cfg) {
    Terminated(c.header.name, BOOT_NAME_SIZE) && Terminated(c.header.cmdline, BOOT_ARGS_SIZE)
  }

  function Named(c: Cfg, v: seq<byte>): Cfg {
    c.(header := c.header.(name := Stored(v, BOOT_NAME_SIZE)))
  }

  function Commanded(c: Cfg, v: seq<byte>): Cfg {
    c.(header := c.header.(cmdline := Stored(v, BOOT_ARGS_SIZE)))
  }

  lemma PlainLine(v: seq<byte>)
    requires 0 !in v && Plain(v)
    ensures OneLine(v)
  {
  }

  /** One string line, when the string is plain. */
  lemma NameParsed(c: Cfg, blk: bool, v: seq<byte>, rest: seq<byte>)
    requires 0 !in v && Plain(v)
    ensures Parsed(c, blk, Line(NAME, v) + rest) == Parsed(Named(c, v), blk, rest)
  {
    hide Parsed, Assigned, Stored, Line, Plain, SkipBlanks, Key, NAME, CMDLINE, OneLine;
    Keys();
    PlainLine(v);
    SkipPlain(v);
    AssignedByKey(c, blk, v);
    ParsedPrinted(c, blk, NAME, v, rest);
  }

  lemma CmdlineParsed(c: Cfg, blk: bool, v: seq<byte>)
    requires 0 !in v && Plain(v) && |v| < BOOT_ARGS_SIZE
    ensures Parsed(c, blk, Line(CMDLINE, v)) == Some(Commanded(c, v))
  {
    hide Parsed, Assigned, Stored, Line, Plain, SkipBlanks, Key, NAME, CMDLINE, OneLine;
    Keys();
    PlainLine(v);
    SkipPlain(v);
    AssignedByKey(c, blk, v);
    assert Line(CMDLINE, v) + [] == Line(CMDLINE, v);
    ParsedPrinted(c, blk, CMDLINE, v, []);
    ParsedNothing(Commanded(c, v), blk);
  }

  /** The two string lines, when the strings are plain. */
  lemma StringsParsed(base: Cfg, c: Cfg, blk: bool)
    requires Printable(c) && PlainName(c) && PlainCmdline(c)
    ensures var v, w := CString(c.header.name), CString(c.header.cmdline);
      var d := Commanded(Named(base, v), w);
      && Parsed(base, blk, Line(NAME, v) + Line(CMDLINE, w)) == Some(d)
      && CString(d.header.name) == v && CString(d.header.cmdline) == w
  {
    var v, w := CString(c.header.name), CString(c.header.cmdline);
    TerminatedShort(c.header.name, BOOT_NAME_SIZE);
    TerminatedShort(c.header.cmdline, BOOT_ARGS_SIZE);
    StoredString(v, BOOT_NAME_SIZE);
    StoredString(w, BOOT_ARGS_SIZE);
    hide Parsed, Stored, Line, CString, Plain, NAME, CMDLINE, Terminated;
    NameParsed(base, blk, v, Line(CMDLINE, w));
    CmdlineParsed(Named(base, v), blk, w);
  }

  lemma ParsedNothing(c: Cfg, blk: bool)
    ensures Parsed(c, blk, []) == Some(c)
  {
  }

  /** Whatever the strings are, those read back are plain. */
  lemma NamePlain(base: Cfg, blk: bool, v: seq<byte>, rest: seq<byte>)
    requires 0 !in v && Parsed(base, blk, Line(NAME, v) + rest).Some?
    ensures PlainName(Parsed(base, blk, Line(NAME, v) + rest).value)
  {
    hide Parsed, Assigned, Stored, Line, CString, Plain, Key, NAME, CMDLINE;
    Keys();
    var x, tail := ParsedCut(base, blk, NAME, v, rest);
    AssignedByKey(base, blk, x);
    StoredPlain(x, BOOT_NAME_SIZE);
    ParsedPlain(Named(base, x), blk, tail);
  }

  lemma CmdlineRead(c: Cfg, blk: bool, w: seq<byte>)
    requires 0 !in w && Parsed(c, blk, Line(CMDLINE, w)).Some?
    ensures PlainCmdline(Parsed(c, blk, Line(CMDLINE, w)).value)
  {
    hide Parsed, Assigned, Stored, Line, CString, Plain, Key, NAME, CMDLINE;
    Keys();
    assert Line(CMDLINE, w) + [] == Line(CMDLINE, w);
    var y, tail := ParsedCut(c, blk, CMDLINE, w, []);
    AssignedByKey(c, blk, y);
    StoredPlain(y, BOOT_ARGS_SIZE);
    ParsedPlain(Commanded(c, y), blk, tail);
  }

  lemma CmdlinePlain(base: Cfg, blk: bool, v: seq<byte>, w: seq<byte>)
    requires 0 !in v && 0 !in w && Plain(v) && Parsed(base, blk, Line(NAME, v) + Line(CMDLINE, w)).Some?
    ensures PlainCmdline(Parsed(base, blk, Line(NAME, v) + Line(CMDLINE, w)).value)
  {
    hide *;
    NameParsed(base, blk, v, Line(CMDLINE, w));
    CmdlineRead(Named(base, v), blk, w);
  }

  /**
   * The printer and the parser undo each other exactly for strings without newlines that do not begin with a blank
   * or a tab, for every number and over every earlier configuration.
   */
  lemma ConfigRoundTrip(base: Cfg, c: Cfg, blk: bool)
    requires Printable(c) && (blk ==> base.size == c.size)
    ensures (Parsed(base, blk, Printed(c)).Some? && Restored(Parsed(base, blk, Printed(c)).value, c))
        <==> Plain(CString(c.header.name)) && Plain(CString(c.header.cmdline))
  {
    var v, w := CString(c.header.name), CString(c.header.cmdline);
    TerminatedShort(c.header.name, BOOT_NAME_SIZE);
    TerminatedShort(c.header.cmdline, BOOT_ARGS_SIZE);
    var strings := Line(NAME, v) + Line(CMDLINE, w);
    var b := WithNumbers(base, c);
    hide Parsed, Stored, Line, CString, Plain, NAME, CMDLINE, Terminated, Numbers;
    NumbersParsed(base, c, blk, strings);
    if Plain(v) && Plain(w) {
      StringsParsed(b, c, blk);
    } else if Parsed(b, blk, strings).Some? {
      NamePlain(b, blk, v, Line(CMDLINE, w));
      if Plain(v) {
        CmdlinePlain(b, blk, v, w);
      }
    }
  }

  /** base with everything that a configuration of c sets. */
  function Applied(base: Cfg, c: Cfg): Cfg {
    Commanded(Named(WithNumbers(base, c), CString(c.header.name)), CString(c.header.cmdline))
  }

  predicate PlainStrings(c: Cfg) {
    Printable(c) && PlainName(c) && PlainCmdline(c)
  }

  /** A printed configuration sets all its fields over any earlier one, and no others. */
  lemma PrintedApplied(base: Cfg, c: Cfg)
    requires PlainStrings(c)
    ensures Parsed(base, false, Printed(c)) == Some(Applied(base, c)) && Restored(Applied(base, c), c)
  {
    var v, w := CString(c.header.name), CString(c.header.cmdline);
    hide Parsed, Stored, Line, CString, Plain, NAME, CMDLINE, Terminated, Numbers;
    NumbersParsed(base, c, false, Line(NAME, v) + Line(CMDLINE, w));
    StringsParsed(WithNumbers(base, c), c, false);
  }

  /** Texts in a row: a text that ends with a newline, and then another, are parsed as one. */
  lemma {:induction false} ParsedTwice(c: Cfg, blk: bool, a: seq<byte>, b: seq<byte>)
    requires a != [] ==> a[|a| - 1] == NEWLINE
    ensures Parsed(c, blk, a + b) == match Parsed(c, blk, a) case Some(d) => Parsed(d, blk, b) case None => None
    decreases |a|
  {
    hide Entered;
    if a == [] {
      assert a + b == b;
    } else {
      var n := |FirstLine(a)|;
      FirstOfBoth(a, b);
      assert (a + b)[n..] == a[n..] + b;
      hide FirstLine;
      if Entered(c, blk, FirstLine(a)).Some? {
        ParsedTwice(Entered(c, blk, FirstLine(a)).value, blk, a[n..], b);
      }
    }
  }

  lemma FirstOfBoth(a: seq<byte>, b: seq<byte>)
    requires a != [] && a[|a| - 1] == NEWLINE
    ensures FirstLine(a + b) == FirstLine(a)
  {
    var l := Upto(a, NEWLINE);
    var tail := a[|l| + 1..] + b;
    assert a + b == l + [NEWLINE] + tail;
    UptoConcat(l, NEWLINE, tail);
    hide Upto;
    assert (a + b)[..|l| + 1] == a[..|l| + 1];
  }

  // ---- as it looks ----

  const BOOTSIZE_LINE: seq<byte> := Ascii("bootsize = 0x800000\n")
  const PAGESIZE_LINE: seq<byte> := Ascii("pagesize = 0x800\n")
  const KERNELADDR_LINE: seq<byte> := Ascii("kerneladdr = 0x8000\n")
  const RAMDISKADDR_LINE: seq<byte> := Ascii("ramdiskaddr = 0xabcdef\n")
  const SECONDADDR_LINE: seq<byte> := Ascii("secondaddr = 0x0\n")
  const TAGSADDR_LINE: seq<byte> := Ascii("tagsaddr = 0x100\n")
  const NAME_LINE: seq<byte> := Ascii("name = demo\n")
  const CMDLINE_LINE: seq<byte> := Ascii("cmdline = root=/dev/ram\n")

  lemma BootsizeLine()
    ensures NumberLine(BOOTSIZE, 0x80_0000) == BOOTSIZE_LINE
  {
    assert Hex(0x80_0000) == Ascii("800000");
    hide Hex;
  }

  lemma PagesizeLine()
    ensures NumberLine(PAGESIZE, 2048) == PAGESIZE_LINE
  {
    assert Hex(2048) == Ascii("800");
    hide Hex;
  }

  lemma KerneladdrLine()
    ensures NumberLine(KERNELADDR, 0x8000) == KERNELADDR_LINE
  {
    assert Hex(0x8000) == Ascii("8000");
    hide Hex;
  }

  lemma RamdiskaddrLine()
    ensures NumberLine(RAMDISKADDR, 0xAB_CDEF) == RAMDISKADDR_LINE
  {
    assert Hex(0xAB_CDEF) == Ascii("abcdef");
    hide Hex;
  }

  lemma SecondaddrLine()
    ensures NumberLine(SECONDADDR, 0) == SECONDADDR_LINE
  {
    assert Hex(0) == Ascii("0");
    hide Hex;
  }

  lemma TagsaddrLine()
    ensures NumberLine(TAGSADDR, 0x100) == TAGSADDR_LINE
  {
    assert Hex(0x100) == Ascii("100");
    hide Hex;
  }

  lemma StringLines()
    ensures Line(NAME, Ascii("demo")) == NAME_LINE && Line(CMDLINE, Ascii("root=/dev/ram")) == CMDLINE_LINE
  {
  }

  /** A configuration, line by line. */
  lemma PrintedText(c: Cfg)
    requires c.size == 0x80_0000 && c.header.pageSize == 2048 && c.header.kernelAddr == 0x8000
    requires c.header.ramdiskAddr == 0xAB_CDEF && c.header.secondAddr == 0 && c.header.tagsAddr == 0x100
    requires CString(c.header.name) == Ascii("demo") && CString(c.header.cmdline) == Ascii("root=/dev/ram")
    ensures Printed(c) ==
      (BOOTSIZE_LINE + (PAGESIZE_LINE + (KERNELADDR_LINE + (RAMDISKADDR_LINE + (SECONDADDR_LINE + TAGSADDR_LINE)))))
      + (NAME_LINE + CMDLINE_LINE)
  {
    hide *;
    BootsizeLine();
    PagesizeLine();
    KerneladdrLine();
    RamdiskaddrLine();
    SecondaddrLine();
    TagsaddrLine();
    StringLines();
    PrintedIs(c);
  }

  lemma PrintedIs(c: Cfg)
    ensures Printed(c) ==
      (NumberLine(BOOTSIZE, c.size) + (NumberLine(PAGESIZE, c.header.pageSize)
      + (NumberLine(KERNELADDR, c.header.kernelAddr) + (NumberLine(RAMDISKADDR, c.header.ramdiskAddr)
      + (NumberLine(SECONDADDR, c.header.secondAddr) + NumberLine(TAGSADDR, c.header.tagsAddr))))))
      + (Line(NAME, CString(c.header.name)) + Line(CMDLINE, CString(c.header.cmdline)))
  {
    hide NumberLine, Line, CString, BOOTSIZE, PAGESIZE, KERNELADDR, RAMDISKADDR, SECONDADDR, TAGSADDR, NAME, CMDLINE;
  }

  lemma TypedDecimal()
    ensures StrToUl(Ascii("2048")) == 2048
  {
    DecimalRead(2048);
    assert Numeral(2048, 10) == Ascii("2048");
    hide Numeral, StrToUl;
  }

  lemma TypedHex()
    ensures StrToUl(Ascii("0x1F")) == 0x1F
  {
    assert Digits([0x31, 0x46], 16, 0) == 0x1F;
    assert Ascii("0x1F")[2..] == [0x31, 0x46];
    hide Digits;
  }

  lemma TypedOctal()
    ensures StrToUl(Ascii("017")) == 15
  {
    assert Digits([0x30, 0x31, 0x37], 8, 0) == 15;
    assert Ascii("017") == [0x30, 0x31, 0x37];
    hide Digits;
  }

  // ---- what a configuration cannot change ----

  /** Only the settable fields change, and the buffers keep their sizes. */
  predicate SameSizes(c: Cfg, d: Cfg) {
    && d.header.magic == c.header.magic && d.header.kernelSize == c.header.kernelSize
    && d.header.ramdiskSize == c.header.ramdiskSize && d.header.secondSize == c.header.secondSize
    && (ValidHeader(c.header) ==> ValidHeader(d.header))
  }

  lemma {:induction false} ParsedKeepsSizes(c: Cfg, blk: bool, text: seq<byte>)
    requires Parsed(c, blk, text).Some?
    ensures SameSizes(c, Parsed(c, blk, text).value)
    decreases |text|
  {
    if text != [] {
      var d := Entered(c, blk, FirstLine(text)).value;
      ParsedKeepsSizes(d, blk, text[|FirstLine(text)|..]);
      assert SameSizes(c, d);
    }
    hide FirstLine, StrToUl, ToU32, Token, SkipBlanks, Upto, StartsWith;
  }

  // ---- the methods ----

  /** update_header_entry: one line, one field. */
  method UpdateHeaderEntry(img: BootImg, blk: bool, line: seq<byte>) returns (ok: bool)
    modifies img`size, img`header
    ensures ok == Entered(Cfg(old(img.size), old(img.header)), blk, line).Some?
    ensures ok ==> Entered(Cfg(old(img.size), old(img.header)), blk, line) == Some(Cfg(img.size, img.header))
  {
    hide StrToUl, ToU32, Token, SkipBlanks, Upto, StartsWith, Stored, CMDLINE, NAME, BOOTSIZE, PAGESIZE;
    hide KERNELADDR, RAMDISKADDR, SECONDADDR, TAGSADDR;
    var p := SkipBlanks(Upto(CString(line), NEWLINE));
    var token := Token(p);
    p := SkipBlanks(p[|token|..]);
    if p == [] || p[0] != EQUALS {
      return false;
    }
    var value := SkipBlanks(p[1..]);
    var valuenum := ToU32(StrToUl(value));
    ok := true;
    if token == CMDLINE {
      if |value| >= BOOT_ARGS_SIZE {
        return false;
      }
      img.header := img.header.(cmdline := Stored(value, BOOT_ARGS_SIZE));
    } else if StartsWith(token, NAME) {
      img.header := img.header.(name := Stored(value, BOOT_NAME_SIZE));
    } else if StartsWith(token, BOOTSIZE) {
      if blk && img.size != valuenum {
        return false;
      }
      img.size := valuenum;
    } else if StartsWith(token, PAGESIZE) {
      img.header := img.header.(pageSize := valuenum);
    } else if StartsWith(token, KERNELADDR) {
      img.header := img.header.(kernelAddr := valuenum);
    } else if StartsWith(token, RAMDISKADDR) {
      img.header := img.header.(ramdiskAddr := valuenum);
    } else if StartsWith(token, SECONDADDR) {
      img.header := img.header.(secondAddr := valuenum);
    } else if StartsWith(token, TAGSADDR) {
      img.header := img.header.(tagsAddr := valuenum);
    } else {
      return false;
    }
  }

  /** The loop of update_header over the lines of one text. */
  method UpdateHeader(img: BootImg, blk: bool, text: seq<byte>) returns (ok: bool)
    modifies img`size, img`header
    ensures ok == Parsed(Cfg(old(img.size), old(img.header)), blk, text).Some?
    ensures ok ==> Parsed(Cfg(old(img.size), old(img.header)), blk, text) == Some(Cfg(img.size, img.header))
  {
    hide Entered, FirstLine;
    var rest := text;
    while rest != []
      invariant Parsed(Cfg(img.size, img.header), blk, rest) == Parsed(Cfg(old(img.size), old(img.header)), blk, text)
      decreases |rest|
    {
      var line := FirstLine(rest);
      ok := UpdateHeaderEntry(img, blk, line);
      if !ok {
        return;
      }
      rest := rest[|line|..];
    }
    ok := true;
  }

  /** write_bootimg_config, line by line. */
  method WriteConfig(img: BootImg) returns (text: seq<byte>)
    requires Printable(Cfg(img.size, img.header))
    ensures text == Printed(Cfg(img.size, img.header))
  {
    var h := img.header;
    hide NumberLine, Line, CString;
    text := NumberLine(BOOTSIZE, img.size);
    text := text + NumberLine(PAGESIZE, h.pageSize);
    text := text + NumberLine(KERNELADDR, h.kernelAddr);
    text := text + NumberLine(RAMDISKADDR, h.ramdiskAddr);
    text := text + NumberLine(SECONDADDR, h.secondAddr);
    text := text + NumberLine(TAGSADDR, h.tagsAddr);
    Chain(NumberLine(BOOTSIZE, img.size), NumberLine(PAGESIZE, h.pageSize), NumberLine(KERNELADDR, h.kernelAddr),
          NumberLine(RAMDISKADDR, h.ramdiskAddr), NumberLine(SECONDADDR, h.secondAddr),
            NumberLine(TAGSADDR, h.tagsAddr), []);
    text := text + Line(NAME, CString(h.name));
    text := text + Line(CMDLINE, CString(h.cmdline));
  }
}
