/** Machine arithmetic, byte strings and little-endian fields shared by every other module. */
module Defs {
  const U32: int := 0x1_0000_0000
  const INT_MAX: int := 0x7FFF_FFFF

  type byte = b: int | 0 <= b < 0x100
  type u32 = x: int | 0 <= x < 0x1_0000_0000

  datatype Option<+T> = None | Some(value: T)

  /** The result of storing a value in a 32-bit unsigned field. */
  function ToU32(x: int): u32 { x % U32 }

  /** The result of storing a value in a 32-bit `int`. */
  function ToInt32(x: int): int {
    var r := x % U32;
    if r <= INT_MAX then r else r - U32
  }

  function Min(a: nat, b: nat): nat {
    if a < b then a else b
  }

  function Max(a: nat, b: nat): nat {
    if a < b then b else a
  }

  // ---- DIV_ROUND_UP, ALIGN and ALIGN_DOWN, on unbounded integers ----

  function DivRoundUp(x: nat, y: nat): nat
    requires y > 0
  {
    (x + y - 1) / y
  }

  function Align(x: nat, y: nat): nat
    requires y > 0
  {
    y * DivRoundUp(x, y)
  }

  function AlignDown(x: nat, y: nat): nat
    requires y > 0
  {
    y * (x / y)
  }

  // ---- the same macros at `unsigned int` width, as the C code evaluates them ----

  function DivRoundUp32(x: u32, y: u32): u32
    requires y > 0
  {
    var sum := ToU32(x + y - 1);
    QuotientBound(sum, y);
    sum / y
  }

  function Align32(x: u32, y: u32): u32
    requires y > 0
  {
    ToU32(y * DivRoundUp32(x, y))
  }

  lemma QuotientBound(x: nat, y: nat)
    requires y > 0
    ensures 0 <= x / y <= x
    ensures y * (x / y) <= x
  {
    var q := x / y;
    assert x == y * q + x % y;
    if q < 0 {
      MulMono(q, -1, y);
    } else {
      MulMono(1, y, q);
    }
  }

  /** The macros do not wrap as long as one more block fits in 32 bits. */
  lemma Align32Exact(x: u32, y: u32)
    requires 0 < y && x + y <= U32
    ensures DivRoundUp32(x, y) == DivRoundUp(x, y)
    ensures Align32(x, y) == Align(x, y)
  {
    SmallMod(x + y - 1);
    QuotientBound(x + y - 1, y);
    SmallMod(y * DivRoundUp(x, y));
  }

  lemma SmallMod(x: int)
    requires 0 <= x < U32
    ensures ToU32(x) == x
  {
  }

  lemma MulMono(a: int, b: int, c: int)
    requires 0 <= c
    ensures a <= b ==> a * c <= b * c
    ensures b + 1 <= a ==> b * c + c <= a * c
  {
    if a <= b {
      assert (b - a) * c >= 0;
    } else {
      assert (a - b - 1) * c >= 0;
    }
  }

  lemma Distribute(a: int, b: int, c: int)
    ensures (a + b) * c == a * c + b * c
  {
  }

  lemma RemainderUnique(x: int, y: int, q: int, r: int)
    requires 0 < y && x == q * y + r && 0 <= r < y
    ensures x % y == r
  {
    DivModUnique(x, y, q, r);
  }

  lemma DivModUnique(x: int, y: int, q: int, r: int)
    requires 0 < y && x == q * y + r && 0 <= r < y
    ensures x / y == q && x % y == r
  {
    assert x == y * (x / y) + x % y;
    MulMono(x / y, q, y);
    MulMono(q, x / y, y);
  }

  lemma AlignBounds(x: nat, y: nat)
    requires 0 < y
    ensures x <= Align(x, y) < x + y
    ensures Align(x, y) == DivRoundUp(x, y) * y
    ensures Align(x, y) % y == 0 && Align(x, y) / y == DivRoundUp(x, y)
    ensures x % y == 0 ==> Align(x, y) == x && DivRoundUp(x, y) == x / y
    ensures 0 < x ==> y <= Align(x, y) && 0 < DivRoundUp(x, y)
  {
    var q := DivRoundUp(x, y);
    assert x + y - 1 == y * q + (x + y - 1) % y;
    DivModUnique(q * y, y, q, 0);
    if x % y == 0 {
      DivModUnique(x + y - 1, y, x / y, y - 1);
    }
    if 0 < x && q <= 0 {
      MulMono(q, 0, y);
      assert false;
    }
    MulMono(1, q, y);
  }

  lemma AlignDownBounds(x: nat, y: nat)
    requires 0 < y
    ensures AlignDown(x, y) <= x < AlignDown(x, y) + y
    ensures AlignDown(x, y) == (x / y) * y
    ensures AlignDown(x, y) % y == 0 && AlignDown(x, y) / y == x / y
    ensures y <= x ==> y <= AlignDown(x, y)
  {
    assert x == y * (x / y) + x % y;
    DivModUnique((x / y) * y, y, x / y, 0);
    if y <= x && x / y <= 0 {
      MulMono(x / y, 0, y);
      assert false;
    }
    MulMono(1, x / y, y);
  }

  lemma MultipleOfFour(x: nat, y: nat)
    requires 0 < y && x % y == 0 && y % 4 == 0
    ensures x % 4 == 0
  {
    assert x == y * (x / y) == 4 * ((y / 4) * (x / y)) by {
      assert y == 4 * (y / 4);
    }
  }

  // ---- sequences ----

  function Inserted<T>(s: seq<T>, k: nat, x: T): (r: seq<T>)
    requires k <= |s|
    ensures |r| == |s| + 1
    ensures forall i :: 0 <= i < |r| ==> r[i] == if i < k then s[i] else if i == k then x else s[i - 1]
  {
    seq(|s| + 1, i requires 0 <= i <= |s| => if i < k then s[i] else if i == k then x else s[i - 1])
  }

  function Removed<T>(s: seq<T>, k: nat): (r: seq<T>)
    requires k < |s|
    ensures |r| == |s| - 1
    ensures forall i :: 0 <= i < |r| ==> r[i] == if i < k then s[i] else s[i + 1]
  {
    seq(|s| - 1, i requires 0 <= i < |s| - 1 => if i < k then s[i] else s[i + 1])
  }

  lemma InsertedConcat<T>(s: seq<T>, k: nat, x: T)
    requires k <= |s|
    ensures Inserted(s, k, x) == s[..k] + [x] + s[k..]
  {
  }

  lemma InsertedMembers<T>(s: seq<T>, k: nat, x: T)
    requires k <= |s|
    ensures forall y :: y in Inserted(s, k, x) ==> y in s || y == x
    ensures forall y :: y in s || y == x ==> y in Inserted(s, k, x)
  {
    var r := Inserted(s, k, x);
    assert r[k] == x;
    assert forall i :: 0 <= i < |s| ==> s[i] == r[if i < k then i else i + 1];
  }

  lemma RemovedMembers<T>(s: seq<T>, k: nat)
    requires k < |s|
    ensures forall y :: y in Removed(s, k) ==> y in s
    ensures forall i :: 0 <= i < k ==> s[i] in Removed(s, k)
  {
    assert forall i :: 0 <= i < k ==> s[i] == Removed(s, k)[i];
  }

  predicate Distinct<T(==)>(s: seq<T>) {
    forall i, j :: 0 <= i < j < |s| ==> s[i] != s[j]
  }

  lemma OthersDiffer<T>(s: seq<T>, k: nat)
    requires Distinct(s) && k < |s|
    ensures forall i :: 0 <= i < |s| && i != k ==> s[i] != s[k]
  {
  }

  /** run placed before element j of l. */
  function Spliced<T>(l: seq<T>, j: nat, run: seq<T>): (r: seq<T>)
    requires j <= |l|
    ensures |r| == |l| + |run|
    ensures forall i :: 0 <= i < |r| ==>
      r[i] == if i < j then l[i] else if i < j + |run| then run[i - j] else l[i - |run|]
  {
    l[..j] + run + l[j..]
  }

  predicate Apart<T(==)>(a: seq<T>, b: seq<T>) {
    forall i, j :: 0 <= i < |a| && 0 <= j < |b| ==> a[i] != b[j]
  }

  /** l without its elements s to n - 1. */
  function Without<T>(l: seq<T>, s: nat, n: nat): (r: seq<T>)
    requires s <= n <= |l|
    ensures |r| == |l| - (n - s)
    ensures forall i :: 0 <= i < |r| ==> r[i] == if i < s then l[i] else l[i + (n - s)]
  {
    l[..s] + l[n..]
  }

  lemma WithoutDistinct<T>(l: seq<T>, s: nat, n: nat)
    requires Distinct(l) && s <= n <= |l|
    ensures Distinct(Without(l, s, n)) && Distinct(l[s..n]) && Apart(Without(l, s, n), l[s..n])
  {
    var r, m := Without(l, s, n), l[s..n];
    forall i, j | 0 <= i < j < |r|
      ensures r[i] != r[j]
    {
      assert l[if i < s then i else i + (n - s)] != l[if j < s then j else j + (n - s)];
    }
    forall i, j | 0 <= i < |r| && 0 <= j < |m|
      ensures r[i] != m[j]
    {
      assert l[if i < s then i else i + (n - s)] != l[s + j];
    }
  }

  lemma SplicedDistinct<T>(l: seq<T>, j: nat, run: seq<T>)
    requires Distinct(l) && Distinct(run) && Apart(l, run) && j <= |l|
    ensures Distinct(Spliced(l, j, run))
  {
    var r := Spliced(l, j, run);
    forall a, b | 0 <= a < b < |r|
      ensures r[a] != r[b]
    {
      var inA, inB := j <= a < j + |run|, j <= b < j + |run|;
      if inA && inB {
        assert run[a - j] != run[b - j];
      } else if inA || inB {
      } else {
        assert l[if a < j then a else a - |run|] != l[if b < j then b else b - |run|];
      }
    }
  }

  lemma InsertedDistinct<T>(s: seq<T>, k: nat, x: T)
    requires Distinct(s) && k <= |s| && x !in s
    ensures Distinct(Inserted(s, k, x))
  {
  }

  lemma RemovedDistinct<T>(s: seq<T>, k: nat)
    requires Distinct(s) && k < |s|
    ensures Distinct(Removed(s, k))
  {
  }

  // ---- byte strings ----

  /** Byte i of s; bytes past the end read as zero. */
  function At(s: seq<byte>, i: nat): byte {
    if i < |s| then s[i] else 0
  }

  function Zeros(n: nat): seq<byte> {
    seq(n, i => 0)
  }

  // ---- little-endian fields ----

  function Le16(n: nat): seq<byte> {
    [n % 0x100, n / 0x100 % 0x100]
  }

  function Le32(n: nat): seq<byte> {
    [n % 0x100, n / 0x100 % 0x100, n / 0x100 / 0x100 % 0x100, n / 0x100 / 0x100 / 0x100 % 0x100]
  }

  /** The 16-bit field at offset i. */
  function Get16(s: seq<byte>, i: nat): nat {
    At(s, i) + 0x100 * At(s, i + 1)
  }

  /** The 32-bit field at offset i. */
  function Get32(s: seq<byte>, i: nat): u32 {
    At(s, i) + 0x100 * At(s, i + 1) + 0x1_0000 * At(s, i + 2) + 0x100_0000 * At(s, i + 3)
  }

  /** Storing and loading a 32-bit field truncates modulo 2^32 and nothing else. */
  lemma Get32Le32(n: nat, s: seq<byte>, i: nat)
    requires i + 4 <= |s| && s[i..i + 4] == Le32(n)
    ensures Get32(s, i) == n % U32
  {
    var t := s[i..i + 4];
    assert t[0] == s[i] && t[1] == s[i + 1] && t[2] == s[i + 2] && t[3] == s[i + 3];
    var q1 := n / 0x100;
    var q2 := q1 / 0x100;
    var q3 := q2 / 0x100;
    RemainderUnique(n, U32, q3 / 0x100, Get32(s, i));
  }

  /** Loading a field and storing it again writes the same bytes. */
  lemma Le32Get32(s: seq<byte>, i: nat, j: nat)
    requires i + 4 <= |s| && j < 4
    ensures Le32(Get32(s, i))[j] == s[i + j]
  {
    var b0: nat, b1: nat, b2: nat, b3: nat := s[i], s[i + 1], s[i + 2], s[i + 3];
    var n := Get32(s, i);
    DivModUnique(n, 0x100, b1 + 0x100 * b2 + 0x1_0000 * b3, b0);
    DivModUnique(n / 0x100, 0x100, b2 + 0x100 * b3, b1);
    DivModUnique(n / 0x100 / 0x100, 0x100, b3, b2);
    DivModUnique(b3, 0x100, 0, b3);
  }

  lemma Get16Le16(n: nat, s: seq<byte>, i: nat)
    requires i + 2 <= |s| && s[i..i + 2] == Le16(n)
    ensures Get16(s, i) == n % 0x1_0000
  {
    var t := s[i..i + 2];
    assert t[0] == s[i] && t[1] == s[i + 1];
    RemainderUnique(n, 0x1_0000, n / 0x100 / 0x100, Get16(s, i));
  }

  /** Passing an unsigned value through an `int` variable and back. */
  lemma IntRoundTrip(x: u32)
    ensures ToU32(ToInt32(x)) == x
  {
  }
}
