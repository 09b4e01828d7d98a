/** Bytes and the C library functions the HTTP code uses on them. */
module CString {

  type byte = c: char | c < 256 as char witness 'a'

  type Bytes = seq<byte>

  const NUL: byte := '\0'
  const CR: byte := '\r'
  const LF: byte := '\n'
  const SP: byte := ' '
  const TAB: byte := '\t'

  /** The first index from `i` on that is `lim`, is the end, or holds `a` or `b`. */
  function FirstOf(p: Bytes, i: nat, lim: nat, a: byte, b: byte): (k: nat)
    requires i <= |p| && i <= lim
    ensures i <= k <= |p| && k <= lim
    ensures forall j :: i <= j < k ==> p[j] != a && p[j] != b
    ensures k < |p| && k < lim ==> p[k] == a || p[k] == b
    decreases |p| - i
  {
    if i == |p| || i == lim || p[i] == a || p[i] == b then i else FirstOf(p, i + 1, lim, a, b)
  }

  /** A search that ended before the end of `p` ends there for every longer text. */
  lemma {:induction false} FirstOfExtended(p: Bytes, q: Bytes, i: nat, lim: nat, a: byte, b: byte)
    requires i <= |p| && i <= lim
    ensures var k := FirstOf(p, i, lim, a, b);
            && FirstOf(p + q, i, lim, a, b) >= k
            && (k < |p| || k == lim ==> FirstOf(p + q, i, lim, a, b) == k)
    decreases |p| - i
  {
    if i < |p| && i < lim && p[i] != a && p[i] != b {
      FirstOfExtended(p, q, i + 1, lim, a, b);
    }
  }

  /** It is the only index like that. */
  lemma {:induction false} FirstOfUnique(p: Bytes, i: nat, lim: nat, a: byte, b: byte, k: nat)
    requires i <= k <= |p| && k <= lim
    requires forall j :: i <= j < k ==> p[j] != a && p[j] != b
    requires k == |p| || k == lim || p[k] == a || p[k] == b
    ensures FirstOf(p, i, lim, a, b) == k
    decreases k - i
  {
    if i < k {
      FirstOfUnique(p, i + 1, lim, a, b, k);
    }
  }

  predicate IsBlank(c: byte) { c == SP || c == TAB }

  /** The first index from `i` on that is the end or not a blank. */
  function SkipBlanks(p: Bytes, i: nat): (k: nat)
    requires i <= |p|
    ensures i <= k <= |p| && (forall j :: i <= j < k ==> IsBlank(p[j])) && (k < |p| ==> !IsBlank(p[k]))
    decreases |p| - i
  {
    if i == |p| || !IsBlank(p[i]) then i else SkipBlanks(p, i + 1)
  }

  lemma {:induction false} SkipBlanksExtended(p: Bytes, q: Bytes, i: nat)
    requires i <= |p|
    ensures SkipBlanks(p + q, i) >= SkipBlanks(p, i)
    ensures SkipBlanks(p, i) < |p| ==> SkipBlanks(p + q, i) == SkipBlanks(p, i)
    decreases |p| - i
  {
    if i < |p| && IsBlank(p[i]) {
      SkipBlanksExtended(p, q, i + 1);
    }
  }

  lemma {:induction false} SkipBlanksUnique(p: Bytes, i: nat, k: nat)
    requires i <= k <= |p| && (forall j :: i <= j < k ==> IsBlank(p[j])) && (k < |p| ==> !IsBlank(p[k]))
    ensures SkipBlanks(p, i) == k
    decreases k - i
  {
    if i < k { SkipBlanksUnique(p, i + 1, k); }
  }

  /** Without the blanks at the end. */
  function TrimRight(v: Bytes): (t: Bytes)
    ensures t <= v && (t != [] ==> !IsBlank(t[|t| - 1]))
    ensures forall j :: |t| <= j < |v| ==> IsBlank(v[j])
  {
    if v != [] && IsBlank(v[|v| - 1]) then TrimRight(v[..|v| - 1]) else v
  }

  function ToLower(c: byte): byte
  {
    if 'A' <= c <= 'Z' then ((c as int) + 32) as char else c
  }

  /** `strcasecmp(a, b) == 0`, for texts without NUL. */
  predicate EqualsNoCase(a: Bytes, b: Bytes)
  {
    |a| == |b| && forall i :: 0 <= i < |a| ==> ToLower(a[i]) == ToLower(b[i])
  }

  // ---------- Numbers ----------

  const TWO_31: int := 0x8000_0000
  const TWO_32: int := 0x1_0000_0000
  const TWO_63: int := 0x8000_0000_0000_0000
  const TWO_64: int := 0x1_0000_0000_0000_0000
  const SIZE_MAX: int := TWO_64 - 1

  type size_t = n: nat | n < TWO_64 witness 0

  /** The value of an expression of type `size_t`. */
  function SizeT(x: int): size_t
  {
    x % TWO_64
  }

  predicate IsDigit(c: byte) { '0' <= c <= '9' }

  function DigitValue(c: byte): nat
    requires IsDigit(c)
  {
    c as int - '0' as int
  }

  function DigitsEnd(p: Bytes, i: nat): (k: nat)
    requires i <= |p|
    ensures i <= k <= |p|
    decreases |p| - i
  {
    if i < |p| && IsDigit(p[i]) then DigitsEnd(p, i + 1) else i
  }

  function Decimal(p: Bytes): nat
    requires forall j :: 0 <= j < |p| ==> IsDigit(p[j])
  {
    if p == [] then 0
    else 10 * Decimal(p[..|p| - 1]) + DigitValue(p[|p| - 1])
  }

  lemma {:induction false} DigitsBefore(p: Bytes, i: nat)
    requires i <= |p|
    ensures forall j :: i <= j < DigitsEnd(p, i) ==> IsDigit(p[j])
    ensures DigitsEnd(p, i) < |p| ==> !IsDigit(p[DigitsEnd(p, i)])
    decreases |p| - i
  {
    if i < |p| && IsDigit(p[i]) { DigitsBefore(p, i + 1); }
  }

  /** `(size_t)(int)` of `n` as a `long`. */
  function FromLong(n: nat): size_t
  {
    var l := (if n < TWO_63 then n else TWO_63 - 1) % TWO_32;
    if l < TWO_31 then l else TWO_64 - TWO_32 + l
  }

  /** `(size_t)atoi(p)` for a text that starts with a digit: the value is read as a
      `long` (too large ones become the largest), cut to an `int` and sign-extended. */
  function AtoiSize(p: Bytes): size_t
  {
    DigitsBefore(p, 0);
    FromLong(Decimal(p[..DigitsEnd(p, 0)]))
  }

  /** A decimal number below 2^31 is read back as itself. */
  lemma AtoiReadsDecimal(p: Bytes)
    requires p != [] && (forall j :: 0 <= j < |p| ==> IsDigit(p[j])) && Decimal(p) < TWO_31
    ensures AtoiSize(p) == Decimal(p)
  {
    AllDigits(p, 0);
    assert p[..|p|] == p;
  }

  lemma {:induction false} AllDigits(p: Bytes, i: nat)
    requires i <= |p| && forall j :: i <= j < |p| ==> IsDigit(p[j])
    ensures DigitsEnd(p, i) == |p|
    decreases |p| - i
  {
    if i < |p| { AllDigits(p, i + 1); }
  }

  predicate IsSpace(c: byte) { c == SP || '\t' <= c <= '\r' }

  predicate IsHex(c: byte) { IsDigit(c) || 'a' <= c <= 'f' || 'A' <= c <= 'F' }

  function HexValue(c: byte): nat
    requires IsHex(c)
  {
    if IsDigit(c) then DigitValue(c)
    else if 'a' <= c then c as int - 'a' as int + 10
    else c as int - 'A' as int + 10
  }

  function SkipSpaces(p: Bytes, i: nat): (k: nat)
    requires i <= |p|
    ensures i <= k <= |p|
    decreases |p| - i
  {
    if i < |p| && IsSpace(p[i]) then SkipSpaces(p, i + 1) else i
  }

  function HexEnd(p: Bytes, i: nat): (k: nat)
    requires i <= |p|
    ensures i <= k <= |p| && forall j :: i <= j < k ==> IsHex(p[j])
    decreases |p| - i
  {
    if i < |p| && IsHex(p[i]) then HexEnd(p, i + 1) else i
  }

  function Hex(p: Bytes): nat
    requires forall j :: 0 <= j < |p| ==> IsHex(p[j])
  {
    if p == [] then 0 else 16 * Hex(p[..|p| - 1]) + HexValue(p[|p| - 1])
  }

  function ClampLong(x: int): int
  {
    if x < -TWO_63 then -TWO_63 else if x >= TWO_63 then TWO_63 - 1 else x
  }

  /** Where the digits of a base-16 number start: after space, sign and `0x`. */
  function HexStart(p: Bytes): (k: nat)
    ensures k <= |p|
  {
    var i := SkipSpaces(p, 0);
    var j := if i < |p| && (p[i] == '-' || p[i] == '+') then i + 1 else i;
    if j + 2 < |p| && p[j] == '0' && (p[j + 1] == 'x' || p[j + 1] == 'X') && IsHex(p[j + 2]) then j + 2 else j
  }

  predicate HexNegative(p: Bytes)
  {
    var i := SkipSpaces(p, 0);
    i < |p| && p[i] == '-'
  }

  /** `strtol(p, &end, 16)`: the value and `end - p`, which is 0 without digits. */
  function StrtolHex(p: Bytes): (r: (int, nat))
    ensures r.1 <= |p|
  {
    var i := HexStart(p);
    var k := HexEnd(p, i);
    if k == i then (0, 0)
    else
      var v: int := Hex(p[i..k]);
      (ClampLong(if HexNegative(p) then -v else v), k)
  }

  /** A number that ends within `p` reads the same in any text `p + q` whose next byte
      is no hexadecimal digit. */
  lemma StrtolHexExtended(p: Bytes, q: Bytes)
    requires StrtolHex(p).1 > 0
    requires q != [] ==> !IsHex(q[0]) && q[0] != 'x' && q[0] != 'X'
    ensures StrtolHex(p + q) == StrtolHex(p)
  {
    hide HexStart, HexNegative, Hex;
    HexStartExtended(p, q);
    var i, k := HexStart(p), HexEnd(p, HexStart(p));
    HexEndExtended(p, q, i);
    assert (p + q)[i..k] == p[i..k];
  }

  lemma HexStartExtended(p: Bytes, q: Bytes)
    requires HexStart(p) < |p| && IsHex(p[HexStart(p)])
    requires q != [] ==> !IsHex(q[0]) && q[0] != 'x' && q[0] != 'X'
    ensures HexStart(p + q) == HexStart(p) && HexNegative(p + q) == HexNegative(p)
  {
    SkipSpacesExtended(p, q, 0);
  }

  lemma {:induction false} SkipSpacesExtended(p: Bytes, q: Bytes, i: nat)
    requires i <= |p|
    ensures SkipSpaces(p, i) < |p| ==> SkipSpaces(p + q, i) == SkipSpaces(p, i)
    decreases |p| - i
  {
    if i < |p| && IsSpace(p[i]) { SkipSpacesExtended(p, q, i + 1); }
  }

  lemma {:induction false} HexEndExtended(p: Bytes, q: Bytes, i: nat)
    requires i <= |p|
    requires q != [] ==> !IsHex(q[0])
    ensures HexEnd(p + q, i) == HexEnd(p, i)
    decreases |p| - i
  {
    if i < |p| && IsHex(p[i]) { HexEndExtended(p, q, i + 1); }
  }
}
