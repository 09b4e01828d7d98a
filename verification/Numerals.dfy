/** Numbers as they are written: what `strtol` and `atoi` read is what a printer of the
    number, which only divides, would write. */
module Numerals {
  import opened CString

  const LOWER: Bytes := "abcdefghijklmnopqrstuvwxyz"
  const UPPER: Bytes := "ABCDEFGHIJKLMNOPQRSTUVWXYZ"

  /** Folding maps the capitals to the small letters and leaves every other byte alone. */
  lemma FoldsLetters(c: byte)
    ensures forall i :: 0 <= i < 26 ==> ToLower(UPPER[i]) == LOWER[i]
    ensures c !in UPPER ==> ToLower(c) == c
  {
    assert |UPPER| == |LOWER| == 26;
    forall i | 0 <= i < 26 ensures UPPER[i] as int == 'A' as int + i && LOWER[i] as int == 'a' as int + i {
    }
    if 'A' <= c <= 'Z' {
      assert UPPER[c as int - 'A' as int] == c;
    }
  }

  // ---------- Hexadecimal ----------

  const HEX_LOWER: Bytes := "0123456789abcdef"
  const HEX_UPPER: Bytes := "0123456789ABCDEF"

  lemma HexDigits()
    ensures |HEX_LOWER| == |HEX_UPPER| == 16
    ensures forall v :: 0 <= v < 16 ==> IsHex(HEX_LOWER[v]) && HexValue(HEX_LOWER[v]) == v
    ensures forall v :: 0 <= v < 16 ==> IsHex(HEX_UPPER[v]) && HexValue(HEX_UPPER[v]) == v
  {
  }

  /** Those are all digits there are. */
  lemma HexDigitIs(c: byte)
    ensures IsHex(c) <==> c in HEX_LOWER || c in HEX_UPPER
    ensures IsHex(c) ==> HexValue(c) < 16 && (c == HEX_LOWER[HexValue(c)] || c == HEX_UPPER[HexValue(c)])
  {
    HexDigits();
  }

  function HexText(n: nat, digits: Bytes): Bytes
    requires |digits| == 16
  {
    if n < 16 then [digits[n]] else HexText(n / 16, digits) + [digits[n % 16]]
  }

  predicate AllHex(p: Bytes) { forall j :: 0 <= j < |p| ==> IsHex(p[j]) }

  /** What is printed is read back, in both cases of letters. */
  lemma {:induction false} HexReadsText(n: nat, digits: Bytes)
    requires digits == HEX_LOWER || digits == HEX_UPPER
    ensures var p := HexText(n, digits); p != [] && AllHex(p) && Hex(p) == n
  {
    HexDigits();
    var p := HexText(n, digits);
    if n < 16 {
      assert p[..0] == [] && Hex([]) == 0;
    } else {
      HexReadsText(n / 16, digits);
      assert p[..|p| - 1] == HexText(n / 16, digits);
    }
  }

  function Folded(p: Bytes): Bytes { seq(|p|, i requires 0 <= i < |p| => ToLower(p[i])) }

  function Zeros(k: nat): Bytes { seq(k, _ => '0') }

  /** Up to zeros in front and the case of letters, `p` is what is printed for `n`. */
  ghost predicate Numeral(p: Bytes, n: nat)
  {
    exists k: nat :: Folded(p) == Zeros(k) + HexText(n, HEX_LOWER)
  }

  lemma FoldedDigit(c: byte)
    ensures IsHex(ToLower(c)) <==> IsHex(c)
    ensures IsHex(c) ==> HexValue(ToLower(c)) == HexValue(c) < 16 && ToLower(c) == HEX_LOWER[HexValue(c)]
  {
    HexDigitIs(c);
    HexDigits();
  }

  lemma {:induction false} FoldedReads(p: Bytes)
    ensures AllHex(Folded(p)) <==> AllHex(p)
    ensures AllHex(p) ==> Hex(Folded(p)) == Hex(p)
  {
    forall j | 0 <= j < |p| ensures IsHex(Folded(p)[j]) <==> IsHex(p[j]) { FoldedDigit(p[j]); }
    if AllHex(p) && p != [] {
      var l := |p| - 1;
      FoldedReads(p[..l]);
      FoldedDigit(p[l]);
      assert Folded(p)[..l] == Folded(p[..l]);
    }
  }

  lemma {:induction false} ZerosRead(k: nat, p: Bytes)
    requires AllHex(p)
    ensures AllHex(Zeros(k) + p) && Hex(Zeros(k) + p) == Hex(p)
    decreases k + |p|
  {
    var q := Zeros(k) + p;
    if p != [] {
      assert q[..|q| - 1] == Zeros(k) + p[..|p| - 1];
      ZerosRead(k, p[..|p| - 1]);
    } else if k > 0 {
      assert q[..k - 1] == Zeros(k - 1) + [];
      ZerosRead(k - 1, []);
    }
  }

  /** What `strtol` computes from digits is the number that they print, and every text of
      digits prints one. */
  lemma {:induction false} NumeralIs(p: Bytes, n: nat)
    ensures Numeral(p, n) <==> p != [] && AllHex(p) && Hex(p) == n
  {
    if Numeral(p, n) {
      var k: nat :| Folded(p) == Zeros(k) + HexText(n, HEX_LOWER);
      HexReadsText(n, HEX_LOWER);
      ZerosRead(k, HexText(n, HEX_LOWER));
      assert |Folded(p)| > 0;
      FoldedReads(p);
    }
    if p != [] && AllHex(p) { HexPrinted(p); }
  }

  lemma HexTextMore(m: nat, v: nat)
    requires v < 16
    ensures HexText(16 * m + v, HEX_LOWER) ==
            if m == 0 then [HEX_LOWER[v]] else HexText(m, HEX_LOWER) + [HEX_LOWER[v]]
  {
    assert (16 * m + v) / 16 == m && (16 * m + v) % 16 == v;
  }

  lemma {:induction false} HexPrinted(p: Bytes)
    requires p != [] && AllHex(p)
    ensures Numeral(p, Hex(p))
  {
    var l := |p| - 1;
    var q := p[..l];
    if q == [] {
      EmptyHex();
    } else {
      HexPrinted(q);
    }
    NumeralMore(q, Hex(q), p[l]);
    hide Numeral;
    assert q + [p[l]] == p;
  }

  /** One more digit. */
  lemma NumeralMore(q: Bytes, m: nat, c: byte)
    requires IsHex(c) && (Numeral(q, m) || (q == [] && m == 0))
    ensures Numeral(q + [c], 16 * m + HexValue(c))
  {
    FoldedDigit(c);
    HexDigits();
    hide HexValue, IsHex, HexText, HEX_LOWER, ToLower;
    var v, p := HexValue(c), q + [c];
    HexTextMore(m, v);
    HexTextMore(0, v);
    HexTextMore(0, 0);
    assert Folded(p) == Folded(q) + [ToLower(c)];
    if Numeral(q, m) {
      var k: nat :| Folded(q) == Zeros(k) + HexText(m, HEX_LOWER);
      if m == 0 {
        ZeroText();
        assert Zeros(k + 1) == Zeros(k) + ['0'];
        PrintedAs(p, k + 1, v);
      } else {
        assert Folded(p) == Zeros(k) + HexText(16 * m + v, HEX_LOWER);
        PrintedAs(p, k, 16 * m + v);
      }
    } else {
      assert Folded(p) == Zeros(0) + HexText(v, HEX_LOWER);
      PrintedAs(p, 0, v);
    }
  }

  lemma ZeroText()
    ensures HexText(0, HEX_LOWER) == ['0']
  {
  }

  lemma PrintedAs(p: Bytes, k: nat, n: nat)
    requires Folded(p) == Zeros(k) + HexText(n, HEX_LOWER)
    ensures Numeral(p, n)
  {
  }

  lemma EmptyHex()
    ensures Hex([]) == 0
  {
  }

  // ---------- What strtol accepts ----------

  /** The parts of a text that starts with a number in base 16. */
  datatype Number = Number(spaces: Bytes, sign: Bytes, prefix: Bytes, digits: Bytes, tail: Bytes)
  {
    function Start(): Bytes { spaces + sign + prefix }

    function Text(): Bytes { Start() + digits + tail }
  }

  const SPACES: Bytes := [' ', '\t', '\n', 11 as char, 12 as char, '\r']

  /** `tail` is not part of the number, also not in that a `0` and an `x` are a prefix. */
  ghost predicate Writes(w: Number, n: nat)
  {
    && (forall c <- w.spaces :: c in SPACES)
    && (w.sign == "" || w.sign == "+" || w.sign == "-")
    && (w.prefix == "" || w.prefix == "0x" || w.prefix == "0X")
    && Numeral(w.digits, n)
    && (w.tail != [] ==> !IsHex(w.tail[0]))
    && (w.prefix == "" && w.digits == "0" && |w.tail| >= 2 && IsHex(w.tail[1]) ==> ToLower(w.tail[0]) != 'x')
  }

  function Signed(w: Number, n: int): int { if w.sign == "-" then -n else n }

  lemma {:induction false} SpacesSkipped(p: Bytes, i: nat, k: nat)
    requires i <= k <= |p| && (forall j :: i <= j < k ==> p[j] in SPACES) && (k < |p| ==> p[k] !in SPACES)
    ensures SkipSpaces(p, i) == k
    decreases k - i
  {
    if i < k { SpacesSkipped(p, i + 1, k); }
  }

  lemma {:induction false} SkipsSpaces(p: Bytes, i: nat)
    requires i <= |p|
    ensures var k := SkipSpaces(p, i); (forall j :: i <= j < k ==> p[j] in SPACES) && (k < |p| ==> p[k] !in SPACES)
    decreases |p| - i
  {
    if i < |p| && IsSpace(p[i]) { SkipsSpaces(p, i + 1); }
  }

  lemma {:induction false} HexEndUnique(p: Bytes, i: nat, k: nat)
    requires i <= k <= |p| && (forall j :: i <= j < k ==> IsHex(p[j])) && (k < |p| ==> !IsHex(p[k]))
    ensures HexEnd(p, i) == k
    decreases k - i
  {
    if i < k { HexEndUnique(p, i + 1, k); }
  }

  lemma {:induction false} HexEndStops(p: Bytes, i: nat)
    requires i <= |p|
    ensures HexEnd(p, i) < |p| ==> !IsHex(p[HexEnd(p, i)])
    decreases |p| - i
  {
    if i < |p| && IsHex(p[i]) { HexEndStops(p, i + 1); }
  }

  /** Where the sign ends. */
  function SignEnd(p: Bytes, i: nat): (j: nat)
    requires i <= |p|
    ensures i <= j <= |p|
  {
    if i < |p| && (p[i] == '-' || p[i] == '+') then i + 1 else i
  }

  lemma DigitsAreThere(w: Number, n: nat)
    requires Writes(w, n)
    ensures w.digits != [] && AllHex(w.digits) && Hex(w.digits) == n
  {
    NumeralIs(w.digits, n);
  }

  lemma SpacesAndSign(w: Number, n: nat)
    requires Writes(w, n)
    ensures var t := w.Text();
            SkipSpaces(t, 0) == |w.spaces| && SignEnd(t, |w.spaces|) == |w.spaces| + |w.sign|
    ensures HexNegative(w.Text()) <==> w.sign == "-"
  {
    DigitsAreThere(w, n);
    hide Numeral, SkipSpaces, Number.Text, Number.Start;
    var i, more := |w.spaces|, w.sign + w.prefix + w.digits + w.tail;
    TextParts(w);
    assert more[0] == if w.sign != "" then w.sign[0] else if w.prefix != "" then w.prefix[0] else w.digits[0];
    NoSpace(more[0]);
    SpacesSkipped(w.Text(), 0, i);
  }

  lemma TextParts(w: Number)
    ensures w.Text() == w.spaces + (w.sign + w.prefix + w.digits + w.tail)
  {
  }

  lemma NoSpace(c: byte)
    ensures IsHex(c) || c == '-' || c == '+' ==> c !in SPACES
  {
  }

  /** Where a `0x` before a digit ends. */
  function PrefixEnd(p: Bytes, j: nat): (k: nat)
    requires j <= |p|
    ensures j <= k <= |p|
  {
    if j + 2 < |p| && p[j] == '0' && (p[j + 1] == 'x' || p[j + 1] == 'X') && IsHex(p[j + 2]) then j + 2 else j
  }

  lemma HexStartParts(p: Bytes)
    ensures HexStart(p) == PrefixEnd(p, SignEnd(p, SkipSpaces(p, 0)))
  {
  }

  lemma PrefixIs(w: Number, n: nat)
    requires Writes(w, n)
    ensures var j := |w.spaces| + |w.sign|;
            PrefixEnd(w.Text(), j) == j + |w.prefix|
  {
    DigitsAreThere(w, n);
    var t, j := w.Text(), |w.spaces| + |w.sign|;
    var more := w.prefix + w.digits + w.tail;
    assert t == w.spaces + w.sign + more;
    assert t[j..] == more;
    hide Numeral, IsHex;
    if w.prefix == "" {
      if |w.digits| >= 2 {
        assert t[j + 1] == w.digits[1];
        assert !IsHex('x') && !IsHex('X') by { NoHexX(); }
      } else if j + 2 < |t| {
        assert t[j] == w.digits[0] && t[j + 1] == w.tail[0] && t[j + 2] == w.tail[1];
        assert w.digits == [w.digits[0]];
      }
    } else {
      assert t[j] == w.prefix[0] && t[j + 1] == w.prefix[1] && t[j + 2] == w.digits[0];
    }
  }

  lemma NoHexX()
    ensures !IsHex('x') && !IsHex('X')
  {
  }

  lemma PrefixRead(w: Number, n: nat)
    requires Writes(w, n)
    ensures HexStart(w.Text()) == |w.Start()|
  {
    SpacesAndSign(w, n);
    HexStartParts(w.Text());
    PrefixIs(w, n);
  }

  /** A text that starts with a number is read as that number, up to the end of its digits. */
  lemma NumberIsRead(w: Number, n: nat)
    requires Writes(w, n)
    ensures StrtolHex(w.Text()) == (ClampLong(Signed(w, n)), |w.Start()| + |w.digits|)
  {
    PrefixRead(w, n);
    SpacesAndSign(w, n);
    DigitsAreThere(w, n);
    var t, i, k := w.Text(), |w.Start()|, |w.Start()| + |w.digits|;
    assert t[i..k] == w.digits && t[k..] == w.tail;
    hide Numeral, HexStart, HexNegative, Hex, SkipSpaces;
    forall j | i <= j < k ensures IsHex(t[j]) { assert t[j] == w.digits[j - i]; }
    HexEndUnique(t, i, k);
  }

  /** The parts that `strtol` finds. */
  function Parts(p: Bytes): Number
  {
    var i := SkipSpaces(p, 0);
    var j := SignEnd(p, i);
    var k := PrefixEnd(p, j);
    var e := HexEnd(p, k);
    Number(p[..i], p[i..j], p[j..k], p[k..e], p[e..])
  }

  lemma PartsText(p: Bytes)
    ensures Parts(p).Text() == p
  {
    hide SkipSpaces, SignEnd, PrefixEnd, HexEnd;
  }

  lemma PartsInFront(p: Bytes)
    ensures var w := Parts(p);
            && (forall c <- w.spaces :: c in SPACES)
            && (w.sign == "" || w.sign == "+" || w.sign == "-")
            && (w.prefix == "" || w.prefix == "0x" || w.prefix == "0X")
  {
    SkipsSpaces(p, 0);
    hide SkipSpaces, HexEnd, IsHex;
  }

  lemma PartsBehind(p: Bytes)
    requires StrtolHex(p).1 > 0
    ensures var w := Parts(p);
            && w.digits != [] && AllHex(w.digits)
            && (w.tail != [] ==> !IsHex(w.tail[0]))
            && (w.prefix == "" && w.digits == "0" && |w.tail| >= 2 && IsHex(w.tail[1]) ==> ToLower(w.tail[0]) != 'x')
  {
    HexStartParts(p);
    var j := SignEnd(p, SkipSpaces(p, 0));
    var k := PrefixEnd(p, j);
    var e := HexEnd(p, k);
    HexEndStops(p, k);
    TailFollows(p, j, e);
    hide HexStart, SkipSpaces, SignEnd, PrefixEnd, HexEnd, IsHex, ToLower;
  }

  /** And a text from which a number is read starts with one. */
  lemma NumberIsThere(p: Bytes) returns (w: Number, n: nat)
    requires StrtolHex(p).1 > 0
    ensures Writes(w, n) && w.Text() == p
  {
    w := Parts(p);
    PartsText(p);
    PartsInFront(p);
    PartsBehind(p);
    n := Hex(w.digits);
    NumeralIs(w.digits, n);
    hide StrtolHex, Numeral, Parts, IsHex, Hex;
  }

  /** A `0` is the whole number only when no `x` and digit follow it. */
  lemma TailFollows(p: Bytes, j: nat, e: nat)
    requires j <= |p| && PrefixEnd(p, j) <= e <= |p|
    ensures var tail := p[e..];
            PrefixEnd(p, j) == j && p[j..e] == "0" && |tail| >= 2 && IsHex(tail[1]) ==> ToLower(tail[0]) != 'x'
  {
    var tail := p[e..];
    if PrefixEnd(p, j) == j && p[j..e] == "0" && |tail| >= 2 && IsHex(tail[1]) {
      assert p[j] == p[j..e][0] && p[j + 1] == tail[0] && p[j + 2] == tail[1];
    }
  }

  // ---------- Decimal ----------

  const DIGITS: Bytes := "0123456789"

  lemma DecimalDigits()
    ensures |DIGITS| == 10 && forall v :: 0 <= v < 10 ==> IsDigit(DIGITS[v]) && DigitValue(DIGITS[v]) == v
  {
  }

  lemma DigitIs(c: byte)
    ensures IsDigit(c) <==> c in DIGITS
  {
    DecimalDigits();
    if IsDigit(c) { assert DIGITS[DigitValue(c)] == c; }
  }

  function DecimalText(n: nat): Bytes
  {
    if n < 10 then [DIGITS[n]] else DecimalText(n / 10) + [DIGITS[n % 10]]
  }

  predicate AllDecimal(p: Bytes) { forall j :: 0 <= j < |p| ==> IsDigit(p[j]) }

  lemma {:induction false} DecimalReadsText(n: nat)
    ensures var p := DecimalText(n); p != [] && AllDecimal(p) && Decimal(p) == n
  {
    DecimalDigits();
    var p := DecimalText(n);
    if n < 10 {
      assert p[..0] == [] && Decimal([]) == 0;
    } else {
      DecimalReadsText(n / 10);
      assert p[..|p| - 1] == DecimalText(n / 10);
    }
  }

  /** `atoi` of a printed number, whatever follows its digits: the number below 2^31; the same
      modulo 2^32, with the upper half taken for negative, as long as it fits a `long`; and
      -1 beyond. */
  lemma AtoiReadsText(n: nat, tail: Bytes)
    requires tail != [] ==> !IsDigit(tail[0])
    ensures var r := AtoiSize(DecimalText(n) + tail);
            && (n < TWO_31 ==> r == n)
            && (n < TWO_63 ==> r % TWO_32 == n % TWO_32 && (r < TWO_31 || r >= TWO_64 - TWO_31))
            && (n >= TWO_63 ==> r == SIZE_MAX)
  {
    DecimalReadsText(n);
    var d := DecimalText(n);
    var p := d + tail;
    DigitsStop(p, 0, |d|);
    assert p[..|d|] == d;
    FromLongIs(n);
    hide DecimalText, Decimal, DigitsEnd, FromLong;
  }

  lemma FromLongIs(n: nat)
    ensures var r := FromLong(n);
            && (n < TWO_31 ==> r == n)
            && (n < TWO_63 ==> r % TWO_32 == n % TWO_32 && (r < TWO_31 || r >= TWO_64 - TWO_31))
            && (n >= TWO_63 ==> r == SIZE_MAX)
  {
    var l := n % TWO_32;
    assert TWO_64 - TWO_32 + l == TWO_32 * (TWO_32 - 1) + l;
  }

  lemma {:induction false} DigitsStop(p: Bytes, i: nat, k: nat)
    requires i <= k <= |p| && (forall j :: i <= j < k ==> IsDigit(p[j])) && (k < |p| ==> !IsDigit(p[k]))
    ensures DigitsEnd(p, i) == k
    decreases k - i
  {
    if i < k { DigitsStop(p, i + 1, k); }
  }
}
