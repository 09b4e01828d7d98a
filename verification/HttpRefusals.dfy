/** What the parser refuses: each step is malformed exactly for one of these reasons, and
    waits for more bytes in all other cases in which it is not done. */
module HttpRefusals {
  import opened Collections
  import opened CString
  import opened Numerals
  import opened HttpSpec
  import opened HttpEncode
  import opened HttpFraming
  import opened HttpChunks
  import HttpBody

  /** `p` goes on without `a` and `b` for `max` bytes, and even longer. */
  predicate TooLong(p: Bytes, max: nat, a: byte, b: byte) { |p| >= max && NoneOf(p[..max], a, b) }

  /** The first `a` or `b` of `p` is at `i`, within `max` bytes. */
  predicate StopsAt(p: Bytes, i: nat, max: nat, a: byte, b: byte)
  {
    i < |p| && i < max && NoneOf(p[..i], a, b) && (p[i] == a || p[i] == b)
  }

  /** A carriage return that something else than a line feed follows. */
  predicate Broken(p: Bytes, i: nat) { i + 1 < |p| && p[i] == CR && p[i + 1] != LF }

  predicate EndsLine(p: Bytes, i: nat) { i + 1 < |p| && p[i] == CR && p[i + 1] == LF }

  lemma StopFound(p: Bytes, max: nat, a: byte, b: byte)
    ensures var k := FirstOf(p, 0, max, a, b);
            && (TooLong(p, max, a, b) <==> k == max)
            && forall i: nat :: StopsAt(p, i, max, a, b) <==> k < |p| && k < max && i == k
  {
    var k := FirstOf(p, 0, max, a, b);
    if TooLong(p, max, a, b) {
      assert forall j :: 0 <= j < max ==> p[j] == p[..max][j];
      FirstOfUnique(p, 0, max, a, b, max);
    }
    forall i: nat | StopsAt(p, i, max, a, b) ensures i == k {
      assert forall j :: 0 <= j < i ==> p[j] == p[..i][j];
      FirstOfUnique(p, 0, max, a, b, i);
    }
  }

  /** A start line: 8192 bytes without an end, a NUL, a broken end, or no two spaces. */
  lemma StartLineRefused(s: State, p: Bytes)
    requires s.headerState.StartLine? && !StartsWithCrLf(p)
    ensures HeaderStep(s, p).0 == Malformed <==>
            || TooLong(p, 8192, CR, NUL)
            || exists i: nat :: StopsAt(p, i, 8192, CR, NUL)
                 && (p[i] == NUL || Broken(p, i)
                     || (EndsLine(p, i) && forall l: Start :: CutAtSpaces(l) ==> p[..i] != LineText(l)))
  {
    StopFound(p, 8192, CR, NUL);
    var k := FirstOf(p, 0, 8192, CR, NUL);
    FoundIsCut(p[..k]);
    assert StopsAt(p, k, 8192, CR, NUL) <==> k < |p| && k < 8192;
    hide FirstOf, SplitStartLine, StopsAt, TooLong, LineText, CutAtSpaces, MatchStatusLine, MatchRequestLine;
  }

  /** A header name: 64 bytes without a colon, or a NUL. */
  lemma NameRefused(s: State, p: Bytes)
    requires s.headerState.HeaderName? && !StartsWithCrLf(p)
    ensures HeaderStep(s, p).0 == Malformed <==>
            TooLong(p, 64, ':', NUL) || exists i: nat :: StopsAt(p, i, 64, ':', NUL) && p[i] == NUL
  {
    StopFound(p, 64, ':', NUL);
    var k := FirstOf(p, 0, 64, ':', NUL);
    assert StopsAt(p, k, 64, ':', NUL) <==> k < |p| && k < 64;
    hide FirstOf, StopsAt, TooLong;
  }

  /** A header value, behind its blanks: 8192 bytes without an end when another byte is there,
      a NUL that another byte follows, or a broken end. */
  lemma ValueRefused(s: State, p: Bytes, lead: Bytes, q: Bytes)
    requires s.headerState.HeaderValue? && p == lead + q && AllBlank(lead) && (q != [] ==> NoBlank(q[0]))
    ensures HeaderStep(s, p).0 == Malformed <==>
            || (TooLong(q, 8192, CR, NUL) && |q| > 8192)
            || exists i: nat :: StopsAt(q, i, 8192, CR, NUL) && i + 1 < |q| && (q[i] == NUL || Broken(q, i))
  {
    hide MatchHeader, TrimRight, FirstOf, SkipBlanks;
    SkipBlanksUnique(p, 0, |lead|);
    Shifted(p, lead, q);
    StopFound(q, 8192, CR, NUL);
    var k := FirstOf(q, 0, 8192, CR, NUL);
    assert StopsAt(q, k, 8192, CR, NUL) <==> k < |q| && k < 8192;
    assert forall j :: 0 <= j < |q| ==> p[|lead| + j] == q[j];
  }

  lemma Shifted(p: Bytes, lead: Bytes, q: Bytes)
    requires p == lead + q
    ensures FirstOf(p, |lead|, |lead| + 8192, CR, NUL) == |lead| + FirstOf(q, 0, 8192, CR, NUL)
  {
    var k := FirstOf(q, 0, 8192, CR, NUL);
    assert forall j :: 0 <= j < |q| ==> p[|lead| + j] == q[j];
    FirstOfUnique(p, |lead|, |lead| + 8192, CR, NUL, |lead| + k);
  }

  /** A size line: 1024 bytes without an end, a broken end, or no number below 2^31 - 1028. */
  lemma SizeLineRefused(s: State, p: Bytes)
    requires s.chunkState.ChunkData?
    ensures ChunkStep(s, p).0 == Malformed <==>
            || TooLong(p, 1024, CR, CR)
            || exists i: nat :: StopsAt(p, i, 1024, CR, CR)
                 && (Broken(p, i) || (EndsLine(p, i) && !exists n: nat :: HttpBody.SizeIs(p[..i], n) && n < 2147482620))
  {
    StopFound(p, 1024, CR, CR);
    var k := FirstOf(p, 0, 1024, CR, CR);
    assert StopsAt(p, k, 1024, CR, CR) <==> k < |p| && k < 1024;
    hide FirstOf, StopsAt, TooLong, StrtolHex, HttpBody.SizeIs;
    if k < |p| && k < 1024 { Sized(p[..k]); }
  }

  /** The test of the size. */
  lemma Sized(line: Bytes)
    ensures (exists n: nat :: HttpBody.SizeIs(line, n) && n < 2147482620) <==>
            var (v, e) := StrtolHex(line); e != 0 && (v == 0 || SizeT(v) < 2147482620)
  {
    hide StrtolHex, HttpBody.SizeIs, SizeT;
    if n: nat :| HttpBody.SizeIs(line, n) && n < 2147482620 {
      HttpBody.SizeIsRead(line, n);
      HttpBody.SmallSize(n);
    }
    var (v, e) := StrtolHex(line);
    if e != 0 && (v == 0 || SizeT(v) < 2147482620) {
      HttpBody.SizeIsThere(line);
      HttpBody.SmallSize(0);
    }
  }

  /** A trailer line: 8192 bytes without an end, or a broken end. */
  lemma TrailerRefused(s: State, p: Bytes)
    requires !s.chunkState.ChunkData?
    ensures ChunkStep(s, p).0 == Malformed <==>
            TooLong(p, 8192, CR, CR) || exists i: nat :: StopsAt(p, i, 8192, CR, CR) && Broken(p, i)
  {
    StopFound(p, 8192, CR, CR);
    var k := FirstOf(p, 0, 8192, CR, CR);
    assert StopsAt(p, k, 8192, CR, CR) <==> k < |p| && k < 8192;
    hide FirstOf, StopsAt, TooLong;
  }
}
