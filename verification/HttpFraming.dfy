/** What a start line and a list of headers decide about a message: how long it is, where
    its body begins, and whether the connection stays (section 3.3.3 of RFC 7230). */
module HttpFraming {
  import opened Collections
  import opened CString
  import opened HttpSpec
  import opened HttpAppend
  import opened HttpEncode
  import opened Numerals

  // ---------- Start lines ----------

  lemma FoundIsCut(line: Bytes)
    ensures match SplitStartLine(line)
            case None => forall l: Start :: CutAtSpaces(l) ==> line != LineText(l)
            case Some((a, b, c)) => CutAtSpaces(Start(a, b, c)) && line == LineText(Start(a, b, c))
  {
    match SplitStartLine(line)
    case None =>
      forall l: Start | CutAtSpaces(l) ensures line != LineText(l) {
        SplitsAtSpaces(l);
        hide *;
      }
    case Some(_) => FoundParts(line);
  }

  lemma FoundParts(line: Bytes)
    requires SplitStartLine(line).Some?
    ensures var (a, b, c) := SplitStartLine(line).value;
            CutAtSpaces(Start(a, b, c)) && line == LineText(Start(a, b, c))
  {
    var i := FirstOf(line, 0, |line|, SP, SP);
    var j := FirstOf(line, i + 1, |line|, SP, SP);
    assert line == line[..i] + [line[i]] + line[i + 1..j] + [line[j]] + line[j + 1..];
  }

  /** A line is refused exactly when it has no two spaces; otherwise its parts put together
      are the line again, old versions do not keep the connection, and only a bodyless status
      decides the length. */
  lemma StartLineDecides(isResp: bool, line: Bytes)
    ensures match MatchStartLine(isResp, Init(isResp).msg, line)
            case None => forall l: Start :: CutAtSpaces(l) ==> line != LineText(l)
            case Some(m) =>
              && m.version.Some? && (m.keepAlive <==> !OldVersion(m.version.value))
              && m.headers == [] && !m.chunked && !m.expectContinue
              && (if isResp then
                    && m.code.Some? && m.phrase.Some?
                    && CutAtSpaces(Start(m.version.value, m.code.value, m.phrase.value))
                    && line == LineText(Start(m.version.value, m.code.value, m.phrase.value))
                  else
                    && m.method_.Some? && m.uri.Some?
                    && CutAtSpaces(Start(m.method_.value, m.uri.value, m.version.value))
                    && line == LineText(Start(m.method_.value, m.uri.value, m.version.value)))
              && m.transferLength == (if isResp && Bodyless(m.code.value) then 0 else SIZE_MAX)
  {
    FoundIsCut(line);
    hide SplitStartLine, LineText, OldVersion, Bodyless;
  }

  /** Versions with one digit on each side of the point: the old ones are those below 1.1. */
  lemma OldIsBelow11(major: byte, minor: byte)
    requires IsDigit(major) && IsDigit(minor)
    ensures OldVersion("HTTP/" + [major] + "." + [minor]) <==> 10 * DigitValue(major) + DigitValue(minor) < 11
  {
    var v := "HTTP/" + [major] + "." + [minor];
    assert v[5] == major && v[7] == minor;
    assert major == '0' ==> v[..6] == "HTTP/0";
    assert major == '1' && minor == '0' ==> v == "HTTP/1.0";
  }

  /** Codes of three digits: no body with 1xx, 204 and 304, and with no other. */
  lemma BodylessCodes(n: nat)
    requires 100 <= n < 1000
    ensures Bodyless(DecimalText(n)) <==> 100 <= n < 200 || n == 204 || n == 304
  {
    var code := DecimalText(n);
    ThreeDigits(n);
    ThreeDigits(204);
    ThreeDigits(304);
    DecimalReadsText(n);
    DecimalReadsText(204);
    DecimalReadsText(304);
    assert DecimalText(204) == "204" && DecimalText(304) == "304";
  }

  lemma ThreeDigits(n: nat)
    requires 100 <= n < 1000
    ensures DecimalText(n) == [DIGITS[n / 100], DIGITS[n / 10 % 10], DIGITS[n % 10]]
  {
    assert DecimalText(n / 10) == DecimalText(n / 10 / 10) + [DIGITS[n / 10 % 10]];
    assert n / 10 / 10 == n / 100;
  }

  // ---------- Header lists ----------

  predicate Expects(h: Header) { EqualsNoCase(h.name, "Expect") && EqualsNoCase(h.value, "100-continue") }

  predicate Keeps(h: Header) { EqualsNoCase(h.name, "Connection") && EqualsNoCase(h.value, "Keep-Alive") }

  predicate Closes(h: Header) { EqualsNoCase(h.name, "Connection") && EqualsNoCase(h.value, "close") }

  predicate Measures(h: Header)
  {
    EqualsNoCase(h.name, "Content-Length") && h.value != [] && IsDigit(h.value[0])
  }

  predicate Encodes(h: Header) { EqualsNoCase(h.name, "Transfer-Encoding") && !EqualsNoCase(h.value, "identity") }

  /** No header after place `k` says anything on the connection; -1 is before all. */
  predicate LastOnConnection(hs: seq<Header>, k: int)
  {
    forall j :: 0 <= j < |hs| && j > k ==> !Keeps(hs[j]) && !Closes(hs[j])
  }

  predicate LastOnLength(hs: seq<Header>, k: int)
  {
    forall j :: 0 <= j < |hs| && j > k ==> !Measures(hs[j])
  }

  lemma NamesDiffer(a: Bytes)
    ensures EqualsNoCase(a, "Expect") ==> |a| == 6
    ensures EqualsNoCase(a, "Connection") ==> |a| == 10
    ensures EqualsNoCase(a, "Content-Length") ==> |a| == 14
    ensures EqualsNoCase(a, "Transfer-Encoding") ==> |a| == 17
    ensures EqualsNoCase(a, "Keep-Alive") ==> |a| == 10
    ensures EqualsNoCase(a, "close") ==> |a| == 5
  {
  }

  /** One header line decides one thing at most. */
  lemma HeaderDecides(m: Message, h: Header)
    ensures var n := MatchHeader(m, h.name, h.value);
            && n.expectContinue == (m.expectContinue || Expects(h))
            && n.chunked == (m.chunked || Encodes(h))
            && n.keepAlive == (if Keeps(h) then true else if Closes(h) then false else m.keepAlive)
            && n.contentLength == (if Measures(h) then AtoiSize(h.value) else m.contentLength)
  {
    NamesDiffer(h.name);
    NamesDiffer(h.value);
    hide EqualsNoCase, AtoiSize;
  }

  /** In a whole list every header on the encoding and the expectation counts, and the last
      one on the length and on the connection. */
  lemma {:induction false} HeadersDecide(m: Message, hs: seq<Header>)
    ensures var n := WithHeaders(m, hs);
            && n.headers == m.headers + hs
            && (n.expectContinue <==> m.expectContinue || exists h <- hs :: Expects(h))
            && (n.chunked <==> m.chunked || exists h <- hs :: Encodes(h))
    ensures forall k :: 0 <= k < |hs| && LastOnConnection(hs, k) && (Keeps(hs[k]) || Closes(hs[k])) ==>
              WithHeaders(m, hs).keepAlive == Keeps(hs[k])
    ensures forall k :: 0 <= k < |hs| && LastOnLength(hs, k) && Measures(hs[k]) ==>
              WithHeaders(m, hs).contentLength == AtoiSize(hs[k].value)
    ensures LastOnConnection(hs, -1) ==> WithHeaders(m, hs).keepAlive == m.keepAlive
    ensures LastOnLength(hs, -1) ==> WithHeaders(m, hs).contentLength == m.contentLength
    decreases |hs|
  {
    HeadersKept(m, hs);
    hide MatchHeader, Expects, Encodes, Keeps, Closes, Measures, AtoiSize;
    if hs != [] {
      var h, more := hs[0], hs[1..];
      HeaderDecides(m, h);
      HeadersDecide(MatchHeader(m, h.name, h.value), more);
    }
  }

  // ---------- The body ----------

  predicate Digits(p: Bytes) { forall j :: 0 <= j < |p| ==> IsDigit(p[j]) }

  /** The last Content-Length is `k`, and the body as long as it says. */
  lemma MeasuredBody(m: Message, hs: seq<Header>, k: nat)
    requires k < |hs| && LastOnLength(hs, k) && Measures(hs[k])
    ensures WithHeaders(m, hs).contentLength == AtoiSize(hs[k].value)
    ensures Digits(hs[k].value) && Decimal(hs[k].value) < TWO_31 ==>
              WithHeaders(m, hs).contentLength == Decimal(hs[k].value)
  {
    hide AtoiSize;
    HeadersDecide(m, hs);
    if Digits(hs[k].value) && Decimal(hs[k].value) < TWO_31 { AtoiReadsDecimal(hs[k].value); }
  }

  /** Where the body begins and how it ends, once the head is read: not at all with a bodyless
      status; with chunks if any Transfer-Encoding asks for them, whatever Content-Length
      says; else after the last Content-Length; else a request has none and a response goes
      on until the end of the connection. */
  ghost predicate FramedBy(isResp: bool, code: Bytes, hs: seq<Header>, t: State)
  {
    if isResp && Bodyless(code) then t.msg.transferLength == 0
    else if exists h <- hs :: Encodes(h) then
      t.msg.chunked && !KnownLength(t) && t.chunkOffset == t.headerOffset && t.chunkState.ChunkData?
    else
      && !t.msg.chunked
      && (LastOnLength(hs, -1) ==> t.msg.transferLength == if isResp then SIZE_MAX else 0)
      && forall k: nat :: k < |hs| && LastOnLength(hs, k) && Measures(hs[k]) ==>
           t.msg.transferLength == AtoiSize(hs[k].value)
  }

  lemma HeadFrames(isResp: bool, l: Start, hs: seq<Header>, s: State)
    requires s.msg == WithHeaders(Started(isResp, l), hs)
    ensures FramedBy(isResp, l.second, hs, Framed(s))
  {
    hide Bodyless, Encodes, Measures, LastOnLength, AtoiSize, WithHeaders;
    HeadersDecide(Started(isResp, l), hs);
    HeadersKept(Started(isResp, l), hs);
  }

  lemma BodyFollowsHead(isResp: bool, l: Start, hs: seq<Header>, rest: Bytes)
    requires StartOk(l) && HeadersOk(hs)
    ensures var (r, t) := ReadHeader(Init(isResp), Head(l, hs) + rest);
            r == Done && t.headerOffset == |Head(l, hs)| && FramedBy(isResp, l.second, hs, t)
  {
    hide HeaderLoop, Head, StartOk, HeadersOk, WithHeaders, FramedBy;
    HeadParses(isResp, l, hs, rest);
    HeadFrames(isResp, l, hs, HeaderLoop(Init(isResp), Head(l, hs) + rest).1);
  }
}
