/** What `HttpMessage::encode` sends, and that parsing it gives the message back. */
module HttpEncode {
  import opened Collections
  import opened CString
  import opened HttpSpec
  import opened HttpAppend

  const CRLF: Bytes := [CR, LF]

  datatype Start = Start(first: Bytes, second: Bytes, third: Bytes)

  function LineText(l: Start): Bytes { l.first + [SP] + l.second + [SP] + l.third }

  function StartText(l: Start): Bytes { LineText(l) + CRLF }

  function HeaderLine(h: Header): Bytes { h.name + [':', SP] + h.value + CRLF }

  function HeaderLines(hs: seq<Header>): Bytes
  {
    if hs == [] then [] else HeaderLine(hs[0]) + HeaderLines(hs[1..])
  }

  function Head(l: Start, hs: seq<Header>): Bytes { StartText(l) + (HeaderLines(hs) + CRLF) }

  /** The bytes of a message. */
  function Wire(l: Start, hs: seq<Header>, body: Bytes): Bytes { Head(l, hs) + body }

  // ---------- Well-formed messages ----------

  predicate NoneOf(p: Bytes, a: byte, b: byte)
  {
    forall j :: 0 <= j < |p| ==> p[j] != a && p[j] != b
  }

  /** The only way to cut a line: no space is left in the first two parts. */
  predicate CutAtSpaces(l: Start) { NoneOf(l.first, SP, SP) && NoneOf(l.second, SP, SP) }

  /** What the line syntax can carry, within the parser's limits. */
  predicate StartOk(l: Start)
  {
    && NoneOf(l.first, CR, NUL) && NoneOf(l.second, CR, NUL) && NoneOf(l.third, CR, NUL)
    && CutAtSpaces(l)
    && |StartText(l)| <= START_LINE_MAX + 1
  }

  /** The space between the colon and the value, and behind the value. */
  datatype Gaps = Gaps(lead: Bytes, trail: Bytes)

  const ONE_SPACE := Gaps([SP], [])

  /** A header line as it may arrive, with any blanks around the value. */
  function GappedLine(h: Header, g: Gaps): Bytes { h.name + [':'] + (g.lead + h.value + g.trail + CRLF) }

  predicate NameOk(name: Bytes)
  {
    NoneOf(name, ':', NUL) && |name| < HEADER_NAME_MAX && !(CRLF <= name)
  }

  predicate NoBlank(c: byte) { c != ' ' && c != '\t' }

  predicate AllBlank(p: Bytes) { forall j :: 0 <= j < |p| ==> p[j] == ' ' || p[j] == '\t' }

  /** The value has no blank at its ends, and an empty one none behind it. */
  predicate GappedOk(h: Header, g: Gaps)
  {
    && NameOk(h.name) && AllBlank(g.lead) && AllBlank(g.trail)
    && NoneOf(h.value, CR, NUL) && |h.value| + |g.trail| < HEADER_VALUE_MAX
    && (h.value != [] ==> NoBlank(h.value[0]) && NoBlank(h.value[|h.value| - 1]))
    && (h.value == [] ==> g.trail == [])
  }

  predicate HeaderOk(h: Header) { GappedOk(h, ONE_SPACE) }

  predicate HeadersOk(hs: seq<Header>) { forall j :: 0 <= j < |hs| ==> HeaderOk(hs[j]) }

  /** What the start line and the headers say about the message. */
  function Started(isResp: bool, l: Start): Message
  {
    var m := Init(isResp).msg;
    if isResp then MatchStatusLine(m, l.first, l.second, l.third) else MatchRequestLine(m, l.first, l.second, l.third)
  }

  function WithHeaders(m: Message, hs: seq<Header>): Message
    decreases |hs|
  {
    if hs == [] then m else WithHeaders(MatchHeader(m, hs[0].name, hs[0].value), hs[1..])
  }

  /** The headers announce exactly this body: by Content-Length, or none at all. */
  predicate Announces(m: Message, body: Bytes)
  {
    && !m.chunked
    && |body| == (if m.transferLength == SIZE_MAX then m.contentLength else m.transferLength) < SIZE_MAX
  }

  // ---------- Parsing line by line ----------

  lemma FindsEnd(p: Bytes, a: byte, b: byte, lim: nat, rest: Bytes)
    requires NoneOf(p, a, b) && |p| < lim && rest != [] && (rest[0] == a || rest[0] == b)
    ensures FirstOf(p + rest, 0, lim, a, b) == |p|
  {
    FirstOfUnique(p + rest, 0, lim, a, b, |p|);
  }

  lemma SplitsAtSpaces(l: Start)
    requires CutAtSpaces(l)
    ensures SplitStartLine(LineText(l)) == Some((l.first, l.second, l.third))
  {
    var line := LineText(l);
    var i, j := |l.first|, |l.first| + 1 + |l.second|;
    FirstOfUnique(line, 0, |line|, SP, SP, i);
    FirstOfUnique(line, i + 1, |line|, SP, SP, j);
    assert line[..i] == l.first && line[i + 1..j] == l.second && line[j + 1..] == l.third;
  }

  lemma StartLineParses(s: State, l: Start, rest: Bytes)
    requires StartOk(l) && s.headerState.StartLine? && s.msg == Init(s.isResp).msg
    ensures HeaderStep(s, StartText(l) + rest) ==
            (Done, s.(headerOffset := s.headerOffset + |StartText(l)|, headerState := HeaderName,
                      msg := Started(s.isResp, l)))
  {
    hide MatchStatusLine, MatchRequestLine, SplitStartLine;
    var line := LineText(l);
    var p := StartText(l) + rest;
    assert p == line + (CRLF + rest);
    FindsEnd(line, CR, NUL, START_LINE_MAX, CRLF + rest);
    assert p[..|line|] == line;
    SplitsAtSpaces(l);
    assert !StartsWithCrLf(p) by { assert p[0] == line[0]; }
  }

  lemma NameParses(s: State, name: Bytes, rest: Bytes)
    requires NameOk(name) && s.headerState.HeaderName?
    ensures HeaderStep(s, name + [':'] + rest) ==
            (Done, s.(headerOffset := s.headerOffset + |name| + 1, headerState := HeaderValue, name := name))
  {
    var p := name + [':'] + rest;
    assert p == name + ([':'] + rest);
    FindsEnd(name, ':', NUL, HEADER_NAME_MAX, [':'] + rest);
    assert p[..|name|] == name;
    if |name| >= 2 {
      assert p[0] == name[0] && p[1] == name[1];
    } else {
      assert p[|name|] == ':';
    }
    assert !StartsWithCrLf(p);
  }

  lemma {:induction false} Trimmed(v: Bytes, b: Bytes)
    requires (v != [] ==> !IsBlank(v[|v| - 1])) && AllBlank(b)
    ensures TrimRight(v + b) == v
    decreases |b|
  {
    if b == [] {
      assert v + b == v;
    } else {
      var l := |b| - 1;
      assert (v + b)[..|v + b| - 1] == v + b[..l];
      Trimmed(v, b[..l]);
    }
  }

  lemma ValueParses(s: State, h: Header, g: Gaps, rest: Bytes)
    requires GappedOk(h, g) && s.headerState.HeaderValue? && s.name == h.name && rest != []
    ensures HeaderStep(s, g.lead + h.value + g.trail + CRLF + rest) ==
            (Done, s.(headerOffset := s.headerOffset + |g.lead| + |h.value| + |g.trail| + 2, headerState := HeaderName,
                      name := [], msg := MatchHeader(s.msg, h.name, h.value)))
  {
    hide *;
    var v := h.value + g.trail;
    GappedParts(h, g);
    var p, k, i := g.lead + h.value + g.trail + CRLF + rest, |g.lead|, |g.lead| + |v|;
    ValueShape(g.lead, h.value, g.trail, rest);
    Trimmed(h.value, g.trail);
    ValueEnds(g.lead, v, rest);
    ValueTurn(s, p, k, i);
  }

  lemma GappedParts(h: Header, g: Gaps)
    requires GappedOk(h, g)
    ensures AllBlank(g.lead) && AllBlank(g.trail) && (h.value != [] ==> !IsBlank(h.value[|h.value| - 1]))
    ensures var v := h.value + g.trail;
            NoneOf(v, CR, NUL) && |v| < HEADER_VALUE_MAX && (v != [] ==> !IsBlank(v[0]))
  {
    hide NameOk;
  }

  lemma ValueShape(a: Bytes, b: Bytes, c: Bytes, rest: Bytes)
    ensures var p := a + b + c + CRLF + rest;
            p == a + (b + c) + CRLF + rest && p[|a|..|a| + |b + c|] == b + c && |p| == |a| + |b + c| + 2 + |rest|
    ensures b == [] && c == [] ==> b + c == []
    ensures b != [] ==> (b + c)[0] == b[0]
  {
  }

  /** A value that ends at `i`, with the next byte there. */
  lemma ValueTurn(s: State, p: Bytes, k: nat, i: nat)
    requires s.headerState.HeaderValue? && k == SkipBlanks(p, 0) <= i < k + HEADER_VALUE_MAX && i + 2 < |p|
    requires FirstOf(p, k, k + HEADER_VALUE_MAX, CR, NUL) == i && p[i] == CR && p[i + 1] == LF
    ensures HeaderStep(s, p) ==
            (Done, s.(headerOffset := s.headerOffset + i + 2, headerState := HeaderName, name := [],
                      msg := MatchHeader(s.msg, s.name, TrimRight(p[k..i]))))
  {
    hide MatchHeader, TrimRight, SkipBlanks, FirstOf;
  }

  /** Where the value begins and ends. */
  lemma ValueEnds(lead: Bytes, v: Bytes, rest: Bytes)
    requires AllBlank(lead) && NoneOf(v, CR, NUL) && |v| < HEADER_VALUE_MAX && (v != [] ==> !IsBlank(v[0]))
    ensures var (p, k, i) := (lead + v + CRLF + rest, |lead|, |lead| + |v|);
            && SkipBlanks(p, 0) == k && FirstOf(p, k, k + HEADER_VALUE_MAX, CR, NUL) == i
            && p[i] == CR && p[i + 1] == LF
  {
    var p, k, i := lead + v + CRLF + rest, |lead|, |lead| + |v|;
    assert p[k] == if v == [] then CR else v[0];
    SkipBlanksUnique(p, 0, k);
    assert forall j :: k <= j < i ==> p[j] == v[j - k];
    FirstOfUnique(p, k, k + HEADER_VALUE_MAX, CR, NUL, i);
  }

  /** One header line is two turns of the loop. */
  lemma HeaderParses(s: State, buf: Bytes, h: Header, g: Gaps, rest: Bytes)
    requires s.headerOffset <= |buf| && s.headerState.HeaderName? && s.name == [] && GappedOk(h, g) && rest != []
    requires buf[s.headerOffset..] == GappedLine(h, g) + rest
    ensures var t := s.(headerOffset := s.headerOffset + |GappedLine(h, g)|,
                        msg := MatchHeader(s.msg, h.name, h.value));
            t.headerOffset <= |buf| && buf[t.headerOffset..] == rest && HeaderLoop(s, buf) == HeaderLoop(t, buf)
  {
    hide HeaderStep, MatchHeader, GappedOk, GappedLine;
    var more := g.lead + h.value + g.trail + CRLF + rest;
    GappedShape(h, g, rest);
    GappedName(h, g);
    NameParses(s, h.name, more);
    var u := s.(headerOffset := s.headerOffset + |h.name| + 1, headerState := HeaderValue, name := h.name);
    Behind(buf, s.headerOffset, h.name + [':'], more);
    ValueParses(u, h, g, rest);
    var t := s.(headerOffset := s.headerOffset + |GappedLine(h, g)|, msg := MatchHeader(s.msg, h.name, h.value));
    Behind(buf, s.headerOffset, GappedLine(h, g), rest);
    assert HeaderLoop(s, buf) == HeaderLoop(u, buf);
    assert HeaderLoop(u, buf) == HeaderLoop(t, buf);
  }

  lemma GappedShape(h: Header, g: Gaps, rest: Bytes)
    ensures GappedLine(h, g) + rest == h.name + [':'] + (g.lead + h.value + g.trail + CRLF + rest)
    ensures |GappedLine(h, g)| == |h.name| + 1 + |g.lead| + |h.value| + |g.trail| + 2
  {
    Shift(h.name + [':'], g.lead + h.value + g.trail + CRLF, rest);
  }

  lemma GappedName(h: Header, g: Gaps)
    requires GappedOk(h, g)
    ensures NameOk(h.name)
  {
  }

  /** The state after the header lines `hs`. */
  function After(s: State, hs: seq<Header>): State
  {
    s.(headerOffset := s.headerOffset + |HeaderLines(hs)|, msg := WithHeaders(s.msg, hs))
  }

  lemma OneSpace(hs: seq<Header>, h: Header)
    requires HeadersOk(hs) && hs != [] && h == hs[0]
    ensures HeaderLine(h) == GappedLine(h, ONE_SPACE) && GappedOk(h, ONE_SPACE)
  {
    assert h.name + [':', SP] + h.value + CRLF == h.name + [':'] + ([SP] + h.value + [] + CRLF);
  }

  lemma LastLineParses(s: State, buf: Bytes, rest: Bytes)
    requires s.headerOffset <= |buf| && s.headerState.HeaderName? && buf[s.headerOffset..] == CRLF + rest
    ensures HeaderLoop(s, buf) == (Done, s.(headerOffset := s.headerOffset + 2, headerState := HeaderComplete))
  {
    assert StartsWithCrLf(buf[s.headerOffset..]);
  }

  lemma {:induction false} HeadersParse(s: State, buf: Bytes, hs: seq<Header>, rest: Bytes)
    requires s.headerOffset <= |buf| && s.headerState.HeaderName? && s.name == [] && HeadersOk(hs)
    requires buf[s.headerOffset..] == HeaderLines(hs) + (CRLF + rest)
    ensures After(s, hs).headerOffset <= |buf| && buf[After(s, hs).headerOffset..] == CRLF + rest
    ensures HeaderLoop(s, buf) == HeaderLoop(After(s, hs), buf)
    decreases |hs|
  {
    hide MatchHeader, HeaderOk, HeaderLine, HeaderStep, HeaderLoop;
    if hs == [] {
      assert HeaderLines(hs) + (CRLF + rest) == CRLF + rest;
    } else {
      var h, more := hs[0], HeaderLines(hs[1..]) + (CRLF + rest);
      assert buf[s.headerOffset..] == HeaderLine(h) + more;
      OneSpace(hs, h);
      HeaderParses(s, buf, h, ONE_SPACE, more);
      var t := s.(headerOffset := s.headerOffset + |HeaderLine(h)|, msg := MatchHeader(s.msg, h.name, h.value));
      HeadersParse(t, buf, hs[1..], rest);
      assert After(t, hs[1..]) == After(s, hs);
    }
  }

  lemma HeadParses(isResp: bool, l: Start, hs: seq<Header>, rest: Bytes)
    requires StartOk(l) && HeadersOk(hs)
    ensures var s := Init(isResp);
            HeaderLoop(s, Head(l, hs) + rest) ==
            (Done, s.(headerOffset := |Head(l, hs)|, headerState := HeaderComplete,
                      msg := WithHeaders(Started(isResp, l), hs)))
  {
    hide HeaderStep, StartText, HeaderLines, HeadersOk, StartOk, WithHeaders, Started;
    var s, buf := Init(isResp), Head(l, hs) + rest;
    var more := HeaderLines(hs) + (CRLF + rest);
    assert buf == StartText(l) + more;
    assert buf[0..] == buf;
    StartLineParses(s, l, more);
    var t := s.(headerOffset := |StartText(l)|, headerState := HeaderName, msg := Started(isResp, l));
    assert HeaderLoop(s, buf) == HeaderLoop(t, buf);
    HeadersParse(t, buf, hs, rest);
    LastLineParses(After(t, hs), buf, rest);
  }

  /** Nothing but framing and the header list changes. */
  predicate SameStart(m: Message, n: Message)
  {
    && n.transferLength == m.transferLength && n.version == m.version && n.method_ == m.method_
    && n.uri == m.uri && n.code == m.code && n.phrase == m.phrase
  }

  lemma HeaderKept(m: Message, h: Header)
    ensures MatchHeader(m, h.name, h.value).headers == m.headers + [h]
    ensures SameStart(m, MatchHeader(m, h.name, h.value))
  {
    hide EqualsNoCase, AtoiSize;
  }

  /** The start line and the headers are kept as they are, in order. */
  lemma {:induction false} HeadersKept(m: Message, hs: seq<Header>)
    ensures WithHeaders(m, hs).headers == m.headers + hs && SameStart(m, WithHeaders(m, hs))
    decreases |hs|
  {
    hide MatchHeader;
    if hs != [] {
      HeaderKept(m, hs[0]);
      HeadersKept(MatchHeader(m, hs[0].name, hs[0].value), hs[1..]);
      assert m.headers + [hs[0]] + hs[1..] == m.headers + hs;
    }
  }

  /** The parser ends up with exactly this message. */
  predicate Parsed(p: Parser, isResp: bool, l: Start, hs: seq<Header>, body: Bytes)
  {
    var m := p.state.msg;
    && p.complete && p.state.headerState.HeaderComplete?
    && m.headers == hs
    && p.state.headerOffset <= |p.buf| && p.buf[p.state.headerOffset..] == body
    && if isResp then m.version == Some(l.first) && m.code == Some(l.second) && m.phrase == Some(l.third)
       else m.method_ == Some(l.first) && m.uri == Some(l.second) && m.version == Some(l.third)
  }

  lemma OutcomeIs(isResp: bool, l: Start, hs: seq<Header>, body: Bytes, rest: Bytes)
    requires StartOk(l) && HeadersOk(hs) && Announces(WithHeaders(Started(isResp, l), hs), body)
    requires |Wire(l, hs, body) + rest| < TWO_64
    ensures var m := WithHeaders(Started(isResp, l), hs);
            Outcome(Init(isResp), Wire(l, hs, body) + rest) ==
            (Done, Init(isResp).(headerOffset := |Head(l, hs)|, headerState := HeaderComplete,
                                 msg := m.(transferLength := |body|)), |Wire(l, hs, body)|)
  {
    hide HeaderLoop, Head, Started, WithHeaders, StartOk, HeadersOk;
    HeadParses(isResp, l, hs, body + rest);
    assert Wire(l, hs, body) + rest == Head(l, hs) + (body + rest);
  }

  lemma StartedIs(isResp: bool, l: Start)
    ensures var m := Started(isResp, l);
            && m.headers == []
            && if isResp then m.version == Some(l.first) && m.code == Some(l.second) && m.phrase == Some(l.third)
               else m.method_ == Some(l.first) && m.uri == Some(l.second) && m.version == Some(l.third)
  {
  }

  /** Encode then parse: one call on the encoded bytes, and whatever follows them,
      gives the message back and counts exactly its bytes. */
  lemma RoundTrip(isResp: bool, l: Start, hs: seq<Header>, body: Bytes, rest: Bytes)
    requires StartOk(l) && HeadersOk(hs) && Announces(WithHeaders(Started(isResp, l), hs), body)
    requires |Wire(l, hs, body) + rest| < TWO_64
    ensures var (r, p, n) := Append(Fresh(isResp), Wire(l, hs, body) + rest);
            r == Done && n == |Wire(l, hs, body)| && Parsed(p, isResp, l, hs, body)
  {
    hide Outcome, Head, Started, WithHeaders, StartOk, HeadersOk, Announces;
    StartedIs(isResp, l);
    HeadersKept(Started(isResp, l), hs);
    OutcomeIs(isResp, l, hs, body, rest);
    var wire := Wire(l, hs, body) + rest;
    assert [] + wire == wire;
    assert wire[..|Wire(l, hs, body)|] == Wire(l, hs, body);
    assert Wire(l, hs, body)[|Head(l, hs)|..] == body;
  }

  /** The same however the network cuts the bytes, and whatever follows the message. */
  lemma RoundTripInPieces(isResp: bool, l: Start, hs: seq<Header>, body: Bytes, rest: Bytes, pieces: seq<Bytes>)
    requires StartOk(l) && HeadersOk(hs) && Announces(WithHeaders(Started(isResp, l), hs), body)
    requires |Wire(l, hs, body) + rest| < TWO_64 && Concat(pieces) == Wire(l, hs, body) + rest
    ensures var (r, p, n) := Feed(Fresh(isResp), pieces);
            r == Done && SizeT(n) == |Wire(l, hs, body)| && Parsed(p, isResp, l, hs, body)
  {
    hide Append, Feed, Wire;
    RoundTrip(isResp, l, hs, body, rest);
    SplitInvariance(Fresh(isResp), pieces);
  }

  // ---------- A length that wraps around ----------

  const WRAPPING := "4294967294"

  /** One more digit. */
  lemma DecimalMore(p: Bytes, c: byte, q: Bytes)
    requires (forall j :: 0 <= j < |p| ==> IsDigit(p[j])) && IsDigit(c) && q == p + [c]
    ensures (forall j :: 0 <= j < |q| ==> IsDigit(q[j])) && Decimal(q) == 10 * Decimal(p) + DigitValue(c)
  {
    assert q[..|q| - 1] == p;
  }

  lemma WrappingDigits()
    ensures (forall j :: 0 <= j < |WRAPPING| ==> IsDigit(WRAPPING[j])) && Decimal(WRAPPING) == 4294967294
  {
    DecimalMore("", '4', "4");
    DecimalMore("4", '2', "42");
    DecimalMore("42", '9', "429");
    DecimalMore("429", '4', "4294");
    DecimalMore("4294", '9', "42949");
    DecimalMore("42949", '6', "429496");
    DecimalMore("429496", '7', "4294967");
    DecimalMore("4294967", '2', "42949672");
    DecimalMore("42949672", '9', "429496729");
    DecimalMore("429496729", '4', WRAPPING);
  }

  /** `atoi` makes it -2, and the conversion to `size_t` the largest number but one. */
  lemma WrappingLength()
    ensures AtoiSize(WRAPPING) == TWO_64 - 2
  {
    WrappingDigits();
    AllDigits(WRAPPING, 0);
    assert WRAPPING[..|WRAPPING|] == WRAPPING;
    hide Decimal;
  }

  const WRAPPING_START := Start("GET", "/", "HTTP/1.1")
  const WRAPPING_HEADER := Header("Content-Length", WRAPPING)

  lemma WrappingLines()
    ensures StartText(WRAPPING_START) == "GET / HTTP/1.1\r\n"
    ensures HeaderLine(WRAPPING_HEADER) == "Content-Length: 4294967294\r\n"
  {
  }

  lemma WrappingHead()
    ensures StartOk(WRAPPING_START) && HeadersOk([WRAPPING_HEADER])
    ensures |Head(WRAPPING_START, [WRAPPING_HEADER])| == 46
  {
    WrappingLines();
    hide StartText, HeaderLine;
    assert HeaderLines([WRAPPING_HEADER]) == HeaderLine(WRAPPING_HEADER) + HeaderLines([]);
    assert WRAPPING_HEADER.name[0] == 'C' && CRLF[0] == CR;
    assert HeaderOk(WRAPPING_HEADER);
  }

  lemma WrappingFraming()
    ensures var m := WithHeaders(Started(false, WRAPPING_START), [WRAPPING_HEADER]);
            !m.chunked && m.transferLength == SIZE_MAX && m.contentLength == TWO_64 - 2
  {
    WrappingLength();
    hide AtoiSize;
    var m := Started(false, WRAPPING_START);
    assert WithHeaders(m, [WRAPPING_HEADER]) == MatchHeader(m, WRAPPING_HEADER.name, WRAPPING_HEADER.value);
  }

  /** A request that is accepted as complete although the count of its bytes is not. */
  lemma ConsumptionCanWrap() returns (data: Bytes)
    ensures |data| < 100
    ensures Append(Fresh(false), data).0 == Done && !ExactlyConsumed(Fresh(false), data)
  {
    data := Head(WRAPPING_START, [WRAPPING_HEADER]);
    WrappingHead();
    WrappingFraming();
    hide HeaderLoop, Head, Started, WithHeaders, StartOk, HeadersOk;
    HeadParses(false, WRAPPING_START, [WRAPPING_HEADER], []);
    assert data + [] == data && [] + data == data;
    var m := WithHeaders(Started(false, WRAPPING_START), [WRAPPING_HEADER]);
    var t := Framed(Init(false).(headerOffset := |data|, headerState := HeaderComplete, msg := m));
    assert Total(t) == |data| - 2;
    assert Outcome(Init(false), data) == (Done, t, |data| - 2);
    ExactConsumption(Fresh(false), data);
  }
}
