/** The incremental HTTP/1.1 parser of `protocol/http_parser.c` as functions on its
    state and the buffered bytes.

    Each `...Step` is one `__parse_*` function on the bytes from the saved offset on;
    `HeaderLoop` and `ChunkLoop` are the two `do ... while` loops, and `Append` is
    `http_parser_append_message`.  The class in HttpParser is proved to compute them. */
module HttpSpec {
  import opened Collections
  import opened CString

  const START_LINE_MAX := 8192
  const HEADER_NAME_MAX := 64
  const HEADER_VALUE_MAX := 8192
  const CHUNK_LINE_MAX := 1024
  const TRAILER_LINE_MAX := 8192
  const CHUNK_SIZE_MAX := 0x8000_0000 - 1024 - 4

  datatype HeaderState = StartLine | HeaderName | HeaderValue | HeaderComplete

  datatype ChunkState = ChunkData | TrailerPart | ChunkComplete

  /** Return codes: 1, 0 and -2. */
  datatype Ret = Done | Again | Malformed

  datatype Header = Header(name: Bytes, value: Bytes)

  /** What is known of the message so far. */
  datatype Message = Message(
    contentLength: size_t,
    transferLength: size_t,
    version: Option<Bytes>,
    method_: Option<Bytes>,
    uri: Option<Bytes>,
    code: Option<Bytes>,
    phrase: Option<Bytes>,
    headers: seq<Header>,
    expectContinue: bool,
    keepAlive: bool,
    chunked: bool)

  /** The parser's state without the buffered bytes.  `name` is the header name that
      was read while its value is still awaited, and empty otherwise. */
  datatype State = State(
    headerState: HeaderState,
    chunkState: ChunkState,
    headerOffset: nat,
    chunkOffset: nat,
    name: Bytes,
    msg: Message,
    isResp: bool)

  function Init(isResp: bool): State
  {
    var length := if isResp then SIZE_MAX else 0;
    State(StartLine, ChunkData, 0, 0, [],
          Message(length, SIZE_MAX, None, None, None, None, None, [], false, true, false), isResp)
  }

  // ---------- Lines that were read ----------

  predicate OldVersion(version: Bytes)
  {
    version == "HTTP/1.0" || "HTTP/0" <= version
  }

  function MatchRequestLine(m: Message, method_: Bytes, uri: Bytes, version: Bytes): Message
  {
    m.(keepAlive := m.keepAlive && !OldVersion(version),
       method_ := Some(method_), uri := Some(uri), version := Some(version))
  }

  /** A status that leaves no room for a body. */
  predicate Bodyless(code: Bytes) { (code != [] && code[0] == '1') || code == "204" || code == "304" }

  function MatchStatusLine(m: Message, version: Bytes, code: Bytes, phrase: Bytes): Message
  {
    m.(keepAlive := m.keepAlive && !OldVersion(version),
       transferLength := if Bodyless(code) then 0 else m.transferLength,
       version := Some(version), code := Some(code), phrase := Some(phrase))
  }

  /** What a header line changes besides the header list. */
  function MatchFraming(m: Message, name: Bytes, value: Bytes): Message
  {
    if EqualsNoCase(name, "Expect") then
      if EqualsNoCase(value, "100-continue") then m.(expectContinue := true) else m
    else if EqualsNoCase(name, "Connection") then
      if EqualsNoCase(value, "Keep-Alive") then m.(keepAlive := true)
      else if EqualsNoCase(value, "close") then m.(keepAlive := false)
      else m
    else if EqualsNoCase(name, "Content-Length") then
      if value != [] && IsDigit(value[0]) then m.(contentLength := AtoiSize(value)) else m
    else if EqualsNoCase(name, "Transfer-Encoding") then
      if !EqualsNoCase(value, "identity") then m.(chunked := true) else m
    else m
  }

  function MatchHeader(m: Message, name: Bytes, value: Bytes): Message
  {
    var f := MatchFraming(m, name, value);
    f.(headers := f.headers + [Header(name, value)])
  }

  /** The start line's three parts are cut at the first two spaces. */
  function SplitStartLine(line: Bytes): Option<(Bytes, Bytes, Bytes)>
  {
    var i := FirstOf(line, 0, |line|, SP, SP);
    if i == |line| then None
    else
      var j := FirstOf(line, i + 1, |line|, SP, SP);
      if j == |line| then None else Some((line[..i], line[i + 1..j], line[j + 1..]))
  }

  function MatchStartLine(isResp: bool, m: Message, line: Bytes): Option<Message>
  {
    match SplitStartLine(line)
    case None => None
    case Some((a, b, c)) => Some(if isResp then MatchStatusLine(m, a, b, c) else MatchRequestLine(m, a, b, c))
  }

  // ---------- The steps ----------

  predicate StartsWithCrLf(p: Bytes) { |p| >= 2 && p[0] == CR && p[1] == LF }

  /** `__parse_start_line`; `p` is what is buffered from `header_offset` on. */
  function StartLineStep(s: State, p: Bytes): (Ret, State)
  {
    if StartsWithCrLf(p) then (Done, s.(headerOffset := s.headerOffset + 2))
    else
      var i := FirstOf(p, 0, START_LINE_MAX, CR, NUL);
      if i == START_LINE_MAX then (Malformed, s)
      else if i == |p| then (Again, s)
      else if p[i] == NUL then (Malformed, s)
      else if i == |p| - 1 then (Again, s)
      else if p[i + 1] != LF then (Malformed, s)
      else
        match MatchStartLine(s.isResp, s.msg, p[..i])
        case None => (Malformed, s)
        case Some(m) => (Done, s.(headerOffset := s.headerOffset + i + 2, headerState := HeaderName, msg := m))
  }

  /** `__parse_header_name` */
  function HeaderNameStep(s: State, p: Bytes): (Ret, State)
  {
    if StartsWithCrLf(p) then
      (Done, s.(headerOffset := s.headerOffset + 2, headerState := HeaderComplete))
    else
      var i := FirstOf(p, 0, HEADER_NAME_MAX, ':', NUL);
      if i == HEADER_NAME_MAX then (Malformed, s)
      else if i == |p| then (Again, s)
      else if p[i] == NUL then (Malformed, s)
      else (Done, s.(headerOffset := s.headerOffset + i + 1, headerState := HeaderValue, name := p[..i]))
  }

  /** `__parse_header_value`; the byte after the line end must have arrived too. */
  function HeaderValueStep(s: State, p: Bytes): (Ret, State)
  {
    var k := SkipBlanks(p, 0);
    var i := FirstOf(p, k, k + HEADER_VALUE_MAX, CR, NUL);
    if i == |p| then (Again, s)
    else if i == k + HEADER_VALUE_MAX then (Malformed, s)
    else if i == |p| - 1 then (Again, s)
    else if p[i] == NUL then (Malformed, s)
    else if p[i + 1] != LF then (Malformed, s)
    else if i + 2 == |p| then (Again, s)
    else
      var m := MatchHeader(s.msg, s.name, TrimRight(p[k..i]));
      (Done, s.(headerOffset := s.headerOffset + i + 2, headerState := HeaderName, name := [], msg := m))
  }

  function HeaderStep(s: State, p: Bytes): (Ret, State)
  {
    match s.headerState
    case StartLine => StartLineStep(s, p)
    case HeaderValue => HeaderValueStep(s, p)
    case _ => HeaderNameStep(s, p)
  }

  /** `__parse_chunk_data` */
  function ChunkDataStep(s: State, p: Bytes): (Ret, State)
  {
    var i := FirstOf(p, 0, CHUNK_LINE_MAX, CR, CR);
    if i == CHUNK_LINE_MAX then (Malformed, s)
    else if i >= |p| - 1 then (Again, s)
    else if p[i + 1] != LF then (Malformed, s)
    else
      var (size, end) := StrtolHex(p[..i]);
      if end == 0 then (Malformed, s)
      else if size == 0 then (Done, s.(chunkOffset := s.chunkOffset + i + 2, chunkState := TrailerPart))
      else if SizeT(size) >= CHUNK_SIZE_MAX then (Malformed, s)
      else if |p| < SizeT(size) + i + 4 then (Again, s)
      else (Done, s.(chunkOffset := s.chunkOffset + SizeT(size) + i + 4))
  }

  /** `__parse_trailer_part` */
  function TrailerStep(s: State, p: Bytes): (Ret, State)
  {
    var i := FirstOf(p, 0, TRAILER_LINE_MAX, CR, CR);
    if i == TRAILER_LINE_MAX then (Malformed, s)
    else if i >= |p| - 1 then (Again, s)
    else if p[i + 1] != LF then (Malformed, s)
    else (Done, s.(chunkOffset := s.chunkOffset + i + 2, chunkState := if i == 0 then ChunkComplete else s.chunkState))
  }

  function ChunkStep(s: State, p: Bytes): (Ret, State)
  {
    if s.chunkState.ChunkData? then ChunkDataStep(s, p) else TrailerStep(s, p)
  }

  // ---------- Each step alone ----------

  /** A step that asks for more leaves the state alone; one that succeeds moves on
      within the buffer. */
  lemma HeaderStepAdvances(s: State, p: Bytes)
    ensures var (r, t) := HeaderStep(s, p);
            && (r != Done ==> t == s)
            && (r == Done ==> s.headerOffset < t.headerOffset <= s.headerOffset + |p|)
            && t.chunkState == s.chunkState && t.chunkOffset == s.chunkOffset && t.isResp == s.isResp
            && (t.headerState.HeaderComplete? ==> s.headerState.HeaderName? || s.headerState.HeaderComplete?)
  {
  }

  lemma ChunkStepAdvances(s: State, p: Bytes)
    ensures var (r, t) := ChunkStep(s, p);
            && (r != Done ==> t == s)
            && (r == Done ==> s.chunkOffset < t.chunkOffset <= s.chunkOffset + |p|)
            && t == s.(chunkOffset := t.chunkOffset, chunkState := t.chunkState)
            && (t.chunkState.ChunkComplete? ==> !s.chunkState.ChunkData?)
  {
  }

  lemma StartLineStable(s: State, p: Bytes, q: Bytes)
    requires StartLineStep(s, p).0 != Again
    ensures StartLineStep(s, p + q) == StartLineStep(s, p)
  {
    if !StartsWithCrLf(p) {
      FirstOfExtended(p, q, 0, START_LINE_MAX, CR, NUL);
      var i := FirstOf(p, 0, START_LINE_MAX, CR, NUL);
      assert (p + q)[..i] == p[..i];
    }
  }

  lemma HeaderNameStable(s: State, p: Bytes, q: Bytes)
    requires HeaderNameStep(s, p).0 != Again
    ensures HeaderNameStep(s, p + q) == HeaderNameStep(s, p)
  {
    if !StartsWithCrLf(p) {
      FirstOfExtended(p, q, 0, HEADER_NAME_MAX, ':', NUL);
      var i := FirstOf(p, 0, HEADER_NAME_MAX, ':', NUL);
      assert (p + q)[..i] == p[..i];
    }
  }

  lemma ValueScanStable(p: Bytes, q: Bytes)
    ensures var k := SkipBlanks(p, 0);
            var i := FirstOf(p, k, k + HEADER_VALUE_MAX, CR, NUL);
            i < |p| ==> SkipBlanks(p + q, 0) == k && FirstOf(p + q, k, k + HEADER_VALUE_MAX, CR, NUL) == i
  {
    SkipBlanksExtended(p, q, 0);
    var k := SkipBlanks(p, 0);
    FirstOfExtended(p, q, k, k + HEADER_VALUE_MAX, CR, NUL);
  }

  lemma HeaderValueStable(s: State, p: Bytes, q: Bytes)
    requires HeaderValueStep(s, p).0 != Again
    ensures HeaderValueStep(s, p + q) == HeaderValueStep(s, p)
  {
    hide MatchHeader, TrimRight, SkipBlanks, FirstOf;
    ValueScanStable(p, q);
    var k := SkipBlanks(p, 0);
    var i := FirstOf(p, k, k + HEADER_VALUE_MAX, CR, NUL);
    assert (p + q)[k..i] == p[k..i];
  }

  /** The verdict on a buffer stands when more bytes follow. */
  lemma HeaderStepStable(s: State, p: Bytes, q: Bytes)
    requires HeaderStep(s, p).0 != Again
    ensures HeaderStep(s, p + q) == HeaderStep(s, p)
  {
    match s.headerState
    case StartLine => StartLineStable(s, p, q);
    case HeaderValue => HeaderValueStable(s, p, q);
    case _ => HeaderNameStable(s, p, q);
  }

  lemma ChunkDataStable(s: State, p: Bytes, q: Bytes)
    requires ChunkDataStep(s, p).0 != Again
    ensures ChunkDataStep(s, p + q) == ChunkDataStep(s, p)
  {
    hide StrtolHex;
    FirstOfExtended(p, q, 0, CHUNK_LINE_MAX, CR, CR);
    var i := FirstOf(p, 0, CHUNK_LINE_MAX, CR, CR);
    assert (p + q)[..i] == p[..i];
  }

  lemma ChunkStepStable(s: State, p: Bytes, q: Bytes)
    requires ChunkStep(s, p).0 != Again
    ensures ChunkStep(s, p + q) == ChunkStep(s, p)
  {
    if s.chunkState.ChunkData? {
      ChunkDataStable(s, p, q);
    } else {
      FirstOfExtended(p, q, 0, TRAILER_LINE_MAX, CR, CR);
    }
  }

  lemma StartLineReaches(s: State, p: Bytes, q: Bytes)
    requires StartLineStep(s, p).0 == Again && StartLineStep(s, p + q).0 == Done
    ensures StartLineStep(s, p + q).1.headerOffset > s.headerOffset + |p|
  {
    hide MatchStartLine;
    FirstOfExtended(p, q, 0, START_LINE_MAX, CR, NUL);
  }

  lemma HeaderNameReaches(s: State, p: Bytes, q: Bytes)
    requires HeaderNameStep(s, p).0 == Again && HeaderNameStep(s, p + q).0 == Done
    ensures HeaderNameStep(s, p + q).1.headerOffset > s.headerOffset + |p|
  {
    FirstOfExtended(p, q, 0, HEADER_NAME_MAX, ':', NUL);
  }

  lemma HeaderValueReaches(s: State, p: Bytes, q: Bytes)
    requires HeaderValueStep(s, p).0 == Again && HeaderValueStep(s, p + q).0 == Done
    ensures HeaderValueStep(s, p + q).1.headerOffset >= s.headerOffset + |p|
  {
    hide MatchHeader, TrimRight;
    SkipBlanksExtended(p, q, 0);
    var k := SkipBlanks(p, 0);
    FirstOfExtended(p, q, k, k + HEADER_VALUE_MAX, CR, NUL);
  }

  /** A step that could not finish before finishes at or beyond what was there. */
  lemma HeaderStepReaches(s: State, p: Bytes, q: Bytes)
    requires HeaderStep(s, p).0 == Again && HeaderStep(s, p + q).0 == Done
    ensures var t := HeaderStep(s, p + q).1;
            && t.headerOffset >= s.headerOffset + |p|
            && (!s.headerState.HeaderValue? ==> t.headerOffset > s.headerOffset + |p|)
  {
    hide StartLineStep, HeaderNameStep, HeaderValueStep;
    match s.headerState
    case StartLine => StartLineReaches(s, p, q);
    case HeaderValue => HeaderValueReaches(s, p, q);
    case _ => HeaderNameReaches(s, p, q);
  }

  lemma ChunkStepReaches(s: State, p: Bytes, q: Bytes)
    requires ChunkStep(s, p).0 == Again && ChunkStep(s, p + q).0 == Done
    ensures ChunkStep(s, p + q).1.chunkOffset > s.chunkOffset + |p|
  {
    hide StrtolHex;
    if s.chunkState.ChunkData? {
      FirstOfExtended(p, q, 0, CHUNK_LINE_MAX, CR, CR);
      var i := FirstOf(p, 0, CHUNK_LINE_MAX, CR, CR);
      assert (p + q)[..i] == p[..i];
    } else {
      FirstOfExtended(p, q, 0, TRAILER_LINE_MAX, CR, CR);
    }
  }

  // ---------- The loops ----------

  /** `__parse_message_header` */
  function HeaderLoop(s: State, buf: Bytes): (r: (Ret, State))
    requires s.headerOffset <= |buf| && !s.headerState.HeaderComplete?
    ensures r.1.headerOffset <= |buf|
    ensures r.0 == Done <==> r.1.headerState.HeaderComplete?
    decreases |buf| - s.headerOffset
  {
    var p := buf[s.headerOffset..];
    var (r, t) := HeaderStep(s, p);
    HeaderStepAdvances(s, p);
    if t.headerState.HeaderComplete? || r != Done then (r, t) else HeaderLoop(t, buf)
  }

  /** `__parse_chunk` */
  function ChunkLoop(s: State, buf: Bytes): (r: (Ret, State))
    requires s.chunkOffset <= |buf| && !s.chunkState.ChunkComplete?
    ensures r.1.chunkOffset <= |buf|
    ensures r.0 == Done <==> r.1.chunkState.ChunkComplete?
    ensures r.1 == s.(chunkOffset := r.1.chunkOffset, chunkState := r.1.chunkState)
    decreases |buf| - s.chunkOffset
  {
    var p := buf[s.chunkOffset..];
    var (r, t) := ChunkStep(s, p);
    ChunkStepAdvances(s, p);
    if t.chunkState.ChunkComplete? || r != Done then (r, t) else ChunkLoop(t, buf)
  }

  /** Loops resume: what is buffered later is read as if it had been there at once. */
  lemma {:induction false} HeaderLoopResumes(s: State, a: Bytes, b: Bytes)
    requires s.headerOffset <= |a| && !s.headerState.HeaderComplete?
    ensures var (r, t) := HeaderLoop(s, a);
            if r == Again then
              HeaderLoop(t, a) == (Again, t) && HeaderLoop(s, a + b) == HeaderLoop(t, a + b)
            else
              HeaderLoop(s, a + b) == (r, t)
    decreases |a| - s.headerOffset
  {
    hide HeaderStep;
    var p := a[s.headerOffset..];
    var (r, t) := HeaderStep(s, p);
    HeaderStepAdvances(s, p);
    if r != Again {
      assert (a + b)[s.headerOffset..] == p + b;
      HeaderStepStable(s, p, b);
      if r == Done && !t.headerState.HeaderComplete? {
        HeaderLoopResumes(t, a, b);
      }
    }
  }

  lemma {:induction false} ChunkLoopResumes(s: State, a: Bytes, b: Bytes)
    requires s.chunkOffset <= |a| && !s.chunkState.ChunkComplete?
    ensures var (r, t) := ChunkLoop(s, a);
            if r == Again then
              ChunkLoop(t, a) == (Again, t) && ChunkLoop(s, a + b) == ChunkLoop(t, a + b)
            else
              ChunkLoop(s, a + b) == (r, t)
    decreases |a| - s.chunkOffset
  {
    hide ChunkStep;
    var p := a[s.chunkOffset..];
    var (r, t) := ChunkStep(s, p);
    ChunkStepAdvances(s, p);
    if r != Again {
      assert (a + b)[s.chunkOffset..] == p + b;
      ChunkStepStable(s, p, b);
      if r == Done && !t.chunkState.ChunkComplete? {
        ChunkLoopResumes(t, a, b);
      }
    }
  }

  lemma {:induction false} HeaderLoopAdvances(s: State, buf: Bytes)
    requires s.headerOffset <= |buf| && !s.headerState.HeaderComplete?
    ensures HeaderLoop(s, buf).1.headerOffset >= s.headerOffset
    ensures HeaderLoop(s, buf).0 == Done ==> HeaderLoop(s, buf).1.headerOffset > s.headerOffset
    decreases |buf| - s.headerOffset
  {
    hide HeaderStep;
    var p := buf[s.headerOffset..];
    var (r, t) := HeaderStep(s, p);
    HeaderStepAdvances(s, p);
    if r == Done && !t.headerState.HeaderComplete? {
      HeaderLoopAdvances(t, buf);
    }
  }

  lemma {:induction false} ChunkLoopAdvances(s: State, buf: Bytes)
    requires s.chunkOffset <= |buf| && !s.chunkState.ChunkComplete?
    ensures ChunkLoop(s, buf).1.chunkOffset >= s.chunkOffset
    ensures ChunkLoop(s, buf).0 == Done ==> ChunkLoop(s, buf).1.chunkOffset > s.chunkOffset
    decreases |buf| - s.chunkOffset
  {
    hide ChunkStep;
    var p := buf[s.chunkOffset..];
    var (r, t) := ChunkStep(s, p);
    ChunkStepAdvances(s, p);
    if r == Done && !t.chunkState.ChunkComplete? {
      ChunkLoopAdvances(t, buf);
    }
  }

  /** A header that could not be finished ends among the new bytes. */
  lemma HeaderLoopReaches(s: State, a: Bytes, b: Bytes)
    requires s.headerOffset <= |a| && !s.headerState.HeaderComplete?
    requires HeaderLoop(s, a) == (Again, s) && HeaderLoop(s, a + b).0 == Done
    ensures HeaderLoop(s, a + b).1.headerOffset > |a|
  {
    hide HeaderStep;
    var p := a[s.headerOffset..];
    assert (a + b)[s.headerOffset..] == p + b;
    HeaderStepAdvances(s, p);
    HeaderStepAdvances(s, p + b);
    if HeaderStep(s, p).0 == Done {
      HeaderLoopAdvances(HeaderStep(s, p).1, a);
    } else {
      HeaderStepReaches(s, p, b);
      var t := HeaderStep(s, p + b).1;
      if !t.headerState.HeaderComplete? {
        HeaderLoopAdvances(t, a + b);
      }
    }
  }

  lemma ChunkLoopReaches(s: State, a: Bytes, b: Bytes)
    requires s.chunkOffset <= |a| && !s.chunkState.ChunkComplete?
    requires ChunkLoop(s, a) == (Again, s) && ChunkLoop(s, a + b).0 == Done
    ensures ChunkLoop(s, a + b).1.chunkOffset > |a|
  {
    hide ChunkStep;
    var p := a[s.chunkOffset..];
    assert (a + b)[s.chunkOffset..] == p + b;
    ChunkStepAdvances(s, p);
    ChunkStepAdvances(s, p + b);
    if ChunkStep(s, p).0 == Done {
      ChunkLoopAdvances(ChunkStep(s, p).1, a);
    } else {
      ChunkStepReaches(s, p, b);
      var t := ChunkStep(s, p + b).1;
      if !t.chunkState.ChunkComplete? {
        ChunkLoopAdvances(t, a + b);
      }
    }
  }
}
