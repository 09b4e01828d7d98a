/** `HttpChunkCursor` and `HttpUtil::decode_chunked_body` walk over a body that the
    parser accepted: they find the parser's own chunk boundaries. */
module HttpChunks {
  import opened Collections
  import opened CString
  import opened HttpSpec
  import opened HttpAppend
  import opened HttpEncode

  // ---------- The parser's chunks ----------

  /** The state in which the parser begins to read the chunks of this message. */
  function BodyStart(s: State): State { s.(chunkOffset := s.headerOffset, chunkState := ChunkData) }

  /** The buffered bytes are a header and a chunked body up to the end of its trailer. */
  predicate ChunkedBody(p: Parser)
  {
    && p.complete && p.state.headerState.HeaderComplete? && p.state.headerOffset <= |p.buf|
    && p.state.msg.chunked && ChunkLoop(BodyStart(p.state), p.buf) == (Done, p.state)
    && p.state.chunkOffset == |p.buf|
  }

  /** Reading needs no byte beyond the end it finds. */
  lemma {:induction false} ChunkLoopWithin(s: State, buf: Bytes, e: nat)
    requires s.chunkOffset <= e <= |buf| && !s.chunkState.ChunkComplete?
    requires ChunkLoop(s, buf).0 == Done && ChunkLoop(s, buf).1.chunkOffset <= e
    ensures ChunkLoop(s, buf[..e]) == ChunkLoop(s, buf)
    decreases |buf| - s.chunkOffset
  {
    hide ChunkStep;
    var p, q := buf[s.chunkOffset..e], buf[e..];
    assert buf[s.chunkOffset..] == p + q && buf[..e][s.chunkOffset..] == p;
    ChunkStepAdvances(s, p + q);
    var (r, t) := ChunkStep(s, p + q);
    if !t.chunkState.ChunkComplete? {
      ChunkLoopAdvances(t, buf);
    }
    if ChunkStep(s, p).0 == Again {
      ChunkStepReaches(s, p, q);
    } else {
      ChunkStepStable(s, p, q);
    }
    if !t.chunkState.ChunkComplete? {
      ChunkLoopWithin(t, buf, e);
    }
  }

  // ---------- Chunked messages that were accepted ----------

  /** A response whose status leaves no room for a body. */
  predicate NoBody(s: State) { s.isResp && s.msg.code.Some? && Bodyless(s.msg.code.value) }

  /** Until the end of the header only the status decides the length. */
  predicate LengthByStatus(s: State)
  {
    && s.msg.transferLength == (if NoBody(s) then 0 else SIZE_MAX)
    && (s.headerState.StartLine? ==> s.msg.code == None)
  }

  lemma StepKeepsLength(s: State, p: Bytes)
    requires LengthByStatus(s)
    ensures LengthByStatus(HeaderStep(s, p).1)
  {
    forall name: Bytes, value: Bytes ensures SameStart(s.msg, MatchHeader(s.msg, name, value)) {
      HeaderKept(s.msg, Header(name, value));
    }
    hide MatchHeader, FirstOf, TrimRight, SkipBlanks, SplitStartLine, Bodyless, OldVersion;
  }

  lemma {:induction false} LoopKeepsLength(s: State, buf: Bytes)
    requires s.headerOffset <= |buf| && !s.headerState.HeaderComplete? && LengthByStatus(s)
    ensures LengthByStatus(HeaderLoop(s, buf).1)
    decreases |buf| - s.headerOffset
  {
    hide HeaderStep, LengthByStatus;
    var p := buf[s.headerOffset..];
    HeaderStepAdvances(s, p);
    StepKeepsLength(s, p);
    var (r, t) := HeaderStep(s, p);
    if r == Done && !t.headerState.HeaderComplete? { LoopKeepsLength(t, buf); }
  }

  /** Every chunked message that was accepted, however it was cut: with a bodyless status it
      ends with its header; otherwise it has a chunked body. */
  lemma AcceptedBody(isResp: bool, pieces: seq<Bytes>)
    requires var (r, p, _) := Feed(Fresh(isResp), pieces);
             r == Done && p.state.msg.chunked
    ensures var p := Feed(Fresh(isResp), pieces).1;
            if NoBody(p.state) then |Concat(pieces)| < TWO_64 ==> |p.buf| == p.state.headerOffset
            else ChunkedBody(p)
  {
    hide Feed, Append, NoBody, ChunkedBody, KnownLength;
    SplitInvariance(Fresh(isResp), pieces);
    var data := Concat(pieces);
    assert Feed(Fresh(isResp), pieces).1 == Append(Fresh(isResp), data).1;
    LengthKnown(isResp, data);
    if !NoBody(Append(Fresh(isResp), data).1.state) { WholeBody(isResp, data); }
  }

  lemma LengthKnown(isResp: bool, data: Bytes)
    requires var (r, p, _) := Append(Fresh(isResp), data);
             r == Done && p.state.msg.chunked
    ensures var p := Append(Fresh(isResp), data).1;
            && (KnownLength(p.state) <==> NoBody(p.state))
            && (KnownLength(p.state) && |data| < TWO_64 ==> |p.buf| == p.state.headerOffset)
  {
    hide HeaderLoop, ChunkLoop;
    var s := Init(isResp);
    assert [] + data == data;
    OutcomeOffsets(s, data);
    ReadHeaderOffsets(s, data);
    LoopKeepsLength(s, data);
  }

  /** In an empty body the cursor finds no chunk. */
  lemma EmptyBodyEnds()
    ensures Walk([], 0) == Some([])
  {
    assert CursorNext([], 0) == End;
  }

  lemma WholeBody(isResp: bool, data: Bytes)
    requires var (r, p, _) := Append(Fresh(isResp), data);
             r == Done && p.state.msg.chunked && !KnownLength(p.state)
    ensures ChunkedBody(Append(Fresh(isResp), data).1)
  {
    hide HeaderLoop, ChunkLoop;
    var s := Init(isResp);
    assert [] + data == data;
    OutcomeOffsets(s, data);
    ReadHeaderOffsets(s, data);
    var (_, t) := ReadHeader(s, data);
    var (_, u, e) := ReadBody(t, data);
    assert BodyStart(u) == t;
    ChunkLoopWithin(t, data, e);
    ChunkLoopAdvances(t, data);
  }

  /** The chunk at the head of `p`: where its size line ends, and its size. */
  function LineEnd(p: Bytes): nat { FirstOf(p, 0, CHUNK_LINE_MAX, CR, CR) }

  function LineSize(p: Bytes): nat { SizeT(StrtolHex(p[..LineEnd(p)]).0) }

  /** A chunk: where its size line starts in the body, and its data. */
  datatype Chunk = Chunk(at: nat, data: Bytes)

  /** The chunks that the parser steps over from state `s` on; the body starts at `h`. */
  function ParsedChunks(s: State, buf: Bytes, h: nat): seq<Chunk>
    requires h <= s.chunkOffset <= |buf| && !s.chunkState.ChunkComplete?
    requires ChunkLoop(s, buf).0 == Done
    decreases |buf| - s.chunkOffset
  {
    var p := buf[s.chunkOffset..];
    ChunkStepAdvances(s, p);
    if s.chunkState.TrailerPart? || LineSize(p) == 0 then []
    else
      ChunkStepData(s, p);
      var data := p[LineEnd(p) + 2..LineEnd(p) + 2 + LineSize(p)];
      [Chunk(s.chunkOffset - h, data)] + ParsedChunks(ChunkStep(s, p).1, buf, h)
  }

  lemma ChunkStepData(s: State, p: Bytes)
    requires s.chunkState.ChunkData? && ChunkStep(s, p).0 == Done
    ensures var (i, n) := (LineEnd(p), LineSize(p));
            && i < CHUNK_LINE_MAX && i + 1 < |p| && p[i] == CR && StrtolHex(p[..i]).1 > 0
            && (n != 0 ==> && i + n + 4 <= |p|
                           && ChunkStep(s, p).1 == s.(chunkOffset := s.chunkOffset + i + n + 4))
            && (n == 0 ==> ChunkStep(s, p).1.chunkState.TrailerPart?)
  {
    hide StrtolHex;
    StrtolRange(p[..LineEnd(p)]);
  }

  lemma StrtolRange(p: Bytes)
    ensures SizeT(StrtolHex(p).0) == 0 <==> StrtolHex(p).0 == 0
  {
    hide HexStart, HexEnd, Hex, HexNegative;
  }

  /** The size lines of the parser's chunks contain no NUL. */
  predicate NoNulInLines(s: State, buf: Bytes)
    requires s.chunkOffset <= |buf| && !s.chunkState.ChunkComplete?
    requires ChunkLoop(s, buf).0 == Done
    decreases |buf| - s.chunkOffset
  {
    var p := buf[s.chunkOffset..];
    ChunkStepAdvances(s, p);
    s.chunkState.TrailerPart? || LineSize(p) == 0 ||
    (ChunkStepData(s, p);
     && (forall j :: 0 <= j < LineEnd(p) ==> p[j] != NUL)
     && NoNulInLines(ChunkStep(s, p).1, buf))
  }

  // ---------- The cursor ----------

  /** `Fault`: `strchr` found no carriage return, or the chunk leaves the body. */
  datatype Next = More(chunk: Bytes, pos: nat) | End | Fault

  /** `HttpChunkCursor::next` on a chunked body, which a NUL byte follows. */
  function CursorNext(body: Bytes, pos: nat): (r: Next)
    requires pos <= |body|
    ensures r.More? ==> pos < r.pos <= |body|
  {
    var t := body[pos..];
    var (value, end) := StrtolHex(t);
    var size := SizeT(value);
    if size == 0 then End
    else
      var k := FirstOf(t, end, |t|, CR, NUL);
      if k == |t| || t[k] == NUL || k + size + 4 > |t| then Fault
      else More(t[k + 2..k + 2 + size], pos + k + size + 4)
  }

  /** All chunks from `pos` on, or none if the walk faults. */
  function Walk(body: Bytes, pos: nat): Option<seq<Chunk>>
    requires pos <= |body|
    decreases |body| - pos
  {
    match CursorNext(body, pos)
    case End => Some([])
    case Fault => None
    case More(chunk, next) =>
      match Walk(body, next)
      case None => None
      case Some(rest) => Some([Chunk(pos, chunk)] + rest)
  }

  /** The size is the same, read with or without what follows the line. */
  lemma SameNumber(s: State, p: Bytes)
    requires s.chunkState.ChunkData? && ChunkStep(s, p).0 == Done
    ensures StrtolHex(p) == StrtolHex(p[..LineEnd(p)])
  {
    hide StrtolHex;
    ChunkStepData(s, p);
    var i := LineEnd(p);
    StrtolHexExtended(p[..i], p[i..]);
    assert p[..i] + p[i..] == p;
  }

  /** At a size line of the parser, the cursor stops where the parser stops, unless a
      NUL in the line hides the carriage return. */
  lemma CursorAgrees(s: State, p: Bytes)
    requires s.chunkState.ChunkData? && ChunkStep(s, p).0 == Done
    ensures var (i, n) := (LineEnd(p), LineSize(p));
            CursorNext(p, 0) ==
            if n == 0 then End
            else if exists j :: StrtolHex(p).1 <= j < i && p[j] == NUL then Fault
            else More(p[i + 2..i + 2 + n], i + n + 4)
  {
    hide StrtolHex;
    ChunkStepData(s, p);
    SameNumber(s, p);
    var i, e := LineEnd(p), StrtolHex(p).1;
    assert p[0..] == p;
    if j :| e <= j < i && p[j] == NUL {
      var k := FirstOf(p, e, |p|, CR, NUL);
    } else {
      FirstOfUnique(p, e, |p|, CR, NUL, i);
    }
  }

  lemma CursorShift(body: Bytes, pos: nat)
    requires pos <= |body|
    ensures CursorNext(body, pos) ==
            match CursorNext(body[pos..], 0)
            case More(c, n) => More(c, pos + n)
            case r => r
  {
    hide StrtolHex;
    assert body[pos..][0..] == body[pos..];
  }

  /** A number that was read contains no NUL. */
  lemma NumberHasNoNul(p: Bytes)
    ensures forall j :: 0 <= j < StrtolHex(p).1 ==> p[j] != NUL
  {
    SpacesHaveNoNul(p, 0);
  }

  lemma {:induction false} SpacesHaveNoNul(p: Bytes, i: nat)
    requires i <= |p|
    ensures forall j :: i <= j < SkipSpaces(p, i) ==> p[j] != NUL
    decreases |p| - i
  {
    if i < |p| && IsSpace(p[i]) { SpacesHaveNoNul(p, i + 1); }
  }

  /** The cursor visits exactly the parser's chunks, within the body, if and only if no
      size line contains a NUL. */
  lemma {:induction false} CursorFollowsParser(s: State, buf: Bytes, h: nat)
    requires h <= s.chunkOffset <= |buf| && !s.chunkState.ChunkComplete? && s.chunkState.ChunkData?
    requires ChunkLoop(s, buf).0 == Done
    ensures Walk(buf[h..], s.chunkOffset - h) ==
            if NoNulInLines(s, buf) then Some(ParsedChunks(s, buf, h)) else None
    decreases |buf| - s.chunkOffset
  {
    hide StrtolHex, CursorNext, ChunkStep;
    var body, pos, p := buf[h..], s.chunkOffset - h, buf[s.chunkOffset..];
    assert body[pos..] == p;
    ChunkStepAdvances(s, p);
    CursorShift(body, pos);
    CursorAgrees(s, p);
    ChunkStepData(s, p);
    NumberHasNoNul(p);
    if LineSize(p) != 0 {
      SameNumber(s, p);
      var (i, e) := (LineEnd(p), StrtolHex(p).1);
      var clean := forall j :: 0 <= j < i ==> p[j] != NUL;
      assert clean <==> !exists j :: e <= j < i && p[j] == NUL;
      CursorFollowsParser(ChunkStep(s, p).1, buf, h);
    }
  }

  function Data(cs: seq<Chunk>): Bytes
  {
    if cs == [] then [] else cs[0].data + Data(cs[1..])
  }

  class HttpChunkCursor {
    const body: Bytes
    const chunked: bool
    var pos: nat
    var end: bool

    ghost predicate Valid()
      reads this
    {
      pos <= |body|
    }

    /** What is still to come. */
    ghost function Rest(): Option<seq<Chunk>>
      requires Valid()
      reads this
    {
      if end then Some([]) else if chunked then Walk(body, pos) else Some([Chunk(0, body)])
    }

    constructor (body: Bytes, chunked: bool)
      ensures Valid() && this.body == body && this.chunked == chunked
      ensures Rest() == if chunked then Walk(body, 0) else Some([Chunk(0, body)])
    {
      this.body, this.chunked, pos, end := body, chunked, 0, false;
    }

    method Next() returns (chunk: Option<Bytes>)
      requires Valid() && Rest().Some?
      modifies this
      ensures Valid() && Rest().Some?
      ensures if old(Rest().value) == [] then chunk == None && end
              else chunk == Some(old(Rest().value)[0].data) && Rest().value == old(Rest().value)[1..]
    {
      hide StrtolHex;
      if end {
        return None;
      }
      if !chunked {
        end := true;
        return Some(body);
      }
      var cur := body[pos..];
      var (value, stop) := StrtolHex(cur);
      var size := SizeT(value);
      if size == 0 {
        end := true;
        return None;
      }
      var k := FirstOf(cur, stop, |cur|, CR, NUL);
      chunk := Some(cur[k + 2..k + 2 + size]);
      pos := pos + k + size + 4;
    }
  }

  /** `HttpUtil::decode_chunked_body` */
  method DecodeChunkedBody(body: Bytes, chunked: bool) returns (result: Bytes)
    requires chunked ==> Walk(body, 0).Some?
    ensures result == if chunked then Data(Walk(body, 0).value) else body
  {
    hide Walk;
    var cursor := new HttpChunkCursor(body, chunked);
    ghost var goal := Data(cursor.Rest().value);
    result := [];
    var chunk := cursor.Next();
    while chunk.Some?
      invariant cursor.Valid() && cursor.Rest().Some?
      invariant chunk == None ==> cursor.Rest().value == []
      invariant result + (if chunk.Some? then chunk.value else []) + Data(cursor.Rest().value) == goal
      decreases chunk.Some?, |cursor.Rest().value|
    {
      result := result + chunk.value;
      chunk := cursor.Next();
    }
    assert result + [] + Data([]) == result && Data([Chunk(0, body)]) == body;
  }

  /** Decoding an accepted body gives the concatenated data of the parser's chunks. */
  lemma DecodesAcceptedBody(p: Parser)
    requires ChunkedBody(p)
    ensures var s, h := BodyStart(p.state), p.state.headerOffset;
            Walk(p.buf[h..], 0) ==
            if NoNulInLines(s, p.buf) then Some(ParsedChunks(s, p.buf, h)) else None
  {
    hide Walk, NoNulInLines, ParsedChunks, ChunkLoop;
    CursorFollowsParser(BodyStart(p.state), p.buf, p.state.headerOffset);
  }

  const MISLEADING: Bytes := ['1', NUL, CR, LF, 'x', CR, LF, '0', CR, LF, CR, LF]

  /** The parser's three steps over it: a chunk, the last chunk and the empty line. */
  lemma MisleadingChunk(s: State)
    requires s.chunkState.ChunkData?
    ensures ChunkStep(s, MISLEADING) == (Done, s.(chunkOffset := s.chunkOffset + 7))
    ensures LineEnd(MISLEADING) == 2 && LineSize(MISLEADING) == 1
  {
    var p := MISLEADING;
    FirstOfUnique(p, 0, CHUNK_LINE_MAX, CR, CR, 2);
    assert Hex(['1']) == 1 && p[..2][0..1] == ['1'];
  }

  lemma MisleadingEnd(s: State)
    requires s.chunkState.ChunkData?
    ensures ChunkStep(s, MISLEADING[7..]) == (Done, s.(chunkOffset := s.chunkOffset + 3, chunkState := TrailerPart))
  {
    var p := MISLEADING[7..];
    FirstOfUnique(p, 0, CHUNK_LINE_MAX, CR, CR, 1);
    assert Hex(['0']) == 0 && p[..1][0..1] == ['0'];
  }

  lemma MisleadingTrailer(s: State)
    requires s.chunkState.TrailerPart?
    ensures ChunkStep(s, MISLEADING[10..]) == (Done, s.(chunkOffset := s.chunkOffset + 2, chunkState := ChunkComplete))
  {
    FirstOfUnique(MISLEADING[10..], 0, TRAILER_LINE_MAX, CR, CR, 0);
  }

  /** The parser accepts it wherever it stands, and the cursor runs out of it. */
  lemma MisleadingBody(s: State, buf: Bytes)
    requires s.chunkOffset <= |buf| && s.chunkState.ChunkData? && buf[s.chunkOffset..] == MISLEADING
    ensures ChunkLoop(s, buf) == (Done, s.(chunkOffset := |buf|, chunkState := ChunkComplete))
    ensures Walk(MISLEADING, 0) == None
  {
    var h := s.chunkOffset;
    var t, u := s.(chunkOffset := h + 7), s.(chunkOffset := h + 10, chunkState := TrailerPart);
    assert buf[t.chunkOffset..] == MISLEADING[7..] && buf[u.chunkOffset..] == MISLEADING[10..];
    MisleadingChunk(s);
    MisleadingEnd(t);
    MisleadingTrailer(u);
    hide StrtolHex, ChunkStep, LineEnd, LineSize, Walk;
    assert ChunkLoop(u, buf) == (Done, u.(chunkOffset := h + 12, chunkState := ChunkComplete));
    assert ChunkLoop(t, buf) == ChunkLoop(u, buf);
    CursorFollowsParser(s, buf, h);
    assert buf[h..][1] == NUL;
  }

  const CHUNKED_START := Start("POST", "/", "HTTP/1.1")
  const CHUNKED_HEADER := Header("Transfer-Encoding", "chunked")

  lemma ChunkedLines()
    ensures StartText(CHUNKED_START) == "POST / HTTP/1.1\r\n"
    ensures HeaderLine(CHUNKED_HEADER) == "Transfer-Encoding: chunked\r\n"
  {
  }

  lemma ChunkedHead()
    ensures |Head(CHUNKED_START, [CHUNKED_HEADER])| == 47
    ensures StartOk(CHUNKED_START) && HeadersOk([CHUNKED_HEADER])
  {
    ChunkedLines();
    hide StartText, HeaderLine;
    assert HeaderLines([CHUNKED_HEADER]) == HeaderLine(CHUNKED_HEADER) + HeaderLines([]);
    assert CHUNKED_HEADER.name[0] == 'T' && CRLF[0] == CR;
    assert HeaderOk(CHUNKED_HEADER);
  }

  lemma ChunkedFraming()
    ensures var m := WithHeaders(Started(false, CHUNKED_START), [CHUNKED_HEADER]);
            m.chunked && m.transferLength == SIZE_MAX
  {
    var m := Started(false, CHUNKED_START);
    assert WithHeaders(m, [CHUNKED_HEADER]) == MatchHeader(m, CHUNKED_HEADER.name, CHUNKED_HEADER.value);
  }

  /** A whole request that the parser accepts, with a chunked body on which the cursor
      faults. */
  lemma NulMisleadsCursor() returns (data: Bytes)
    ensures |data| == 59
    ensures var (r, p, n) := Append(Fresh(false), data);
            && r == Done && n == |data| && p.buf == data && ChunkedBody(p)
            && Walk(p.buf[p.state.headerOffset..], 0) == None
  {
    data := Head(CHUNKED_START, [CHUNKED_HEADER]) + MISLEADING;
    ChunkedHead();
    ChunkedFraming();
    hide HeaderLoop, ChunkLoop, Head, Started, WithHeaders, StartOk, HeadersOk, Walk;
    HeadParses(false, CHUNKED_START, [CHUNKED_HEADER], MISLEADING);
    assert [] + data == data;
    var h := |Head(CHUNKED_START, [CHUNKED_HEADER])|;
    var m := WithHeaders(Started(false, CHUNKED_START), [CHUNKED_HEADER]);
    var t := Init(false).(headerOffset := h, chunkOffset := h, headerState := HeaderComplete, msg := m);
    assert ReadHeader(Init(false), data) == (Done, t);
    assert data[h..] == MISLEADING;
    MisleadingBody(t, data);
    assert data[..|data|] == data;
  }
}
