/** The messages that the parser accepts, as texts: a head, and the body that its start line
    and headers announce (section 3.3.3 of RFC 7230). */
module HttpGrammar {
  import opened Collections
  import opened CString
  import opened HttpSpec
  import opened HttpAppend
  import opened HttpEncode
  import opened HttpFraming
  import opened HttpHead
  import HttpBody
  import opened HttpChunks

  /** Is `body` what this head announces?  A response without a length goes on until the end
      of the connection, which the parser does not see. */
  ghost predicate Announced(isResp: bool, code: Bytes, hs: seq<Header>, body: Bytes)
  {
    if isResp && Bodyless(code) then body == []
    else if exists h <- hs :: Encodes(h) then exists b: HttpBody.Body :: b.Ok() && b.Text() == body
    else if LastOnLength(hs, -1) then !isResp && body == []
    else
      exists k: nat :: k < |hs| && LastOnLength(hs, k) && Measures(hs[k])
                       && |body| == AtoiSize(hs[k].value) < SIZE_MAX
  }

  ghost predicate MessageOk(isResp: bool, h: HeadText, body: Bytes)
  {
    h.Ok() && Announced(isResp, h.start.second, HeadersOf(h.lines), body)
  }

  /** The state after the head. */
  function HeadRead(isResp: bool, h: HeadText): State
  {
    Init(isResp).(headerOffset := |h.Text()|, headerState := HeaderComplete,
                  msg := WithHeaders(Started(isResp, h.start), HeadersOf(h.lines)))
  }

  lemma ReadsHead(isResp: bool, h: HeadText, more: Bytes)
    requires h.Ok()
    ensures ReadHeader(Init(isResp), h.Text() + more) == (Done, Framed(HeadRead(isResp, h)))
    ensures FramedBy(isResp, h.start.second, HeadersOf(h.lines), Framed(HeadRead(isResp, h)))
  {
    hide HeaderLoop, HeadText.Text, HeadText.Ok, Framed, FramedBy;
    HeadIsAccepted(isResp, h, more);
    HeadFrames(isResp, h.start, HeadersOf(h.lines), HeadRead(isResp, h));
  }

  /** One of the headers on the length is the last. */
  lemma {:induction false} SomeLast(hs: seq<Header>, n: nat) returns (k: nat)
    requires n <= |hs| && LastOnLength(hs, n - 1) && !LastOnLength(hs, -1)
    ensures k < |hs| && LastOnLength(hs, k) && Measures(hs[k])
    decreases n
  {
    if Measures(hs[n - 1]) { k := n - 1; } else { k := SomeLast(hs, n - 1); }
  }

  /** What the announcement means for the parser. */
  lemma AnnouncedIsFramed(isResp: bool, code: Bytes, hs: seq<Header>, body: Bytes, t: State)
    requires Announced(isResp, code, hs, body) && FramedBy(isResp, code, hs, t)
    ensures if KnownLength(t) then t.msg.transferLength == |body|
            else t.msg.chunked && t.chunkOffset == t.headerOffset && t.chunkState.ChunkData?
                 && exists b: HttpBody.Body :: b.Ok() && b.Text() == body
  {
    hide Bodyless, Encodes, Measures, LastOnLength, AtoiSize;
  }

  lemma KnownBodyRead(s: State, head: Bytes, body: Bytes, rest: Bytes)
    requires KnownLength(s) && s.msg.transferLength == |body| && s.headerOffset == |head|
    requires |head + body + rest| < TWO_64 && s.chunkOffset <= |head|
    ensures ReadBody(s, head + body + rest) == (Done, s, |head| + |body|)
  {
  }

  lemma ChunkedBodyRead(s: State, buf: Bytes, b: HttpBody.Body, rest: Bytes)
    requires !KnownLength(s) && s.msg.chunked && s.chunkState.ChunkData? && s.chunkOffset <= |buf|
    requires b.Ok() && buf[s.chunkOffset..] == b.Text() + rest
    ensures var e := s.chunkOffset + |b.Text()|;
            ReadBody(s, buf) == (Done, s.(chunkOffset := e, chunkState := ChunkComplete), e)
  {
    hide HttpBody.Body.Text, HttpBody.Body.Ok, ChunkLoop;
    HttpBody.BodyEnds(s, buf, b, rest);
  }

  lemma FramedKeeps(isResp: bool, h: HeadText)
    ensures var s := Framed(HeadRead(isResp, h));
            && s.headerOffset == |h.Text()| && s.headerState.HeaderComplete? && s.chunkOffset <= s.headerOffset
            && (s.msg.chunked ==> s.chunkOffset == s.headerOffset && s.chunkState.ChunkData?)
            && s.msg.headers == HeadersOf(h.lines) && SameLine(isResp, h.start, s.msg)
  {
    hide HeadText.Text, WithHeaders, HeadersOf, Started;
    HeadersKept(Started(isResp, h.start), HeadersOf(h.lines));
    StartedIs(isResp, h.start);
  }

  /** The message has the parts of this start line. */
  predicate SameLine(isResp: bool, l: Start, m: Message)
  {
    if isResp then m.version == Some(l.first) && m.code == Some(l.second) && m.phrase == Some(l.third)
    else m.method_ == Some(l.first) && m.uri == Some(l.second) && m.version == Some(l.third)
  }

  /** The parser has this message, and nothing else in its buffer. */
  predicate Has(p: Parser, isResp: bool, h: HeadText, body: Bytes)
  {
    && p.complete && p.buf == h.Text() + body && p.state.headerOffset == |h.Text()|
    && p.state.msg.headers == HeadersOf(h.lines) && SameLine(isResp, h.start, p.state.msg)
  }

  lemma BodyIsRead(isResp: bool, h: HeadText, body: Bytes, rest: Bytes)
    requires MessageOk(isResp, h, body) && |h.Text() + body + rest| < TWO_64
    ensures var s := Framed(HeadRead(isResp, h));
            && s.chunkOffset <= |h.Text()|
            && var (r, t, e) := ReadBody(s, h.Text() + body + rest);
               r == Done && e == |h.Text()| + |body|
               && t == s.(chunkOffset := t.chunkOffset, chunkState := t.chunkState)
  {
    hide ReadHeader, ReadBody, HeadText.Text, HeadText.Ok, Framed, FramedBy, HeadRead, Announced, HeadersOf;
    hide HttpBody.Body.Text, HttpBody.Body.Ok, SameLine;
    var s, data := Framed(HeadRead(isResp, h)), h.Text() + body + rest;
    Shift(h.Text(), body, rest);
    ReadsHead(isResp, h, body + rest);
    FramedKeeps(isResp, h);
    AnnouncedIsFramed(isResp, h.start.second, HeadersOf(h.lines), body, s);
    if KnownLength(s) {
      KnownBodyRead(s, h.Text(), body, rest);
    } else {
      var b: HttpBody.Body :| b.Ok() && b.Text() == body;
      assert data[|h.Text()|..] == body + rest;
      ChunkedBodyRead(s, data, b, rest);
    }
  }

  /** One call on a whole message. */
  lemma AppendIs(isResp: bool, data: Bytes, s: State, t: State, e: nat)
    requires ReadHeader(Init(isResp), data) == (Done, s) && s.chunkOffset <= |data|
    requires ReadBody(s, data) == (Done, t, e) && e <= |data| < TWO_64
    ensures Append(Fresh(isResp), data) == (Done, Parser(t, data[..e], true), e)
  {
    hide ReadHeader, ReadBody;
    assert [] + data == data;
  }

  /** A message is accepted whatever follows it: with its start line, headers and body, and
      counting exactly its bytes. */
  lemma MessageIsAccepted(isResp: bool, h: HeadText, body: Bytes, rest: Bytes)
    requires MessageOk(isResp, h, body) && |h.Text() + body + rest| < TWO_64
    ensures var (r, p, n) := Append(Fresh(isResp), h.Text() + body + rest);
            r == Done && n == |h.Text() + body| && Has(p, isResp, h, body)
  {
    BodyIsRead(isResp, h, body, rest);
    ReadsHead(isResp, h, body + rest);
    FramedKeeps(isResp, h);
    hide ReadHeader, ReadBody, Append, HeadText.Text, HeadText.Ok, Framed, FramedBy, HeadRead, Announced, HeadersOf;
    hide SameLine;
    var s, data := Framed(HeadRead(isResp, h)), h.Text() + body + rest;
    Shift(h.Text(), body, rest);
    var (_, t, e) := ReadBody(s, data);
    AppendIs(isResp, data, s, t, e);
    assert data[..e] == h.Text() + body;
  }

  /** The same however the bytes are cut. */
  lemma MessageInPieces(isResp: bool, h: HeadText, body: Bytes, rest: Bytes, pieces: seq<Bytes>)
    requires MessageOk(isResp, h, body) && |h.Text() + body + rest| < TWO_64
    requires Concat(pieces) == h.Text() + body + rest
    ensures var (r, p, n) := Feed(Fresh(isResp), pieces);
            r == Done && SizeT(n) == |h.Text() + body| && Has(p, isResp, h, body)
  {
    hide Append, Feed, Announced, HeadText.Text, HeadText.Ok;
    MessageIsAccepted(isResp, h, body, rest);
    SplitInvariance(Fresh(isResp), pieces);
  }

  /** As long as a byte of a message is missing, the parser waits. */
  lemma PrefixWaits(isResp: bool, h: HeadText, body: Bytes, part: Bytes)
    requires MessageOk(isResp, h, body) && |h.Text() + body| < TWO_64
    requires part <= h.Text() + body && part != h.Text() + body
    ensures var (r, p, n) := Append(Fresh(isResp), part);
            r == Again && p.buf == part && n == |part|
  {
    hide Outcome, MessageOk, HeadText.Text, HeadText.Ok, SameLine;
    var whole := h.Text() + body;
    var more := whole[|part|..];
    assert whole + [] == whole && part + more == whole;
    MessageIsAccepted(isResp, h, body, []);
    AppendKeepsWaiting(Fresh(isResp), part);
    assert [] + part == part;
    if Append(Fresh(isResp), part).0 != Again { AppendStands(Fresh(isResp), part, more); }
  }

  /** A response without a length takes all that comes, and is never complete by itself. */
  lemma UntilTheEnd(h: HeadText, more: Bytes)
    requires h.Ok() && !Bodyless(h.start.second)
    requires (forall x <- HeadersOf(h.lines) :: !Encodes(x)) && LastOnLength(HeadersOf(h.lines), -1)
    ensures var (r, p, n) := Append(Fresh(true), h.Text() + more);
            && r == Again && p.buf == h.Text() + more && n == |p.buf|
            && p.state.headerOffset == |h.Text()| && p.state.msg.headers == HeadersOf(h.lines)
  {
    ReadsHead(true, h, more);
    FramedKeeps(true, h);
    hide ReadHeader, HeadText.Text, HeadText.Ok, Framed, HeadRead, HeadersOf, Encodes, Bodyless, LastOnLength, SameLine;
    assert [] + (h.Text() + more) == h.Text() + more;
  }

  /** Blocks sent as chunks arrive: the message is accepted in any pieces, counting exactly its
      bytes, and decoding what the parser has gives the bytes of the blocks. */
  lemma ChunksRoundTrip(isResp: bool, h: HeadText, ds: seq<Bytes>, digits: Bytes, trailers: seq<Bytes>,
                        rest: Bytes, pieces: seq<Bytes>)
    requires h.Ok() && (exists x <- HeadersOf(h.lines) :: Encodes(x)) && !(isResp && Bodyless(h.start.second))
    requires HttpBody.HexAlphabet(digits) && HttpBody.Sendable(ds) && HttpBody.TrailersOk(trailers)
    requires var wire := h.Text() + HttpBody.EncodedBody(ds, digits, trailers).Text();
             Concat(pieces) == wire + rest && |wire + rest| < TWO_64
    ensures var (r, p, n) := Feed(Fresh(isResp), pieces);
            && r == Done && SizeT(n) == |h.Text() + HttpBody.EncodedBody(ds, digits, trailers).Text()|
            && p.state.headerOffset <= |p.buf| && p.state.msg.headers == HeadersOf(h.lines)
            && var walk := Walk(p.buf[p.state.headerOffset..], 0);
               walk.Some? && Data(walk.value) == HttpBody.Joined(ds)
  {
    HttpBody.DecodesWhatWasEncoded(ds, digits, trailers);
    hide HeadText.Text, HeadText.Ok, HeadersOf, Encodes, Bodyless, Walk, Data, Feed, SameLine;
    hide HttpBody.Body.Text, HttpBody.Body.Ok, HttpBody.EncodedBody, HttpBody.HexAlphabet, HttpBody.Joined;
    var body := HttpBody.EncodedBody(ds, digits, trailers).Text();
    MessageInPieces(isResp, h, body, rest, pieces);
    assert (h.Text() + body)[|h.Text()|..] == body;
  }

  // ---------- What is accepted is a message ----------

  lemma FramedIsAnnounced(isResp: bool, code: Bytes, hs: seq<Header>, body: Bytes, t: State)
    requires FramedBy(isResp, code, hs, t) && |body| < SIZE_MAX
    requires KnownLength(t) ==> t.msg.transferLength == |body|
    requires !KnownLength(t) ==> t.msg.chunked && exists b: HttpBody.Body :: b.Ok() && b.Text() == body
    requires !KnownLength(t) ==> !(isResp && Bodyless(code))
    ensures Announced(isResp, code, hs, body)
  {
    hide Bodyless, Encodes, Measures, AtoiSize, LastOnLength;
    if !(isResp && Bodyless(code)) && !(exists h <- hs :: Encodes(h)) && !LastOnLength(hs, -1) {
      assert LastOnLength(hs, |hs| - 1) by { NoneBehind(hs); }
      var k := SomeLast(hs, |hs|);
    }
  }

  lemma NoneBehind(hs: seq<Header>)
    ensures LastOnLength(hs, |hs| - 1)
  {
  }

  lemma UnknownHasBody(isResp: bool, code: Bytes, hs: seq<Header>, t: State)
    requires FramedBy(isResp, code, hs, t) && !KnownLength(t)
    ensures !(isResp && Bodyless(code))
  {
    hide Bodyless;
  }

  /** An outcome, taken apart. */
  lemma OutcomeParts(isResp: bool, data: Bytes, s: State)
    requires Append(Fresh(isResp), data).0 == Done && ReadHeader(Init(isResp), data) == (Done, s)
    requires s.chunkOffset <= |data|
    requires var t := Append(Fresh(isResp), data).1.state;
             KnownLength(t) ==> t.headerOffset + t.msg.transferLength < TWO_64
    ensures KnownLength(s) ==> |data| >= s.headerOffset + s.msg.transferLength
    ensures !KnownLength(s) ==> s.msg.chunked && (s.chunkState.ChunkComplete? || ChunkLoop(s, data).0 == Done)
  {
    hide HeaderLoop, ChunkLoop, ReadHeader;
    assert [] + data == data;
  }

  /** Whatever is accepted starts with a message, and that is what the parser has; but for a
      length that wraps around. */
  lemma MessageFound(isResp: bool, data: Bytes) returns (h: HeadText, body: Bytes, rest: Bytes)
    requires |data| < SIZE_MAX && Append(Fresh(isResp), data).0 == Done
    requires var t := Append(Fresh(isResp), data).1.state;
             KnownLength(t) ==> t.headerOffset + t.msg.transferLength < TWO_64
    ensures MessageOk(isResp, h, body) && data == h.Text() + body + rest
    ensures var (_, p, n) := Append(Fresh(isResp), data); n == |h.Text() + body| && Has(p, isResp, h, body)
  {
    h, body, rest := MessageThere(isResp, data);
    MessageIsAccepted(isResp, h, body, rest);
  }

  lemma MessageThere(isResp: bool, data: Bytes) returns (h: HeadText, body: Bytes, rest: Bytes)
    requires |data| < SIZE_MAX && Append(Fresh(isResp), data).0 == Done
    requires var t := Append(Fresh(isResp), data).1.state;
             KnownLength(t) ==> t.headerOffset + t.msg.transferLength < TWO_64
    ensures MessageOk(isResp, h, body) && data == h.Text() + body + rest
  {
    var more;
    h, more := HeadOf(isResp, data);
    ReadsHead(isResp, h, more);
    FramedKeeps(isResp, h);
    var s := Framed(HeadRead(isResp, h));
    hide Append, ReadHeader, ChunkLoop, HeadText.Text, HeadText.Ok, FramedBy, Announced, Framed, HeadersOf;
    OutcomeParts(isResp, data, s);
    assert data[s.headerOffset..] == more;
    if KnownLength(s) {
      body, rest := more[..s.msg.transferLength], more[s.msg.transferLength..];
    } else {
      var b;
      b, rest := HttpBody.BodyFound(s, data);
      body := b.Text();
      UnknownHasBody(isResp, h.start.second, HeadersOf(h.lines), s);
    }
    hide HttpBody.Body.Text, HttpBody.Body.Ok;
    assert more == body + rest;
    FramedIsAnnounced(isResp, h.start.second, HeadersOf(h.lines), body, s);
    Shift(h.Text(), body, rest);
  }

  lemma HeadOf(isResp: bool, data: Bytes) returns (h: HeadText, more: Bytes)
    requires Append(Fresh(isResp), data).0 == Done
    ensures h.Ok() && data == h.Text() + more
  {
    hide HeaderLoop, ChunkLoop, HeadText.Text, HeadText.Ok;
    assert [] + data == data && data[0..] == data;
    h, more := HeadFound(Init(isResp), data);
  }
}
