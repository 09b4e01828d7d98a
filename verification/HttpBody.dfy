/** The text of a chunked body, written down without the parser (section 4.1 of RFC 7230, as
    far as the code keeps to it): the parser accepts exactly these texts, ends exactly at
    their end, and finds exactly their chunks. */
module HttpBody {
  import opened Collections
  import opened CString
  import opened Numerals
  import opened HttpSpec
  import opened HttpEncode
  import opened HttpChunks

  // ---------- The text ----------

  /** The line starts with the number `n` in base 16; what follows it is an extension. */
  ghost predicate SizeIs(line: Bytes, n: nat)
  {
    exists w: Number :: w.Text() == line && Writes(w, n) && (n > 0 ==> w.sign != "-")
  }

  predicate LineOk(line: Bytes, max: nat) { NoneOf(line, CR, CR) && |line| < max }

  /** A size line, its data, and the two bytes behind the data, which nobody looks at. */
  datatype Piece = Piece(line: Bytes, data: Bytes, end: Bytes)
  {
    function Text(): Bytes { line + CRLF + data + end }

    ghost predicate Ok()
    {
      && LineOk(line, CHUNK_LINE_MAX) && SizeIs(line, |data|)
      && 0 < |data| < CHUNK_SIZE_MAX && |end| == 2
    }
  }

  function PiecesText(cs: seq<Piece>): Bytes
  {
    if cs == [] then [] else cs[0].Text() + PiecesText(cs[1..])
  }

  function LinesText(ts: seq<Bytes>): Bytes
  {
    if ts == [] then [] else ts[0] + CRLF + LinesText(ts[1..])
  }

  predicate TrailersOk(ts: seq<Bytes>)
  {
    forall i :: 0 <= i < |ts| ==> ts[i] != [] && LineOk(ts[i], TRAILER_LINE_MAX)
  }

  /** The chunks, a line with size 0, lines that are not empty, and an empty line. */
  datatype Body = Body(pieces: seq<Piece>, last: Bytes, trailers: seq<Bytes>)
  {
    function Tail(): Bytes { last + CRLF + (LinesText(trailers) + CRLF) }

    function Text(): Bytes { PiecesText(pieces) + Tail() }

    ghost predicate Ok()
    {
      && (forall i :: 0 <= i < |pieces| ==> pieces[i].Ok())
      && LineOk(last, CHUNK_LINE_MAX) && SizeIs(last, 0)
      && TrailersOk(trailers)
    }
  }

  // ---------- A body is accepted ----------

  lemma SizeIsRead(line: Bytes, n: nat)
    requires SizeIs(line, n) && n < CHUNK_SIZE_MAX
    ensures StrtolHex(line).0 == n && StrtolHex(line).1 > 0
  {
    var w: Number :| w.Text() == line && Writes(w, n) && (n > 0 ==> w.sign != "-");
    DigitsAreThere(w, n);
    NumberIsRead(w, n);
    hide Writes, StrtolHex, Number.Text, Number.Start;
  }

  lemma SmallSize(n: nat)
    requires n < CHUNK_SIZE_MAX
    ensures SizeT(n) == n
  {
  }

  /** A size line, whatever follows it. */
  lemma SizeLineRead(line: Bytes, n: nat, more: Bytes)
    requires LineOk(line, CHUNK_LINE_MAX) && SizeIs(line, n) && n < CHUNK_SIZE_MAX
    ensures var p := line + CRLF + more;
            && LineEnd(p) == |line| && LineSize(p) == n
            && p[|line|] == CR && p[|line| + 1] == LF && p[..|line|] == line
            && StrtolHex(p[..|line|]).0 == n && StrtolHex(p[..|line|]).1 > 0
  {
    var p := line + CRLF + more;
    SizeIsRead(line, n);
    SmallSize(n);
    hide StrtolHex, SizeIs, SizeT;
    assert p == line + (CRLF + more);
    FindsEnd(line, CR, CR, CHUNK_LINE_MAX, CRLF + more);
    assert p[..|line|] == line;
  }

  lemma SizeLineStep(s: State, line: Bytes, n: nat, more: Bytes)
    requires s.chunkState.ChunkData?
    requires LineOk(line, CHUNK_LINE_MAX) && SizeIs(line, n) && n < CHUNK_SIZE_MAX
    ensures ChunkStep(s, line + CRLF + more) ==
            if n == 0 then (Done, s.(chunkOffset := s.chunkOffset + |line| + 2, chunkState := TrailerPart))
            else if |more| < n + 2 then (Again, s)
            else (Done, s.(chunkOffset := s.chunkOffset + n + |line| + 4))
  {
    SizeLineRead(line, n, more);
    SmallSize(n);
    hide StrtolHex, SizeIs, SizeT, LineOk;
  }

  lemma PieceStep(s: State, c: Piece, rest: Bytes)
    requires s.chunkState.ChunkData? && c.Ok()
    ensures var p := c.Text() + rest;
            && ChunkStep(s, p) == (Done, s.(chunkOffset := s.chunkOffset + |c.Text()|))
            && LineEnd(p) == |c.line| && LineSize(p) == |c.data|
            && p[..|c.line|] == c.line && p[|c.line| + 2..|c.line| + 2 + |c.data|] == c.data
  {
    hide ChunkStep, StrtolHex, SizeIs, LineEnd, LineSize, LineOk, Piece.Text;
    var more := c.data + c.end + rest;
    PieceShape(c, rest);
    SizeLineRead(c.line, |c.data|, more);
    SizeLineStep(s, c.line, |c.data|, more);
  }

  lemma PieceShape(c: Piece, rest: Bytes)
    ensures c.Text() + rest == c.line + CRLF + (c.data + c.end + rest)
    ensures |c.Text()| == |c.line| + 2 + |c.data| + |c.end|
    ensures (c.Text() + rest)[|c.line| + 2..|c.line| + 2 + |c.data|] == c.data
  {
    var a, more := c.line + CRLF, c.data + c.end + rest;
    assert c.Text() + rest == a + more;
    assert (a + more)[|a|..|a| + |c.data|] == more[..|c.data|] == c.data;
  }

  lemma LastStep(s: State, last: Bytes, rest: Bytes)
    requires s.chunkState.ChunkData? && LineOk(last, CHUNK_LINE_MAX) && SizeIs(last, 0)
    ensures var p := last + CRLF + rest;
            && ChunkStep(s, p) == (Done, s.(chunkOffset := s.chunkOffset + |last| + 2, chunkState := TrailerPart))
            && LineEnd(p) == |last| && LineSize(p) == 0
  {
    SizeLineRead(last, 0, rest);
    SizeLineStep(s, last, 0, rest);
    hide ChunkStep, StrtolHex, SizeIs, LineEnd, LineSize, LineOk;
  }

  lemma LineStep(s: State, t: Bytes, rest: Bytes)
    requires s.chunkState.TrailerPart? && LineOk(t, TRAILER_LINE_MAX)
    ensures ChunkStep(s, t + CRLF + rest) ==
            (Done, s.(chunkOffset := s.chunkOffset + |t| + 2,
                      chunkState := if t == [] then ChunkComplete else TrailerPart))
  {
    var p := t + CRLF + rest;
    assert p == t + (CRLF + rest);
    FindsEnd(t, CR, CR, TRAILER_LINE_MAX, CRLF + rest);
    assert p[|t| + 1] == LF;
  }

  /** The trailer ends at its empty line, and not before. */
  lemma {:induction false} TrailerParses(s: State, buf: Bytes, ts: seq<Bytes>, rest: Bytes)
    requires s.chunkState.TrailerPart? && s.chunkOffset <= |buf|
    requires TrailersOk(ts)
    requires buf[s.chunkOffset..] == LinesText(ts) + CRLF + rest
    ensures ChunkLoop(s, buf) ==
            (Done, s.(chunkOffset := s.chunkOffset + |LinesText(ts)| + 2, chunkState := ChunkComplete))
    decreases |ts|
  {
    hide ChunkStep;
    var p := buf[s.chunkOffset..];
    if ts == [] {
      assert p == [] + CRLF + rest;
      LineStep(s, [], rest);
    } else {
      var more := LinesText(ts[1..]) + CRLF + rest;
      assert p == ts[0] + CRLF + more;
      LineStep(s, ts[0], more);
      var u := s.(chunkOffset := s.chunkOffset + |ts[0]| + 2);
      Behind(buf, s.chunkOffset, ts[0] + CRLF, more);
      TrailerParses(u, buf, ts[1..], rest);
    }
  }

  /** What the chunks hold, in order. */
  function PiecesData(cs: seq<Piece>): Bytes
  {
    if cs == [] then [] else cs[0].data + PiecesData(cs[1..])
  }

  predicate NulFree(cs: seq<Piece>) { forall i :: 0 <= i < |cs| ==> NoneOf(cs[i].line, NUL, NUL) }

  /** The parser accepts the text of a body wherever it stands, up to exactly its end and
      whatever follows. */
  lemma {:induction false} BodyEnds(s: State, buf: Bytes, b: Body, rest: Bytes)
    requires s.chunkState.ChunkData? && s.chunkOffset <= |buf| && b.Ok()
    requires buf[s.chunkOffset..] == b.Text() + rest
    ensures ChunkLoop(s, buf) == (Done, s.(chunkOffset := s.chunkOffset + |b.Text()|, chunkState := ChunkComplete))
    decreases |b.pieces|
  {
    hide *;
    BodyShape(b);
    if b.pieces == [] {
      TailParses(s, buf, b, rest);
    } else {
      FirstPiece(s, buf, b, rest);
      var c, d := b.pieces[0], b.(pieces := b.pieces[1..]);
      ChunkTurn(s, buf);
      BodyEnds(s.(chunkOffset := s.chunkOffset + |c.Text()|), buf, d, rest);
    }
  }

  /** One turn of the loop that goes on. */
  lemma ChunkTurn(s: State, buf: Bytes)
    requires s.chunkOffset <= |buf| && !s.chunkState.ChunkComplete?
    requires var (r, u) := ChunkStep(s, buf[s.chunkOffset..]); r == Done && !u.chunkState.ChunkComplete?
    ensures var u := ChunkStep(s, buf[s.chunkOffset..]).1;
            u.chunkOffset <= |buf| && ChunkLoop(s, buf) == ChunkLoop(u, buf)
  {
    hide ChunkStep;
    ChunkStepAdvances(s, buf[s.chunkOffset..]);
  }

  /** The chunks that the parser steps over hold exactly the data. */
  lemma {:induction false} BodyParses(s: State, buf: Bytes, b: Body, rest: Bytes, h: nat)
    requires s.chunkState.ChunkData? && h <= s.chunkOffset <= |buf| && b.Ok()
    requires buf[s.chunkOffset..] == b.Text() + rest
    ensures ChunkLoop(s, buf) == (Done, s.(chunkOffset := s.chunkOffset + |b.Text()|, chunkState := ChunkComplete))
    ensures Data(ParsedChunks(s, buf, h)) == PiecesData(b.pieces)
    ensures NulFree(b.pieces) <==> NoNulInLines(s, buf)
    decreases |b.pieces|
  {
    hide ChunkLoop, ChunkStep, LineEnd, LineSize, NoneOf;
    hide Body.Ok, Piece.Ok, Body.Text, Piece.Text, Body.Tail, NulFree;
    BodyEnds(s, buf, b, rest);
    BodyShape(b);
    if b.pieces == [] {
      TailParses(s, buf, b, rest);
      NoPieces();
    } else {
      FirstPiece(s, buf, b, rest);
      var c, d := b.pieces[0], b.(pieces := b.pieces[1..]);
      BodyParses(s.(chunkOffset := s.chunkOffset + |c.Text()|), buf, d, rest, h);
      NulFreeNext(b.pieces, buf[s.chunkOffset..]);
    }
  }

  lemma NoPieces()
    ensures NulFree([])
  {
  }

  lemma NulFreeNext(cs: seq<Piece>, p: Bytes)
    requires cs != [] && |cs[0].line| <= |p| && p[..|cs[0].line|] == cs[0].line
    ensures NulFree(cs) <==> (forall j :: 0 <= j < |cs[0].line| ==> p[j] != NUL) && NulFree(cs[1..])
  {
    assert forall j :: 0 <= j < |cs[0].line| ==> p[j] == p[..|cs[0].line|][j];
    assert cs == [cs[0]] + cs[1..];
  }

  lemma BodyShape(b: Body)
    ensures b.pieces == [] ==> b.Text() == b.Tail()
    ensures b.pieces != [] ==>
              var (c, d) := (b.pieces[0], b.(pieces := b.pieces[1..]));
              && b.Text() == c.Text() + d.Text() && |b.Text()| == |c.Text()| + |d.Text()|
              && (b.Ok() <==> c.Ok() && d.Ok()) && (c.Ok() ==> |c.data| > 0)
    ensures b.Ok() ==> LineOk(b.last, CHUNK_LINE_MAX) && SizeIs(b.last, 0) && TrailersOk(b.trailers)
  {
    hide Piece.Text, LinesText, SizeIs, LineOk;
    if b.pieces == [] {
      assert [] + b.Tail() == b.Tail();
    } else {
      var c, d := b.pieces[0], b.(pieces := b.pieces[1..]);
      assert d.Tail() == b.Tail();
      Shift(c.Text(), PiecesText(d.pieces), d.Tail());
      assert forall i :: 0 < i < |b.pieces| ==> b.pieces[i] == d.pieces[i - 1];
      assert b.pieces == [c] + d.pieces;
    }
  }

  /** One chunk of it. */
  lemma FirstPiece(s: State, buf: Bytes, b: Body, rest: Bytes)
    requires s.chunkState.ChunkData? && s.chunkOffset <= |buf| && b.Ok() && b.pieces != []
    requires buf[s.chunkOffset..] == b.Text() + rest
    ensures var (c, d, p) := (b.pieces[0], b.(pieces := b.pieces[1..]), buf[s.chunkOffset..]);
            && |c.line| + 2 + |c.data| <= |p|
            && ChunkStep(s, p) == (Done, s.(chunkOffset := s.chunkOffset + |c.Text()|))
            && s.chunkOffset + |c.Text()| <= |buf| && buf[s.chunkOffset + |c.Text()|..] == d.Text() + rest
            && LineEnd(p) == |c.line| && LineSize(p) == |c.data|
            && p[..|c.line|] == c.line && p[|c.line| + 2..|c.line| + 2 + |c.data|] == c.data
  {
    hide *;
    var c, d := b.pieces[0], b.(pieces := b.pieces[1..]);
    BodyShape(b);
    Shift(c.Text(), d.Text(), rest);
    PieceStep(s, c, d.Text() + rest);
    PieceShape(c, d.Text() + rest);
    Behind(buf, s.chunkOffset, c.Text(), d.Text() + rest);
  }

  /** The line with size 0, and the trailer. */
  lemma TailParses(s: State, buf: Bytes, b: Body, rest: Bytes)
    requires s.chunkState.ChunkData? && s.chunkOffset <= |buf| && b.Ok()
    requires buf[s.chunkOffset..] == b.Tail() + rest
    ensures ChunkLoop(s, buf) == (Done, s.(chunkOffset := s.chunkOffset + |b.Tail()|, chunkState := ChunkComplete))
    ensures LineSize(buf[s.chunkOffset..]) == 0
  {
    hide *;
    BodyShape(b);
    var a, more := b.last + CRLF, LinesText(b.trailers) + CRLF;
    TailShape(b);
    Shift(a, more, rest);
    LastStep(s, b.last, more + rest);
    Behind(buf, s.chunkOffset, a, more + rest);
    ChunkTurn(s, buf);
    TrailerParses(s.(chunkOffset := s.chunkOffset + |b.last| + 2, chunkState := TrailerPart), buf, b.trailers, rest);
  }

  lemma TailShape(b: Body)
    ensures b.Tail() == b.last + CRLF + (LinesText(b.trailers) + CRLF)
    ensures |CRLF| == 2 && |b.Tail()| == |b.last| + 2 + |LinesText(b.trailers)| + 2
  {
  }

  // ---------- What is accepted is a body ----------

  /** A number that the size test lets pass was not negative. */
  lemma SizeIsThere(line: Bytes)
    requires StrtolHex(line).1 > 0
    requires var v := StrtolHex(line).0; v == 0 || SizeT(v) < CHUNK_SIZE_MAX
    ensures SizeIs(line, SizeT(StrtolHex(line).0))
  {
    var w, n := NumberIsThere(line);
    NumberIsRead(w, n);
    hide StrtolHex, Writes, Number.Text, Number.Start;
    SizeOfLong(Signed(w, n));
  }

  lemma SizeOfLong(x: int)
    ensures var v := ClampLong(x);
            && (v == 0 <==> x == 0)
            && (v == 0 || SizeT(v) < CHUNK_SIZE_MAX ==> x >= 0 && SizeT(v) == x)
  {
  }

  lemma SizeLineFound(s: State, p: Bytes)
    requires s.chunkState.ChunkData? && ChunkStep(s, p).0 == Done
    ensures var (i, n) := (LineEnd(p), LineSize(p));
            && i + 2 <= |p| && p[i] == CR && p[i + 1] == LF
            && LineOk(p[..i], CHUNK_LINE_MAX) && SizeIs(p[..i], n) && n < CHUNK_SIZE_MAX
  {
    ChunkStepData(s, p);
    hide StrtolHex, SizeIs, HexStart, FirstOf;
    SizeIsThere(p[..LineEnd(p)]);
  }

  lemma Cut(p: Bytes, i: nat)
    requires i + 2 <= |p| && p[i] == CR && p[i + 1] == LF
    ensures p == p[..i] + CRLF + p[i + 2..]
  {
  }

  lemma LineFound(s: State, p: Bytes)
    requires s.chunkState.TrailerPart? && ChunkStep(s, p).0 == Done
    ensures var i := FirstOf(p, 0, TRAILER_LINE_MAX, CR, CR);
            && i + 2 <= |p| && p[i] == CR && p[i + 1] == LF && LineOk(p[..i], TRAILER_LINE_MAX)
            && ChunkStep(s, p).1 == s.(chunkOffset := s.chunkOffset + i + 2,
                                       chunkState := if i == 0 then ChunkComplete else TrailerPart)
  {
  }

  lemma Lines(a: Bytes, b: Bytes, rest: Bytes)
    ensures a + (b + CRLF + rest) == a + b + CRLF + rest
  {
  }

  lemma {:induction false} TrailerFound(s: State, buf: Bytes) returns (ts: seq<Bytes>, rest: Bytes)
    requires s.chunkState.TrailerPart? && s.chunkOffset <= |buf| && ChunkLoop(s, buf).0 == Done
    ensures TrailersOk(ts) && buf[s.chunkOffset..] == LinesText(ts) + CRLF + rest
    decreases |buf| - s.chunkOffset
  {
    hide ChunkStep, FirstOf, LineOk;
    var p := buf[s.chunkOffset..];
    LineFound(s, p);
    var i := FirstOf(p, 0, TRAILER_LINE_MAX, CR, CR);
    Cut(p, i);
    if i == 0 {
      ts, rest := [], p[2..];
    } else {
      var u := ChunkStep(s, p).1;
      assert buf[u.chunkOffset..] == p[i + 2..];
      var us;
      us, rest := TrailerFound(u, buf);
      ts := [p[..i]] + us;
      assert ts[1..] == us;
      Lines(p[..i] + CRLF, LinesText(us), rest);
    }
  }

  /** Whatever the parser accepts as a chunked body starts with the text of one. */
  lemma {:induction false} BodyFound(s: State, buf: Bytes) returns (b: Body, rest: Bytes)
    requires s.chunkState.ChunkData? && s.chunkOffset <= |buf| && ChunkLoop(s, buf).0 == Done
    ensures b.Ok() && buf[s.chunkOffset..] == b.Text() + rest
    decreases |buf| - s.chunkOffset
  {
    hide ChunkStep, LineOk, SizeIs, LineEnd, LineSize, Body.Ok, Body.Text, TrailersOk, LinesText, Piece.Text;
    var p := buf[s.chunkOffset..];
    ChunkStepData(s, p);
    SizeLineFound(s, p);
    var i, n, u := LineEnd(p), LineSize(p), ChunkStep(s, p).1;
    if n == 0 {
      var ts;
      ChunkStepNext(s, p);
      ts, rest := TrailerFound(u, buf);
      b := Body([], p[..i], ts);
      TailFound(buf, s.chunkOffset, b, rest);
    } else {
      var d;
      d, rest := BodyFound(u, buf);
      b := MoreFound(buf, s.chunkOffset, i, n, d, rest);
    }
  }

  lemma TailFound(buf: Bytes, at: nat, b: Body, rest: Bytes)
    requires at + |b.last| + 2 <= |buf| && b.pieces == []
    requires buf[at..][..|b.last|] == b.last && buf[at + |b.last|] == CR && buf[at + |b.last| + 1] == LF
    requires buf[at + |b.last| + 2..] == LinesText(b.trailers) + CRLF + rest
    requires LineOk(b.last, CHUNK_LINE_MAX) && SizeIs(b.last, 0) && TrailersOk(b.trailers)
    ensures b.Ok() && buf[at..] == b.Text() + rest
  {
    hide LineOk, SizeIs, TrailersOk, LinesText, Body.Text, Body.Tail;
    var p, i := buf[at..], |b.last|;
    assert buf[at + i + 2..] == p[i + 2..];
    Cut(p, i);
    OnlyTail(b, rest);
  }

  lemma MoreFound(buf: Bytes, at: nat, i: nat, n: nat, d: Body, rest: Bytes) returns (b: Body)
    requires at + i + n + 4 <= |buf| && buf[at + i] == CR && buf[at + i + 1] == LF
    requires buf[at + i + n + 4..] == d.Text() + rest && d.Ok()
    requires LineOk(buf[at..][..i], CHUNK_LINE_MAX) && SizeIs(buf[at..][..i], n) && 0 < n < CHUNK_SIZE_MAX
    ensures b.Ok() && buf[at..] == b.Text() + rest
  {
    hide LineOk, SizeIs, Body.Ok, Body.Text, Piece.Text, Piece.Ok;
    var p := buf[at..];
    var c := Piece(p[..i], p[i + 2..i + 2 + n], p[i + 2 + n..i + n + 4]);
    b := d.(pieces := [c] + d.pieces);
    assert buf[at + i + n + 4..] == p[i + n + 4..];
    PieceFound(p, i, n);
    BodyShape(b);
    assert b.(pieces := b.pieces[1..]) == d;
    Shift(c.Text(), d.Text(), rest);
  }

  lemma ChunkStepNext(s: State, p: Bytes)
    requires s.chunkState.ChunkData? && ChunkStep(s, p).0 == Done && LineSize(p) == 0
    ensures ChunkStep(s, p).1 == s.(chunkOffset := s.chunkOffset + LineEnd(p) + 2, chunkState := TrailerPart)
  {
    hide StrtolHex, FirstOf;
    StrtolRange(p[..LineEnd(p)]);
  }

  lemma OnlyTail(b: Body, rest: Bytes)
    requires b.pieces == []
    ensures b.last + CRLF + (LinesText(b.trailers) + CRLF + rest) == b.Text() + rest
    ensures LineOk(b.last, CHUNK_LINE_MAX) && SizeIs(b.last, 0) && TrailersOk(b.trailers) ==> b.Ok()
  {
    hide LineOk, SizeIs, TrailersOk, LinesText;
    var a, m := b.last + CRLF, LinesText(b.trailers) + CRLF;
    assert [] + (a + m) + rest == a + (m + rest);
  }

  lemma PieceFound(p: Bytes, i: nat, n: nat)
    requires i + n + 4 <= |p| && p[i] == CR && p[i + 1] == LF
    ensures var c := Piece(p[..i], p[i + 2..i + 2 + n], p[i + 2 + n..i + n + 4]);
            && p == c.Text() + p[i + n + 4..]
            && (LineOk(p[..i], CHUNK_LINE_MAX) && SizeIs(p[..i], n) && 0 < n < CHUNK_SIZE_MAX ==> c.Ok())
  {
    hide LineOk, SizeIs;
  }

  // ---------- Decoding ----------

  /** The cursor reads the data of a body, and ends, if and only if no size line has a NUL. */
  lemma CursorReadsBody(b: Body)
    requires b.Ok()
    ensures Walk(b.Text(), 0).Some? <==> NulFree(b.pieces)
    ensures NulFree(b.pieces) ==> Data(Walk(b.Text(), 0).value) == PiecesData(b.pieces)
  {
    hide Body.Ok, Body.Text, NulFree, Walk, ParsedChunks, NoNulInLines, ChunkLoop, Data, PiecesData;
    var s, buf := Init(false), b.Text();
    assert buf[0..] == buf == buf + [];
    BodyParses(s, buf, b, [], 0);
    CursorFollowsParser(s, buf, 0);
  }

  /** A chunk as a sender writes it. */
  function Encoded(d: Bytes, digits: Bytes): Piece
    requires |digits| == 16
  {
    Piece(HexText(|d|, digits), d, CRLF)
  }

  function EncodedPieces(ds: seq<Bytes>, digits: Bytes): seq<Piece>
    requires |digits| == 16
  {
    if ds == [] then [] else [Encoded(ds[0], digits)] + EncodedPieces(ds[1..], digits)
  }

  /** Non-empty blocks as a chunked body, with any trailer lines. */
  function EncodedBody(ds: seq<Bytes>, digits: Bytes, trailers: seq<Bytes>): Body
    requires |digits| == 16
  {
    Body(EncodedPieces(ds, digits), ['0'], trailers)
  }

  ghost function Pow16(k: nat): nat { if k == 0 then 1 else 16 * Pow16(k - 1) }

  lemma {:induction false} HexTextShort(n: nat, digits: Bytes, k: nat)
    requires |digits| == 16 && k >= 1 && n < Pow16(k)
    ensures |HexText(n, digits)| <= k
    decreases k
  {
    if n >= 16 {
      assert k > 1;
      HexTextShort(n / 16, digits, k - 1);
    }
  }

  lemma SizesFit()
    ensures Pow16(8) > CHUNK_SIZE_MAX
  {
    assert Pow16(2) == 256 && Pow16(4) == 65536;
    assert Pow16(5) == 1048576 && Pow16(6) == 16777216 && Pow16(7) == 268435456;
  }

  predicate HexAlphabet(digits: Bytes) { digits == HEX_LOWER || digits == HEX_UPPER }

  lemma NumeralIsSize(line: Bytes, n: nat)
    requires Numeral(line, n)
    ensures SizeIs(line, n)
  {
    hide Numeral;
    var w := Number([], "", "", line, []);
    assert w.Text() == line;
    assert Writes(w, n);
  }

  lemma HexIsPlain(line: Bytes)
    requires AllHex(line)
    ensures NoneOf(line, CR, CR) && NoneOf(line, NUL, NUL)
  {
  }

  /** A printed number says its size. */
  lemma PrintedSize(n: nat, digits: Bytes)
    requires HexAlphabet(digits) && n < CHUNK_SIZE_MAX
    ensures var line := HexText(n, digits);
            LineOk(line, CHUNK_LINE_MAX) && SizeIs(line, n) && NoneOf(line, NUL, NUL)
  {
    HexDigits();
    HexReadsText(n, digits);
    hide HexText, Numeral, Hex, Pow16, AllHex, SizeIs;
    var line := HexText(n, digits);
    NumeralIs(line, n);
    NumeralIsSize(line, n);
    HexIsPlain(line);
    SizesFit();
    HexTextShort(n, digits, 8);
  }

  predicate Sendable(ds: seq<Bytes>) { forall i :: 0 <= i < |ds| ==> 0 < |ds[i]| < CHUNK_SIZE_MAX }

  function Joined(ds: seq<Bytes>): Bytes { if ds == [] then [] else ds[0] + Joined(ds[1..]) }

  lemma {:induction false} EncodedPiecesOk(ds: seq<Bytes>, digits: Bytes)
    requires HexAlphabet(digits) && Sendable(ds)
    ensures var cs := EncodedPieces(ds, digits);
            && (forall i :: 0 <= i < |cs| ==> cs[i].Ok()) && NulFree(cs) && PiecesData(cs) == Joined(ds)
  {
    hide HexText, SizeIs, LineOk, HexAlphabet, Piece.Ok, NoneOf;
    if ds != [] {
      EncodedOk(ds[0], digits);
      EncodedPiecesOk(ds[1..], digits);
    }
  }

  lemma EncodedOk(d: Bytes, digits: Bytes)
    requires HexAlphabet(digits) && 0 < |d| < CHUNK_SIZE_MAX
    ensures var c := Encoded(d, digits); |digits| == 16 && c.Ok() && NoneOf(c.line, NUL, NUL)
  {
    HexDigits();
    PrintedSize(|d|, digits);
    hide HexText, SizeIs, LineOk;
  }

  /** Encoding any non-empty blocks and decoding the body gives their bytes back. */
  lemma DecodesWhatWasEncoded(ds: seq<Bytes>, digits: Bytes, trailers: seq<Bytes>)
    requires HexAlphabet(digits) && Sendable(ds) && TrailersOk(trailers)
    ensures var b := EncodedBody(ds, digits, trailers);
            b.Ok() && Walk(b.Text(), 0).Some? && Data(Walk(b.Text(), 0).value) == Joined(ds)
  {
    EncodedPiecesOk(ds, digits);
    PrintedSize(0, digits);
    HexDigits();
    assert HexText(0, digits) == ['0'];
    hide HexText, SizeIs, LineOk, HexAlphabet, EncodedPieces, NulFree, PiecesData, Walk, TrailersOk;
    CursorReadsBody(EncodedBody(ds, digits, trailers));
  }
}
