/** `http_parser_append_message`: where the pieces of a message are cut does not matter,
    and the bytes counted as consumed are exactly those of the message. */
module HttpAppend {
  import opened Collections
  import opened CString
  import opened HttpSpec

  /** What the end of the header decides about the body. */
  function Framed(s: State): State
  {
    if s.msg.chunked then s.(chunkOffset := s.headerOffset, chunkState := ChunkData)
    else if s.msg.transferLength == SIZE_MAX then s.(msg := s.msg.(transferLength := s.msg.contentLength))
    else s
  }

  /** The part of a call that reads the header, if that is still under way. */
  function ReadHeader(s: State, buf: Bytes): (Ret, State)
    requires s.headerOffset <= |buf|
  {
    if s.headerState.HeaderComplete? then (Done, s)
    else
      var (r, t) := HeaderLoop(s, buf);
      if r == Done then (Done, Framed(t)) else (r, t)
  }

  predicate KnownLength(s: State) { s.msg.transferLength != SIZE_MAX }

  /** End of a message with a known length, in `size_t` arithmetic. */
  function Total(s: State): nat { SizeT(s.headerOffset + s.msg.transferLength) }

  /** The part of a call that reads the body; a complete message ends at the offset. */
  function ReadBody(s: State, buf: Bytes): (Ret, State, nat)
    requires s.chunkOffset <= |buf|
  {
    if KnownLength(s) then
      if |buf| >= Total(s) then (Done, s, Total(s)) else (Again, s, |buf|)
    else if !s.msg.chunked then
      (Again, s, |buf|)
    else
      var (r, t) := if s.chunkState.ChunkComplete? then (Done, s) else ChunkLoop(s, buf);
      (r, t, if r == Done then t.chunkOffset else |buf|)
  }

  /** The offsets are within the buffer, and in the body when there is one. */
  predicate OffsetsOk(s: State, size: nat)
  {
    && s.headerOffset <= size && s.chunkOffset <= size
    && if s.headerState.HeaderComplete? && s.msg.chunked && !KnownLength(s) then s.headerOffset <= s.chunkOffset
       else s.chunkOffset <= s.headerOffset
  }

  /** What one call makes of everything that is buffered. */
  function Outcome(s: State, buf: Bytes): (Ret, State, nat)
    requires OffsetsOk(s, |buf|)
  {
    var (r, t) := ReadHeader(s, buf);
    ReadHeaderOffsets(s, buf);
    if r != Done then (r, t, |buf|) else ReadBody(t, buf)
  }

  lemma {:induction false} HeaderKeepsChunk(s: State, buf: Bytes)
    requires s.headerOffset <= |buf| && !s.headerState.HeaderComplete?
    ensures var t := HeaderLoop(s, buf).1;
            t.chunkOffset == s.chunkOffset && t.chunkState == s.chunkState && t.isResp == s.isResp
    decreases |buf| - s.headerOffset
  {
    var p := buf[s.headerOffset..];
    var (r, t) := HeaderStep(s, p);
    HeaderStepAdvances(s, p);
    if r == Done && !t.headerState.HeaderComplete? {
      HeaderKeepsChunk(t, buf);
    }
  }

  lemma ReadHeaderOffsets(s: State, buf: Bytes)
    requires OffsetsOk(s, |buf|)
    ensures OffsetsOk(ReadHeader(s, buf).1, |buf|)
    ensures ReadHeader(s, buf).0 == Done ==> ReadHeader(s, buf).1.headerState.HeaderComplete?
  {
    if !s.headerState.HeaderComplete? {
      HeaderKeepsChunk(s, buf);
      HeaderLoopAdvances(s, buf);
    }
  }

  lemma ReadBodyOffsets(s: State, buf: Bytes)
    requires OffsetsOk(s, |buf|) && s.headerState.HeaderComplete?
    ensures OffsetsOk(ReadBody(s, buf).1, |buf|) && ReadBody(s, buf).2 <= |buf|
  {
    if !KnownLength(s) && s.msg.chunked && !s.chunkState.ChunkComplete? {
      ChunkLoopAdvances(s, buf);
    }
  }

  lemma OutcomeOffsets(s: State, buf: Bytes)
    requires OffsetsOk(s, |buf|)
    ensures OffsetsOk(Outcome(s, buf).1, |buf|) && Outcome(s, buf).2 <= |buf|
  {
    var (r, t) := ReadHeader(s, buf);
    ReadHeaderOffsets(s, buf);
    if r == Done { ReadBodyOffsets(t, buf); }
  }

  // ---------- Reading resumes ----------

  lemma ReadHeaderResumes(s: State, a: Bytes, b: Bytes)
    requires s.headerOffset <= |a|
    ensures var (r, t) := ReadHeader(s, a);
            if r == Again then
              && t.headerOffset <= |a| && ReadHeader(t, a) == (Again, t)
              && ReadHeader(s, a + b) == ReadHeader(t, a + b)
            else
              ReadHeader(s, a + b) == (r, t)
  {
    if !s.headerState.HeaderComplete? {
      HeaderLoopResumes(s, a, b);
    }
  }

  lemma ReadBodyResumes(s: State, a: Bytes, b: Bytes)
    requires s.chunkOffset <= |a|
    ensures var (r, t, e) := ReadBody(s, a);
            if r == Again then
              && t.chunkOffset <= |a| && t.headerState == s.headerState && e == |a|
              && ReadBody(t, a) == (Again, t, |a|) && ReadBody(s, a + b) == ReadBody(t, a + b)
            else
              ReadBody(s, a + b) == if r == Done then (r, t, e) else (r, t, |a + b|)
  {
    if !KnownLength(s) && s.msg.chunked && !s.chunkState.ChunkComplete? {
      ChunkLoopResumes(s, a, b);
    }
  }

  /** An unfinished outcome is where reading goes on; any other outcome stands. */
  lemma OutcomeResumes(s: State, a: Bytes, b: Bytes)
    requires OffsetsOk(s, |a|)
    ensures var (r, t, e) := Outcome(s, a);
            if r == Again then
              && OffsetsOk(t, |a|) && e == |a|
              && Outcome(t, a) == (Again, t, |a|) && Outcome(s, a + b) == Outcome(t, a + b)
            else
              Outcome(s, a + b) == if r == Done then (r, t, e) else (r, t, |a + b|)
  {
    OutcomeOffsets(s, a);
    ReadHeaderOffsets(s, a);
    ReadHeaderResumes(s, a, b);
    var (r, t) := ReadHeader(s, a);
    if r == Done {
      ReadBodyResumes(t, a, b);
    }
  }

  // ---------- Calls ----------

  /** The parser: its state, `msgbuf[..msgsize]`, and whether the message is complete. */
  datatype Parser = Parser(state: State, buf: Bytes, complete: bool)

  /** Between calls nothing that is buffered can be read any further. */
  predicate Waiting(p: Parser)
  {
    !p.complete && OffsetsOk(p.state, |p.buf|) && Outcome(p.state, p.buf) == (Again, p.state, |p.buf|)
  }

  /** `http_parser_init`: a parser that waits for its first bytes. */
  function Fresh(isResp: bool): (p: Parser)
    ensures Waiting(p)
  {
    NothingToRead(Init(isResp));
    Parser(Init(isResp), [], false)
  }

  lemma NothingToRead(s: State)
    requires s.headerState.StartLine? && s.headerOffset == 0 && s.chunkOffset == 0
    ensures Outcome(s, []) == (Again, s, 0)
  {
    assert StartLineStep(s, []) == (Again, s);
    assert HeaderLoop(s, []) == (Again, s);
  }

  /** The parser and `*n` after a call that appended `n` bytes. */
  function Settle(x: (Ret, State, nat), buf: Bytes, n: nat): (Ret, Parser, nat)
    requires x.2 <= |buf|
  {
    if x.0 == Done then (Done, Parser(x.1, buf[..x.2], true), SizeT(n - (|buf| - x.2)))
    else (x.0, Parser(x.1, buf, false), n)
  }

  /** What every call needs; it also holds after a malformed message. */
  predicate Sane(p: Parser) { p.complete || OffsetsOk(p.state, |p.buf|) }

  /** `http_parser_append_message`: return code, new state, and the new `*n`. */
  function Append(p: Parser, data: Bytes): (Ret, Parser, nat)
    requires Sane(p)
  {
    if p.complete then (Done, p, 0)
    else
      var buf := p.buf + data;
      OutcomeOffsets(p.state, buf);
      Settle(Outcome(p.state, buf), buf, |data|)
  }

  /** After any verdict another call may follow; without one, nothing is lost of the bytes,
      and a complete message does not change any more. */
  lemma AppendKeepsSane(p: Parser, data: Bytes)
    requires Sane(p)
    ensures var (r, q, n) := Append(p, data);
            && Sane(q) && (q.complete <==> r == Done)
            && (r != Done ==> q.buf == p.buf + data && n == |data|)
            && (p.complete ==> r == Done && q == p && n == 0)
  {
    if !p.complete { OutcomeOffsets(p.state, p.buf + data); }
  }

  /** A call leaves a parser that waits for more, or is complete, or is malformed. */
  lemma AppendKeepsWaiting(p: Parser, data: Bytes)
    requires Waiting(p)
    ensures var (r, q, n) := Append(p, data);
            && (r == Again ==> Waiting(q) && q.buf == p.buf + data && n == |data|)
            && (r == Done ==> q.complete && q.buf <= p.buf + data)
  {
    OutcomeResumes(p.state, p.buf + data, []);
  }

  // ---------- Where the input is cut does not matter ----------

  /** Same outcome; after a malformed message the buffered bytes are not compared. */
  predicate Same(a: (Ret, Parser, nat), b: (Ret, Parser, nat))
  {
    && a.0 == b.0 && a.1.state == b.1.state && a.1.complete == b.1.complete
    && (a.0 != Malformed ==> a.1.buf == b.1.buf && SizeT(a.2) == SizeT(b.2))
  }

  /** The outcome with the bytes of an earlier call counted, too. */
  function Later(x: (Ret, Parser, nat), n: nat): (Ret, Parser, nat) { (x.0, x.1, x.2 + n) }

  lemma SizeTLater(x: int, n: int)
    ensures SizeT(SizeT(x) + n) == SizeT(SizeT(x + n))
  {
  }

  lemma SettleLater(x: (Ret, State, nat), buf: Bytes, m: nat, n: nat)
    requires x.2 <= |buf|
    ensures Same(Settle(x, buf, m + n), Later(Settle(x, buf, n), m))
  {
    var k := n - (|buf| - x.2);
    SizeTLater(k, m);
    assert m + n - (|buf| - x.2) == k + m;
  }

  lemma SettleSame(x: (Ret, State, nat), y: (Ret, State, nat), a: Bytes, b: Bytes, n: nat)
    requires x.0 != Again && x.2 <= |a| && y == if x.0 == Done then x else (x.0, x.1, |a + b|)
    ensures Same(Settle(y, a + b, n + |b|), Settle(x, a, n))
  {
    if x.0 == Done {
      assert (a + b)[..x.2] == a[..x.2];
      assert n + |b| - (|a + b| - x.2) == n - (|a| - x.2);
    }
  }

  lemma AppendGoesOn(p: Parser, a: Bytes, b: Bytes)
    requires Waiting(p) && Append(p, a).0 == Again
    ensures Waiting(Append(p, a).1) && Same(Append(p, a + b), Later(Append(Append(p, a).1, b), |a|))
  {
    hide Outcome;
    var buf := p.buf + a;
    AppendKeepsWaiting(p, a);
    OutcomeResumes(p.state, buf, b);
    OutcomeOffsets(p.state, buf + b);
    SettleLater(Outcome(p.state, buf + b), buf + b, |a|, |b|);
    assert p.buf + (a + b) == buf + b;
  }

  lemma AppendStands(p: Parser, a: Bytes, b: Bytes)
    requires Waiting(p) && Append(p, a).0 != Again
    ensures Same(Append(p, a + b), Append(p, a))
  {
    hide Outcome;
    var buf := p.buf + a;
    OutcomeResumes(p.state, buf, b);
    OutcomeOffsets(p.state, buf);
    SettleSame(Outcome(p.state, buf), Outcome(p.state, buf + b), buf, b, |a|);
    assert p.buf + (a + b) == buf + b;
  }

  /** Successive calls on the pieces, until the message is complete or malformed: last
      return code, state, and sum of the counts. */
  function Feed(p: Parser, pieces: seq<Bytes>): (Ret, Parser, nat)
    requires Waiting(p)
    decreases |pieces|
  {
    if pieces == [] then (Again, p, 0)
    else
      var x := Append(p, pieces[0]);
      AppendKeepsWaiting(p, pieces[0]);
      if x.0 != Again then x else Later(Feed(x.1, pieces[1..]), x.2)
  }

  function Concat(pieces: seq<Bytes>): Bytes
  {
    if pieces == [] then [] else pieces[0] + Concat(pieces[1..])
  }

  /** However a byte string is cut into pieces, feeding the pieces ends with the same
      verdict, headers, framing, body and consumed bytes as one call on the whole. */
  lemma {:induction false} SplitInvariance(p: Parser, pieces: seq<Bytes>)
    requires Waiting(p)
    ensures Same(Append(p, Concat(pieces)), Feed(p, pieces))
    decreases |pieces|
  {
    if pieces == [] {
      assert p.buf + [] == p.buf;
    } else {
      var a, b := pieces[0], Concat(pieces[1..]);
      var x := Append(p, a);
      if x.0 != Again {
        AppendStands(p, a, b);
      } else {
        AppendGoesOn(p, a, b);
        SplitInvariance(x.1, pieces[1..]);
        AppendKeepsWaiting(p, a);
        LaterSame(Append(x.1, b), Feed(x.1, pieces[1..]), |a|);
      }
    }
  }

  lemma LaterSame(x: (Ret, Parser, nat), y: (Ret, Parser, nat), n: nat)
    requires Same(x, y)
    ensures Same(Later(x, n), Later(y, n))
  {
    SizeTLater(x.2, n);
    SizeTLater(y.2, n);
  }

  // ---------- How many bytes are consumed ----------

  /** Where the message ends: behind as many bytes as were announced, or its trailer. */
  function MessageEnd(s: State): nat
  {
    if KnownLength(s) then s.headerOffset + s.msg.transferLength else s.chunkOffset
  }

  /** `*n` is the number of new bytes that belong to the message, they are all kept, the
      message ends with them, and both offsets are within it. */
  predicate ExactlyConsumed(p: Parser, data: Bytes)
    requires Waiting(p)
  {
    var (_, q, n) := Append(p, data);
    && 1 <= n <= |data| && q.buf == p.buf + data[..n] && |q.buf| == MessageEnd(q.state)
    && q.state.headerOffset <= |q.buf| && q.state.chunkOffset <= |q.buf|
  }

  /** A complete message ends among the new bytes, unless its length overflows. */
  lemma OutcomeReaches(s: State, a: Bytes, b: Bytes)
    requires OffsetsOk(s, |a|) && Outcome(s, a) == (Again, s, |a|) && Outcome(s, a + b).0 == Done
    ensures var (_, t, e) := Outcome(s, a + b);
            if KnownLength(t) then
              && e == Total(t) && t.chunkOffset <= t.headerOffset
              && (t.headerOffset + t.msg.transferLength < TWO_64 ==> e > |a|)
            else
              e == t.chunkOffset > |a| && t.headerOffset <= e
  {
    hide HeaderLoop, ChunkLoop;
    OutcomeOffsets(s, a + b);
    ReadHeaderOffsets(s, a + b);
    var (r, t) := ReadHeader(s, a + b);
    if !s.headerState.HeaderComplete? {
      if HeaderLoop(s, a).0 == Done {
        HeaderLoopResumes(s, a, b);
      } else {
        HeaderLoopReaches(s, a, b);
      }
      if !KnownLength(t) { ChunkLoopAdvances(t, a + b); }
    } else if !KnownLength(s) {
      ChunkLoopReaches(s, a, b);
    }
  }

  /** A completing call consumes exactly the message, unless adding the announced
      content length to the header's length overflows `size_t`. */
  lemma ExactConsumption(p: Parser, data: Bytes)
    requires Waiting(p) && |p.buf + data| < TWO_64
    requires Append(p, data).0 == Done
    ensures var s := Append(p, data).1.state;
            ExactlyConsumed(p, data) <==> (KnownLength(s) ==> s.headerOffset + s.msg.transferLength < TWO_64)
  {
    hide Outcome;
    OutcomeReaches(p.state, p.buf, data);
    OutcomeOffsets(p.state, p.buf + data);
    var (_, s, e) := Outcome(p.state, p.buf + data);
    if KnownLength(s) && s.headerOffset + s.msg.transferLength >= TWO_64 {
      Wraps(s.headerOffset, s.msg.transferLength);
    } else {
      assert (p.buf + data)[..e] == p.buf + data[..e - |p.buf|];
    }
  }

  lemma Wraps(x: nat, y: size_t)
    requires x < TWO_64 <= x + y
    ensures SizeT(x + y) < x
  {
    assert (x + y) % TWO_64 == x + y - TWO_64;
  }
}
