/** The text of a message head, written down without the parser: empty lines, a start line,
    header lines with any blanks around their values, and an empty line.  The parser accepts
    exactly these texts and ends exactly at their end. */
module HttpHead {
  import opened Collections
  import opened CString
  import opened HttpSpec
  import opened HttpEncode
  import opened HttpFraming

  // ---------- The text ----------

  datatype Line = Line(header: Header, gaps: Gaps)
  {
    function Text(): Bytes { GappedLine(header, gaps) }

    predicate Ok() { GappedOk(header, gaps) }
  }

  function LinesText(ls: seq<Line>): Bytes
  {
    if ls == [] then [] else ls[0].Text() + LinesText(ls[1..])
  }

  predicate LinesOk(ls: seq<Line>) { forall i :: 0 <= i < |ls| ==> ls[i].Ok() }

  function HeadersOf(ls: seq<Line>): seq<Header>
  {
    if ls == [] then [] else [ls[0].header] + HeadersOf(ls[1..])
  }

  function EmptyLines(n: nat): Bytes { if n == 0 then [] else CRLF + EmptyLines(n - 1) }

  datatype HeadText = HeadText(empty: nat, start: Start, lines: seq<Line>)
  {
    function Text(): Bytes { EmptyLines(empty) + (StartText(start) + (LinesText(lines) + CRLF)) }

    predicate Ok() { StartOk(start) && LinesOk(lines) }
  }

  // ---------- A head is accepted ----------

  lemma {:induction false} LinesParse(s: State, buf: Bytes, ls: seq<Line>, rest: Bytes)
    requires s.headerOffset <= |buf| && s.headerState.HeaderName? && s.name == [] && LinesOk(ls)
    requires buf[s.headerOffset..] == LinesText(ls) + (CRLF + rest)
    ensures HeaderLoop(s, buf) ==
            (Done, s.(headerOffset := s.headerOffset + |LinesText(ls)| + 2, headerState := HeaderComplete,
                      msg := WithHeaders(s.msg, HeadersOf(ls))))
    decreases |ls|
  {
    hide MatchHeader, GappedLine, GappedOk, HeaderStep, HeaderLoop;
    if ls == [] {
      assert [] + (CRLF + rest) == CRLF + rest;
      LastLineParses(s, buf, rest);
    } else {
      var l, more := ls[0], LinesText(ls[1..]) + (CRLF + rest);
      Shift(l.Text(), LinesText(ls[1..]), CRLF + rest);
      HeaderParses(s, buf, l.header, l.gaps, more);
      var t := s.(headerOffset := s.headerOffset + |l.Text()|,
                  msg := MatchHeader(s.msg, l.header.name, l.header.value));
      LinesParse(t, buf, ls[1..], rest);
      HeadersNext(s.msg, ls);
    }
  }

  lemma HeadersNext(m: Message, ls: seq<Line>)
    requires ls != []
    ensures var h := ls[0].header;
            WithHeaders(m, HeadersOf(ls)) == WithHeaders(MatchHeader(m, h.name, h.value), HeadersOf(ls[1..]))
  {
    hide MatchHeader;
    assert HeadersOf(ls)[1..] == HeadersOf(ls[1..]);
  }

  /** Empty lines before the start line are skipped. */
  lemma {:induction false} EmptyLinesSkipped(s: State, buf: Bytes, n: nat, more: Bytes)
    requires s.headerOffset <= |buf| && s.headerState.StartLine? && buf[s.headerOffset..] == EmptyLines(n) + more
    ensures s.headerOffset + 2 * n <= |buf| && buf[s.headerOffset + 2 * n..] == more
    ensures HeaderLoop(s, buf) == HeaderLoop(s.(headerOffset := s.headerOffset + 2 * n), buf)
    decreases n
  {
    hide HeaderStep;
    if n > 0 {
      Shift(CRLF, EmptyLines(n - 1), more);
      Behind(buf, s.headerOffset, CRLF, EmptyLines(n - 1) + more);
      assert StartsWithCrLf(buf[s.headerOffset..]);
      SkipsEmpty(s, buf[s.headerOffset..]);
      EmptyLinesSkipped(s.(headerOffset := s.headerOffset + 2), buf, n - 1, more);
    } else {
      assert EmptyLines(0) + more == more;
    }
  }

  /** The parser accepts the text of a head, up to exactly its end and whatever follows, with
      the start line and the headers that it writes. */
  lemma HeadIsAccepted(isResp: bool, h: HeadText, rest: Bytes)
    requires h.Ok()
    ensures HeaderLoop(Init(isResp), h.Text() + rest) ==
            (Done, Init(isResp).(headerOffset := |h.Text()|, headerState := HeaderComplete,
                                 msg := WithHeaders(Started(isResp, h.start), HeadersOf(h.lines))))
  {
    hide HeaderStep, HeaderLoop, StartText, LinesText, LinesOk, StartOk, WithHeaders, Started, EmptyLines, HeadersOf;
    var s, buf := Init(isResp), h.Text() + rest;
    var e, l, ls := EmptyLines(h.empty), StartText(h.start), LinesText(h.lines);
    EmptyLinesLength(h.empty);
    assert buf[0..] == buf == e + (l + (ls + (CRLF + rest)));
    EmptyLinesSkipped(s, buf, h.empty, l + (ls + (CRLF + rest)));
    var t := s.(headerOffset := 2 * h.empty);
    StartLineTurn(t, buf, h.start, ls + (CRLF + rest));
    var u := t.(headerOffset := t.headerOffset + |l|, headerState := HeaderName, msg := Started(isResp, h.start));
    LinesParse(u, buf, h.lines, rest);
  }

  lemma {:induction false} EmptyLinesLength(n: nat)
    ensures |EmptyLines(n)| == 2 * n
  {
    if n > 0 { EmptyLinesLength(n - 1); }
  }

  lemma StartLineTurn(s: State, buf: Bytes, l: Start, more: Bytes)
    requires StartOk(l) && s.headerState.StartLine? && s.msg == Init(s.isResp).msg
    requires s.headerOffset <= |buf| && buf[s.headerOffset..] == StartText(l) + more
    ensures var t := s.(headerOffset := s.headerOffset + |StartText(l)|, headerState := HeaderName,
                        msg := Started(s.isResp, l));
            t.headerOffset <= |buf| && buf[t.headerOffset..] == more && HeaderLoop(s, buf) == HeaderLoop(t, buf)
  {
    hide HeaderStep, StartText, StartOk, Started;
    StartLineParses(s, l, more);
    Behind(buf, s.headerOffset, StartText(l), more);
  }

  // ---------- What is accepted is a head ----------

  lemma StartLineFound(s: State, p: Bytes) returns (l: Start, rest: Bytes)
    requires s.headerState.StartLine? && HeaderStep(s, p).0 == Done && !StartsWithCrLf(p)
    ensures StartOk(l) && p == StartText(l) + rest
    ensures HeaderStep(s, p).1.headerOffset == s.headerOffset + |StartText(l)|
    ensures HeaderStep(s, p).1.headerState.HeaderName? && HeaderStep(s, p).1.name == s.name
  {
    hide MatchStatusLine, MatchRequestLine, SplitStartLine;
    var i := FirstOf(p, 0, START_LINE_MAX, CR, NUL);
    FoundIsCut(p[..i]);
    var (a, b, c) := SplitStartLine(p[..i]).value;
    l, rest := Start(a, b, c), p[i + 2..];
    assert p[..i] == LineText(l);
    assert p == LineText(l) + CRLF + rest;
    NoneIn(a + [SP], b, [SP] + c, p[..i]);
    hide LineText;
  }

  lemma NoneIn(a: Bytes, b: Bytes, c: Bytes, line: Bytes)
    requires a != [] && c != [] && line == a + b + c && NoneOf(line, CR, NUL)
    ensures NoneOf(a[..|a| - 1], CR, NUL) && NoneOf(b, CR, NUL) && NoneOf(c[1..], CR, NUL)
  {
    assert forall j :: 0 <= j < |a| ==> line[j] == a[j];
    assert forall j :: 0 <= j < |b| ==> line[|a| + j] == b[j];
    assert forall j :: 0 <= j < |c| ==> line[|a| + |b| + j] == c[j];
  }

  lemma NameFound(s: State, p: Bytes)
    requires s.headerState.HeaderName? && HeaderStep(s, p).0 == Done && !StartsWithCrLf(p)
    ensures var (u, i) := (HeaderStep(s, p).1, |HeaderStep(s, p).1.name|);
            && u == s.(headerOffset := s.headerOffset + i + 1, headerState := HeaderValue, name := u.name)
            && NameOk(u.name) && i < |p| && p == u.name + [':'] + p[i + 1..]
  {
    var i := FirstOf(p, 0, HEADER_NAME_MAX, ':', NUL);
    assert p == p[..i] + [p[i]] + p[i + 1..];
    NotCrLf(p, i);
  }

  lemma NotCrLf(p: Bytes, i: nat)
    requires i <= |p|
    ensures CRLF <= p[..i] ==> StartsWithCrLf(p)
  {
  }

  lemma ValueFound(s: State, p: Bytes) returns (v: Bytes, g: Gaps)
    requires s.headerState.HeaderValue? && HeaderStep(s, p).0 == Done && NameOk(s.name)
    ensures var (u, n) := (HeaderStep(s, p).1, |g.lead| + |v| + |g.trail| + 2);
            && GappedOk(Header(s.name, v), g) && n <= |p| && p == g.lead + v + g.trail + CRLF + p[n..]
            && u.headerOffset == s.headerOffset + n && u.headerState.HeaderName? && u.name == []
  {
    hide MatchHeader, NameOk, SkipBlanks, FirstOf, TrimRight, GappedOk;
    var k := SkipBlanks(p, 0);
    var i := FirstOf(p, k, k + HEADER_VALUE_MAX, CR, NUL);
    v := TrimRight(p[k..i]);
    g := Gaps(p[..k], p[k + |v|..i]);
    ValueCut(p, k, i, v);
    ValueFits(s.name, p, k, i);
  }

  /** What is trimmed has no blank at its ends. */
  lemma ValueFits(name: Bytes, p: Bytes, k: nat, i: nat)
    requires NameOk(name) && k == SkipBlanks(p, 0) <= i < |p| && i < k + HEADER_VALUE_MAX
    requires forall j :: k <= j < i ==> p[j] != CR && p[j] != NUL
    ensures var v := TrimRight(p[k..i]); GappedOk(Header(name, v), Gaps(p[..k], p[k + |v|..i]))
  {
    hide NameOk, SkipBlanks, TrimRight;
    var w, v := p[k..i], TrimRight(p[k..i]);
    var trail := p[k + |v|..i];
    forall j | 0 <= j < |trail| ensures IsBlank(trail[j]) { assert trail[j] == w[|v| + j]; }
    forall j | 0 <= j < |v| ensures v[j] == p[k + j] { assert v[j] == w[j]; }
    assert v == [] ==> trail == w;
    assert w != [] ==> w[0] == p[k];
  }

  lemma ValueCut(p: Bytes, k: nat, i: nat, v: Bytes)
    requires k <= i && i + 2 <= |p| && v <= p[k..i] && p[i] == CR && p[i + 1] == LF
    ensures p == p[..k] + v + p[k + |v|..i] + CRLF + p[i + 2..]
  {
    assert v == p[k..k + |v|];
  }

  /** Header lines, read from what follows the start line. */
  lemma {:induction false} LinesFound(s: State, buf: Bytes) returns (ls: seq<Line>, rest: Bytes)
    requires s.headerOffset <= |buf| && s.headerState.HeaderName? && s.name == [] && HeaderLoop(s, buf).0 == Done
    ensures LinesOk(ls) && buf[s.headerOffset..] == LinesText(ls) + (CRLF + rest)
    decreases |buf| - s.headerOffset
  {
    hide HeaderStep, GappedOk, GappedLine, NameOk, LinesText, LinesOk, Line.Text, Line.Ok;
    var p := buf[s.headerOffset..];
    if StartsWithCrLf(p) {
      ls, rest := [], p[2..];
      NoLines(p);
    } else {
      HeaderStepAdvances(s, p);
      NoEnd(s, p);
      NameFound(s, p);
      var u := HeaderStep(s, p).1;
      var q := buf[u.headerOffset..];
      assert q == p[|u.name| + 1..];
      HeaderStepAdvances(u, q);
      var v, g := ValueFound(u, q);
      var w := HeaderStep(u, q).1;
      var l := Line(Header(u.name, v), g);
      var us;
      us, rest := LinesFound(w, buf);
      ls := [l] + us;
      MoreLines(l, us);
      assert buf[w.headerOffset..] == q[w.headerOffset - u.headerOffset..];
      LineFound(p, q, l, LinesText(us), rest);
    }
  }

  lemma NoLines(p: Bytes)
    requires StartsWithCrLf(p)
    ensures LinesOk([]) && p == LinesText([]) + (CRLF + p[2..])
  {
  }

  lemma MoreLines(l: Line, us: seq<Line>)
    ensures LinesText([l] + us) == l.Text() + LinesText(us)
    ensures l.Ok() && LinesOk(us) ==> LinesOk([l] + us)
    ensures l.Ok() <==> GappedOk(l.header, l.gaps)
  {
    hide GappedOk, GappedLine;
    assert ([l] + us)[1..] == us;
  }

  lemma NoEnd(s: State, p: Bytes)
    requires s.headerState.HeaderName? && !StartsWithCrLf(p)
    ensures !HeaderStep(s, p).1.headerState.HeaderComplete?
  {
  }

  lemma LineFound(p: Bytes, q: Bytes, l: Line, more: Bytes, rest: Bytes)
    requires p == l.header.name + [':'] + q
    requires q == l.gaps.lead + l.header.value + l.gaps.trail + CRLF + (more + (CRLF + rest))
    ensures p == l.Text() + more + (CRLF + rest)
  {
    var a, b := l.header.name + [':'], l.gaps.lead + l.header.value + l.gaps.trail + CRLF;
    Shift(a, b, more);
    Shift(a, b, more + (CRLF + rest));
    Shift(a + b, more, CRLF + rest);
  }

  /** Whatever the parser accepts as a head starts with the text of one. */
  lemma {:induction false} HeadFound(s: State, buf: Bytes) returns (h: HeadText, rest: Bytes)
    requires s.headerOffset <= |buf| && s.headerState.StartLine? && s.name == [] && HeaderLoop(s, buf).0 == Done
    ensures h.Ok() && buf[s.headerOffset..] == h.Text() + rest
    decreases |buf| - s.headerOffset
  {
    hide HeaderStep, StartText, StartOk, LinesOk, LinesText;
    var p := buf[s.headerOffset..];
    HeaderStepAdvances(s, p);
    var u := HeaderStep(s, p).1;
    if StartsWithCrLf(p) {
      SkipsEmpty(s, p);
      h, rest := HeadFound(u, buf);
      assert p == CRLF + buf[u.headerOffset..];
      h := OneMoreEmpty(h, rest);
    } else {
      var l, more := StartLineFound(s, p);
      Behind(buf, s.headerOffset, StartText(l), more);
      var ls;
      ls, rest := LinesFound(u, buf);
      h := HeadText(0, l, ls);
      NoEmpty(h, rest);
    }
  }

  lemma SkipsEmpty(s: State, p: Bytes)
    requires s.headerState.StartLine? && StartsWithCrLf(p)
    ensures HeaderStep(s, p) == (Done, s.(headerOffset := s.headerOffset + 2))
  {
  }

  lemma OneMoreEmpty(h: HeadText, rest: Bytes) returns (k: HeadText)
    requires h.Ok()
    ensures k.Ok() && k.Text() + rest == CRLF + (h.Text() + rest)
  {
    hide StartText, StartOk, LinesOk, LinesText;
    k := h.(empty := h.empty + 1);
    var more := StartText(h.start) + (LinesText(h.lines) + CRLF);
    Shift(CRLF, EmptyLines(h.empty), more);
    Shift(CRLF, h.Text(), rest);
  }

  lemma NoEmpty(h: HeadText, rest: Bytes)
    requires h.empty == 0
    ensures h.Text() + rest == StartText(h.start) + (LinesText(h.lines) + (CRLF + rest))
  {
    hide StartText, LinesText;
    var a, b := StartText(h.start), LinesText(h.lines);
    assert [] + (a + (b + CRLF)) + rest == a + (b + (CRLF + rest));
  }
}
