/** The parser object of `protocol/http_parser.c`: the scanning loops, with the fields
    they advance, proved to compute the functions of HttpSpec and HttpAppend. */
module HttpParser {
  import opened Collections
  import opened CString
  import opened HttpSpec
  import opened HttpAppend

  /** The text in a buffer up to its first NUL. */
  function CStr(p: Bytes): Bytes { p[..FirstOf(p, 0, |p|, NUL, NUL)] }

  lemma CStrIs(p: Bytes, k: nat)
    requires k < |p| && p[k] == NUL && forall j :: 0 <= j < k ==> p[j] != NUL
    ensures CStr(p) == p[..k]
  {
    FirstOfUnique(p, 0, |p|, NUL, NUL, k);
  }

  class HttpParser {
    var headerState: HeaderState
    var chunkState: ChunkState
    var headerOffset: nat
    var chunkOffset: nat
    var contentLength: size_t
    var transferLength: size_t
    var version: Option<Bytes>
    var method_: Option<Bytes>
    var uri: Option<Bytes>
    var code: Option<Bytes>
    var phrase: Option<Bytes>
    var headerList: seq<Header>
    const namebuf: array<byte>
    var msgbuf: Bytes
    var expectContinue: bool
    var keepAlive: bool
    var chunked: bool
    var complete: bool
    var isResp: bool

    ghost predicate Valid()
    {
      namebuf.Length == HEADER_NAME_MAX
    }

    ghost function Msg(): Message
      reads this
    {
      Message(contentLength, transferLength, version, method_, uri, code, phrase, headerList,
              expectContinue, keepAlive, chunked)
    }

    /** `namebuf` counts only while the value of its header is awaited. */
    ghost function State(): State
      reads this, namebuf
    {
      HttpSpec.State.State(headerState, chunkState, headerOffset, chunkOffset,
                           if headerState.HeaderValue? then CStr(namebuf[..]) else [], Msg(), isResp)
    }

    ghost function View(): Parser
      reads this, namebuf
    {
      Parser(State(), msgbuf, complete)
    }

    constructor (isResp: bool)
      ensures Valid() && fresh(namebuf) && View() == Fresh(isResp)
    {
      headerState, chunkState, headerOffset, chunkOffset := StartLine, ChunkData, 0, 0;
      transferLength, contentLength := SIZE_MAX, if isResp then SIZE_MAX else 0;
      version, method_, uri, code, phrase, headerList := None, None, None, None, None, [];
      namebuf, msgbuf := new byte[HEADER_NAME_MAX], [];
      expectContinue, keepAlive, chunked, complete := false, true, false, false;
      this.isResp := isResp;
    }

    method MatchStatusLine(a: Bytes, b: Bytes, c: Bytes)
      modifies this`keepAlive, this`transferLength, this`version, this`code, this`phrase
      ensures Msg() == HttpSpec.MatchStatusLine(old(Msg()), a, b, c)
    {
      if OldVersion(a) {
        keepAlive := false;
      }
      if (b != [] && b[0] == '1') || b == "204" || b == "304" {
        transferLength := 0;
      }
      version, code, phrase := Some(a), Some(b), Some(c);
    }

    method MatchRequestLine(a: Bytes, b: Bytes, c: Bytes)
      modifies this`keepAlive, this`version, this`method_, this`uri
      ensures Msg() == HttpSpec.MatchRequestLine(old(Msg()), a, b, c)
    {
      if OldVersion(c) {
        keepAlive := false;
      }
      method_, uri, version := Some(a), Some(b), Some(c);
    }

    method MatchStartLine(line: Bytes) returns (ok: bool)
      modifies this`keepAlive, this`transferLength, this`version, this`method_, this`uri, this`code, this`phrase
      ensures match HttpSpec.MatchStartLine(isResp, old(Msg()), line)
              case None => !ok && Msg() == old(Msg())
              case Some(m) => ok && Msg() == m
    {
      hide HttpSpec.MatchRequestLine, HttpSpec.MatchStatusLine;
      var p2 := FirstOf(line, 0, |line|, SP, SP);
      if p2 == |line| {
        return false;
      }
      var p3 := FirstOf(line, p2 + 1, |line|, SP, SP);
      if p3 == |line| {
        return false;
      }
      if isResp {
        MatchStatusLine(line[..p2], line[p2 + 1..p3], line[p3 + 1..]);
      } else {
        MatchRequestLine(line[..p2], line[p2 + 1..p3], line[p3 + 1..]);
      }
      return true;
    }

    method MatchMessageHeader(name: Bytes, value: Bytes)
      requires Valid()
      modifies this`expectContinue, this`keepAlive, this`contentLength, this`chunked, this`headerList
      ensures Msg() == MatchHeader(old(Msg()), name, value)
    {
      hide AtoiSize;
      if EqualsNoCase(name, "Expect") {
        if EqualsNoCase(value, "100-continue") {
          expectContinue := true;
        }
      } else if EqualsNoCase(name, "Connection") {
        if EqualsNoCase(value, "Keep-Alive") {
          keepAlive := true;
        } else if EqualsNoCase(value, "close") {
          keepAlive := false;
        }
      } else if EqualsNoCase(name, "Content-Length") {
        if value != [] && IsDigit(value[0]) {
          contentLength := AtoiSize(value);
        }
      } else if EqualsNoCase(name, "Transfer-Encoding") {
        if !EqualsNoCase(value, "identity") {
          chunked := true;
        }
      }
      headerList := headerList + [Header(name, value)];
    }

    /** Copy the start line until its end, a NUL or the limit. */
    static method ScanStartLine(p: Bytes) returns (i: nat, line: Bytes)
      ensures i == FirstOf(p, 0, START_LINE_MAX, CR, NUL) && line == p[..i]
    {
      var startLine := new byte[START_LINE_MAX];
      var min := if START_LINE_MAX <= |p| then START_LINE_MAX else |p|;
      i := 0;
      while i < min
        invariant i <= min && startLine[..i] == p[..i]
        invariant forall j :: 0 <= j < i ==> p[j] != CR && p[j] != NUL
      {
        startLine[i] := p[i];
        if startLine[i] == CR || startLine[i] == NUL {
          break;
        }
        i := i + 1;
      }
      FirstOfUnique(p, 0, START_LINE_MAX, CR, NUL, i);
      line := startLine[..i];
    }

    method ParseStartLine(p: Bytes) returns (ret: Ret)
      requires Valid() && headerState.StartLine?
      modifies this
      ensures (ret, State()) == StartLineStep(old(State()), p)
      ensures msgbuf == old(msgbuf) && complete == old(complete)
    {
      hide HttpSpec.MatchStartLine, CStr;
      if |p| >= 2 && p[0] == CR && p[1] == LF {
        headerOffset := headerOffset + 2;
        return Done;
      }
      var i, line := ScanStartLine(p);
      if i < |p| && i < START_LINE_MAX {
        if p[i] == NUL {
          return Malformed;
        }
        if i == |p| - 1 {
          return Again;
        }
        if p[i + 1] != LF {
          return Malformed;
        }
        var ok := MatchStartLine(line);
        if !ok {
          return Malformed;
        }
        headerOffset := headerOffset + i + 2;
        headerState := HeaderName;
        return Done;
      }
      ret := if i == START_LINE_MAX then Malformed else Again;
    }

    method ParseHeaderName(p: Bytes) returns (ret: Ret)
      requires Valid() && headerState.HeaderName?
      modifies this, namebuf
      ensures (ret, State()) == HeaderNameStep(old(State()), p)
      ensures msgbuf == old(msgbuf) && complete == old(complete)
    {
      hide CStr;
      if |p| >= 2 && p[0] == CR && p[1] == LF {
        headerOffset := headerOffset + 2;
        headerState := HeaderComplete;
        return Done;
      }
      var min := if HEADER_NAME_MAX <= |p| then HEADER_NAME_MAX else |p|;
      var i := 0;
      while i < min
        invariant i <= min && namebuf[..i] == p[..i]
        invariant forall j :: 0 <= j < i ==> p[j] != ':' && p[j] != NUL
        invariant State() == old(State()) && msgbuf == old(msgbuf) && complete == old(complete)
      {
        if p[i] == ':' {
          FirstOfUnique(p, 0, HEADER_NAME_MAX, ':', NUL, i);
          namebuf[i] := NUL;
          CStrIs(namebuf[..], i);
          assert namebuf[..][..i] == p[..i];
          headerOffset := headerOffset + i + 1;
          headerState := HeaderValue;
          return Done;
        }
        if p[i] == NUL {
          FirstOfUnique(p, 0, HEADER_NAME_MAX, ':', NUL, i);
          return Malformed;
        }
        namebuf[i] := p[i];
        i := i + 1;
      }
      FirstOfUnique(p, 0, HEADER_NAME_MAX, ':', NUL, i);
      ret := if i == HEADER_NAME_MAX then Malformed else Again;
    }

    static method SkipLeadingBlanks(p: Bytes) returns (ptr: nat)
      ensures ptr == SkipBlanks(p, 0)
    {
      ptr := 0;
      while ptr < |p| && IsBlank(p[ptr])
        invariant ptr <= |p| && forall j :: 0 <= j < ptr ==> IsBlank(p[j])
      {
        ptr := ptr + 1;
      }
      SkipBlanksUnique(p, 0, ptr);
    }

    /** Copy the value that starts at `k` up to its line end; each byte is looked at
        only once the next one has arrived. */
    static method CopyValue(p: Bytes, k: nat) returns (ret: Ret, i: nat, buf: array<byte>)
      requires k < |p|
      ensures var e := FirstOf(p, k, k + HEADER_VALUE_MAX, CR, NUL);
              if e == |p| || (e == |p| - 1 && e < k + HEADER_VALUE_MAX) then ret == Again
              else if e == k + HEADER_VALUE_MAX || p[e] == NUL then ret == Malformed
              else ret == Done && k + i == e && i < buf.Length && buf[..i] == p[k..e]
    {
      buf := new byte[HEADER_VALUE_MAX];
      i := 0;
      var ptr := k;
      while true
        invariant ptr == k + i < |p| && i <= HEADER_VALUE_MAX && buf[..i] == p[k..ptr]
        invariant forall j :: k <= j < ptr ==> p[j] != CR && p[j] != NUL
        decreases |p| - ptr
      {
        if i == HEADER_VALUE_MAX {
          FirstOfUnique(p, k, k + HEADER_VALUE_MAX, CR, NUL, ptr);
          return Malformed, i, buf;
        }
        buf[i] := p[ptr];
        ptr := ptr + 1;
        if ptr == |p| {
          FirstOfLast(p, k, k + HEADER_VALUE_MAX, CR, NUL);
          return Again, i, buf;
        }
        if buf[i] == CR || buf[i] == NUL {
          FirstOfUnique(p, k, k + HEADER_VALUE_MAX, CR, NUL, ptr - 1);
          return if buf[i] == CR then Done else Malformed, i, buf;
        }
        i := i + 1;
      }
    }

    /** With `Done`, `ptr` is behind the line end. */
    static method ScanValue(p: Bytes) returns (ret: Ret, ptr: nat, value: Bytes)
      ensures var k := SkipBlanks(p, 0);
              var i := FirstOf(p, k, k + HEADER_VALUE_MAX, CR, NUL);
              if i == |p| || (i == |p| - 1 && i < k + HEADER_VALUE_MAX) then ret == Again
              else if i == k + HEADER_VALUE_MAX || p[i] == NUL || p[i + 1] != LF then ret == Malformed
              else if i + 2 == |p| then ret == Again
              else ret == Done && ptr == i + 2 && value == TrimRight(p[k..i])
    {
      var k := SkipLeadingBlanks(p);
      if k == |p| {
        FirstOfUnique(p, k, k + HEADER_VALUE_MAX, CR, NUL, k);
        return Again, k, [];
      }
      var i, buf;
      ret, i, buf := CopyValue(p, k);
      ptr := k + i + 1;
      if ret != Done {
        return ret, ptr, [];
      }
      if p[ptr] != LF {
        return Malformed, ptr, [];
      }
      ptr := ptr + 1;
      if ptr == |p| {
        return Again, ptr, [];
      }
      value := TrimBuffer(buf, i);
    }

    static method TrimBuffer(buf: array<byte>, n: nat) returns (value: Bytes)
      requires n <= buf.Length
      ensures value == TrimRight(buf[..n])
    {
      var i := n;
      while i > 0 && IsBlank(buf[i - 1])
        invariant 0 <= i <= n && TrimRight(buf[..i]) == TrimRight(buf[..n])
      {
        assert buf[..i][..i - 1] == buf[..i - 1];
        i := i - 1;
      }
      value := buf[..i];
    }

    method ParseHeaderValue(p: Bytes) returns (ret: Ret)
      requires Valid() && headerState.HeaderValue?
      modifies this
      ensures (ret, State()) == HeaderValueStep(old(State()), p)
      ensures msgbuf == old(msgbuf) && complete == old(complete)
    {
      hide MatchHeader, CStr, SkipBlanks, FirstOf, TrimRight;
      var ptr, value;
      ret, ptr, value := ScanValue(p);
      if ret == Done {
        MatchMessageHeader(CStr(namebuf[..]), value);
        headerOffset := headerOffset + ptr;
        headerState := HeaderName;
      }
    }

    /** `__parse_message_header` */
    method ParseMessageHeader() returns (ret: Ret)
      requires Valid() && headerOffset <= |msgbuf| && !headerState.HeaderComplete?
      modifies this, namebuf
      ensures msgbuf == old(msgbuf) && complete == old(complete)
      ensures (ret, State()) == HeaderLoop(old(State()), msgbuf)
    {
      hide HeaderNameStep, HeaderValueStep, StartLineStep, CStr;
      while true
        invariant headerOffset <= |msgbuf| && !headerState.HeaderComplete?
        invariant msgbuf == old(msgbuf) && complete == old(complete)
        invariant HeaderLoop(State(), msgbuf) == HeaderLoop(old(State()), msgbuf)
        decreases |msgbuf| - headerOffset
      {
        var p := msgbuf[headerOffset..];
        HeaderStepAdvances(State(), p);
        if headerState.StartLine? {
          ret := ParseStartLine(p);
        } else if headerState.HeaderValue? {
          ret := ParseHeaderValue(p);
        } else {
          ret := ParseHeaderName(p);
          if headerState.HeaderComplete? {
            return Done;
          }
        }
        if ret != Done {
          return;
        }
      }
    }

    static method ScanTo(p: Bytes, max: nat) returns (i: nat)
      ensures i == FirstOf(p, 0, max, CR, CR)
    {
      var min := if max <= |p| then max else |p|;
      i := 0;
      while i < min
        invariant i <= min && forall j :: 0 <= j < i ==> p[j] != CR
      {
        if p[i] == CR {
          break;
        }
        i := i + 1;
      }
      FirstOfUnique(p, 0, max, CR, CR, i);
    }

    method ParseChunkData(p: Bytes) returns (ret: Ret)
      requires Valid()
      modifies this`chunkOffset, this`chunkState
      ensures (ret, State()) == ChunkDataStep(old(State()), p)
    {
      hide CStr, StrtolHex;
      var i := ScanTo(p, CHUNK_LINE_MAX);
      if i < CHUNK_LINE_MAX && i < |p| {
        if i == |p| - 1 {
          return Again;
        }
        if p[i + 1] != LF {
          return Malformed;
        }
        var (chunkSize, end) := StrtolHex(p[..i]);
        if end == 0 {
          return Malformed;
        }
        if chunkSize == 0 {
          chunkSize := i + 2;
          chunkState := TrailerPart;
        } else if SizeT(chunkSize) < CHUNK_SIZE_MAX {
          chunkSize := SizeT(chunkSize) + i + 4;
          if |p| < chunkSize {
            return Again;
          }
        } else {
          return Malformed;
        }
        chunkOffset := chunkOffset + chunkSize;
        return Done;
      }
      ret := if i == CHUNK_LINE_MAX then Malformed else Again;
    }

    method ParseTrailerPart(p: Bytes) returns (ret: Ret)
      requires Valid()
      modifies this`chunkOffset, this`chunkState
      ensures (ret, State()) == TrailerStep(old(State()), p)
    {
      hide CStr;
      var i := ScanTo(p, TRAILER_LINE_MAX);
      if i < TRAILER_LINE_MAX && i < |p| {
        if i == |p| - 1 {
          return Again;
        }
        if p[i + 1] != LF {
          return Malformed;
        }
        chunkOffset := chunkOffset + i + 2;
        if i == 0 {
          chunkState := ChunkComplete;
        }
        return Done;
      }
      ret := if i == TRAILER_LINE_MAX then Malformed else Again;
    }

    /** `__parse_chunk` */
    method ParseChunk() returns (ret: Ret)
      requires Valid() && chunkOffset <= |msgbuf| && !chunkState.ChunkComplete?
      modifies this`chunkOffset, this`chunkState
      ensures (ret, State()) == ChunkLoop(old(State()), msgbuf)
    {
      hide ChunkDataStep, TrailerStep, CStr;
      while true
        invariant chunkOffset <= |msgbuf| && !chunkState.ChunkComplete?
        invariant ChunkLoop(State(), msgbuf) == ChunkLoop(old(State()), msgbuf)
        decreases |msgbuf| - chunkOffset
      {
        var p := msgbuf[chunkOffset..];
        ChunkStepAdvances(State(), p);
        if chunkState.ChunkData? {
          ret := ParseChunkData(p);
        } else {
          ret := ParseTrailerPart(p);
          if chunkState.ChunkComplete? {
            return Done;
          }
        }
        if ret != Done {
          return;
        }
      }
    }

    /** The first half of `http_parser_append_message`. */
    method ReadHeaderPart() returns (ret: Ret)
      requires Valid() && headerOffset <= |msgbuf|
      modifies this, namebuf
      ensures msgbuf == old(msgbuf) && complete == old(complete)
      ensures (ret, State()) == ReadHeader(old(State()), msgbuf)
    {
      hide HeaderLoop, CStr;
      ret := Done;
      if !headerState.HeaderComplete? {
        ret := ParseMessageHeader();
        if ret != Done {
          return;
        }
        if chunked {
          chunkOffset := headerOffset;
          chunkState := ChunkData;
        } else if transferLength == SIZE_MAX {
          transferLength := contentLength;
        }
      }
    }

    /** The second half, with `n` bytes appended by this call. */
    method ReadBodyPart(size: nat) returns (ret: Ret, n: nat)
      requires Valid() && !complete && OffsetsOk(State(), |msgbuf|) && headerState.HeaderComplete?
      modifies this`chunkOffset, this`chunkState, this`msgbuf, this`complete
      ensures ReadBody(old(State()), old(msgbuf)).2 <= |old(msgbuf)|
      ensures (ret, View(), n) == Settle(ReadBody(old(State()), old(msgbuf)), old(msgbuf), size)
    {
      hide ChunkLoop, CStr;
      ReadBodyOffsets(State(), msgbuf);
      n := size;
      if transferLength != SIZE_MAX {
        var total := SizeT(headerOffset + transferLength);
        if |msgbuf| >= total {
          n := SizeT(n - (|msgbuf| - total));
          msgbuf := msgbuf[..total];
          complete := true;
          return Done, n;
        }
        return Again, n;
      }
      if !chunked {
        return Again, n;
      }
      if !chunkState.ChunkComplete? {
        ret := ParseChunk();
        if ret != Done {
          return;
        }
      }
      n := SizeT(n - (|msgbuf| - chunkOffset));
      msgbuf := msgbuf[..chunkOffset];
      complete := true;
      ret := Done;
    }

    /** `http_parser_append_message`: the code, and the new value of `*n`. */
    method AppendMessage(data: Bytes) returns (ret: Ret, n: nat)
      requires Valid() && Sane(View())
      modifies this, namebuf
      ensures (ret, View(), n) == Append(old(View()), data)
    {
      hide ReadHeader, ReadBody, CStr;
      if complete {
        return Done, 0;
      }
      OutcomeOffsets(State(), msgbuf + data);
      ReadHeaderOffsets(State(), msgbuf + data);
      msgbuf := msgbuf + data;
      ret := ReadHeaderPart();
      if ret != Done {
        return ret, |data|;
      }
      ret, n := ReadBodyPart(|data|);
    }
  }

  /** Nothing found before the last byte. */
  lemma FirstOfLast(p: Bytes, i: nat, lim: nat, a: byte, b: byte)
    requires i < |p| <= lim
    requires forall j :: i <= j < |p| - 1 ==> p[j] != a && p[j] != b
    ensures FirstOf(p, i, lim, a, b) >= |p| - 1
  {
  }
}
