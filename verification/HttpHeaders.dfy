/** The header lines of `protocol/http_parser.c`: each keeps its text in one buffer, which
    `http_parser_set_header` overwrites in place while the new value fits. */
module HttpHeaders {
  import opened Collections
  import opened CString
  import opened HttpSpec
  import opened HttpEncode

  // ---------- Headers by name ----------

  predicate Named(h: Header, name: Bytes) { EqualsNoCase(h.name, name) }

  /** The first header with the name, or the number of headers. */
  function Place(hs: seq<Header>, name: Bytes): (i: nat)
    ensures i <= |hs|
  {
    if hs == [] || Named(hs[0], name) then 0 else 1 + Place(hs[1..], name)
  }

  lemma {:induction false} PlaceIs(hs: seq<Header>, name: Bytes)
    ensures forall j :: 0 <= j < Place(hs, name) ==> !Named(hs[j], name)
    ensures Place(hs, name) < |hs| ==> Named(hs[Place(hs, name)], name)
  {
    if hs != [] && !Named(hs[0], name) {
      PlaceIs(hs[1..], name);
      assert forall j :: 0 < j < |hs| ==> hs[j] == hs[1..][j - 1];
    }
  }

  lemma {:induction false} PlaceUnique(hs: seq<Header>, name: Bytes, i: nat)
    requires i <= |hs| && (forall j :: 0 <= j < i ==> !Named(hs[j], name)) && (i < |hs| ==> Named(hs[i], name))
    ensures Place(hs, name) == i
  {
    if i > 0 {
      assert forall j :: 0 < j < |hs| ==> hs[j] == hs[1..][j - 1];
      PlaceUnique(hs[1..], name, i - 1);
    }
  }

  /** A longer value brings the new spelling of the name; otherwise the old one stays. */
  function Overwritten(h: Header, name: Bytes, value: Bytes): Header
  {
    Header(if |value| > |h.value| then name else h.name, value)
  }

  function WithHeader(hs: seq<Header>, name: Bytes, value: Bytes): seq<Header>
  {
    var i := Place(hs, name);
    if i == |hs| then hs + [Header(name, value)] else hs[i := Overwritten(hs[i], name, value)]
  }

  function Lookup(hs: seq<Header>, name: Bytes): Option<Bytes>
  {
    var i := Place(hs, name);
    if i == |hs| then None else Some(hs[i].value)
  }

  /** Setting a header is seen under every spelling of its name, and under no other. */
  lemma SetThenFind(hs: seq<Header>, name: Bytes, value: Bytes, asked: Bytes)
    ensures Lookup(WithHeader(hs, name, value), asked) ==
            if EqualsNoCase(name, asked) then Some(value) else Lookup(hs, asked)
  {
    var us, i, k := WithHeader(hs, name, value), Place(hs, name), Place(hs, asked);
    PlaceIs(hs, name);
    PlaceIs(hs, asked);
    if EqualsNoCase(name, asked) {
      assert forall h :: Named(h, name) <==> Named(h, asked);
      PlaceUnique(us, asked, i);
    } else if i == |hs| && k == |hs| {
      PlaceUnique(us, asked, |us|);
    } else {
      PlaceUnique(us, asked, k);
    }
  }

  // ---------- Lines and their buffers ----------

  class Line {
    var buf: array<byte>
    var nameLen: nat
    var valueLen: nat

    ghost predicate Valid()
      reads this, buf
    {
      && nameLen + valueLen + 4 <= buf.Length
      && buf[nameLen] == ':' && buf[nameLen + 1] == SP
      && buf[nameLen + 2 + valueLen] == CR && buf[nameLen + 3 + valueLen] == LF
    }

    ghost function Content(): (h: Header)
      requires Valid()
      reads this, buf
      ensures |h.name| == nameLen
    {
      Header(buf[..nameLen], buf[nameLen + 2..nameLen + 2 + valueLen])
    }

    /** What `encode` takes from the buffer is the text of the header. */
    lemma TextOf()
      requires Valid()
      ensures buf[..nameLen + valueLen + 4] == HeaderLine(Content())
    {
      var t := buf[..];
      assert t[..nameLen + valueLen + 4] ==
             t[..nameLen] + [':', SP] + t[nameLen + 2..nameLen + 2 + valueLen] + [CR, LF];
      assert buf[..nameLen + valueLen + 4] == t[..nameLen + valueLen + 4] && buf[..nameLen] == t[..nameLen];
    }

    constructor (name: Bytes, value: Bytes)
      ensures Valid() && fresh(buf) && Content() == Header(name, value)
    {
      buf, nameLen, valueLen := new byte[|name| + |value| + 4], |name|, |value|;
      new;
      CopyTo(buf, 0, name);
      buf[|name|], buf[|name| + 1] := ':', SP;
      CopyTo(buf, |name| + 2, value);
      buf[|name| + 2 + |value|], buf[|name| + 3 + |value|] := CR, LF;
      assert buf[..|name|] == name && buf[|name| + 2..|name| + 2 + |value|] == value;
    }

    /** A buffer for a longer value. */
    method NewBuffer(name: Bytes, size: nat)
      requires |name| == nameLen
      modifies this`buf
      ensures fresh(buf) && buf.Length == |name| + size + 4
      ensures buf[..nameLen] == name && buf[nameLen] == ':' && buf[nameLen + 1] == SP
    {
      buf := new byte[|name| + size + 4];
      CopyTo(buf, 0, name);
      buf[|name|], buf[|name| + 1] := ':', SP;
    }

    /** The new value, behind the name that the buffer has. */
    method WriteValue(value: Bytes)
      requires nameLen + |value| + 4 <= buf.Length && buf[nameLen] == ':' && buf[nameLen + 1] == SP
      modifies this`valueLen, buf
      ensures Valid() && Content() == Header(old(buf[..nameLen]), value)
    {
      CopyTo(buf, nameLen + 2, value);
      buf[nameLen + 2 + |value|], buf[nameLen + 3 + |value|] := CR, LF;
      valueLen := |value|;
      assert buf[nameLen + 2..nameLen + 2 + valueLen] == value;
      assert buf[..nameLen] == old(buf[..nameLen]);
    }

    /** The part of `http_parser_set_header` for the line with the name. */
    method SetValue(name: Bytes, value: Bytes)
      requires Valid() && |name| == nameLen
      modifies this, buf
      ensures Valid() && Content() == Overwritten(old(Content()), name, value)
      ensures if |value| <= old(valueLen) then buf == old(buf) && Content().name == old(Content().name)
              else fresh(buf) && Content().name == name
    {
      if |value| > valueLen {
        NewBuffer(name, |value|);
      }
      WriteValue(value);
    }
  }

  method CopyTo(buf: array<byte>, at: nat, src: Bytes)
    requires at + |src| <= buf.Length
    modifies buf
    ensures forall i :: 0 <= i < buf.Length ==> buf[i] == if at <= i < at + |src| then src[i - at] else old(buf[i])
  {
    forall i | 0 <= i < |src| {
      buf[at + i] := src[i];
    }
  }

  ghost function Contents(lines: seq<Line>): (hs: seq<Header>)
    requires forall l <- lines :: l.Valid()
    reads set l | l in lines, set l | l in lines :: l.buf
    ensures |hs| == |lines| && forall i :: 0 <= i < |hs| ==> hs[i] == lines[i].Content()
  {
    if lines == [] then [] else [lines[0].Content()] + Contents(lines[1..])
  }

  class HeaderList {
    var lines: seq<Line>

    ghost predicate Valid()
      reads this, set l | l in lines, set l | l in lines :: l.buf
    {
      && (forall i :: 0 <= i < |lines| ==> lines[i].Valid())
      && forall i, j :: 0 <= i < j < |lines| ==> lines[i] != lines[j] && lines[i].buf != lines[j].buf
    }

    ghost function Headers(): (hs: seq<Header>)
      requires Valid()
      reads this, set l | l in lines, set l | l in lines :: l.buf
      ensures |hs| == |lines| && forall i :: 0 <= i < |hs| ==> hs[i] == lines[i].Content()
    {
      Contents(lines)
    }

    /** The lines are those of before, and new ones behind them; each has the buffer that it
        had, or a new one. */
    twostate predicate Grown()
      reads this, set l | l in lines
    {
      && |old(lines)| <= |lines|
      && forall i :: 0 <= i < |lines| ==>
           if i < |old(lines)| then
             lines[i] == old(lines)[i] && (lines[i].buf == old(lines[i].buf) || fresh(lines[i].buf))
           else
             fresh(lines[i]) && fresh(lines[i].buf)
    }

    constructor ()
      ensures Valid() && Headers() == [] && lines == []
    {
      lines := [];
    }

    /** `http_parser_add_header` */
    method AddHeader(name: Bytes, value: Bytes)
      requires Valid()
      modifies this
      ensures Valid() && Headers() == old(Headers()) + [Header(name, value)]
      ensures Grown() && |lines| == |old(lines)| + 1
    {
      hide Line.Valid, Line.Content, Contents;
      var line := new Line(name, value);
      assert forall i :: 0 <= i < |lines| ==> old(lines[i].Valid()) && lines[i] != line && lines[i].buf != line.buf;
      lines := lines + [line];
    }

    method Overwrite(pos: nat, name: Bytes, value: Bytes)
      requires Valid() && pos < |lines| && lines[pos].nameLen == |name|
      modifies lines[pos], lines[pos].buf
      ensures Valid() && Headers() == old(Headers())[pos := Overwritten(old(Headers())[pos], name, value)]
      ensures lines[pos].buf == old(lines[pos].buf) || fresh(lines[pos].buf)
    {
      hide Line.Valid, Line.Content, Contents;
      lines[pos].SetValue(name, value);
      forall i | 0 <= i < |lines| && i != pos
        ensures lines[i].Valid() && lines[i].Content() == old(lines[i].Content())
      {
        assert old(lines[i].Valid()) && lines[i] != lines[pos] && old(lines[i].buf) != old(lines[pos].buf);
      }
    }

    /** `http_parser_set_header` */
    method SetHeader(name: Bytes, value: Bytes)
      requires Valid()
      modifies this, set l | l in lines, set l | l in lines :: l.buf
      ensures Valid() && Headers() == WithHeader(old(Headers()), name, value)
      ensures Grown()
      ensures |lines| == if Place(old(Headers()), name) < |old(lines)| then |old(lines)| else |old(lines)| + 1
    {
      hide Line.Valid, Line.Content, Contents;
      var pos := Find(name, 0);
      assert Headers()[0..] == Headers();
      PlaceIs(Headers(), name);
      if pos < |lines| {
        Overwrite(pos, name, value);
      } else {
        AddHeader(name, value);
      }
    }

    /** `http_header_cursor_find`: the next line with the name, from a position on. */
    method Find(name: Bytes, start: nat) returns (pos: nat)
      requires Valid() && start <= |lines|
      ensures start <= pos <= |lines| && pos - start == Place(Headers()[start..], name)
    {
      hide Contents;
      pos := start;
      while pos < |lines|
        invariant start <= pos <= |lines|
        invariant forall j :: start <= j < pos ==> !Named(Headers()[j], name)
      {
        var line := lines[pos];
        if line.nameLen == |name| && EqualsNoCase(line.buf[..line.nameLen], name) {
          break;
        }
        pos := pos + 1;
      }
      PlaceUnique(Headers()[start..], name, pos - start);
    }
  }
}
