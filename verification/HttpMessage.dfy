/** `HttpMessage::encode` fills at most `max` vectors; when they run out, the rest of the
    body is merged into the last one. */
module HttpMessage {
  import opened Collections
  import opened CString
  import opened HttpSpec
  import opened HttpAppend
  import opened HttpEncode

  lemma {:induction false} ConcatJoins(a: seq<Bytes>, b: seq<Bytes>)
    ensures Concat(a + b) == Concat(a) + Concat(b)
    decreases |a|
  {
    if a == [] {
      assert a + b == b;
    } else {
      ConcatJoins(a[1..], b);
      assert (a + b)[1..] == a[1..] + b;
    }
  }

  lemma ConcatSnoc(a: seq<Bytes>, x: Bytes)
    ensures Concat(a + [x]) == Concat(a) + x
  {
    ConcatJoins(a, [x]);
    assert Concat([x]) == x;
  }

  lemma ConcatCons(x: Bytes, a: seq<Bytes>)
    ensures Concat([x] + a) == x + Concat(a)
  {
    assert ([x] + a)[1..] == a;
  }

  lemma ConcatEmpty()
    ensures Concat([]) == []
  {
  }

  lemma {:induction false} HeaderLinesSnoc(hs: seq<Header>, h: Header)
    ensures HeaderLines(hs + [h]) == HeaderLines(hs) + HeaderLine(h)
    decreases |hs|
  {
    hide HeaderLine;
    if hs == [] {
      assert hs + [h] == [h];
    } else {
      HeaderLinesSnoc(hs[1..], h);
      assert (hs + [h])[1..] == hs[1..] + [h];
    }
  }

  /** The three parts that `encode` takes from a parser, if they are set. */
  function StartOf(m: Message): Option<Start>
  {
    if m.method_.Some? then
      if m.uri.Some? && m.version.Some? then Some(Start(m.method_.value, m.uri.value, m.version.value)) else None
    else if m.version.Some? && m.code.Some? && m.phrase.Some? then
      Some(Start(m.version.value, m.code.value, m.phrase.value))
    else None
  }

  class HttpMessage {
    var msg: Message
    var outputBody: seq<Bytes>
    var outputBodySize: nat

    ghost predicate Valid()
      reads this
    {
      outputBodySize == |Concat(outputBody)|
    }

    constructor (msg: Message)
      ensures Valid() && this.msg == msg && Concat(outputBody) == []
    {
      this.msg, outputBody, outputBodySize := msg, [], 0;
    }

    method AppendOutputBody(buf: Bytes)
      requires Valid()
      modifies this`outputBody, this`outputBodySize
      ensures Valid() && Concat(outputBody) == old(Concat(outputBody)) + buf
    {
      ConcatSnoc(outputBody, buf);
      outputBody := outputBody + [buf];
      outputBodySize := outputBodySize + |buf|;
    }

    /** Replace the blocks from `pos` on by one block of `size` bytes. */
    method CombineFrom(pos: nat, size: nat)
      requires pos < |outputBody| && size == |Concat(outputBody[pos..])|
      modifies this`outputBody
      ensures outputBody == old(outputBody)[..pos] + [Concat(old(outputBody)[pos..])]
      ensures Concat(outputBody) == old(Concat(outputBody))
    {
      hide Concat;
      ghost var blocks := outputBody;
      var block := new byte[size];
      var ptr := 0;
      ghost var k := pos;
      ConcatEmpty();
      assert blocks[pos..pos] == [];
      while pos < |outputBody|
        invariant pos <= k <= |blocks| && outputBody == blocks[..pos] + blocks[k..]
        invariant ptr == |Concat(blocks[pos..k])| && block[..size] == block[..]
        invariant ptr + |Concat(blocks[k..])| == size
        invariant block[..ptr] == Concat(blocks[pos..k])
        decreases |outputBody|
      {
        var entry := outputBody[pos];
        assert entry == blocks[k] && blocks[k..] == [entry] + blocks[k + 1..];
        assert blocks[pos..k + 1] == blocks[pos..k] + [entry];
        ConcatSnoc(blocks[pos..k], entry);
        ConcatCons(entry, blocks[k + 1..]);
        outputBody := outputBody[..pos] + outputBody[pos + 1..];
        CopyTo(block, ptr, entry);
        ptr := ptr + |entry|;
        k := k + 1;
      }
      assert blocks[pos..k] == blocks[pos..] && blocks[k..] == [] && block[..ptr] == block[..];
      outputBody := outputBody + [block[..]];
      ConcatJoins(blocks[..pos], blocks[pos..]);
      assert blocks[..pos] + blocks[pos..] == blocks;
      ConcatSnoc(blocks[..pos], Concat(blocks[pos..]));
      assert outputBody == blocks[..pos] + [Concat(blocks[pos..])];
    }

    static method CopyTo(block: array<byte>, ptr: nat, entry: Bytes)
      requires ptr + |entry| <= block.Length
      modifies block
      ensures block[..ptr + |entry|] == old(block[..ptr]) + entry
    {
      var j := 0;
      while j < |entry|
        invariant j <= |entry| && block[..ptr + j] == old(block[..ptr]) + entry[..j]
      {
        block[ptr + j] := entry[j];
        j := j + 1;
      }
      assert entry[..j] == entry;
    }

    static method PutStartLine(vectors: array<Bytes>, l: Start)
      requires vectors.Length >= 6
      modifies vectors
      ensures Concat(vectors[..6]) == StartText(l)
    {
      vectors[0], vectors[1], vectors[2], vectors[3], vectors[4], vectors[5] :=
        l.first, [SP], l.second, [SP], l.third, CRLF;
      assert vectors[..6] == [l.first, [SP], l.second, [SP], l.third, CRLF];
      ConcatSix(l.first, [SP], l.second, [SP], l.third, CRLF);
    }

    static lemma ConcatSix(a: Bytes, b: Bytes, c: Bytes, d: Bytes, e: Bytes, f: Bytes)
      ensures Concat([a, b, c, d, e, f]) == a + b + c + d + e + f
    {
      ConcatSnoc([], a);
      ConcatSnoc([a], b);
      ConcatSnoc([a, b], c);
      ConcatSnoc([a, b, c], d);
      ConcatSnoc([a, b, c, d], e);
      ConcatSnoc([a, b, c, d, e], f);
      assert [a, b, c, d, e] + [f] == [a, b, c, d, e, f] && [a, b, c, d] + [e] == [a, b, c, d, e];
      assert [a, b, c] + [d] == [a, b, c, d] && [a, b] + [c] == [a, b, c] && [a] + [b] == [a, b] && [] + [a] == [a];
    }

    static method Put(vectors: array<Bytes>, i: nat, x: Bytes)
      requires i < vectors.Length
      modifies vectors
      ensures Concat(vectors[..i + 1]) == old(Concat(vectors[..i])) + x
    {
      vectors[i] := x;
      assert vectors[..i + 1] == old(vectors[..i]) + [x];
      ConcatSnoc(old(vectors[..i]), x);
    }

    /** One vector for each header, while there are vectors. */
    static method PutHeaders(vectors: array<Bytes>, headers: seq<Header>) returns (i: nat)
      requires vectors.Length >= 6
      modifies vectors
      ensures i == if 6 + |headers| <= vectors.Length then 6 + |headers| else vectors.Length
      ensures i == 6 + |headers| ==> Concat(vectors[..i]) == old(Concat(vectors[..6])) + HeaderLines(headers)
    {
      hide HeaderLine;
      i := 6;
      var next := 0;
      while next < |headers|
        invariant 0 <= next <= |headers| && i == 6 + next <= vectors.Length
        invariant Concat(vectors[..i]) == old(Concat(vectors[..6])) + HeaderLines(headers[..next])
      {
        if i == vectors.Length {
          break;
        }
        Put(vectors, i, HeaderLine(headers[next]));
        HeaderLinesSnoc(headers[..next], headers[next]);
        assert headers[..next] + [headers[next]] == headers[..next + 1];
        i := i + 1;
        next := next + 1;
      }
      assert headers[..|headers|] == headers;
    }

    /** The body blocks, from vector `start` on; the last vector takes all that is left. */
    method PutBody(vectors: array<Bytes>, start: nat) returns (i: nat)
      requires Valid() && start < vectors.Length
      modifies vectors, this`outputBody
      ensures Valid() && Concat(outputBody) == old(Concat(outputBody))
      ensures i <= vectors.Length && Concat(vectors[..i]) == old(Concat(vectors[..start])) + Concat(outputBody)
    {
      i := start;
      var size, pos := outputBodySize, 0;
      assert outputBody[0..] == outputBody;
      while pos < |outputBody|
        invariant 0 <= pos <= |outputBody| && start <= i <= vectors.Length && (pos < |outputBody| ==>
                  i < vectors.Length)
        invariant size == |Concat(outputBody[pos..])| && Valid()
        invariant Concat(outputBody) == old(Concat(outputBody))
        invariant Concat(vectors[..i]) == old(Concat(vectors[..start])) + Concat(outputBody[..pos])
        decreases |outputBody| - pos
      {
        if i + 1 == vectors.Length && pos != |outputBody| - 1 {
          CombineFrom(pos, size);
        }
        var block := outputBody[pos];
        assert outputBody[pos..] == [block] + outputBody[pos + 1..];
        assert outputBody[..pos + 1] == outputBody[..pos] + [block];
        ConcatSnoc(outputBody[..pos], block);
        Put(vectors, i, block);
        size := size - |block|;
        i, pos := i + 1, pos + 1;
      }
      assert outputBody[..pos] == outputBody;
    }

    /** The concatenated vectors are the message, whatever `max` is; the call fails only
        without a start line or without a vector for the body. */
    method Encode(vectors: array<Bytes>) returns (ret: int)
      requires Valid() && vectors.Length >= 6
      modifies vectors, this`outputBody
      ensures Valid() && Concat(outputBody) == old(Concat(outputBody))
      ensures ret == -1 <==> StartOf(msg).None? || 6 + |msg.headers| + 1 >= vectors.Length
      ensures ret != -1 ==>
              && 0 <= ret <= vectors.Length
              && Concat(vectors[..ret]) == Wire(StartOf(msg).value, msg.headers, Concat(outputBody))
    {
      hide StartText, HeaderLines;
      var l := StartOf(msg);
      if l.None? {
        return -1;
      }
      PutStartLine(vectors, l.value);
      var i := PutHeaders(vectors, msg.headers);
      if i + 1 >= vectors.Length {
        return -1;
      }
      Put(vectors, i, CRLF);
      ret := PutBody(vectors, i + 1);
    }
  }
}
