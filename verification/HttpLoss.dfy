/** What `recv` makes of input that ends early or is no response: nothing is decided before it is there. */
module HttpLoss {
  import opened HttpFraming
  import opened HttpSpec
  import opened Octets
  import opened Options
  import opened Text

  // ---- What has been received stays received, whatever comes behind it ----

  lemma {:induction false} HeadStable(h: Head, input: Bytes, more: Bytes)
    ensures match ReadHead(h, input)
            case HeadDone(done, rest) => ReadHead(h, input + more) == HeadDone(done, rest + more)
            case HeadFailed(error, fields, rest) =>
              if error == ConnectionLost then rest == [] else ReadHead(h, input + more) == HeadFailed(error, fields, rest + more)
    decreases |input|, 0
  {
    if input != [] {
      var b, rest := input[0], input[1..];
      assert (input + more)[0] == b && (input + more)[1..] == rest + more;
      if b == CR {
        HeadStable(h, rest, more);
      } else if b != LF {
        HeadStable(h.(line := h.line + [b]), rest, more);
      } else {
        LineStable(h, rest, more);
      }
    }
  }

  // Behind a line feed.
  lemma {:induction false} LineStable(h: Head, rest: Bytes, more: Bytes)
    ensures match ReadHead(h, [LF] + rest)
            case HeadDone(done, left) => ReadHead(h, [LF] + (rest + more)) == HeadDone(done, left + more)
            case HeadFailed(error, fields, left) =>
              if error == ConnectionLost then left == []
              else ReadHead(h, [LF] + (rest + more)) == HeadFailed(error, fields, left + more)
    decreases |rest|, 1
  {
    assert ([LF] + rest)[1..] == rest && ([LF] + (rest + more))[1..] == rest + more;
    if h.line == [] {
      HeadStable(h.(status := 0), rest, more);
    } else if h.status == 0 {
      if StatusOf(h.line).Some? {
        HeadStable(h.(status := StatusOf(h.line).value, line := []), rest, more);
      }
    } else {
      HeadStable(if h.status != 100 then OnHeaderLine(h, h.line).(line := []) else h.(line := []), rest, more);
    }
  }

  // A body that is complete stays as it is; one that is not goes on with what comes.
  predicate Continues(body: Body, longer: Body, more: Bytes) {
    var continues :=
      if body.complete then longer == body.(rest := body.rest + more) else body.rest == [] && body.data <= longer.data;
    continues
  }

  lemma CopyStable(n: int, input: Bytes, more: Bytes)
    ensures Continues(Copy(n, input), Copy(n, input + more), more)
  {
    if 0 < n <= |input| {
      assert (input + more)[..n] == input[..n] && (input + more)[n..] == input[n..] + more;
    }
  }

  lemma {:induction false} ChunksStable(size: int, input: Bytes, more: Bytes)
    ensures Continues(Chunks(size, input), Chunks(size, input + more), more)
    decreases |input|
  {
    if input != [] {
      var b, rest := input[0], input[1..];
      assert (input + more)[0] == b && (input + more)[1..] == rest + more;
      if b != LF {
        ChunksStable(if size < 0 then size else NextSize(size, b), rest, more);
      } else if size <= 0 {
        ChunksStable(if size == 0 then -2 else 0, rest, more);
      } else {
        CopyStable(size, rest, more);
        var chunk := Copy(size, rest);
        if chunk.complete {
          ChunksStable(-1, chunk.rest, more);
          ChunkGoesOn(chunk.data, Chunks(-1, chunk.rest), Chunks(-1, chunk.rest + more), more);
        } else {
          ChunkCutOff(size, rest, more);
        }
      }
    }
  }

  lemma ChunkGoesOn(data: Bytes, body: Body, longer: Body, more: Bytes)
    requires Continues(body, longer, more)
    ensures Continues(Prefixed(data, body), Prefixed(data, longer), more)
  {
  }

  lemma ChunkCutOff(size: int, rest: Bytes, more: Bytes)
    requires size > 0 && !Copy(size, rest).complete
    ensures Copy(size, rest).data <= Chunks(size, [LF] + (rest + more)).data
    ensures [LF] + (rest + more) != [] && Copy(size, rest).rest == []
  {
    assert ([LF] + (rest + more))[1..] == rest + more;
    var chunk := Copy(size, rest + more);
    assert Copy(size, rest).data == rest <= chunk.data;
  }

  lemma BodyStable(h: Head, input: Bytes, more: Bytes)
    ensures Continues(ReadRaw(h.contentLength, input), ReadRaw(h.contentLength, input + more), more)
  {
    CopyStable(h.contentLength, input, more);
    ChunksStable(0, input, more);
  }

  // What is received of a longer input: the same, if it was complete; if not, nothing of it was different, and none of a
  // gzip body was delivered.
  predicate Agrees(o: Outcome, longer: Outcome, gzip: bool, more: Bytes) {
    var agrees :=
      if o.result != Err(ConnectionLost) then longer == o.(rest := o.rest + more)
      else o.rest == [] && (if gzip || o.close.None? then o.body == [] else o.body <= longer.body)
           && (o.close.Some? ==> longer.close == o.close && longer.fields == o.fields);
    agrees
  }

  lemma FinishStable(h: Head, input: Bytes, more: Bytes, head: bool, gunzip: Bytes -> Bytes)
    ensures Agrees(Finish(h, input, head, gunzip), Finish(h, input + more, head, gunzip), h.gzip, more)
  {
    BodyStable(h, input, more);
  }

  // The head of a response whose header lines have all come, and whether its body is a gzip body.
  function HeadOf(input: Bytes, fields: Fields): Option<Head> {
    match ReadHead(Start(fields), input)
    case HeadDone(h, _) => Some(h)
    case HeadFailed(_, _, _) => None
  }

  /** Receiving reads no further than it has to: whatever it makes of some octets, short of losing the connection, it makes
      of them with others behind. */
  lemma ReceiveStable(input: Bytes, more: Bytes, head: bool, fields: Fields, gunzip: Bytes -> Bytes)
    ensures var h := HeadOf(input, fields);
            && Agrees(Receive(input, head, fields, gunzip), Receive(input + more, head, fields, gunzip), h.Some? && h.value.gzip, more)
            && (h.Some? ==> HeadOf(input + more, fields) == h)
  {
    HeadStable(Start(fields), input, more);
    match ReadHead(Start(fields), input)
    case HeadDone(h, rest) => FinishStable(h, rest, more, head, gunzip);
    case HeadFailed(_, _, _) =>
  }

  lemma FrameHead(f: Frame, head: bool, fields: Fields)
    requires GoodFrame(f, head)
    ensures HeadOf(Encode(f), fields).Some? && HeadOf(Encode(f), fields).value.gzip == Zipped(f.final.headers)
  {
    var start, rest := Start(fields), EncodePayload(f.payload);
    ReadFrameHead(f, fields, rest);
    OnHeadersFlags(start.(status := Status(f.final)), f.final.headers);
  }

  /** A response that is cut off anywhere is a lost connection. Of its body a first part has been delivered, and nothing if it
      is a gzip body. */
  lemma CutOffIsLost(f: Frame, head: bool, input: Bytes, missing: Bytes, fields: Fields, gunzip: Bytes -> Bytes)
    requires GoodFrame(f, head) && input + missing == Encode(f) && missing != []
    ensures var o := Receive(input, head, fields, gunzip);
            && o.result == Err(ConnectionLost) && o.rest == []
            && (if Zipped(f.final.headers) then o.body == [] else o.body <= PayloadData(f.payload))
  {
    assert Encode(f) + [] == Encode(f);
    ReceiveInvertsEncode(f, head, fields, gunzip, []);
    ReceiveStable(input, missing, head, fields, gunzip);
    FrameHead(f, head, fields);
  }

  // ---- Heads that are lost, or are none ----

  lemma {:induction false} CutOffLine(h: Head, line: Bytes)
    requires LF !in line
    ensures ReadHead(h, line) == HeadFailed(ConnectionLost, h.fields, [])
    decreases |line|
  {
    if line != [] {
      CutOffLine(if line[0] == CR then h else h.(line := h.line + [line[0]]), line[1..]);
    }
  }

  function Lines(headers: seq<Header>): Bytes {
    if headers == [] then [] else HeaderLine(headers[0]) + CRLF + Lines(headers[1..])
  }

  lemma {:induction false} ReadLines(h: Head, headers: seq<Header>, tail: Bytes)
    requires h.line == [] && h.status != 0 && h.status != 100
    requires forall header <- headers :: Clean(header.name) && Clean(header.value) && COLON !in header.name
    ensures ReadHead(h, Lines(headers) + tail) == ReadHead(OnHeaders(h, headers), tail)
    decreases |headers|
  {
    if headers == [] {
      assert Lines(headers) + tail == tail;
    } else {
      var rest := Lines(headers[1..]) + tail;
      assert Lines(headers) + tail == HeaderLine(headers[0]) + CRLF + rest;
      ReadHeaderLine(h, headers[0], rest);
      ReadLines(OnHeader(h, headers[0]), headers[1..], tail);
    }
  }

  /** When the connection is lost between header lines or inside one, the header map has the lines that came completely. */
  lemma LostInHeaders(m: Message, part: Bytes, head: bool, fields: Fields, gunzip: Bytes -> Bytes)
    requires GoodMessage(m) && Status(m) != 0 && Status(m) != 100 && LF !in part
    ensures Receive(StatusLine(m) + CRLF + (Lines(m.headers) + part), head, fields, gunzip)
         == Outcome(Err(ConnectionLost), None, Recorded(fields, m.headers), [], [])
  {
    var start := Start(fields);
    var h := start.(status := Status(m));
    ReadStatusLine(start, m, Lines(m.headers) + part);
    ReadLines(h, m.headers, part);
    OnHeadersFlags(h, m.headers);
    CutOffLine(OnHeaders(h, m.headers), part);
  }

  /** A first line without a second word is reported as it came; the header map stays as it was. */
  lemma NoStatus(line: Bytes, tail: Bytes, head: bool, fields: Fields, gunzip: Bytes -> Bytes)
    requires Clean(line) && line != []
    requires forall i, j :: 0 <= i < j < |line| && line[i] == 32 ==> line[j] == 32
    ensures Receive(line + CRLF + tail, head, fields, gunzip) == Outcome(Err(ResponseError(line)), None, fields, [], tail)
  {
    StatusMissing(line);
    ReadLine(Start(fields), line, tail);
    assert [] + line == line && ([LF] + tail)[1..] == tail;
  }

  /** A second word that is no number, or is 0, does not count: the next line is read as the first one then. */
  lemma StatusNotANumber(line: Bytes, tail: Bytes, head: bool, fields: Fields, gunzip: Bytes -> Bytes)
    requires Clean(line) && line != [] && StatusOf(line) == Some(0)
    ensures Receive(line + CRLF + tail, head, fields, gunzip) == Receive(tail, head, fields, gunzip)
  {
    var start := Start(fields);
    ReadLine(start, line, tail);
    assert [] + line == line && ([LF] + tail)[1..] == tail;
    assert start.(line := line).(status := 0, line := []) == start;
  }
}
