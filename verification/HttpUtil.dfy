/** Receiving on the HTTP/1.1 client side: `recv` on a byte stream, with the byte queue as body. */
module HttpUtil {
  import opened ByteQueue
  import opened HttpSpec
  import opened Octets
  import opened Options
  import opened Text

  const RESP_MAX_SIZE := 65536

  /** A connection's input: the octets still to come, delivered in pieces of any size. */
  class InputStream {
    var rest: Bytes
    const mayStall: bool  // whether a read may return no byte at all

    constructor (rest: Bytes, mayStall: bool)
      ensures this.rest == rest && this.mayStall == mayStall
    {
      this.rest, this.mayStall := rest, mayStall;
    }

    method ReadByte() returns (b: int)
      modifies this
      ensures old(rest) == [] ==> b == -1 && rest == []
      ensures old(rest) != [] ==> b == old(rest)[0] && rest == old(rest)[1..]
    {
      if rest == [] {
        return -1;
      }
      b, rest := rest[0], rest[1..];
    }

    /** Nothing is known about `n` but its range: what is proved of a caller holds for every fragmentation. */
    method Read(buffer: array<Byte>, len: nat) returns (n: int)
      requires len <= buffer.Length
      modifies this, buffer
      ensures old(rest) == [] ==> n == -1 && rest == []
      ensures old(rest) != [] ==> 0 <= n <= Min(len, |old(rest)|) && (n == 0 ==> mayStall || len == 0)
      ensures n >= 0 ==> buffer[..n] == old(rest)[..n] && rest == old(rest)[n..]
    {
      if rest == [] {
        return -1;
      }
      var most := Min(len, |rest|);
      var least := if mayStall || len == 0 then 0 else 1;
      n :| least <= n <= most;
      var data := rest;
      forall i | 0 <= i < n {
        buffer[i] := data[i];
      }
      rest := data[n..];
    }
  }

  class OutputStream {
    var written: Bytes

    constructor ()
      ensures written == []
    {
      written := [];
    }

    method Write(b: array<Byte>, len: nat)
      requires len <= b.Length
      modifies this
      ensures written == old(written) + b[..len]
    {
      written := written + b[..len];
    }
  }

  class HeaderMap {
    var fields: Fields

    constructor ()
      ensures fields == map[]
    {
      fields := map[];
    }
  }

  // What a method given this (possibly absent) queue may change.
  ghost function Footprint(q: ByteArrayQueue?): set<object>
    reads q
  {
    if q == null then {} else {q as object, q.buf}
  }

  twostate predicate Appended(q: ByteArrayQueue?, data: Bytes)
    reads Footprint(q), q
  {
    q != null ==> old(q.Valid()) && q.Valid() && (q.buf == old(q.buf) || fresh(q.buf)) && q.Contents() == old(q.Contents()) + data
  }

  // `all` without some of its first octets.
  ghost predicate Suffix(s: Bytes, all: Bytes) {
    |s| <= |all| && s == all[|all| - |s|..]
  }

  lemma SuffixStep(s: Bytes, n: nat, all: Bytes)
    requires Suffix(s, all) && n <= |s|
    ensures Suffix(s[n..], all)
  {
  }

  // The queue, if there is one, holds `contents`.
  ghost predicate Filled(q: ByteArrayQueue?, contents: Bytes)
    reads q, Footprint(q)
  {
    q != null ==> q.Valid() && q.Contents() == contents
  }

  /** `moved` is what went from the stream to the queue: all that was asked for, all there was before the connection was
      lost, or less than both when the stream gave nothing. */
  method CopyResponse(input: InputStream, baq: ByteArrayQueue?, buffer: array<Byte>, length: int)
    returns (r: Result<()>, ghost moved: Bytes)
    requires baq != null ==> baq.Valid() && baq.buf != buffer
    requires buffer.Length == RESP_MAX_SIZE
    modifies input, buffer, Footprint(baq)
    ensures moved + input.rest == old(input.rest) && Appended(baq, moved) && (baq != null ==> baq.buf != buffer)
    ensures r == Err(ZeroBytesRead) ==> input.mayStall && |moved| < length && input.rest != []
    ensures r != Err(ZeroBytesRead) ==>
              var body := Copy(length, old(input.rest));
              r == (if body.complete then Ok(()) else Err(ConnectionLost)) && moved == body.data && input.rest == body.rest
  {
    var bytesToRead := length;
    ghost var base: Bytes := if baq == null then [] else baq.Contents();
    moved := [];
    while bytesToRead > 0
      invariant moved + input.rest == old(input.rest) && |moved| == Max(length, 0) - Max(bytesToRead, 0)
      invariant Filled(baq, base + moved)
      invariant baq != null ==> baq.buf != buffer && (baq.buf == old(baq.buf) || fresh(baq.buf))
      decreases bytesToRead
    {
      ghost var before := input.rest;
      var bytesRead := input.Read(buffer, Min(RESP_MAX_SIZE, bytesToRead));
      if bytesRead < 0 {
        return Err(ConnectionLost), moved;
      }
      if bytesRead == 0 {
        return Err(ZeroBytesRead), moved;
      }
      bytesToRead := bytesToRead - bytesRead;
      SplitMoved(moved, before, bytesRead);
      moved := PutOn(baq, buffer, bytesRead, base, moved);
    }
    return Ok(()), moved;
  }

  lemma SplitMoved(moved: Bytes, rest: Bytes, n: nat)
    requires n <= |rest|
    ensures moved + rest[..n] + rest[n..] == moved + rest
  {
  }

  // What was just read goes to the queue, if there is one.
  method PutOn(baq: ByteArrayQueue?, buffer: array<Byte>, bytesRead: nat, ghost base: Bytes, ghost moved: Bytes)
    returns (ghost moved': Bytes)
    requires bytesRead <= buffer.Length && Filled(baq, base + moved) && (baq != null ==> baq.buf != buffer)
    modifies Footprint(baq)
    ensures moved' == moved + buffer[..bytesRead] && buffer[..] == old(buffer[..]) && Filled(baq, base + moved')
    ensures baq != null ==> baq.buf != buffer && (baq.buf == old(baq.buf) || fresh(baq.buf))
  {
    moved' := moved + buffer[..bytesRead];
    assert base + moved + buffer[..bytesRead] == base + moved';
    if baq != null {
      baq.Append(buffer, bytesRead);
    }
  }

  ghost function FieldsOf(m: HeaderMap?): Fields
    reads m
  {
    if m == null then map[] else m.fields
  }

  ghost predicate SameHead(result: Result<Head>, expected: HeadResult) {
    match expected
    case HeadDone(h, _) => result == Ok(h.(fields := map[]))
    case HeadFailed(error, _, _) => result == Err(error)
  }

  /** One header line of the final response; a line without ": " is ignored. */
  method ReceiveHeaderLine(sb: Bytes, gzip: bool, close: bool, contentLength: int, responseHeaders: HeaderMap?,
        ghost h: Head)
    returns (gzip': bool, close': bool, contentLength': int)
    requires h.gzip == gzip && h.close == close && h.contentLength == contentLength
    requires responseHeaders != null ==> responseHeaders.fields == h.fields
    modifies responseHeaders
    ensures var h' := OnHeaderLine(h, sb);
            && h'.gzip == gzip' && h'.close == close' && h'.contentLength == contentLength'
            && (responseHeaders != null ==> responseHeaders.fields == h'.fields)
  {
    gzip', close', contentLength' := gzip, close, contentLength;
    var index := IndexOfColon(sb, 0);
    if index >= 0 {
      var key, value := Upper(sb[..index]), sb[index + 2..];
      if key == Ascii("CONNECTION") {
        if EqualsIgnoreCase(value, Ascii("close")) {
          close' := true;
        }
      } else if key == Ascii("CONTENT-LENGTH") {
        contentLength' := ParseInt(value);
      } else if key == Ascii("CONTENT-ENCODING") {
        if EqualsIgnoreCase(value, Ascii("gzip")) {
          gzip' := true;
        }
      } else if key == Ascii("TRANSFER-ENCODING") {
        if EqualsIgnoreCase(value, Ascii("chunked")) {
          contentLength' := -1;
        }
      }
      if responseHeaders != null {
        responseHeaders.fields := AddField(responseHeaders.fields, key, value);
      }
    }
  }

  /** The header loop of `recv`. */
  method ReceiveHead(input: InputStream, responseHeaders: HeaderMap?) returns (r: Result<Head>)
    modifies input, responseHeaders
    ensures var expected := ReadHead(Start(old(FieldsOf(responseHeaders))), old(input.rest));
            && input.rest == expected.rest && SameHead(r, expected)
            && (responseHeaders != null ==>
                  responseHeaders.fields == if expected.HeadDone? then expected.head.fields else expected.fields)
  {
    var gzip, close, status, contentLength := false, false, 0, 0;
    var sb: Bytes := [];
    ghost var fields := FieldsOf(responseHeaders);
    while true
      invariant responseHeaders != null ==> responseHeaders.fields == fields
      invariant ReadHead(Head(sb, status, contentLength, gzip, close, fields), input.rest)
             == ReadHead(Start(old(FieldsOf(responseHeaders))), old(input.rest))
      decreases |input.rest|
    {
      var b := input.ReadByte();
      if b < 0 {
        return Err(ConnectionLost);
      }
      if b == CR {
        continue;
      }
      if b != LF {
        sb := sb + [b];
        continue;
      }
      if sb == [] {
        if status == 100 {
          status := 0;
          continue;
        }
        return Ok(Head(sb, status, contentLength, gzip, close, map[]));
      }
      if status == 0 {
        var ss := Split(sb);
        if |ss| < 2 {
          return Err(ResponseError(sb));
        }
        status := ParseInt(ss[1]);
      } else if status != 100 {
        ghost var h := Head(sb, status, contentLength, gzip, close, fields);
        gzip, close, contentLength := ReceiveHeaderLine(sb, gzip, close, contentLength, responseHeaders, h);
        fields := OnHeaderLine(h, sb).fields;
      }
      sb := [];
    }
  }

  // `got` is all of a body's data, or the first part of it when the stream gave nothing.
  ghost predicate Delivers(r: Result<()>, got: Bytes, rest: Bytes, body: Body, all: Bytes) {
    if r == Err(ZeroBytesRead) then got <= body.data && Suffix(rest, all)
    else r == (if body.complete then Ok(()) else Err(ConnectionLost)) && got == body.data && rest == body.rest
  }

  lemma StalledCopy(n: int, all: Bytes, moved: Bytes, rest: Bytes)
    requires moved + rest == all
    ensures Suffix(rest, all) && (|moved| <= n ==> moved <= Copy(n, all).data)
  {
    assert all[..|moved|] == moved && all[|moved|..] == rest;
  }

  // The chunk loop has delivered `got`, is in state `size`, and has `rest` of `all` before it.
  ghost predicate InChunks(size: int, got: Bytes, rest: Bytes, all: Bytes) {
    var inChunks := Prefixed(got, Chunks(size, rest)) == Chunks(0, all) && Suffix(rest, all);
    inChunks
  }

  // The decoder's state behind an octet that neither starts a chunk's data nor ends the body.
  function StateBehind(size: int, b: Byte): int {
    if size < 0 then (if b == LF then 0 else size) else if b == LF then -2 else NextSize(size, b)
  }

  method ReceiveChunkOctet(chunkSize: int, b: Byte) returns (chunkSize': int, ended: bool)
    requires !(chunkSize > 0 && b == LF)
    ensures ended <==> chunkSize == -2 && b == LF
    ensures !ended ==> chunkSize' == StateBehind(chunkSize, b)
  {
    chunkSize', ended := chunkSize, false;
    if chunkSize < 0 {
      if b == LF {
        if chunkSize == -2 {
          ended := true;
        } else {
          chunkSize' := 0;
        }
      }
    } else if b == LF {
      chunkSize' := -2;
    } else {
      var digit := HexDigit(b);
      if digit >= 0 {
        chunkSize' := ToInt32(ToInt32(chunkSize * 16) + digit);
      }
    }
  }

  // One octet of a size line or behind a chunk's data.
  lemma ChunkOctet(size: int, got: Bytes, rest: Bytes, all: Bytes)
    requires InChunks(size, got, rest, all) && rest != [] && !(size > 0 && rest[0] == LF)
    ensures var b := rest[0];
            if size == -2 && b == LF then Chunks(0, all) == Body(true, got, rest[1..])
            else InChunks(StateBehind(size, b), got, rest[1..], all)
  {
    SuffixStep(rest, 1, all);
    assert got + [] == got;
  }

  lemma ChunksEnd(size: int, got: Bytes, all: Bytes)
    requires InChunks(size, got, [], all)
    ensures Chunks(0, all) == Body(false, got, [])
  {
    assert got + [] == got;
  }

  // A chunk's data has been copied, or as much of it as came.
  lemma ChunkEnds(size: int, got: Bytes, rest: Bytes, all: Bytes, r: Result<()>, more: Bytes, left: Bytes)
    requires InChunks(size, got, rest, all) && size > 0 && rest != [] && rest[0] == LF
    requires Delivers(r, more, left, Copy(size, rest[1..]), rest[1..])
    ensures r.Ok? ==> InChunks(-1, got + more, left, all)
    ensures r.Err? ==> Delivers(r, got + more, left, Chunks(0, all), all)
  {
    ChunkCopied(size, rest, got);
    SuffixStep(rest, 1, all);
    var chunk := Copy(size, rest[1..]);
    if r.Ok? {
      SuffixStep(rest[1..], size, all);
    } else if chunk.complete {
      assert Chunks(0, all).data == got + chunk.data + Chunks(-1, chunk.rest).data;
      assert got + more <= got + chunk.data;
    } else {
      assert Chunks(0, all).data == got + chunk.data;
    }
  }

  // A chunk's data, behind the line feed that ended its size.
  method ReceiveChunkData(input: InputStream, baq: ByteArrayQueue?, buffer: array<Byte>, chunkSize: int,
        ghost base: Bytes, ghost got: Bytes, ghost rest: Bytes, ghost all: Bytes)
    returns (r: Result<()>, ghost got': Bytes)
    requires Filled(baq, base + got) && (baq != null ==> baq.buf != buffer) && buffer.Length == RESP_MAX_SIZE
    requires InChunks(chunkSize, got, rest, all) && chunkSize > 0 && rest != [] && rest[0] == LF && input.rest == rest[1..]
    modifies input, buffer, Footprint(baq)
    ensures Filled(baq, base + got')
    ensures baq != null ==> baq.buf != buffer && (baq.buf == old(baq.buf) || fresh(baq.buf))
    ensures r == Err(ZeroBytesRead) ==> input.mayStall
    ensures if r.Ok? then InChunks(-1, got', input.rest, all) else Delivers(r, got', input.rest, Chunks(0, all), all)
    ensures |input.rest| < |rest|
  {
    ghost var moved := [];
    r, moved := CopyResponse(input, baq, buffer, chunkSize);
    got' := got + moved;
    assert base + got + moved == base + got';
    StalledCopy(chunkSize, rest[1..], moved, input.rest);
    ChunkEnds(chunkSize, got, rest, all, r, moved, input.rest);
  }

  /** The chunk loop of `recv`, with its one integer of state. */
  method ReceiveChunks(input: InputStream, baq: ByteArrayQueue?, buffer: array<Byte>) returns (r: Result<()>, ghost got: Bytes)
    requires baq != null ==> baq.Valid() && baq.buf != buffer
    requires buffer.Length == RESP_MAX_SIZE
    modifies input, buffer, Footprint(baq)
    ensures Appended(baq, got)
    ensures r == Err(ZeroBytesRead) ==> input.mayStall
    ensures Delivers(r, got, input.rest, Chunks(0, old(input.rest)), old(input.rest))
  {
    var chunkSize := 0;
    ghost var base, all: Bytes := if baq == null then [] else baq.Contents(), input.rest;
    got := [];
    while true
      invariant Filled(baq, base + got)
      invariant baq != null ==> baq.buf != buffer && (baq.buf == old(baq.buf) || fresh(baq.buf))
      invariant InChunks(chunkSize, got, input.rest, all)
      decreases |input.rest|
    {
      ghost var rest := input.rest;
      var b := input.ReadByte();
      if b < 0 {
        ChunksEnd(chunkSize, got, all);
        return Err(ConnectionLost), got;
      }
      if chunkSize > 0 && b == LF {
        r, got := ReceiveChunkData(input, baq, buffer, chunkSize, base, got, rest, all);
        if r.Err? {
          return;
        }
        chunkSize := -1;
      } else {
        ChunkOctet(chunkSize, got, rest, all);
        var ended;
        chunkSize, ended := ReceiveChunkOctet(chunkSize, b);
        if ended {
          break;
        }
      }
    }
    return Ok(()), got;
  }

  /** Content-Length or chunked body, as it stands on the connection. */
  method ReceiveRaw(input: InputStream, baq: ByteArrayQueue?, contentLength: int) returns (r: Result<()>, ghost got: Bytes)
    requires baq != null ==> baq.Valid()
    modifies input, Footprint(baq)
    ensures Appended(baq, got)
    ensures r == Err(ZeroBytesRead) ==> input.mayStall
    ensures Delivers(r, got, input.rest, ReadRaw(contentLength, old(input.rest)), old(input.rest))
  {
    var buffer := new Byte[RESP_MAX_SIZE](_ => 0);
    if contentLength > 0 {
      ghost var all := input.rest;
      r, got := CopyResponse(input, baq, buffer, contentLength);
      StalledCopy(contentLength, all, got, input.rest);
    } else {
      r, got := ReceiveChunks(input, baq, buffer);
    }
  }

  /** A gzip body is collected apart and unpacked once it is complete. */
  method ReceiveGzip(input: InputStream, responseBody: ByteArrayQueue?, contentLength: int, gunzip: Bytes -> Bytes)
    returns (r: Result<()>, ghost got: Bytes)
    requires responseBody != null ==> responseBody.Valid()
    modifies input, Footprint(responseBody)
    ensures Appended(responseBody, if r.Ok? then gunzip(got) else [])
    ensures r == Err(ZeroBytesRead) ==> input.mayStall
    ensures Delivers(r, got, input.rest, ReadRaw(contentLength, old(input.rest)), old(input.rest))
  {
    var gzipBody := new ByteArrayQueue(32);
    r, got := ReceiveRaw(input, gzipBody, contentLength);
    if r.Ok? && responseBody != null {
      assert gzipBody.Contents() == got;
      responseBody.AddAll(gunzip(gzipBody.buf[gzipBody.offset..gzipBody.offset + gzipBody.length]));
    } else if responseBody != null {
      assert responseBody.Contents() + [] == old(responseBody.Contents());
    }
  }

  lemma {:induction false} HeadIsFirst(h: Head, input: Bytes)
    ensures Suffix(ReadHead(h, input).rest, input)
    decreases |input|
  {
    if input != [] {
      var b, rest := input[0], input[1..];
      var next :=
        if b == CR then h
        else if b != LF then h.(line := h.line + [b])
        else if h.line == [] then h.(status := 0)
        else if h.status == 0 then (match StatusOf(h.line) case None => h case Some(status) => h.(status := status, line := []))
        else if h.status != 100 then OnHeaderLine(h, h.line).(line := [])
        else h.(line := []);
      HeadIsFirst(next, rest);
    }
  }

  lemma SuffixOfSuffix(s: Bytes, t: Bytes, all: Bytes)
    requires Suffix(t, all)
    ensures Suffix(s, t) ==> Suffix(s, all)
  {
  }

  // The rest of a response whose head is h, without its fields; `part` is what the caller's queue received.
  method ReceiveBody(input: InputStream, responseBody: ByteArrayQueue?, h: Head, head: bool, gunzip: Bytes -> Bytes)
    returns (r: Result<int>, ghost part: Bytes)
    requires responseBody != null ==> responseBody.Valid()
    modifies input, Footprint(responseBody)
    ensures Appended(responseBody, part)
    ensures Answers(input, r, part, Finish(h, old(input.rest), head, gunzip), old(input.rest))
  {
    part := [];
    if responseBody != null {
      NothingAppended(responseBody.Contents());
    }
    if head || h.contentLength == 0 {
      return Ok(h.status), part;
    }
    var done;
    if h.gzip {
      done, part := ReceiveGzip(input, responseBody, h.contentLength, gunzip);
      part := if done.Ok? then gunzip(part) else [];
    } else {
      done, part := ReceiveRaw(input, responseBody, h.contentLength);
    }
    r := if done.Ok? then Ok(h.status) else Err(done.error);
  }

  // The outcome, with all of the body delivered; or a first part of it when the stream gave nothing.
  ghost predicate Answers(input: InputStream, r: Result<int>, part: Bytes, o: Outcome, all: Bytes)
    reads input
  {
    if r == Err(ZeroBytesRead) then input.mayStall && o.close.Some? && part <= o.body && Suffix(input.rest, all)
    else r == o.result && input.rest == o.rest && part == o.body
  }

  // The head decides fields and close flag; what else there is to deliver is that of the head without its fields.
  lemma HeadDecides(all: Bytes, head: bool, fields: Fields, gunzip: Bytes -> Bytes)
    ensures var o := Receive(all, head, fields, gunzip);
            match ReadHead(Start(fields), all)
            case HeadFailed(error, got, rest) => o == Outcome(Err(error), None, got, [], rest)
            case HeadDone(h, rest) =>
              var bare := Finish(h.(fields := map[]), rest, head, gunzip);
              && o.fields == h.fields && o.close == Some(h.close) && bare.close.Some?
              && o.result == bare.result && o.body == bare.body && o.rest == bare.rest
  {
  }

  lemma NothingAppended(contents: Bytes)
    ensures contents + [] == contents
  {
  }

  // The caller's flag array once the head is read: unchanged if that failed.
  function Flagged(flags: seq<bool>, close: Option<bool>): seq<bool> {
    if close.Some? && flags != [] then flags[0 := close.value] else flags
  }

  method SetFlag(connectionClose: array?<bool>, close: bool)
    modifies connectionClose
    ensures connectionClose != null ==> connectionClose[..] == Flagged(old(connectionClose[..]), Some(close))
  {
    if connectionClose != null && connectionClose.Length > 0 {
      connectionClose[0] := close;
    }
  }

  /** `part` is what the caller's body queue has received: all the body there is to deliver, or the first part of it when
      the stream gave nothing; the header map and the close flag are complete in either case. */
  method Recv(input: InputStream, responseBody: ByteArrayQueue?, responseHeaders: HeaderMap?, head: bool,
        connectionClose: array?<bool>, gunzip: Bytes -> Bytes)
    returns (r: Result<int>, ghost part: Bytes)
    requires responseBody != null ==> responseBody.Valid()
    modifies input, Footprint(responseBody), responseHeaders, connectionClose
    ensures Appended(responseBody, part)
    ensures var o := Receive(old(input.rest), head, old(FieldsOf(responseHeaders)), gunzip);
            && Answers(input, r, part, o, old(input.rest))
            && (responseHeaders != null ==> responseHeaders.fields == o.fields)
            && (connectionClose != null ==> connectionClose[..] == Flagged(old(connectionClose[..]), o.close))
  {
    part := [];
    ghost var all, fields := input.rest, FieldsOf(responseHeaders);
    HeadDecides(all, head, fields, gunzip);
    HeadIsFirst(Start(fields), all);
    if responseBody != null {
      NothingAppended(responseBody.Contents());
    }
    var received := ReceiveHead(input, responseHeaders);
    if received.Err? {
      return Err(received.error), part;
    }
    var h := received.value;
    SetFlag(connectionClose, h.close);
    ghost var behind := input.rest;
    r, part := ReceiveBody(input, responseBody, h, head, gunzip);
    SuffixOfSuffix(input.rest, behind, all);
  }
}
