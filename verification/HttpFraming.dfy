/** An encoder for HTTP/1.1 response messages (RFC 7230 sections 3 and 4.1), and the proof that receiving inverts it. */
module HttpFraming {
  import opened HttpSpec
  import opened Octets
  import opened Options
  import opened Text

  datatype Header = Header(name: Bytes, value: Bytes)
  datatype Message = Message(version: Bytes, code: Bytes, reason: Bytes, headers: seq<Header>)
  datatype Chunk = Chunk(size: Bytes, data: Bytes)
  datatype Payload = Fixed(data: Bytes) | Chunked(chunks: seq<Chunk>, last: Bytes)

  // A response as the server sends it: any number of interim messages, then the final one.
  datatype Frame = Frame(interim: seq<Message>, final: Message, payload: Payload)

  function StatusLine(m: Message): Bytes {
    m.version + [SP] + m.code + [SP] + m.reason
  }

  function HeaderLine(h: Header): Bytes {
    h.name + [COLON, SP] + h.value
  }

  function EncodeHeaders(headers: seq<Header>): Bytes {
    if headers == [] then CRLF else HeaderLine(headers[0]) + CRLF + EncodeHeaders(headers[1..])
  }

  function EncodeMessage(m: Message): Bytes {
    StatusLine(m) + CRLF + EncodeHeaders(m.headers)
  }

  function EncodeInterim(interim: seq<Message>): Bytes {
    if interim == [] then [] else EncodeMessage(interim[0]) + EncodeInterim(interim[1..])
  }

  function EncodeChunks(chunks: seq<Chunk>, last: Bytes): Bytes {
    if chunks == [] then last + CRLF + CRLF
    else chunks[0].size + CRLF + (chunks[0].data + CRLF) + EncodeChunks(chunks[1..], last)
  }

  function EncodePayload(p: Payload): Bytes {
    match p
    case Fixed(data) => data
    case Chunked(chunks, last) => EncodeChunks(chunks, last)
  }

  function Encode(f: Frame): Bytes {
    EncodeInterim(f.interim) + (EncodeMessage(f.final) + EncodePayload(f.payload))
  }

  function ChunkData(chunks: seq<Chunk>): Bytes {
    if chunks == [] then [] else chunks[0].data + ChunkData(chunks[1..])
  }

  function PayloadData(p: Payload): Bytes {
    match p
    case Fixed(data) => data
    case Chunked(chunks, _) => ChunkData(chunks)
  }

  // ---- What makes a frame well formed for this receiver ----

  predicate Clean(s: Bytes) {
    CR !in s && LF !in s
  }

  predicate GoodMessage(m: Message) {
    && Clean(m.version) && Clean(m.code) && Clean(m.reason)
    && SP !in m.version && SP !in m.code && m.code != []
    && forall h <- m.headers :: Clean(h.name) && Clean(h.value) && COLON !in h.name
  }

  function Status(m: Message): int {
    ParseInt(m.code)
  }

  predicate IsLength(h: Header) {
    Upper(h.name) == Ascii("CONTENT-LENGTH")
  }

  predicate IsChunked(h: Header) {
    Upper(h.name) == Ascii("TRANSFER-ENCODING") && EqualsIgnoreCase(h.value, Ascii("chunked"))
  }

  predicate IsClose(h: Header) {
    Upper(h.name) == Ascii("CONNECTION") && EqualsIgnoreCase(h.value, Ascii("close"))
  }

  predicate IsGzip(h: Header) {
    Upper(h.name) == Ascii("CONTENT-ENCODING") && EqualsIgnoreCase(h.value, Ascii("gzip"))
  }

  // Every Content-Length says n, and if n is not zero there is one.
  predicate DeclaresLength(headers: seq<Header>, n: nat) {
    && (forall h <- headers :: !IsChunked(h) && (IsLength(h) ==> ParseInt(h.value) == n))
    && (n != 0 ==> exists h <- headers :: IsLength(h))
  }

  // Chunked, with no Content-Length after the last Transfer-Encoding: chunked.
  predicate DeclaresChunked(headers: seq<Header>) {
    headers != [] &&
    var h := headers[|headers| - 1];
    IsChunked(h) || (!IsLength(h) && DeclaresChunked(headers[..|headers| - 1]))
  }

  predicate GoodChunk(c: Chunk) {
    AllHex(c.size) && 0 < HexValue(c.size) == |c.data| < 0x8000_0000
  }

  predicate GoodPayload(p: Payload, headers: seq<Header>) {
    match p
    case Fixed(data) => DeclaresLength(headers, |data|)
    case Chunked(chunks, last) =>
      DeclaresChunked(headers) && (forall c <- chunks :: GoodChunk(c)) && AllHex(last) && HexValue(last) == 0
  }

  // A response to HEAD has no body, whatever its headers declare.
  predicate GoodFrame(f: Frame, head: bool) {
    && (forall m <- f.interim :: GoodMessage(m) && Status(m) == 100)
    && GoodMessage(f.final) && Status(f.final) != 0 && Status(f.final) != 100
    && (if head then f.payload == Fixed([]) else GoodPayload(f.payload, f.final.headers))
  }

  // ---- What receiving it must give ----

  predicate Closes(headers: seq<Header>) {
    exists h <- headers :: IsClose(h)
  }

  predicate Zipped(headers: seq<Header>) {
    exists h <- headers :: IsGzip(h)
  }

  function Recorded(fields: Fields, headers: seq<Header>): Fields
    decreases |headers|
  {
    if headers == [] then fields
    else Recorded(AddField(fields, Upper(headers[0].name), headers[0].value), headers[1..])
  }

  function BodyOf(f: Frame, gunzip: Bytes -> Bytes): Bytes {
    var data := PayloadData(f.payload);
    if Zipped(f.final.headers) && f.payload != Fixed([]) then gunzip(data) else data
  }

  function Expected(f: Frame, fields: Fields, gunzip: Bytes -> Bytes, rest: Bytes): Outcome {
    Outcome(Ok(Status(f.final)), Some(Closes(f.final.headers)), Recorded(fields, f.final.headers), BodyOf(f, gunzip), rest)
  }

  // ---- The header map holds each name's values in order ----

  function ValuesOf(headers: seq<Header>, key: Bytes): seq<Bytes> {
    if headers == [] then []
    else (if Upper(headers[0].name) == key then [headers[0].value] else []) + ValuesOf(headers[1..], key)
  }

  function Values(fields: Fields, key: Bytes): seq<Bytes> {
    if key in fields then fields[key] else []
  }

  lemma {:induction false} RecordedValues(fields: Fields, headers: seq<Header>, key: Bytes)
    ensures Values(Recorded(fields, headers), key) == Values(fields, key) + ValuesOf(headers, key)
    decreases |headers|
  {
    if headers != [] {
      RecordedValues(AddField(fields, Upper(headers[0].name), headers[0].value), headers[1..], key);
    }
  }

  // ---- Lines ----

  lemma {:induction false} ReadLine(h: Head, line: Bytes, tail: Bytes)
    requires Clean(line)
    ensures ReadHead(h, line + CRLF + tail) == ReadHead(h.(line := h.line + line), [LF] + tail)
    decreases |line|
  {
    var input := line + CRLF + tail;
    if line == [] {
      assert input[1..] == [LF] + tail;
      assert h.line + line == h.line;
    } else {
      assert input[0] == line[0] && line[0] in line;
      assert input[1..] == line[1..] + CRLF + tail;
      ReadLine(h.(line := h.line + [line[0]]), line[1..], tail);
      assert h.line + [line[0]] + line[1..] == h.line + line;
    }
  }

  lemma ReadBlankLine(h: Head, tail: Bytes)
    requires h.line == []
    ensures ReadHead(h, CRLF + tail) ==
              if h.status == 100 then ReadHead(h.(status := 0), tail) else HeadDone(h, tail)
  {
    assert [] + CRLF + tail == CRLF + tail;
    ReadLine(h, [], tail);
    assert ([LF] + tail)[1..] == tail;
  }

  lemma ReadStatusLine(h: Head, m: Message, tail: Bytes)
    requires h.line == [] && h.status == 0 && GoodMessage(m)
    ensures ReadHead(h, StatusLine(m) + CRLF + tail) == ReadHead(h.(status := Status(m)), tail)
  {
    var line := StatusLine(m);
    assert line == m.version + [SP] + m.code + ([SP] + m.reason);
    assert (m.code + ([SP] + m.reason))[0] == m.code[0] != SP;
    SplitSecondWord(m.version, m.code, [SP] + m.reason);
    ReadLine(h, line, tail);
    assert [] + line == line && ([LF] + tail)[1..] == tail;
  }

  function OnHeader(h: Head, header: Header): Head {
    OnField(h, Upper(header.name), header.value)
  }

  lemma HeaderLineParsed(h: Head, header: Header)
    requires COLON !in header.name
    ensures OnHeaderLine(h, HeaderLine(header)) == OnHeader(h, header)
  {
    var line := HeaderLine(header);
    FirstColon(header.name, header.value);
    assert line[..|header.name|] == header.name && line[|header.name| + 2..] == header.value;
  }

  lemma OnFieldIgnoresLine(h: Head, line: Bytes, key: Bytes, value: Bytes)
    ensures OnField(h.(line := line), key, value).(line := h.line) == OnField(h, key, value)
  {
  }

  lemma ReadHeaderLine(h: Head, header: Header, tail: Bytes)
    requires h.line == [] && h.status != 0
    requires Clean(header.name) && Clean(header.value) && COLON !in header.name
    ensures ReadHead(h, HeaderLine(header) + CRLF + tail) ==
              ReadHead(if h.status == 100 then h else OnHeader(h, header), tail)
  {
    var line := HeaderLine(header);
    ReadLine(h, line, tail);
    assert [] + line == line && ([LF] + tail)[1..] == tail;
    HeaderLineParsed(h.(line := line), header);
    OnFieldIgnoresLine(h, line, Upper(header.name), header.value);
  }

  function OnHeaders(h: Head, headers: seq<Header>): (r: Head)
    ensures r.line == h.line && r.status == h.status
    decreases |headers|
  {
    if headers == [] then h else OnHeaders(OnHeader(h, headers[0]), headers[1..])
  }

  lemma {:induction false} ReadHeaders(h: Head, headers: seq<Header>, tail: Bytes)
    requires h.line == [] && h.status != 0
    requires forall header <- headers :: Clean(header.name) && Clean(header.value) && COLON !in header.name
    ensures ReadHead(h, EncodeHeaders(headers) + tail) ==
              if h.status == 100 then ReadHead(h.(status := 0), tail) else HeadDone(OnHeaders(h, headers), tail)
    decreases |headers|
  {
    if headers == [] {
      ReadBlankLine(h, tail);
    } else {
      var rest := EncodeHeaders(headers[1..]) + tail;
      assert EncodeHeaders(headers) + tail == HeaderLine(headers[0]) + CRLF + rest;
      ReadHeaderLine(h, headers[0], rest);
      ReadHeaders(if h.status == 100 then h else OnHeader(h, headers[0]), headers[1..], tail);
    }
  }

  lemma ReadMessage(h: Head, m: Message, tail: Bytes)
    requires h.line == [] && h.status == 0 && GoodMessage(m) && Status(m) != 0
    ensures ReadHead(h, EncodeMessage(m) + tail) ==
              if Status(m) == 100 then ReadHead(h, tail)
              else HeadDone(OnHeaders(h.(status := Status(m)), m.headers), tail)
  {
    var rest := EncodeHeaders(m.headers) + tail;
    assert EncodeMessage(m) + tail == StatusLine(m) + CRLF + rest;
    ReadStatusLine(h, m, rest);
    ReadHeaders(h.(status := Status(m)), m.headers, tail);
    assert h.(status := 0) == h;
  }

  /** Interim responses leave no trace. */
  lemma {:induction false} SkipInterim(h: Head, interim: seq<Message>, tail: Bytes)
    requires h.line == [] && h.status == 0
    requires forall m <- interim :: GoodMessage(m) && Status(m) == 100
    ensures ReadHead(h, EncodeInterim(interim) + tail) == ReadHead(h, tail)
    decreases |interim|
  {
    if interim == [] {
      assert EncodeInterim(interim) + tail == tail;
    } else {
      assert EncodeInterim(interim) + tail == EncodeMessage(interim[0]) + (EncodeInterim(interim[1..]) + tail);
      ReadMessage(h, interim[0], EncodeInterim(interim[1..]) + tail);
      SkipInterim(h, interim[1..], tail);
    }
  }

  // ---- What the headers decide ----

  lemma OnHeaderFlags(h: Head, header: Header)
    ensures var r := OnHeader(h, header);
            && r.close == (h.close || IsClose(header)) && r.gzip == (h.gzip || IsGzip(header))
            && r.fields == AddField(h.fields, Upper(header.name), header.value)
  {
  }

  lemma {:induction false} OnHeadersFlags(h: Head, headers: seq<Header>)
    ensures var r := OnHeaders(h, headers);
            && r.close == (h.close || Closes(headers)) && r.gzip == (h.gzip || Zipped(headers))
            && r.fields == Recorded(h.fields, headers)
    decreases |headers|
  {
    if headers != [] {
      OnHeaderFlags(h, headers[0]);
      OnHeadersFlags(OnHeader(h, headers[0]), headers[1..]);
      assert Closes(headers) == (IsClose(headers[0]) || Closes(headers[1..]));
      assert Zipped(headers) == (IsGzip(headers[0]) || Zipped(headers[1..]));
    }
  }

  lemma {:induction false} OnHeadersLast(h: Head, headers: seq<Header>, last: Header)
    ensures OnHeaders(h, headers + [last]) == OnHeader(OnHeaders(h, headers), last)
    decreases |headers|
  {
    if headers == [] {
      assert headers + [last] == [last];
    } else {
      assert (headers + [last])[1..] == headers[1..] + [last];
      OnHeadersLast(OnHeader(h, headers[0]), headers[1..], last);
    }
  }

  // The framing the code ends up with is that of the last framing header.
  function FramingOf(headers: seq<Header>): int {
    if headers == [] then 0
    else
      var h := headers[|headers| - 1];
      if IsLength(h) then ParseInt(h.value) else if IsChunked(h) then -1 else FramingOf(headers[..|headers| - 1])
  }

  lemma {:induction false} LastFramingHeaderWins(h: Head, headers: seq<Header>)
    requires h.contentLength == 0
    ensures OnHeaders(h, headers).contentLength == FramingOf(headers)
    decreases |headers|
  {
    if headers != [] {
      var front, last := headers[..|headers| - 1], headers[|headers| - 1];
      assert headers == front + [last];
      OnHeadersLast(h, front, last);
      LastFramingHeaderWins(h, front);
    }
  }

  lemma {:induction false} DeclaredLengthIsUsed(headers: seq<Header>, n: nat)
    requires DeclaresLength(headers, n)
    ensures FramingOf(headers) == n
    decreases |headers|
  {
    if headers != [] {
      var front, last := headers[..|headers| - 1], headers[|headers| - 1];
      assert last in headers && forall h :: h in headers <==> h in front || h == last;
      if !IsLength(last) {
        DeclaredLengthIsUsed(front, n);
      }
    }
  }

  // The last framing header is a Content-Length below 0.
  predicate DeclaresNegative(headers: seq<Header>) {
    headers != [] &&
    var h := headers[|headers| - 1];
    if IsLength(h) then ParseInt(h.value) < 0 else !IsChunked(h) && DeclaresNegative(headers[..|headers| - 1])
  }

  /** Section 3.3.3 of RFC 7230 lets chunked override Content-Length. This receiver reads chunks exactly if no
      Content-Length follows the last Transfer-Encoding: chunked, or the last framing header is a Content-Length below 0. */
  lemma {:induction false} ChunkedIsUsed(headers: seq<Header>)
    ensures FramingOf(headers) < 0 <==> DeclaresChunked(headers) || DeclaresNegative(headers)
    ensures DeclaresChunked(headers) ==> FramingOf(headers) == -1
    decreases |headers|
  {
    if headers != [] {
      ChunkedIsUsed(headers[..|headers| - 1]);
    }
  }

  /** Otherwise, with a chunked header present, it is the last Content-Length behind it that decides. */
  lemma {:induction false} LengthBehindDecides(headers: seq<Header>)
    requires !DeclaresChunked(headers) && exists h <- headers :: IsChunked(h)
    ensures exists i :: 0 <= i < |headers| && IsLength(headers[i]) && FramingOf(headers) == ParseInt(headers[i].value)
                     && forall j :: i < j < |headers| ==> !IsLength(headers[j]) && !IsChunked(headers[j])
    decreases |headers|
  {
    var front, last := headers[..|headers| - 1], headers[|headers| - 1];
    assert headers == front + [last];
    if !IsLength(last) {
      LengthBehindDecides(front);
      var i :| 0 <= i < |front| && IsLength(front[i]) && FramingOf(front) == ParseInt(front[i].value)
            && forall j :: i < j < |front| ==> !IsLength(front[j]) && !IsChunked(front[j]);
      assert headers[i] == front[i];
      forall j | i < j < |headers| ensures !IsLength(headers[j]) && !IsChunked(headers[j]) {
        assert j < |front| ==> headers[j] == front[j];
      }
    }
  }

  // ---- Chunked bodies ----

  lemma {:induction false} HexPrefix(done: Bytes, more: Bytes)
    requires AllHex(done + more)
    ensures AllHex(done) && HexValue(done) <= HexValue(done + more)
    decreases |more|
  {
    assert forall b <- done :: b in done + more;
    if more == [] {
      assert done + more == done;
    } else {
      var front := more[..|more| - 1];
      assert (done + more)[..|done + more| - 1] == done + front;
      assert forall b <- done + front :: b in done + more;
      HexPrefix(done, front);
    }
  }

  lemma ReadDigit(size: nat, b: Byte, tail: Bytes)
    requires HexDigit(b) >= 0 && 16 * size + HexDigit(b) < 0x8000_0000
    ensures Chunks(size, [b] + tail) == Chunks(16 * size + HexDigit(b), tail)
  {
    assert ([b] + tail)[1..] == tail;
    assert b != LF;
    assert NextSize(size, b) == 16 * size + HexDigit(b);
  }

  lemma HexSnoc(done: Bytes, b: Byte)
    requires AllHex(done + [b])
    ensures AllHex(done) && HexDigit(b) >= 0 && HexValue(done + [b]) == 16 * HexValue(done) + HexDigit(b)
  {
    assert b in done + [b] && forall d <- done :: d in done + [b];
    assert (done + [b])[..|done|] == done;
  }

  lemma {:induction false} ReadSize(done: Bytes, more: Bytes, tail: Bytes)
    requires AllHex(done + more) && HexValue(done + more) < 0x8000_0000
    ensures AllHex(done) && Chunks(HexValue(done), more + tail) == Chunks(HexValue(done + more), tail)
    decreases |more|
  {
    HexPrefix(done, more);
    if more == [] {
      assert more + tail == tail && done + more == done;
    } else {
      var b, next := more[0], done + [more[0]];
      assert next + more[1..] == done + more;
      HexPrefix(next, more[1..]);
      assert more + tail == [b] + (more[1..] + tail);
      HexSnoc(done, b);
      ReadDigit(HexValue(done), b, more[1..] + tail);
      ReadSize(next, more[1..], tail);
    }
  }

  lemma ReadCRLF(size: int, tail: Bytes)
    ensures Chunks(size, CRLF + tail) == Chunks(size, [LF] + tail)
  {
    assert (CRLF + tail)[1..] == [LF] + tail;
  }

  lemma ReadSizeLine(size: Bytes, tail: Bytes)
    requires AllHex(size) && HexValue(size) < 0x8000_0000
    ensures Chunks(0, size + CRLF + tail) == Chunks(HexValue(size), [LF] + tail)
  {
    assert [] + size == size && size + CRLF + tail == size + (CRLF + tail);
    ReadSize([], size, CRLF + tail);
    ReadCRLF(HexValue(size), tail);
  }

  lemma ReadChunk(c: Chunk, tail: Bytes)
    requires GoodChunk(c)
    ensures Chunks(0, c.size + CRLF + (c.data + CRLF) + tail) == Prefixed(c.data, Chunks(0, tail))
  {
    var rest := c.data + (CRLF + tail);
    assert c.size + CRLF + (c.data + CRLF) + tail == c.size + CRLF + rest;
    ReadSizeLine(c.size, rest);
    assert ([LF] + rest)[1..] == rest;
    assert rest[..|c.data|] == c.data && rest[|c.data|..] == CRLF + tail;
    ReadCRLF(-1, tail);
    assert ([LF] + tail)[1..] == tail;
  }

  /** The chunk decoder inverts the chunk encoder and stops on its last octet. */
  lemma {:induction false} ReadChunks(chunks: seq<Chunk>, last: Bytes, tail: Bytes)
    requires (forall c <- chunks :: GoodChunk(c)) && AllHex(last) && HexValue(last) == 0
    ensures Chunks(0, EncodeChunks(chunks, last) + tail) == Body(true, ChunkData(chunks), tail)
    decreases |chunks|
  {
    if chunks == [] {
      assert EncodeChunks(chunks, last) + tail == last + CRLF + (CRLF + tail);
      ReadSizeLine(last, CRLF + tail);
      assert ([LF] + (CRLF + tail))[1..] == CRLF + tail;
      ReadCRLF(-2, tail);
      assert ([LF] + tail)[1..] == tail;
    } else {
      var rest := EncodeChunks(chunks[1..], last) + tail;
      var c := chunks[0];
      assert EncodeChunks(chunks, last) + tail == c.size + CRLF + (c.data + CRLF) + rest;
      ReadChunk(c, rest);
      ReadChunks(chunks[1..], last, tail);
    }
  }

  // ---- The round trip ----

  lemma ReadPayload(h: Head, f: Frame, tail: Bytes)
    requires GoodPayload(f.payload, f.final.headers) && h.contentLength == FramingOf(f.final.headers)
    ensures h.contentLength == 0 <==> f.payload == Fixed([])
    ensures h.contentLength != 0 ==> ReadRaw(h.contentLength, EncodePayload(f.payload) + tail) == Body(true, PayloadData(f.payload), tail)
  {
    match f.payload
    case Fixed(data) =>
      DeclaredLengthIsUsed(f.final.headers, |data|);
      assert (data + tail)[..|data|] == data && (data + tail)[|data|..] == tail;
    case Chunked(chunks, last) =>
      ChunkedIsUsed(f.final.headers);
      ReadChunks(chunks, last, tail);
  }

  // What a response gives whose final message is m, whatever octets follow its head.
  function ByFraming(m: Message, fields: Fields, gunzip: Bytes -> Bytes, input: Bytes): Outcome {
    var n := FramingOf(m.headers);
    var body := if n == 0 then Body(true, [], input) else if n > 0 then Copy(n, input) else Chunks(0, input);
    var data := if n == 0 then [] else Delivered(Zipped(m.headers), body, gunzip);
    Outcome(if body.complete then Ok(Status(m)) else Err(ConnectionLost), Some(Closes(m.headers)),
            Recorded(fields, m.headers), data, body.rest)
  }

  /** The body is read as the last framing header has it: not at all, by length, or as chunks. */
  lemma ReceiveByFraming(m: Message, fields: Fields, gunzip: Bytes -> Bytes, input: Bytes)
    requires GoodMessage(m) && Status(m) != 0 && Status(m) != 100
    ensures Receive(EncodeMessage(m) + input, false, fields, gunzip) == ByFraming(m, fields, gunzip, input)
  {
    var start := Start(fields);
    ReadMessage(start, m, input);
    var h0 := start.(status := Status(m));
    OnHeadersFlags(h0, m.headers);
    LastFramingHeaderWins(h0, m.headers);
  }

  lemma ReadFrameHead(f: Frame, fields: Fields, rest: Bytes)
    requires (forall m <- f.interim :: GoodMessage(m) && Status(m) == 100)
    requires GoodMessage(f.final) && Status(f.final) != 0 && Status(f.final) != 100
    ensures ReadHead(Start(fields), EncodeInterim(f.interim) + (EncodeMessage(f.final) + rest))
         == HeadDone(OnHeaders(Start(fields).(status := Status(f.final)), f.final.headers), rest)
  {
    SkipInterim(Start(fields), f.interim, EncodeMessage(f.final) + rest);
    ReadMessage(Start(fields), f.final, rest);
  }

  /** Receiving an encoded response gives its status, headers and body, and leaves exactly what followed it. */
  lemma ReceiveInvertsEncode(f: Frame, head: bool, fields: Fields, gunzip: Bytes -> Bytes, tail: Bytes)
    requires GoodFrame(f, head)
    ensures Receive(Encode(f) + tail, head, fields, gunzip) == Expected(f, fields, gunzip, tail)
  {
    var rest := EncodePayload(f.payload) + tail;
    assert Encode(f) + tail == EncodeInterim(f.interim) + (EncodeMessage(f.final) + rest);
    ReadFrameHead(f, fields, rest);
    var h0 := Start(fields).(status := Status(f.final));
    var h := OnHeaders(h0, f.final.headers);
    OnHeadersFlags(h0, f.final.headers);
    LastFramingHeaderWins(h0, f.final.headers);
    if head {
      assert rest == tail;
    } else {
      ReadPayload(h, f, tail);
      assert f.payload == Fixed([]) ==> rest == tail;
    }
  }
}
