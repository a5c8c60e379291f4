/** `send`: what goes out on the connection, and that a server can read it back. */
module HttpSend {
  import opened ByteQueue
  import opened HttpFraming
  import opened HttpUtil
  import opened Octets
  import opened Options
  import opened Text

  const BUFFER_SIZE := 2048

  // A request's header map in the order its entries are visited.
  type Entries = seq<(Bytes, seq<Bytes>)>

  function RequestLine(path: Bytes, post: bool, head: bool): Bytes {
    (if post then Ascii("POST ") else if head then Ascii("HEAD ") else Ascii("GET ")) + path + Ascii(" HTTP/1.1")
  }

  function ValueHeaders(key: Bytes, values: seq<Bytes>): seq<Header> {
    seq(|values|, i requires 0 <= i < |values| => Header(key, values[i]))
  }

  function EntryHeaders(entries: Entries): seq<Header> {
    if entries == [] then []
    else
      var last := entries[|entries| - 1];
      EntryHeaders(entries[..|entries| - 1]) + ValueHeaders(last.0, last.1)
  }

  const HEAD_END: seq<Header> :=
    [Header(Ascii("Accept-Encoding"), Ascii("gzip")), Header(Ascii("Connection"), Ascii("Keep-Alive"))]

  // The headers `send` adds in front of the caller's.
  function OwnHeaders(host: Bytes, proxyAuth: Option<Bytes>, bodyLength: Option<nat>): seq<Header> {
    var length := if bodyLength.Some? then Some(Decimal(bodyLength.value)) else None;
    IfGiven(Ascii("Content-Length"), length) + [Header(Ascii("Host"), host)]
    + IfGiven(Ascii("Proxy-Authorization"), proxyAuth)
  }

  function IfGiven(name: Bytes, value: Option<Bytes>): seq<Header> {
    if value.Some? then [Header(name, value.value)] else []
  }

  function RequestHeaders(host: Bytes, proxyAuth: Option<Bytes>, bodyLength: Option<nat>, entries: Entries): seq<Header> {
    OwnHeaders(host, proxyAuth, bodyLength) + EntryHeaders(entries) + HEAD_END
  }

  function RequestHead(path: Bytes, host: Bytes, proxyAuth: Option<Bytes>, bodyLength: Option<nat>, entries: Entries,
        head: bool): Bytes {
    RequestLine(path, bodyLength.Some?, head) + CRLF + EncodeHeaders(RequestHeaders(host, proxyAuth, bodyLength, entries))
  }

  function HeaderLines(headers: seq<Header>): Bytes {
    if headers == [] then []
    else HeaderLines(headers[..|headers| - 1]) + (HeaderLine(headers[|headers| - 1]) + CRLF)
  }

  lemma {:induction false} HeaderLinesAppend(a: seq<Header>, b: seq<Header>)
    ensures HeaderLines(a + b) == HeaderLines(a) + HeaderLines(b)
    decreases |b|
  {
    if b == [] {
      assert a + b == a;
    } else {
      assert (a + b)[..|a + b| - 1] == a + b[..|b| - 1];
      HeaderLinesAppend(a, b[..|b| - 1]);
    }
  }

  lemma {:induction false} EncodeHeadersLines(headers: seq<Header>)
    ensures EncodeHeaders(headers) == HeaderLines(headers) + CRLF
    decreases |headers|
  {
    if headers != [] {
      EncodeHeadersLines(headers[1..]);
      assert headers == [headers[0]] + headers[1..];
      HeaderLinesAppend([headers[0]], headers[1..]);
      assert HeaderLines([headers[0]]) == HeaderLine(headers[0]) + CRLF;
    }
  }

  // With what is in the buffer and the queue, the output becomes `target`.
  ghost predicate Copying(q: ByteArrayQueue, out: OutputStream, buffer: array<Byte>, bytesRead: int, target: Bytes)
    reads q, q.buf, out, buffer
  {
    && q.Valid() && buffer != q.buf && bytesRead <= buffer.Length
    && (bytesRead > 0 ==> out.written + (buffer[..bytesRead] + q.Contents()) == target)
    && (bytesRead <= 0 ==> out.written == target && q.Contents() == [])
  }

  method FillBuffer(q: ByteArrayQueue, ghost out: OutputStream, buffer: array<Byte>, ghost target: Bytes) returns (bytesRead: int)
    requires q.Valid() && buffer != q.buf && buffer.Length > 0 && out.written + q.Contents() == target
    modifies q, buffer
    ensures Copying(q, out, buffer, bytesRead, target) && (q.buf == old(q.buf) || fresh(q.buf))
    ensures if bytesRead > 0 then q.length < old(q.length) else q.length == old(q.length)
  {
    bytesRead := q.ReadSome(buffer);
    assert out.written + [] == out.written;
  }

  method WriteBuffer(ghost q: ByteArrayQueue, out: OutputStream, buffer: array<Byte>, bytesRead: nat, ghost target: Bytes)
    requires bytesRead > 0 && Copying(q, out, buffer, bytesRead, target)
    modifies out
    ensures out.written + q.Contents() == target
  {
    assert out.written + (buffer[..bytesRead] + q.Contents()) == out.written + buffer[..bytesRead] + q.Contents();
    out.Write(buffer, bytesRead);
  }

  /** Streams.copy out of a queue: it ends because every read shortens the queue. */
  method CopyQueue(q: ByteArrayQueue, out: OutputStream)
    requires q.Valid()
    modifies q, out
    ensures q.Valid() && q.Contents() == [] && (q.buf == old(q.buf) || fresh(q.buf))
    ensures out.written == old(out.written) + old(q.Contents())
  {
    var buffer := new Byte[BUFFER_SIZE](_ => 0);
    ghost var target := out.written + q.Contents();
    var bytesRead := FillBuffer(q, out, buffer, target);
    while bytesRead > 0
      invariant Copying(q, out, buffer, bytesRead, target)
      invariant q.buf == old(q.buf) || fresh(q.buf)
      decreases q.length, bytesRead
    {
      WriteBuffer(q, out, buffer, bytesRead, target);
      bytesRead := FillBuffer(q, out, buffer, target);
    }
  }

  // `sent` lists the header lines queued so far behind `base`.
  ghost predicate Queued(baq: ByteArrayQueue, base: Bytes, sent: seq<Header>)
    reads baq, baq.buf
  {
    baq.Valid() && baq.Contents() == base + HeaderLines(sent)
  }

  method AddPair(baq: ByteArrayQueue, a: Bytes, b: Bytes)
    requires baq.Valid()
    modifies baq, baq.buf
    ensures baq.Valid() && (baq.buf == old(baq.buf) || fresh(baq.buf))
    ensures baq.Contents() == old(baq.Contents()) + (a + b)
  {
    ghost var before := baq.Contents();
    baq.AddAll(a);
    baq.AddAll(b);
    assert before + a + b == before + (a + b);
  }

  method AddLine(baq: ByteArrayQueue, header: Header)
    requires baq.Valid()
    modifies baq, baq.buf
    ensures baq.Valid() && (baq.buf == old(baq.buf) || fresh(baq.buf))
    ensures baq.Contents() == old(baq.Contents()) + (HeaderLine(header) + CRLF)
  {
    ghost var before := baq.Contents();
    AddPair(baq, header.name, [COLON, SP]);
    AddPair(baq, header.value, CRLF);
    assert before + (header.name + [COLON, SP]) + (header.value + CRLF) == before + (HeaderLine(header) + CRLF);
  }

  method AddHeader(baq: ByteArrayQueue, header: Header, ghost base: Bytes, ghost sent: seq<Header>)
    requires Queued(baq, base, sent)
    modifies baq, baq.buf
    ensures Queued(baq, base, sent + [header]) && (baq.buf == old(baq.buf) || fresh(baq.buf))
  {
    HeaderLinesSnoc(base, sent, header);
    AddLine(baq, header);
  }

  lemma HeaderLinesSnoc(base: Bytes, sent: seq<Header>, header: Header)
    ensures base + HeaderLines(sent + [header]) == base + HeaderLines(sent) + (HeaderLine(header) + CRLF)
  {
    assert (sent + [header])[..|sent|] == sent;
  }

  lemma EntryHeadersSnoc(sent: seq<Header>, entries: Entries, i: nat)
    requires i < |entries|
    ensures sent + EntryHeaders(entries[..i]) + ValueHeaders(entries[i].0, entries[i].1) == sent + EntryHeaders(entries[..i + 1])
  {
    assert entries[..i + 1][..i] == entries[..i];
  }

  /** The two loops over the caller's headers: one line per value, in order. */
  method AddEntries(baq: ByteArrayQueue, entries: Entries, ghost base: Bytes, ghost sent: seq<Header>)
    requires Queued(baq, base, sent)
    modifies baq, baq.buf
    ensures Queued(baq, base, sent + EntryHeaders(entries)) && (baq.buf == old(baq.buf) || fresh(baq.buf))
  {
    assert sent + EntryHeaders([]) == sent;
    for i := 0 to |entries|
      invariant Queued(baq, base, sent + EntryHeaders(entries[..i])) && (baq.buf == old(baq.buf) || fresh(baq.buf))
    {
      AddValues(baq, entries[i].0, entries[i].1, base, sent + EntryHeaders(entries[..i]));
      EntryHeadersSnoc(sent, entries, i);
    }
    assert entries[..|entries|] == entries;
  }

  method AddValues(baq: ByteArrayQueue, key: Bytes, values: seq<Bytes>, ghost base: Bytes, ghost sent: seq<Header>)
    requires Queued(baq, base, sent)
    modifies baq, baq.buf
    ensures Queued(baq, base, sent + ValueHeaders(key, values)) && (baq.buf == old(baq.buf) || fresh(baq.buf))
  {
    ghost var headers := ValueHeaders(key, values);
    assert sent + headers[..0] == sent;
    for i := 0 to |values|
      invariant Queued(baq, base, sent + headers[..i]) && (baq.buf == old(baq.buf) || fresh(baq.buf))
    {
      AddHeader(baq, Header(key, values[i]), base, sent + headers[..i]);
      assert sent + headers[..i] + [headers[i]] == sent + headers[..i + 1];
    }
    assert headers[..|values|] == headers;
  }

  method AddRequestLine(headerBaq: ByteArrayQueue, line: Bytes)
    requires headerBaq.Valid() && headerBaq.Contents() == []
    modifies headerBaq, headerBaq.buf
    ensures Queued(headerBaq, line + CRLF, []) && (headerBaq.buf == old(headerBaq.buf) || fresh(headerBaq.buf))
  {
    headerBaq.AddAll(line);
    headerBaq.AddAll(CRLF);
  }

  // The headers `send` itself contributes.
  method AddOwnHeaders(headerBaq: ByteArrayQueue, host: Bytes, proxyAuth: Option<Bytes>, bodyLength: Option<nat>, ghost base: Bytes)
    requires Queued(headerBaq, base, [])
    modifies headerBaq, headerBaq.buf
    ensures Queued(headerBaq, base, OwnHeaders(host, proxyAuth, bodyLength))
    ensures headerBaq.buf == old(headerBaq.buf) || fresh(headerBaq.buf)
  {
    var length := if bodyLength.Some? then Some(Decimal(bodyLength.value)) else None;
    AddThree(headerBaq, Ascii("Content-Length"), length, Header(Ascii("Host"), host), Ascii("Proxy-Authorization"), proxyAuth, base);
  }

  method AddThree(baq: ByteArrayQueue, first: Bytes, a: Option<Bytes>, second: Header, third: Bytes, c: Option<Bytes>, ghost base: Bytes)
    requires Queued(baq, base, [])
    modifies baq, baq.buf
    ensures Queued(baq, base, IfGiven(first, a) + [second] + IfGiven(third, c))
    ensures baq.buf == old(baq.buf) || fresh(baq.buf)
  {
    AddIfGiven(baq, first, a, base, []);
    assert [] + IfGiven(first, a) == IfGiven(first, a);
    AddHeader(baq, second, base, IfGiven(first, a));
    AddIfGiven(baq, third, c, base, IfGiven(first, a) + [second]);
  }

  method AddIfGiven(baq: ByteArrayQueue, name: Bytes, value: Option<Bytes>, ghost base: Bytes, ghost sent: seq<Header>)
    requires Queued(baq, base, sent)
    modifies baq, baq.buf
    ensures Queued(baq, base, sent + IfGiven(name, value)) && (baq.buf == old(baq.buf) || fresh(baq.buf))
  {
    if value.Some? {
      AddHeader(baq, Header(name, value.value), base, sent);
    } else {
      assert sent + [] == sent;
    }
  }

  method SendHead(path: Bytes, host: Bytes, proxyAuth: Option<Bytes>, bodyLength: Option<nat>, entries: Entries,
        head: bool)
    returns (headerBaq: ByteArrayQueue)
    ensures fresh(headerBaq) && fresh(headerBaq.buf) && headerBaq.Valid()
    ensures headerBaq.Contents() == RequestHead(path, host, proxyAuth, bodyLength, entries, head)
  {
    headerBaq := new ByteArrayQueue(32);
    var line := RequestLine(path, bodyLength.Some?, head);
    AddRequestLine(headerBaq, line);
    AddOwnHeaders(headerBaq, host, proxyAuth, bodyLength, line + CRLF);
    AddTail(headerBaq, entries, line + CRLF, OwnHeaders(host, proxyAuth, bodyLength));
    ghost var all := RequestHeaders(host, proxyAuth, bodyLength, entries);
    BlankLineEnds(line + CRLF, all);
    headerBaq.AddAll(CRLF);
  }

  lemma BlankLineEnds(base: Bytes, headers: seq<Header>)
    ensures base + HeaderLines(headers) + CRLF == base + EncodeHeaders(headers)
  {
    EncodeHeadersLines(headers);
    assert base + HeaderLines(headers) + CRLF == base + (HeaderLines(headers) + CRLF);
  }

  method AddTail(baq: ByteArrayQueue, entries: Entries, ghost base: Bytes, ghost sent: seq<Header>)
    requires Queued(baq, base, sent)
    modifies baq, baq.buf
    ensures Queued(baq, base, sent + EntryHeaders(entries) + HEAD_END) && (baq.buf == old(baq.buf) || fresh(baq.buf))
  {
    AddEntries(baq, entries, base, sent);
    ghost var all := sent + EntryHeaders(entries);
    AddHeader(baq, HEAD_END[0], base, all);
    AddHeader(baq, HEAD_END[1], base, all + [HEAD_END[0]]);
    assert all + [HEAD_END[0]] + [HEAD_END[1]] == all + HEAD_END;
  }

  /** The whole request goes out, and the body queue is used up. */
  method Send(out: OutputStream, path: Bytes, host: Bytes, proxyAuth: Option<Bytes>, requestBody: ByteArrayQueue?,
        entries: Entries, head: bool)
    requires requestBody != null ==> requestBody.Valid()
    modifies out, requestBody
    ensures requestBody != null ==>
              requestBody.Valid() && requestBody.Contents() == [] && (requestBody.buf == old(requestBody.buf) || fresh(requestBody.buf))
    ensures out.written == old(out.written)
              + (if requestBody == null then RequestHead(path, host, proxyAuth, None, entries, head)
                 else RequestHead(path, host, proxyAuth, Some(old(requestBody.length)), entries, head) + old(requestBody.Contents()))
  {
    var bodyLength: Option<nat> := if requestBody == null then None else Some(requestBody.length);
    var headerBaq := SendHead(path, host, proxyAuth, bodyLength, entries, head);
    ghost var before, all := out.written, headerBaq.Contents();
    CopyQueue(headerBaq, out);
    if requestBody != null {
      assert before + all + requestBody.Contents() == before + (all + requestBody.Contents());
      CopyQueue(requestBody, out);
    }
  }

  // ---- Reading a request back ----

  // A server's view: the octets before the first CRLF, and what follows it.
  function NextLine(input: Bytes): (r: Option<(Bytes, Bytes)>)
    ensures r.Some? ==> |r.value.1| < |input|
  {
    if |input| < 2 then None
    else if input[..2] == CRLF then Some(([], input[2..]))
    else
      match NextLine(input[1..])
      case None => None
      case Some((line, rest)) => Some(([input[0]] + line, rest))
  }

  function ParseHeaders(input: Bytes): Option<(seq<Header>, Bytes)>
    decreases |input|
  {
    match NextLine(input)
    case None => None
    case Some((line, rest)) =>
      if line == [] then Some(([], rest))
      else
        var i := IndexOfColon(line, 0);
        match ParseHeaders(rest)
        case None => None
        case Some((headers, body)) =>
          if i < 0 then None else Some(([Header(line[..i], line[i + 2..])] + headers, body))
  }

  function ParseRequest(input: Bytes): Option<(Bytes, seq<Header>, Bytes)> {
    match NextLine(input)
    case None => None
    case Some((line, rest)) =>
      match ParseHeaders(rest)
      case None => None
      case Some((headers, body)) => Some((line, headers, body))
  }

  lemma {:induction false} NextLineFinds(line: Bytes, rest: Bytes)
    requires Clean(line)
    ensures NextLine(line + CRLF + rest) == Some((line, rest))
    decreases |line|
  {
    var input := line + CRLF + rest;
    if line == [] {
      assert input == CRLF + rest;
    } else {
      assert line[0] in line && input[0] == line[0];
      assert input[..2] != CRLF;
      assert input[1..] == line[1..] + CRLF + rest;
      NextLineFinds(line[1..], rest);
      assert [line[0]] + line[1..] == line;
    }
  }

  predicate CleanHeader(h: Header) {
    Clean(h.name) && Clean(h.value) && COLON !in h.name
  }

  lemma {:induction false} ParseHeadersInverts(headers: seq<Header>, body: Bytes)
    requires forall h <- headers :: CleanHeader(h)
    ensures ParseHeaders(EncodeHeaders(headers) + body) == Some((headers, body))
    decreases |headers|
  {
    var input := EncodeHeaders(headers) + body;
    if headers == [] {
      assert input == [] + CRLF + body;
      NextLineFinds([], body);
    } else {
      var h := headers[0];
      assert h in headers;
      var rest := EncodeHeaders(headers[1..]) + body;
      assert input == HeaderLine(h) + CRLF + rest;
      NextLineFinds(HeaderLine(h), rest);
      FirstColon(h.name, h.value);
      assert HeaderLine(h)[..|h.name|] == h.name && HeaderLine(h)[|h.name| + 2..] == h.value;
      ParseHeadersInverts(headers[1..], body);
      assert [h] + headers[1..] == headers;
    }
  }

  /** What `send` writes for a request with a body reads back as its request line, its headers and exactly that body,
      and the length it declares is the number of body octets. */
  lemma SentRequestReadsBack(path: Bytes, host: Bytes, proxyAuth: Option<Bytes>, body: Bytes, entries: Entries, head: bool)
    requires Clean(RequestLine(path, true, head)) && |body| < 0x8000_0000
    requires forall h <- RequestHeaders(host, proxyAuth, Some(|body|), entries) :: CleanHeader(h)
    ensures var headers := RequestHeaders(host, proxyAuth, Some(|body|), entries);
            && ParseRequest(RequestHead(path, host, proxyAuth, Some(|body|), entries, head) + body)
               == Some((RequestLine(path, true, head), headers, body))
            && headers[0].name == Ascii("Content-Length") && ParseInt(headers[0].value) == |body|
  {
    var line, headers := RequestLine(path, true, head), RequestHeaders(host, proxyAuth, Some(|body|), entries);
    assert RequestHead(path, host, proxyAuth, Some(|body|), entries, head) + body
        == line + CRLF + (EncodeHeaders(headers) + body);
    NextLineFinds(line, EncodeHeaders(headers) + body);
    ParseHeadersInverts(headers, body);
    ParseIntDecimal(|body|);
  }

  /** A request without a body ends with its head. */
  lemma SentHeadReadsBack(path: Bytes, host: Bytes, proxyAuth: Option<Bytes>, entries: Entries, head: bool, next: Bytes)
    requires Clean(RequestLine(path, false, head))
    requires forall h <- RequestHeaders(host, proxyAuth, None, entries) :: CleanHeader(h)
    ensures ParseRequest(RequestHead(path, host, proxyAuth, None, entries, head) + next)
         == Some((RequestLine(path, false, head), RequestHeaders(host, proxyAuth, None, entries), next))
  {
    var line, headers := RequestLine(path, false, head), RequestHeaders(host, proxyAuth, None, entries);
    assert RequestHead(path, host, proxyAuth, None, entries, head) + next == line + CRLF + (EncodeHeaders(headers) + next);
    NextLineFinds(line, EncodeHeaders(headers) + next);
    ParseHeadersInverts(headers, next);
  }

  // ---- What a server reads ----

  const POST: Bytes := [80, 79, 83, 84]
  const GET: Bytes := [71, 69, 84]
  const HEAD: Bytes := [72, 69, 65, 68]
  const VERSION: Bytes := [72, 84, 84, 80, 47, 49, 46, 49] // HTTP/1.1

  function FirstSpace(s: Bytes): nat {
    if s == [] || s[0] == SP then 0 else 1 + FirstSpace(s[1..])
  }

  function LastSpace(s: Bytes): (r: int)
    ensures -1 <= r < |s|
  {
    if s == [] then -1 else if s[|s| - 1] == SP then |s| - 1 else LastSpace(s[..|s| - 1])
  }

  datatype Words = Words(method_: Bytes, target: Bytes, version: Bytes)

  // A line's first word, its last, and what stands between them (section 3.1.1 of RFC 7230).
  function WordsOf(line: Bytes): Option<Words> {
    var i, j := FirstSpace(line), LastSpace(line);
    if i < j then Some(Words(line[..i], line[i + 1..j], line[j + 1..])) else None
  }

  lemma {:induction false} FirstSpaceBehind(word: Bytes, more: Bytes)
    requires SP !in word && more != [] && more[0] == SP
    ensures FirstSpace(word + more) == |word|
    decreases |word|
  {
    if word == [] {
      assert word + more == more;
    } else {
      assert (word + more)[1..] == word[1..] + more;
      FirstSpaceBehind(word[1..], more);
    }
  }

  lemma {:induction false} LastSpaceBefore(more: Bytes, word: Bytes)
    requires SP !in word && more != [] && more[|more| - 1] == SP
    ensures LastSpace(more + word) == |more| - 1
    decreases |word|
  {
    if word == [] {
      assert more + word == more;
    } else {
      assert (more + word)[..|more + word| - 1] == more + word[..|word| - 1];
      LastSpaceBefore(more, word[..|word| - 1]);
    }
  }

  lemma SlicesOf(a: Bytes, b: Bytes, c: Bytes)
    ensures (a + [SP] + b + [SP] + c)[..|a|] == a
    ensures (a + [SP] + b + [SP] + c)[|a| + 1..|a| + 1 + |b|] == b
    ensures (a + [SP] + b + [SP] + c)[|a| + |b| + 2..] == c
    ensures a + [SP] + b + [SP] + c == a + ([SP] + b + [SP] + c)
  {
  }

  lemma WordsFound(first: Bytes, middle: Bytes, last: Bytes)
    requires SP !in first && SP !in last
    ensures WordsOf(first + [SP] + middle + [SP] + last) == Some(Words(first, middle, last))
  {
    var line, front := first + [SP] + middle + [SP] + last, first + [SP] + middle + [SP];
    SlicesOf(first, middle, last);
    FirstSpaceBehind(first, [SP] + middle + [SP] + last);
    LastSpaceBefore(front, last);
  }

  function Verb(post: bool, head: bool): Bytes {
    if post then POST else if head then HEAD else GET
  }

  lemma RequestLineWords(path: Bytes, post: bool, head: bool)
    ensures RequestLine(path, post, head) == Verb(post, head) + [SP] + path + [SP] + VERSION
  {
    assert Ascii("POST ") == POST + [SP] && Ascii("HEAD ") == HEAD + [SP] && Ascii("GET ") == GET + [SP];
    assert Ascii(" HTTP/1.1") == [SP] + VERSION;
  }

  lemma CleanBoth(a: Bytes, b: Bytes)
    requires Clean(a) && Clean(b)
    ensures Clean(a + [SP] + b)
  {
  }

  lemma RequestLineReads(path: Bytes, post: bool, head: bool)
    ensures WordsOf(RequestLine(path, post, head)) == Some(Words(Verb(post, head), path, VERSION))
    ensures Clean(path) ==> Clean(RequestLine(path, post, head))
  {
    RequestLineWords(path, post, head);
    var verb := Verb(post, head);
    assert SP !in verb && SP !in VERSION && Clean(verb) && Clean(VERSION);
    WordsFound(verb, path, VERSION);
    if Clean(path) {
      CleanBoth(verb, path);
      CleanBoth(verb + [SP] + path, VERSION);
    }
  }

  // The values the caller gives for a name, case disregarded, in order.
  function GivenValues(entries: Entries, name: Bytes): seq<Bytes> {
    if entries == [] then []
    else (if EqualsIgnoreCase(entries[0].0, name) then entries[0].1 else []) + GivenValues(entries[1..], name)
  }

  function NamedValues(headers: seq<Header>, name: Bytes): seq<Bytes> {
    if headers == [] then []
    else (if EqualsIgnoreCase(headers[0].name, name) then [headers[0].value] else []) + NamedValues(headers[1..], name)
  }

  lemma {:induction false} NamedInBoth(a: seq<Header>, b: seq<Header>, name: Bytes)
    ensures NamedValues(a + b, name) == NamedValues(a, name) + NamedValues(b, name)
    decreases |a|
  {
    if a == [] {
      assert a + b == b;
    } else {
      assert (a + b)[1..] == a[1..] + b;
      NamedInBoth(a[1..], b, name);
    }
  }

  lemma {:induction false} GivenInBoth(a: Entries, b: Entries, name: Bytes)
    ensures GivenValues(a + b, name) == GivenValues(a, name) + GivenValues(b, name)
    decreases |a|
  {
    if a == [] {
      assert a + b == b;
    } else {
      assert (a + b)[1..] == a[1..] + b;
      GivenInBoth(a[1..], b, name);
    }
  }

  lemma {:induction false} NamedInEntry(key: Bytes, values: seq<Bytes>, name: Bytes)
    ensures NamedValues(ValueHeaders(key, values), name) == if EqualsIgnoreCase(key, name) then values else []
    decreases |values|
  {
    if values != [] {
      assert ValueHeaders(key, values)[1..] == ValueHeaders(key, values[1..]);
      NamedInEntry(key, values[1..], name);
      assert [values[0]] + values[1..] == values;
    }
  }

  lemma {:induction false} NamedInEntries(entries: Entries, name: Bytes)
    ensures NamedValues(EntryHeaders(entries), name) == GivenValues(entries, name)
    decreases |entries|
  {
    if entries != [] {
      var front, last := entries[..|entries| - 1], entries[|entries| - 1];
      assert entries == front + [last];
      NamedInEntries(front, name);
      NamedInBoth(EntryHeaders(front), ValueHeaders(last.0, last.1), name);
      NamedInEntry(last.0, last.1, name);
      GivenInBoth(front, [last], name);
      assert GivenValues([last], name) == if EqualsIgnoreCase(last.0, name) then last.1 else [];
    }
  }

  lemma NamedAlone(h: Header, name: Bytes)
    ensures NamedValues([h], name) == if EqualsIgnoreCase(h.name, name) then [h.value] else []
  {
  }

  // The value `send` itself gives for a name in front of the caller's, and the one behind them.
  function ValueInFront(name: Bytes, host: Bytes, proxyAuth: Option<Bytes>, bodyLength: Option<nat>): Option<Bytes> {
    if EqualsIgnoreCase(Ascii("Host"), name) then Some(host)
    else if EqualsIgnoreCase(Ascii("Proxy-Authorization"), name) then proxyAuth
    else if EqualsIgnoreCase(Ascii("Content-Length"), name) && bodyLength.Some? then Some(Decimal(bodyLength.value))
    else None
  }

  function ValueBehind(name: Bytes): Option<Bytes> {
    if EqualsIgnoreCase(Ascii("Connection"), name) then Some(Ascii("Keep-Alive"))
    else if EqualsIgnoreCase(Ascii("Accept-Encoding"), name) then Some(Ascii("gzip"))
    else None
  }

  function Given(value: Option<Bytes>): seq<Bytes> {
    if value.Some? then [value.value] else []
  }

  lemma OtherLength(a: Bytes, b: Bytes)
    requires |a| != |b|
    ensures !EqualsIgnoreCase(a, b)
  {
    assert |Upper(a)| == |a| && |Upper(b)| == |b|;
  }

  lemma NamedInFront(name: Bytes, host: Bytes, proxyAuth: Option<Bytes>, bodyLength: Option<nat>)
    ensures NamedValues(OwnHeaders(host, proxyAuth, bodyLength), name) == Given(ValueInFront(name, host, proxyAuth, bodyLength))
  {
    var length := if bodyLength.Some? then Some(Decimal(bodyLength.value)) else None;
    var a, c := IfGiven(Ascii("Content-Length"), length), IfGiven(Ascii("Proxy-Authorization"), proxyAuth);
    var b := Header(Ascii("Host"), host);
    NamedInBoth(a + [b], c, name);
    NamedInBoth(a, [b], name);
    NamedAlone(b, name);
    NamedIfGiven(Ascii("Content-Length"), length, name);
    NamedIfGiven(Ascii("Proxy-Authorization"), proxyAuth, name);
    if |name| != 4 { OtherLength(Ascii("Host"), name); }
    if |name| != 14 { OtherLength(Ascii("Content-Length"), name); }
    if |name| != 19 { OtherLength(Ascii("Proxy-Authorization"), name); }
  }

  lemma NamedIfGiven(key: Bytes, value: Option<Bytes>, name: Bytes)
    ensures NamedValues(IfGiven(key, value), name) == if EqualsIgnoreCase(key, name) then Given(value) else []
  {
    if value.Some? {
      NamedAlone(Header(key, value.value), name);
    }
  }

  lemma NamedBehind(name: Bytes)
    ensures NamedValues(HEAD_END, name) == Given(ValueBehind(name))
  {
    var a, b := HEAD_END[0], HEAD_END[1];
    assert HEAD_END == [a] + [b];
    NamedInBoth([a], [b], name);
    NamedAlone(a, name);
    NamedAlone(b, name);
    if |name| != 15 { OtherLength(a.name, name); }
    if |name| != 10 { OtherLength(b.name, name); }
  }

  lemma NamedInRequest(host: Bytes, proxyAuth: Option<Bytes>, bodyLength: Option<nat>, entries: Entries, name: Bytes)
    ensures NamedValues(RequestHeaders(host, proxyAuth, bodyLength, entries), name)
         == Given(ValueInFront(name, host, proxyAuth, bodyLength)) + GivenValues(entries, name) + Given(ValueBehind(name))
  {
    var own, given := OwnHeaders(host, proxyAuth, bodyLength), EntryHeaders(entries);
    NamedInBoth(own + given, HEAD_END, name);
    NamedInBoth(own, given, name);
    NamedInFront(name, host, proxyAuth, bodyLength);
    NamedInEntries(entries, name);
    NamedBehind(name);
  }

  // Nothing in the request breaks a line, and no header name of the caller has a colon; `send` does not check it.
  predicate CleanRequest(path: Bytes, host: Bytes, proxyAuth: Option<Bytes>, entries: Entries) {
    && Clean(path) && Clean(host) && (proxyAuth.Some? ==> Clean(proxyAuth.value))
    && forall e <- entries :: Clean(e.0) && COLON !in e.0 && forall v <- e.1 :: Clean(v)
  }

  lemma {:induction false} EntriesAreClean(entries: Entries)
    requires forall e <- entries :: Clean(e.0) && COLON !in e.0 && forall v <- e.1 :: Clean(v)
    ensures forall h <- EntryHeaders(entries) :: CleanHeader(h)
    decreases |entries|
  {
    if entries != [] {
      var last := entries[|entries| - 1];
      EntriesAreClean(entries[..|entries| - 1]);
      assert last in entries;
      forall h <- ValueHeaders(last.0, last.1) ensures CleanHeader(h) {
        assert h.value in last.1;
      }
    }
  }

  lemma DecimalIsClean(n: nat)
    ensures Clean(Decimal(n))
  {
    assert forall b <- Decimal(n) :: IsDigit(b);
  }

  lemma NameIsClean(name: string)
    requires forall c <- name :: c != '\r' && c != '\n' && c != ':'
    ensures Clean(Ascii(name)) && COLON !in Ascii(name)
  {
    forall b <- Ascii(name) ensures b != CR && b != LF && b != COLON {
      var i :| 0 <= i < |name| && b == Ascii(name)[i];
      assert name[i] in name;
    }
  }

  lemma OwnIsClean(host: Bytes, proxyAuth: Option<Bytes>, bodyLength: Option<nat>)
    requires Clean(host) && (proxyAuth.Some? ==> Clean(proxyAuth.value))
    ensures forall h <- OwnHeaders(host, proxyAuth, bodyLength) :: CleanHeader(h)
  {
    NameIsClean("Content-Length");
    NameIsClean("Host");
    NameIsClean("Proxy-Authorization");
    if bodyLength.Some? {
      DecimalIsClean(bodyLength.value);
    }
  }

  lemma EndIsClean()
    ensures forall h <- HEAD_END :: CleanHeader(h)
  {
    NameIsClean("Accept-Encoding");
    NameIsClean("gzip");
    NameIsClean("Connection");
    NameIsClean("Keep-Alive");
  }

  /** What a server reads of a request, whatever follows it: the words of its first line, each header's values in order,
      the body and its length. */
  lemma ServerReads(path: Bytes, host: Bytes, proxyAuth: Option<Bytes>, body: Option<Bytes>, entries: Entries, head: bool, next: Bytes)
    requires CleanRequest(path, host, proxyAuth, entries)
    ensures var bodyLength := if body.Some? then Some(|body.value|) else None;
            var rest := (if body.Some? then body.value else []) + next;
            match ParseRequest(RequestHead(path, host, proxyAuth, bodyLength, entries, head) + rest)
            case None => false
            case Some((line, headers, behind)) =>
              && WordsOf(line) == Some(Words(Verb(body.Some?, head), path, VERSION))
              && behind == rest
              && (body.Some? ==> DecimalValue(Decimal(|body.value|)) == |body.value|)
              && forall name :: NamedValues(headers, name)
                   == Given(ValueInFront(name, host, proxyAuth, bodyLength)) + GivenValues(entries, name) + Given(ValueBehind(name))
  {
    var bodyLength := if body.Some? then Some(|body.value|) else None;
    var rest := (if body.Some? then body.value else []) + next;
    var line, headers := RequestLine(path, body.Some?, head), RequestHeaders(host, proxyAuth, bodyLength, entries);
    OwnIsClean(host, proxyAuth, bodyLength);
    EndIsClean();
    EntriesAreClean(entries);
    RequestLineReads(path, body.Some?, head);
    HeadReads(line, headers, rest);
    if body.Some? {
      DecimalRoundTrip(|body.value|);
    }
    forall name ensures NamedValues(headers, name)
        == Given(ValueInFront(name, host, proxyAuth, bodyLength)) + GivenValues(entries, name) + Given(ValueBehind(name)) {
      NamedInRequest(host, proxyAuth, bodyLength, entries, name);
    }
  }

  lemma HeadReads(line: Bytes, headers: seq<Header>, rest: Bytes)
    requires Clean(line) && forall h <- headers :: CleanHeader(h)
    ensures ParseRequest(line + CRLF + EncodeHeaders(headers) + rest) == Some((line, headers, rest))
  {
    assert line + CRLF + EncodeHeaders(headers) + rest == line + CRLF + (EncodeHeaders(headers) + rest);
    NextLineFinds(line, EncodeHeaders(headers) + rest);
    ParseHeadersInverts(headers, rest);
  }
}
