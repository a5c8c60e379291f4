/** What one received response is, as a function of the octets on the connection. */
module HttpSpec {
  import opened Octets
  import opened Options
  import opened Text

  datatype HttpError = ConnectionLost | ZeroBytesRead | ResponseError(line: Bytes)
  datatype Result<+T> = Ok(value: T) | Err(error: HttpError)

  type Fields = map<Bytes, seq<Bytes>>

  function AddField(fields: Fields, key: Bytes, value: Bytes): Fields {
    fields[key := (if key in fields then fields[key] else []) + [value]]
  }

  // The local variables of the header loop, with the header map it fills.
  datatype Head = Head(line: Bytes, status: int, contentLength: int, gzip: bool, close: bool, fields: Fields)

  function Start(fields: Fields): Head {
    Head([], 0, 0, false, false, fields)
  }

  function StatusOf(line: Bytes): Option<int> {
    var ss := Split(line);
    if |ss| < 2 then None else Some(ParseInt(ss[1]))
  }

  /** There is no status exactly if nothing but spaces follows the first space. */
  lemma StatusMissing(line: Bytes)
    ensures StatusOf(line).None? <==> forall i, j :: 0 <= i < j < |line| && line[i] == 32 ==> line[j] == 32
  {
    SplitIsShort(line);
  }

  function OnField(h: Head, key: Bytes, value: Bytes): (r: Head)
    ensures r.line == h.line && r.status == h.status
  {
    var f := h.(fields := AddField(h.fields, key, value));
    if key == Ascii("CONNECTION") then
      if EqualsIgnoreCase(value, Ascii("close")) then f.(close := true) else f
    else if key == Ascii("CONTENT-LENGTH") then f.(contentLength := ParseInt(value))
    else if key == Ascii("CONTENT-ENCODING") then
      if EqualsIgnoreCase(value, Ascii("gzip")) then f.(gzip := true) else f
    else if key == Ascii("TRANSFER-ENCODING") then
      if EqualsIgnoreCase(value, Ascii("chunked")) then f.(contentLength := -1) else f
    else f
  }

  function OnHeaderLine(h: Head, line: Bytes): (r: Head)
    ensures r.line == h.line && r.status == h.status
  {
    var index := IndexOfColon(line, 0);
    if index < 0 then h else OnField(h, Upper(line[..index]), line[index + 2..])
  }

  /** A line without `: ` changes nothing. */
  lemma NoField(h: Head, line: Bytes)
    requires NoColonSpace(line)
    ensures OnHeaderLine(h, line) == h
  {
    NoColon(line);
  }

  datatype HeadResult = HeadDone(head: Head, rest: Bytes) | HeadFailed(error: HttpError, fields: Fields, rest: Bytes)

  function ReadHead(h: Head, input: Bytes): (r: HeadResult)
    ensures r.HeadFailed? ==> r.error != ZeroBytesRead
    decreases |input|
  {
    if input == [] then HeadFailed(ConnectionLost, h.fields, [])
    else
      var b, rest := input[0], input[1..];
      if b == CR then ReadHead(h, rest)
      else if b != LF then ReadHead(h.(line := h.line + [b]), rest)
      else if h.line == [] then
        if h.status == 100 then ReadHead(h.(status := 0), rest) else HeadDone(h, rest)
      else if h.status == 0 then
        match StatusOf(h.line)
        case None => HeadFailed(ResponseError(h.line), h.fields, rest)
        case Some(status) => ReadHead(h.(status := status, line := []), rest)
      else if h.status != 100 then ReadHead(OnHeaderLine(h, h.line).(line := []), rest)
      else ReadHead(h.(line := []), rest)
  }

  // A body, or as much of it as arrived before the connection was lost.
  datatype Body = Body(complete: bool, data: Bytes, rest: Bytes)

  function Copy(n: int, input: Bytes): Body {
    if n <= 0 then Body(true, [], input)
    else if n <= |input| then Body(true, input[..n], input[n..])
    else Body(false, input, [])
  }

  function NextSize(size: int, b: Byte): int {
    if HexDigit(b) >= 0 then ToInt32(ToInt32(size * 16) + HexDigit(b)) else size
  }

  // The chunk decoder. `size` is its only state: a size being read (>= 0), -2 once
  // the last chunk's line has ended, any other negative number after a chunk's data.
  function Chunks(size: int, input: Bytes): Body
    decreases |input|
  {
    if input == [] then Body(false, [], [])
    else
      var b, rest := input[0], input[1..];
      if size < 0 then
        if b != LF then Chunks(size, rest) else if size == -2 then Body(true, [], rest) else Chunks(0, rest)
      else if b != LF then Chunks(NextSize(size, b), rest)
      else if size == 0 then Chunks(-2, rest)
      else
        var chunk := Copy(size, rest);
        if !chunk.complete then chunk
        else
          var more := Chunks(-1, chunk.rest);
          Body(more.complete, chunk.data + more.data, more.rest)
  }

  function Prefixed(data: Bytes, body: Body): Body {
    body.(data := data + body.data)
  }

  lemma ChunkCopied(size: int, input: Bytes, got: Bytes)
    requires size > 0 && input != [] && input[0] == LF
    ensures var chunk := Copy(size, input[1..]);
            Prefixed(got, Chunks(size, input)) ==
              if chunk.complete then Prefixed(got + chunk.data, Chunks(-1, chunk.rest)) else Prefixed(got, chunk)
  {
    var chunk := Copy(size, input[1..]);
    assert got + (chunk.data + Chunks(-1, chunk.rest).data) == got + chunk.data + Chunks(-1, chunk.rest).data;
  }

  function ReadRaw(contentLength: int, input: Bytes): Body {
    if contentLength > 0 then Copy(contentLength, input) else Chunks(0, input)
  }

  // `gunzip` stands for what GZIPInputStream yields from these bytes before it ends or fails.
  function Delivered(gzip: bool, body: Body, gunzip: Bytes -> Bytes): Bytes {
    if !gzip then body.data else if body.complete then gunzip(body.data) else []
  }

  datatype Outcome = Outcome(result: Result<int>, close: Option<bool>, fields: Fields, body: Bytes, rest: Bytes)

  function ReadBody(h: Head, input: Bytes, gunzip: Bytes -> Bytes): Outcome {
    var body := ReadRaw(h.contentLength, input);
    Outcome(if body.complete then Ok(h.status) else Err(ConnectionLost),
            Some(h.close), h.fields, Delivered(h.gzip, body, gunzip), body.rest)
  }

  function Finish(h: Head, input: Bytes, head: bool, gunzip: Bytes -> Bytes): Outcome {
    if head || h.contentLength == 0 then Outcome(Ok(h.status), Some(h.close), h.fields, [], input)
    else ReadBody(h, input, gunzip)
  }

  function Receive(input: Bytes, head: bool, fields: Fields, gunzip: Bytes -> Bytes): Outcome {
    match ReadHead(Start(fields), input)
    case HeadFailed(error, got, rest) => Outcome(Err(error), None, got, [], rest)
    case HeadDone(h, rest) => Finish(h, rest, head, gunzip)
  }
}
