/** A server that frames bodies: every body can be framed either way, and is received unchanged. */
module HttpEncoder {
  import opened HttpFraming
  import opened HttpSpec
  import opened Octets
  import opened Text

  // The sixteen digits as octets, in either case.
  const LOWER_DIGITS: Bytes := [48, 49, 50, 51, 52, 53, 54, 55, 56, 57, 97, 98, 99, 100, 101, 102]
  const UPPER_DIGITS: Bytes := [48, 49, 50, 51, 52, 53, 54, 55, 56, 57, 65, 66, 67, 68, 69, 70]

  function HexLetter(n: nat, upper: bool): Byte
    requires n < 16
  {
    if upper then UPPER_DIGITS[n] else LOWER_DIGITS[n]
  }

  /** The receiver knows these twenty-two octets as digits, in either case, and no others. */
  lemma HexDigitTable(b: Byte)
    ensures forall n | 0 <= n < 16 :: HexDigit(LOWER_DIGITS[n]) == HexDigit(UPPER_DIGITS[n]) == n
    ensures HexDigit(b) == -1 <==> b !in LOWER_DIGITS && b !in UPPER_DIGITS
  {
    assert 48 <= b <= 57 ==> LOWER_DIGITS[b - 48] == b;
    assert 97 <= b <= 102 ==> LOWER_DIGITS[b - 87] == b;
    assert 65 <= b <= 70 ==> UPPER_DIGITS[b - 55] == b;
  }

  // How a server prints a chunk's size: some zeros, then the digits, the k-th from the end in upper case if it likes.
  datatype SizeStyle = SizeStyle(zeros: nat, upper: nat -> bool)

  function Zeros(n: nat): Bytes {
    seq(n, i => 48)
  }

  // A number's digits, the last of them the k-th from the end.
  function Digits(n: nat, upper: nat -> bool, k: nat): Bytes {
    if n < 16 then [HexLetter(n, upper(k))] else Digits(n / 16, upper, k + 1) + [HexLetter(n % 16, upper(k))]
  }

  function Hex(n: nat, style: SizeStyle): Bytes {
    Zeros(style.zeros) + Digits(n, style.upper, 0)
  }

  // Some digits that are read as n.
  predicate ReadAs(s: Bytes, n: nat) {
    s != [] && AllHex(s) && Clean(s) && HexValue(s) == n
  }

  lemma ReadAsLetter(s: Bytes, n: nat, d: nat, upper: bool)
    requires d < 16 && (ReadAs(s, n) || (s == [] && n == 0))
    ensures ReadAs(s + [HexLetter(d, upper)], 16 * n + d)
  {
    var b := HexLetter(d, upper);
    HexDigitTable(b);
    assert (s + [b])[..|s|] == s;
    assert b != CR && b != LF;
  }

  lemma {:induction false} ZerosReadBack(n: nat)
    ensures n > 0 ==> ReadAs(Zeros(n), 0)
  {
    if n > 0 {
      ZerosReadBack(n - 1);
      ReadAsLetter(Zeros(n - 1), 0, 0, false);
      assert Zeros(n) == Zeros(n - 1) + [HexLetter(0, false)];
    }
  }

  lemma {:induction false} DigitsReadBack(zeros: Bytes, n: nat, upper: nat -> bool, k: nat)
    requires zeros == [] || ReadAs(zeros, 0)
    ensures ReadAs(zeros + Digits(n, upper, k), n)
    decreases n
  {
    if n < 16 {
      ReadAsLetter(zeros, 0, n, upper(k));
    } else {
      DigitsReadBack(zeros, n / 16, upper, k + 1);
      ReadAsLetter(zeros + Digits(n / 16, upper, k + 1), n / 16, n % 16, upper(k));
      assert zeros + Digits(n, upper, k) == zeros + Digits(n / 16, upper, k + 1) + [HexLetter(n % 16, upper(k))];
    }
  }

  lemma HexReadsBack(n: nat, style: SizeStyle)
    ensures ReadAs(Hex(n, style), n)
  {
    ZerosReadBack(style.zeros);
    DigitsReadBack(Zeros(style.zeros), n, style.upper, 0);
  }

  lemma DigitGoesIn(size: nat, b: Byte) returns (k: int)
    requires HexDigit(b) >= 0
    ensures 16 * size + HexDigit(b) == NextSize(size, b) + k * 0x1_0000_0000
    ensures -0x8000_0000 <= NextSize(size, b) < 0x8000_0000
  {
    var i := WrapsTo32(size * 16);
    var j := WrapsTo32(ToInt32(size * 16) + HexDigit(b));
    k := i + j;
  }

  /** A digit on a size line goes into the size, modulo 2^32; anything else is skipped. */
  lemma SizeGoesOn(size: nat, b: Byte, tail: Bytes) returns (k: int)
    requires size < 0x8000_0000 && b != LF
    ensures Chunks(size, [b] + tail) == Chunks(NextSize(size, b), tail) && -0x8000_0000 <= NextSize(size, b) < 0x8000_0000
    ensures forall n | 0 <= n < 16 && (b == LOWER_DIGITS[n] || b == UPPER_DIGITS[n]) ::
              16 * size + n == NextSize(size, b) + k * 0x1_0000_0000
    ensures b !in LOWER_DIGITS && b !in UPPER_DIGITS ==> NextSize(size, b) == size
  {
    HexDigitTable(b);
    ReadOctet(size, b, tail);
    k := 0;
    if HexDigit(b) >= 0 {
      k := DigitGoesIn(size, b);
    }
  }

  lemma ReadOctet(size: nat, b: Byte, tail: Bytes)
    requires b != LF
    ensures Chunks(size, [b] + tail) == Chunks(NextSize(size, b), tail)
  {
    assert ([b] + tail)[1..] == tail;
  }

  function Success(header: Header): Message {
    Message(Ascii("HTTP/1.1"), Ascii("200"), Ascii("OK"), [header])
  }

  function WithLength(data: Bytes): Frame {
    Frame([], Success(Header(Ascii("Content-Length"), Decimal(|data|))), Fixed(data))
  }

  // A piece of a body, and how the size of its chunk is printed.
  datatype Part = Part(data: Bytes, style: SizeStyle)

  function ChunkOf(part: Part): Chunk {
    Chunk(Hex(|part.data|, part.style), part.data)
  }

  function InChunks(parts: seq<Part>, last: SizeStyle): Frame {
    Frame([], Success(Header(Ascii("Transfer-Encoding"), Ascii("chunked"))),
          Chunked(seq(|parts|, i requires 0 <= i < |parts| => ChunkOf(parts[i])), Hex(0, last)))
  }

  lemma SuccessIsGood(header: Header)
    requires Clean(header.name) && Clean(header.value) && COLON !in header.name
    ensures GoodMessage(Success(header)) && Status(Success(header)) == 200
  {
    var code := Ascii("200");
    assert code == Decimal(200);
    ParseIntDecimal(200);
  }

  lemma DigitsAreClean(s: Bytes)
    requires AllDigits(s)
    ensures Clean(s)
  {
    assert forall b <- s :: IsDigit(b);
  }

  lemma LengthHeader(h: Header)
    requires h.name == Ascii("Content-Length")
    ensures IsLength(h) && !IsChunked(h) && !IsGzip(h) && Clean(h.name) && COLON !in h.name
  {
    assert Upper(h.name) == Ascii("CONTENT-LENGTH");
  }

  lemma ChunkedHeader(h: Header)
    requires h.name == Ascii("Transfer-Encoding") && h.value == Ascii("chunked")
    ensures IsChunked(h) && !IsLength(h) && !IsGzip(h) && Clean(h.name) && Clean(h.value) && COLON !in h.name
  {
    assert Upper(h.name) == Ascii("TRANSFER-ENCODING");
  }

  lemma WithLengthIsGood(data: Bytes)
    requires |data| < 0x8000_0000
    ensures GoodFrame(WithLength(data), false) && Status(WithLength(data).final) == 200
    ensures !Zipped(WithLength(data).final.headers)
  {
    var h := WithLength(data).final.headers[0];
    LengthHeader(h);
    DigitsAreClean(Decimal(|data|));
    SuccessIsGood(h);
    ParseIntDecimal(|data|);
    assert h in WithLength(data).final.headers;
  }

  /** A body sent with its length comes back. */
  lemma LengthRoundTrip(data: Bytes, fields: Fields, gunzip: Bytes -> Bytes, tail: Bytes)
    requires |data| < 0x8000_0000
    ensures var o := Receive(Encode(WithLength(data)) + tail, false, fields, gunzip);
            o.result == Ok(200) && o.body == data && o.rest == tail
  {
    WithLengthIsGood(data);
    ReceiveInvertsEncode(WithLength(data), false, fields, gunzip, tail);
  }

  function Joined(parts: seq<Part>): Bytes {
    if parts == [] then [] else parts[0].data + Joined(parts[1..])
  }

  lemma {:induction false} ChunkDataJoined(parts: seq<Part>, last: SizeStyle)
    ensures ChunkData(InChunks(parts, last).payload.chunks) == Joined(parts)
    decreases |parts|
  {
    if parts != [] {
      ChunkDataJoined(parts[1..], last);
      assert InChunks(parts, last).payload.chunks[1..] == InChunks(parts[1..], last).payload.chunks;
    }
  }

  ghost predicate GoodParts(parts: seq<Part>) {
    forall p <- parts :: 0 < |p.data| < 0x8000_0000
  }

  lemma ChunksAreGood(parts: seq<Part>, last: SizeStyle)
    requires GoodParts(parts)
    ensures forall c <- InChunks(parts, last).payload.chunks :: GoodChunk(c)
  {
    forall c <- InChunks(parts, last).payload.chunks ensures GoodChunk(c) {
      var i :| 0 <= i < |parts| && c == ChunkOf(parts[i]);
      HexReadsBack(|parts[i].data|, parts[i].style);
    }
  }

  lemma InChunksIsGood(parts: seq<Part>, last: SizeStyle)
    requires GoodParts(parts)
    ensures GoodFrame(InChunks(parts, last), false) && Status(InChunks(parts, last).final) == 200
    ensures !Zipped(InChunks(parts, last).final.headers)
  {
    var h := InChunks(parts, last).final.headers[0];
    ChunkedHeader(h);
    SuccessIsGood(h);
    ChunksAreGood(parts, last);
    HexReadsBack(0, last);
  }

  /** However a body is cut into chunks and however their sizes are printed, the chunks put together come back. */
  lemma ChunkedRoundTrip(parts: seq<Part>, last: SizeStyle, fields: Fields, gunzip: Bytes -> Bytes, tail: Bytes)
    requires GoodParts(parts)
    ensures var o := Receive(Encode(InChunks(parts, last)) + tail, false, fields, gunzip);
            o.result == Ok(200) && o.body == Joined(parts) && o.rest == tail
  {
    InChunksIsGood(parts, last);
    ChunkDataJoined(parts, last);
    ReceiveInvertsEncode(InChunks(parts, last), false, fields, gunzip, tail);
  }

  // ---- A Content-Length behind chunked ----

  function LengthBehindChunked(length: Bytes): Message {
    Message(Ascii("HTTP/1.1"), Ascii("200"), Ascii("OK"),
            [Header(Ascii("Transfer-Encoding"), Ascii("chunked")), Header(Ascii("Content-Length"), length)])
  }

  lemma LengthBehindChunkedIsGood(n: nat)
    requires n < 0x8000_0000
    ensures var m := LengthBehindChunked(Decimal(n));
            && GoodMessage(m) && Status(m) == 200 && FramingOf(m.headers) == n
            && IsChunked(m.headers[0]) && !DeclaresChunked(m.headers)
  {
    var m := LengthBehindChunked(Decimal(n));
    ChunkedHeader(m.headers[0]);
    LengthHeader(m.headers[1]);
    DigitsAreClean(Decimal(n));
    SuccessIsGood(m.headers[0]);
    ParseIntDecimal(n);
  }

  /** Chunked followed by `Content-Length: 0`: the response is taken to have no body, and all its chunks stay unread in
      front of the next response. */
  lemma ChunksStayUnread(parts: seq<Part>, last: SizeStyle, fields: Fields, gunzip: Bytes -> Bytes, tail: Bytes)
    ensures var m, body := LengthBehindChunked(Decimal(0)), EncodePayload(InChunks(parts, last).payload) + tail;
            var o := Receive(EncodeMessage(m) + body, false, fields, gunzip);
            o.result == Ok(200) && o.body == [] && o.rest == body && body != tail
  {
    var m, body := LengthBehindChunked(Decimal(0)), EncodePayload(InChunks(parts, last).payload) + tail;
    LengthBehindChunkedIsGood(0);
    ReceiveByFraming(m, fields, gunzip, body);
    assert |EncodePayload(InChunks(parts, last).payload)| > 0;
  }
}
