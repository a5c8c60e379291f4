# A verified model of javautils

javautils is a Java utility library. This project models the parts of it that carry algorithmic state and proves what
they are for. `dafny verify dfyconfig.toml` checks everything.

- **HTTP/1.1 on a byte queue.** `ByteArrayQueue.dfy` is the growable queue: an array, an offset and a length changed in
  place, `QueueRuns.dfy` what whole runs of it guarantee. `HttpSpec.dfy` says what one received response is as a
  function of the octets on the connection; `HttpUtil.dfy` has the loops of `recv`, proved to compute it for every way
  the stream fragments its reads. `HttpFraming.dfy` is an encoder for responses and the proof that receiving inverts it;
  `HttpEncoder.dfy` shows that every body has such an encoding, however it is cut and printed; `HttpLoss.dfy` is what comes
  of input that ends early or is no response. `HttpSend.dfy` and `HttpPipeline.dfy` are the request
  side and the pipelined exchange. `Text.dfy` holds the string functions these use.
- **The object pool.** `PoolProtocol.dfy` is the concurrent protocol: any number of threads, one step per atomic access
  to the deque, `accessed` or `closed` and per call into the subclass, each of which may succeed or throw. `Pool.dfy`
  has the class itself, as one thread sees it, and `PoolRuns.dfy` proves its calls to be runs of the protocol and
  studies the expiry sweep. `HttpPool.dfy` is the socket ownership on top, request by request, and `HttpPoolProtocol.dfy`
  the same for requests that overlap.
- **The JSON pretty-printer.** `JsonSpec.dfy` (tokenizer and printer as functions), `Json.dfy` (their loops),
  `JsonTokens.dfy` and `JsonRoundTrip.dfy` (reading back what is printed), `JsonFormat.dfy` (when
  formatting keeps the tokens and is stable), `JsonThrows.dfy` (when it throws), `JsonTwice.dfy` (when it throws on its own
  result), `JsonContent.dfy` (what of the text it leaves alone), `JsonLayout.dfy` (what the printed text looks like).
- **Codecs.** `Utf8.dfy` and `IntCodec.dfy`.
- **Structures.** `TreeTheory.dfy` and `GenTree.dfy` (a tree from parent ids, in place), `Paging.dfy`, `HtmlText.dfy`
  and `Html.dfy`, `Mime.dfy`.

Loops and objects that change in place are methods and classes here too; each is proved against a specification
function, and the properties are lemmas about that function.

What proved false as one might expect it, with the exact condition under which it holds:

- A clone of a queue shares its array. Removes are private to each copy; an add changes the other copy exactly unless it
  gets a larger array or repeats what is there (`QueueRuns.AddToClone`; with concrete adds,
  `QueueRuns.ClonesOverwriteEachOther` and `QueueRuns.CompactionMovesTheClone`).
- Of several framing headers the last one wins. RFC 7230 lets chunked override Content-Length; here chunks are
  read exactly if no Content-Length follows the last chunked header or the last framing header is a Content-Length below
  0 (`HttpFraming.ChunkedIsUsed`; with a concrete message, `HttpEncoder.ChunksStayUnread`).
- `close` can miss an object that is being returned (`PoolProtocol.CloseCanMissAReturn`). A closed empty pool stays
  empty exactly if no thread is at that point (`PoolProtocol.ClosedPoolStaysEmpty`); which objects can be missed is
  `PoolProtocol.IdleAfterDrain`.
- `requestWithOutResponse` puts a socket that it closes into the pool exactly when it works and the pool is open
  (`HttpPool.WithoutResponsePoolsAClosedSocket`).
- `formatJson` drops a blank that a backslash escapes outside quotes. The token list is kept exactly if no token ends in
  such a lone backslash, unless what is printed behind the token is a blank again (`JsonFormat.FormatKeepsTokens`,
  `JsonFormat.EscapedBlankIsLost`), and always if backslashes stand in closed strings only (`JsonFormat.StringsAreSafe`).
  The result makes formatting throw exactly if such a backslash is last (`JsonTwice.FormatAgainThrows`,
  `JsonTwice.NotAlwaysStable`). Every character that is not white space is kept all the same (`JsonContent.FormatKeepsInk`).
- `encodeUtf8` writes U+07FF in three bytes where two are due (`Utf8.AgreesWithStandard`); its own decoder reads both.
- `toText` throws exactly on text with an `&` among its last nine characters and no semicolon behind it, and shows a
  numeric entity twice (`HtmlText.ShowThrows`, `HtmlText.NumericEntityStays`; at `&#65;`, `HtmlText.NumericEntityTwice`).
- A page flag can be set with no page left out (`Paging.OmittedIsFlagged`).

Modelling decisions:

- A byte is its unsigned value 0 to 255; the modelled code masks with 0xFF wherever the sign would matter. Where Java's
  32 or 64 bits matter (chunk sizes, parsed integers, fields of 8 bytes, shorts, ints, longs) the wrap-around is written out.
- A connection's input is the octets still to come, delivered in pieces of any size; a constant of the stream says
  whether it may also return no byte. Header text is held as Latin-1 octets, as `recv` builds it.
- The queue's `copied` counts the bytes that growing has copied; no code reads it.
- The pool's `borrowed`, `destroyed`, `lost` and `made` are ghost records of what has happened to objects; no code reads
  them. Lost means that activation or passivation ended in a RuntimeException.
- The pool in the encryption package is the same code as the one modelled.
- JSON text is a sequence of UTF-16 code units; `getBytes().length` is a parameter of the formatter.

## Model

| member | source | states |
|---|---|---|
| `HttpPipeline.PipelineInvertsEncoding` | javautils-web/src/main/java/net/jadedungeon/javautil/net/http/Pipeline.java:100-110 | Reading back the concatenation of one well-formed response per request, for any requests and any octets behind them, gives each request its own id, status, headers and body in request order, up to and including the first response that closes; exactly the responses behind that one stay unread (section 6.3.2 of RFC 7230). |
| `HttpPipeline.PipelineCutOff` | javautils-web/src/main/java/net/jadedungeon/javautil/net/http/Pipeline.java:99-110 | However much of the responses has come when the connection is lost: exactly the responses that came completely are delivered, each to its own request and in order, up to the first that closes, and then the connection is reported lost. |
| `HttpPipeline.Pipeline` | javautils-web/src/main/java/net/jadedungeon/javautil/net/http/Pipeline.java:91-111 | All requests go out in order, then the responses read are those of the connection's octets taken one after another, with the error, the unread rest and the early stop; responses already in the caller's list stay. When the stream gives nothing, the responses before that are there, complete. After a normal end the caller's flag says whether the server closes the connection; without requests it is as it was. |
| `HttpPipeline.ReceiveAll` | javautils-web/src/main/java/net/jadedungeon/javautil/net/http/Pipeline.java:99-110 | The receiving loop: the response objects appended hold, each, its id, status, header map and body; a failure of any kind ends the loop with the responses received before it. After a normal end the caller's flag says whether the last response read closes the connection. |
| `HttpPipeline.ReceiveNext` | javautils-web/src/main/java/net/jadedungeon/javautil/net/http/Pipeline.java:100-109 | One turn appends one new response and leaves every earlier response's contents as they were; the caller's flag is that response's. |
| `HttpPipeline.ReceiveOne` | javautils-web/src/main/java/net/jadedungeon/javautil/net/http/Pipeline.java:101-106 | A response joins the list only after it was received, and its close flag is the one just received, whether or not the caller passed an array; if it did, the array says so too. |
| `HttpPipeline.SendAll` | javautils-web/src/main/java/net/jadedungeon/javautil/net/http/Pipeline.java:94-98 | The output is the requests' encodings in order, each with the body it had before any was sent; a body queue shared by several requests goes out with the first, and the others declare and send an empty body. |
| `HttpPipeline.ConverseFrame` | javautils-web/src/main/java/net/jadedungeon/javautil/net/http/Pipeline.java:101-109 | One well-formed response in front of any octets: it is delivered, and the loop stops behind it exactly if it closes. |
| `HttpFraming.ReceiveInvertsEncode` | javautils-web/src/main/java/net/jadedungeon/javautil/net/http/HttpUtil.java:91-229 | For every number of interim 100 responses, Content-Length or chunked payload (or none, for HEAD), any header fields and any octets behind: status, close flag, header map and body come back and exactly the message is consumed (sections 3.3.3 and 4.1 of RFC 7230). |
| `HttpFraming.SkipInterim` | javautils-web/src/main/java/net/jadedungeon/javautil/net/http/HttpUtil.java:110-124 | Any number of 100 responses with any headers leaves no trace in status, flags or header map (section 6.2 of RFC 7231). |
| `HttpFraming.ReadChunks` | javautils-web/src/main/java/net/jadedungeon/javautil/net/http/HttpUtil.java:188-219 | The chunk decoder gives the chunks' data in order, for sizes below 2^31 that the receiver's digits spell, and stops on the last octet of the body (section 4.1 of RFC 7230). |
| `HttpFraming.ReadChunk` | javautils-web/src/main/java/net/jadedungeon/javautil/net/http/HttpUtil.java:197-218 | One chunk: its data is delivered and the decoder is back where it was before the chunk. |
| `HttpFraming.LastFramingHeaderWins` | javautils-web/src/main/java/net/jadedungeon/javautil/net/http/HttpUtil.java:137-151 | The framing used is that of the last Content-Length or chunked header, and none is a body of length 0. |
| `HttpFraming.ChunkedIsUsed` | javautils-web/src/main/java/net/jadedungeon/javautil/net/http/HttpUtil.java:137-151 | The code's sign for chunks is set if and only if no Content-Length follows the last chunked header, or the last framing header is a Content-Length below 0; section 3.3.3 of RFC 7230 asks for chunks whenever a chunked header is there. |
| `HttpFraming.LengthBehindDecides` | javautils-web/src/main/java/net/jadedungeon/javautil/net/http/HttpUtil.java:137-151 | Otherwise, with a chunked header present, the number in the last Content-Length behind it is used. |
| `HttpFraming.ReceiveByFraming` | javautils-web/src/main/java/net/jadedungeon/javautil/net/http/HttpUtil.java:166-229 | So for every final response and every octets behind its head, the body is read not at all, by that length, or as chunks, as the last framing header has it. |
| `HttpEncoder.ChunksStayUnread` | javautils-web/src/main/java/net/jadedungeon/javautil/net/http/HttpUtil.java:137-168 | A concrete violation: chunked followed by `Content-Length: 0` gives an empty body and leaves all chunks unread in front of the next response. |
| `HttpFraming.DeclaredLengthIsUsed` | javautils-web/src/main/java/net/jadedungeon/javautil/net/http/HttpUtil.java:137-139 | Content-Length headers that agree are used, also when several. |
| `HttpFraming.OnHeadersFlags` | javautils-web/src/main/java/net/jadedungeon/javautil/net/http/HttpUtil.java:126-160 | Over all header lines: the close and gzip flags say whether such a header occurred, and the map is the record of all headers. |
| `HttpFraming.RecordedValues` | javautils-web/src/main/java/net/jadedungeon/javautil/net/http/HttpUtil.java:153-160 | The header map holds, under each upper-cased name, the values of that name in the order received, behind those that were there. |
| `HttpEncoder.LengthRoundTrip` | javautils-web/src/main/java/net/jadedungeon/javautil/net/http/HttpUtil.java:165-187 | Every body below 2^31 octets can be framed by its length and is then received unchanged. |
| `HttpEncoder.ChunkedRoundTrip` | javautils-web/src/main/java/net/jadedungeon/javautil/net/http/HttpUtil.java:188-219 | However a body is cut into non-empty chunks, and however their sizes are printed (any number of leading zeros, each digit in either case), it is received as the chunks put together. |
| `HttpEncoder.HexDigitTable` | javautils-web/src/main/java/net/jadedungeon/javautil/net/http/HttpUtil.java:214 | The receiver reads the twenty-two octets of the hexadecimal digits, in either case, as 0 to 15, and no other octet. |
| `HttpEncoder.SizeGoesOn` | javautils-web/src/main/java/net/jadedungeon/javautil/net/http/HttpUtil.java:214-217 | On a size line a digit goes into the size, modulo 2^32, and any other octet but a line feed is skipped. |
| `HttpLoss.ReceiveStable` | javautils-web/src/main/java/net/jadedungeon/javautil/net/http/HttpUtil.java:91-229 | Receiving reads no further than it has to: what it makes of some octets, short of losing the connection, it makes of them with any others behind. |
| `HttpLoss.CutOffIsLost` | javautils-web/src/main/java/net/jadedungeon/javautil/net/http/HttpUtil.java:91-229 | A response cut off anywhere is reported as a lost connection; of its body a first part has been delivered, and nothing if it is a gzip body. |
| `HttpLoss.LostInHeaders` | javautils-web/src/main/java/net/jadedungeon/javautil/net/http/HttpUtil.java:99-160 | When the connection is lost between header lines or inside one, the header map has exactly the lines that came completely, and the close flag is untouched. |
| `HttpLoss.NoStatus` | javautils-web/src/main/java/net/jadedungeon/javautil/net/http/HttpUtil.java:118-122 | A first line that has only spaces behind its first space, or none, is reported as it came; the rest stays unread. |
| `HttpLoss.StatusNotANumber` | javautils-web/src/main/java/net/jadedungeon/javautil/net/http/HttpUtil.java:118-123 | A status that is no number, or 0, does not count: the next line is read as the first. |
| `HttpSpec.StatusMissing` | javautils-web/src/main/java/net/jadedungeon/javautil/net/http/HttpUtil.java:119-122 | There is no status exactly if nothing but spaces follows the first space of the line. |
| `HttpSpec.NoField` | javautils-web/src/main/java/net/jadedungeon/javautil/net/http/HttpUtil.java:125-126 | A header line in which `: ` does not occur changes nothing. |
| `HttpUtil.Recv` | javautils-web/src/main/java/net/jadedungeon/javautil/net/http/HttpUtil.java:91-229 | For every way the stream fragments its reads, the result, the rest of the stream, the appended body, the header map and the close flag are those of the octets alone; a lost connection keeps the part of the body that came, and so does a read that gives nothing, after which map and flag are complete as well. When the head fails the flag stays as it was. |
| `HttpUtil.ReceiveHead` | javautils-web/src/main/java/net/jadedungeon/javautil/net/http/HttpUtil.java:95-163 | The header loop, with the header map as filled when it ends or fails. |
| `HttpUtil.ReceiveHeaderLine` | javautils-web/src/main/java/net/jadedungeon/javautil/net/http/HttpUtil.java:125-160 | One header line of the final response updates flags, length and map. |
| `HttpUtil.CopyResponse` | javautils-web/src/main/java/net/jadedungeon/javautil/net/http/HttpUtil.java:24-42 | Exactly the given number of octets is moved to the queue, or all there were before the connection was lost; on a read that gives nothing, exactly what the stream has lost is in the queue, and it is less than asked for and less than there was. |
| `HttpUtil.ReceiveChunks` | javautils-web/src/main/java/net/jadedungeon/javautil/net/http/HttpUtil.java:188-219 | The chunk loop, with 32-bit arithmetic on its one integer of state; on a read that gives nothing the queue has a first part of the body. |
| `HttpUtil.ReceiveGzip` | javautils-web/src/main/java/net/jadedungeon/javautil/net/http/HttpUtil.java:171-181 | A gzip body is unpacked into the caller's queue only once it has come completely; before that nothing is added, whatever goes wrong. |
| `Text.SplitSecondWord` | javautils-web/src/main/java/net/jadedungeon/javautil/net/http/HttpUtil.java:119-123 | The status code is found between the first two spaces, whatever follows, and is empty between two spaces together. |
| `Text.FirstColon` | javautils-web/src/main/java/net/jadedungeon/javautil/net/http/HttpUtil.java:126-128 | Name and value of a header are cut at the first `: `; colons without a space belong to the name. |
| `Text.IgnoringCase` | javautils-web/src/main/java/net/jadedungeon/javautil/net/http/HttpUtil.java:131-144 | Values compare equal exactly if they have the same octets but for the case of the letters A to Z. |
| `Text.ParseIntReads` | javautils-base/src/main/java/net/jadedungeon/javautil/encryption/Numbers.java:12-21 | White space around a number and a sign in front are allowed; a number beyond 32 bits counts as 0. |
| `Text.ParseIntFails` | javautils-base/src/main/java/net/jadedungeon/javautil/encryption/Numbers.java:12-21 | A text that is not such a number counts as 0. |
| `Text.ParsePrintedInt` | javautils-base/src/main/java/net/jadedungeon/javautil/encryption/Numbers.java:12-21 | Every printed int, negative ones included, parses back to itself. |
| `HttpSend.Send` | javautils-web/src/main/java/net/jadedungeon/javautil/net/http/HttpUtil.java:56-89 | The output is the request head with the body's length declared, then exactly the body; the body queue ends empty. What a server makes of it is ServerReads. |
| `HttpSend.ServerReads` | javautils-web/src/main/java/net/jadedungeon/javautil/net/http/HttpUtil.java:56-89 | A server reads, whatever follows the request: POST exactly with a body, HEAD exactly without one and with `head` set, else GET; the path; HTTP/1.1; the body; and under every name, case disregarded, exactly the values due in order: host, length and proxy authorization if given, then the caller's, then Keep-Alive and gzip (sections 3.1.1 and 3.2 of RFC 7230). |
| `HttpSend.CopyQueue` | javautils-base/src/main/java/net/jadedungeon/javautil/encryption/Streams.java:10-21 | Copying a queue to a stream writes its contents in order, empties it, and ends because each read shortens it. |
| `HttpSend.AddEntries` | javautils-web/src/main/java/net/jadedungeon/javautil/net/http/HttpUtil.java:73-82 | One header line per value, in the order of the entries and their values. |
| `HttpSend.SentRequestReadsBack` | javautils-web/src/main/java/net/jadedungeon/javautil/net/http/HttpUtil.java:56-89 | What is written for a request with a body reads back as its request line, headers and body, and the declared length is the number of body octets. |
| `HttpSend.SentHeadReadsBack` | javautils-web/src/main/java/net/jadedungeon/javautil/net/http/HttpUtil.java:56-86 | A request without a body ends with one blank line; what follows belongs to the next request. |
| `ByteQueue.ByteArrayQueue.Add` | javautils-base/src/main/java/net/jadedungeon/javautil/encryption/ByteArrayQueue.java:92-110 | Contents grow by the bytes given; capacity, offset, length, the bytes copied by growing, and what becomes of the array are stated for growth, compaction and neither, also when the caller's array is the queue's own. |
| `ByteQueue.ByteArrayQueue.MakeRoom` | javautils-base/src/main/java/net/jadedungeon/javautil/encryption/ByteArrayQueue.java:97-105 | Growth and in-place compaction (source and target overlapping) keep the contents. |
| `ByteQueue.ByteArrayQueue.Remove` | javautils-base/src/main/java/net/jadedungeon/javautil/encryption/ByteArrayQueue.java:135-150 | The first bytes are copied out and no longer queued; a large array is released exactly when the queue empties. |
| `ByteQueue.ByteArrayQueue.RemoveCount` | javautils-base/src/main/java/net/jadedungeon/javautil/encryption/ByteArrayQueue.java:141-150 | The first bytes are dropped. |
| `ByteQueue.ByteArrayQueue.SetCapacity` | javautils-base/src/main/java/net/jadedungeon/javautil/encryption/ByteArrayQueue.java:77-83 | Contents stay, in a new array never shorter than they are. |
| `ByteQueue.ByteArrayQueue.Clear` | javautils-base/src/main/java/net/jadedungeon/javautil/encryption/ByteArrayQueue.java:67-75 | Nothing is queued any more; a large array is released. |
| `ByteQueue.ByteArrayQueue.Clone` | javautils-base/src/main/java/net/jadedungeon/javautil/encryption/ByteArrayQueue.java:19-28 | A second queue with the same contents over the same array. |
| `ByteQueue.ByteArrayQueue.Read` | javautils-base/src/main/java/net/jadedungeon/javautil/encryption/ByteArrayQueue.java:170-178 | The input stream gives -1 on an empty queue and otherwise the first bytes, at most as many as asked for. |
| `QueueRuns.Run` | javautils-base/src/main/java/net/jadedungeon/javautil/encryption/ByteArrayQueue.java:67-184 | In every run of adds, removes, stream reads, clears and capacity changes the queue and each call's output are those of a plain byte sequence; without setCapacity the array never exceeds the greatest of its initial size, 32 and twice the peak length; in an add-only run of an empty queue growing copies fewer than twice as many bytes as are added. |
| `QueueRuns.Conservation` | javautils-base/src/main/java/net/jadedungeon/javautil/encryption/ByteArrayQueue.java:84-178 | In every run without clear: what was given out followed by what is left is what was there followed by what was added. |
| `QueueRuns.ReadsMakeProgress` | javautils-base/src/main/java/net/jadedungeon/javautil/encryption/ByteArrayQueue.java:170-178 | A stream read reports the end exactly when nothing is queued, and otherwise gives at least one byte if it may. |
| `QueueRuns.TakeFromClones` | javautils-base/src/main/java/net/jadedungeon/javautil/encryption/ByteArrayQueue.java:19-28 | However removes on a queue and its clone interleave, each has lost exactly what was removed from it. |
| `QueueRuns.AddToClone` | javautils-base/src/main/java/net/jadedungeon/javautil/encryption/ByteArrayQueue.java:93-110 | An add on a clone: what the shared array then holds when it grows, compacts or does neither, and that the original keeps its contents if and only if the add is harmless: it grows, or repeats what is there wherever it writes among the original's bytes. |
| `QueueRuns.HarmlessKeeps` | javautils-base/src/main/java/net/jadedungeon/javautil/encryption/ByteArrayQueue.java:93-110 | The same, on the bytes alone. |
| `QueueRuns.FirstAddIsHarmless` | javautils-base/src/main/java/net/jadedungeon/javautil/encryption/ByteArrayQueue.java:93-110 | The first add after a clone is harmless unless it compacts. |
| `QueueRuns.CompactionMovesTheClone` | javautils-base/src/main/java/net/jadedungeon/javautil/encryption/ByteArrayQueue.java:100-105 | A concrete first add that compacts the shared array and so changes what the original holds. |
| `QueueRuns.ClonesOverwriteEachOther` | javautils-base/src/main/java/net/jadedungeon/javautil/encryption/ByteArrayQueue.java:19-28 | A concrete add on the original and its clone that changes what the original holds. |
| `QueueRuns.CapacityBound` | javautils-base/src/main/java/net/jadedungeon/javautil/encryption/ByteArrayQueue.java:97-150 | The bound on the array's size used by Run, on every sequence of operations. |
| `QueueRuns.AmortisedGrowth` | javautils-base/src/main/java/net/jadedungeon/javautil/encryption/ByteArrayQueue.java:77-104 | The bound on bytes copied used by Run; the counter in MakeRoom is raised where growing copies. |
| `QueueRuns.MovesOnlyIfNeeded` | javautils-base/src/main/java/net/jadedungeon/javautil/encryption/ByteArrayQueue.java:97-105 | An add replaces the array, and copies the contents, exactly if what it is to hold does not fit, and moves them exactly if there is no room behind them. |
| `QueueRuns.EmptiedIsSmall` | javautils-base/src/main/java/net/jadedungeon/javautil/encryption/ByteArrayQueue.java:67-150 | An array of more than 1024 bytes is given up for one of 32 exactly when the queue is emptied; a read at the end of the stream changes nothing. |
| `QueueRuns.CapacityAsAsked` | javautils-base/src/main/java/net/jadedungeon/javautil/encryption/ByteArrayQueue.java:77-83 | setCapacity gives the array asked for, or one just long enough. |
| `PoolProtocol.RunConserves` | javautils-web/src/main/java/net/jadedungeon/javautil/net/Pool.java:45-110 | In every interleaving of any number of threads, every made object is in exactly one of: idle, one thread's hand, borrowed, destroyed, lost. |
| `PoolProtocol.StepConserves` | javautils-web/src/main/java/net/jadedungeon/javautil/net/Pool.java:45-110 | No single step of any thread, whatever exception ends it, duplicates or drops an object. |
| `PoolProtocol.HeldExclusively` | javautils-web/src/main/java/net/jadedungeon/javautil/net/Pool.java:45-110 | An object about to be handed out or destroyed is with that thread alone: no two borrowers, no second destruction, no destruction while in use. |
| `PoolProtocol.DestroyedForever` | javautils-web/src/main/java/net/jadedungeon/javautil/net/Pool.java:45-110 | A destroyed object is never again pooled, held or borrowed, and never destroyed a second time. |
| `PoolProtocol.IdleAfterClose` | javautils-web/src/main/java/net/jadedungeon/javautil/net/Pool.java:84-110 | From a moment at which the pool is closed, whatever lies idle later, until a reopen, lay idle then or was already in the hand of a returner that had already looked at `closed`, or of a sweeper putting an entry back. |
| `PoolProtocol.IdleAfterDrain` | javautils-web/src/main/java/net/jadedungeon/javautil/net/Pool.java:103-110 | From the step in which close finds the deque empty, everything that lies idle before a reopen was at that step in the hand of such a returner or sweeper. |
| `PoolProtocol.ClosedPoolStaysEmpty` | javautils-web/src/main/java/net/jadedungeon/javautil/net/Pool.java:84-110 | A closed empty pool stays empty in every run without a reopen if and only if no thread is past its look at `closed` in a return, or putting an entry back in a sweep. |
| `PoolProtocol.CloseCanMissAReturn` | javautils-web/src/main/java/net/jadedungeon/javautil/net/Pool.java:84-110 | A run from a new pool, of two threads that borrow, return and close, that ends with all calls ended, the pool closed and an object idle in it. |
| `PoolProtocol.OneSweepAnInterval` | javautils-web/src/main/java/net/jadedungeon/javautil/net/Pool.java:47-60 | In every interleaving, between any two states of a run, the number of sweeps started times one more than the interval is at most what `accessed` has gained. |
| `PoolProtocol.SwapStep` | javautils-web/src/main/java/net/jadedungeon/javautil/net/Pool.java:47-50 | Every step keeps it that a thread about to swap `accessed` has seen it more than an interval ago; a swap that succeeds raises `accessed` by more than the interval, and no other step changes it. |
| `Pool.Pool.BorrowObject` | javautils-web/src/main/java/net/jadedungeon/javautil/net/Pool.java:45-82 | The whole new state and result of borrowing, with a sweep if due, for every way activating, making and destroying can end. |
| `Pool.Pool.SweepExpired` | javautils-web/src/main/java/net/jadedungeon/javautil/net/Pool.java:47-60 | The sweep: at most once an interval, from the old end, stopping at the first live entry or where destroying throws. |
| `Pool.Pool.ReturnObject` | javautils-web/src/main/java/net/jadedungeon/javautil/net/Pool.java:84-97 | The whole new state of returning, and when it throws: pooled first with its expiry, destroyed, or lost. |
| `Pool.Pool.Close` | javautils-web/src/main/java/net/jadedungeon/javautil/net/Pool.java:103-110 | Closed, and idle objects destroyed from the new end: all of them, or up to the one whose destruction throws. |
| `PoolRuns.SoloBorrow` | javautils-web/src/main/java/net/jadedungeon/javautil/net/Pool.java:45-82 | borrowObject without interruption is a run of the step protocol that consists of this one call, in which the clock says the given time and every call into the subclass ends as given: the methods and the protocol describe one program. |
| `PoolRuns.SoloReturn` | javautils-web/src/main/java/net/jadedungeon/javautil/net/Pool.java:84-97 | Likewise returnObject, at the time given. |
| `PoolRuns.SoloClose` | javautils-web/src/main/java/net/jadedungeon/javautil/net/Pool.java:103-110 | Likewise close. |
| `PoolRuns.CallConserves` | javautils-web/src/main/java/net/jadedungeon/javautil/net/Pool.java:45-110 | Whole calls keep every object in exactly one place. |
| `PoolRuns.SweepIsFilter` | javautils-web/src/main/java/net/jadedungeon/javautil/net/Pool.java:51-58 | A sweep that ends normally keeps exactly the live entries if and only if no expired entry lies in front of a live one. |
| `PoolRuns.SweptWereExpired` | javautils-web/src/main/java/net/jadedungeon/javautil/net/Pool.java:51-58 | However a sweep ends, only expired entries have left the deque. |
| `PoolRuns.SweptAreDestroyed` | javautils-web/src/main/java/net/jadedungeon/javautil/net/Pool.java:51-58 | What leaves the deque in a sweep is destroyed, and nothing else is. |
| `PoolRuns.RunKeepsOrder` | javautils-web/src/main/java/net/jadedungeon/javautil/net/Pool.java:45-97 | Under a clock that does not run backwards the deque stays newest first by expiry. |
| `PoolRuns.SweepAfterRun` | javautils-web/src/main/java/net/jadedungeon/javautil/net/Pool.java:47-60 | So after any run of calls a sweep that ends normally removes exactly the expired entries. |
| `PoolRuns.DueBorrowSweeps` | javautils-web/src/main/java/net/jadedungeon/javautil/net/Pool.java:45-82 | After any run of calls, a borrow more than an interval after the last sweep: unless destroying throws, every expired entry is destroyed, none lies idle afterwards, and what is lent had not expired or is new. |
| `PoolRuns.OtherBorrowsSweepNothing` | javautils-web/src/main/java/net/jadedungeon/javautil/net/Pool.java:45-82 | A borrow that is not due destroys only what fails to be activated, and leaves the time of the last sweep. |
| `PoolRuns.SweepThrows` | javautils-web/src/main/java/net/jadedungeon/javautil/net/Pool.java:51-58 | A sweep throws exactly if it comes to an expired entry whose destruction throws. |
| `PoolRuns.CloseThrows` | javautils-web/src/main/java/net/jadedungeon/javautil/net/Pool.java:103-110 | close throws exactly if the destruction of some idle object throws. |
| `PoolRuns.ReturnThrowsIf` | javautils-web/src/main/java/net/jadedungeon/javautil/net/Pool.java:84-97 | returnObject throws exactly if the object is lost, or destroyed with an exception. |
| `PoolRuns.BorrowedIfGiven` | javautils-web/src/main/java/net/jadedungeon/javautil/net/Pool.java:45-82 | A borrow gives an object exactly if that object is counted as borrowed. |
| `HttpPool.HttpPool.Use` | javautils-web/src/main/java/net/jadedungeon/javautil/net/http/HttpPool.java:30-52 | The try/finally of request (and pipeline, lines 95-113): what becomes of the socket on every normal and exceptional path, and that the status is given exactly if a socket was lent, the exchange worked and closing did not throw. |
| `HttpPool.HttpPool.UseWithoutResponse` | javautils-web/src/main/java/net/jadedungeon/javautil/net/http/HttpPool.java:54-68 | Here the socket is closed on every path, also after it was returned. |
| `HttpPool.UsedOnce` | javautils-web/src/main/java/net/jadedungeon/javautil/net/http/HttpPool.java:30-52 | A lent socket ends either closed by the request and out of the pool, or given back and not closed; never both, never neither. Given back, it expires by the time of its return. |
| `HttpPool.RunsAreSafe` | javautils-web/src/main/java/net/jadedungeon/javautil/net/http/HttpPool.java:30-113 | In no run of requests, pipelines, closes and reopens does the pool hold a socket that a request has closed. |
| `HttpPool.WithoutResponsePoolsAClosedSocket` | javautils-web/src/main/java/net/jadedungeon/javautil/net/http/HttpPool.java:54-68 | requestWithOutResponse keeps this if and only if sending failed or the pool is closed. |
| `HttpPoolProtocol.ClosedSocketsAreGone` | javautils-web/src/main/java/net/jadedungeon/javautil/net/http/HttpPool.java:30-113 | However any number of requests and pipelines overlap, with closes and reopens: a socket that one of them closed is closed by that one only (whose `finally` may repeat a close that threw), held by none, and neither in the pool nor on its way in or out. |
| `HttpPoolProtocol.EverySocketIsSomewhere` | javautils-web/src/main/java/net/jadedungeon/javautil/net/http/HttpPool.java:30-113 | However requests overlap, every socket made is in exactly one place: idle, on its way into or out of the pool, in one request's use, destroyed by the pool, or closed by one request. None leaks. |
| `HttpPoolProtocol.SocketsAreNotShared` | javautils-web/src/main/java/net/jadedungeon/javautil/net/http/HttpPool.java:30-113 | A socket in use is open, used by one request only, and not in the pool. |
| `HttpPoolProtocol.ReturnsWhatWasLent` | javautils-web/src/main/java/net/jadedungeon/javautil/net/http/HttpPool.java:30-113 | A request only returns what the pool has lent: what the pool needs of its clients is kept. |
| `HttpPoolProtocol.MoveKeepsOwned` | javautils-web/src/main/java/net/jadedungeon/javautil/net/http/HttpPool.java:30-113 | Each step of each request keeps what is lent and what the requests hold the same. |
| `JsonFormat.FormatKeepsTokens` | javautils-base/src/main/java/net/jadedungeon/javautil/json/JsonUtils.java:108-237 | The formatted text has the input's token list, up to an empty last token, if and only if no token ends in an unquoted escape that the text printed right behind it would change. |
| `JsonFormat.EscapedBlankIsLost` | javautils-base/src/main/java/net/jadedungeon/javautil/json/JsonUtils.java:219-224 | A concrete text on which that condition fails: an escaped blank in front of a comma. |
| `JsonFormat.FormatIsIdempotent` | javautils-base/src/main/java/net/jadedungeon/javautil/json/JsonUtils.java:108-199 | Formatting a formatted text changes nothing, if the first formatting kept the tokens. |
| `JsonFormat.StringsAreSafe` | javautils-base/src/main/java/net/jadedungeon/javautil/json/JsonUtils.java:108-237 | It does keep them on every text with backslashes only inside closed strings, as JSON has them. |
| `JsonTwice.FormatAgainThrows` | javautils-base/src/main/java/net/jadedungeon/javautil/json/JsonUtils.java:108-237 | Formatting a formatted text throws exactly if the first text, without the white space at its end, ends in an odd number of backslashes. |
| `JsonTwice.NotAlwaysStable` | javautils-base/src/main/java/net/jadedungeon/javautil/json/JsonUtils.java:108-237 | A concrete text that is formatted to one on which formatting throws. |
| `JsonTwice.StableThoughUnsafe` | javautils-base/src/main/java/net/jadedungeon/javautil/json/JsonUtils.java:108-237 | A concrete text that loses a token and is formatted stably all the same. |
| `JsonThrows.FormatThrows` | javautils-base/src/main/java/net/jadedungeon/javautil/json/JsonUtils.java:108-237 | On a text that is not blank, formatting throws exactly if the text ends in an odd number of backslashes, or in an opening bracket that is neither escaped nor in a string. |
| `JsonThrows.FormatIsNull` | javautils-base/src/main/java/net/jadedungeon/javautil/json/JsonUtils.java:109-111 | It gives null exactly for null and for texts of nothing but white space. |
| `JsonThrows.UnreadableText` | javautils-base/src/main/java/net/jadedungeon/javautil/json/JsonUtils.java:201-237 | Reading the tokens throws exactly if the text ends in an odd number of backslashes. |
| `JsonThrows.OpenText` | javautils-base/src/main/java/net/jadedungeon/javautil/json/JsonUtils.java:201-237 | The last token is an opening bracket exactly if the last character is one that is neither escaped nor in a string. |
| `JsonContent.FormatKeepsInk` | javautils-base/src/main/java/net/jadedungeon/javautil/json/JsonUtils.java:108-237 | For every text that is formatted, whether its tokens survive or not: all its characters that are not white space are in the formatted text, in order, and no others. |
| `JsonContent.FormatKeepsStrings` | javautils-base/src/main/java/net/jadedungeon/javautil/json/JsonUtils.java:108-237 | If the tokens survive, so do the closed strings of the text: the same ones in the same order, with the white space and the escapes in them. |
| `JsonLayout.FormatIsLaidOut` | javautils-base/src/main/java/net/jadedungeon/javautil/json/JsonUtils.java:135-198 | What is printed is, for every text, the pieces of its tokens in order, each at the number of brackets open there: the printer's counter never differs from it. |
| `JsonLayout.PrintedAtDepth` | javautils-base/src/main/java/net/jadedungeon/javautil/json/JsonUtils.java:135-198 | Every token that does not close an empty pair has its piece in the printed text, and the piece is, character by character, as its kind and depth have it: behind a comma and an opening bracket, and in front of a closing one, a line feed and the indent as often as the level says. |
| `JsonLayout.LevelsNeverNegative` | javautils-base/src/main/java/net/jadedungeon/javautil/json/JsonUtils.java:150-184 | For properly bracketed tokens every piece is printed at a level that is never negative, and the level behind the last is 0. |
| `JsonLayout.CloserAtOpenersLevel` | javautils-base/src/main/java/net/jadedungeon/javautil/json/JsonUtils.java:150-184 | The printed text has the opener of a non-empty pair, a line feed and the indent level-many times, one level deeper, then what is printed between, all of it deeper, then a line feed and the indent at the opener's level, and the closer. |
| `JsonLayout.KeysLineUp` | javautils-base/src/main/java/net/jadedungeon/javautil/json/JsonUtils.java:126-133 | In the printed text the bytes of a key and the blanks between it and its colon are together one more than the greatest width, for every key, so all colons line up. |
| `JsonLayout.BracketsAreNotPadded` | javautils-base/src/main/java/net/jadedungeon/javautil/json/JsonUtils.java:162-184 | A closing bracket in front of a colon ends its piece: it is not padded. |
| `JsonLayout.WidthIsGreatest` | javautils-base/src/main/java/net/jadedungeon/javautil/json/JsonUtils.java:126-133 | The width is the byte length of the widest token in front of a colon. |
| `JsonTokens.RawTokensSpell` | javautils-base/src/main/java/net/jadedungeon/javautil/json/JsonUtils.java:116-123 | Untrimmed, the tokens spell the input, and none is empty. |
| `JsonTokens.TokensAreGood` | javautils-base/src/main/java/net/jadedungeon/javautil/json/JsonUtils.java:201-237 | The shape of every token list: where a token can be empty, be a mark, end in a closing quote, or be cut short. |
| `JsonRoundTrip.PrintReads` | javautils-base/src/main/java/net/jadedungeon/javautil/json/JsonUtils.java:135-198 | The printed text of any such token list, from any token on and at any level, reads back as those tokens exactly under the condition of FormatKeepsTokens. |
| `Json.GetToken` | javautils-base/src/main/java/net/jadedungeon/javautil/json/JsonUtils.java:201-237 | The token loop, with its quoting state and its failure on a final backslash. |
| `Json.ReadTokens` | javautils-base/src/main/java/net/jadedungeon/javautil/json/JsonUtils.java:113-124 | The reading loop ends, because no token is empty, and gives the trimmed tokens. |
| `Json.PrintToken` | javautils-base/src/main/java/net/jadedungeon/javautil/json/JsonUtils.java:139-196 | One turn of the printing loop: text added, tokens used up, new level. |
| `Json.FormatJson` | javautils-base/src/main/java/net/jadedungeon/javautil/json/JsonUtils.java:108-199 | formatJson as a whole, null and exceptions included. |
| `GenTree.Build` | javautils-base/src/main/java/net/jadedungeon/javautil/datastructures/TreeNodeHelper.java:27-57 | For unique ids and a root that is not its own descendant: the call ends; every descendant gets a parent that it names, every node of the region has as children exactly the nodes naming it, as they come in the list of all nodes, or sorted if there is a comparator that is a total preorder, equal ones as they come, the map gains exactly the proper descendants' ids, and nothing else changes: not the parents and lists of other nodes, not the root's own parent, not what the map had under other ids. |
| `GenTree.ArrangedChildren` | javautils-base/src/main/java/net/jadedungeon/javautil/datastructures/TreeNodeHelper.java:30-51 | The child list the methods leave holds the nodes naming the parent, each once: in list order without a comparator, else sorted and stable. |
| `GenTree.GenTree` | javautils-base/src/main/java/net/jadedungeon/javautil/datastructures/TreeNodeHelper.java:27-57 | The recursive call: its measure is the set of proper descendants, and what other calls have built stays built. |
| `GenTree.Expand` | javautils-base/src/main/java/net/jadedungeon/javautil/datastructures/TreeNodeHelper.java:30-52 | One node gets its children, linked, recorded and sorted. |
| `GenTree.SortBySorts` | javautils-base/src/main/java/net/jadedungeon/javautil/datastructures/TreeNodeHelper.java:49-51 | The child lists are sorted when the comparator is a total preorder. |
| `TreeTheory.ChildAcyclic` | javautils-base/src/main/java/net/jadedungeon/javautil/datastructures/TreeNodeHelper.java:52-54 | The recursion goes to a node that is not its own descendant and has strictly fewer descendants. |
| `TreeTheory.SiblingsApart` | javautils-base/src/main/java/net/jadedungeon/javautil/datastructures/TreeNodeHelper.java:52-54 | The calls for different children have no node in common. |
| `Utf8.RoundTrip` | javautils-base/src/main/java/net/jadedungeon/javautil/encryption/Bytes.java:244-309 | Every sequence of 16-bit chars, lone surrogates and U+07FF included, is decoded from its encoding. |
| `Utf8.AgreesWithStandard` | javautils-base/src/main/java/net/jadedungeon/javautil/encryption/Bytes.java:244-268 | Text without surrogates is encoded as section 3 of RFC 3629 has it if and only if U+07FF does not occur in it. |
| `Utf8.DecodesStandard` | javautils-base/src/main/java/net/jadedungeon/javautil/encryption/Bytes.java:276-309 | What the standard's encoding of each char is, the decoder reads. |
| `Utf8.StrayAndCutOff` | javautils-base/src/main/java/net/jadedungeon/javautil/encryption/Bytes.java:276-309 | Behind any text: a continuing byte where a character should start reads as `?`, and so does each byte of a last character that is cut off. |
| `Utf8.LowBitsOnly` | javautils-base/src/main/java/net/jadedungeon/javautil/encryption/Bytes.java:276-309 | Of a continuing byte only the low six bits are looked at, and four-byte forms are read as three-byte ones. |
| `Utf8.EncodeUtf8` | javautils-base/src/main/java/net/jadedungeon/javautil/encryption/Bytes.java:244-268 | The encoding loop stays within its buffer of three bytes a char. |
| `Utf8.DecodeUtf8` | javautils-base/src/main/java/net/jadedungeon/javautil/encryption/Bytes.java:276-309 | The decoding loop stays within the given range on arbitrary bytes, with a replacement for what is cut off. |
| `IntCodec.WriteAndReadBack` | javautils-base/src/main/java/net/jadedungeon/javautil/encryption/BinaryCoder.java:68-100 | Fields of at most 8 bytes written at chained offsets read back at those offsets as their values modulo 256 to the size (as signed longs at size 8), and no other byte changes. |
| `IntCodec.EncodeBigEndian` | javautils-base/src/main/java/net/jadedungeon/javautil/encryption/BinaryCoder.java:68-77 | The field's bytes stand at the offset, nothing else changes, and the next offset is returned. |
| `IntCodec.DecodeBigEndian` | javautils-base/src/main/java/net/jadedungeon/javautil/encryption/BinaryCoder.java:90-100 | The value the bytes spell, as a Java long. |
| `IntCodec.ValueOfBigEndian` | javautils-base/src/main/java/net/jadedungeon/javautil/encryption/BinaryCoder.java:68-77 | The bytes written spell the value modulo 256 to the size. |
| `IntCodec.FieldAt` | javautils-base/src/main/java/net/jadedungeon/javautil/encryption/BinaryCoder.java:68-77 | Where the offsets chain to, each field's bytes stand. |
| `IntCodec.SetInt` | javautils-base/src/main/java/net/jadedungeon/javautil/encryption/Bytes.java:110-128 | The same bytes as a 4-byte field, or their reversal. |
| `IntCodec.SetLong` | javautils-base/src/main/java/net/jadedungeon/javautil/encryption/Bytes.java:138-146 | The same bytes as an 8-byte field, or their reversal, although written as two ints. |
| `IntCodec.SetShort` | javautils-base/src/main/java/net/jadedungeon/javautil/encryption/Bytes.java:86-94 | The same bytes as a 2-byte field, or their reversal. |
| `IntCodec.LeastByte` | javautils-base/src/main/java/net/jadedungeon/javautil/encryption/Bytes.java:86-146 | Little-endian is the least byte first, big-endian the least byte last. |
| `IntCodec.IntRoundTrip` | javautils-base/src/main/java/net/jadedungeon/javautil/encryption/Bytes.java:179-184 | A number set and read back as an int is itself wrapped to 32 bits, in both byte orders. |
| `IntCodec.LongRoundTrip` | javautils-base/src/main/java/net/jadedungeon/javautil/encryption/Bytes.java:198-203 | A number set and read back as a long is itself wrapped to 64 bits, in both byte orders. |
| `IntCodec.ShortRoundTrip` | javautils-base/src/main/java/net/jadedungeon/javautil/encryption/Bytes.java:160-165 | A short read back is not sign-extended: it is its value modulo 2^16. |
| `IntCodec.HexRoundTrip` | javautils-base/src/main/java/net/jadedungeon/javautil/encryption/Bytes.java:37-70 | fromHex inverts both toHex forms. |
| `IntCodec.HexCase` | javautils-base/src/main/java/net/jadedungeon/javautil/encryption/Bytes.java:46-70 | The letters written are A to F or a to f, as asked. |
| `IntCodec.OtherCharsAreZero` | javautils-base/src/main/java/net/jadedungeon/javautil/encryption/Bytes.java:37-44 | fromHex takes any other character for a 0. |
| `IntCodec.ToHexChars` | javautils-base/src/main/java/net/jadedungeon/javautil/encryption/Bytes.java:46-54 | The hexadecimal digits of the given range, two a byte. |
| `IntCodec.FromHexChars` | javautils-base/src/main/java/net/jadedungeon/javautil/encryption/Bytes.java:37-44 | A byte for every two characters, an odd last one left out. |
| `Paging.PagesPartition` | javautils-dao/src/main/java/net/jadedungeon/javautil/dao/PageSpliter.java:24-45 | Every record lies on exactly one of the pages counted, and every page counted has a record. |
| `Paging.OnePageAtLeast` | javautils-dao/src/main/java/net/jadedungeon/javautil/dao/PageSpliter.java:24-45 | Without records or without a page size there is one page, and the first page and any before it start with the first record. |
| `Paging.SplitPage` | javautils-dao/src/main/java/net/jadedungeon/javautil/dao/PageSpliter.java:93-166 | The page numbers, both lists and both flags that splitting sets. |
| `Paging.WindowIsTen` | javautils-dao/src/main/java/net/jadedungeon/javautil/dao/PageSpliter.java:119-160 | Both lists and the current page together are consecutive page numbers, ten of them or all there are. |
| `Paging.WindowPlace` | javautils-dao/src/main/java/net/jadedungeon/javautil/dao/PageSpliter.java:119-160 | The window reaches four pages back and five ahead where there are as many; at either end, and beyond, it is the first or last ten pages. |
| `Paging.OmittedIsFlagged` | javautils-dao/src/main/java/net/jadedungeon/javautil/dao/PageSpliter.java:119-138 | A side with pages left out is always flagged, and exactly when a flag is set with nothing left out. |
| `Html.TokensPartition` | javautils-base/src/main/java/net/jadedungeon/javautil/text/HtmlUtil.java:65-113 | The tokens are not empty and put together are the source, so the loop of html2text ends. Markup up to its first `>` says what a token is: a comment if it starts as one, else a script if it is a script tag, else a tag. A tag ends at its first `>`, a comment or script at its first closing string; text holds no `<` except where a last `<` has no `>`. |
| `Html.IndexOfString` | javautils-base/src/main/java/net/jadedungeon/javautil/text/HtmlUtil.java:115-133 | The search finds the first place of the string, except that it misses one at the very end. |
| `Html.Parse` | javautils-base/src/main/java/net/jadedungeon/javautil/text/HtmlUtil.java:65-113 | All the same every token ends where it would with a search that misses nothing. |
| `HtmlText.ToText` | javautils-base/src/main/java/net/jadedungeon/javautil/text/HtmlUtil.java:262-355 | The loop on any text, entities and exceptions included. |
| `HtmlText.ReadUtil` | javautils-base/src/main/java/net/jadedungeon/javautil/text/HtmlUtil.java:359-370 | The search for the end of an entity, which runs past the array. |
| `HtmlText.ShowThrows` | javautils-base/src/main/java/net/jadedungeon/javautil/text/HtmlUtil.java:262-370 | toText throws if and only if the text has an `&` among its last nine characters and no semicolon behind it. |
| `HtmlText.NumericEntityStays` | javautils-base/src/main/java/net/jadedungeon/javautil/text/HtmlUtil.java:318-330 | A numeric entity is shown as its char and then again, as it stands but for the `&`, if it has no space, line end or further `&` in it; else reading goes on behind its `&`. |
| `HtmlText.NumericEntityTwice` | javautils-base/src/main/java/net/jadedungeon/javautil/text/HtmlUtil.java:318-330 | `&#65;` is shown as `A#65;`. |
| `HtmlText.OtherAmpersands` | javautils-base/src/main/java/net/jadedungeon/javautil/text/HtmlUtil.java:304-342 | An `&` with nine characters behind it and no semicolon among them, or one that starts no known entity, is shown as it stands; so is `&#` in front of what is no number. |
| `HtmlText.MarkupEntities` | javautils-base/src/main/java/net/jadedungeon/javautil/text/HtmlUtil.java:306-316 | `&lt;` and `&gt;`, with ordinary text behind, are shown as their characters. |
| `HtmlText.TextEntities` | javautils-base/src/main/java/net/jadedungeon/javautil/text/HtmlUtil.java:306-316 | Likewise `&amp;` and `&nbsp;`; `&quot;` is shown as a slash. |
| `HtmlText.SymbolEntities` | javautils-base/src/main/java/net/jadedungeon/javautil/text/HtmlUtil.java:306-316 | `&reg;` and `&copy;` are shown as letters in parentheses, `&pound;` as a question mark. |
| `HtmlText.NotStableWithEntities` | javautils-base/src/main/java/net/jadedungeon/javautil/text/HtmlUtil.java:303-355 | Showing text twice can differ from showing it once: `&amp;lt;` is shown as `&lt;`, and that as `<`. |
| `HtmlText.PlainShow` | javautils-base/src/main/java/net/jadedungeon/javautil/text/HtmlUtil.java:262-302 | Without `&`, the one pass with a lookahead of one gives what leaving out line ends and then squeezing spaces gives; behind a pre tag, what turning line ends into line feeds gives. |
| `HtmlText.ToTextIsStable` | javautils-base/src/main/java/net/jadedungeon/javautil/text/HtmlUtil.java:262-302 | On text without `&` toText outside pre is idempotent, with no line ends and no adjacent spaces in its result. |
| `HtmlText.PlainIsFlat` | javautils-base/src/main/java/net/jadedungeon/javautil/text/HtmlUtil.java:262-302 | Outside pre the text has no line ends and no adjacent spaces, and exactly such text is left as it is. |
| `HtmlText.PreIsStable` | javautils-base/src/main/java/net/jadedungeon/javautil/text/HtmlUtil.java:278-291 | Behind a pre tag no carriage return is left, and doing it again changes nothing. |
| `Html.Html2Text` | javautils-base/src/main/java/net/jadedungeon/javautil/text/HtmlUtil.java:44-60 | For every source: the texts of all tokens in order, white space being kept only in the token right behind a pre tag. |
| `Html.TextsAreShown` | javautils-base/src/main/java/net/jadedungeon/javautil/text/HtmlUtil.java:44-60 | The result is what each token shows as, in order: nothing for comments, scripts and pre tags, its text for another tag, and for text what toText gives, in pre mode exactly behind a pre tag. |
| `Html.TextsThrow` | javautils-base/src/main/java/net/jadedungeon/javautil/text/HtmlUtil.java:44-60 | It throws if and only if some text token has an `&` among its last nine characters and no semicolon behind it. |
| `Mime.HasAttachment` | javautils-web/src/main/java/net/jadedungeon/javautil/net/email/MailUtil.java:553-581 | The walk that stops early is true exactly if the full walk would call the handler at least once. |
| `Mime.ParseAttachment` | javautils-web/src/main/java/net/jadedungeon/javautil/net/email/MailUtil.java:698-727 | The calls the attachment handler receives, with the message and in order. |
| `Mime.ParseMessage` | javautils-web/src/main/java/net/jadedungeon/javautil/net/email/MailUtil.java:398-413 | For every message the body handler is called, then the attachment handler for all its attachments: asking first loses none. |
| `Mime.MessagesInOrder` | javautils-web/src/main/java/net/jadedungeon/javautil/net/email/MailUtil.java:398-413 | The calls fall into one part for each message, in order: its body call first, then one call for each of its attachments. |
| `Mime.HandledAreTheAttachments` | javautils-web/src/main/java/net/jadedungeon/javautil/net/email/MailUtil.java:698-727 | For every tree the handler is called for exactly the parts at the places that are attachments, each once and in document order (section 5.1 of RFC 2046). |

## Left out

- Real sockets, TLS, DNS, URL parsing, timeouts, and I/O errors other than a lost connection and an empty read.
- `GZIPInputStream`: what it yields from the collected bytes is a function parameter, also for bytes it fails on.
- `String.getBytes()` of paths, hosts and headers: the octets are the parameters; a header map is the list of its
  entries in iteration order.
- Case folding outside ASCII in header names and values.
- Chunk extensions, trailers, bodies that end with the connection and interim responses other than 100: the code does not
  implement them. `HttpUtil.Recv` is proved for all octets, so what it does with them is stated; that it is right is not.
- Queue capacities, request lengths and record counts are unbounded integers: 32-bit overflow of them is not modelled.
- HttpPipeline.Pipeline: a request's body queue is fixed when the request is made, because the exchange never calls the setter.
- HttpSend.SentRequestReadsBack: for header names without a colon and text without line ends, which `send` does not check.
- PoolProtocol.RunConserves: takes it that `makeObject` never gives the same object twice and that clients return only
  what they have borrowed; an Error thrown by the subclass is treated like a RuntimeException.
- PoolProtocol.IdleAfterDrain: starts where `close` finds the deque empty; that `close` itself always ends is not claimed, since
  returners may keep the deque filled.
- HttpUtil.Recv: after a read that gives nothing, how far into the body the stream stands is only bounded, as it depends on the
  fragmentation.
- HttpPool.HttpPool.Use: a socket is an identity and closing it a record; activation and passivation do nothing, as in
  the socket pool.
- JsonFormat.FormatKeepsTokens: for an indent of white space.
- JsonFormat.FormatIsIdempotent: for an indent of white space and texts whose tokens survive. Some texts that lose a token are
  formatted stably too (`JsonTwice.StableThoughUnsafe`); which of them, depends on the layout of the rest of the text.
- HttpPoolProtocol.ClosedSocketsAreGone: a close is one move; that the `finally` repeats a close that threw is in `HttpPool.HttpPool.Use`.
- GenTree.Build: ids are never null and compared by value, the comparator looks at ids, child lists are null or empty
  before the call.
- HtmlText.ToText: which char the number of a numeric entity stands for is a parameter.
- HtmlText.ToTextIsStable: for text without `&`; with entities it does not hold, as they are resolved once more (`HtmlText.NotStableWithEntities`).
- Html.Html2Text: the texts that tags stand for and the case folding of tag names are parameters.
- Mime.ParseMessage: a part is what the walks look at; I/O errors are not modelled.
- `toString` of the queue, `decodeLatin1`, `transDataToHexString`, `fromBigInteger` and the random and printing helpers of
  `Bytes`: easy or wrong as written, and nothing modelled depends on them.
- The object mapping, database, mail transport, image, date and GUI parts of the library: plumbing around other libraries.
