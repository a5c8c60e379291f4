/** Several requests on one connection, their responses read back in order. */
module HttpPipeline {
  import opened ByteQueue
  import opened HttpFraming
  import opened HttpLoss
  import opened HttpSend
  import opened HttpSpec
  import opened HttpUtil
  import opened Octets
  import opened Options

  // `body` is what setBody last gave; the pipeline never calls the setter.
  class Request {
    const id: int
    const path: Bytes
    const head: bool
    const headers: Entries
    const body: ByteArrayQueue?

    constructor (id: int, path: Bytes, head: bool, headers: Entries, body: ByteArrayQueue?)
      ensures this.id == id && this.path == path && this.head == head && this.headers == headers && this.body == body
    {
      this.id, this.path, this.head, this.headers, this.body := id, path, head, headers, body;
    }
  }

  class Response {
    const id: int
    var status: int
    const body: ByteArrayQueue
    const headers: HeaderMap

    constructor (id: int)
      ensures this.id == id && status == 0
      ensures fresh(body) && fresh(body.buf) && fresh(headers)
      ensures body.Valid() && body.Contents() == [] && headers.fields == map[]
    {
      this.id, status := id, 0;
      body := new ByteArrayQueue(32);
      headers := new HeaderMap();
    }
  }

  class ResponseList {
    var items: seq<Response>

    constructor ()
      ensures items == []
    {
      items := [];
    }
  }

  datatype Reply = Reply(id: int, status: int, body: Bytes, fields: Fields)
  datatype Ask = Ask(id: int, head: bool)
  datatype Session = Session(replies: seq<Reply>, error: Option<HttpError>, closed: bool, rest: Bytes)

  // The replies to `asks` as a function of the octets on the connection.
  function Converse(asks: seq<Ask>, input: Bytes, gunzip: Bytes -> Bytes): Session
    decreases |asks|
  {
    if asks == [] then Session([], None, false, input)
    else
      var o := Receive(input, asks[0].head, map[], gunzip);
      match o.result
      case Err(error) => Session([], Some(error), false, o.rest)
      case Ok(status) =>
        var reply := Reply(asks[0].id, status, o.body, o.fields);
        if o.close == Some(true) then Session([reply], None, true, o.rest)
        else
          Then([reply], Converse(asks[1..], o.rest, gunzip))
  }

  function Then(replies: seq<Reply>, more: Session): Session {
    more.(replies := replies + more.replies)
  }

  lemma ConverseStep(replies: seq<Reply>, asks: seq<Ask>, input: Bytes, gunzip: Bytes -> Bytes)
    requires asks != []
    ensures var o := Receive(input, asks[0].head, map[], gunzip);
            Then(replies, Converse(asks, input, gunzip)) ==
              match o.result
              case Err(error) => Session(replies, Some(error), false, o.rest)
              case Ok(status) =>
                var next := replies + [Reply(asks[0].id, status, o.body, o.fields)];
                if o.close == Some(true) then Session(next, None, true, o.rest)
                else Then(next, Converse(asks[1..], o.rest, gunzip))
  {
    var o := Receive(input, asks[0].head, map[], gunzip);
    if o.result.Ok? {
      var reply, more := Reply(asks[0].id, o.result.value, o.body, o.fields), Converse(asks[1..], o.rest, gunzip);
      assert replies + ([reply] + more.replies) == replies + [reply] + more.replies;
    }
  }

  ghost predicate Holds(r: Response, reply: Reply)
    reads r, r.body, r.body.buf, r.headers
  {
    && r.id == reply.id && r.status == reply.status && r.headers.fields == reply.fields
    && r.body.Valid() && r.body.Contents() == reply.body
  }

  function AskOf(r: Request): Ask {
    Ask(r.id, r.head)
  }

  function Asks(requests: seq<Request>): seq<Ask> {
    seq(|requests|, i requires 0 <= i < |requests| => AskOf(requests[i]))
  }

  // The caller's flag, if it has given one.
  ghost predicate FlagIs(connectionClose: array?<bool>, close: bool)
    reads connectionClose
  {
    var flagIs := connectionClose != null && connectionClose.Length > 0 ==> connectionClose[0] == close;
    flagIs
  }

  /** One response, into an object that has nothing in it yet. */
  method ReceiveInto(input: InputStream, request: Request, response: Response, connectionClose: array<bool>, gunzip: Bytes -> Bytes)
    returns (error: Option<HttpError>)
    requires connectionClose.Length > 0 && response.id == request.id
    requires response.body.Valid() && response.body.Contents() == [] && response.headers.fields == map[]
    modifies input, response, response.body, response.body.buf, response.headers, connectionClose
    ensures response.body.buf == old(response.body.buf) || fresh(response.body.buf)
    ensures error == Some(ZeroBytesRead) ==> input.mayStall
    ensures error != Some(ZeroBytesRead) ==>
              var o := Receive(old(input.rest), request.head, map[], gunzip);
              && input.rest == o.rest
              && (o.result.Err? ==> error == Some(o.result.error))
              && (o.result.Ok? ==> error == None && Holds(response, Reply(request.id, o.result.value, o.body, o.fields))
                                   && o.close == Some(connectionClose[0]))
  {
    var status, part := Recv(input, response.body, response.headers, request.head, connectionClose, gunzip);
    if status.Err? {
      return Some(status.error);
    }
    response.status := status.value;
    assert response.body.Contents() == [] + part;
    return None;
  }

  /** One response, into a new object that joins the list unless receiving fails. */
  method ReceiveOne(input: InputStream, request: Request, responses: ResponseList, connectionClose: array?<bool>,
        gunzip: Bytes -> Bytes)
    returns (response: Response, error: Option<HttpError>, close: bool)
    requires connectionClose != null ==> connectionClose.Length > 0
    modifies input, responses, connectionClose
    ensures fresh(response) && fresh(response.body) && fresh(response.body.buf) && fresh(response.headers)
    ensures responses.items == old(responses.items) + if error.Some? then [] else [response]
    ensures error == Some(ZeroBytesRead) ==> input.mayStall
    ensures error != Some(ZeroBytesRead) ==>
              var o := Receive(old(input.rest), request.head, map[], gunzip);
              && input.rest == o.rest
              && (o.result.Err? ==> error == Some(o.result.error))
              && (o.result.Ok? ==> error == None && Holds(response, Reply(request.id, o.result.value, o.body, o.fields))
                                   && o.close == Some(close))
    ensures error.None? ==> FlagIs(connectionClose, close)
  {
    var connectionClose_ := connectionClose;
    if connectionClose_ == null {
      connectionClose_ := new bool[1](_ => false);
    }
    response := new Response(request.id);
    error := ReceiveInto(input, request, response, connectionClose_, gunzip);
    if error.Some? {
      return response, error, false;
    }
    responses.items := responses.items + [response];
    close := connectionClose_[0];
  }

  ghost predicate AllHold(got: seq<Response>, replies: seq<Reply>)
    reads got, set r <- got :: r.body, set r <- got :: r.body.buf, set r <- got :: r.headers
  {
    |got| == |replies| && forall k :: 0 <= k < |got| ==> Holds(got[k], replies[k])
  }

  /** One turn of the loop: earlier responses keep what they hold. */
  method ReceiveNext(input: InputStream, request: Request, responses: ResponseList, connectionClose: array?<bool>,
        gunzip: Bytes -> Bytes, ghost got: seq<Response>, ghost replies: seq<Reply>)
    returns (error: Option<HttpError>, close: bool, response: Response, ghost got': seq<Response>, ghost replies': seq<Reply>)
    requires connectionClose != null ==> connectionClose.Length > 0
    requires AllHold(got, replies)
    modifies input, responses, connectionClose
    ensures AllHold(got', replies')
    ensures error == Some(ZeroBytesRead) ==> input.mayStall
    ensures error.Some? ==> got' == got && replies' == replies && responses.items == old(responses.items)
    ensures error.None? ==> got' == got + [response] && responses.items == old(responses.items) + [response]
    ensures fresh(response)
    ensures error != Some(ZeroBytesRead) ==>
              var o := Receive(old(input.rest), request.head, map[], gunzip);
              && input.rest == o.rest && (o.result.Err? ==> error == Some(o.result.error))
              && (o.result.Ok? ==> error == None && o.close == Some(close)
                                   && replies' == replies + [Reply(request.id, o.result.value, o.body, o.fields)])
    ensures error.None? ==> FlagIs(connectionClose, close)
  {
    ghost var o := Receive(input.rest, request.head, map[], gunzip);
    response, error, close := ReceiveOne(input, request, responses, connectionClose, gunzip);
    got', replies' := got, replies;
    if error.None? {
      got' := got + [response];
      replies' := replies + [Reply(request.id, o.result.value, o.body, o.fields)];
    }
  }

  // The session as far as it goes: all of it, or the replies before the one during which the stream gave nothing.
  ghost predicate Follows(input: InputStream, error: Option<HttpError>, got: seq<Response>, session: Session)
    reads input, got, set r <- got :: r.body, set r <- got :: r.body.buf, set r <- got :: r.headers
  {
    var follows :=
      if error == Some(ZeroBytesRead) then
        input.mayStall && |got| <= |session.replies| && AllHold(got, session.replies[..|got|])
      else error == session.error && input.rest == session.rest && AllHold(got, session.replies);
    follows
  }

  // The session from its start: these replies, then the answers to `asks` on what is left of the connection.
  ghost predicate InSession(session: Session, replies: seq<Reply>, asks: seq<Ask>, rest: Bytes, gunzip: Bytes -> Bytes) {
    session == Then(replies, Converse(asks, rest, gunzip))
  }

  lemma SessionStep(session: Session, replies: seq<Reply>, asks: seq<Ask>, rest: Bytes, gunzip: Bytes -> Bytes)
    requires asks != [] && InSession(session, replies, asks, rest, gunzip)
    ensures session.replies[..|replies|] == replies && |replies| <= |session.replies|
    ensures var o := Receive(rest, asks[0].head, map[], gunzip);
            match o.result
            case Err(error) => session == Session(replies, Some(error), false, o.rest)
            case Ok(status) =>
              var next := replies + [Reply(asks[0].id, status, o.body, o.fields)];
              if o.close == Some(true) then session == Session(next, None, true, o.rest)
              else InSession(session, next, asks[1..], o.rest, gunzip)
  {
    ConverseStep(replies, asks, rest, gunzip);
  }

  lemma AskNext(requests: seq<Request>, i: nat)
    requires i < |requests|
    ensures Asks(requests)[i..] == [AskOf(requests[i])] + Asks(requests)[i + 1..]
    ensures Asks(requests)[i..][1..] == Asks(requests)[i + 1..]
  {
  }

  lemma SessionEnd(session: Session, replies: seq<Reply>, asks: seq<Ask>, i: nat, rest: Bytes, gunzip: Bytes -> Bytes)
    requires i == |asks| && InSession(session, replies, asks[i..], rest, gunzip)
    ensures session == Session(replies, None, false, rest)
  {
    assert asks[i..] == [] && replies + [] == replies;
  }

  /** One turn of the loop, and whether it is the last. */
  method ReceiveTurn(input: InputStream, request: Request, responses: ResponseList, connectionClose: array?<bool>,
        gunzip: Bytes -> Bytes, ghost got: seq<Response>, ghost replies: seq<Reply>, ghost asks: seq<Ask>, ghost session: Session)
    returns (error: Option<HttpError>, close: bool, response: Response, ghost got': seq<Response>, ghost replies': seq<Reply>)
    requires connectionClose != null ==> connectionClose.Length > 0
    requires AllHold(got, replies) && asks != [] && asks[0] == AskOf(request)
    requires InSession(session, replies, asks, input.rest, gunzip)
    modifies input, responses, connectionClose
    ensures error.Some? ==> got' == got && responses.items == old(responses.items)
    ensures error.None? ==> got' == got + [response] && responses.items == old(responses.items) + [response]
    ensures fresh(response)
    ensures if error.Some? || close then Follows(input, error, got', session)
            else AllHold(got', replies') && InSession(session, replies', asks[1..], input.rest, gunzip)
    ensures error.None? ==> FlagIs(connectionClose, close)
    ensures error.None? && close ==> session.closed
  {
    SessionStep(session, replies, asks, input.rest, gunzip);
    error, close, response, got', replies' := ReceiveNext(input, request, responses, connectionClose, gunzip, got, replies);
  }

  /** The second loop of `pipeline`: it ends early, and normally, behind a response that closes the connection. */
  method ReceiveAll(input: InputStream, requests: seq<Request>, responses: ResponseList, connectionClose: array?<bool>,
        gunzip: Bytes -> Bytes)
    returns (error: Option<HttpError>, ghost got: seq<Response>)
    requires connectionClose != null ==> connectionClose.Length > 0
    modifies input, responses, connectionClose
    ensures responses.items == old(responses.items) + got && forall r <- got :: fresh(r)
    ensures Follows(input, error, got, Converse(Asks(requests), old(input.rest), gunzip))
    ensures if requests == [] then connectionClose != null ==> connectionClose[0] == old(connectionClose[0])
            else error.None? ==> FlagIs(connectionClose, Converse(Asks(requests), old(input.rest), gunzip).closed)
  {
    got := [];
    ghost var asks := Asks(requests);
    ghost var session := Converse(asks, input.rest, gunzip);
    ghost var replies: seq<Reply> := [];
    for i := 0 to |requests|
      invariant responses.items == old(responses.items) + got && forall r <- got :: fresh(r)
      invariant AllHold(got, replies) && InSession(session, replies, asks[i..], input.rest, gunzip)
      invariant if requests == [] then connectionClose != null ==> connectionClose[0] == old(connectionClose[0])
                else i > 0 ==> FlagIs(connectionClose, false)
    {
      AskNext(requests, i);
      var failure, close, response;
      failure, close, response, got, replies :=
        ReceiveTurn(input, requests[i], responses, connectionClose, gunzip, got, replies, asks[i..], session);
      if failure.Some? || close {
        return failure, got;
      }
    }
    SessionEnd(session, replies, asks, |requests|, input.rest, gunzip);
    return None, got;
  }

  // What one request puts on the connection.
  ghost function Wire(r: Request, host: Bytes): Bytes
    requires r.body != null ==> r.body.Valid()
    reads r.body, if r.body != null then {r.body.buf} else {}
  {
    if r.body == null then RequestHead(r.path, host, None, None, r.headers, r.head)
    else RequestHead(r.path, host, None, Some(r.body.length), r.headers, r.head) + r.body.Contents()
  }

  // `base` with the first n parts behind it, in order.
  function Concat(base: Bytes, parts: seq<Bytes>, n: nat): Bytes
    requires n <= |parts|
  {
    if n == 0 then base else Concat(base, parts, n - 1) + parts[n - 1]
  }

  ghost predicate ValidBodies(requests: seq<Request>)
    reads set r <- requests :: r.body
  {
    forall r <- requests :: r.body != null ==> r.body.Valid()
  }

  // No request from the i-th up to the j-th uses the body queue of the j-th.
  predicate FirstUse(requests: seq<Request>, i: nat, j: nat)
    requires i <= j < |requests|
  {
    requests[j].body != null ==> forall k :: i <= k < j ==> requests[k].body != requests[j].body
  }

  // What a request with a used-up body queue puts on the connection.
  ghost function EmptyWire(r: Request, host: Bytes): Bytes {
    RequestHead(r.path, host, None, Some(0), r.headers, r.head)
  }

  // What each request would put on the connection as things stand.
  ghost predicate WiresAre(requests: seq<Request>, host: Bytes, now: seq<Bytes>)
    requires ValidBodies(requests)
    reads (set r <- requests :: r.body), set r <- requests | r.body != null :: r.body.buf
  {
    |now| == |requests| && forall j :: 0 <= j < |requests| ==> now[j] == Wire(requests[j], host)
  }

  predicate SameBody(r: Request, q: Request) {
    r.body != null && r.body == q.body
  }

  // The same once the i-th request has been sent: its body queue is used up for all that share it.
  ghost function AfterSend(requests: seq<Request>, host: Bytes, now: seq<Bytes>, i: nat): seq<Bytes>
    requires i < |requests| == |now|
  {
    seq(|requests|, j requires 0 <= j < |requests| =>
      if SameBody(requests[i], requests[j]) then EmptyWire(requests[j], host) else now[j])
  }

  // What the requests from the i-th on will put on the connection: a body queue goes out with the first that has it.
  ghost predicate Pending(requests: seq<Request>, host: Bytes, now: seq<Bytes>, wires: seq<Bytes>, i: nat)
    requires |now| == |requests|
  {
    && |wires| == |requests|
    && forall j :: i <= j < |requests| ==>
         wires[j] == if FirstUse(requests, i, j) then now[j] else EmptyWire(requests[j], host)
  }

  lemma FirstUseStep(requests: seq<Request>, i: nat, j: nat)
    requires i < j < |requests|
    ensures FirstUse(requests, i, j) <==> !SameBody(requests[i], requests[j]) && FirstUse(requests, i + 1, j)
  {
  }

  lemma StillPending(requests: seq<Request>, host: Bytes, now: seq<Bytes>, wires: seq<Bytes>, i: nat)
    requires i < |requests| == |now| && Pending(requests, host, now, wires, i)
    ensures wires[i] == now[i] && Pending(requests, host, AfterSend(requests, host, now, i), wires, i + 1)
  {
    assert FirstUse(requests, i, i);
    forall j | i + 1 <= j < |requests|
      ensures wires[j] == if FirstUse(requests, i + 1, j) then AfterSend(requests, host, now, i)[j] else EmptyWire(requests[j], host)
    {
      FirstUseStep(requests, i, j);
    }
  }

  lemma EmptyBodyWire(r: Request, host: Bytes)
    requires r.body != null && r.body.Valid() && r.body.Contents() == []
    ensures Wire(r, host) == EmptyWire(r, host)
  {
    assert r.body.length == 0 && EmptyWire(r, host) + [] == EmptyWire(r, host);
  }

  method SendOne(out: OutputStream, host: Bytes, requests: seq<Request>, i: nat, ghost now: seq<Bytes>)
    requires ValidBodies(requests) && i < |requests| && WiresAre(requests, host, now)
    modifies out, requests[i].body
    ensures ValidBodies(requests) && WiresAre(requests, host, AfterSend(requests, host, now, i))
    ensures out.written == old(out.written) + now[i]
  {
    var r := requests[i];
    assert now[i] == Wire(r, host);
    Send(out, r.path, host, None, r.body, r.headers, r.head);
    forall j | 0 <= j < |requests| ensures AfterSend(requests, host, now, i)[j] == Wire(requests[j], host) {
      if SameBody(r, requests[j]) {
        EmptyBodyWire(requests[j], host);
      } else {
        assert now[j] == old(Wire(requests[j], host));
      }
    }
  }

  /** The first loop of `pipeline`. A body queue shared by several requests goes out with the first; the others declare
      and send an empty body. */
  method SendAll(out: OutputStream, host: Bytes, requests: seq<Request>, ghost now: seq<Bytes>, ghost wires: seq<Bytes>)
    requires ValidBodies(requests) && WiresAre(requests, host, now) && Pending(requests, host, now, wires, 0)
    modifies out, set r <- requests :: r.body
    ensures ValidBodies(requests)
    ensures out.written == Concat(old(out.written), wires, |wires|)
  {
    ghost var left := now;
    for i := 0 to |requests|
      invariant ValidBodies(requests) && WiresAre(requests, host, left) && Pending(requests, host, left, wires, i)
      invariant out.written == Concat(old(out.written), wires, i)
    {
      StillPending(requests, host, left, wires, i);
      SendOne(out, host, requests, i, left);
      left := AfterSend(requests, host, left, i);
    }
  }

  method Pipeline(input: InputStream, out: OutputStream, host: Bytes, requests: seq<Request>, responses: ResponseList,
        connectionClose: array?<bool>, gunzip: Bytes -> Bytes, ghost now: seq<Bytes>, ghost wires: seq<Bytes>)
    returns (error: Option<HttpError>, ghost got: seq<Response>)
    requires connectionClose != null ==> connectionClose.Length > 0
    requires ValidBodies(requests) && WiresAre(requests, host, now) && Pending(requests, host, now, wires, 0)
    modifies input, responses, connectionClose, out, set r <- requests :: r.body
    ensures out.written == Concat(old(out.written), wires, |wires|)
    ensures responses.items == old(responses.items) + got && forall r <- got :: fresh(r)
    ensures Follows(input, error, got, Converse(Asks(requests), old(input.rest), gunzip))
    ensures if requests == [] then connectionClose != null ==> connectionClose[0] == old(connectionClose[0])
            else error.None? ==> FlagIs(connectionClose, Converse(Asks(requests), old(input.rest), gunzip).closed)
  {
    SendAll(out, host, requests, now, wires);
    error, got := ReceiveAll(input, requests, responses, connectionClose, gunzip);
  }

  // ---- Pipelined responses come back complete, in order, up to the first close ----

  function EncodeAll(frames: seq<Frame>): Bytes {
    if frames == [] then [] else Encode(frames[0]) + EncodeAll(frames[1..])
  }

  // How many responses are read: all of them, or up to the first that closes.
  function Answered(frames: seq<Frame>): (n: nat)
    ensures n <= |frames|
    ensures forall i :: 0 <= i < n - 1 ==> !Closes(frames[i].final.headers)
    ensures n < |frames| ==> n > 0 && Closes(frames[n - 1].final.headers)
  {
    if frames == [] then 0
    else if Closes(frames[0].final.headers) then 1
    else 1 + Answered(frames[1..])
  }

  function ReplyTo(ask: Ask, f: Frame, gunzip: Bytes -> Bytes): Reply {
    Reply(ask.id, Status(f.final), BodyOf(f, gunzip), Recorded(map[], f.final.headers))
  }

  lemma {:induction false} ConverseFrame(asks: seq<Ask>, f: Frame, gunzip: Bytes -> Bytes, rest: Bytes)
    requires asks != [] && GoodFrame(f, asks[0].head)
    ensures Converse(asks, Encode(f) + rest, gunzip) ==
              if Closes(f.final.headers) then Session([ReplyTo(asks[0], f, gunzip)], None, true, rest)
              else Then([ReplyTo(asks[0], f, gunzip)], Converse(asks[1..], rest, gunzip))
  {
    ReceiveInvertsEncode(f, asks[0].head, map[], gunzip, rest);
  }

  function Replies(asks: seq<Ask>, frames: seq<Frame>, gunzip: Bytes -> Bytes): seq<Reply>
    requires |asks| == |frames|
  {
    seq(Answered(frames), i requires 0 <= i < Answered(frames) => ReplyTo(asks[i], frames[i], gunzip))
  }

  predicate ServerCloses(frames: seq<Frame>) {
    var n := Answered(frames);
    n > 0 && Closes(frames[n - 1].final.headers)
  }

  lemma {:induction false} FirstStaysOpen(asks: seq<Ask>, frames: seq<Frame>, gunzip: Bytes -> Bytes)
    requires |asks| == |frames| && frames != [] && !Closes(frames[0].final.headers)
    ensures Replies(asks, frames, gunzip) == [ReplyTo(asks[0], frames[0], gunzip)] + Replies(asks[1..], frames[1..], gunzip)
  {
    var all, more := Replies(asks, frames, gunzip), Replies(asks[1..], frames[1..], gunzip);
    assert all[0] == ReplyTo(asks[0], frames[0], gunzip);
    forall k | 1 <= k < |all| ensures all[k] == more[k - 1] {
      assert asks[1..][k - 1] == asks[k] && frames[1..][k - 1] == frames[k];
    }
  }

  lemma DropBehindFirst(frames: seq<Frame>, m: nat)
    requires m < |frames|
    ensures frames[1 + m..] == frames[1..][m..]
  {
  }

  lemma {:induction false} RepliesStep(asks: seq<Ask>, frames: seq<Frame>, gunzip: Bytes -> Bytes)
    requires |asks| == |frames| && frames != []
    ensures var n, first := Answered(frames), ReplyTo(asks[0], frames[0], gunzip);
            if Closes(frames[0].final.headers) then
              Replies(asks, frames, gunzip) == [first] && frames[n..] == frames[1..] && ServerCloses(frames)
            else
              && Replies(asks, frames, gunzip) == [first] + Replies(asks[1..], frames[1..], gunzip)
              && frames[n..] == frames[1..][Answered(frames[1..])..] && ServerCloses(frames) == ServerCloses(frames[1..])
  {
    if Closes(frames[0].final.headers) {
      assert Answered(frames) == 1;
      assert Replies(asks, frames, gunzip)[0] == ReplyTo(asks[0], frames[0], gunzip);
    } else {
      FirstStaysOpen(asks, frames, gunzip);
      DropBehindFirst(frames, Answered(frames[1..]));
      LaterCloses(frames);
    }
  }

  lemma {:induction false} LaterCloses(frames: seq<Frame>)
    requires frames != [] && !Closes(frames[0].final.headers)
    ensures ServerCloses(frames) == ServerCloses(frames[1..])
  {
    var m := Answered(frames[1..]);
    assert m > 0 ==> frames[1..][m - 1] == frames[m];
  }

  /** Reading back the responses to all requests gives each its own response, in request order, up to and including the
      first that closes the connection; exactly the responses behind that one stay unread. */
  lemma {:induction false} PipelineInvertsEncoding(asks: seq<Ask>, frames: seq<Frame>, gunzip: Bytes -> Bytes, tail: Bytes)
    requires |asks| == |frames| && forall i :: 0 <= i < |asks| ==> GoodFrame(frames[i], asks[i].head)
    ensures Converse(asks, EncodeAll(frames) + tail, gunzip)
         == Session(Replies(asks, frames, gunzip), None, ServerCloses(frames), EncodeAll(frames[Answered(frames)..]) + tail)
    decreases |asks|
  {
    if asks != [] {
      var rest := EncodeAll(frames[1..]) + tail;
      assert EncodeAll(frames) + tail == Encode(frames[0]) + rest;
      ConverseFrame(asks, frames[0], gunzip, rest);
      RepliesStep(asks, frames, gunzip);
      if !Closes(frames[0].final.headers) {
        PipelineInvertsEncoding(asks[1..], frames[1..], gunzip, tail);
      }
    }
  }

  // ---- A connection lost in the middle ----

  // The first n responses are there completely.
  predicate Arrived(frames: seq<Frame>, n: nat, input: Bytes)
    requires n <= |frames|
  {
    EncodeAll(frames[..n]) <= input
  }

  lemma {:induction false} ArrivedFirst(frames: seq<Frame>, n: nat, input: Bytes)
    requires frames != [] && n < |frames|
    ensures Arrived(frames, n + 1, Encode(frames[0]) + input) <==> Arrived(frames[1..], n, input)
  {
    var first, rest := Encode(frames[0]), EncodeAll(frames[1..][..n]);
    assert frames[..n + 1][1..] == frames[1..][..n];
    assert EncodeAll(frames[..n + 1]) == first + rest;
    if first + rest <= first + input {
      assert rest == (first + rest)[|first|..] && (first + input)[|first|..] == input;
    }
  }

  // What comes of a connection lost before all responses were there: those that were, in order, up to the first that closes.
  ghost predicate RepliesArrived(session: Session, asks: seq<Ask>, frames: seq<Frame>, input: Bytes, gunzip: Bytes -> Bytes)
    requires |asks| == |frames|
  {
    var n := |session.replies|;
    var arrived :=
      && n <= Answered(frames) && session.replies == Replies(asks, frames, gunzip)[..n] && Arrived(frames, n, input)
      && (if n == Answered(frames) && ServerCloses(frames) then session.closed && session.error == None
          else session.error == Some(ConnectionLost) && session.rest == [] && n < |frames| && !Arrived(frames, n + 1, input));
    arrived
  }

  lemma {:induction false} NothingArrived(asks: seq<Ask>, frames: seq<Frame>, input: Bytes, missing: Bytes, gunzip: Bytes -> Bytes)
    requires |asks| == |frames| && frames != [] && GoodFrame(frames[0], asks[0].head)
    requires input + missing == Encode(frames[0]) && missing != []
    ensures RepliesArrived(Converse(asks, input, gunzip), asks, frames, input, gunzip)
  {
    CutOffIsLost(frames[0], asks[0].head, input, missing, map[], gunzip);
    assert frames[..1][1..] == [];
    assert EncodeAll(frames[..1]) == Encode(frames[0]) + [];
    assert |EncodeAll(frames[..1])| > |input|;
  }

  lemma {:induction false} LaterReplies(asks: seq<Ask>, frames: seq<Frame>, replies: seq<Reply>, gunzip: Bytes -> Bytes)
    requires |asks| == |frames| && frames != [] && !Closes(frames[0].final.headers) && |replies| <= Answered(frames[1..])
    requires replies == Replies(asks[1..], frames[1..], gunzip)[..|replies|]
    ensures [ReplyTo(asks[0], frames[0], gunzip)] + replies == Replies(asks, frames, gunzip)[..1 + |replies|]
  {
    FirstStaysOpen(asks, frames, gunzip);
    var first, more := ReplyTo(asks[0], frames[0], gunzip), Replies(asks[1..], frames[1..], gunzip);
    assert ([first] + more)[..1 + |replies|] == [first] + more[..|replies|];
  }

  lemma {:induction false} OneMoreArrived(asks: seq<Ask>, frames: seq<Frame>, later: Session, rest: Bytes, gunzip: Bytes -> Bytes)
    requires |asks| == |frames| && frames != [] && !Closes(frames[0].final.headers)
    requires RepliesArrived(later, asks[1..], frames[1..], rest, gunzip)
    ensures RepliesArrived(Then([ReplyTo(asks[0], frames[0], gunzip)], later), asks, frames, Encode(frames[0]) + rest, gunzip)
  {
    var n := |later.replies|;
    LaterReplies(asks, frames, later.replies, gunzip);
    LaterCloses(frames);
    ArrivedFirst(frames, n, rest);
    if n + 1 < |frames| {
      ArrivedFirst(frames, n + 1, rest);
    }
  }

  lemma {:induction false} OneArrived(asks: seq<Ask>, frames: seq<Frame>, rest: Bytes, gunzip: Bytes -> Bytes)
    requires |asks| == |frames| && frames != [] && GoodFrame(frames[0], asks[0].head) && !Closes(frames[0].final.headers)
    requires RepliesArrived(Converse(asks[1..], rest, gunzip), asks[1..], frames[1..], rest, gunzip)
    ensures RepliesArrived(Converse(asks, Encode(frames[0]) + rest, gunzip), asks, frames, Encode(frames[0]) + rest, gunzip)
  {
    ConverseFrame(asks, frames[0], gunzip, rest);
    OneMoreArrived(asks, frames, Converse(asks[1..], rest, gunzip), rest, gunzip);
  }

  lemma {:induction false} LastArrived(asks: seq<Ask>, frames: seq<Frame>, rest: Bytes, gunzip: Bytes -> Bytes)
    requires |asks| == |frames| && frames != [] && GoodFrame(frames[0], asks[0].head) && Closes(frames[0].final.headers)
    ensures RepliesArrived(Converse(asks, Encode(frames[0]) + rest, gunzip), asks, frames, Encode(frames[0]) + rest, gunzip)
  {
    ConverseFrame(asks, frames[0], gunzip, rest);
    RepliesStep(asks, frames, gunzip);
    ArrivedFirst(frames, 0, rest);
    assert frames[1..][..0] == [];
    var first := ReplyTo(asks[0], frames[0], gunzip);
    assert [first][..1] == [first];
  }

  /** However much of the responses has come when the connection is lost, each response that has come completely is
      delivered to its request, and no other. */
  lemma {:induction false} PipelineCutOff(asks: seq<Ask>, frames: seq<Frame>, input: Bytes, missing: Bytes, gunzip: Bytes -> Bytes)
    requires |asks| == |frames| && forall i :: 0 <= i < |asks| ==> GoodFrame(frames[i], asks[i].head)
    requires input + missing == EncodeAll(frames) && missing != []
    ensures RepliesArrived(Converse(asks, input, gunzip), asks, frames, input, gunzip)
    decreases |asks|
  {
    var first, later := Encode(frames[0]), EncodeAll(frames[1..]);
    CutBehind(first, later, input, missing);
    if |input| < |first| {
      NothingArrived(asks, frames, input, first[|input|..], gunzip);
    } else {
      var rest := input[|first|..];
      if Closes(frames[0].final.headers) {
        LastArrived(asks, frames, rest, gunzip);
      } else {
        PipelineCutOff(asks[1..], frames[1..], rest, missing, gunzip);
        OneArrived(asks, frames, rest, gunzip);
      }
    }
  }

  // The input ends inside the first response, or behind it.
  lemma CutBehind(first: Bytes, later: Bytes, input: Bytes, missing: Bytes)
    requires input + missing == first + later
    ensures if |input| < |first| then input + first[|input|..] == first
            else input == first + input[|first|..] && input[|first|..] + missing == later
  {
    var all := input + missing;
    assert all[..|input|] == input && all[..|first|] == first && all[|first|..] == later;
  }
}
