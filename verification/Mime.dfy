/** The two walks over a mail's parts: does it have an attachment, and hand every attachment to a handler. */
module Mime {

  // What the walks look at: disposition attachment or inline, and a content type that names a file or an application.
  datatype Part = Part(id: int, attached: bool, named: bool, content: Content)

  datatype Content = Multipart(parts: seq<Part>) | Rfc822(part: Part) | Other

  function Count(p: Part): nat {
    if p.content.Multipart? then |p.content.parts| else 0
  }

  // The parts handed to the handler, in the order of the calls.
  function Handled(p: Part): seq<Part>
    decreases p, Count(p) + 1
  {
    match p.content
    case Multipart(parts) => HandledIn(p, |parts|)
    case Rfc822(part) => Handled(part)
    case Other => []
  }

  function HandledIn(p: Part, n: nat): seq<Part>
    requires p.content.Multipart? && n <= Count(p)
    decreases p, n
  {
    if n == 0 then [] else HandledIn(p, n - 1) + HandledAt(p.content.parts[n - 1])
  }

  function HandledAt(q: Part): seq<Part>
    decreases q, Count(q) + 2
  {
    if q.attached then [q] else if q.content.Multipart? then Handled(q) else if q.named then [q] else []
  }

  lemma {:induction false} HandledGrows(p: Part, i: nat, n: nat)
    requires p.content.Multipart? && i <= n <= Count(p)
    ensures HandledIn(p, i) <= HandledIn(p, n)
    decreases n
  {
    if i < n {
      HandledGrows(p, i, n - 1);
    }
  }

  /** hasAttachment: its loop stops at the first part that settles the answer. */
  method HasAttachment(part: Part) returns (flag: bool)
    ensures flag <==> Handled(part) != []
    decreases part
  {
    flag := false;
    match part.content {
      case Multipart(parts) =>
        for i := 0 to |parts|
          invariant !flag && HandledIn(part, i) == []
        {
          var bodyPart := parts[i];
          if bodyPart.attached {
            flag := true;
          } else if bodyPart.content.Multipart? {
            flag := HasAttachment(bodyPart);
          } else if bodyPart.named {
            flag := true;
          }
          if flag {
            HandledGrows(part, i + 1, |parts|);
            break;
          }
        }
      case Rfc822(content) => flag := HasAttachment(content);
      case Other =>
    }
  }

  // The calls the two handlers receive, in the order they are made.
  datatype Call = HandleBody(message: Part) | HandleAttachment(message: Part, part: Part)

  class Handlers {
    var calls: seq<Call>

    constructor ()
      ensures calls == []
    {
      calls := [];
    }
  }

  function Given(message: Part, parts: seq<Part>): seq<Call> {
    seq(|parts|, i requires 0 <= i < |parts| => HandleAttachment(message, parts[i]))
  }

  // Calls for the parts up to the n-th, then one more child's.
  lemma GivenGrows(base: seq<Call>, message: Part, part: Part, n: nat, more: seq<Part>)
    requires part.content.Multipart? && n < Count(part) && more == HandledAt(part.content.parts[n])
    ensures base + Given(message, HandledIn(part, n)) + Given(message, more) == base + Given(message, HandledIn(part, n + 1))
  {
    assert Given(message, HandledIn(part, n) + more) == Given(message, HandledIn(part, n)) + Given(message, more);
  }

  method ParseAttachment(message: Part, part: Part, handlers: Handlers)
    modifies handlers
    ensures handlers.calls == old(handlers.calls) + Given(message, Handled(part))
    decreases part
  {
    ghost var base := handlers.calls;
    match part.content {
      case Multipart(parts) =>
        for i := 0 to |parts|
          invariant handlers.calls == base + Given(message, HandledIn(part, i))
        {
          var bodyPart := parts[i];
          if bodyPart.attached {
            handlers.calls := handlers.calls + [HandleAttachment(message, bodyPart)];
          } else if bodyPart.content.Multipart? {
            ParseAttachment(message, bodyPart, handlers);
          } else if bodyPart.named {
            handlers.calls := handlers.calls + [HandleAttachment(message, bodyPart)];
          }
          assert handlers.calls == base + Given(message, HandledIn(part, i)) + Given(message, HandledAt(bodyPart));
          GivenGrows(base, message, part, i, HandledAt(bodyPart));
        }
      case Rfc822(content) => ParseAttachment(message, content, handlers);
      case Other =>
    }
  }

  // A message's body comes first, then its attachments.
  function CallsFor(messages: seq<Part>, n: nat): seq<Call>
    requires n <= |messages|
  {
    if n == 0 then []
    else CallsFor(messages, n - 1) + ([HandleBody(messages[n - 1])] + Given(messages[n - 1], Handled(messages[n - 1])))
  }

  /** parseMessage asks hasAttachment first; no attachment is lost by it. */
  method ParseMessage(messages: seq<Part>, handlers: Handlers)
    modifies handlers
    ensures handlers.calls == old(handlers.calls) + CallsFor(messages, |messages|)
  {
    ghost var base := handlers.calls;
    for i := 0 to |messages|
      invariant handlers.calls == base + CallsFor(messages, i)
    {
      ghost var before := handlers.calls;
      handlers.calls := handlers.calls + [HandleBody(messages[i])];
      var hasAttachment := HasAttachment(messages[i]);
      if hasAttachment {
        ParseAttachment(messages[i], messages[i], handlers);
      }
      assert handlers.calls == before + ([HandleBody(messages[i])] + Given(messages[i], Handled(messages[i])));
    }
  }

  // The calls for one message: its body, then every part its attachment handler gets.
  predicate CallsOf(message: Part, calls: seq<Call>) {
    && |calls| == 1 + |Handled(message)| && calls[0] == HandleBody(message)
    && forall i :: 1 <= i < |calls| ==> calls[i] == HandleAttachment(message, Handled(message)[i - 1])
  }

  function Flatten(parts: seq<seq<Call>>): seq<Call> {
    if parts == [] then [] else Flatten(parts[..|parts| - 1]) + parts[|parts| - 1]
  }

  /** Messages are handled in order, each completely before the next, its body before its attachments. */
  lemma {:induction false} MessagesInOrder(messages: seq<Part>, n: nat) returns (parts: seq<seq<Call>>)
    requires n <= |messages|
    ensures CallsFor(messages, n) == Flatten(parts) && |parts| == n
    ensures forall k :: 0 <= k < n ==> CallsOf(messages[k], parts[k])
    decreases n
  {
    parts := [];
    if n > 0 {
      var front := MessagesInOrder(messages, n - 1);
      var calls := [HandleBody(messages[n - 1])] + Given(messages[n - 1], Handled(messages[n - 1]));
      parts := front + [calls];
      assert parts[..n - 1] == front;
    }
  }

  // ---- Which parts, in which order ----

  // A place in the mail: the child to take at each step down, counted from 0; a message part has one child.
  type Place = seq<nat>

  predicate IsPlace(p: Part, at: Place) {
    at == [] || match p.content
                case Multipart(parts) => at[0] < |parts| && IsPlace(parts[at[0]], at[1..])
                case Rfc822(part) => at[0] == 0 && IsPlace(part, at[1..])
                case Other => false
  }

  function PartAt(p: Part, at: Place): Part
    requires IsPlace(p, at)
  {
    if at == [] then p
    else match p.content
         case Multipart(parts) => PartAt(parts[at[0]], at[1..])
         case Rfc822(part) => PartAt(part, at[1..])
  }

  // The part at a place is an attachment of the mail: it is a body part, it is marked as an attachment or, not being a
  // multipart, named as one; and no body part on the way to it is itself taken as an attachment or is a forwarded message.
  predicate Attachment(p: Part, at: Place)
    requires IsPlace(p, at)
  {
    at != [] &&
    match p.content
    case Multipart(parts) =>
      var q := parts[at[0]];
      if |at| == 1 then q.attached || (!q.content.Multipart? && q.named)
      else !q.attached && q.content.Multipart? && Attachment(q, at[1..])
    case Rfc822(part) => Attachment(part, at[1..])
  }

  // Document order (RFC 2046, section 5.1): an earlier child first, a part before what it holds.
  predicate Before(a: Place, b: Place) {
    if a == [] then b != [] else b != [] && (a[0] < b[0] || (a[0] == b[0] && Before(a[1..], b[1..])))
  }

  ghost predicate Sorted(places: seq<Place>) {
    forall i, j :: 0 <= i < j < |places| ==> Before(places[i], places[j])
  }

  // Attachments of p below its first n children; `places` lists them all, each once, in document order.
  ghost predicate Lists(p: Part, n: nat, places: seq<Place>) {
    && Sorted(places)
    && (forall at <- places :: IsPlace(p, at) && Attachment(p, at) && at[0] < n)
    && (forall at: Place :: IsPlace(p, at) && Attachment(p, at) && at[0] < n ==> at in places)
  }

  ghost predicate Calls(p: Part, places: seq<Place>, calls: seq<Part>)
    requires forall at <- places :: IsPlace(p, at)
  {
    |calls| == |places| && forall i :: 0 <= i < |calls| ==> calls[i] == PartAt(p, places[i])
  }

  /** The handler is called for exactly the attachments of the mail, each once, in document order. */
  lemma {:induction false} HandledAreTheAttachments(p: Part) returns (places: seq<Place>)
    ensures Sorted(places)
    ensures forall at: Place :: at in places <==> IsPlace(p, at) && Attachment(p, at)
    ensures Calls(p, places, Handled(p))
    decreases p, Count(p) + 1
  {
    match p.content
    case Multipart(parts) => places := ListedIn(p, |parts|);
    case Rfc822(part) =>
      var inner := HandledAreTheAttachments(part);
      places := Step(0, inner);
      StepSorted(0, inner);
    case Other => places := [];
  }

  lemma CallsJoined(p: Part, before: seq<Place>, here: seq<Place>, calls: seq<Part>, more: seq<Part>)
    requires forall at <- before :: IsPlace(p, at)
    requires forall at <- here :: IsPlace(p, at)
    requires Calls(p, before, calls) && Calls(p, here, more)
    ensures Calls(p, before + here, calls + more)
  {
  }

  lemma {:induction false} ListedIn(p: Part, n: nat) returns (places: seq<Place>)
    requires p.content.Multipart? && n <= Count(p)
    ensures Lists(p, n, places) && Calls(p, places, HandledIn(p, n))
    decreases p, n
  {
    if n == 0 {
      places := [];
    } else {
      var before := ListedIn(p, n - 1);
      var here := ListedAt(p, n - 1);
      places := before + here;
      Joined(p, n, before, here);
      CallsJoined(p, before, here, HandledIn(p, n - 1), HandledAt(p.content.parts[n - 1]));
    }
  }

  // `places` are all the attachments below, or at, child k.
  ghost predicate ListsAt(p: Part, k: nat, places: seq<Place>) {
    && Sorted(places)
    && (forall at <- places :: at != [] && at[0] == k && IsPlace(p, at) && Attachment(p, at))
    && (forall at: Place :: at != [] && at[0] == k && IsPlace(p, at) && Attachment(p, at) ==> at in places)
  }

  lemma Joined(p: Part, n: nat, before: seq<Place>, here: seq<Place>)
    requires p.content.Multipart? && 1 <= n <= Count(p)
    requires Lists(p, n - 1, before) && ListsAt(p, n - 1, here)
    ensures Lists(p, n, before + here)
  {
    var places := before + here;
    forall i, j | 0 <= i < j < |places| ensures Before(places[i], places[j]) {
      assert i < |before| ==> places[i] in before;
      assert j >= |before| ==> places[j] in here;
    }
    forall at: Place | IsPlace(p, at) && Attachment(p, at) && at[0] < n ensures at in places {
      assert at[0] < n - 1 || at[0] == n - 1;
    }
  }

  lemma {:induction false} ListedAt(p: Part, k: nat) returns (places: seq<Place>)
    requires p.content.Multipart? && k < Count(p)
    ensures ListsAt(p, k, places)
    ensures Calls(p, places, HandledAt(p.content.parts[k]))
    decreases p, 0
  {
    var q := p.content.parts[k];
    if q.attached || (!q.content.Multipart? && q.named) {
      places := [[k]];
      assert [k][1..] == [] && IsPlace(q, []);
      assert forall at: Place :: |at| == 1 && at[0] == k ==> at == [k];
    } else if q.content.Multipart? {
      var inner := HandledAreTheAttachments(q);
      places := Step(k, inner);
      StepSorted(k, inner);
    } else {
      places := [];
    }
  }

  lemma {:induction false} StepSorted(k: nat, places: seq<Place>)
    requires Sorted(places)
    ensures Sorted(Step(k, places))
    ensures forall at: Place :: at in Step(k, places) <==> at != [] && at[0] == k && at[1..] in places
  {
    forall at: Place | at != [] && at[0] == k && at[1..] in places ensures at in Step(k, places) {
      var i :| 0 <= i < |places| && places[i] == at[1..];
      assert Step(k, places)[i] == at;
    }
    forall at: Place | at in Step(k, places) ensures at != [] && at[0] == k && at[1..] in places {
      var i :| 0 <= i < |places| && Step(k, places)[i] == at;
      assert at[1..] == places[i];
    }
    forall i, j | 0 <= i < j < |places| ensures Before(Step(k, places)[i], Step(k, places)[j]) {
      assert ([k] + places[i])[1..] == places[i] && ([k] + places[j])[1..] == places[j];
    }
  }

  function Step(k: nat, places: seq<Place>): (r: seq<Place>)
    ensures |r| == |places|
    ensures forall i :: 0 <= i < |r| ==> r[i] == [k] + places[i]
  {
    seq(|places|, i requires 0 <= i < |places| => [k] + places[i])
  }
}
