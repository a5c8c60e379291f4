/** Html to text: cutting the source into tokens, and putting their texts together. */
module Html {
  import opened HtmlText
  import opened Options

  datatype Kind = Text | Comment | Tag | Script

  // What the source's tables and case folding say about a tag: it opens a script, it is a <pre>, it stands for some text.
  datatype Tags = Tags(script: string -> bool, pre: string -> bool, text: string -> string)

  datatype Token = Token(kind: Kind, html: string)

  // ---- Searching ----

  predicate At(data: string, i: int, s: string) {
    0 <= i && i + |s| <= |data| && data[i..i + |s|] == s
  }

  function Find(data: string, from: nat, s: string): (i: int)
    ensures i == -1 || from <= i <= |data| - |s|
    decreases |data| - from
  {
    if from + |s| > |data| then -1 else if At(data, from, s) then from else Find(data, from + 1, s)
  }

  /** Find is the first place of s from a position on, or -1 when it has none. */
  lemma {:induction false} FindIsFirst(data: string, from: nat, s: string)
    ensures Find(data, from, s) != -1 ==> At(data, Find(data, from, s), s)
    ensures forall k :: from <= k && At(data, k, s) ==> 0 <= Find(data, from, s) <= k
    decreases |data| - from
  {
    if from + |s| <= |data| && !At(data, from, s) {
      FindIsFirst(data, from + 1, s);
    }
  }

  /** indexOf of a string: it stops one position short of the last one s could stand at. */
  method IndexOfString(data: array<char>, start: nat, s: string) returns (i: int)
    ensures i == if Find(data[..], start, s) == data.Length - |s| then -1 else Find(data[..], start, s)
  {
    i := start;
    while i < data.Length - |s|
      invariant i >= start
      invariant Find(data[..], start, s) == Find(data[..], i, s)
    {
      var match_ := true;
      var j := 0;
      while j < |s|
        invariant 0 <= j <= |s| && match_ && data[i..i + j] == s[..j]
      {
        if data[i + j] != s[j] {
          match_ := false;
          break;
        }
        j := j + 1;
      }
      assert data[..][i..i + |s|] == data[i..i + |s|];
      assert match_ <==> At(data[..], i, s);
      if match_ {
        return;
      }
      i := i + 1;
    }
    i := -1;
  }

  method IndexOfChar(data: array<char>, start: nat, c: char) returns (i: int)
    ensures i == Find(data[..], start, [c])
  {
    i := start;
    while i < data.Length
      invariant i >= start
      invariant Find(data[..], start, [c]) == Find(data[..], i, [c])
    {
      assert data[..][i..i + 1] == [data[i]];
      if data[i] == c {
        return;
      }
      i := i + 1;
    }
    i := -1;
  }

  // ---- Tokens ----

  // Where a token ends that is closed by the first s from a position on, or by the end of the source.
  function After(data: string, from: nat, s: string): nat {
    var i := Find(data, from, s);
    if i == -1 then |data| else i + |s|
  }

  // The kind of the markup whose first '>' is at `end`.
  function MarkupKind(data: string, start: nat, end: nat, tags: Tags): (kind: Kind)
    requires start < end < |data|
    ensures kind != Text
  {
    if "<!--" <= data[start..end + 1] then Comment
    else if tags.script(data[start..end + 1]) then Script
    else Tag
  }

  // Where markup of a kind ends.
  function MarkupEnd(kind: Kind, data: string, start: nat, end: nat): (r: nat)
    requires start < end < |data| && kind != Text
    ensures start < r <= |data|
  {
    match kind
    case Comment => After(data, start + 1, "-->")
    case Script => After(data, start + 1, "</script>")
    case Tag => end + 1
  }

  function MarkupAt(data: string, start: nat, end: nat, tags: Tags): (r: (Kind, nat))
    requires start < end < |data|
    ensures start < r.1 <= |data|
  {
    var kind := MarkupKind(data, start, end, tags);
    (kind, MarkupEnd(kind, data, start, end))
  }

  /** The kind of the token at a position, and where it ends: a full search for its closing string. */
  function TokenAt(data: string, start: nat, tags: Tags): (r: (Kind, nat))
    requires start < |data|
    ensures start < r.1 <= |data|
  {
    if data[start] != '<' then (Text, var next := Find(data, start + 1, ['<']); if next == -1 then |data| else next)
    else
      var end := Find(data, start + 1, ['>']);
      if end == -1 then (Text, |data|) else MarkupAt(data, start, end, tags)
  }

  method EndAfter(data: array<char>, from: nat, s: string) returns (end: nat)
    ensures end == After(data[..], from, s)
  {
    var i := IndexOfString(data, from, s);
    if i == -1 {
      return data.Length;
    }
    return i + |s|;
  }

  method ParseMarkup(data: array<char>, start: nat, endIndex: nat, tags: Tags) returns (kind: Kind, end: nat)
    requires start < endIndex < data.Length
    ensures (kind, end) == MarkupAt(data[..], start, endIndex, tags)
  {
    var s := data[start..endIndex + 1];
    assert s == data[..][start..endIndex + 1];
    if "<!--" <= s {
      end := EndAfter(data, start + 1, "-->");
      return Comment, end;
    }
    if tags.script(s) {
      end := EndAfter(data, start + 1, "</script>");
      return Script, end;
    }
    return Tag, start + |s|;
  }

  /** parse, up to the token's text: the short search of IndexOfString ends every token where a full one would. */
  method Parse(data: array<char>, start: nat, tags: Tags) returns (kind: Kind, end: nat)
    requires start < data.Length
    ensures (kind, end) == TokenAt(data[..], start, tags)
  {
    if data[start] == '<' {
      var endIndex := IndexOfChar(data, start + 1, '>');
      if endIndex == -1 {
        return Text, data.Length;
      }
      kind, end := ParseMarkup(data, start, endIndex, tags);
      return;
    }
    var nextTag := IndexOfChar(data, start + 1, '<');
    if nextTag == -1 {
      return Text, data.Length;
    }
    return Text, nextTag;
  }

  function Tokens(data: string, start: nat, tags: Tags): seq<Token>
    requires start <= |data|
    decreases |data| - start
  {
    if start == |data| then []
    else
      var (kind, end) := TokenAt(data, start, tags);
      [Token(kind, data[start..end])] + Tokens(data, end, tags)
  }

  function Html(tokens: seq<Token>): string {
    if tokens == [] then "" else tokens[0].html + Html(tokens[1..])
  }

  // s ends with mark, which is nowhere else in it past its first character.
  ghost predicate ClosedBy(s: string, mark: string) {
    var closed := At(s, |s| - |mark|, mark) && forall k :: 1 <= k < |s| - |mark| ==> !At(s, k, mark);
    closed
  }

  ghost predicate Lacks(s: string, mark: string) {
    var lacks := forall k :: k >= 1 ==> !At(s, k, mark);
    lacks
  }

  // Closed by its mark, or cut off by the end of the source.
  ghost predicate Marked(s: string, mark: string, last: bool) {
    ClosedBy(s, mark) || (last && Lacks(s, mark))
  }

  // What a token of each kind looks like. Only the last token may be cut off.
  ghost predicate Shaped(t: Token, last: bool) {
    var shaped := t.html != "" &&
                  match t.kind
                  case Text => if t.html[0] == '<' then last && Lacks(t.html, ['>']) else '<' !in t.html
                  case Tag => t.html[0] == '<' && ClosedBy(t.html, ['>'])
                  case Comment => "<!--" <= t.html && Marked(t.html, "-->", last)
                  case Script => t.html[0] == '<' && Marked(t.html, "</script>", last);
    shaped
  }

  lemma AtSlice(data: string, start: nat, end: nat, k: int, s: string)
    requires start <= end <= |data| && 0 <= k && start + k + |s| <= end
    ensures At(data[start..end], k, s) <==> At(data, start + k, s)
  {
    var a, b := data[start..end][k..k + |s|], data[start + k..start + k + |s|];
    assert |a| == |b| && forall j :: 0 <= j < |a| ==> a[j] == b[j];
  }

  lemma SliceClosed(data: string, start: nat, s: string)
    requires start < |data| && s != [] && Find(data, start + 1, s) != -1
    ensures ClosedBy(data[start..Find(data, start + 1, s) + |s|], s)
  {
    FindIsFirst(data, start + 1, s);
    var end := Find(data, start + 1, s) + |s|;
    AtSlice(data, start, end, end - start - |s|, s);
    forall k | 1 <= k < end - start - |s| ensures !At(data[start..end], k, s) {
      AtSlice(data, start, end, k, s);
    }
  }

  lemma SliceLacks(data: string, start: nat, end: nat, s: string)
    requires start < end <= |data|
    requires forall i :: start + 1 <= i <= end - |s| ==> !At(data, i, s)
    ensures Lacks(data[start..end], s)
  {
    forall k | k >= 1 ensures !At(data[start..end], k, s) {
      if k + |s| <= end - start {
        AtSlice(data, start, end, k, s);
      }
    }
  }

  lemma MarkEnds(data: string, start: nat, s: string)
    requires start < |data| && s != []
    ensures var end := After(data, start + 1, s);
            start < end <= |data| && Marked(data[start..end], s, end == |data|)
  {
    FindIsFirst(data, start + 1, s);
    if Find(data, start + 1, s) != -1 {
      SliceClosed(data, start, s);
    } else {
      SliceLacks(data, start, |data|, s);
    }
  }

  // A comment's opening is inside its token: the closing "-->" cannot start before its last two characters but one.
  lemma CommentOpens(data: string, start: nat)
    requires start + 4 <= |data| && "<!--" <= data[start..]
    ensures "<!--" <= data[start..After(data, start + 1, "-->")]
  {
    FindIsFirst(data, start + 1, "-->");
    var end := After(data, start + 1, "-->");
    assert data[start + 1] == data[start..][1];
    assert !At(data, start + 1, "-->") by {
      assert data[start + 1..start + 4][0] != '-';
    }
    assert end >= start + 4;
    assert forall k :: 0 <= k < 4 ==> data[start..end][k] == data[start..][k];
  }

  lemma TextShaped(data: string, start: nat, tags: Tags)
    requires start < |data| && data[start] != '<'
    ensures var (kind, end) := TokenAt(data, start, tags);
            kind == Text && '<' !in data[start..end]
  {
    FindIsFirst(data, start + 1, ['<']);
    var (kind, end) := TokenAt(data, start, tags);
    forall k | start <= k < end ensures data[k] != '<' {
      assert data[k..k + 1] == [data[k]];
      assert At(data, k, ['<']) <==> data[k] == '<';
    }
  }

  lemma CommentShaped(data: string, start: nat)
    requires start + 4 <= |data| && "<!--" <= data[start..]
    ensures var end := After(data, start + 1, "-->");
            Shaped(Token(Comment, data[start..end]), end == |data|)
  {
    CommentOpens(data, start);
    MarkEnds(data, start, "-->");
  }

  lemma ScriptShaped(data: string, start: nat)
    requires start < |data| && data[start] == '<'
    ensures var end := After(data, start + 1, "</script>");
            Shaped(Token(Script, data[start..end]), end == |data|)
  {
    MarkEnds(data, start, "</script>");
  }

  lemma TagShaped(data: string, start: nat)
    requires start < |data| && data[start] == '<' && Find(data, start + 1, ['>']) != -1
    ensures var end := Find(data, start + 1, ['>']) + 1;
            Shaped(Token(Tag, data[start..end]), end == |data|)
  {
    SliceClosed(data, start, ['>']);
  }

  lemma PrefixOf(data: string, start: nat, end: nat, mark: string)
    requires start <= end <= |data| && mark <= data[start..end]
    ensures start + |mark| <= |data| && mark <= data[start..]
  {
    assert data[start..end] == data[start..][..end - start];
  }

  lemma EndShaped(data: string, start: nat, end: nat, kind: Kind)
    requires start < |data| && data[start] == '<' && Find(data, start + 1, ['>']) == end && kind != Text
    requires kind == Comment ==> start + 4 <= |data| && "<!--" <= data[start..]
    ensures var r := MarkupEnd(kind, data, start, end); Shaped(Token(kind, data[start..r]), r == |data|)
  {
    match kind
    case Comment => CommentShaped(data, start);
    case Script => ScriptShaped(data, start);
    case Tag => TagShaped(data, start);
  }

  lemma MarkupShaped(data: string, start: nat, end: nat, tags: Tags)
    requires start < |data| && data[start] == '<' && Find(data, start + 1, ['>']) == end
    ensures var r := MarkupAt(data, start, end, tags);
            Shaped(Token(r.0, data[start..r.1]), r.1 == |data|)
  {
    var kind := MarkupKind(data, start, end, tags);
    if kind == Comment {
      PrefixOf(data, start, end + 1, "<!--");
    }
    EndShaped(data, start, end, kind);
  }

  lemma TokenShaped(data: string, start: nat, tags: Tags)
    requires start < |data|
    ensures var (kind, end) := TokenAt(data, start, tags);
            Shaped(Token(kind, data[start..end]), end == |data|)
  {
    if data[start] != '<' {
      TextShaped(data, start, tags);
    } else if Find(data, start + 1, ['>']) == -1 {
      FindIsFirst(data, start + 1, ['>']);
      SliceLacks(data, start, |data|, ['>']);
    } else {
      MarkupShaped(data, start, Find(data, start + 1, ['>']), tags);
    }
  }

  // ---- Each token has the right kind ----

  // The first `>` of markup.
  predicate FirstAngle(html: string, n: nat) {
    0 < n < |html| && html[0] == '<' && html[n] == '>' && '>' !in html[..n]
  }

  // Markup up to its first `>` says what it is: a comment if it starts as one, else a script if it is a script tag.
  ghost predicate KindTold(t: Token, tags: Tags) {
    match t.kind
    case Text => t.html != "" && (t.html[0] == '<' ==> '>' !in t.html)
    case _ =>
      exists n :: FirstAngle(t.html, n) &&
                  t.kind == if "<!--" <= t.html[..n + 1] then Comment else if tags.script(t.html[..n + 1]) then Script else Tag
  }

  lemma AngleFound(data: string, start: nat, end: nat)
    requires start < |data| && data[start] == '<' && Find(data, start + 1, ['>']) == end
    ensures start < end < |data| && data[end] == '>' && forall k :: start <= k < end ==> data[k] != '>'
  {
    FindIsFirst(data, start + 1, ['>']);
    assert At(data, end, ['>']);
    assert data[end..end + 1] == [data[end]];
    forall k | start <= k < end ensures data[k] != '>' {
      assert data[k..k + 1] == [data[k]];
      assert k > start ==> (At(data, k, ['>']) <==> data[k] == '>');
    }
  }

  // What closes markup does not come before its first `>`.
  lemma ClosesBehind(data: string, start: nat, end: nat, mark: string)
    requires start < end < |data| && mark != "" && mark[|mark| - 1] == '>' && forall k :: start <= k < end ==> data[k] != '>'
    ensures After(data, start + 1, mark) > end
  {
    FindIsFirst(data, start + 1, mark);
    var p := Find(data, start + 1, mark);
    if p != -1 {
      assert data[p..p + |mark|] == mark;
      assert data[p + |mark| - 1] == data[p..p + |mark|][|mark| - 1];
    }
  }

  lemma UpToAngle(data: string, start: nat, end: nat, stop: nat)
    requires start < end < stop <= |data| && data[start] == '<' && data[end] == '>' && forall k :: start <= k < end ==> data[k] != '>'
    ensures FirstAngle(data[start..stop], end - start) && data[start..stop][..end - start + 1] == data[start..end + 1]
  {
    var html, n := data[start..stop], end - start;
    assert forall k :: 0 <= k < n ==> html[..n][k] == data[start + k];
  }

  lemma StopsBehind(data: string, start: nat, end: nat, kind: Kind)
    requires start < end < |data| && kind != Text && forall k :: start <= k < end ==> data[k] != '>'
    ensures MarkupEnd(kind, data, start, end) > end
  {
    match kind
    case Comment => ClosesBehind(data, start, end, "-->");
    case Script => ClosesBehind(data, start, end, "</script>");
    case Tag =>
  }

  // Its first `>` tells the kind.
  lemma AngleTells(data: string, start: nat, end: nat, stop: nat, tags: Tags)
    requires start < end < stop <= |data| && FirstAngle(data[start..stop], end - start)
    requires data[start..stop][..end - start + 1] == data[start..end + 1]
    ensures KindTold(Token(MarkupKind(data, start, end, tags), data[start..stop]), tags)
  {
  }

  lemma MarkupTold(data: string, start: nat, end: nat, tags: Tags)
    requires start < |data| && data[start] == '<' && Find(data, start + 1, ['>']) == end
    ensures var r := MarkupAt(data, start, end, tags); KindTold(Token(r.0, data[start..r.1]), tags)
  {
    AngleFound(data, start, end);
    var (kind, stop) := MarkupAt(data, start, end, tags);
    StopsBehind(data, start, end, kind);
    UpToAngle(data, start, end, stop);
    AngleTells(data, start, end, stop, tags);
  }

  lemma TokenTold(data: string, start: nat, tags: Tags)
    requires start < |data|
    ensures var (kind, end) := TokenAt(data, start, tags); KindTold(Token(kind, data[start..end]), tags)
  {
    var (kind, end) := TokenAt(data, start, tags);
    assert data[start..end][0] == data[start];
    if data[start] == '<' {
      if Find(data, start + 1, ['>']) == -1 {
        NoAngle(data, start);
      } else {
        MarkupTold(data, start, Find(data, start + 1, ['>']), tags);
      }
    }
  }

  lemma NoAngle(data: string, start: nat)
    requires start < |data| && data[start] == '<' && Find(data, start + 1, ['>']) == -1
    ensures '>' !in data[start..|data|]
  {
    FindIsFirst(data, start + 1, ['>']);
    forall k | start <= k < |data| ensures data[k] != '>' {
      assert data[k..k + 1] == [data[k]];
      assert k > start ==> !At(data, k, ['>']);
    }
  }

  /** The tokens are not empty, put together they are the source, and each has the shape of its kind, and the right kind. */
  lemma {:induction false} TokensPartition(data: string, start: nat, tags: Tags)
    requires start <= |data|
    ensures Html(Tokens(data, start, tags)) == data[start..]
    ensures forall i :: 0 <= i < |Tokens(data, start, tags)| ==>
              Shaped(Tokens(data, start, tags)[i], i == |Tokens(data, start, tags)| - 1) && KindTold(Tokens(data, start, tags)[i], tags)
    decreases |data| - start
  {
    if start < |data| {
      var (kind, end) := TokenAt(data, start, tags);
      var rest := Tokens(data, end, tags);
      TokenShaped(data, start, tags);
      TokenTold(data, start, tags);
      TokensPartition(data, end, tags);
      assert (Tokens(data, start, tags))[1..] == rest;
      assert data[start..end] + data[end..] == data[start..];
      assert rest == [] <==> end == |data|;
    }
  }

  // ---- The whole source ----

  // The text of a token; None if reading it throws.
  function TextOf(t: Token, previousIsPre: bool, tags: Tags, numeric: Numeric): Option<string> {
    match t.kind
    case Text => Show(t.html, 0, previousIsPre, false, "", numeric)
    case Tag => Some(if IsPre(t, tags) then "" else tags.text(t.html))
    case _ => Some("")
  }

  predicate IsPre(t: Token, tags: Tags) {
    t.kind == Tag && tags.pre(t.html)
  }

  predicate BehindPre(tokens: seq<Token>, i: nat, tags: Tags)
    requires i < |tokens|
  {
    i > 0 && IsPre(tokens[i - 1], tags)
  }

  // The text of the first n tokens; only the text right behind a <pre> keeps its white space.
  function Texts(tokens: seq<Token>, n: nat, tags: Tags, numeric: Numeric): Option<string>
    requires n <= |tokens|
  {
    if n == 0 then Some("")
    else
      match Texts(tokens, n - 1, tags, numeric)
      case None => None
      case Some(text) =>
        match TextOf(tokens[n - 1], BehindPre(tokens, n - 1, tags), tags, numeric)
        case None => None
        case Some(more) => Some(text + more)
  }

  function Concat(pieces: seq<string>): string {
    if pieces == [] then "" else Concat(pieces[..|pieces| - 1]) + pieces[|pieces| - 1]
  }

  // What a token shows as, by its kind and the token before it.
  predicate ShowsAs(tokens: seq<Token>, i: nat, tags: Tags, numeric: Numeric, piece: string)
    requires i < |tokens|
  {
    var html := tokens[i].html;
    match tokens[i].kind
    case Comment => piece == ""
    case Script => piece == ""
    case Tag => piece == if tags.pre(html) then "" else tags.text(html)
    case Text =>
      var behindPre := i > 0 && tokens[i - 1].kind == Tag && tags.pre(tokens[i - 1].html);
      Show(html, 0, behindPre, false, "", numeric) == Some(piece)
  }

  /** What html2text gives is what each token shows as, in order. */
  lemma {:induction false} TextsAreShown(tokens: seq<Token>, n: nat, tags: Tags, numeric: Numeric) returns (pieces: seq<string>)
    requires n <= |tokens| && Texts(tokens, n, tags, numeric).Some?
    ensures Texts(tokens, n, tags, numeric) == Some(Concat(pieces)) && |pieces| == n
    ensures forall i :: 0 <= i < n ==> ShowsAs(tokens, i, tags, numeric, pieces[i])
    decreases n
  {
    pieces := [];
    if n > 0 {
      var front := TextsAreShown(tokens, n - 1, tags, numeric);
      var piece := TextOf(tokens[n - 1], BehindPre(tokens, n - 1, tags), tags, numeric).value;
      pieces := front + [piece];
      assert pieces[..n - 1] == front;
    }
  }

  lemma {:induction false} NoTextLater(tokens: seq<Token>, i: nat, n: nat, tags: Tags, numeric: Numeric)
    requires i <= n <= |tokens| && Texts(tokens, i, tags, numeric).None?
    ensures Texts(tokens, n, tags, numeric).None?
    decreases n
  {
    if i < n {
      NoTextLater(tokens, i, n - 1, tags, numeric);
    }
  }

  // A text token on which reading throws.
  predicate Unreadable(t: Token) {
    t.kind == Text && exists p :: 0 <= p < |t.html| && Dangles(t.html, p)
  }

  /** html2text throws exactly if some text token has an `&` in its last nine characters and no semicolon behind it. */
  lemma {:induction false} TextsThrow(tokens: seq<Token>, n: nat, tags: Tags, numeric: Numeric)
    requires n <= |tokens|
    ensures Texts(tokens, n, tags, numeric).None? <==> exists i :: 0 <= i < n && Unreadable(tokens[i])
    decreases n
  {
    if n > 0 {
      TextsThrow(tokens, n - 1, tags, numeric);
      var t := tokens[n - 1];
      ShowThrows(t.html, 0, BehindPre(tokens, n - 1, tags), false, "", numeric);
      assert TextOf(t, BehindPre(tokens, n - 1, tags), tags, numeric).None? <==> Unreadable(t);
    }
  }

  /** html2text: every character of the source is in exactly one token, so the loop ends. */
  method Html2Text(html: string, tags: Tags, numeric: Numeric) returns (text: Option<string>)
    ensures text == Texts(Tokens(html, 0, tags), |Tokens(html, 0, tags)|, tags, numeric)
  {
    var sb := "";
    var data := new char[|html|](i requires 0 <= i < |html| => html[i]);
    assert data[..] == html;
    var start := 0;
    var previousIsPre := false;
    ghost var tokens := Tokens(html, 0, tags);
    ghost var n := 0;
    while start < data.Length
      invariant data[..] == html && Through(tokens, n, html, start, tags, previousIsPre)
      invariant Texts(tokens, n, tags, numeric) == Some(sb)
      decreases data.Length - start
    {
      var kind, end := Parse(data, start, tags);
      var token := Token(kind, data[start..end]);
      assert data[start..end] == html[start..end];
      NextToken(tokens, n, html, start, tags, previousIsPre);
      var more := TextOfToken(token, previousIsPre, tags, numeric);
      if more.None? {
        NoTextLater(tokens, n + 1, |tokens|, tags, numeric);
        return None;
      }
      sb := sb + more.value;
      previousIsPre := kind == Tag && tags.pre(token.html);
      start := end;
      n := n + 1;
    }
    return Some(sb);
  }

  // The first n tokens have been read, up to `start`.
  ghost predicate Through(tokens: seq<Token>, n: nat, html: string, start: nat, tags: Tags, previousIsPre: bool) {
    var through :=
      && n <= |tokens| && start <= |html| && tokens[n..] == Tokens(html, start, tags)
      && (start == |html| ==> n == |tokens|)
      && (n < |tokens| ==> previousIsPre == BehindPre(tokens, n, tags));
    through
  }

  lemma NextToken(tokens: seq<Token>, n: nat, html: string, start: nat, tags: Tags, previousIsPre: bool)
    requires start < |html| && Through(tokens, n, html, start, tags, previousIsPre)
    ensures var (kind, end) := TokenAt(html, start, tags);
            && n < |tokens| && tokens[n] == Token(kind, html[start..end]) && previousIsPre == BehindPre(tokens, n, tags)
            && Through(tokens, n + 1, html, end, tags, kind == Tag && tags.pre(html[start..end]))
  {
    var (kind, end) := TokenAt(html, start, tags);
    assert Tokens(html, start, tags) == [Token(kind, html[start..end])] + Tokens(html, end, tags);
    assert tokens[n] == tokens[n..][0] && tokens[n + 1..] == tokens[n..][1..];
    assert end == |html| ==> Tokens(html, end, tags) == [];
  }

  method TextOfToken(token: Token, previousIsPre: bool, tags: Tags, numeric: Numeric) returns (text: Option<string>)
    ensures text == TextOf(token, previousIsPre, tags, numeric)
  {
    text := Some("");
    if token.kind == Text {
      text := ToText(token.html, previousIsPre, numeric);
    } else if token.kind == Tag && !tags.pre(token.html) {
      text := Some(tags.text(token.html));
    }
  }
}
