/** What the tokenizer's tokens look like, and how they are read again from printed text. */
module JsonTokens {
  import opened Chars
  import opened JsonSpec
  import opened Options

  // How reading a token's text ends: at its closing quote, outside or inside a string with nothing left, on a
  // backslash with nothing left, or earlier than its last character.
  datatype Walked = Closed | Plain | Quoted | Dangling(inString: bool) | Broken

  function Walk(t: Text, quoted: bool): Walked
    decreases |t|
  {
    if t == [] then if quoted then Quoted else Plain
    else if !quoted && IsMark(t[0]) then Broken
    else if t[0] == BACKSLASH then if |t| == 1 then Dangling(quoted) else Walk(t[2..], quoted)
    else if t[0] == QUOTE then
      if quoted then if |t| == 1 then Closed else Broken else Walk(t[1..], true)
    else Walk(t[1..], quoted)
  }

  lemma BlankHead(t: Text)
    requires t != []
    ensures Blank(t) <==> t[0] <= SPACE && Blank(t[1..])
  {
    assert t == [t[0]] + t[1..];
  }

  // One character that neither ends the token nor escapes another.
  lemma ScanOne(c: Char, s: Text, quoted: bool, blank: bool)
    requires c != BACKSLASH && !(c == QUOTE && quoted) && (quoted || !IsMark(c))
    ensures Scan([c] + s, quoted, blank) == More(1, Scan(s, quoted || c == QUOTE, blank && c <= SPACE))
    ensures Walk([c] + s, quoted) == Walk(s, quoted || c == QUOTE)
  {
    assert ([c] + s)[1..] == s;
  }

  lemma ScanEscape(c: Char, s: Text, quoted: bool, blank: bool)
    ensures Scan([BACKSLASH, c] + s, quoted, blank) == More(2, Scan(s, quoted, false))
    ensures Walk([BACKSLASH, c] + s, quoted) == Walk(s, quoted)
  {
    assert ([BACKSLASH, c] + s)[2..] == s;
  }

  function Ends(quoted: bool): Walked {
    if quoted then Quoted else Plain
  }

  // A character, or an escape, in front of what is read already.
  lemma ScanMore(front: Text, t: Text, r: Text, quoted: bool, blank: bool, quoted': bool, blank': bool, end: bool)
    requires Scan(front + (t + r), quoted, blank) == More(|front|, Scan(t + r, quoted', blank'))
    requires Scan(t + r, quoted', blank') == More(|t|, Scan(r, end, blank' && Blank(t)))
    ensures Scan((front + t) + r, quoted, blank) == More(|front + t|, Scan(r, end, blank' && Blank(t)))
  {
    assert (front + t) + r == front + (t + r);
    MoreMore(|front|, |t|, Scan(r, end, blank' && Blank(t)));
  }

  // Reading a text that does not end a token, with `r` behind it.
  lemma {:induction false} ScanThrough(t: Text, r: Text, quoted: bool, blank: bool, end: bool)
    requires Walk(t, quoted) == Ends(end)
    ensures Scan(t + r, quoted, blank) == More(|t|, Scan(r, end, blank && Blank(t)))
    decreases |t|
  {
    if t == [] {
      assert t + r == r;
    } else if t[0] == BACKSLASH {
      var front, tail := t[..2], t[2..];
      assert t == front + tail && front == [BACKSLASH, t[1]];
      ScanEscape(t[1], tail, quoted, blank);
      ScanEscape(t[1], tail + r, quoted, blank);
      ScanThrough(tail, r, quoted, false, end);
      ScanMore(front, tail, r, quoted, blank, quoted, false, end);
    } else {
      var front, tail, q, b := t[..1], t[1..], quoted || t[0] == QUOTE, blank && t[0] <= SPACE;
      assert t == front + tail && front == [t[0]];
      ScanOne(t[0], tail, quoted, blank);
      ScanOne(t[0], tail + r, quoted, blank);
      BlankHead(t);
      ScanThrough(tail, r, q, b, end);
      ScanMore(front, tail, r, quoted, blank, q, b, end);
    }
  }

  lemma MoreMore(m: nat, n: nat, r: Option<nat>)
    ensures More(m, More(n, r)) == More(m + n, r)
  {
  }

  lemma {:induction false} ScanClosed(t: Text, r: Text, quoted: bool, blank: bool)
    requires Walk(t, quoted) == Closed
    ensures Scan(t + r, quoted, blank) == Some(|t|)
    decreases |t|
  {
    if t[0] == BACKSLASH {
      assert (t + r)[2..] == t[2..] + r;
      ScanClosed(t[2..], r, quoted, false);
    } else if !(t[0] == QUOTE && quoted) {
      assert (t + r)[1..] == t[1..] + r;
      ScanClosed(t[1..], r, quoted || t[0] == QUOTE, blank && t[0] <= SPACE);
    }
  }

  // A dangling backslash takes the next character into the token, or makes reading throw.
  lemma {:induction false} ScanDangling(t: Text, r: Text, quoted: bool, blank: bool)
    requires Walk(t, quoted).Dangling?
    ensures r == [] ==> Scan(t + r, quoted, blank) == None
    ensures r != [] && Scan(t + r, quoted, blank).Some? ==> Scan(t + r, quoted, blank).value > |t|
    decreases |t|
  {
    if t[0] == BACKSLASH {
      if |t| > 1 {
        assert (t + r)[2..] == t[2..] + r;
        ScanDangling(t[2..], r, quoted, false);
      }
    } else {
      assert (t + r)[1..] == t[1..] + r;
      ScanDangling(t[1..], r, quoted || t[0] == QUOTE, blank && t[0] <= SPACE);
    }
  }

  lemma {:induction false} WalkBlank(w: Text, quoted: bool)
    requires Blank(w)
    ensures Walk(w, quoted) == if quoted then Quoted else Plain
    decreases |w|
  {
    if w != [] {
      WalkBlank(w[1..], quoted);
    }
  }

  lemma {:induction false} WalkLeft(w: Text, t: Text, quoted: bool)
    requires Blank(w)
    ensures Walk(w + t, quoted) == Walk(t, quoted)
    decreases |w|
  {
    if w == [] {
      assert w + t == t;
    } else {
      assert (w + t)[1..] == w[1..] + t;
      WalkLeft(w[1..], t, quoted);
    }
  }

  // Cutting white space off the end of a text can only leave an escape dangling.
  lemma {:induction false} WalkRight(t: Text, w: Text, quoted: bool)
    requires Blank(w)
    ensures match Walk(t, quoted)
            case Plain => Walk(t + w, quoted) == Plain
            case Quoted => Walk(t + w, quoted) == Quoted
            case Closed => Walk(t + w, quoted) == if w == [] then Closed else Broken
            case Dangling(inString) => w != [] ==> Walk(t + w, quoted) == Ends(inString)
            case Broken => Walk(t + w, quoted) == Broken
    decreases |t|
  {
    if t == [] {
      assert t + w == w;
      WalkBlank(w, quoted);
    } else if t[0] == BACKSLASH {
      if |t| == 1 {
        if w != [] {
          assert (t + w)[2..] == w[1..];
          WalkBlank(w[1..], quoted);
        }
      } else {
        assert (t + w)[2..] == t[2..] + w;
        WalkRight(t[2..], w, quoted);
      }
    } else if quoted || !IsMark(t[0]) {
      assert (t + w)[1..] == t[1..] + w;
      WalkRight(t[1..], w, quoted || t[0] == QUOTE);
    }
  }

  // ---- Trimming ----

  lemma {:induction false} TrimLeftParts(s: Text) returns (w: Text)
    ensures Blank(w) && s == w + TrimLeft(s) && (TrimLeft(s) != [] ==> TrimLeft(s)[0] > SPACE)
    decreases |s|
  {
    w := [];
    if s != [] && s[0] <= SPACE {
      w := TrimLeftParts(s[1..]);
      w := [s[0]] + w;
    }
  }

  lemma {:induction false} TrimRightParts(s: Text) returns (w: Text)
    ensures Blank(w) && s == TrimRight(s) + w && (TrimRight(s) != [] ==> TrimRight(s)[|TrimRight(s)| - 1] > SPACE)
    decreases |s|
  {
    w := [];
    if s != [] && s[|s| - 1] <= SPACE {
      w := TrimRightParts(s[..|s| - 1]);
      w := w + [s[|s| - 1]];
    }
  }

  // No white space at either end.
  predicate Trimmed(t: Text) {
    t != [] ==> t[0] > SPACE && t[|t| - 1] > SPACE
  }

  lemma TrimParts(s: Text) returns (u: Text, w: Text)
    ensures Blank(u) && Blank(w) && s == u + Trim(s) + w && Trimmed(Trim(s))
  {
    u := TrimLeftParts(s);
    w := TrimRightParts(TrimLeft(s));
    var t, l := Trim(s), TrimLeft(s);
    assert u + (t + w) == u + t + w;
    assert t != [] ==> l[0] == t[0];
  }

  lemma {:induction false} TrimLeftOf(u: Text, s: Text)
    requires Blank(u) && (s == [] || s[0] > SPACE)
    ensures TrimLeft(u + s) == s
    decreases |u|
  {
    if u == [] {
      assert u + s == s;
    } else {
      assert (u + s)[1..] == u[1..] + s;
      TrimLeftOf(u[1..], s);
    }
  }

  lemma {:induction false} TrimRightOf(s: Text, w: Text)
    requires Blank(w) && (s == [] || s[|s| - 1] > SPACE)
    ensures TrimRight(s + w) == s
    decreases |w|
  {
    if w == [] {
      assert s + w == s;
    } else {
      assert (s + w)[..|s + w| - 1] == s + w[..|w| - 1];
      TrimRightOf(s, w[..|w| - 1]);
    }
  }

  lemma TrimOf(u: Text, t: Text, w: Text)
    requires Blank(u) && Blank(w) && Trimmed(t)
    ensures Trim(u + t + w) == t
  {
    if t == [] {
      assert Blank(u + w) && u + t + w == (u + w) + [];
      TrimLeftOf(u + w, []);
    } else {
      assert u + t + w == u + (t + w);
      TrimLeftOf(u, t + w);
      TrimRightOf(t, w);
    }
  }

  lemma BlankTrims(s: Text)
    ensures Blank(s) <==> Trim(s) == []
  {
    var u, w := TrimParts(s);
    if Blank(s) {
      assert s + [] + [] == s;
      TrimOf(s, [], []);
    }
  }

  // ---- The shape of a token list ----

  // The next token, if there is one, is a single mark.
  predicate ThenMark(tokens: seq<Text>, i: nat) {
    i + 1 < |tokens| ==> IsMarkToken(tokens[i + 1])
  }

  predicate GoodToken(tokens: seq<Text>, i: nat)
    requires i < |tokens|
  {
    var t := tokens[i];
    && Trimmed(t)
    && (t == [] ==> i + 1 == |tokens|)
    && (t != [] && !IsMarkToken(t) ==>
          match Walk(t, false)
          case Closed => true
          case Plain => ThenMark(tokens, i)
          case Quoted => i + 1 == |tokens|
          case Dangling(inString) => ThenMark(tokens, i) && (inString ==> i + 1 == |tokens|)
          case Broken => false)
  }

  predicate GoodTokens(tokens: seq<Text>) {
    forall i :: 0 <= i < |tokens| ==> GoodToken(tokens, i)
  }

  // `r` is what reading took of `r + rest`: up to a closing quote, up to a mark, to the end, or a mark alone.
  predicate Ended(r: Text, rest: Text, quoted: bool, blank: bool) {
    var ended :=
      || Walk(r, quoted) == Closed
      || (Walk(r, quoted) == Plain && rest != [] && IsMark(rest[0]) && !(blank && Blank(r)))
      || (rest == [] && (Walk(r, quoted) == Plain || Walk(r, quoted) == Quoted))
      || (blank && r != [] && Blank(r[..|r| - 1]) && IsMark(r[|r| - 1]));
    ended
  }

  lemma EndedOne(c: Char, r: Text, rest: Text, quoted: bool, blank: bool)
    requires c != BACKSLASH && !(c == QUOTE && quoted) && (quoted || !IsMark(c))
    requires Ended(r, rest, quoted || c == QUOTE, blank && c <= SPACE)
    ensures Ended([c] + r, rest, quoted, blank)
  {
    ScanOne(c, r, quoted, blank);
    var s := [c] + r;
    BlankHead(s);
    if r != [] {
      BlankHead(s[..|s| - 1]);
      assert s[..|s| - 1][1..] == r[..|r| - 1];
    }
  }

  lemma EndedEscape(c: Char, r: Text, rest: Text, quoted: bool, blank: bool)
    requires Ended(r, rest, quoted, false)
    ensures Ended([BACKSLASH, c] + r, rest, quoted, blank)
  {
    ScanEscape(c, r, quoted, blank);
    assert !Blank([BACKSLASH, c] + r) by {
      assert ([BACKSLASH, c] + r)[0] == BACKSLASH;
    }
  }

  lemma SplitBehind(front: Text, t: Text, m: nat)
    requires m <= |t|
    ensures (front + t)[..|front| + m] == front + t[..m] && (front + t)[|front| + m..] == t[m..]
  {
  }

  // What the characters just read look like.
  lemma {:induction false} ScanShape(s: Text, quoted: bool, blank: bool)
    requires Scan(s, quoted, blank).Some?
    ensures var n := Scan(s, quoted, blank).value; Ended(s[..n], s[n..], quoted, blank)
    decreases |s|
  {
    if s == [] || (!quoted && IsMark(s[0])) || (s[0] == QUOTE && quoted) {
    } else if s[0] == BACKSLASH {
      var front, t := [BACKSLASH, s[1]], s[2..];
      assert s == front + t;
      ScanEscape(s[1], t, quoted, blank);
      var m := Scan(t, quoted, false).value;
      ScanShape(t, quoted, false);
      SplitBehind(front, t, m);
      EndedEscape(s[1], t[..m], t[m..], quoted, blank);
    } else {
      var front, t, q, b := [s[0]], s[1..], quoted || s[0] == QUOTE, blank && s[0] <= SPACE;
      assert s == front + t;
      ScanOne(s[0], t, quoted, blank);
      var m := Scan(t, q, b).value;
      ScanShape(t, q, b);
      SplitBehind(front, t, m);
      EndedOne(s[0], t[..m], t[m..], quoted, blank);
    }
  }

  // A trimmed token with the text that is left behind it.
  predicate GoodStart(t: Text, rest: Text) {
    && Trimmed(t)
    && (t == [] ==> rest == [])
    && (t != [] && !IsMarkToken(t) ==>
          match Walk(t, false)
          case Closed => true
          case Plain => rest != [] ==> IsMark(rest[0])
          case Quoted => rest == []
          case Dangling(inString) => rest != [] ==> IsMark(rest[0]) && !inString
          case Broken => false)
  }

  lemma TrimEnded(raw: Text, rest: Text)
    requires raw != [] && Ended(raw, rest, false, true)
    ensures GoodStart(Trim(raw), rest)
  {
    var front := raw[..|raw| - 1];
    if Blank(front) && IsMark(raw[|raw| - 1]) {
      assert raw == front + [raw[|raw| - 1]] + [];
      TrimOf(front, [raw[|raw| - 1]], []);
    } else {
      var u, w := TrimParts(raw);
      var t := Trim(raw);
      assert raw == u + (t + w);
      WalkLeft(u, t + w, false);
      WalkRight(t, w, false);
      assert t == [] ==> t + w == w && Blank(raw);
      assert w == [] ==> t + w == t;
    }
  }

  lemma StartsWithMark(json: Text)
    requires json != [] && IsMark(json[0])
    ensures Tokens(json) == Prepend([json[0]], Tokens(json[1..]))
  {
    assert json[..1] == [] + [json[0]] + [];
    TrimOf([], [json[0]], []);
  }

  /** Every list the tokenizer makes has this shape. */
  lemma {:induction false} TokensAreGood(json: Text)
    requires Tokens(json).Some?
    ensures GoodTokens(Tokens(json).value)
    decreases |json|
  {
    if json != [] {
      var n := Scan(json, false, true).value;
      ScanShape(json, false, true);
      TrimEnded(json[..n], json[n..]);
      if n < |json| && IsMark(json[n]) {
        StartsWithMark(json[n..]);
      }
      TokensAreGood(json[n..]);
      var tokens, rest := Tokens(json).value, Tokens(json[n..]).value;
      assert tokens == [Trim(json[..n])] + rest;
      forall i | 0 <= i < |tokens| ensures GoodToken(tokens, i) {
        if i > 0 {
          assert GoodToken(rest, i - 1) && tokens[i] == rest[i - 1];
          assert i + 1 < |tokens| ==> tokens[i + 1] == rest[i];
        }
      }
    }
  }

  /** The tokens as they stand in the text, white space included. */
  function RawTokens(json: Text): Option<seq<Text>>
    decreases |json|
  {
    if json == [] then Some([])
    else
      match Scan(json, false, true)
      case None => None
      case Some(n) => Prepend(json[..n], RawTokens(json[n..]))
  }

  function Join(parts: seq<Text>): Text {
    if parts == [] then [] else parts[0] + Join(parts[1..])
  }

  function TrimAll(parts: seq<Text>): seq<Text> {
    seq(|parts|, i requires 0 <= i < |parts| => Trim(parts[i]))
  }

  /** Reading makes progress and loses nothing: the raw tokens are non-empty and spell the text. */
  lemma {:induction false} RawTokensSpell(json: Text)
    ensures Tokens(json).Some? <==> RawTokens(json).Some?
    ensures RawTokens(json).Some? ==>
              var raw := RawTokens(json).value;
              Join(raw) == json && Tokens(json).value == TrimAll(raw) && forall t <- raw :: t != []
    decreases |json|
  {
    if json != [] && Scan(json, false, true).Some? {
      var n := Scan(json, false, true).value;
      RawTokensSpell(json[n..]);
      if RawTokens(json).Some? {
        var raw, rest := RawTokens(json).value, RawTokens(json[n..]).value;
        assert raw == [json[..n]] + rest && raw[1..] == rest;
        assert TrimAll(raw) == [Trim(json[..n])] + TrimAll(rest);
      }
    }
  }
}
