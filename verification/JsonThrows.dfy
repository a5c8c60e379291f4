/** When formatJson throws, as a condition on the text. */
module JsonThrows {
  import opened Chars
  import opened JsonRoundTrip
  import opened JsonSpec
  import opened JsonTokens
  import opened Options

  // ---- Reading throws on an odd number of backslashes at the end ----

  // How many backslashes (code unit 92) the text ends in.
  function Backslashes(s: Text): nat {
    if s != [] && s[|s| - 1] == 92 then 1 + Backslashes(s[..|s| - 1]) else 0
  }

  predicate EndsEscaping(s: Text) {
    Backslashes(s) % 2 == 1
  }

  lemma {:induction false} BackslashesBehind(a: Text, s: Text)
    ensures Backslashes(s) <= |s|
    ensures Backslashes(a + s) == Backslashes(s) + if Backslashes(s) == |s| then Backslashes(a) else 0
    decreases |s|
  {
    if s == [] {
      assert a + s == a;
    } else {
      assert (a + s)[..|a + s| - 1] == a + s[..|s| - 1];
      BackslashesBehind(a, s[..|s| - 1]);
    }
  }

  // An escape, or a character that is no backslash, in front makes no difference.
  lemma EscapingBehind(c: Char, s: Text)
    ensures c != BACKSLASH ==> EndsEscaping([c] + s) == EndsEscaping(s)
    ensures EndsEscaping([BACKSLASH, c] + s) == EndsEscaping(s)
  {
    BackslashesBehind([c], s);
    BackslashesBehind([BACKSLASH, c], s);
    assert [BACKSLASH, c][..1] == [BACKSLASH] && [BACKSLASH][..0] == [] && [c][..0] == [];
    assert Backslashes([BACKSLASH]) == 1 + Backslashes([]);
    assert Backslashes([BACKSLASH, c]) == if c == BACKSLASH then 2 else 0;
  }

  lemma {:induction false} ScanEscaping(s: Text, quoted: bool, blank: bool)
    ensures Scan(s, quoted, blank).None? ==> EndsEscaping(s)
    ensures Scan(s, quoted, blank).Some? ==> EndsEscaping(s[Scan(s, quoted, blank).value..]) == EndsEscaping(s)
    decreases |s|
  {
    if s == [] || (!quoted && IsMark(s[0])) {
      if s != [] {
        assert s[0..] == s && s == [s[0]] + s[1..];
        EscapingBehind(s[0], s[1..]);
      }
    } else if s[0] == BACKSLASH {
      if |s| == 1 {
        assert s[..0] == [];
      } else {
        var tail := s[2..];
        assert s == [BACKSLASH, s[1]] + tail;
        EscapingBehind(s[1], tail);
        ScanEscaping(tail, quoted, false);
        assert Scan(tail, quoted, false).Some? ==> tail[Scan(tail, quoted, false).value..] == s[Scan(s, quoted, blank).value..];
      }
    } else {
      var tail, q, b := s[1..], quoted || s[0] == QUOTE, blank && s[0] <= SPACE;
      assert s == [s[0]] + tail;
      EscapingBehind(s[0], tail);
      if !(s[0] == QUOTE && quoted) {
        ScanEscaping(tail, q, b);
        assert Scan(tail, q, b).Some? ==> tail[Scan(tail, q, b).value..] == s[Scan(s, quoted, blank).value..];
      }
    }
  }

  lemma {:induction false} UnreadableText(json: Text)
    ensures Tokens(json).None? <==> EndsEscaping(json)
    decreases |json|
  {
    if json != [] {
      ScanEscaping(json, false, true);
      if Scan(json, false, true).Some? {
        UnreadableText(json[Scan(json, false, true).value..]);
      }
    }
  }

  // ---- Printing throws on an opener at the end ----

  // Printing the tokens from the i-th on throws.
  ghost predicate Fails(tokens: seq<Text>, i: nat, level: int, st: Style, width: nat)
    requires i <= |tokens|
  {
    var fails := Print(tokens, i, level, st, width).None?;
    fails
  }

  lemma FailsLater(tokens: seq<Text>, i: nat, level: int, st: Style, width: nat)
    requires i < |tokens| && i + Take(tokens, i) < |tokens|
    ensures Fails(tokens, i, level, st, width) <==> Fails(tokens, i + Take(tokens, i), Level(tokens, i, level), st, width)
  {
  }

  lemma FailsAtEnd(tokens: seq<Text>, i: nat, level: int, st: Style, width: nat)
    requires i < |tokens| <= i + Take(tokens, i)
    ensures Fails(tokens, i, level, st, width) <==> EndsOpen(tokens)
  {
    EndsOpenAt(tokens, i);
    assert Print(tokens, |tokens|, Level(tokens, i, level), st, width) == Some([]);
  }

  lemma EndsOpenAt(tokens: seq<Text>, i: nat)
    requires i < |tokens| && i + Take(tokens, i) == |tokens|
    ensures EndsOpen(tokens) <==> i + 1 == |tokens| && IsOpener(tokens[i])
  {
    assert Closer(tokens[i])[0] == RBRACE || Closer(tokens[i])[0] == RBRACKET;
  }

  lemma {:induction false} PrintFails(tokens: seq<Text>, i: nat, level: int, st: Style, width: nat)
    requires i < |tokens|
    ensures Fails(tokens, i, level, st, width) <==> EndsOpen(tokens)
    decreases |tokens| - i
  {
    if i + Take(tokens, i) < |tokens| {
      FailsLater(tokens, i, level, st, width);
      PrintFails(tokens, i + Take(tokens, i), Level(tokens, i, level), st, width);
    } else {
      FailsAtEnd(tokens, i, level, st, width);
    }
  }

  // Where reading stands behind a text: in a string (quote is 34), behind a backslash (92), or at neither.
  datatype Standing = Outside | InString | BehindBackslash

  function StandingBehind(s: Text, inString: bool): Standing
    decreases |s|
  {
    if s == [] then if inString then InString else Outside
    else if s[0] == 92 then if |s| == 1 then BehindBackslash else StandingBehind(s[2..], inString)
    else StandingBehind(s[1..], inString != (s[0] == 34))
  }

  // The last character is an opening bracket that is neither escaped nor in a string.
  predicate OpenAtEnd(json: Text) {
    var openAtEnd := json != [] && OpensBehind(json[..|json| - 1], json[|json| - 1]);
    openAtEnd
  }

  lemma OpenAtEndOf(front: Text, c: Char)
    ensures OpenAtEnd(front + [c]) <==> OpensBehind(front, c)
  {
    assert (front + [c])[..|front|] == front;
  }

  // An opening brace is 123, an opening bracket 91.
  predicate OpensBehind(front: Text, c: Char) {
    (c == 123 || c == 91) && StandingBehind(front, false) == Outside
  }

  // The token goes on behind its first character or escape.
  predicate GoesOn(s: Text, quoted: bool) {
    s != [] && (s[0] == BACKSLASH || ((quoted || !IsMark(s[0])) && !(s[0] == QUOTE && quoted)))
  }

  function Unit(s: Text): nat
    requires s != []
  {
    if s[0] == BACKSLASH then 2 else 1
  }

  function QuotedNext(s: Text, quoted: bool): bool
    requires s != []
  {
    if s[0] == BACKSLASH then quoted else quoted || s[0] == QUOTE
  }

  function BlankNext(s: Text, blank: bool): bool
    requires s != []
  {
    s[0] != BACKSLASH && s[0] != QUOTE && blank && s[0] <= SPACE
  }

  lemma ScanGoesOn(s: Text, quoted: bool, blank: bool)
    requires GoesOn(s, quoted) && Scan(s, quoted, blank).Some?
    ensures Unit(s) <= |s| && Scan(s, quoted, blank) == More(Unit(s), Scan(s[Unit(s)..], QuotedNext(s, quoted), BlankNext(s, blank)))
  {
  }

  lemma StandingBehindUnit(s: Text, quoted: bool)
    requires s != [] && Unit(s) <= |s|
    ensures StandingBehind(s, quoted)
         == StandingBehind(s[Unit(s)..], if s[0] == BACKSLASH then quoted else quoted != (s[0] == QUOTE))
  {
  }

  lemma DropTwice(s: Text, k: nat, n: nat)
    requires k <= n <= |s|
    ensures s[k..][n - k..] == s[n..]
  {
  }

  lemma FirstOfFirst(s: Text, k: nat, n: nat)
    requires k <= n <= |s|
    ensures s[..n][..k] == s[..k] && s[..n][k..] == s[k..][..n - k]
  {
  }

  lemma DropFromFirst(p: Text, x: Text, k: nat)
    requires k <= |p|
    ensures (p + x)[k..] == p[k..] + x
  {
  }

  // Behind a token, reading is outside of strings again.
  lemma {:induction false} StandingBehindToken(p: Text, x: Text, quoted: bool, blank: bool, n: nat)
    requires Scan(p + x, quoted, blank) == Some(n) && n <= |p| && x != []
    ensures StandingBehind(p, quoted) == StandingBehind(p[n..], false)
    decreases |p|
  {
    var s := p + x;
    if n > 0 {
      assert p[0] == s[0];
      if GoesOn(s, quoted) {
        ScanGoesOn(s, quoted, blank);
        DropFromFirst(p, x, Unit(s));
        StandingBehindUnit(p, quoted);
        StandingBehindToken(p[Unit(s)..], x, QuotedNext(s, quoted), BlankNext(s, blank), n - Unit(s));
        DropTwice(p, Unit(s), n);
      } else {
        StandingBehindUnit(p, quoted);
      }
    } else {
      assert p[0..] == p && !quoted;
    }
  }

  // A token that reaches to the end has a mark there, outside of strings, only if it is that mark behind white space.
  lemma {:induction false} MarkEndsText(s: Text, quoted: bool, blank: bool)
    requires s != [] && IsMark(s[|s| - 1]) && StandingBehind(s[..|s| - 1], quoted) == Outside
    requires Scan(s, quoted, blank) == Some(|s|)
    ensures blank && Blank(s[..|s| - 1])
    decreases |s|
  {
    var m, k := |s| - 1, Unit(s);
    if m > 0 && GoesOn(s, quoted) {
      ScanGoesOn(s, quoted, blank);
      if k <= m {
        StandingBehindUnit(s[..m], quoted);
        FirstOfFirst(s, k, m);
        MarkEndsText(s[k..], QuotedNext(s, quoted), BlankNext(s, blank));
        BlankHead(s[..m]);
      }
    }
  }

  lemma {:induction false} BlankStandsOutside(s: Text)
    requires Blank(s)
    ensures StandingBehind(s, false) == Outside
    decreases |s|
  {
    if s != [] {
      BlankStandsOutside(s[1..]);
    }
  }

  // White space is read up to a mark, which is a token by itself.
  lemma BlankThenMark(w: Text, c: Char, r: Text)
    requires Blank(w) && IsMark(c)
    ensures Scan(w + ([c] + r), false, true) == Some(|w| + 1)
  {
    WalkBlank(w, false);
    ScanThrough(w, [c] + r, false, true, false);
  }

  lemma NothingBehindMark(u: Text, c: Char, w: Text)
    requires Blank(u) && IsMark(c) && Scan(u + [c] + w, false, true) == Some(|u + [c] + w|)
    ensures w == []
  {
    assert u + [c] + w == u + ([c] + w);
    BlankThenMark(u, c, w);
  }

  lemma OpenerIsLast(json: Text, front: Text, last: Char)
    requires json == front + [last] && Scan(json, false, true) == Some(|json|) && IsOpener(Trim(json))
    ensures OpensBehind(front, last)
  {
    var u, w := TrimParts(json);
    var c := Trim(json)[0];
    assert Trim(json) == [c];
    NothingBehindMark(u, c, w);
    assert json == u + [c];
    assert front == u && last == c by {
      assert json[|json| - 1] == last && json[|json| - 1] == c;
      assert json[..|json| - 1] == front && json[..|json| - 1] == u;
    }
    BlankStandsOutside(u);
  }

  lemma TrimBehindBlank(front: Text, c: Char)
    requires Blank(front) && c > SPACE
    ensures Trim(front + [c]) == [c]
  {
    assert front + [c] == front + [c] + [];
    TrimOf(front, [c], []);
  }

  lemma LastIsOpener(json: Text, front: Text, c: Char)
    requires json == front + [c] && Scan(json, false, true) == Some(|json|) && OpensBehind(front, c)
    ensures Trim(json) == [c]
  {
    assert json[..|json| - 1] == front;
    MarkEndsText(json, false, true);
    TrimBehindBlank(front, c);
  }

  lemma OpenAlone(json: Text, front: Text, c: Char)
    requires json == front + [c] && Scan(json, false, true) == Some(|json|)
    ensures IsOpener(Trim(json)) <==> OpensBehind(front, c)
  {
    if IsOpener(Trim(json)) {
      OpenerIsLast(json, front, c);
    } else if OpensBehind(front, c) {
      LastIsOpener(json, front, c);
    }
  }

  lemma StandsAlike(json: Text, n: nat, front: Text, c: Char)
    requires json == front + [c] && Scan(json, false, true) == Some(n) && n <= |front|
    ensures StandingBehind(front, false) == StandingBehind(front[n..], false)
  {
    StandingBehindToken(front, [c], false, true, n);
  }

  lemma LastCharacter(json: Text, n: nat) returns (front: Text, c: Char)
    requires json != [] && n <= |json|
    ensures json == front + [c] && (n < |json| ==> n <= |front| && json[n..] == front[n..] + [c]) && json[..|json|] == json
  {
    front, c := json[..|json| - 1], json[|json| - 1];
  }

  lemma {:induction false} OpenText(json: Text)
    requires Tokens(json).Some?
    ensures EndsOpen(Tokens(json).value) <==> OpenAtEnd(json)
    decreases |json|
  {
    if json != [] {
      var n := Scan(json, false, true).value;
      var tokens, rest := Tokens(json).value, Tokens(json[n..]).value;
      assert tokens == [Trim(json[..n])] + rest;
      var front, c := LastCharacter(json, n);
      OpenAtEndOf(front, c);
      if n == |json| {
        OpenAlone(json, front, c);
      } else {
        OpenText(json[n..]);
        StandsAlike(json, n, front, c);
        OpenAtEndOf(front[n..], c);
        assert rest != [] && tokens[|tokens| - 1] == rest[|rest| - 1];
      }
    }
  }

  /** formatJson throws exactly on a text, not blank, that ends in an odd number of backslashes, or in an opening bracket
      that is neither escaped nor in a string. */
  lemma FormatThrows(json: Text, st: Style)
    requires Trim(json) != []
    ensures Format(Some(json), st).Throws? <==> EndsEscaping(json) || OpenAtEnd(json)
  {
    UnreadableText(json);
    if Tokens(json).Some? {
      var tokens := Tokens(json).value;
      OpenText(json);
      if tokens != [] {
        PrintFails(tokens, 0, 0, st, Width(tokens, st.byteLen, |tokens|));
      }
    }
  }

  /** It gives null exactly for null and for texts of nothing but white space, code units up to 32. */
  lemma FormatIsNull(json: Option<Text>, st: Style)
    ensures Format(json, st) == Null <==> json.None? || forall i :: 0 <= i < |json.value| ==> json.value[i] <= 32
  {
    if json.Some? {
      BlankTrims(json.value);
    }
  }
}
