/** What formatJson guarantees for every text: when it keeps the tokens, when it is stable, and when it throws. */
module JsonFormat {
  import opened Chars
  import opened JsonRoundTrip
  import opened JsonSpec
  import opened JsonThrows
  import opened JsonTokens
  import opened Options

  /** Printing keeps the token list, up to an empty last token, exactly if no token ends in a lone backslash in front of
      something that is printed right behind it (the end of the text, a comma or an opener). */
  lemma FormatKeepsTokens(json: Text, st: Style)
    requires Blank(st.indent) && Format(Some(json), st).Text?
    ensures Same(Tokens(Format(Some(json), st).text), Tokens(json).value) <==> SafeFrom(Tokens(json).value, 0)
  {
    var tokens := Tokens(json).value;
    TokensAreGood(json);
    PrintReads(tokens, 0, 0, st, Width(tokens, st.byteLen, |tokens|), []);
    assert [] + Format(Some(json), st).text == Format(Some(json), st).text && tokens[0..] == tokens;
  }

  /** An escaped blank in front of a comma is such a case: `\\ ,` has the tokens `\\` and `,`, but prints as `\\,`. */
  lemma EscapedBlankIsLost(st: Style)
    ensures var json := [BACKSLASH, SPACE, COMMA];
            && Format(Some(json), st).Text? && Tokens(json) == Some([[BACKSLASH], [COMMA]])
            && !SafeFrom(Tokens(json).value, 0)
  {
    var json: Text := [BACKSLASH, SPACE, COMMA];
    ScanEscape(SPACE, [COMMA], false, true);
    assert json == [BACKSLASH, SPACE] + [COMMA] && json[..2] == [] + [BACKSLASH] + [SPACE] && json[2..] == [COMMA];
    TrimOf([], [BACKSLASH], [SPACE]);
    var comma: Text := [COMMA];
    StartsWithMark(comma);
    assert comma[1..] == [] && [comma] + [] == [comma];
    var tokens: seq<Text> := [[BACKSLASH], comma];
    assert tokens == [[BACKSLASH]] + [comma];
    assert Tokens(json) == Some(tokens);
    assert !SafeToken(tokens, 0);
    BlankTrims(json);
    assert json[0] > SPACE;
    FormatThrows(json, st);
  }

  // ---- Formatting twice ----

  const NO_TOKEN: seq<Text> := [[]]

  lemma {:induction false} WidthOfPrefix(tokens: seq<Text>, byteLen: Text -> nat, n: nat)
    requires n <= |tokens|
    ensures Width(tokens + NO_TOKEN, byteLen, n) == Width(tokens, byteLen, n)
    decreases n
  {
    if n > 0 {
      WidthOfPrefix(tokens, byteLen, n - 1);
      assert BeforeColon(tokens + NO_TOKEN, n - 1) <==> BeforeColon(tokens, n - 1);
    }
  }

  lemma PieceOfPrefix(tokens: seq<Text>, i: nat, level: int, st: Style, width: nat)
    requires i < |tokens|
    ensures var more := tokens + NO_TOKEN;
            && Take(more, i) == Take(tokens, i) && Level(more, i, level) == Level(tokens, i, level)
            && Piece(more, i, level, st, width) == Piece(tokens, i, level, st, width)
  {
    var more := tokens + NO_TOKEN;
    assert BeforeColon(more, i) <==> BeforeColon(tokens, i);
  }

  lemma {:induction false} PrintOfPrefix(tokens: seq<Text>, i: nat, level: int, st: Style, width: nat)
    requires i <= |tokens| && !EndsOpen(tokens)
    ensures Print(tokens + NO_TOKEN, i, level, st, width) == Print(tokens, i, level, st, width)
    decreases |tokens| - i
  {
    var more := tokens + NO_TOKEN;
    if i == |tokens| {
      WordPiece(more, i, level, st, width);
      assert Piece(more, i, level, st, width) == [];
    } else {
      PieceOfPrefix(tokens, i, level, st, width);
      if !(IsOpener(tokens[i]) && i + 1 == |tokens|) {
        PrintOfPrefix(tokens, i + Take(tokens, i), Level(tokens, i, level), st, width);
      }
    }
  }

  lemma EquivalentPrintAlike(a: seq<Text>, b: seq<Text>, st: Style)
    requires Equivalent(a, b)
    ensures PrintAll(a, st) == PrintAll(b, st)
  {
    if a == b + NO_TOKEN && !EndsOpen(b) {
      AppendPrintsNothing(b, st);
    } else if b == a + NO_TOKEN && !EndsOpen(a) {
      AppendPrintsNothing(a, st);
    }
  }

  lemma AppendPrintsNothing(tokens: seq<Text>, st: Style)
    requires !EndsOpen(tokens)
    ensures PrintAll(tokens + NO_TOKEN, st) == PrintAll(tokens, st)
  {
    var n := |tokens|;
    WidthOfPrefix(tokens, st.byteLen, n);
    assert !BeforeColon(tokens + NO_TOKEN, n);
    PrintOfPrefix(tokens, 0, 0, st, Width(tokens, st.byteLen, n));
  }

  // A text with nothing but an empty token is blank.
  lemma BlankTokens(json: Text)
    requires Tokens(json).Some? && (Tokens(json).value == [] || Tokens(json).value[0] == [])
    ensures Blank(json)
  {
    if json != [] {
      TokensAreGood(json);
      var n := Scan(json, false, true).value;
      var tokens, rest := Tokens(json).value, Tokens(json[n..]).value;
      assert GoodToken(tokens, 0);
      assert tokens == [Trim(json[..n])] + rest && |tokens| == 1;
      if json[n..] != [] {
        TokensNotEmpty(json[n..]);
      }
      BlankTrims(json);
      assert json[..n] == json;
    }
  }

  /** Formatting is stable: a formatted text is left as it is. */
  lemma FormatIsIdempotent(json: Text, st: Style)
    requires Blank(st.indent) && Format(Some(json), st).Text? && SafeFrom(Tokens(json).value, 0)
    ensures Format(Some(Format(Some(json), st).text), st) == Format(Some(json), st)
  {
    var out, tokens := Format(Some(json), st).text, Tokens(json).value;
    FormatKeepsTokens(json, st);
    EquivalentPrintAlike(Tokens(out).value, tokens, st);
    if Trim(out) == [] {
      BlankTrims(out);
      ReadBlank(out);
      assert Tokens(out).value == [] || Tokens(out).value == NO_TOKEN;
      assert tokens == [] || tokens[0] == [];
      BlankTokens(json);
      BlankTrims(json);
    }
  }

  // ---- Texts that are safe ----

  // Backslashes stand in strings only, and every string is closed.
  predicate BackslashesInStrings(s: Text, inString: bool)
    decreases |s|
  {
    if s == [] then !inString
    else if s[0] == BACKSLASH then inString && |s| > 1 && BackslashesInStrings(s[2..], inString)
    else BackslashesInStrings(s[1..], inString != (s[0] == QUOTE))
  }

  lemma {:induction false} RestIsClosed(s: Text, quoted: bool, blank: bool)
    requires BackslashesInStrings(s, quoted)
    ensures Scan(s, quoted, blank).Some? && BackslashesInStrings(s[Scan(s, quoted, blank).value..], false)
    decreases |s|
  {
    if s == [] || (!quoted && IsMark(s[0])) {
      assert s[0..] == s;
    } else if s[0] == BACKSLASH {
      RestIsClosed(s[2..], quoted, false);
      assert s[2..][Scan(s[2..], quoted, false).value..] == s[Scan(s, quoted, blank).value..];
    } else if !(s[0] == QUOTE && quoted) {
      var q, b := quoted || s[0] == QUOTE, blank && s[0] <= SPACE;
      RestIsClosed(s[1..], q, if s[0] == QUOTE then false else b);
      assert s[1..][Scan(s[1..], q, if s[0] == QUOTE then false else b).value..] == s[Scan(s, quoted, blank).value..];
    }
  }

  // A part of such a text that is cut behind a backslash is cut inside a string.
  lemma {:induction false} DanglingInString(t: Text, r: Text, quoted: bool)
    requires BackslashesInStrings(t + r, quoted) && Walk(t, quoted).Dangling?
    ensures Walk(t, quoted) == Dangling(true)
    decreases |t|
  {
    if t[0] == BACKSLASH {
      if |t| > 1 {
        assert (t + r)[2..] == t[2..] + r;
        DanglingInString(t[2..], r, quoted);
      }
    } else {
      assert (t + r)[1..] == t[1..] + r;
      DanglingInString(t[1..], r, quoted || t[0] == QUOTE);
    }
  }

  // All of such a text leaves no string open.
  lemma {:induction false} NotLeftOpen(s: Text, quoted: bool)
    requires BackslashesInStrings(s, quoted)
    ensures Walk(s, quoted) != Quoted && !Walk(s, quoted).Dangling?
    decreases |s|
  {
    if s != [] && (quoted || !IsMark(s[0])) {
      if s[0] == BACKSLASH {
        NotLeftOpen(s[2..], quoted);
      } else if !(s[0] == QUOTE && quoted) {
        NotLeftOpen(s[1..], quoted || s[0] == QUOTE);
      }
    }
  }

  // The last token of such a text, and the white space behind it, end outside a string.
  lemma LastNotDangling(t: Text, w: Text)
    requires Blank(w) && BackslashesInStrings(t + w, false)
    ensures Walk(t, false) != Dangling(true)
  {
    assert w == [] ==> t + w == t;
    WalkRight(t, w, false);
    NotLeftOpen(t + w, false);
  }

  lemma TokenNotDangling(t: Text, w: Text, rest: Text)
    requires Blank(w) && BackslashesInStrings(t + (w + rest), false) && t != [] && GoodStart(t, rest)
    ensures !Walk(t, false).Dangling?
  {
    if Walk(t, false).Dangling? {
      DanglingInString(t, w + rest, false);
      assert !IsMarkToken(t) && rest == [] && w + rest == w;
      LastNotDangling(t, w);
    }
  }

  lemma PartsOf(json: Text, n: nat, u: Text, t: Text, w: Text)
    requires n <= |json| && json[..n] == u + t + w
    ensures json == u + (t + (w + json[n..]))
  {
    assert json == json[..n] + json[n..];
  }

  lemma FirstTokenNotDangling(json: Text, n: nat)
    requires json != [] && BackslashesInStrings(json, false) && Scan(json, false, true) == Some(n)
    ensures !Walk(Trim(json[..n]), false).Dangling?
  {
    var raw, rest := json[..n], json[n..];
    var u, w := TrimParts(raw);
    var t := Trim(raw);
    ScanShape(json, false, true);
    TrimEnded(raw, rest);
    PartsOf(json, n, u, t, w);
    StringsBehindBlank(u, t + (w + rest));
    if t != [] {
      TokenNotDangling(t, w, rest);
    }
  }

  lemma {:induction false} StringsBehindBlank(u: Text, s: Text)
    requires Blank(u) && BackslashesInStrings(u + s, false)
    ensures BackslashesInStrings(s, false)
    decreases |u|
  {
    if u == [] {
      assert u + s == s;
    } else {
      assert (u + s)[1..] == u[1..] + s;
      StringsBehindBlank(u[1..], s);
    }
  }

  /** Text with backslashes only in closed strings, as JSON has it, can be read and is safe; so formatting keeps its
      tokens and is stable on it. */
  lemma {:induction false} StringsAreSafe(json: Text)
    requires BackslashesInStrings(json, false)
    ensures Tokens(json).Some? && SafeFrom(Tokens(json).value, 0)
    decreases |json|
  {
    if json != [] {
      RestIsClosed(json, false, true);
      var n := Scan(json, false, true).value;
      FirstTokenNotDangling(json, n);
      StringsAreSafe(json[n..]);
      var tokens, rest := Tokens(json).value, Tokens(json[n..]).value;
      assert tokens == [Trim(json[..n])] + rest;
      forall k | 0 <= k < |tokens| ensures SafeToken(tokens, k) {
        if k > 0 {
          assert SafeToken(rest, k - 1) && tokens[k] == rest[k - 1];
          assert k + 1 < |tokens| ==> tokens[k + 1] == rest[k];
        }
      }
    }
  }
}
