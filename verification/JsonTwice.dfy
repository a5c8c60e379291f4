/** Formatting a formatted text: when that throws, and texts on which formatting is not stable or stable all the same. */
module JsonTwice {
  import opened Chars
  import opened JsonFormat
  import opened JsonRoundTrip
  import opened JsonSpec
  import opened JsonThrows
  import opened JsonTokens
  import opened Options

  // ---- Whether the printed text ends in an odd number of backslashes ----

  lemma {:induction false} DanglingEscapes(t: Text, quoted: bool)
    requires Walk(t, quoted) != Broken
    ensures Walk(t, quoted).Dangling? <==> EndsEscaping(t)
    decreases |t|
  {
    if t != [] {
      if t[0] == BACKSLASH && |t| > 1 {
        assert t == [BACKSLASH, t[1]] + t[2..];
        EscapingBehind(t[1], t[2..]);
        DanglingEscapes(t[2..], quoted);
      } else if t[0] == BACKSLASH {
        assert t[..|t| - 1] == [] && Backslashes(t) == 1 + Backslashes([]);
      } else {
        assert t == [t[0]] + t[1..];
        EscapingBehind(t[0], t[1..]);
        if t[0] == QUOTE && quoted {
          assert t[1..] == [] && Backslashes(t[1..]) == 0;
        } else {
          DanglingEscapes(t[1..], quoted || t[0] == QUOTE);
        }
      }
    }
  }

  lemma {:induction false} NotAllBackslashes(s: Text, k: nat)
    requires k < |s| && s[k] != BACKSLASH
    ensures Backslashes(s) < |s|
    decreases |s|
  {
    if s[|s| - 1] == BACKSLASH {
      NotAllBackslashes(s[..|s| - 1], k);
    }
  }

  predicate EndsInBackslash(s: Text) {
    s != [] && s[|s| - 1] == BACKSLASH
  }

  lemma ClearEnd(a: Text, r: Text)
    requires !EndsInBackslash(a)
    ensures EndsEscaping(a + r) == EndsEscaping(r)
  {
    BackslashesBehind(a, r);
  }

  lemma ClearStart(a: Text, u: Text, c: Char, v: Text)
    requires c != BACKSLASH
    ensures EndsEscaping(a + (u + [c] + v)) == EndsEscaping(u + [c] + v)
  {
    BackslashesBehind(a, u + [c] + v);
    NotAllBackslashes(u + [c] + v, |u|);
  }

  lemma {:induction false} ClosedEnds(t: Text, quoted: bool)
    requires Walk(t, quoted) == Closed
    ensures t != [] && t[|t| - 1] == QUOTE
    decreases |t|
  {
    if t[0] == BACKSLASH {
      ClosedEnds(t[2..], quoted);
    } else if !(t[0] == QUOTE && quoted) {
      ClosedEnds(t[1..], quoted || t[0] == QUOTE);
    }
  }

  lemma EndOfBoth(a: Text, w: Text)
    requires Blank(w)
    ensures EndsInBackslash(a + w) <==> w == [] && EndsInBackslash(a)
  {
    assert w == [] ==> a + w == a;
  }

  // What is printed for a mark, or for a pair of brackets, ends in no backslash.
  lemma MarkPieceEnds(tokens: seq<Text>, i: nat, level: int, st: Style, width: nat)
    requires i < |tokens| && IsMarkToken(tokens[i]) && Blank(st.indent)
    ensures !EndsInBackslash(Piece(tokens, i, level, st, width))
  {
    if Take(tokens, i) == 2 {
      PairPiece(tokens, i, level, st, width);
    } else {
      var u, v := MarkPiece(tokens, i, level, st, width);
      EndOfBoth(u + tokens[i], v);
    }
  }

  lemma ClosedPieceEnds(tokens: seq<Text>, i: nat, level: int, st: Style, width: nat)
    requires i < |tokens| && !IsMarkToken(tokens[i]) && Walk(tokens[i], false) == Closed
    ensures !EndsInBackslash(Piece(tokens, i, level, st, width))
  {
    WordPiece(tokens, i, level, st, width);
    PadBlank(tokens, st.byteLen, i, width);
    ClosedEnds(tokens[i], false);
    EndOfBoth(tokens[i], Pad(tokens, st.byteLen, i, width));
  }

  lemma LastPiece(tokens: seq<Text>, i: nat, level: int, st: Style, width: nat)
    requires i < |tokens| == i + Take(tokens, i) && Blank(st.indent)
    ensures EndsEscaping(Piece(tokens, i, level, st, width)) == EndsEscaping(tokens[|tokens| - 1])
  {
    if IsMarkToken(tokens[i]) {
      MarkPieceEnds(tokens, i, level, st, width);
      assert Backslashes(Piece(tokens, i, level, st, width)) == 0;
    } else {
      WordPiece(tokens, i, level, st, width);
      assert tokens[i] + [] == tokens[i];
    }
  }

  // The printed text ends as the last token does.
  lemma {:induction false} PrintEscapes(tokens: seq<Text>, i: nat, level: int, st: Style, width: nat)
    requires i < |tokens| && GoodTokens(tokens) && Blank(st.indent) && Print(tokens, i, level, st, width).Some?
    ensures EndsEscaping(Print(tokens, i, level, st, width).value) == EndsEscaping(tokens[|tokens| - 1])
    decreases |tokens| - i
  {
    var rest := PrintStep(tokens, i, level, st, width);
    var piece := Piece(tokens, i, level, st, width);
    var j, next := i + Take(tokens, i), Level(tokens, i, level);
    if j == |tokens| {
      LastPiece(tokens, i, level, st, width);
      assert piece + [] == piece;
    } else {
      PrintEscapes(tokens, j, next, st, width);
      assert GoodToken(tokens, i);
      if IsMarkToken(tokens[i]) {
        MarkPieceEnds(tokens, i, level, st, width);
        ClearEnd(piece, rest);
      } else if Walk(tokens[i], false) == Closed {
        ClosedPieceEnds(tokens, i, level, st, width);
        ClearEnd(piece, rest);
      } else {
        var u, v := MarkFirst(tokens, j, next, st, width);
        assert tokens[j] == [tokens[j][0]];
        ClearStart(piece, u, tokens[j][0], v);
      }
    }
  }

  // ---- The printed text never ends in an opening bracket ----

  lemma {:induction false} StandingBehindWord(t: Text, r: Text, quoted: bool)
    requires Walk(t, quoted) != Broken
    ensures match Walk(t, quoted)
            case Plain => StandingBehind(t + r, quoted) == StandingBehind(r, false)
            case Quoted => StandingBehind(t + r, quoted) == StandingBehind(r, true)
            case Closed => StandingBehind(t + r, quoted) == StandingBehind(r, false)
            case Dangling(q) =>
              StandingBehind(t + r, quoted) == if r == [] then BehindBackslash else StandingBehind(r[1..], q)
            case Broken => false
    decreases |t|
  {
    if t == [] {
      assert t + r == r;
    } else if t[0] == BACKSLASH {
      if |t| == 1 {
        assert r != [] ==> (t + r)[2..] == r[1..];
      } else {
        assert (t + r)[2..] == t[2..] + r;
        StandingBehindWord(t[2..], r, quoted);
      }
    } else {
      assert (t + r)[1..] == t[1..] + r;
      if t[0] == QUOTE && quoted {
        assert t[1..] + r == r;
      } else {
        StandingBehindWord(t[1..], r, quoted || t[0] == QUOTE);
      }
    }
  }

  predicate Neutral(w: Text) {
    forall k :: 0 <= k < |w| ==> w[k] != BACKSLASH && w[k] != QUOTE
  }

  lemma {:induction false} StandingBehindNeutral(w: Text, r: Text)
    requires Neutral(w)
    ensures StandingBehind(w + r, false) == StandingBehind(r, false)
    decreases |w|
  {
    if w == [] {
      assert w + r == r;
    } else {
      assert (w + r)[1..] == w[1..] + r;
      StandingBehindNeutral(w[1..], r);
    }
  }

  // A mark inside a word is escaped or in a string.
  lemma {:induction false} MarkInWord(front: Text, c: Char, quoted: bool)
    requires IsMark(c) && Walk(front + [c], quoted) != Broken
    ensures StandingBehind(front, quoted) != Outside
    decreases |front|
  {
    var t := front + [c];
    if front != [] {
      if front[0] == BACKSLASH {
        if |front| > 1 {
          assert t[2..] == front[2..] + [c];
          MarkInWord(front[2..], c, quoted);
        }
      } else {
        assert t[1..] == front[1..] + [c];
        MarkInWord(front[1..], c, quoted || t[0] == QUOTE);
      }
    }
  }

  lemma MarkPieceNeutral(tokens: seq<Text>, i: nat, level: int, st: Style, width: nat)
    requires i < |tokens| && IsMarkToken(tokens[i]) && Blank(st.indent)
    ensures var piece := Piece(tokens, i, level, st, width);
            Neutral(piece) && piece != [] && (i + 1 < |tokens| || !IsOpener(tokens[i]) ==> !IsOpener([piece[|piece| - 1]]))
  {
    if Take(tokens, i) == 2 {
      PairPiece(tokens, i, level, st, width);
    } else {
      var u, v := MarkPiece(tokens, i, level, st, width);
      var piece := Piece(tokens, i, level, st, width);
      assert piece == u + tokens[i] + v;
      assert v == [] ==> piece[|piece| - 1] == tokens[i][0];
      assert v != [] ==> piece[|piece| - 1] == v[|v| - 1];
    }
  }

  lemma OpensLater(piece: Text, front: Text, c: Char)
    requires !OpensBehind(front, c)
    requires StandingBehind(piece + front, false) == StandingBehind(front, false)
    ensures !OpenAtEnd(piece + (front + [c]))
  {
    assert piece + (front + [c]) == piece + front + [c];
    OpenAtEndOf(piece + front, c);
  }

  lemma WordNotOpen(t: Text)
    requires Walk(t, false) != Broken
    ensures !OpenAtEnd(t)
  {
    if OpenAtEnd(t) {
      var front, c := t[..|t| - 1], t[|t| - 1];
      assert t == front + [c];
      MarkInWord(front, c, false);
    }
  }

  lemma PaddedWordNotOpen(t: Text, pad: Text)
    requires Walk(t, false) != Broken && Blank(pad)
    ensures !OpenAtEnd(t + pad)
  {
    if pad == [] {
      assert t + pad == t;
      WordNotOpen(t);
    }
  }

  // A word with its padding in front of text that does not end open.
  lemma WordThenNotOpen(t: Text, pad: Text, front: Text, c: Char)
    requires Blank(pad) && !OpensBehind(front, c)
    requires match Walk(t, false)
             case Plain => true
             case Closed => true
             case Dangling(inString) => !inString && (front != [] ==> Neutral(front[..1]))
             case _ => false
    ensures !OpenAtEnd(t + pad + (front + [c]))
  {
    var w := pad + front;
    StandingBehindNeutral(pad, front);
    StandingBehindWord(t, w, false);
    if Walk(t, false).Dangling? && w != [] {
      assert w == w[..1] + w[1..];
      assert w[0] == if pad == [] then front[..1][0] else pad[0];
      StandingBehindNeutral(w[..1], w[1..]);
    }
    assert t + pad + front == t + w;
    assert t + pad + (front + [c]) == t + pad + front + [c];
    OpenAtEndOf(t + pad + front, c);
  }

  lemma FirstIsNeutral(u: Text, c: Char, v: Text, front: Text, d: Char)
    requires Blank(u) && IsMark(c) && u + [c] + v == front + [d]
    ensures front != [] ==> Neutral(front[..1])
  {
    if front != [] {
      assert (front + [d])[0] == front[0];
      assert (u + [c] + v)[0] == if u == [] then c else u[0];
    }
  }

  lemma {:induction false} PrintNotOpen(tokens: seq<Text>, i: nat, level: int, st: Style, width: nat)
    requires i <= |tokens| && GoodTokens(tokens) && Blank(st.indent) && Print(tokens, i, level, st, width).Some?
    ensures !OpenAtEnd(Print(tokens, i, level, st, width).value)
    decreases |tokens| - i
  {
    if i < |tokens| {
      var rest := PrintStep(tokens, i, level, st, width);
      PrintNotOpen(tokens, i + Take(tokens, i), Level(tokens, i, level), st, width);
      PieceNotOpen(tokens, i, level, st, width, rest);
    }
  }

  lemma PieceNotOpen(tokens: seq<Text>, i: nat, level: int, st: Style, width: nat, rest: Text)
    requires i < |tokens| && GoodTokens(tokens) && Blank(st.indent) && (IsOpener(tokens[i]) ==> i + 1 < |tokens|)
    requires Print(tokens, i + Take(tokens, i), Level(tokens, i, level), st, width) == Some(rest) && !OpenAtEnd(rest)
    ensures !OpenAtEnd(Piece(tokens, i, level, st, width) + rest)
  {
    var piece := Piece(tokens, i, level, st, width);
    assert rest == [] ==> piece + rest == piece;
    if IsMarkToken(tokens[i]) {
      MarkPieceNeutral(tokens, i, level, st, width);
      if rest != [] {
        var front, c := LastCharacter(rest, |rest|);
        OpenAtEndOf(front, c);
        StandingBehindNeutral(piece, front);
        OpensLater(piece, front, c);
      }
    } else {
      WordPieceNotOpen(tokens, i, level, st, width, rest);
    }
  }

  lemma WordPieceNotOpen(tokens: seq<Text>, i: nat, level: int, st: Style, width: nat, rest: Text)
    requires i < |tokens| && GoodToken(tokens, i) && Blank(st.indent) && !IsMarkToken(tokens[i])
    requires Print(tokens, i + 1, level, st, width) == Some(rest) && !OpenAtEnd(rest)
    ensures !OpenAtEnd(Piece(tokens, i, level, st, width) + rest)
  {
    var t, pad := tokens[i], Pad(tokens, st.byteLen, i, width);
    WordPiece(tokens, i, level, st, width);
    PadBlank(tokens, st.byteLen, i, width);
    if rest == [] {
      assert t + pad + rest == t + pad;
      PaddedWordNotOpen(t, pad);
    } else {
      var front, c := LastCharacter(rest, |rest|);
      OpenAtEndOf(front, c);
      if Walk(t, false).Dangling? {
        var u, v := MarkFirst(tokens, i + 1, level, st, width);
        assert tokens[i + 1] == [tokens[i + 1][0]];
        FirstIsNeutral(u, tokens[i + 1][0], v, front, c);
      }
      WordThenNotOpen(t, pad, front, c);
    }
  }

  lemma LastTokenEscapes(tokens: seq<Text>)
    requires GoodTokens(tokens) && tokens != []
    ensures Walk(tokens[|tokens| - 1], false).Dangling? <==> EndsEscaping(tokens[|tokens| - 1])
  {
    var last := tokens[|tokens| - 1];
    assert GoodToken(tokens, |tokens| - 1);
    if !IsMarkToken(last) {
      DanglingEscapes(last, false);
    }
  }

  // How the printed text ends decides whether formatting it throws.
  lemma ThrowsIfEscaping(out: Text, st: Style)
    requires !OpenAtEnd(out)
    ensures Format(Some(out), st).Throws? <==> EndsEscaping(out)
  {
    if Trim(out) == [] {
      BlankTrims(out);
      assert Backslashes(out) == 0;
    } else {
      FormatThrows(out, st);
    }
  }

  predicate LastDangles(tokens: seq<Text>) {
    tokens != [] && Walk(tokens[|tokens| - 1], false).Dangling?
  }

  lemma PrintedThrows(tokens: seq<Text>, out: Text, st: Style)
    requires GoodTokens(tokens) && tokens != [] && Blank(st.indent) && PrintAll(tokens, st) == Some(out)
    ensures Format(Some(out), st).Throws? <==> LastDangles(tokens)
  {
    var width := Width(tokens, st.byteLen, |tokens|);
    PrintEscapes(tokens, 0, 0, st, width);
    PrintNotOpen(tokens, 0, 0, st, width);
    LastTokenEscapes(tokens);
    ThrowsIfEscaping(out, st);
  }

  // ---- The last token, as the text shows it ----

  lemma TrimRightBehind(a: Text, s: Text)
    requires !Blank(s)
    ensures TrimRight(s) != [] && TrimRight(s)[0] == s[0] && TrimRight(a + s) == a + TrimRight(s)
  {
    var w := TrimRightParts(s);
    assert TrimRight(s) != [];
    assert a + s == a + TrimRight(s) + w;
    TrimRightOf(a + TrimRight(s), w);
  }

  lemma RawEnds(raw: Text, rest: Text)
    requires raw != [] && rest != [] && Ended(raw, rest, false, true)
    ensures IsMark(rest[0]) || (!EndsInBackslash(raw) && raw[|raw| - 1] > SPACE)
  {
    if Walk(raw, false) == Closed {
      ClosedEnds(raw, false);
    }
  }

  // The last token of several.
  lemma LaterEscapes(raw: Text, rest: Text)
    requires raw != [] && rest != [] && Ended(raw, rest, false, true)
    ensures EndsEscaping(TrimRight(raw + rest)) <==> !Blank(rest) && EndsEscaping(TrimRight(rest))
  {
    RawEnds(raw, rest);
    if Blank(rest) {
      TrimRightOf(raw, rest);
      assert Backslashes(raw) == 0;
    } else {
      TrimRightBehind(raw, rest);
      var t := TrimRight(rest);
      if IsMark(rest[0]) {
        assert t == [] + [t[0]] + t[1..];
        ClearStart(raw, [], t[0], t[1..]);
      } else {
        ClearEnd(raw, t);
      }
    }
  }

  lemma OnlyEscapes(json: Text)
    ensures EndsEscaping(TrimRight(json)) == EndsEscaping(Trim(json))
  {
    var u, w := TrimParts(json);
    var t := Trim(json);
    if t == [] {
      BlankTrims(json);
      assert json == [] + json;
      TrimRightOf([], json);
    } else {
      TrimRightOf(u + t, w);
      ClearEnd(u, t);
    }
  }

  lemma BlankHasNoToken(rest: Text)
    requires Tokens(rest).Some? && Blank(rest)
    ensures !LastDangles(Tokens(rest).value)
  {
    ReadBlank(rest);
  }

  lemma OneTokenInText(json: Text)
    requires json != [] && Tokens(json) == Some([Trim(json)])
    ensures LastDangles([Trim(json)]) <==> EndsEscaping(TrimRight(json))
  {
    TokensAreGood(json);
    LastTokenEscapes([Trim(json)]);
    OnlyEscapes(json);
  }

  lemma TokensSplit(json: Text, n: nat)
    requires Tokens(json).Some? && json != [] && Scan(json, false, true) == Some(n)
    ensures Tokens(json[n..]).Some? && json[..n] != [] && json == json[..n] + json[n..]
    ensures Tokens(json).value == [Trim(json[..n])] + Tokens(json[n..]).value
  {
  }

  lemma LastOfMore(t: Text, tokens: seq<Text>)
    requires tokens != []
    ensures LastDangles([t] + tokens) <==> LastDangles(tokens)
  {
  }

  // The last token dangles exactly if the text, without the white space at its end, ends in an odd number of backslashes.
  lemma {:induction false} LastDanglesInText(json: Text)
    requires Tokens(json).Some?
    ensures LastDangles(Tokens(json).value) <==> EndsEscaping(TrimRight(json))
    decreases |json|
  {
    if json != [] {
      var n := Scan(json, false, true).value;
      var raw, rest := json[..n], json[n..];
      TokensSplit(json, n);
      if rest == [] {
        assert raw == json && [Trim(raw)] + [] == [Trim(raw)];
        OneTokenInText(json);
      } else {
        ScanShape(json, false, true);
        LaterEscapes(raw, rest);
        LastDanglesInText(rest);
        TokensNotEmpty(rest);
        LastOfMore(Trim(raw), Tokens(rest).value);
        if Blank(rest) {
          BlankHasNoToken(rest);
        }
      }
    }
  }

  /** Formatting a formatted text throws exactly if the first text, without the white space at its end, ends in an odd
      number of backslashes. */
  lemma FormatAgainThrows(json: Text, st: Style)
    requires Blank(st.indent) && Format(Some(json), st).Text?
    ensures Format(Some(Format(Some(json), st).text), st).Throws? <==> EndsEscaping(TrimRight(json))
  {
    TokensAreGood(json);
    TokensNotEmpty(json);
    PrintedThrows(Tokens(json).value, Format(Some(json), st).text, st);
    LastDanglesInText(json);
  }

  // ---- Texts on which formatting is not stable, or stable all the same ----

  // A text without marks whose first and last characters are not white space is one token.
  lemma OneToken(t: Text, st: Style)
    requires t != [] && Trimmed(t) && Walk(t, false) == Plain && !IsMark(t[0])
    ensures Tokens(t) == Some([t]) && Format(Some(t), st) == Text(t)
  {
    assert [] + t == t && t + [] == t;
    BlankTrims(t);
    assert Trim(t) == t by {
      TrimOf([], t, []);
    }
    ScanThrough(t, [], false, true, false);
    assert t[..|t|] == t && t[|t|..] == [];
    assert Tokens(t) == Prepend(t, Tokens([])) && [t] + [] == [t];
    WordPiece([t], 0, 0, st, Width([t], st.byteLen, 1));
    assert Print([t], 1, 0, st, Width([t], st.byteLen, 1)) == Some([]);
  }

  const LETTER: Char := 98

  /** Formatting can make a text unreadable: `b\ ` is printed as `b\`, on which formatting throws. */
  lemma NotAlwaysStable(st: Style)
    ensures var json := [LETTER, BACKSLASH, SPACE];
            && !BackslashesInStrings(json, false)
            && Format(Some(json), st) == Text([LETTER, BACKSLASH])
            && Format(Some([LETTER, BACKSLASH]), st) == Throws
  {
    var json: Text, out: Text := [LETTER, BACKSLASH, SPACE], [LETTER, BACKSLASH];
    assert json == [LETTER] + [BACKSLASH, SPACE] && out == [LETTER] + [BACKSLASH];
    ScanEscape(SPACE, [], false, false);
    assert [BACKSLASH, SPACE] == [BACKSLASH, SPACE] + [];
    ScanOne(LETTER, [BACKSLASH, SPACE], false, true);
    ScanOne(LETTER, [BACKSLASH], false, true);
    assert Scan(json, false, true) == Some(3) && Scan(out, false, true) == None;
    assert json[..3] == [] + out + [SPACE] && json[3..] == [];
    TrimOf([], out, [SPACE]);
    assert Tokens(json) == Prepend(out, Tokens([])) && [out] + [] == [out];
    WordPiece([out], 0, 0, st, Width([out], st.byteLen, 1));
    assert Print([out], 1, 0, st, Width([out], st.byteLen, 1)) == Some([]);
    assert out + [] == out;
    BlankTrims(json);
    BlankTrims(out);
  }

  // A word, a comma and a word.
  lemma PrintsWords(a: Text, b: Text, st: Style)
    requires !IsMarkToken(a) && !IsMarkToken(b)
    ensures PrintAll([a, [COMMA], b], st) == Some(a + ([COMMA, NEWLINE] + b))
  {
    var tokens: seq<Text> := [a, [COMMA], b];
    var width := Width(tokens, st.byteLen, 3);
    WordPiece(tokens, 0, 0, st, width);
    WordPiece(tokens, 2, 0, st, width);
    assert Piece(tokens, 2, 0, st, width) == b && Piece(tokens, 0, 0, st, width) == a;
    assert Piece(tokens, 1, 0, st, width) == [COMMA, NEWLINE];
    assert Print(tokens, 3, 0, st, width) == Some([]) && b + [] == b;
    assert Print(tokens, 2, 0, st, width) == Some(b);
    assert Print(tokens, 1, 0, st, width) == Some([COMMA, NEWLINE] + b);
  }

  const ESCAPE_AT_END: Text := [LETTER] + [BACKSLASH]
  const OVER_TWO_LINES: Text := ESCAPE_AT_END + ([COMMA, NEWLINE] + [LETTER])

  lemma EscapeDangles()
    ensures Walk(ESCAPE_AT_END, false) == Dangling(false)
  {
    ScanOne(LETTER, [BACKSLASH], false, true);
  }

  lemma OverTwoLinesIsPlain()
    ensures Walk(OVER_TWO_LINES, false) == Plain
  {
    var tail: Text := [NEWLINE] + [LETTER];
    assert OVER_TWO_LINES == [LETTER] + ([BACKSLASH, COMMA] + tail) && [LETTER] == [LETTER] + [];
    ScanOne(LETTER, [], false, true);
    ScanOne(NEWLINE, [LETTER], false, true);
    ScanEscape(COMMA, tail, false, false);
    ScanOne(LETTER, [BACKSLASH, COMMA] + tail, false, true);
  }

  const TWO_WORDS: Text := [LETTER, BACKSLASH, SPACE, COMMA, LETTER]

  lemma TokensOfTwoWords()
    ensures Tokens(TWO_WORDS) == Some([ESCAPE_AT_END, [COMMA], [LETTER]])
  {
    var blank: Text, letter: Text := [SPACE], [LETTER];
    EscapeDangles();
    WalkRight(ESCAPE_AT_END, blank, false);
    assert TWO_WORDS == [] + ESCAPE_AT_END + (blank + [COMMA] + letter);
    ReadOpen([], ESCAPE_AT_END, blank, COMMA, letter);
    ReadMark(blank, COMMA, letter);
    ScanOne(LETTER, [], false, true);
    assert [] + letter == letter && letter + [] == letter;
    ReadLast([], letter);
    assert [[COMMA]] + [letter] == [[COMMA], letter];
    assert [ESCAPE_AT_END] + [[COMMA], letter] == [ESCAPE_AT_END, [COMMA], letter];
  }

  lemma OverTwoLinesReadsAs(st: Style)
    ensures Format(Some(OVER_TWO_LINES), st) == Text(OVER_TWO_LINES)
  {
    OverTwoLinesIsPlain();
    OneToken(OVER_TWO_LINES, st);
  }

  /** Yet a text that loses a token can be formatted stably: `b\ ,b` is printed as one token over two lines. */
  lemma StableThoughUnsafe(st: Style)
    ensures Tokens(TWO_WORDS).Some? && !SafeFrom(Tokens(TWO_WORDS).value, 0)
    ensures Format(Some(TWO_WORDS), st) == Text(OVER_TWO_LINES)
    ensures Format(Some(OVER_TWO_LINES), st) == Text(OVER_TWO_LINES)
  {
    TokensOfTwoWords();
    EscapeDangles();
    assert !SafeToken([ESCAPE_AT_END, [COMMA], [LETTER]], 0);
    PrintsWords(ESCAPE_AT_END, [LETTER], st);
    BlankTrims(TWO_WORDS);
    assert TWO_WORDS[0] > SPACE;
    OverTwoLinesReadsAs(st);
  }
}
