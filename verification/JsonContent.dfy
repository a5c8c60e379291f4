/** What formatting leaves alone: every character that is not white space, and the strings. */
module JsonContent {
  import opened Chars
  import opened JsonFormat
  import opened JsonRoundTrip
  import opened JsonSpec
  import opened JsonThrows
  import opened JsonTokens
  import opened Options

  // ---- Every character that is not white space ----

  function Ink(s: Text): Text {
    if s == [] then []
    else if s[|s| - 1] > 32 then Ink(s[..|s| - 1]) + [s[|s| - 1]]
    else Ink(s[..|s| - 1])
  }

  lemma {:induction false} InkOfBoth(a: Text, b: Text)
    ensures Ink(a + b) == Ink(a) + Ink(b)
    decreases |b|
  {
    if b == [] {
      assert a + b == a;
    } else {
      assert (a + b)[..|a + b| - 1] == a + b[..|b| - 1];
      InkOfBoth(a, b[..|b| - 1]);
    }
  }

  lemma {:induction false} InkOfBlank(s: Text)
    requires Blank(s)
    ensures Ink(s) == []
    decreases |s|
  {
    if s != [] {
      InkOfBlank(s[..|s| - 1]);
    }
  }

  lemma InkInBlank(u: Text, t: Text, w: Text)
    requires Blank(u) && Blank(w)
    ensures Ink(u + t + w) == Ink(t)
  {
    InkOfBoth(u + t, w);
    InkOfBoth(u, t);
    InkOfBlank(u);
    InkOfBlank(w);
    assert [] + Ink(t) + [] == Ink(t);
  }

  lemma InkOfTrimmed(s: Text)
    ensures Ink(Trim(s)) == Ink(s)
  {
    var u, w := TrimParts(s);
    InkInBlank(u, Trim(s), w);
  }

  // The ink of the tokens from the i-th on.
  function InkFrom(tokens: seq<Text>, i: nat): Text
    requires i <= |tokens|
    decreases |tokens| - i
  {
    if i == |tokens| then [] else Ink(tokens[i]) + InkFrom(tokens, i + 1)
  }

  lemma {:induction false} InkBehindFirst(all: seq<Text>, tokens: seq<Text>, i: nat)
    requires i <= |tokens| && |all| == |tokens| + 1 && forall k :: 0 <= k < |tokens| ==> all[k + 1] == tokens[k]
    ensures InkFrom(all, i + 1) == InkFrom(tokens, i)
    decreases |tokens| - i
  {
    if i < |tokens| {
      InkBehindFirst(all, tokens, i + 1);
    }
  }

  lemma {:induction false} InkOfTokens(json: Text)
    requires Tokens(json).Some?
    ensures InkFrom(Tokens(json).value, 0) == Ink(json)
    decreases |json|
  {
    if json != [] {
      var n := Scan(json, false, true).value;
      var rest := Tokens(json[n..]).value;
      assert json == json[..n] + json[n..];
      InkOfBoth(json[..n], json[n..]);
      InkOfTrimmed(json[..n]);
      InkOfTokens(json[n..]);
      InkBehindFirst(Tokens(json).value, rest, 0);
    }
  }

  // The printer adds white space only.
  lemma InkOfMark(tokens: seq<Text>, i: nat, level: int, st: Style, width: nat)
    requires i < |tokens| && IsMarkToken(tokens[i]) && Take(tokens, i) == 1 && Blank(st.indent)
    ensures Ink(Piece(tokens, i, level, st, width)) == Ink(tokens[i])
  {
    var u, v := MarkPiece(tokens, i, level, st, width);
    InkInBlank(u, tokens[i], v);
  }

  lemma InkOfPair(tokens: seq<Text>, i: nat, level: int, st: Style, width: nat)
    requires i < |tokens| && Take(tokens, i) == 2
    ensures Ink(Piece(tokens, i, level, st, width)) == Ink(tokens[i]) + Ink(tokens[i + 1])
  {
    PairPiece(tokens, i, level, st, width);
    assert [] + tokens[i] + ([SPACE] + Closer(tokens[i])) == tokens[i] + ([SPACE] + Closer(tokens[i]) + []);
    InkOfBoth(tokens[i], [SPACE] + Closer(tokens[i]) + []);
    InkInBlank([SPACE], Closer(tokens[i]), []);
  }

  lemma InkOfWord(tokens: seq<Text>, i: nat, level: int, st: Style, width: nat)
    requires i < |tokens| && !IsMarkToken(tokens[i])
    ensures Ink(Piece(tokens, i, level, st, width)) == Ink(tokens[i])
  {
    WordPiece(tokens, i, level, st, width);
    PadBlank(tokens, st.byteLen, i, width);
    InkOfBoth(tokens[i], Pad(tokens, st.byteLen, i, width));
    InkOfBlank(Pad(tokens, st.byteLen, i, width));
  }

  lemma InkOfPiece(tokens: seq<Text>, i: nat, level: int, st: Style, width: nat)
    requires i < |tokens| && Blank(st.indent)
    ensures i + Take(tokens, i) <= |tokens|
    ensures InkFrom(tokens, i) == Ink(Piece(tokens, i, level, st, width)) + InkFrom(tokens, i + Take(tokens, i))
  {
    if Take(tokens, i) == 2 {
      InkOfPair(tokens, i, level, st, width);
      var rest := InkFrom(tokens, i + 2);
      assert Ink(tokens[i]) + (Ink(tokens[i + 1]) + rest) == Ink(tokens[i]) + Ink(tokens[i + 1]) + rest;
    } else if IsMarkToken(tokens[i]) {
      InkOfMark(tokens, i, level, st, width);
    } else {
      InkOfWord(tokens, i, level, st, width);
    }
  }

  lemma {:induction false} InkOfPrint(tokens: seq<Text>, i: nat, level: int, st: Style, width: nat)
    requires i <= |tokens| && Blank(st.indent) && Print(tokens, i, level, st, width).Some?
    ensures Ink(Print(tokens, i, level, st, width).value) == InkFrom(tokens, i)
    decreases |tokens| - i
  {
    if i < |tokens| {
      var rest := PrintStep(tokens, i, level, st, width);
      InkOfPiece(tokens, i, level, st, width);
      InkOfPrint(tokens, i + Take(tokens, i), Level(tokens, i, level), st, width);
      InkOfBoth(Piece(tokens, i, level, st, width), rest);
    }
  }

  /** Formatting any text changes white space only. */
  lemma FormatKeepsInk(json: Text, st: Style)
    requires Blank(st.indent) && Format(Some(json), st).Text?
    ensures Ink(Format(Some(json), st).text) == Ink(json)
  {
    var tokens := Tokens(json).value;
    InkOfTokens(json);
    InkOfPrint(tokens, 0, 0, st, Width(tokens, st.byteLen, |tokens|));
  }

  // ---- The strings ----

  // The closed strings of a text, quotes (34) included, with backslash (92) escaping; `part` is what has been read of the
  // one that is open.
  function Strings(s: Text, inString: bool, part: Text): seq<Text>
    decreases |s|
  {
    if s == [] then []
    else if s[0] == 92 then
      if |s| == 1 then [] else Strings(s[2..], inString, if inString then part + s[..2] else part)
    else if s[0] == 34 then
      if inString then [part + [34]] + Strings(s[1..], false, []) else Strings(s[1..], true, [34])
    else Strings(s[1..], inString, if inString then part + [s[0]] else part)
  }

  function StringsOf(s: Text): seq<Text> {
    Strings(s, false, [])
  }

  // What has been read of the open string behind the first character or escape.
  function PartNext(s: Text, quoted: bool, part: Text): Text
    requires s != [] && Unit(s) <= |s|
  {
    if quoted then part + s[..Unit(s)] else if s[0] == QUOTE then [QUOTE] else part
  }

  lemma StringsGoOn(s: Text, quoted: bool, part: Text)
    requires GoesOn(s, quoted) && Unit(s) <= |s|
    ensures Strings(s, quoted, part) == Strings(s[Unit(s)..], QuotedNext(s, quoted), PartNext(s, quoted, part))
  {
    assert s[..1] == [s[0]];
  }

  // A token and what stands behind it.
  lemma {:induction false} StringsBehindToken(s: Text, quoted: bool, blank: bool, part: Text, n: nat)
    requires Scan(s, quoted, blank) == Some(n) && (!quoted ==> part == [])
    ensures Strings(s, quoted, part) == Strings(s[..n], quoted, part) + StringsOf(s[n..])
    decreases |s|
  {
    if GoesOn(s, quoted) {
      ScanGoesOn(s, quoted, blank);
      var k := Unit(s);
      FirstOfFirst(s, k, n);
      DropTwice(s, k, n);
      StringsGoOn(s, quoted, part);
      StringsGoOn(s[..n], quoted, part);
      StringsBehindToken(s[k..], QuotedNext(s, quoted), BlankNext(s, blank), PartNext(s, quoted, part), n - k);
    } else {
      StringsBehindLast(s, quoted, blank, part, n);
    }
  }

  lemma StringsBehindLast(s: Text, quoted: bool, blank: bool, part: Text, n: nat)
    requires Scan(s, quoted, blank) == Some(n) && (!quoted ==> part == []) && !GoesOn(s, quoted)
    ensures Strings(s, quoted, part) == Strings(s[..n], quoted, part) + StringsOf(s[n..])
  {
    if s != [] {
      assert s[..1] == [s[0]] && s[..1][1..] == [];
      assert n == 0 ==> s[n..] == s;
    }
  }

  lemma {:induction false} NoStringsInBlank(w: Text, inString: bool, part: Text)
    requires Blank(w)
    ensures Strings(w, inString, part) == []
    decreases |w|
  {
    if w != [] {
      NoStringsInBlank(w[1..], inString, if inString then part + [w[0]] else part);
    }
  }

  lemma {:induction false} StringsThenBlank(t: Text, w: Text, inString: bool, part: Text)
    requires Blank(w)
    ensures Strings(t + w, inString, part) == Strings(t, inString, part)
    decreases |t|
  {
    if t == [] {
      assert t + w == w;
      NoStringsInBlank(w, inString, part);
    } else if t[0] == BACKSLASH {
      if |t| == 1 {
        if w != [] {
          assert (t + w)[2..] == w[1..];
          NoStringsInBlank(w[1..], inString, if inString then part + (t + w)[..2] else part);
        }
      } else {
        assert (t + w)[2..] == t[2..] + w && (t + w)[..2] == t[..2];
        StringsThenBlank(t[2..], w, inString, if inString then part + t[..2] else part);
      }
    } else {
      assert (t + w)[1..] == t[1..] + w;
      if t[0] == QUOTE {
        StringsThenBlank(t[1..], w, !inString, if inString then [] else [QUOTE]);
      } else {
        StringsThenBlank(t[1..], w, inString, if inString then part + [t[0]] else part);
      }
    }
  }

  lemma {:induction false} BlankThenStrings(u: Text, s: Text)
    requires Blank(u)
    ensures StringsOf(u + s) == StringsOf(s)
    decreases |u|
  {
    if u == [] {
      assert u + s == s;
    } else {
      assert (u + s)[1..] == u[1..] + s;
      BlankThenStrings(u[1..], s);
    }
  }

  lemma StringsOfTrimmed(s: Text)
    ensures StringsOf(Trim(s)) == StringsOf(s)
  {
    var u, w := TrimParts(s);
    assert s == u + (Trim(s) + w);
    BlankThenStrings(u, Trim(s) + w);
    StringsThenBlank(Trim(s), w, false, []);
  }

  // The strings of the tokens, in order.
  function StringsIn(tokens: seq<Text>): seq<Text> {
    if tokens == [] then [] else StringsOf(tokens[0]) + StringsIn(tokens[1..])
  }

  lemma {:induction false} StringsOfTokens(json: Text)
    requires Tokens(json).Some?
    ensures StringsIn(Tokens(json).value) == StringsOf(json)
    decreases |json|
  {
    if json != [] {
      var n := Scan(json, false, true).value;
      var tokens, rest := Tokens(json).value, Tokens(json[n..]).value;
      assert tokens == [Trim(json[..n])] + rest && tokens[1..] == rest;
      StringsBehindToken(json, false, true, [], n);
      StringsOfTrimmed(json[..n]);
      StringsOfTokens(json[n..]);
    }
  }

  lemma {:induction false} StringsOfEmptyToken(tokens: seq<Text>)
    ensures StringsIn(tokens + NO_TOKEN) == StringsIn(tokens)
    decreases |tokens|
  {
    if tokens == [] {
      assert tokens + NO_TOKEN == NO_TOKEN && NO_TOKEN[1..] == [];
    } else {
      assert (tokens + NO_TOKEN)[1..] == tokens[1..] + NO_TOKEN;
      StringsOfEmptyToken(tokens[1..]);
    }
  }

  /** Formatting that keeps the tokens keeps every string as it is, white space and escapes in it included. */
  lemma FormatKeepsStrings(json: Text, st: Style)
    requires Blank(st.indent) && Format(Some(json), st).Text? && SafeFrom(Tokens(json).value, 0)
    ensures StringsOf(Format(Some(json), st).text) == StringsOf(json)
  {
    var out := Format(Some(json), st).text;
    FormatKeepsTokens(json, st);
    StringsOfTokens(json);
    StringsOfTokens(out);
    StringsOfEmptyToken(Tokens(json).value);
    StringsOfEmptyToken(Tokens(out).value);
  }
}
