/** Formatting keeps the token list: reading the printed text gives the tokens it was printed from. */
module JsonRoundTrip {
  import opened Chars
  import opened JsonSpec
  import opened JsonTokens
  import opened Options

  // ---- Token lists equal up to an empty token at the end ----

  predicate EndsOpen(tokens: seq<Text>) {
    tokens != [] && IsOpener(tokens[|tokens| - 1])
  }

  // The empty token may come and go, except behind an opener, which must not be last.
  predicate Equivalent(a: seq<Text>, b: seq<Text>) {
    || a == b
    || (a == b + [[]] && !EndsOpen(b))
    || (b == a + [[]] && !EndsOpen(a))
  }

  predicate Same(a: Option<seq<Text>>, b: seq<Text>) {
    a.Some? && Equivalent(a.value, b)
  }

  lemma EquivalentTail(t: Text, a: seq<Text>, b: seq<Text>)
    requires IsOpener(t) ==> a != [] && b != []
    ensures Equivalent([t] + a, [t] + b) <==> Equivalent(a, b)
  {
    var x, y := [t] + a, [t] + b;
    assert x[1..] == a && y[1..] == b;
    assert (y + [[]])[1..] == b + [[]] && (x + [[]])[1..] == a + [[]];
    assert y + [[]] == [t] + (b + [[]]) && x + [[]] == [t] + (a + [[]]);
    assert a == [] ==> x[|x| - 1] == t;
    assert b == [] ==> y[|y| - 1] == t;
  }

  // ---- Reading printed tokens back ----

  lemma ReadMark(w: Text, c: Char, r: Text)
    requires Blank(w) && IsMark(c)
    ensures Tokens(w + [c] + r) == Prepend([c], Tokens(r))
  {
    var s := w + [c] + r;
    assert s == w + ([c] + r);
    WalkBlank(w, false);
    ScanThrough(w, [c] + r, false, true, false);
    assert s[..|w| + 1] == w + [c] + [] && s[|w| + 1..] == r;
    TrimOf(w, [c], []);
  }

  lemma ReadClosed(w: Text, t: Text, r: Text)
    requires Blank(w) && Trimmed(t) && Walk(t, false) == Closed
    ensures Tokens(w + t + r) == Prepend(t, Tokens(r))
  {
    var s := w + t + r;
    WalkLeft(w, t, false);
    ScanClosed(w + t, r, false, true);
    assert s[..|w + t|] == w + t + [] && s[|w + t|..] == r;
    TrimOf(w, t, []);
  }

  // A token that runs up to a mark, over white space `u` that belongs to neither.
  lemma ReadOpen(w: Text, t: Text, u: Text, c: Char, v: Text)
    requires Blank(w) && Blank(u) && IsMark(c) && Trimmed(t) && t != []
    requires Walk(t + u, false) == Plain
    ensures Tokens(w + t + (u + [c] + v)) == Prepend(t, Tokens(u + [c] + v))
  {
    var raw, r := w + t + u, [c] + v;
    var s := w + t + (u + [c] + v);
    assert s == raw + r && raw == w + (t + u);
    WalkLeft(w, t + u, false);
    assert !Blank(raw) by {
      assert raw[|w|] == t[0];
    }
    ScanThrough(raw, r, false, true, false);
    assert Scan(r, false, false) == Some(0);
    assert s[..|raw|] == raw && s[|raw|..] == r;
    TrimOf(w, t, u);
    ReadMark(u, c, v);
    ReadMark([], c, v);
    assert r == [] + [c] + v;
  }

  lemma ReadLast(w: Text, t: Text)
    requires Blank(w) && Trimmed(t) && t != []
    requires Walk(t, false) == Plain || Walk(t, false) == Quoted
    ensures Tokens(w + t) == Some([t])
  {
    var s := w + t;
    WalkLeft(w, t, false);
    assert !Blank(s) by {
      assert s[|w|] == t[0];
    }
    ScanThrough(s, [], false, true, Walk(t, false) == Quoted);
    assert s + [] == s && s[..|s|] == w + t + [] && s[|s|..] == [];
    TrimOf(w, t, []);
    assert [t] + [] == [t];
  }

  lemma ReadBlank(w: Text)
    requires Blank(w)
    ensures Tokens(w) == Some(if w == [] then [] else [[]])
  {
    if w != [] {
      WalkBlank(w, false);
      ScanThrough(w, [], false, true, false);
      assert w + [] == w && w[..|w|] == w + [] + [] && w[|w|..] == [];
      TrimOf(w, [], []);
      var none: Text := [];
      assert [none] + [] == [none];
    }
  }

  // A dangling backslash in front of anything but white space changes the token, or makes reading throw.
  lemma ReadBroken(w: Text, t: Text, r: Text, tokens: seq<Text>)
    requires Blank(w) && Trimmed(t) && Walk(t, false).Dangling? && (r != [] ==> r[0] > SPACE)
    ensures !Same(Tokens(w + t + r), [t] + tokens)
  {
    var s := w + t + r;
    ScanBroken(w, t, r);
    if Tokens(s).Some? {
      var n := Scan(s, false, true).value;
      var u, z := TrimParts(s[..n]);
      BrokenTrim(w, t, r, s[..n], u, Trim(s[..n]), z);
      FirstsDiffer(Trim(s[..n]), Tokens(s[n..]).value, t, tokens);
    }
  }

  lemma ScanBroken(w: Text, t: Text, r: Text)
    requires Blank(w) && Walk(t, false).Dangling?
    ensures var n := Scan(w + t + r, false, true); n == None || (n.value > |w| + |t| && r != [])
    ensures t != [] && w + t + r != []
  {
    assert w + t + r == w + (t + r);
    WalkBlank(w, false);
    ScanThrough(w, t + r, false, true, false);
    ScanDangling(t, r, false, true);
  }

  lemma FirstsDiffer(x: Text, a: seq<Text>, t: Text, b: seq<Text>)
    requires |x| > |t| > 0
    ensures !Equivalent([x] + a, [t] + b)
  {
    assert ([x] + a)[0] == x && ([t] + b)[0] == t;
    assert ([x] + a + [[]])[0] == x && ([t] + b + [[]])[0] == t;
  }

  lemma BrokenTrim(w: Text, t: Text, r: Text, raw: Text, u: Text, x: Text, z: Text)
    requires Blank(w) && t != [] && t[0] > SPACE && r != [] && r[0] > SPACE
    requires |raw| > |w| + |t| && |raw| <= |w + t + r| && raw == (w + t + r)[..|raw|]
    requires raw == u + x + z && Blank(u) && Blank(z) && Trimmed(x)
    ensures |x| > |t|
  {
    assert forall k :: 0 <= k < |u| ==> raw[k] == u[k];
    assert forall k :: |u| + |x| <= k < |raw| ==> raw[k] == z[k - |u| - |x|];
    assert forall k :: 0 <= k < |w| ==> raw[k] == w[k];
    assert x != [] ==> raw[|u|] == x[0];
    assert raw[|w|] == t[0] && raw[|w| + |t|] == r[0];
  }

  // ---- What the printer puts around a token ----

  lemma {:induction false} RepeatBlank(s: Text, n: int)
    requires Blank(s)
    ensures Blank(Repeat(s, n))
    decreases n
  {
    if n > 0 {
      RepeatBlank(s, n - 1);
    }
  }

  lemma FillBlank(level: int, indent: Text)
    requires Blank(indent)
    ensures Blank(Fill(level, indent)) && Fill(level, indent) != []
  {
    RepeatBlank(indent, level);
  }

  // Printed behind white space, which is enough to complete a dangling escape.
  predicate Repairs(token: Text) {
    token == [COLON] || IsCloser(token)
  }

  lemma MarkPiece(tokens: seq<Text>, i: nat, level: int, st: Style, width: nat) returns (u: Text, v: Text)
    requires i < |tokens| && IsMarkToken(tokens[i]) && Take(tokens, i) == 1 && Blank(st.indent)
    ensures Piece(tokens, i, level, st, width) == u + tokens[i] + v && Blank(u) && Blank(v)
    ensures (u != [] <==> Repairs(tokens[i])) && (IsOpener(tokens[i]) ==> v != [])
  {
    var t := tokens[i];
    FillBlank(level, st.indent);
    FillBlank(level + 1, st.indent);
    FillBlank(level - 1, st.indent);
    u, v := [], [];
    if t == [COMMA] {
      v := Fill(level, st.indent);
    } else if t == [COLON] {
      u, v := [SPACE], [SPACE];
    } else if IsOpener(t) {
      v := Fill(level + 1, st.indent);
    } else {
      u := Fill(level - 1, st.indent);
    }
    assert [] + t == t && t + [] == t && u + t + [] == u + t;
  }

  lemma PrintStep(tokens: seq<Text>, i: nat, level: int, st: Style, width: nat) returns (rest: Text)
    requires i < |tokens| && Print(tokens, i, level, st, width).Some?
    ensures Print(tokens, i + Take(tokens, i), Level(tokens, i, level), st, width) == Some(rest)
    ensures Print(tokens, i, level, st, width).value == Piece(tokens, i, level, st, width) + rest
    ensures IsOpener(tokens[i]) ==> i + 1 < |tokens|
  {
    rest := Print(tokens, i + Take(tokens, i), Level(tokens, i, level), st, width).value;
  }

  // What is printed from a mark on begins with it, behind white space exactly if it repairs.
  lemma MarkFirst(tokens: seq<Text>, i: nat, level: int, st: Style, width: nat) returns (u: Text, v: Text)
    requires i < |tokens| && IsMarkToken(tokens[i]) && Blank(st.indent) && Print(tokens, i, level, st, width).Some?
    ensures Print(tokens, i, level, st, width).value == u + tokens[i] + v && Blank(u) && (u != [] <==> Repairs(tokens[i]))
  {
    var rest := PrintStep(tokens, i, level, st, width);
    var z;
    if Take(tokens, i) == 2 {
      u, z := [], [SPACE] + Closer(tokens[i]);
      PairPiece(tokens, i, level, st, width);
    } else {
      u, z := MarkPiece(tokens, i, level, st, width);
    }
    v := z + rest;
    Regroup(u, tokens[i], z, rest);
  }

  lemma PairPiece(tokens: seq<Text>, i: nat, level: int, st: Style, width: nat)
    requires i < |tokens| && Take(tokens, i) == 2
    ensures Piece(tokens, i, level, st, width) == [] + tokens[i] + ([SPACE] + Closer(tokens[i]))
  {
  }

  lemma WordPiece(tokens: seq<Text>, i: nat, level: int, st: Style, width: nat)
    requires i < |tokens| && !IsMarkToken(tokens[i])
    ensures Piece(tokens, i, level, st, width) == tokens[i] + Pad(tokens, st.byteLen, i, width)
  {
  }

  lemma Regroup(a: Text, b: Text, c: Text, d: Text)
    ensures a + b + c + d == a + b + (c + d) && a + (b + c + d) == a + b + (c + d)
  {
  }

  // ---- The theorem ----

  predicate SafeToken(tokens: seq<Text>, i: nat)
    requires i < |tokens|
  {
    Walk(tokens[i], false).Dangling? ==> i + 1 < |tokens| && Repairs(tokens[i + 1])
  }

  // No token is left ending in a lone backslash, unless a colon or a closer comes next.
  predicate SafeFrom(tokens: seq<Text>, i: nat) {
    forall k :: i <= k < |tokens| ==> SafeToken(tokens, k)
  }

  lemma Combine(t: Text, x: Option<seq<Text>>, tokens: seq<Text>, i: nat)
    requires i < |tokens| && tokens[i] == t
    requires IsOpener(t) && x.Some? ==> x.value != [] && i + 1 < |tokens|
    ensures Same(Prepend(t, x), tokens[i..]) <==> Same(x, tokens[i + 1..])
  {
    assert tokens[i..] == [t] + tokens[i + 1..];
    if x.Some? {
      EquivalentTail(t, x.value, tokens[i + 1..]);
    }
  }

  // A word with a mark behind it: `u` is the white space between, not empty exactly if the mark repairs.
  lemma OpenWordReads(tokens: seq<Text>, i: nat, w: Text, u: Text, v: Text)
    requires i + 1 < |tokens| && GoodToken(tokens, i) && tokens[i] != [] && !IsMarkToken(tokens[i])
    requires Walk(tokens[i], false) != Closed && Blank(w) && Blank(u)
    requires Walk(tokens[i], false).Dangling? ==> (u != [] <==> Repairs(tokens[i + 1]))
    ensures var rest := u + tokens[i + 1] + v;
            if SafeToken(tokens, i) then Tokens(w + tokens[i] + rest) == Prepend(tokens[i], Tokens(rest))
            else !Same(Tokens(w + tokens[i] + rest), tokens[i..])
  {
    var t, c := tokens[i], tokens[i + 1][0];
    assert tokens[i + 1] == [c];
    if SafeToken(tokens, i) {
      WalkRight(t, u, false);
      ReadOpen(w, t, u, c, v);
    } else {
      assert (u + [c] + v)[0] == c;
      assert tokens[i..] == [t] + tokens[i + 1..];
      ReadBroken(w, t, u + [c] + v, tokens[i + 1..]);
    }
  }

  lemma LastWordReads(t: Text, w: Text)
    requires GoodToken([t], 0) && t != [] && !IsMarkToken(t) && Blank(w)
    ensures if Walk(t, false).Dangling? then !Same(Tokens(w + t + []), [t]) else Tokens(w + t + []) == Prepend(t, Tokens([]))
  {
    assert w + t + [] == w + t && [t] + [] == [t];
    match Walk(t, false) {
      case Closed => ReadClosed(w, t, []);
      case Dangling(_) => ReadBroken(w, t, [], []);
      case _ => ReadLast(w, t);
    }
  }

  lemma PadBlank(tokens: seq<Text>, byteLen: Text -> nat, i: nat, width: nat)
    requires i < |tokens|
    ensures Blank(Pad(tokens, byteLen, i, width))
  {
    if BeforeColon(tokens, i) {
      RepeatBlank([SPACE], width - byteLen(tokens[i]));
    }
  }

  // A word, with what is printed behind it.
  lemma WordReads(tokens: seq<Text>, i: nat, level: int, st: Style, width: nat, w: Text, rest: Text)
    requires i < |tokens| && GoodToken(tokens, i) && tokens[i] != [] && !IsMarkToken(tokens[i])
    requires Blank(st.indent) && Blank(w) && Print(tokens, i + 1, level, st, width) == Some(rest)
    ensures var pad := Pad(tokens, st.byteLen, i, width);
            if SafeToken(tokens, i) then Tokens(w + tokens[i] + (pad + rest)) == Prepend(tokens[i], Tokens(pad + rest))
            else !Same(Tokens(w + tokens[i] + (pad + rest)), tokens[i..])
  {
    var t, pad := tokens[i], Pad(tokens, st.byteLen, i, width);
    if i + 1 == |tokens| {
      assert pad + rest == [] && tokens[i..] == [t];
      assert GoodToken([t], 0);
      LastWordReads(t, w);
    } else if Walk(t, false) == Closed {
      ReadClosed(w, t, pad + rest);
    } else {
      PadBlank(tokens, st.byteLen, i, width);
      var u, v := MarkFirst(tokens, i + 1, level, st, width);
      assert pad + rest == (pad + u) + tokens[i + 1] + v;
      OpenWordReads(tokens, i, w, pad + u, v);
    }
  }

  lemma MarkReads(tokens: seq<Text>, i: nat, level: int, st: Style, width: nat, w: Text, rest: Text) returns (v: Text)
    requires i < |tokens| && IsMarkToken(tokens[i]) && Take(tokens, i) == 1 && Blank(st.indent) && Blank(w)
    ensures Blank(v) && (IsOpener(tokens[i]) ==> v != [])
    ensures Tokens(w + (Piece(tokens, i, level, st, width) + rest)) == Prepend(tokens[i], Tokens(v + rest))
  {
    var u;
    u, v := MarkPiece(tokens, i, level, st, width);
    var c := tokens[i][0];
    assert tokens[i] == [c] && w + (u + [c] + v + rest) == (w + u) + [c] + (v + rest);
    ReadMark(w + u, c, v + rest);
  }

  lemma PairReads(tokens: seq<Text>, i: nat, level: int, st: Style, width: nat, w: Text, rest: Text)
    requires i < |tokens| && Take(tokens, i) == 2 && Blank(w)
    ensures Tokens(w + (Piece(tokens, i, level, st, width) + rest))
         == Prepend(tokens[i], Prepend(tokens[i + 1], Tokens(rest)))
  {
    var c, d := tokens[i][0], tokens[i + 1][0];
    assert w + ([c] + [SPACE] + [d] + rest) == w + [c] + ([SPACE] + [d] + rest);
    ReadMark(w, c, [SPACE] + [d] + rest);
    ReadMark([SPACE], d, rest);
  }

  lemma TokensNotEmpty(s: Text)
    requires s != [] && Tokens(s).Some?
    ensures Tokens(s).value != []
  {
  }

  // `out`, behind any white space w, reads as the tokens from i on exactly if they are safe.
  ghost predicate Reads(tokens: seq<Text>, i: nat, w: Text, out: Text)
    requires i <= |tokens|
  {
    Same(Tokens(w + out), tokens[i..]) <==> SafeFrom(tokens, i)
  }

  lemma SafeSplit(tokens: seq<Text>, i: nat)
    requires i < |tokens|
    ensures SafeFrom(tokens, i) <==> SafeToken(tokens, i) && SafeFrom(tokens, i + 1)
  {
  }

  lemma PairCase(tokens: seq<Text>, i: nat, level: int, st: Style, width: nat, w: Text, rest: Text)
    requires i < |tokens| && Take(tokens, i) == 2 && Blank(w) && Reads(tokens, i + 2, [], rest)
    ensures Reads(tokens, i, w, Piece(tokens, i, level, st, width) + rest)
  {
    PairReads(tokens, i, level, st, width, w, rest);
    assert [] + rest == rest;
    Combine(tokens[i + 1], Tokens(rest), tokens, i + 1);
    Combine(tokens[i], Prepend(tokens[i + 1], Tokens(rest)), tokens, i);
    assert SafeToken(tokens, i) && SafeToken(tokens, i + 1);
  }

  lemma MarkCase(tokens: seq<Text>, i: nat, w: Text, v: Text, out: Text, rest: Text)
    requires i < |tokens| && IsMarkToken(tokens[i]) && Reads(tokens, i + 1, v, rest)
    requires IsOpener(tokens[i]) ==> v != [] && i + 1 < |tokens|
    requires Tokens(w + out) == Prepend(tokens[i], Tokens(v + rest))
    ensures Reads(tokens, i, w, out)
  {
    if Tokens(v + rest).Some? && IsOpener(tokens[i]) {
      TokensNotEmpty(v + rest);
    }
    Combine(tokens[i], Tokens(v + rest), tokens, i);
    assert SafeToken(tokens, i);
  }

  lemma WordCase(tokens: seq<Text>, i: nat, level: int, st: Style, width: nat, w: Text, rest: Text)
    requires i < |tokens| && GoodTokens(tokens) && tokens[i] != [] && !IsMarkToken(tokens[i])
    requires Blank(st.indent) && Blank(w) && Print(tokens, i + 1, level, st, width) == Some(rest)
    requires Reads(tokens, i + 1, Pad(tokens, st.byteLen, i, width), rest)
    ensures Reads(tokens, i, w, Piece(tokens, i, level, st, width) + rest)
  {
    var t, pad := tokens[i], Pad(tokens, st.byteLen, i, width);
    WordPiece(tokens, i, level, st, width);
    Regroup(w, t, pad, rest);
    WordReads(tokens, i, level, st, width, w, rest);
    Combine(t, Tokens(pad + rest), tokens, i);
    SafeSplit(tokens, i);
  }

  lemma EmptyCase(tokens: seq<Text>, i: nat, level: int, st: Style, width: nat, w: Text, rest: Text)
    requires i < |tokens| && GoodTokens(tokens) && tokens[i] == [] && Blank(w)
    requires Print(tokens, i + 1, Level(tokens, i, level), st, width) == Some(rest)
    ensures Reads(tokens, i, w, Piece(tokens, i, level, st, width) + rest)
  {
    WordPiece(tokens, i, level, st, width);
    assert GoodToken(tokens, i);
    assert w + [] == w && tokens[i..] == [[]];
    ReadBlank(w);
    assert SafeToken(tokens, i);
  }

  // From token i on, behind any white space w.
  lemma {:induction false} PrintReads(tokens: seq<Text>, i: nat, level: int, st: Style, width: nat, w: Text)
    requires i <= |tokens| && GoodTokens(tokens) && Blank(st.indent) && Blank(w)
    requires Print(tokens, i, level, st, width).Some?
    ensures Reads(tokens, i, w, Print(tokens, i, level, st, width).value)
    decreases |tokens| - i
  {
    if i == |tokens| {
      assert w + [] == w && tokens[i..] == [];
      ReadBlank(w);
      return;
    }
    var level' := Level(tokens, i, level);
    var rest := PrintStep(tokens, i, level, st, width);
    if tokens[i] == [] {
      EmptyCase(tokens, i, level, st, width, w, rest);
    } else if Take(tokens, i) == 2 {
      PrintReads(tokens, i + 2, level', st, width, []);
      PairCase(tokens, i, level, st, width, w, rest);
    } else if IsMarkToken(tokens[i]) {
      var v := MarkReads(tokens, i, level, st, width, w, rest);
      PrintReads(tokens, i + 1, level', st, width, v);
      MarkCase(tokens, i, w, v, Piece(tokens, i, level, st, width) + rest, rest);
    } else {
      PadBlank(tokens, st.byteLen, i, width);
      PrintReads(tokens, i + 1, level', st, width, Pad(tokens, st.byteLen, i, width));
      WordCase(tokens, i, level, st, width, w, rest);
    }
  }
}
