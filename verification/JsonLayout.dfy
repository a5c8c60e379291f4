/** What the printed text looks like: brackets aligned by depth, keys padded to one width. */
module JsonLayout {
  import opened Chars
  import opened JsonSpec
  import opened JsonTokens
  import opened Octets
  import opened Options

  // ---- Depth ----

  function Delta(token: Text): int {
    if IsOpener(token) then 1 else if IsCloser(token) then -1 else 0
  }

  // Openers minus closers among the first n tokens.
  function Depth(tokens: seq<Text>, n: nat): int
    requires n <= |tokens|
  {
    if n == 0 then 0 else Depth(tokens, n - 1) + Delta(tokens[n - 1])
  }

  lemma LevelIsDepth(tokens: seq<Text>, i: nat)
    requires i < |tokens|
    ensures i + Take(tokens, i) <= |tokens|
    ensures Level(tokens, i, Depth(tokens, i)) == Depth(tokens, i + Take(tokens, i))
  {
  }

  // A properly bracketed list, by its grammar.
  ghost predicate Balanced(tokens: seq<Text>)
    decreases |tokens|
  {
    || tokens == []
    || (Delta(tokens[0]) == 0 && Balanced(tokens[1..]))
    || (IsOpener(tokens[0]) &&
          exists j :: 0 < j < |tokens| && tokens[j] == Closer(tokens[0]) && Balanced(tokens[1..j]) && Balanced(tokens[j + 1..]))
  }

  lemma {:induction false} DepthOfPart(tokens: seq<Text>, i: nat, n: nat)
    requires i <= n <= |tokens|
    ensures Depth(tokens, n) == Depth(tokens, i) + Depth(tokens[i..], n - i)
    decreases n
  {
    if n > i {
      DepthOfPart(tokens, i, n - 1);
    }
  }

  lemma {:induction false} DepthOfFront(tokens: seq<Text>, n: nat, m: nat)
    requires n <= m <= |tokens|
    ensures Depth(tokens[..m], n) == Depth(tokens, n)
    decreases n
  {
    if n > 0 {
      DepthOfFront(tokens, n - 1, m);
    }
  }

  // Depth inside a part of the list, counted from where the part starts.
  lemma DepthWithin(tokens: seq<Text>, i: nat, j: nat, n: nat)
    requires i <= n <= j <= |tokens|
    ensures Depth(tokens, n) == Depth(tokens, i) + Depth(tokens[i..j], n - i)
  {
    assert tokens[i..j] == tokens[i..][..j - i];
    DepthOfPart(tokens, i, n);
    DepthOfFront(tokens[i..], n - i, j - i);
  }

  lemma DepthOfPair(tokens: seq<Text>, j: nat, n: nat)
    requires 0 < j < |tokens| && IsOpener(tokens[0]) && IsCloser(tokens[j]) && 0 < n <= |tokens|
    ensures n <= j ==> Depth(tokens, n) == 1 + Depth(tokens[1..j], n - 1)
    ensures n > j ==> Depth(tokens, n) == Depth(tokens[1..j], j - 1) + Depth(tokens[j + 1..], n - j - 1)
  {
    assert Depth(tokens, 1) == Delta(tokens[0]);
    DepthWithin(tokens, 1, j, if n <= j then n else j);
    if n > j {
      assert Depth(tokens, j + 1) == Depth(tokens, j) - 1;
      DepthOfPart(tokens, j + 1, n);
    }
  }

  // Brackets never close below where the list starts, and all are closed at its end.
  lemma {:induction false} BalancedDepth(tokens: seq<Text>, n: nat)
    requires Balanced(tokens) && n <= |tokens|
    ensures Depth(tokens, n) >= 0 && (n == |tokens| ==> Depth(tokens, n) == 0)
    decreases |tokens|
  {
    if n == 0 {
    } else if Delta(tokens[0]) == 0 {
      assert Depth(tokens, 1) == 0;
      DepthOfPart(tokens, 1, n);
      BalancedDepth(tokens[1..], n - 1);
    } else {
      var j :| 0 < j < |tokens| && tokens[j] == Closer(tokens[0]) && Balanced(tokens[1..j]) && Balanced(tokens[j + 1..]);
      DepthOfPair(tokens, j, n);
      BalancedDepth(tokens[1..j], if n <= j then n - 1 else j - 1);
      if n > j {
        BalancedDepth(tokens[j + 1..], n - j - 1);
      }
    }
  }

  lemma DeeperWithin(tokens: seq<Text>, i: nat, j: nat, k: nat)
    requires i < k <= j < |tokens| && IsOpener(tokens[i]) && Balanced(tokens[i + 1..j])
    ensures Depth(tokens, k) > Depth(tokens, i) && (k == j ==> Depth(tokens, k) == Depth(tokens, i) + 1)
  {
    DepthWithin(tokens, i + 1, j, k);
    BalancedDepth(tokens[i + 1..j], k - i - 1);
  }

  // A bracketed list does not end in an opener.
  lemma LastOfBalanced(tokens: seq<Text>)
    requires Balanced(tokens) && tokens != []
    ensures !IsOpener(tokens[|tokens| - 1])
  {
    BalancedDepth(tokens, |tokens|);
    BalancedDepth(tokens, |tokens| - 1);
  }

  // ---- The text is its pieces, each at its depth ----

  // What is printed from token i on, at the depths of the tokens: one piece a token, one for an empty pair.
  function Pieces(tokens: seq<Text>, i: nat, st: Style, width: nat): seq<Text>
    requires i <= |tokens|
    decreases |tokens| - i
  {
    if i == |tokens| then []
    else [Piece(tokens, i, Depth(tokens, i), st, width)] + Pieces(tokens, i + Take(tokens, i), st, width)
  }

  lemma {:induction false} PrintIsPieces(tokens: seq<Text>, i: nat, st: Style, width: nat)
    requires i <= |tokens|
    ensures var r := Print(tokens, i, Depth(tokens, i), st, width);
            r.Some? ==> r.value == Join(Pieces(tokens, i, st, width))
    decreases |tokens| - i
  {
    if i < |tokens| && Print(tokens, i, Depth(tokens, i), st, width).Some? {
      LevelIsDepth(tokens, i);
      PrintIsPieces(tokens, i + Take(tokens, i), st, width);
      var piece, rest := Piece(tokens, i, Depth(tokens, i), st, width), Pieces(tokens, i + Take(tokens, i), st, width);
      assert ([piece] + rest)[1..] == rest;
    }
  }

  // The text printed for a list, and that it could be.
  ghost predicate Prints(tokens: seq<Text>, st: Style, text: Text) {
    PrintAll(tokens, st) == Some(text)
  }

  /** The printer's one counter is, at every token it prints, the number of brackets open there. */
  lemma LaidOutByDepth(tokens: seq<Text>, st: Style, text: Text)
    requires Prints(tokens, st, text)
    ensures text == Join(Pieces(tokens, 0, st, Width(tokens, st.byteLen, |tokens|)))
  {
    PrintIsPieces(tokens, 0, st, Width(tokens, st.byteLen, |tokens|));
  }

  /** So what formatJson gives is the pieces of the text's tokens, in order and each at its depth. */
  lemma FormatIsLaidOut(json: Text, st: Style)
    requires Format(Some(json), st).Text?
    ensures var tokens, text := Tokens(json).value, Format(Some(json), st).text;
            && Prints(tokens, st, text)
            && text == Join(Pieces(tokens, 0, st, Width(tokens, st.byteLen, |tokens|)))
  {
    LaidOutByDepth(Tokens(json).value, st, Format(Some(json), st).text);
  }

  // ---- What each piece looks like, character by character ----

  // A line feed (10), and the indent over and over, `level` times; just the line feed below level 1.
  predicate Indented(fill: Text, level: int, indent: Text) {
    && fill != [] && fill[0] == 10 && |fill| == 1 + Max(level, 0) * |indent|
    && (indent != [] ==> forall k :: 1 <= k < |fill| ==> fill[k] == indent[(k - 1) % |indent|])
  }

  predicate Blanks(s: Text, n: int) {
    |s| == n && forall k :: 0 <= k < |s| ==> s[k] == 32
  }

  lemma TimesOneMore(n: nat, m: nat)
    requires n > 0
    ensures n * m == (n - 1) * m + m
  {
  }

  lemma AtLeastOnce(n: int, m: nat)
    requires n > 0
    ensures n * m >= m
  {
    assert (n - 1) * m >= 0;
    assert n * m == (n - 1) * m + m;
  }

  lemma Distribute(n: int, q: int, m: int)
    ensures (n - q) * m == n * m - q * m
  {
  }

  lemma LastRound(n: nat, m: nat, k: nat)
    requires k < m
    ensures (n * m + k) % m == k
  {
    var x := n * m + k;
    var q := x / m;
    assert x == q * m + x % m;
    Distribute(n, q, m);
    Distribute(q, n, m);
    if n > q {
      AtLeastOnce(n - q, m);
    } else if q > n {
      AtLeastOnce(q - n, m);
    }
  }

  lemma {:induction false} RepeatOverAndOver(s: Text, n: nat)
    ensures |Repeat(s, n)| == n * |s|
    ensures s != [] ==> forall k :: 0 <= k < |Repeat(s, n)| ==> Repeat(s, n)[k] == s[k % |s|]
    decreases n
  {
    if n > 0 {
      RepeatOverAndOver(s, n - 1);
      TimesOneMore(n, |s|);
      var front := Repeat(s, n - 1);
      if s != [] {
        forall k | |front| <= k < |front + s| ensures (front + s)[k] == s[k % |s|] {
          LastRound(n - 1, |s|, k - |front|);
        }
      }
    }
  }

  lemma FillIndents(level: int, indent: Text)
    ensures Indented(Fill(level, indent), level, indent)
  {
    RepeatOverAndOver(indent, Max(level, 0));
    assert Repeat(indent, level) == Repeat(indent, Max(level, 0));
  }

  lemma RepeatIsBlanks(n: nat)
    ensures Blanks(Repeat([SPACE], n), n)
  {
    RepeatOverAndOver([SPACE], n);
  }

  // What is printed for token j at a depth, up to the next piece; in code units, `,` is 44, `:` 58, braces are 123 and 125,
  // brackets 91 and 93.
  ghost predicate Laid(tokens: seq<Text>, j: nat, depth: int, st: Style, width: nat, piece: Text)
    requires j < |tokens|
  {
    var token := tokens[j];
    var laid :=
      if token == [44] then exists fill :: piece == [44] + fill && Indented(fill, depth, st.indent)
      else if token == [58] then piece == [32, 58, 32]
      else if token == [123] && j + 1 < |tokens| && tokens[j + 1] == [125] then piece == [123, 32, 125]
      else if token == [91] && j + 1 < |tokens| && tokens[j + 1] == [93] then piece == [91, 32, 93]
      else if token == [123] || token == [91] then
        exists fill :: piece == token + fill && Indented(fill, depth + 1, st.indent)
      else if token == [125] || token == [93] then
        exists fill :: piece == fill + token && Indented(fill, depth - 1, st.indent)
      else
        exists pad :: piece == token + pad && Blanks(pad, if BeforeColon(tokens, j) then Max(width - st.byteLen(token), 0) else 0);
    laid
  }

  lemma PieceIsLaid(tokens: seq<Text>, j: nat, depth: int, st: Style, width: nat)
    requires j < |tokens|
    ensures Laid(tokens, j, depth, st, width, Piece(tokens, j, depth, st, width))
  {
    FillIndents(depth, st.indent);
    FillIndents(depth + 1, st.indent);
    FillIndents(depth - 1, st.indent);
    var pad := Max(width - st.byteLen(tokens[j]), 0);
    RepeatIsBlanks(pad);
    assert Repeat([SPACE], width - st.byteLen(tokens[j])) == Repeat([SPACE], pad);
  }

  // Token j is printed by itself: it does not close the empty pair that was printed for the token before it.
  predicate Printed(tokens: seq<Text>, j: nat) {
    j < |tokens| && (j > 0 ==> Take(tokens, j - 1) == 1)
  }

  // What is printed for the tokens from i up to j.
  function Between(tokens: seq<Text>, i: nat, j: nat, st: Style, width: nat): Text
    requires i <= |tokens|
    decreases |tokens| - i
  {
    if i >= j || i == |tokens| then []
    else Piece(tokens, i, Depth(tokens, i), st, width) + Between(tokens, i + Take(tokens, i), j, st, width)
  }

  // The pieces from token i on, cut in front of token j.
  lemma {:induction false} CutAt(tokens: seq<Text>, i: nat, j: nat, st: Style, width: nat) returns (a: Text)
    requires i <= j && (i < |tokens| ==> Printed(tokens, i)) && (j == |tokens| || Printed(tokens, j))
    ensures a == Between(tokens, i, j, st, width)
    ensures Join(Pieces(tokens, i, st, width)) == a + Join(Pieces(tokens, j, st, width))
    decreases j - i
  {
    if i == j {
      a := [];
    } else {
      var next := i + Take(tokens, i);
      a := CutAt(tokens, next, j, st, width);
      var piece, rest := Piece(tokens, i, Depth(tokens, i), st, width), Pieces(tokens, next, st, width);
      assert ([piece] + rest)[1..] == rest;
      assert piece + (a + Join(Pieces(tokens, j, st, width))) == piece + a + Join(Pieces(tokens, j, st, width));
      a := piece + a;
    }
  }

  // Token j's piece, and the rest of the text behind it.
  lemma PieceAt(tokens: seq<Text>, j: nat, st: Style, width: nat)
    requires Printed(tokens, j)
    ensures j + Take(tokens, j) <= |tokens|
    ensures Join(Pieces(tokens, j, st, width))
         == Piece(tokens, j, Depth(tokens, j), st, width) + Join(Pieces(tokens, j + Take(tokens, j), st, width))
  {
    var piece, rest := Piece(tokens, j, Depth(tokens, j), st, width), Pieces(tokens, j + Take(tokens, j), st, width);
    assert ([piece] + rest)[1..] == rest;
  }

  /** Every token printed by itself has its piece in the text, laid out at its depth. */
  lemma PrintedAtDepth(tokens: seq<Text>, st: Style, text: Text, j: nat) returns (a: Text, b: Text)
    requires Prints(tokens, st, text) && Printed(tokens, j)
    ensures var width := Width(tokens, st.byteLen, |tokens|);
            var piece := Piece(tokens, j, Depth(tokens, j), st, width);
            text == a + piece + b && Laid(tokens, j, Depth(tokens, j), st, width, piece)
  {
    var width := Width(tokens, st.byteLen, |tokens|);
    PieceIsLaid(tokens, j, Depth(tokens, j), st, width);
    LaidOutByDepth(tokens, st, text);
    a := CutAt(tokens, 0, j, st, width);
    PieceAt(tokens, j, st, width);
    b := Join(Pieces(tokens, j + Take(tokens, j), st, width));
  }

  /** Properly bracketed tokens are printed at levels that are never negative, and the level behind the last is 0. */
  lemma LevelsNeverNegative(tokens: seq<Text>, st: Style, text: Text)
    requires Prints(tokens, st, text) && Balanced(tokens)
    ensures forall j :: 0 <= j < |tokens| && Printed(tokens, j) ==>
              Depth(tokens, j) >= 0 && Has(text, Piece(tokens, j, Depth(tokens, j), st, Width(tokens, st.byteLen, |tokens|)))
    ensures Depth(tokens, |tokens|) == 0
  {
    forall j | 0 <= j < |tokens| && Printed(tokens, j)
      ensures Depth(tokens, j) >= 0 && Has(text, Piece(tokens, j, Depth(tokens, j), st, Width(tokens, st.byteLen, |tokens|)))
    {
      BalancedDepth(tokens, j);
      var a, b := PrintedAtDepth(tokens, st, text, j);
    }
    BalancedDepth(tokens, |tokens|);
  }

  ghost predicate Has(text: Text, part: Text) {
    exists a: Text, b: Text :: text == a + part + b
  }

  // A bracket pair with something in it: both brackets are printed by themselves, and how.
  lemma PairPieces(tokens: seq<Text>, i: nat, j: nat, st: Style, width: nat)
    requires i + 1 < j < |tokens| && IsOpener(tokens[i]) && tokens[j] == Closer(tokens[i]) && Balanced(tokens[i + 1..j])
    ensures Printed(tokens, i) && Printed(tokens, i + 1) && Printed(tokens, j) && Take(tokens, i) == Take(tokens, j) == 1
    ensures Piece(tokens, i, Depth(tokens, i), st, width) == tokens[i] + Fill(Depth(tokens, i) + 1, st.indent)
    ensures Piece(tokens, j, Depth(tokens, j), st, width) == Fill(Depth(tokens, i), st.indent) + tokens[j]
  {
    var inner := tokens[i + 1..j];
    BalancedDepth(inner, 1);
    assert Depth(inner, 1) == Delta(inner[0]) == Delta(tokens[i + 1]);
    LastOfBalanced(inner);
    assert inner[|inner| - 1] == tokens[j - 1];
    DeeperWithin(tokens, i, j, j);
  }

  /** A bracket pair with something in it: behind the opener the text goes on one level deeper, the closer stands on a line of
      its own at the level of the opener, and everything printed between them is deeper. */
  lemma CloserAtOpenersLevel(tokens: seq<Text>, st: Style, text: Text, i: nat, j: nat)
    returns (a: Text, inner: Text, b: Text, outer: Text, c: Text)
    requires Prints(tokens, st, text)
    requires i + 1 < j < |tokens| && IsOpener(tokens[i]) && tokens[j] == Closer(tokens[i]) && Balanced(tokens[i + 1..j])
    ensures text == a + (tokens[i] + inner) + b + (outer + tokens[j]) + c
    ensures Indented(inner, Depth(tokens, i) + 1, st.indent) && Indented(outer, Depth(tokens, i), st.indent)
    ensures forall k :: i < k <= j ==> Depth(tokens, k) > Depth(tokens, i)
    ensures b == Between(tokens, i + 1, j, st, Width(tokens, st.byteLen, |tokens|))
  {
    forall k | i < k <= j ensures Depth(tokens, k) > Depth(tokens, i) {
      DeeperWithin(tokens, i, j, k);
    }
    LaidOutByDepth(tokens, st, text);
    PairPieces(tokens, i, j, st, Width(tokens, st.byteLen, |tokens|));
    a, b, c := CutPair(tokens, i, j, st, Width(tokens, st.byteLen, |tokens|));
    inner, outer := Fill(Depth(tokens, i) + 1, st.indent), Fill(Depth(tokens, i), st.indent);
    FillIndents(Depth(tokens, i) + 1, st.indent);
    FillIndents(Depth(tokens, i), st.indent);
  }

  lemma CutPair(tokens: seq<Text>, i: nat, j: nat, st: Style, width: nat) returns (a: Text, b: Text, c: Text)
    requires i + 1 < j && Printed(tokens, i) && Printed(tokens, i + 1) && Printed(tokens, j) && Take(tokens, i) == Take(tokens, j) == 1
    ensures Join(Pieces(tokens, 0, st, width))
         == a + Piece(tokens, i, Depth(tokens, i), st, width) + b + Piece(tokens, j, Depth(tokens, j), st, width) + c
    ensures b == Between(tokens, i + 1, j, st, width)
  {
    a := CutAt(tokens, 0, i, st, width);
    b := CutAt(tokens, i + 1, j, st, width);
    c := Join(Pieces(tokens, j + 1, st, width));
    PieceAt(tokens, i, st, width);
    PieceAt(tokens, j, st, width);
    Regrouped(a, Piece(tokens, i, Depth(tokens, i), st, width), b, Piece(tokens, j, Depth(tokens, j), st, width), c);
  }

  lemma Regrouped(a: Text, opener: Text, b: Text, closer: Text, c: Text)
    ensures a + (opener + (b + (closer + c))) == a + opener + b + closer + c
  {
  }

  // ---- Keys ----

  lemma {:induction false} WidthIsGreatest(tokens: seq<Text>, byteLen: Text -> nat, n: nat)
    requires n <= |tokens|
    ensures forall i :: 0 <= i < n && BeforeColon(tokens, i) ==> byteLen(tokens[i]) <= Width(tokens, byteLen, n)
    ensures Width(tokens, byteLen, n) > 0 ==>
              exists i :: 0 <= i < n && BeforeColon(tokens, i) && byteLen(tokens[i]) == Width(tokens, byteLen, n)
    decreases n
  {
    if n > 0 {
      WidthIsGreatest(tokens, byteLen, n - 1);
    }
  }

  function Padded(word: Text, st: Style, width: nat): Text {
    word + Repeat([SPACE], width - st.byteLen(word))
  }

  const AROUND_COLON: Text := [SPACE, COLON, SPACE]

  lemma KeyPieces(tokens: seq<Text>, i: nat, st: Style, width: nat)
    requires BeforeColon(tokens, i) && !IsMarkToken(tokens[i])
    ensures Printed(tokens, i) && Printed(tokens, i + 1) && Take(tokens, i) == Take(tokens, i + 1) == 1
    ensures Piece(tokens, i, Depth(tokens, i), st, width) == Padded(tokens[i], st, width)
    ensures Piece(tokens, i + 1, Depth(tokens, i + 1), st, width) == AROUND_COLON
  {
  }

  lemma CutKey(tokens: seq<Text>, st: Style, i: nat, width: nat) returns (a: Text, b: Text)
    requires BeforeColon(tokens, i) && !IsMarkToken(tokens[i])
    ensures Join(Pieces(tokens, 0, st, width)) == a + (Padded(tokens[i], st, width) + AROUND_COLON) + b
  {
    KeyPieces(tokens, i, st, width);
    a := CutAt(tokens, 0, i, st, width);
    PieceAt(tokens, i, st, width);
    PieceAt(tokens, i + 1, st, width);
    b := Join(Pieces(tokens, i + 2, st, width));
    PairUp(a, Padded(tokens[i], st, width), AROUND_COLON, b);
  }

  lemma PadAndBlank(word: Text, st: Style, width: nat) returns (pad: Text)
    requires st.byteLen(word) <= width
    ensures Padded(word, st, width) + AROUND_COLON == word + pad + [COLON, SPACE]
    ensures Blanks(pad, width - st.byteLen(word) + 1)
  {
    var blanks := Repeat([SPACE], width - st.byteLen(word));
    RepeatIsBlanks(width - st.byteLen(word));
    pad := blanks + [SPACE];
    assert word + blanks + AROUND_COLON == word + pad + [COLON, SPACE];
  }

  /** Between a word and the colon behind it stand as many blanks as bring it to one more than the greatest width, so all
      colons line up. */
  lemma KeysLineUp(tokens: seq<Text>, st: Style, text: Text, i: nat) returns (a: Text, pad: Text, b: Text)
    requires Prints(tokens, st, text) && BeforeColon(tokens, i) && !IsMarkToken(tokens[i])
    ensures text == a + (tokens[i] + pad + [COLON, SPACE]) + b
    ensures Blanks(pad, |pad|) && st.byteLen(tokens[i]) + |pad| == Width(tokens, st.byteLen, |tokens|) + 1
  {
    var width := Width(tokens, st.byteLen, |tokens|);
    WidthIsGreatest(tokens, st.byteLen, |tokens|);
    LaidOutByDepth(tokens, st, text);
    a, b := CutKey(tokens, st, i, width);
    pad := PadAndBlank(tokens[i], st, width);
  }

  lemma PairUp(a: Text, word: Text, colon: Text, b: Text)
    ensures a + (word + (colon + b)) == a + (word + colon) + b
  {
  }

  /** Only words are padded: a bracket in front of a colon is printed as anywhere else. */
  lemma BracketsAreNotPadded(tokens: seq<Text>, i: nat, st: Style, width: nat)
    requires BeforeColon(tokens, i) && IsCloser(tokens[i])
    ensures var piece := Piece(tokens, i, Depth(tokens, i), st, width);
            piece[|piece| - 1..] == tokens[i] && Indented(piece[..|piece| - 1], Depth(tokens, i) - 1, st.indent)
  {
    var fill := Fill(Depth(tokens, i) - 1, st.indent);
    FillIndents(Depth(tokens, i) - 1, st.indent);
    assert Piece(tokens, i, Depth(tokens, i), st, width) == fill + tokens[i];
    assert (fill + tokens[i])[..|fill|] == fill;
  }
}
