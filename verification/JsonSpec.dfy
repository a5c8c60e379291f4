/** The JSON tokenizer and printer, as functions of the text. */
module JsonSpec {
  import opened Chars
  import opened Options

  const NEWLINE: Char := 10
  const SPACE: Char := 32
  const QUOTE: Char := 34
  const COMMA: Char := 44
  const COLON: Char := 58
  const LBRACKET: Char := 91
  const BACKSLASH: Char := 92
  const RBRACKET: Char := 93
  const LBRACE: Char := 123
  const RBRACE: Char := 125

  predicate IsMark(c: Char) {
    c == COLON || c == LBRACE || c == RBRACE || c == LBRACKET || c == RBRACKET || c == COMMA
  }

  predicate Blank(s: Text) {
    forall i :: 0 <= i < |s| ==> s[i] <= SPACE
  }

  function TrimLeft(s: Text): Text {
    if s != [] && s[0] <= SPACE then TrimLeft(s[1..]) else s
  }

  function TrimRight(s: Text): Text {
    if s != [] && s[|s| - 1] <= SPACE then TrimRight(s[..|s| - 1]) else s
  }

  function Trim(s: Text): Text {
    TrimRight(TrimLeft(s))
  }

  // How much of `s` the token being read still takes; None when a backslash is the last character.
  // `blank` says whether the token so far is only white space.
  function Scan(s: Text, quoted: bool, blank: bool): (r: Option<nat>)
    ensures r.Some? ==> r.value <= |s|
    ensures r.Some? && s != [] && (blank || quoted || !IsMark(s[0])) ==> r.value > 0
    decreases |s|
  {
    if s == [] then Some(0)
    else if !quoted && IsMark(s[0]) then Some(if blank then 1 else 0)
    else if s[0] == BACKSLASH then
      if |s| == 1 then None else More(2, Scan(s[2..], quoted, false))
    else if s[0] == QUOTE then
      if quoted then Some(1) else More(1, Scan(s[1..], true, false))
    else More(1, Scan(s[1..], quoted, blank && s[0] <= SPACE))
  }

  function More(n: nat, r: Option<nat>): Option<nat> {
    match r
    case None => None
    case Some(m) => Some(n + m)
  }

  // The token list; None if reading it throws.
  function Tokens(json: Text): Option<seq<Text>>
    decreases |json|
  {
    if json == [] then Some([])
    else
      match Scan(json, false, true)
      case None => None
      case Some(n) => Prepend(Trim(json[..n]), Tokens(json[n..]))
  }

  function Prepend(token: Text, rest: Option<seq<Text>>): Option<seq<Text>> {
    match rest
    case None => None
    case Some(tokens) => Some([token] + tokens)
  }

  // ---- The printer ----

  predicate IsOpener(token: Text) {
    token == [LBRACE] || token == [LBRACKET]
  }

  predicate IsCloser(token: Text) {
    token == [RBRACE] || token == [RBRACKET]
  }

  predicate IsMarkToken(token: Text) {
    |token| == 1 && IsMark(token[0])
  }

  // The closer that empties what the opener opens.
  function Closer(token: Text): Text {
    if token == [LBRACE] then [RBRACE] else [RBRACKET]
  }

  predicate BeforeColon(tokens: seq<Text>, i: nat) {
    i + 1 < |tokens| && tokens[i + 1] == [COLON]
  }

  // The widest token before a colon, among the first n; `byteLen` is getBytes().length.
  function Width(tokens: seq<Text>, byteLen: Text -> nat, n: nat): nat
    requires n <= |tokens|
  {
    if n == 0 then 0
    else
      var w := Width(tokens, byteLen, n - 1);
      if BeforeColon(tokens, n - 1) && byteLen(tokens[n - 1]) > w then byteLen(tokens[n - 1]) else w
  }

  function Repeat(s: Text, n: int): Text
    decreases n
  {
    if n <= 0 then [] else Repeat(s, n - 1) + s
  }

  function Fill(level: int, indent: Text): Text {
    [NEWLINE] + Repeat(indent, level)
  }

  function Pad(tokens: seq<Text>, byteLen: Text -> nat, i: nat, width: nat): Text
    requires i < |tokens|
  {
    if BeforeColon(tokens, i) then Repeat([SPACE], width - byteLen(tokens[i])) else []
  }

  datatype Style = Style(indent: Text, byteLen: Text -> nat)

  // How many tokens are printed at i: two when a pair of brackets is empty.
  function Take(tokens: seq<Text>, i: nat): nat
    requires i < |tokens|
  {
    if IsOpener(tokens[i]) && i + 1 < |tokens| && tokens[i + 1] == Closer(tokens[i]) then 2 else 1
  }

  // The indent level behind token i.
  function Level(tokens: seq<Text>, i: nat, level: int): int
    requires i < |tokens|
  {
    if Take(tokens, i) == 2 then level
    else if IsOpener(tokens[i]) then level + 1
    else if IsCloser(tokens[i]) then level - 1
    else level
  }

  // What is printed for token i.
  function Piece(tokens: seq<Text>, i: nat, level: int, st: Style, width: nat): Text
    requires i < |tokens|
  {
    var token := tokens[i];
    if token == [COMMA] then token + Fill(level, st.indent)
    else if token == [COLON] then [SPACE] + token + [SPACE]
    else if Take(tokens, i) == 2 then token + [SPACE] + Closer(token)
    else if IsOpener(token) then token + Fill(level + 1, st.indent)
    else if IsCloser(token) then Fill(level - 1, st.indent) + token
    else token + Pad(tokens, st.byteLen, i, width)
  }

  // The printer's loop from token i on; None when an opener is the last token.
  function Print(tokens: seq<Text>, i: nat, level: int, st: Style, width: nat): Option<Text>
    requires i <= |tokens|
    decreases |tokens| - i
  {
    if i == |tokens| then Some([])
    else if IsOpener(tokens[i]) && i + 1 == |tokens| then None
    else
      match Print(tokens, i + Take(tokens, i), Level(tokens, i, level), st, width)
      case None => None
      case Some(rest) => Some(Piece(tokens, i, level, st, width) + rest)
  }

  datatype Formatted = Null | Throws | Text(text: Text)

  function PrintAll(tokens: seq<Text>, st: Style): Option<Text> {
    Print(tokens, 0, 0, st, Width(tokens, st.byteLen, |tokens|))
  }

  function Format(json: Option<Text>, st: Style): Formatted {
    if json.None? || Trim(json.value) == [] then Null
    else
      match Tokens(json.value)
      case None => Throws
      case Some(tokens) =>
        match PrintAll(tokens, st)
        case None => Throws
        case Some(text) => Text(text)
  }
}
