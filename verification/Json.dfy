/** getToken, doFill and formatJson, as the loops they are. */
module Json {
  import opened Chars
  import opened JsonFormat
  import opened JsonLayout
  import opened JsonRoundTrip
  import opened JsonSpec
  import opened JsonTokens
  import opened Octets
  import opened Options

  // `buf` has been read of the text and `rest` is left.
  ghost predicate Reading(json: Text, buf: Text, rest: Text, quoted: bool) {
    buf + rest == json && Scan(json, false, true) == More(|buf|, Scan(rest, quoted, Blank(buf)))
  }

  lemma BlankSnoc(buf: Text, c: Char)
    ensures Blank(buf + [c]) <==> Blank(buf) && c <= SPACE
  {
    assert (buf + [c])[|buf|] == c;
    assert forall i :: 0 <= i < |buf| ==> (buf + [c])[i] == buf[i];
  }

  lemma ReadOne(json: Text, buf: Text, c: Char, rest: Text, quoted: bool)
    requires Reading(json, buf, [c] + rest, quoted)
    requires c != BACKSLASH && !(c == QUOTE && quoted) && (quoted || !IsMark(c))
    ensures Reading(json, buf + [c], rest, quoted || c == QUOTE)
  {
    assert buf + [c] + rest == buf + ([c] + rest);
    ScanOne(c, rest, quoted, Blank(buf));
    BlankSnoc(buf, c);
    MoreMore(|buf|, 1, Scan(rest, quoted || c == QUOTE, Blank(buf + [c])));
  }

  lemma ReadEscape(json: Text, buf: Text, c: Char, rest: Text, quoted: bool)
    requires Reading(json, buf, [BACKSLASH, c] + rest, quoted)
    ensures Reading(json, buf + [BACKSLASH, c], rest, quoted)
  {
    assert buf + [BACKSLASH, c] + rest == buf + ([BACKSLASH, c] + rest);
    ScanEscape(c, rest, quoted, Blank(buf));
    assert !Blank(buf + [BACKSLASH, c]) by {
      assert (buf + [BACKSLASH, c])[|buf|] == BACKSLASH;
    }
    MoreMore(|buf|, 2, Scan(rest, quoted, false));
  }

  // The token ends where reading stands.
  lemma Ends(json: Text, buf: Text, rest: Text, quoted: bool, more: nat)
    requires Reading(json, buf, rest, quoted) && Scan(rest, quoted, Blank(buf)) == Some(more)
    ensures Scan(json, false, true) == Some(|buf| + more) && json[..|buf| + more] == buf + rest[..more]
  {
  }

  method GetToken(json: Text) returns (token: Option<Text>)
    ensures token == match Scan(json, false, true)
                     case None => None
                     case Some(n) => Some(json[..n])
  {
    var buf: Text, rest: Text, isInYinHao := [], json, false;
    while rest != []
      invariant Reading(json, buf, rest, isInYinHao)
      decreases |rest|
    {
      var c: Char, tail: Text := rest[0], rest[1..];
      assert rest == [c] + tail && rest[..1] == [c] && rest[..0] == [];
      if !isInYinHao && IsMark(c) {
        BlankTrims(buf);
        Ends(json, buf, rest, isInYinHao, if Blank(buf) then 1 else 0);
        assert buf + [] == buf;
        if Trim(buf) == [] {
          buf := buf + [c];
        }
        return Some(buf);
      }
      if c == BACKSLASH {
        if tail == [] {
          return None;
        }
        assert rest == [BACKSLASH, tail[0]] + tail[1..];
        ReadEscape(json, buf, tail[0], tail[1..], isInYinHao);
        buf, rest := buf + [c, tail[0]], tail[1..];
      } else if c == QUOTE && isInYinHao {
        Ends(json, buf, rest, isInYinHao, 1);
        return Some(buf + [c]);
      } else {
        ReadOne(json, buf, c, tail, isInYinHao);
        isInYinHao := isInYinHao || c == QUOTE;
        buf, rest := buf + [c], tail;
      }
    }
    Ends(json, buf, [], isInYinHao, 0);
    assert buf + [] == buf;
    return Some(buf);
  }

  function Follow(read: seq<Text>, rest: Option<seq<Text>>): Option<seq<Text>> {
    match rest
    case None => None
    case Some(tokens) => Some(read + tokens)
  }

  lemma FollowOne(read: seq<Text>, token: Text, rest: Option<seq<Text>>)
    ensures Follow(read, Prepend(token, rest)) == Follow(read + [token], rest)
  {
    if rest.Some? {
      assert read + ([token] + rest.value) == read + [token] + rest.value;
    }
  }

  /** The reading loop of formatJson. */
  method ReadTokens(json: Text) returns (tokens: Option<seq<Text>>)
    ensures tokens == Tokens(json)
  {
    var tokenList: seq<Text>, jsonTemp: Text := [], json;
    FollowNone(Tokens(json));
    while |jsonTemp| > 0
      invariant Tokens(json) == Follow(tokenList, Tokens(jsonTemp))
      decreases |jsonTemp|
    {
      var token := GetToken(jsonTemp);
      if token.None? {
        return None;
      }
      FollowOne(tokenList, Trim(token.value), Tokens(jsonTemp[|token.value|..]));
      jsonTemp := jsonTemp[|token.value|..];
      tokenList := tokenList + [Trim(token.value)];
    }
    assert tokenList + [] == tokenList;
    return Some(tokenList);
  }

  lemma FollowNone(rest: Option<seq<Text>>)
    ensures Follow([], rest) == rest
  {
    if rest.Some? {
      assert [] + rest.value == rest.value;
    }
  }

  method FixedLength(tokenList: seq<Text>, byteLen: Text -> nat) returns (fixedLength: nat)
    ensures fixedLength == Width(tokenList, byteLen, |tokenList|)
    ensures forall i :: 0 <= i < |tokenList| && BeforeColon(tokenList, i) ==> byteLen(tokenList[i]) <= fixedLength
  {
    fixedLength := 0;
    for i := 0 to |tokenList|
      invariant fixedLength == Width(tokenList, byteLen, i)
    {
      var length := byteLen(tokenList[i]);
      if length > fixedLength && i < |tokenList| - 1 && tokenList[i + 1] == [COLON] {
        fixedLength := length;
      }
    }
    WidthIsGreatest(tokenList, byteLen, |tokenList|);
  }

  /** doFill, behind a token appended first. */
  method DoFill(buf: Text, token: Text, indentLevel: int, indentStr: Text) returns (r: Text)
    ensures r == buf + (token + Fill(indentLevel, indentStr))
  {
    r := buf + token + [NEWLINE];
    ghost var base := r;
    var i := 0;
    while i < indentLevel
      invariant 0 <= i <= Max(indentLevel, 0)
      invariant r == base + Repeat(indentStr, i)
    {
      r := r + indentStr;
      i := i + 1;
    }
    assert Repeat(indentStr, indentLevel) == Repeat(indentStr, i);
    assert base + Repeat(indentStr, i) == buf + (token + Fill(indentLevel, indentStr));
  }

  /** One turn of the printing loop: what is added to the text, the next index and the next level. */
  method PrintToken(buf: Text, tokenList: seq<Text>, i: nat, indentLevel: int, st: Style, fixedLength: nat)
    returns (buf': Text, i': nat, level': int)
    requires i < |tokenList| && !(IsOpener(tokenList[i]) && i + 1 == |tokenList|)
    ensures buf' == buf + Piece(tokenList, i, indentLevel, st, fixedLength)
    ensures i' == i + Take(tokenList, i) && level' == Level(tokenList, i, indentLevel)
  {
    var token := tokenList[i];
    buf', i', level' := buf, i + 1, indentLevel;
    if token == [COMMA] {
      buf' := DoFill(buf, token, indentLevel, st.indent);
    } else if token == [COLON] {
      buf' := buf + ([SPACE] + token + [SPACE]);
    } else if token == [LBRACE] || token == [LBRACKET] {
      if tokenList[i + 1] == Closer(token) {
        i' := i + 2;
        buf' := buf + (token + [SPACE] + Closer(token));
      } else {
        level' := indentLevel + 1;
        buf' := DoFill(buf, token, level', st.indent);
      }
    } else if token == [RBRACE] || token == [RBRACKET] {
      level' := indentLevel - 1;
      buf' := DoFill(buf, [], level', st.indent);
      Regroup(buf, [], Fill(level', st.indent), token);
      assert [] + Fill(level', st.indent) == Fill(level', st.indent) && buf + [] == buf;
      buf' := buf' + token;
    } else {
      buf' := AddWord(buf, tokenList, i, st, fixedLength);
    }
  }

  method AddWord(buf: Text, tokenList: seq<Text>, i: nat, st: Style, fixedLength: nat) returns (buf': Text)
    requires i < |tokenList|
    ensures buf' == buf + (tokenList[i] + Pad(tokenList, st.byteLen, i, fixedLength))
  {
    buf' := buf + tokenList[i];
    ghost var base := buf';
    if i < |tokenList| - 1 && tokenList[i + 1] == [COLON] {
      var fillLength := fixedLength - st.byteLen(tokenList[i]);
      var j := 0;
      while j < fillLength
        invariant 0 <= j <= Max(fillLength, 0)
        invariant buf' == base + Repeat([SPACE], j)
      {
        buf' := buf' + [SPACE];
        j := j + 1;
      }
      assert Repeat([SPACE], fillLength) == Repeat([SPACE], j);
    }
    assert base + Pad(tokenList, st.byteLen, i, fixedLength) == buf + (tokenList[i] + Pad(tokenList, st.byteLen, i, fixedLength));
  }

  method FormatJson(json: Option<Text>, st: Style) returns (r: Formatted)
    ensures r == Format(json, st)
  {
    if json.None? || |Trim(json.value)| == 0 {
      return Null;
    }
    var read := ReadTokens(json.value);
    if read.None? {
      return Throws;
    }
    var tokenList := read.value;
    var fixedLength := FixedLength(tokenList, st.byteLen);
    var buf: Text, indentLevel, i := [], 0, 0;
    BehindNothing(PrintAll(tokenList, st));
    while i < |tokenList|
      invariant 0 <= i <= |tokenList|
      invariant PrintAll(tokenList, st) == Behind(buf, Print(tokenList, i, indentLevel, st, fixedLength))
      decreases |tokenList| - i
    {
      if IsOpener(tokenList[i]) && i + 1 == |tokenList| {
        return Throws;
      }
      BehindPiece(buf, tokenList, i, indentLevel, st, fixedLength);
      buf, i, indentLevel := PrintToken(buf, tokenList, i, indentLevel, st, fixedLength);
    }
    assert buf + [] == buf;
    return Text(buf);
  }

  function Behind(buf: Text, rest: Option<Text>): Option<Text> {
    match rest
    case None => None
    case Some(text) => Some(buf + text)
  }

  lemma BehindNothing(rest: Option<Text>)
    ensures Behind([], rest) == rest
  {
    if rest.Some? {
      assert [] + rest.value == rest.value;
    }
  }

  lemma BehindPiece(buf: Text, tokens: seq<Text>, i: nat, level: int, st: Style, width: nat)
    requires i < |tokens| && !(IsOpener(tokens[i]) && i + 1 == |tokens|)
    ensures Behind(buf, Print(tokens, i, level, st, width))
         == Behind(buf + Piece(tokens, i, level, st, width),
                   Print(tokens, i + Take(tokens, i), Level(tokens, i, level), st, width))
  {
    var piece, rest := Piece(tokens, i, level, st, width), Print(tokens, i + Take(tokens, i), Level(tokens, i, level), st, width);
    if rest.Some? {
      assert buf + (piece + rest.value) == buf + piece + rest.value;
    }
  }
}
