/** The string functions HTTP parsing uses, on Latin-1 text held as octets. */
module Text {
  import opened Octets

  const CR: Byte := 13
  const LF: Byte := 10
  const SP: Byte := 32
  const COLON: Byte := 58
  const CRLF: Bytes := [13, 10]

  // getBytes() of a constant.
  function Ascii(s: string): (r: Bytes)
    ensures |r| == |s|
  {
    seq(|s|, i requires 0 <= i < |s| => if s[i] < 128 as char then s[i] as int else 63)
  }

  function UpperByte(b: Byte): Byte {
    if 97 <= b <= 122 then b - 32 else b
  }

  // toUpperCase, on the letters the recognised names consist of.
  function Upper(s: Bytes): Bytes {
    seq(|s|, i requires 0 <= i < |s| => UpperByte(s[i]))
  }

  predicate EqualsIgnoreCase(a: Bytes, b: Bytes) {
    Upper(a) == Upper(b)
  }

  // The same octet, or the same letter in the other case.
  predicate SameLetter(a: Byte, b: Byte) {
    a == b || (97 <= a <= 122 && b == a - 32) || (97 <= b <= 122 && a == b - 32)
  }

  lemma IgnoringCase(a: Bytes, b: Bytes)
    ensures EqualsIgnoreCase(a, b) <==> |a| == |b| && forall i :: 0 <= i < |a| ==> SameLetter(a[i], b[i])
  {
    if EqualsIgnoreCase(a, b) {
      assert |Upper(a)| == |Upper(b)|;
      forall i | 0 <= i < |a| ensures SameLetter(a[i], b[i]) {
        assert Upper(a)[i] == Upper(b)[i];
      }
    }
  }

  // ---- split(" ") ----

  function Pieces(s: Bytes, piece: Bytes): (r: seq<Bytes>)
    ensures r != []
    decreases |s|
  {
    if s == [] then [piece]
    else if s[0] == SP then [piece] + Pieces(s[1..], [])
    else Pieces(s[1..], piece + [s[0]])
  }

  // String.split drops the empty strings at the end.
  function DropEmptyTail(pieces: seq<Bytes>): seq<Bytes> {
    if pieces == [] || pieces[|pieces| - 1] != [] then pieces else DropEmptyTail(pieces[..|pieces| - 1])
  }

  function Split(s: Bytes): seq<Bytes> {
    if SP in s then DropEmptyTail(Pieces(s, [])) else [s]
  }

  lemma {:induction false} PiecesOfWord(word: Bytes, s: Bytes, piece: Bytes)
    requires SP !in word
    ensures Pieces(word + s, piece) == Pieces(s, piece + word)
    decreases |word|
  {
    if word == [] {
      assert word + s == s && piece + word == piece;
    } else {
      assert (word + s)[1..] == word[1..] + s;
      PiecesOfWord(word[1..], s, piece + [word[0]]);
      assert piece + [word[0]] + word[1..] == piece + word;
    }
  }

  // Only empty pieces from the i-th on.
  predicate EmptyFrom(pieces: seq<Bytes>, i: nat) {
    forall k :: i <= k < |pieces| ==> pieces[k] == []
  }

  lemma {:induction false} DropEmptyTailLength(pieces: seq<Bytes>, n: nat)
    ensures |DropEmptyTail(pieces)| <= n <==> EmptyFrom(pieces, n)
    ensures DropEmptyTail(pieces) <= pieces
    decreases |pieces|
  {
    if pieces != [] && pieces[|pieces| - 1] == [] {
      var front := pieces[..|pieces| - 1];
      DropEmptyTailLength(front, n);
      assert EmptyFrom(pieces, n) <==> EmptyFrom(front, n) by {
        assert forall k :: 0 <= k < |front| ==> pieces[k] == front[k];
      }
    } else if pieces != [] && n < |pieces| {
      assert pieces[|pieces| - 1] != [];
    }
  }

  predicate OnlySpaces(s: Bytes) {
    forall i :: 0 <= i < |s| ==> s[i] == SP
  }

  lemma {:induction false} EmptyPieces(s: Bytes, piece: Bytes)
    ensures EmptyFrom(Pieces(s, piece), 0) <==> OnlySpaces(s) && piece == []
    decreases |s|
  {
    var pieces := Pieces(s, piece);
    if s == [] {
      assert pieces[0] == piece;
    } else {
      assert OnlySpaces(s) <==> s[0] == SP && OnlySpaces(s[1..]) by {
        assert s == [s[0]] + s[1..];
      }
      if s[0] == SP {
        var rest := Pieces(s[1..], []);
        EmptyPieces(s[1..], []);
        assert pieces == [piece] + rest;
        assert pieces[0] == piece;
        assert EmptyFrom(pieces, 0) <==> piece == [] && EmptyFrom(rest, 0) by {
          assert forall k :: 0 <= k < |rest| ==> pieces[k + 1] == rest[k];
          assert forall k :: 1 <= k < |pieces| ==> pieces[k] == rest[k - 1];
        }
      } else {
        EmptyPieces(s[1..], piece + [s[0]]);
      }
    }
  }

  // Cut at the first space.
  lemma {:induction false} PiecesCut(s: Bytes, piece: Bytes) returns (i: nat)
    requires SP in s
    ensures i < |s| && s[i] == SP && SP !in s[..i] && Pieces(s, piece) == [piece + s[..i]] + Pieces(s[i + 1..], [])
    decreases |s|
  {
    if s[0] == SP {
      i := 0;
      assert piece + s[..0] == piece;
    } else {
      i := PiecesCut(s[1..], piece + [s[0]]);
      assert s[..i + 1] == [s[0]] + s[1..][..i];
      assert piece + [s[0]] + s[1..][..i] == piece + s[..i + 1] && s[1..][i + 1..] == s[i + 2..];
      i := i + 1;
    }
  }

  /** There are two words exactly if something other than spaces follows the first space. */
  lemma SplitIsShort(s: Bytes)
    ensures |Split(s)| < 2 <==> forall i, j :: 0 <= i < j < |s| && s[i] == 32 ==> s[j] == 32
  {
    if SP in s {
      var c := PiecesCut(s, []);
      var pieces, rest := Pieces(s, []), Pieces(s[c + 1..], []);
      DropEmptyTailLength(pieces, 1);
      EmptyPieces(s[c + 1..], []);
      assert EmptyFrom(pieces, 1) <==> EmptyFrom(rest, 0) by {
        assert forall k :: 0 <= k < |rest| ==> pieces[k + 1] == rest[k];
        assert forall k :: 1 <= k < |pieces| ==> pieces[k] == rest[k - 1];
      }
      OnlySpacesBehind(s, c);
    } else {
      assert forall i :: 0 <= i < |s| ==> s[i] in s;
    }
  }

  lemma OnlySpacesBehind(s: Bytes, c: nat)
    requires c < |s| && s[c] == SP && SP !in s[..c]
    ensures OnlySpaces(s[c + 1..]) <==> forall i, j :: 0 <= i < j < |s| && s[i] == 32 ==> s[j] == 32
  {
    assert forall j :: c < j < |s| ==> s[j] == s[c + 1..][j - c - 1];
    assert forall i :: 0 <= i < c ==> s[i] == s[..c][i] && s[i] != SP;
  }

  /** The second word of a line is found whatever follows it, further spaces included; two spaces together have an empty
      word between them. */
  lemma {:induction false} SplitSecondWord(first: Bytes, second: Bytes, more: Bytes)
    requires SP !in first && SP !in second && (more == [] || more[0] == SP) && !OnlySpaces(second + more)
    ensures var ss := Split(first + [SP] + second + more); |ss| >= 2 && ss[1] == second
  {
    var line := first + [SP] + second + more;
    var pieces := Pieces(line, []);
    PiecesOfLine(first, second, more);
    WordsRemain(line, |first|, second + more);
    DropEmptyTailLength(pieces, 1);
  }

  lemma PiecesOfLine(first: Bytes, second: Bytes, more: Bytes)
    requires SP !in first && SP !in second && (more == [] || more[0] == SP)
    ensures var line := first + [SP] + second + more;
            && Pieces(line, []) == [first] + Pieces(more, second) && Pieces(more, second)[0] == second
            && line[|first|] == SP && line[|first| + 1..] == second + more
  {
    var rest := [SP] + (second + more);
    assert first + [SP] + second + more == first + rest && rest[1..] == second + more;
    PiecesOfWord(first, rest, []);
    PiecesOfWord(second, more, []);
    assert [] + second == second && [] + first == first;
  }

  lemma WordsRemain(line: Bytes, i: nat, behind: Bytes)
    requires i < |line| && line[i] == SP && line[i + 1..] == behind && !OnlySpaces(behind)
    ensures |Split(line)| >= 2
  {
    var j :| 0 <= j < |behind| && behind[j] != SP;
    assert line[i + 1 + j] == behind[j];
    SplitIsShort(line);
  }

  // ---- Integer.parseInt(s.trim()), 0 when that throws ----

  function TrimLeft(s: Bytes): Bytes {
    if s != [] && s[0] <= SP then TrimLeft(s[1..]) else s
  }

  function TrimRight(s: Bytes): Bytes {
    if s != [] && s[|s| - 1] <= SP then TrimRight(s[..|s| - 1]) else s
  }

  predicate IsDigit(b: Byte) {
    48 <= b <= 57
  }

  predicate AllDigits(s: Bytes) {
    forall b <- s :: IsDigit(b)
  }

  function DecimalValue(s: Bytes): nat
    requires AllDigits(s)
  {
    if s == [] then 0
    else
      assert s[|s| - 1] in s;
      10 * DecimalValue(s[..|s| - 1]) + (s[|s| - 1] as int - 48)
  }

  function ParseInt(s: Bytes): int {
    var t := TrimRight(TrimLeft(s));
    var signed := t != [] && (t[0] == 43 || t[0] == MINUS);
    var digits := if signed then t[1..] else t;
    if digits == [] || !AllDigits(digits) then 0
    else
      var n: int := if signed && t[0] == MINUS then 0 - DecimalValue(digits) else DecimalValue(digits);
      if -0x8000_0000 <= n < 0x8000_0000 then n else 0
  }

  // "" + n
  function Decimal(n: nat): (r: Bytes)
    ensures r != [] && AllDigits(r)
  {
    if n < 10 then [48 + n] else Decimal(n / 10) + [48 + n % 10]
  }

  lemma {:induction false} DecimalRoundTrip(n: nat)
    ensures DecimalValue(Decimal(n)) == n
  {
    if n >= 10 {
      DecimalRoundTrip(n / 10);
      assert Decimal(n)[..|Decimal(n)| - 1] == Decimal(n / 10);
    }
  }

  lemma ParseIntDecimal(n: nat)
    requires n < 0x8000_0000
    ensures ParseInt(Decimal(n)) == n
  {
    DecimalRoundTrip(n);
    var d := Decimal(n);
    assert IsDigit(d[0]) && IsDigit(d[|d| - 1]);
  }

  const MINUS: Byte := 45

  function PrintedInt(n: int): Bytes {
    if n < 0 then [MINUS] + Decimal(-n) else Decimal(n)
  }

  /** Printing a Java int and parsing it back is the identity. */
  lemma ParsePrintedInt(n: int)
    requires -0x8000_0000 <= n < 0x8000_0000
    ensures ParseInt(PrintedInt(n)) == n
  {
    if n < 0 {
      var d, t := Decimal(-n), PrintedInt(n);
      DecimalRoundTrip(-n);
      assert IsDigit(d[|d| - 1]) && t[|t| - 1] == d[|d| - 1] && t[1..] == d;
    } else {
      ParseIntDecimal(n);
    }
  }

  predicate Blank(s: Bytes) {
    forall i :: 0 <= i < |s| ==> s[i] <= SP
  }

  lemma {:induction false} TrimLeftOf(u: Bytes, s: Bytes)
    requires Blank(u) && (s == [] || s[0] > SP)
    ensures TrimLeft(u + s) == s
    decreases |u|
  {
    if u == [] {
      assert u + s == s;
    } else {
      assert (u + s)[1..] == u[1..] + s;
      TrimLeftOf(u[1..], s);
    }
  }

  lemma {:induction false} TrimRightOf(s: Bytes, w: Bytes)
    requires Blank(w) && (s == [] || s[|s| - 1] > SP)
    ensures TrimRight(s + w) == s
    decreases |w|
  {
    if w == [] {
      assert s + w == s;
    } else {
      assert (s + w)[..|s + w| - 1] == s + w[..|w| - 1];
      TrimRightOf(s, w[..|w| - 1]);
    }
  }

  lemma TrimOf(u: Bytes, t: Bytes, w: Bytes)
    requires Blank(u) && Blank(w) && t != [] && t[0] > SP && t[|t| - 1] > SP
    ensures TrimRight(TrimLeft(u + t + w)) == t
  {
    assert u + t + w == u + (t + w);
    TrimLeftOf(u, t + w);
    TrimRightOf(t, w);
  }

  /** White space around a number and a sign in front are allowed; out of range it counts as 0. */
  lemma ParseIntReads(u: Bytes, sign: Bytes, digits: Bytes, w: Bytes)
    requires Blank(u) && Blank(w) && digits != [] && sign in {[], [43], [45]}
    requires forall b <- digits :: 48 <= b <= 57
    ensures var n := if sign == [45] then 0 - DecimalValue(digits) else DecimalValue(digits);
            ParseInt(u + (sign + digits) + w) == if -0x8000_0000 <= n < 0x8000_0000 then n else 0
  {
    var t := sign + digits;
    assert digits[0] in digits && digits[|digits| - 1] in digits;
    assert t[|t| - 1] == digits[|digits| - 1] && t[0] == if sign == [] then digits[0] else sign[0];
    TrimOf(u, t, w);
    assert t[|sign|..] == digits;
  }

  /** Anything else counts as 0. */
  lemma ParseIntFails(u: Bytes, t: Bytes, w: Bytes)
    requires Blank(u) && Blank(w) && t != [] && t[0] > SP && t[|t| - 1] > SP
    requires t in {[43], [45]} || !(48 <= t[0] <= 57 || t[0] == 43 || t[0] == 45) || exists k :: 0 < k < |t| && !(48 <= t[k] <= 57)
    ensures ParseInt(u + t + w) == 0
  {
    TrimOf(u, t, w);
    var signed := t[0] == 43 || t[0] == 45;
    var digits := if signed then t[1..] else t;
    if k :| 0 < k < |t| && !(48 <= t[k] <= 57) {
      assert digits[if signed then k - 1 else k] in digits;
    } else if !signed {
      assert digits[0] in digits && !IsDigit(digits[0]);
    }
  }

  // ---- indexOf(": ") ----

  predicate ColonAt(s: Bytes, i: nat) {
    i + 1 < |s| && s[i] == COLON && s[i + 1] == SP
  }

  function IndexOfColon(s: Bytes, from: nat): (r: int)
    ensures r == -1 ==> forall i | from <= i :: !ColonAt(s, i)
    ensures r != -1 ==> from <= r && ColonAt(s, r) && forall i | from <= i < r :: !ColonAt(s, i)
    decreases |s| - from
  {
    if from + 1 >= |s| then -1 else if ColonAt(s, from) then from else IndexOfColon(s, from + 1)
  }

  // `: ` does not occur.
  predicate NoColonSpace(s: Bytes) {
    forall i :: 0 <= i && i + 1 < |s| ==> !(s[i] == 58 && s[i + 1] == 32)
  }

  /** The first `: ` is found, and nothing else counts as one. */
  lemma FirstColon(name: Bytes, value: Bytes)
    requires NoColonSpace(name)
    ensures IndexOfColon(name + [COLON, SP] + value, 0) == |name|
  {
    var line := name + [COLON, SP] + value;
    assert ColonAt(line, |name|);
    forall i | 0 <= i < |name| ensures !ColonAt(line, i) {
      assert line[i] == name[i] && line[i + 1] == if i + 1 < |name| then name[i + 1] else COLON;
    }
  }

  lemma NoColon(s: Bytes)
    ensures IndexOfColon(s, 0) == -1 <==> NoColonSpace(s)
  {
    var r := IndexOfColon(s, 0);
    if r >= 0 {
      assert s[r] == 58 && s[r + 1] == 32;
    }
    if !NoColonSpace(s) {
      var i :| 0 <= i && i + 1 < |s| && s[i] == 58 && s[i + 1] == 32;
      assert ColonAt(s, i);
    }
  }

  // ---- Hexadecimal sizes in 32-bit arithmetic ----

  function ToInt32(n: int): int {
    var m := n % 0x1_0000_0000;
    if m < 0x8000_0000 then m else m - 0x1_0000_0000
  }

  lemma WrapsTo32(n: int) returns (k: int)
    ensures n == ToInt32(n) + k * 0x1_0000_0000 && -0x8000_0000 <= ToInt32(n) < 0x8000_0000
  {
    k := n / 0x1_0000_0000 + if n % 0x1_0000_0000 < 0x8000_0000 then 0 else 1;
  }

  // HEX_DIGITS.indexOf(Character.toUpperCase(b))
  function HexDigit(b: Byte): (r: int)
    ensures -1 <= r < 16
  {
    var u := UpperByte(b);
    if 48 <= u <= 57 then u - 48 else if 65 <= u <= 70 then u - 55 else -1
  }

  predicate AllHex(s: Bytes) {
    forall b <- s :: HexDigit(b) >= 0
  }

  function HexValue(s: Bytes): nat
    requires AllHex(s)
  {
    if s == [] then 0 else 16 * HexValue(s[..|s| - 1]) + HexDigit(s[|s| - 1])
  }
}
