/** The UTF-8 coder of Bytes: one code unit at a time, surrogates included. */
module Utf8 {
  import opened Chars
  import opened Octets

  // The shifts and masks are written as divisions and remainders by powers of two.
  function EncodeChar(n: Char): Bytes {
    if n < 0x80 then [n]
    else if n < 0x7FF then [n / 0x40 + 0xC0, n % 0x40 + 0x80]
    else [n / 0x1000 + 0xE0, n / 0x40 % 0x40 + 0x80, n % 0x40 + 0x80]
  }

  function Encode(s: Text): Bytes {
    if s == [] then [] else EncodeChar(s[0]) + Encode(s[1..])
  }

  const REPLACEMENT: Char := 63

  // The payload bits of a two- and of a three-byte form.
  function Two(b0: Byte, b1: Byte): Char {
    var high, low: int := b0 % 0x20, b1 % 0x40;
    high * 0x40 + low
  }

  function Three(b0: Byte, b1: Byte, b2: Byte): Char {
    var high, mid: int, low: int := b0 % 0x10, b1 % 0x40, b2 % 0x40;
    high * 0x1000 + mid * 0x40 + low
  }

  // The char at the head of the bytes, and how many bytes it takes.
  function DecodeChar(b: Bytes): (Char, nat)
    requires b != []
  {
    var n := b[0];
    if n < 0x80 then (n, 1)
    else if n < 0xC0 then (REPLACEMENT, 1)
    else if n < 0xE0 then if |b| > 1 then (Two(n, b[1]), 2) else (REPLACEMENT, 1)
    else if |b| > 2 then (Three(n, b[1], b[2]), 3)
    else (REPLACEMENT, 1)
  }

  function Decode(b: Bytes): (s: Text)
    ensures |s| <= |b|
    decreases |b|
  {
    if b == [] then []
    else
      var (c, n) := DecodeChar(b);
      [c] + Decode(b[n..])
  }

  lemma TwoInverts(n: Char)
    requires n < 0x800
    ensures Two(n / 0x40 + 0xC0, n % 0x40 + 0x80) == n
  {
  }

  lemma ThreeInverts(n: Char)
    ensures Three(n / 0x1000 + 0xE0, n / 0x40 % 0x40 + 0x80, n % 0x40 + 0x80) == n
  {
    assert (n / 0x40) / 0x40 == n / 0x1000;
  }

  lemma DecodeCharInverts(n: Char, rest: Bytes)
    ensures DecodeChar(EncodeChar(n) + rest) == (n, |EncodeChar(n)|)
  {
    var b := EncodeChar(n) + rest;
    assert b[0] == EncodeChar(n)[0];
    if 0x80 <= n < 0x7FF {
      TwoInverts(n);
    } else if n >= 0x7FF {
      ThreeInverts(n);
    }
  }

  /** Every sequence of chars comes back, lone surrogates and U+07FF included. */
  lemma {:induction false} RoundTrip(s: Text)
    ensures Decode(Encode(s)) == s
    decreases |s|
  {
    if s != [] {
      var head, tail := EncodeChar(s[0]), Encode(s[1..]);
      DecodeCharInverts(s[0], tail);
      assert (head + tail)[|head|..] == tail;
      RoundTrip(s[1..]);
    }
  }

  // ---- Bytes that are no encoding ----

  lemma DecodeStep(c: Char, tail: Bytes)
    ensures Decode(EncodeChar(c) + tail) == [c] + Decode(tail)
  {
    var head := EncodeChar(c);
    DecodeCharInverts(c, tail);
    assert (head + tail)[|head|..] == tail;
  }

  lemma Regroup<T>(a: seq<T>, b: seq<T>, c: seq<T>)
    ensures a + b + c == a + (b + c)
  {
  }

  lemma {:induction false} DecodeBehind(s: Text, rest: Bytes)
    ensures Decode(Encode(s) + rest) == s + Decode(rest)
    decreases |s|
  {
    if s == [] {
      assert Encode(s) + rest == rest && s + Decode(rest) == Decode(rest);
    } else {
      Regroup(EncodeChar(s[0]), Encode(s[1..]), rest);
      DecodeStep(s[0], Encode(s[1..]) + rest);
      DecodeBehind(s[1..], rest);
      Regroup([s[0]], s[1..], Decode(rest));
      assert [s[0]] + s[1..] == s;
    }
  }

  /** A byte that only continues a character, where one should start, reads as `?`, and so does each byte of a last character
      that is cut off. */
  lemma StrayAndCutOff(s: Text, stray: Byte, rest: Bytes, n: Char, k: nat)
    requires 0x80 <= stray < 0xC0 && 0 < k < |EncodeChar(n)|
    ensures Decode(Encode(s) + ([stray] + rest)) == s + ([63] + Decode(rest))
    ensures Decode(Encode(s) + EncodeChar(n)[..k]) == s + seq(k, i => 63)
  {
    DecodeBehind(s, [stray] + rest);
    assert ([stray] + rest)[1..] == rest;
    DecodeBehind(s, EncodeChar(n)[..k]);
    CutOff(n, k);
  }

  lemma CutOff(n: Char, k: nat)
    requires 0 < k < |EncodeChar(n)|
    ensures Decode(EncodeChar(n)[..k]) == seq(k, i => 63)
  {
    var cut := EncodeChar(n)[..k];
    assert cut[0] >= 0xC0;
    if k == 2 {
      assert cut == [cut[0], cut[1]] && cut[1..] == [cut[1]] && 0xE0 <= cut[0] && 0x80 <= cut[1] < 0xC0;
      assert [cut[1]][1..] == [];
      assert Decode([cut[1]]) == [63] + Decode([]);
    } else {
      assert cut == [cut[0]] && cut[1..] == [];
    }
    assert Decode([]) == [];
  }

  lemma SixBits(b0: Byte, b1: Byte, c1: Byte, b2: Byte, c2: Byte)
    requires b1 % 0x40 == c1 % 0x40 && b2 % 0x40 == c2 % 0x40
    ensures Two(b0, b1) == Two(b0, c1) && Three(b0, b1, b2) == Three(b0, c1, c2)
    ensures b0 >= 0xF0 ==> Three(b0, b1, b2) == Three(b0 - 0x10, b1, b2)
  {
  }

  /** What continues a character is not looked at but for its low six bits, and four-byte forms are read as three-byte ones. */
  lemma LowBitsOnly(b0: Byte, b1: Byte, c1: Byte, b2: Byte, c2: Byte, rest: Bytes)
    requires b0 >= 0xC0 && b1 % 0x40 == c1 % 0x40 && b2 % 0x40 == c2 % 0x40
    ensures DecodeChar([b0, b1, b2] + rest) == DecodeChar([b0, c1, c2] + rest)
    ensures b0 >= 0xF0 ==> DecodeChar([b0, b1, b2] + rest) == DecodeChar([b0 - 0x10, b1, b2] + rest)
  {
    SixBits(b0, b1, c1, b2, c2);
    var b, c := [b0, b1, b2] + rest, [b0, c1, c2] + rest;
    assert b[0] == c[0] == b0 && b[1] == b1 && c[1] == c1 && b[2] == b2 && c[2] == c2;
  }

  // ---- RFC 3629, section 3, for the characters that one code unit can hold ----

  function RfcChar(n: Char): Bytes {
    if n <= 0x7F then [n]
    else if n <= 0x7FF then [0xC0 + n / 0x40, 0x80 + n % 0x40]
    else [0xE0 + n / 0x1000, 0x80 + n / 0x40 % 0x40, 0x80 + n % 0x40]
  }

  function Rfc(s: Text): Bytes {
    if s == [] then [] else RfcChar(s[0]) + Rfc(s[1..])
  }

  predicate Surrogate(n: Char) {
    0xD800 <= n <= 0xDFFF
  }

  function Count(s: Text, c: Char): nat {
    if s == [] then 0 else (if s[0] == c then 1 else 0) + Count(s[1..], c)
  }

  // U+07FF is written in three bytes where two are due; everything else takes its due length.
  lemma {:induction false} ExtraBytes(s: Text)
    ensures |Encode(s)| == |Rfc(s)| + Count(s, 0x7FF)
    ensures Count(s, 0x7FF) == 0 ==> Encode(s) == Rfc(s)
    ensures Count(s, 0x7FF) == 0 <==> 0x7FF !in s
    decreases |s|
  {
    if s != [] {
      ExtraBytes(s[1..]);
      assert s == [s[0]] + s[1..];
    }
  }

  /** Text without surrogates is written as the standard has it exactly if U+07FF does not occur in it. */
  lemma AgreesWithStandard(s: Text)
    requires forall c <- s :: !Surrogate(c)
    ensures Encode(s) == Rfc(s) <==> 0x7FF !in s
  {
    ExtraBytes(s);
  }

  lemma RfcCharDecodes(n: Char, rest: Bytes)
    ensures DecodeChar(RfcChar(n) + rest) == (n, |RfcChar(n)|)
  {
    if n == 0x7FF {
      assert RfcChar(n) == [0xDF, 0xBF];
    } else {
      DecodeCharInverts(n, rest);
    }
  }

  /** What the standard writes, the decoder reads. */
  lemma {:induction false} DecodesStandard(s: Text)
    ensures Decode(Rfc(s)) == s
    decreases |s|
  {
    if s != [] {
      var head, tail := RfcChar(s[0]), Rfc(s[1..]);
      RfcCharDecodes(s[0], tail);
      assert (head + tail)[|head|..] == tail;
      DecodesStandard(s[1..]);
    }
  }

  // ---- The loops ----

  method EncodeUtf8(c: Text) returns (r: array<Byte>)
    ensures r[..] == Encode(c)
  {
    var b := new Byte[|c| * 3](_ => 0);
    var len := 0;
    for i := 0 to |c|
      invariant 0 <= len <= 3 * i
      invariant b[..len] + Encode(c[i..]) == Encode(c)
    {
      EncodeNext(b[..len], c, i);
      len := PutChar(b, len, c[i]);
    }
    assert b[..len] + Encode([]) == b[..len];
    r := new Byte[len](i requires 0 <= i < len && len <= b.Length reads b => b[i]);
    assert r[..] == b[..len];
  }

  lemma EncodeNext(done: Bytes, c: Text, i: nat)
    requires i < |c|
    ensures done + Encode(c[i..]) == done + EncodeChar(c[i]) + Encode(c[i + 1..])
  {
    assert c[i..][1..] == c[i + 1..];
  }

  method PutChar(b: array<Byte>, len: nat, n: Char) returns (len': nat)
    requires len + 3 <= b.Length
    modifies b
    ensures len' == len + |EncodeChar(n)| && b[..len'] == old(b[..len]) + EncodeChar(n)
  {
    if n < 0x80 {
      b[len] := n;
      len' := len + 1;
    } else if n < 0x7FF {
      b[len] := n / 0x40 + 0xC0;
      b[len + 1] := n % 0x40 + 0x80;
      len' := len + 2;
    } else {
      b[len] := n / 0x1000 + 0xE0;
      b[len + 1] := n / 0x40 % 0x40 + 0x80;
      b[len + 2] := n % 0x40 + 0x80;
      len' := len + 3;
    }
  }

  /** The char at offset i of a range of len bytes, and how many bytes it takes: never past the range. */
  method TakeChar(b: array<Byte>, off: nat, len: nat, i: nat, ghost data: Bytes) returns (c: Char, width: nat)
    requires off + len <= b.Length && i < len && data == b[off..off + len]
    ensures (c, width) == DecodeChar(data[i..]) && i + width <= len
  {
    assert data[i..] == b[off + i..off + len];
    var n := b[off + i];
    c, width := REPLACEMENT, 1;
    if n < 0x80 {
      c := n;
    } else if n < 0xC0 {
    } else if n < 0xE0 {
      if i + 1 < len {
        c, width := Two(n, b[off + i + 1]), 2;
      }
    } else if i + 2 < len {
      c, width := Three(n, b[off + i + 1], b[off + i + 2]), 3;
    }
  }

  /** Any bytes are decoded without leaving the range or the buffer. */
  method DecodeUtf8(b: array<Byte>, off: nat, len: nat) returns (s: Text)
    requires off + len <= b.Length
    ensures s == Decode(b[off..off + len])
  {
    var c := new Char[len](_ => 0);
    var length, i := 0, 0;
    ghost var data := b[off..off + len];
    DecodedNone(c[..0], data);
    while i < len
      invariant 0 <= length <= i <= len && data == b[off..off + len]
      invariant Decoded(c[..length], data, i)
    {
      var width := DecodeOne(b, off, len, i, c, length, data);
      i, length := i + width, length + 1;
    }
    s := c[..length];
    DecodedAll(s, data);
  }

  lemma DecodedAll(s: Text, data: Bytes)
    requires Decoded(s, data, |data|)
    ensures s == Decode(data)
  {
    assert data[|data|..] == [] && s + Decode([]) == s;
  }

  method DecodeOne(b: array<Byte>, off: nat, len: nat, i: nat, c: array<Char>, length: nat, ghost data: Bytes) returns (width: nat)
    requires off + len <= b.Length && i < len && data == b[off..off + len]
    requires length < c.Length && Decoded(c[..length], data, i)
    modifies c
    ensures width > 0 && i + width <= len && Decoded(c[..length + 1], data, i + width)
  {
    var n;
    n, width := TakeChar(b, off, len, i, data);
    DecodeNext(c[..length], n, data, i);
    Append(c, length, n);
  }

  method Append(c: array<Char>, length: nat, n: Char)
    requires length < c.Length
    modifies c
    ensures c[..length + 1] == old(c[..length]) + [n]
  {
    c[length] := n;
  }

  // The chars of data[..i].
  ghost predicate Decoded(done: Text, data: Bytes, i: nat) {
    var decoded := i <= |data| && done + Decode(data[i..]) == Decode(data);
    decoded
  }

  lemma DecodedNone(done: Text, data: Bytes)
    requires done == []
    ensures Decoded(done, data, 0)
  {
    assert data[0..] == data && done + Decode(data) == Decode(data);
  }

  lemma DecodeNext(done: Text, c: Char, data: Bytes, i: nat)
    requires i < |data| && c == DecodeChar(data[i..]).0 && Decoded(done, data, i)
    ensures Decoded(done + [c], data, i + DecodeChar(data[i..]).1)
  {
    var n := DecodeChar(data[i..]).1;
    assert data[i..][n..] == data[i + n..];
    assert done + [c] + Decode(data[i + n..]) == done + ([c] + Decode(data[i + n..]));
  }
}
