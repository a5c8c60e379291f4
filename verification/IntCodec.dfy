/** Integers and bytes: BinaryCoder's fields, the int and long coders of Bytes, and hexadecimal. */
module IntCodec {
  import opened Octets

  function Pow256(k: nat): (p: nat)
    ensures p >= 1
  {
    if k == 0 then 1 else 256 * Pow256(k - 1)
  }

  // (byte) (data >> 8 k): the shift is arithmetic, that is a division rounding down.
  function ByteAt(data: int, k: nat): Byte {
    data / Pow256(k) % 256
  }

  // The low `size` bytes of a two's complement number, most significant first.
  function BigEndian(data: int, size: nat): Bytes {
    seq(size, i requires 0 <= i < size => ByteAt(data, size - 1 - i))
  }

  // The unsigned number that bytes spell, most significant first.
  function Value(b: Bytes): nat {
    if b == [] then 0 else 256 * Value(b[..|b| - 1]) + b[|b| - 1]
  }

  function Reversed(b: Bytes): Bytes {
    seq(|b|, i requires 0 <= i < |b| => b[|b| - 1 - i])
  }

  // Wrapping to a signed number of `size` bytes.
  function Signed(n: int, size: nat): int
    requires size > 0
  {
    var m := n % Pow256(size);
    if m < 128 * Pow256(size - 1) then m else m - Pow256(size)
  }

  // ---- Arithmetic ----

  lemma DivDiv(v: int, a: nat, b: nat)
    requires a > 0 && b > 0
    ensures a * b > 0 && v / a / b == v / (a * b)
  {
    var q, r, s := v / a / b, v / a % b, v % a;
    assert v / a == q * b + r && v == v / a * a + s;
    Regroup(q, b, r, a, s);
    Below(r, b, a, s);
    DivUnique(v, a * b, q, r * a + s);
  }

  lemma Regroup(q: int, b: int, r: int, a: int, s: int)
    ensures (q * b + r) * a + s == q * (a * b) + (r * a + s)
  {
  }

  lemma Below(r: int, b: int, a: int, s: int)
    requires 0 <= r < b && 0 <= s < a
    ensures 0 <= r * a + s < a * b && a * b > 0
  {
    assert (r + 1) * a <= b * a;
    assert (r + 1) * a == r * a + a;
  }

  lemma DivUnique(v: int, d: nat, q: int, r: int)
    requires d > 0 && v == q * d + r && 0 <= r < d
    ensures v / d == q && v % d == r
  {
    var k := v / d - q;
    assert v == (v / d) * d + v % d;
    assert k * d == (v / d) * d - q * d;
    Multiple(k, d);
  }

  lemma Multiple(k: int, d: int)
    requires d > 0 && -d < k * d < d
    ensures k == 0
  {
    assert k >= 1 ==> k * d >= d;
    assert k <= -1 ==> k * d <= -d;
  }

  lemma ByteAtShift(v: int, k: nat)
    ensures ByteAt(v, k + 1) == ByteAt(v / 256, k)
  {
    DivDiv(v, 256, Pow256(k));
  }

  lemma BigEndianFront(v: int, size: nat)
    requires size > 0
    ensures BigEndian(v, size) == BigEndian(v / 256, size - 1) + [v % 256]
  {
    var all, front := BigEndian(v, size), BigEndian(v / 256, size - 1);
    forall i | 0 <= i < size - 1 ensures all[i] == front[i] {
      ByteAtShift(v, size - 2 - i);
    }
    assert all[size - 1] == ByteAt(v, 0) == v % 256;
  }

  lemma ModSplit(v: int, size: nat)
    requires size > 0
    ensures 256 * (v / 256 % Pow256(size - 1)) + v % 256 == v % Pow256(size)
  {
    var p := Pow256(size - 1);
    var q, r := v / 256 / p, v / 256 % p;
    assert v / 256 == q * p + r;
    assert v == q * (256 * p) + (256 * r + v % 256);
    DivUnique(v, 256 * p, q, 256 * r + v % 256);
  }

  /** The bytes of a field spell its value modulo 256 to the size. */
  lemma {:induction false} ValueOfBigEndian(v: int, size: nat)
    ensures Value(BigEndian(v, size)) == v % Pow256(size)
    decreases size
  {
    if size > 0 {
      BigEndianFront(v, size);
      ValueOfBigEndian(v / 256, size - 1);
      ModSplit(v, size);
    }
  }

  lemma {:induction false} ValueBounded(b: Bytes)
    ensures Value(b) < Pow256(|b|)
  {
    if b != [] {
      ValueBounded(b[..|b| - 1]);
    }
  }

  // ---- BinaryCoder ----

  method EncodeBigEndian(byteStream: array<Byte>, offset: nat, data: int, dataSize: nat) returns (end: nat)
    requires offset + dataSize <= byteStream.Length && dataSize <= 8
    modifies byteStream
    ensures end == offset + dataSize
    ensures byteStream[..] == Overwrite(old(byteStream[..]), offset, BigEndian(data, dataSize))
  {
    end := offset;
    for i := 0 to dataSize
      invariant end == offset + i
      invariant forall k :: 0 <= k < byteStream.Length ==>
                  byteStream[k] == if offset <= k < end then ByteAt(data, dataSize - 1 - (k - offset)) else old(byteStream[k])
    {
      byteStream[end] := ByteAt(data, dataSize - i - 1);
      end := end + 1;
    }
  }

  // data << 8 in a Java long, then the next byte in the low bits.
  function Accumulate(data: int, b: Byte): int {
    Signed(256 * data, 8) + b
  }

  lemma ValueSnoc(b: Bytes, i: nat)
    requires i < |b|
    ensures Value(b[..i + 1]) == 256 * Value(b[..i]) + b[i]
  {
    assert b[..i + 1][..i] == b[..i];
  }

  method DecodeBigEndian(byteStream: array<Byte>, offset: nat, dataSize: nat) returns (data: int)
    requires offset + dataSize <= byteStream.Length && dataSize <= 8
    ensures data == Signed(Value(byteStream[offset..offset + dataSize]), 8)
  {
    data := 0;
    ghost var field := byteStream[offset..offset + dataSize];
    for i := 0 to dataSize
      invariant data == Signed(Value(field[..i]), 8)
    {
      ValueSnoc(field, i);
      AccumulateIsValue(Value(field[..i]), field[i]);
      data := Accumulate(data, byteStream[offset + i]);
    }
    assert field[..dataSize] == field;
  }

  lemma Pow256Values()
    ensures Pow256(7) == 0x100_0000_0000_0000 && Pow256(8) == 0x1_0000_0000_0000_0000
    ensures Pow256(3) == 0x100_0000 && Pow256(4) == 0x1_0000_0000 && Pow256(2) == 0x1_0000
  {
    assert Pow256(2) == 0x1_0000;
    assert Pow256(4) == 0x1_0000_0000;
    assert Pow256(6) == 0x1_0000_0000_0000;
  }

  lemma SignedShifted(n: int, k: int, size: nat)
    requires size > 0
    ensures Signed(n + k * Pow256(size), size) == Signed(n, size)
  {
    var p := Pow256(size);
    var q, r := n / p, n % p;
    assert n + k * p == (q + k) * p + r;
    DivUnique(n + k * p, p, q + k, r);
  }

  // A byte shifted in does not carry.
  lemma LowByte(s: int, b: Byte)
    ensures Signed(256 * s, 8) + b == Signed(256 * s + b, 8)
  {
    Pow256Values();
    var w, part := 0x1_0000_0000_0000_0000, 0x100_0000_0000_0000;
    var q, r := s / part, s % part;
    DivUnique(256 * s, w, q, 256 * r);
    DivUnique(256 * s + b, w, q, 256 * r + b);
  }

  lemma AccumulateIsValue(n: nat, b: Byte)
    ensures Accumulate(Signed(n, 8), b) == Signed(256 * n + b, 8)
  {
    Pow256Values();
    var w := 0x1_0000_0000_0000_0000;
    var s := Signed(n, 8);
    var k := if s == n % w then n / w else n / w + 1;
    assert n == s + k * w;
    LowByte(s, b);
    SignedShifted(256 * s + b, 256 * k, 8);
  }

  datatype Field = Field(value: int, size: nat)

  // What decoding a field gives: its value modulo 256 to the size, as a Java long.
  function ReadBack(f: Field): int {
    Signed(f.value % Pow256(f.size), 8)
  }

  function Sizes(fields: seq<Field>): nat {
    if fields == [] then 0 else fields[0].size + Sizes(fields[1..])
  }

  function EncodeFields(fields: seq<Field>): (b: Bytes)
    ensures |b| == Sizes(fields)
  {
    if fields == [] then [] else BigEndian(fields[0].value, fields[0].size) + EncodeFields(fields[1..])
  }

  lemma {:induction false} SizesOfFront(fields: seq<Field>, i: nat)
    requires i < |fields|
    ensures Sizes(fields[..i + 1]) == Sizes(fields[..i]) + fields[i].size && Sizes(fields[..i + 1]) <= Sizes(fields)
    decreases |fields|
  {
    if i > 0 {
      SizesOfFront(fields[1..], i - 1);
      assert fields[..i + 1][1..] == fields[1..][..i] && fields[..i][1..] == fields[1..][..i - 1];
    }
  }

  /** Where the offsets chain to, each field's bytes stand. */
  lemma {:induction false} FieldAt(fields: seq<Field>, i: nat)
    requires i < |fields|
    ensures var at := Sizes(fields[..i]);
            at + fields[i].size <= Sizes(fields)
            && EncodeFields(fields)[at..at + fields[i].size] == BigEndian(fields[i].value, fields[i].size)
    decreases |fields|
  {
    if i > 0 {
      FieldAt(fields[1..], i - 1);
      var at, first := Sizes(fields[1..][..i - 1]), fields[0].size;
      assert fields[..i][1..] == fields[1..][..i - 1];
      assert EncodeFields(fields)[first..] == EncodeFields(fields[1..]);
      assert EncodeFields(fields)[first + at..first + at + fields[i].size] == EncodeFields(fields)[first..][at..at + fields[i].size];
    }
  }

  lemma FieldsSnoc(fields: seq<Field>, i: nat)
    requires i < |fields|
    ensures EncodeFields(fields[..i + 1]) == EncodeFields(fields[..i]) + BigEndian(fields[i].value, fields[i].size)
    decreases |fields|
  {
    if i == 0 {
      assert fields[..1][1..] == [];
    } else {
      FieldsSnoc(fields[1..], i - 1);
      assert fields[..i + 1][1..] == fields[1..][..i] && fields[..i][1..] == fields[1..][..i - 1];
    }
  }

  /** Fields written one behind the other read back, at the offsets they were written at, as their values modulo 256 to
      the size (as signed longs when the size is 8), and no other byte changes. */
  method WriteAndReadBack(byteStream: array<Byte>, offset: nat, fields: seq<Field>) returns (values: seq<int>)
    requires offset + Sizes(fields) <= byteStream.Length && forall f <- fields :: f.size <= 8
    modifies byteStream
    ensures byteStream[..] == Overwrite(old(byteStream[..]), offset, EncodeFields(fields))
    ensures |values| == |fields|
    ensures forall i :: 0 <= i < |fields| ==> values[i] == ReadBack(fields[i])
  {
    WriteFields(byteStream, offset, fields);
    assert byteStream[offset..offset + Sizes(fields)] == EncodeFields(fields);
    values := ReadFields(byteStream, offset, fields);
  }

  method ReadFields(byteStream: array<Byte>, offset: nat, fields: seq<Field>) returns (values: seq<int>)
    requires offset + Sizes(fields) <= byteStream.Length && forall f <- fields :: f.size <= 8
    requires byteStream[offset..offset + Sizes(fields)] == EncodeFields(fields)
    ensures |values| == |fields|
    ensures forall i :: 0 <= i < |fields| ==> values[i] == ReadBack(fields[i])
  {
    values := [];
    var at := offset;
    for i := 0 to |fields|
      invariant at == offset + Sizes(fields[..i]) && |values| == i
      invariant forall k :: 0 <= k < i ==> values[k] == ReadBack(fields[k])
    {
      FieldInStream(byteStream[..], offset, fields, i, at, fields[i].size);
      var v := DecodeBigEndian(byteStream, at, fields[i].size);
      values := values + [v];
      at := at + fields[i].size;
    }
  }

  lemma FieldInStream(stream: Bytes, offset: nat, fields: seq<Field>, i: nat, at: nat, size: nat)
    requires i < |fields| && offset + Sizes(fields) <= |stream|
    requires stream[offset..offset + Sizes(fields)] == EncodeFields(fields)
    requires at == offset + Sizes(fields[..i]) && size == fields[i].size
    ensures at + size <= |stream| && Sizes(fields[..i + 1]) == Sizes(fields[..i]) + size
    ensures Value(stream[at..at + size]) == fields[i].value % Pow256(size)
  {
    SizesOfFront(fields, i);
    FieldAt(fields, i);
    ValueOfBigEndian(fields[i].value, size);
    SliceOfSlice(stream, offset, EncodeFields(fields), Sizes(fields[..i]), BigEndian(fields[i].value, size), at, size);
  }

  // A part of what stands at `offset`, found in the stream.
  lemma SliceOfSlice(s: Bytes, offset: nat, all: Bytes, a: nat, part: Bytes, at: nat, n: nat)
    requires offset + |all| <= |s| && a + n <= |all| && n == |part| && at == offset + a
    requires s[offset..offset + |all|] == all && all[a..a + n] == part
    ensures at + n <= |s| && s[at..at + n] == part
  {
    assert forall i :: 0 <= i < |all| ==> s[offset + i] == all[i];
    assert forall i :: 0 <= i < n ==> all[a + i] == part[i];
  }

  method WriteFields(byteStream: array<Byte>, offset: nat, fields: seq<Field>)
    requires offset + Sizes(fields) <= byteStream.Length && forall f <- fields :: f.size <= 8
    modifies byteStream
    ensures byteStream[..] == Overwrite(old(byteStream[..]), offset, EncodeFields(fields))
  {
    var at := offset;
    ghost var start := byteStream[..];
    for i := 0 to |fields|
      invariant at == offset + Sizes(fields[..i]) && Sizes(fields[..i]) <= Sizes(fields)
      invariant byteStream[..] == Overwrite(start, offset, EncodeFields(fields[..i]))
    {
      SizesOfFront(fields, i);
      FieldsSnoc(fields, i);
      OverwriteTwice(start, offset, EncodeFields(fields[..i]), BigEndian(fields[i].value, fields[i].size));
      at := EncodeBigEndian(byteStream, at, fields[i].value, fields[i].size);
    }
    assert fields[..|fields|] == fields;
  }

  // ---- Bytes.setShort, setInt, setLong and their inverses ----

  function Ordered(b: Bytes, little: bool): Bytes {
    if little then Reversed(b) else b
  }

  /** Little-endian is the least byte first, big-endian the least byte last. */
  lemma LeastByte(n: int, size: nat, i: nat)
    requires i < size
    ensures Ordered(BigEndian(n, size), true)[i] == n / Pow256(i) % 256
    ensures Ordered(BigEndian(n, size), false)[size - 1 - i] == n / Pow256(i) % 256
  {
    var k := size - 1 - i;
    assert size - 1 - k == i && BigEndian(n, size)[k] == ByteAt(n, size - 1 - k);
  }

  method SetShort(n: int, b: array<Byte>, off: nat, little: bool)
    requires off + 2 <= b.Length
    modifies b
    ensures b[..] == Overwrite(old(b[..]), off, Ordered(BigEndian(n, 2), little))
  {
    var b0, b1 := ByteAt(n, 0), ByteAt(n, 1);
    if little {
      b[off], b[off + 1] := b0, b1;
    } else {
      b[off], b[off + 1] := b1, b0;
    }
    assert BigEndian(n, 2) == [b1, b0] && Reversed([b1, b0]) == [b0, b1];
  }

  method SetInt(n: int, b: array<Byte>, off: nat, little: bool)
    requires off + 4 <= b.Length
    modifies b
    ensures b[..] == Overwrite(old(b[..]), off, Ordered(BigEndian(n, 4), little))
  {
    var b0, b1, b2, b3 := ByteAt(n, 0), ByteAt(n, 1), ByteAt(n, 2), ByteAt(n, 3);
    if little {
      b[off], b[off + 1], b[off + 2], b[off + 3] := b0, b1, b2, b3;
    } else {
      b[off], b[off + 1], b[off + 2], b[off + 3] := b3, b2, b1, b0;
    }
    assert BigEndian(n, 4) == [b3, b2, b1, b0] && Reversed([b3, b2, b1, b0]) == [b0, b1, b2, b3];
  }

  lemma {:induction false} ValueInjective(a: Bytes, b: Bytes)
    requires |a| == |b| && Value(a) == Value(b)
    ensures a == b
    decreases |a|
  {
    if a != [] {
      ValueInjective(a[..|a| - 1], b[..|b| - 1]);
      assert a == a[..|a| - 1] + [a[|a| - 1]] && b == b[..|b| - 1] + [b[|b| - 1]];
    }
  }

  // Truncating to an int keeps the low four bytes.
  lemma TruncatedBytes(n: int, size: nat)
    requires size > 0
    ensures BigEndian(Signed(n, size), size) == BigEndian(n, size)
  {
    ValueOfBigEndian(n, size);
    ValueOfBigEndian(Signed(n, size), size);
    SignedSame(n, size);
    ValueInjective(BigEndian(Signed(n, size), size), BigEndian(n, size));
  }

  lemma SignedSame(n: int, size: nat)
    requires size > 0
    ensures Signed(n, size) % Pow256(size) == n % Pow256(size)
    ensures -128 * Pow256(size - 1) <= Signed(n, size) < 128 * Pow256(size - 1)
    ensures -128 * Pow256(size - 1) <= n < 128 * Pow256(size - 1) ==> Signed(n, size) == n
  {
    var p, m := Pow256(size), n % Pow256(size);
    DivUnique(m, p, 0, m);
    DivUnique(m - p, p, -1, m);
    if 0 <= n < p {
      DivUnique(n, p, 0, n);
    } else if -p <= n < 0 {
      DivUnique(n, p, -1, n + p);
    }
  }

  lemma {:induction false} BigEndianSplit(v: int, high: nat, low: nat)
    ensures BigEndian(v, high + low) == BigEndian(v / Pow256(low), high) + BigEndian(v, low)
    decreases low
  {
    if low > 0 {
      BigEndianFront(v, high + low);
      BigEndianFront(v, low);
      BigEndianSplit(v / 256, high, low - 1);
      DivDiv(v, 256, Pow256(low - 1));
    } else {
      assert v / Pow256(0) == v;
    }
  }

  lemma ReversedParts(a: Bytes, b: Bytes)
    ensures Reversed(a + b) == Reversed(b) + Reversed(a)
  {
  }

  method SetLong(n: int, b: array<Byte>, off: nat, little: bool)
    requires off + 8 <= b.Length
    modifies b
    ensures b[..] == Overwrite(old(b[..]), off, Ordered(BigEndian(n, 8), little))
  {
    var low, high := Signed(n, 4), Signed(n / Pow256(4), 4);
    TruncatedBytes(n, 4);
    TruncatedBytes(n / Pow256(4), 4);
    BigEndianSplit(n, 4, 4);
    ReversedParts(BigEndian(high, 4), BigEndian(low, 4));
    ghost var start := b[..];
    var first, second := if little then low else high, if little then high else low;
    OverwriteTwice(start, off, Ordered(BigEndian(first, 4), little), Ordered(BigEndian(second, 4), little));
    SetInt(first, b, off, little);
    SetInt(second, b, off + 4, little);
  }

  // toShort, toInt and toLong of the bytes of one number; a short is not sign-extended.
  function ToShort(b: Bytes, little: bool): int
    requires |b| == 2
  {
    var o := Ordered(b, little);
    o[0] as int * 0x100 + o[1]
  }

  function ToInt(b: Bytes, little: bool): int
    requires |b| == 4
  {
    var o := Ordered(b, little);
    Signed(o[0] as int * 0x100_0000 + o[1] as int * 0x1_0000 + o[2] as int * 0x100 + o[3], 4)
  }

  function ToLong(b: Bytes, little: bool): int
    requires |b| == 8
  {
    var first, second := ToInt(b[..4], little) % Pow256(4), ToInt(b[4..], little) % Pow256(4);
    Signed(if little then second * Pow256(4) + first else first * Pow256(4) + second, 8)
  }

  lemma ReversedTwice(b: Bytes)
    ensures Reversed(Reversed(b)) == b
  {
  }

  lemma ValueOfFour(b: Bytes)
    requires |b| == 4
    ensures Value(b) == b[0] as int * 0x100_0000 + b[1] as int * 0x1_0000 + b[2] as int * 0x100 + b[3]
  {
    assert b[..3][..2] == b[..2] && b[..2][..1] == b[..1] && b[..1][..0] == [];
    assert Value(b[..1]) == b[0];
    assert Value(b[..2]) == 256 * b[0] as int + b[1];
    assert Value(b[..3]) == 256 * (256 * b[0] as int + b[1]) + b[2];
  }

  /** Whatever the byte order, a number set and read back is itself, wrapped to its width. */
  lemma IntRoundTrip(n: int, little: bool)
    ensures ToInt(Ordered(BigEndian(n, 4), little), little) == Signed(n, 4)
    ensures -0x8000_0000 <= n < 0x8000_0000 ==> ToInt(Ordered(BigEndian(n, 4), little), little) == n
  {
    var b := BigEndian(n, 4);
    ReversedTwice(b);
    ValueOfFour(b);
    ValueOfBigEndian(n, 4);
    SignedOfMod(n, 4);
    SignedSame(n, 4);
    Pow256Values();
  }

  lemma SignedOfMod(n: int, size: nat)
    requires size > 0
    ensures Signed(n % Pow256(size), size) == Signed(n, size)
  {
    var m := n % Pow256(size);
    DivUnique(m, Pow256(size), 0, m);
  }

  lemma ShortRoundTrip(n: int, little: bool)
    ensures ToShort(Ordered(BigEndian(n, 2), little), little) == n % 0x1_0000
  {
    var b := BigEndian(n, 2);
    ReversedTwice(b);
    ValueOfBigEndian(n, 2);
    Pow256Values();
    assert b[..1][..0] == [] && Value(b[..1]) == b[0];
  }

  // The value of two halves, each read as an int.
  lemma HalvesSigned(high: Bytes, low: Bytes, little: bool)
    requires |high| == 4 && |low| == 4
    ensures Ordered(high + low, little) == if little then Ordered(low, true) + Ordered(high, true) else high + low
    ensures ToLong(Ordered(high + low, little), little)
         == Signed(ToInt(Ordered(high, little), little) % Pow256(4) * Pow256(4) + ToInt(Ordered(low, little), little) % Pow256(4), 8)
  {
    ReversedParts(high, low);
    var b := Ordered(high + low, little);
    assert b[..4] == Ordered(if little then low else high, little);
    assert b[4..] == Ordered(if little then high else low, little);
  }

  lemma LongRoundTrip(n: int, little: bool)
    ensures ToLong(Ordered(BigEndian(n, 8), little), little) == Signed(n, 8)
  {
    BigEndianSplit(n, 4, 4);
    HalvesSigned(BigEndian(n / Pow256(4), 4), BigEndian(n, 4), little);
    IntRoundTrip(n, little);
    IntRoundTrip(n / Pow256(4), little);
    SignedSame(n, 4);
    SignedSame(n / Pow256(4), 4);
    LongOfHalves(n);
  }

  lemma LongOfHalves(n: int)
    ensures Signed(n / Pow256(4) % Pow256(4) * Pow256(4) + n % Pow256(4), 8) == Signed(n, 8)
  {
    Pow256Values();
    var p := 0x1_0000_0000;
    DivDiv(n, p, p);
    var m := n / p % p * p + n % p;
    assert n == (n / p / p) * (p * p) + m;
    assert 0 <= m < p * p;
    DivUnique(n, p * p, n / p / p, m);
    SignedOfMod(n, 8);
  }

  // ---- Hexadecimal ----

  function HexChar(n: int, upper: bool): Byte
    requires 0 <= n < 16
  {
    if n < 10 then 48 + n else (if upper then 55 else 87) + n
  }

  // HEX_DECODE_CHAR: 0 for anything that is not a digit.
  function HexDecode(c: int): (n: int)
    ensures 0 <= n < 16
  {
    if 48 <= c <= 57 then c - 48 else if 65 <= c <= 70 then c - 55 else if 97 <= c <= 102 then c - 87 else 0
  }

  // The low eight bits of a char select its digit.
  function FromPair(c: int, d: int): Byte {
    HexDecode(c % 256) * 16 + HexDecode(d % 256)
  }

  lemma DigitRoundTrip(n: int, upper: bool)
    requires 0 <= n < 16
    ensures HexDecode(HexChar(n, upper) % 256) == n
  {
  }

  function ToHex(b: Bytes, upper: bool): seq<int> {
    if b == [] then [] else ToHex(b[..|b| - 1], upper) + [HexChar(b[|b| - 1] / 16, upper), HexChar(b[|b| - 1] % 16, upper)]
  }

  function FromHex(c: seq<int>): Bytes {
    if |c| < 2 then [] else [FromPair(c[0], c[1])] + FromHex(c[2..])
  }

  lemma {:induction false} FromHexAppend(a: seq<int>, c: seq<int>)
    requires |a| % 2 == 0
    ensures FromHex(a + c) == FromHex(a) + FromHex(c)
    decreases |a|
  {
    if a == [] {
      assert a + c == c;
    } else {
      assert (a + c)[2..] == a[2..] + c;
      FromHexAppend(a[2..], c);
    }
  }

  lemma {:induction false} ToHexLength(b: Bytes, upper: bool)
    ensures |ToHex(b, upper)| == 2 * |b|
  {
    if b != [] {
      ToHexLength(b[..|b| - 1], upper);
    }
  }

  lemma PairRoundTrip(n: Byte, upper: bool)
    ensures FromHex([HexChar(n / 16, upper), HexChar(n % 16, upper)]) == [n]
  {
    var pair := [HexChar(n / 16, upper), HexChar(n % 16, upper)];
    assert pair[2..] == [];
    DigitRoundTrip(n / 16, upper);
    DigitRoundTrip(n % 16, upper);
  }

  /** fromHex inverts both toHex forms. */
  lemma {:induction false} HexRoundTrip(b: Bytes, upper: bool)
    ensures FromHex(ToHex(b, upper)) == b
  {
    if b != [] {
      var front, last := b[..|b| - 1], b[|b| - 1];
      HexRoundTrip(front, upper);
      ToHexLength(front, upper);
      PairRoundTrip(last, upper);
      FromHexAppend(ToHex(front, upper), [HexChar(last / 16, upper), HexChar(last % 16, upper)]);
    }
  }

  // The digit's octet: 0 to 9, then the letters from A or from a on.
  predicate IsHexOctet(c: int, upper: bool) {
    48 <= c <= 57 || (if upper then 65 <= c <= 70 else 97 <= c <= 102)
  }

  /** toHex writes its letters in the case asked for; with HexRoundTrip this fixes every digit. */
  lemma {:induction false} HexCase(b: Bytes, upper: bool)
    ensures forall i :: 0 <= i < |ToHex(b, upper)| ==> IsHexOctet(ToHex(b, upper)[i], upper)
  {
    if b != [] {
      HexCase(b[..|b| - 1], upper);
    }
  }

  /** fromHex knows no other characters as digits: they count as 0. */
  lemma OtherCharsAreZero(c: int, d: int)
    requires 0 <= c < 0x1_0000 && !IsHexOctet(c % 256, true) && !IsHexOctet(c % 256, false)
    ensures FromPair(c, d) == FromPair(48, d) && FromPair(d, c) == FromPair(d, 48)
  {
  }

  method ToHexChars(b: array<Byte>, off: nat, len: nat, upper: bool) returns (c: array<int>)
    requires off + len <= b.Length
    ensures c[..] == ToHex(b[off..off + len], upper)
  {
    c := new int[len * 2](_ => 0);
    for i := 0 to len
      invariant c[..2 * i] == ToHex(b[off..off + i], upper)
    {
      var n := b[off + i];
      ghost var done := c[..2 * i];
      c[i * 2] := HexChar(n / 16, upper);
      c[i * 2 + 1] := HexChar(n % 16, upper);
      assert b[off..off + i + 1][..i] == b[off..off + i];
      assert c[..2 * i + 2] == done + [HexChar(n / 16, upper), HexChar(n % 16, upper)];
    }
  }

  method FromHexChars(c: array<int>) returns (b: array<Byte>)
    ensures b[..] == FromHex(c[..])
  {
    b := new Byte[c.Length / 2](_ => 0);
    ghost var digits := c[..];
    for i := 0 to b.Length
      invariant c[..] == digits && b[..i] == FromHex(digits[..2 * i])
    {
      ghost var done := b[..i];
      b[i] := FromPair(c[i * 2], c[i * 2 + 1]);
      var pair := [c[i * 2], c[i * 2 + 1]];
      assert digits[..2 * i + 2] == digits[..2 * i] + pair && pair[2..] == [];
      FromHexAppend(digits[..2 * i], pair);
      assert b[..i + 1] == done + [b[i]];
    }
    ghost var left := digits[2 * b.Length..];
    assert digits == digits[..2 * b.Length] + left;
    FromHexAppend(digits[..2 * b.Length], left);
    assert b[..] == b[..b.Length];
  }
}
