/** The growable byte queue: an array, an offset and a length, all changed in place. */
module ByteQueue {
  import opened Octets

  // The numbers that decide when the queue grows, compacts or releases its array.
  datatype Shape = Shape(capacity: nat, offset: nat, length: nat) {
    ghost predicate Valid() {
      offset + length <= capacity
    }

    predicate Grows(n: nat) {
      length + n > capacity
    }

    predicate Compacts(n: nat) {
      !Grows(n) && offset + length + n > capacity
    }

    function Room(n: nat): (r: Shape)
      requires Valid()
      ensures r.length == length && r.offset + length + n <= r.capacity
    {
      if Grows(n) then Shape(Max(2 * capacity, length + n), 0, length)
      else if Compacts(n) then Shape(capacity, 0, length)
      else this
    }

    // Bytes that making room for n more copies into a larger array.
    function Copies(n: nat): nat {
      if Grows(n) then length else 0
    }

    function Add(n: nat): (r: Shape)
      requires Valid()
      ensures r.Valid()
    {
      Room(n).(length := length + n)
    }

    function Remove(n: nat): (r: Shape)
      requires Valid() && n <= length
      ensures r.Valid()
    {
      if n == length && capacity > 1024 then Shape(32, 0, 0) else Shape(capacity, offset + n, length - n)
    }

    // read(b, 0, n) of the input stream.
    function Read(n: nat): (r: Shape)
      requires Valid()
      ensures r.Valid()
    {
      if length == 0 then this else Remove(Min(n, length))
    }

    function Clear(): (r: Shape)
      ensures r.Valid()
    {
      Shape(if capacity > 1024 then 32 else capacity, 0, 0)
    }

    function SetCapacity(c: nat): (r: Shape)
      ensures r.Valid()
    {
      Shape(Max(c, length), 0, length)
    }
  }

  lemma OverwriteAfter<T>(s: seq<T>, offset: nat, length: nat, data: seq<T>)
    requires offset + length + |data| <= |s|
    ensures Overwrite(s, offset + length, data)[offset..offset + length + |data|] == s[offset..offset + length] + data
  {
  }

  class ByteArrayQueue {
    var buf: array<Byte>
    var offset: nat
    var length: nat
    ghost var copied: nat  // bytes copied by growing, so far

    ghost predicate Valid()
      reads this
    {
      offset + length <= buf.Length
    }

    ghost function Contents(): Bytes
      requires Valid()
      reads this, buf
    {
      buf[offset..offset + length]
    }

    ghost function GetShape(): Shape
      reads this
    {
      Shape(buf.Length, offset, length)
    }

    constructor (capacity: nat)
      ensures Valid() && fresh(buf) && Contents() == [] && GetShape() == Shape(capacity, 0, 0) && copied == 0
    {
      buf := new Byte[capacity](_ => 0);
      offset, length, copied := 0, 0, 0;
    }

    constructor Sharing(buf: array<Byte>, offset: nat, length: nat)
      ensures this.buf == buf && this.offset == offset && this.length == length
    {
      this.buf, this.offset, this.length, copied := buf, offset, length, 0;
    }

    /** A second queue over the SAME array. */
    method Clone() returns (q: ByteArrayQueue)
      requires Valid()
      ensures fresh(q) && q.Valid() && q.buf == buf && q.GetShape() == GetShape() && q.Contents() == Contents()
    {
      q := new ByteArrayQueue.Sharing(buf, offset, length);
    }

    method Clear()
      requires Valid()
      modifies `buf, `offset, `length
      ensures Valid() && Contents() == [] && (buf == old(buf) || fresh(buf))
      ensures GetShape() == old(GetShape()).Clear()
    {
      offset, length := 0, 0;
      if buf.Length > 1024 {
        buf := new Byte[32](_ => 0);
      }
    }

    method SetCapacity(capacity: nat)
      requires Valid()
      modifies `buf, `offset, `length
      ensures Valid() && fresh(buf) && Contents() == old(Contents())
      ensures GetShape() == old(GetShape()).SetCapacity(capacity)
    {
      var newArray := new Byte[Max(capacity, length)](_ => 0);
      ArrayCopy(buf, offset, newArray, 0, length);
      buf, offset := newArray, 0;
    }

    /** Room for `len` more bytes behind the contents: in a larger array, or by moving the contents to the front. */
    method MakeRoom(len: nat)
      requires Valid()
      modifies this, buf
      ensures Valid() && Contents() == old(Contents()) && GetShape() == old(GetShape()).Room(len)
      ensures if old(GetShape()).Grows(len) then fresh(buf) && old(buf)[..] == old(buf[..]) else buf == old(buf)
      ensures copied == old(copied) + old(GetShape()).Copies(len)
      ensures old(GetShape()).Compacts(len) ==> buf[..] == Overwrite(old(buf[..]), 0, old(Contents()))
      ensures !old(GetShape()).Grows(len) && !old(GetShape()).Compacts(len) ==> buf[..] == old(buf[..])
    {
      var newLength := length + len;
      if newLength > buf.Length {
        copied := copied + length;
        SetCapacity(Max(2 * buf.Length, newLength));
      } else if offset + newLength > buf.Length {
        ArrayCopy(buf, offset, buf, 0, length);
        offset := 0;
      }
    }

    /** The caller's array may be the queue's own: then a compaction moves the bytes that are about to be added. */
    method Add(b: array<Byte>, off: nat, len: nat)
      requires Valid() && off + len <= b.Length
      modifies this, buf
      ensures Valid() && if old(GetShape()).Grows(len) then fresh(buf) else buf == old(buf)
      ensures GetShape() == old(GetShape()).Add(len) && copied == old(copied) + old(GetShape()).Copies(len)
      ensures Contents() == old(Contents()) +
                            if b == old(buf) && old(GetShape()).Compacts(len)
                            then Overwrite(old(b[..]), 0, old(Contents()))[off..off + len]
                            else old(b[off..off + len])
      ensures old(GetShape()).Grows(len) ==> old(buf)[..] == old(buf[..])
      ensures !old(GetShape()).Grows(len) && !old(GetShape()).Compacts(len) ==>
                buf[..] == Overwrite(old(buf[..]), old(offset) + old(length), old(b[off..off + len]))
      ensures old(GetShape()).Compacts(len) && b != old(buf) ==>
                buf[..] == Overwrite(old(buf[..]), 0, old(Contents()) + old(b[off..off + len]))
    {
      ghost var was, mine, all := buf[..], Contents(), b[..];
      assert b[off..off + len] == all[off..off + len];
      MakeRoom(len);
      ghost var now := b[..];
      assert b[off..off + len] == now[off..off + len];
      assert now == if b == old(buf) && old(GetShape()).Compacts(len) then Overwrite(was, 0, mine) else all;
      PutBehind(b, off, len);
      if old(GetShape()).Compacts(len) && b != buf {
        OverwriteTwice(was, 0, mine, all[off..off + len]);
      }
    }

    method PutBehind(b: array<Byte>, off: nat, len: nat)
      requires offset + length + len <= buf.Length && off + len <= b.Length
      modifies `length, buf
      ensures Valid() && length == old(length) + len
      ensures Contents() == old(buf[offset..offset + length]) + old(b[off..off + len])
      ensures buf[..] == Overwrite(old(buf[..]), old(offset) + old(length), old(b[off..off + len]))
    {
      ghost var room, source := buf[..], b[off..off + len];
      assert room[offset..offset + length] == buf[offset..offset + length];
      ArrayCopy(b, off, buf, offset + length, len);
      OverwriteAfter(room, offset, length, source);
      length := length + len;
    }

    /** add(b, 0, len) of an array that is not the queue's own. */
    method Append(b: array<Byte>, len: nat)
      requires Valid() && len <= b.Length && b != buf
      modifies this, buf
      ensures Valid() && (buf == old(buf) || fresh(buf))
      ensures Contents() == old(Contents()) + b[..len]
      ensures GetShape() == old(GetShape()).Add(len) && copied == old(copied) + old(GetShape()).Copies(len)
    {
      assert b[0..len] == b[..len];
      Add(b, 0, len);
    }

    /** A whole sequence, as `add(byte[])` and the queue's output stream use it. */
    method AddAll(data: Bytes)
      requires Valid()
      modifies this, buf
      ensures Valid() && (buf == old(buf) || fresh(buf))
      ensures Contents() == old(Contents()) + data
      ensures GetShape() == old(GetShape()).Add(|data|) && copied == old(copied) + old(GetShape()).Copies(|data|)
    {
      var b := new Byte[|data|](i requires 0 <= i < |data| => data[i]);
      assert b[..b.Length] == data;
      Append(b, b.Length);
    }

    method RemoveCount(len: nat)
      requires Valid() && len <= length
      modifies `buf, `offset, `length
      ensures Valid() && (buf == old(buf) || fresh(buf))
      ensures Contents() == old(Contents())[len..]
      ensures GetShape() == old(GetShape()).Remove(len)
    {
      assert buf[offset + len..offset + length] == Contents()[len..];
      offset, length := offset + len, length - len;
      if length == 0 && buf.Length > 1024 {
        buf := new Byte[32](_ => 0);
        offset := 0;
      }
    }

    /** `b` may be the queue's own array: then what stays queued is read from the overwritten array. */
    method Remove(b: array<Byte>, off: nat, len: nat)
      requires Valid() && len <= length && off + len <= b.Length
      modifies `buf, `offset, `length, b
      ensures Valid() && (buf == old(buf) || fresh(buf))
      ensures GetShape() == old(GetShape()).Remove(len)
      ensures b[..] == Overwrite(old(b[..]), off, old(Contents())[..len])
      ensures Contents() == old(buf)[old(offset) + len..old(offset) + old(length)]
      ensures b != old(buf) ==> Contents() == old(Contents())[len..]
    {
      assert buf[offset..offset + len] == Contents()[..len];
      ArrayCopy(buf, offset, b, off, len);
      assert buf[offset + len..offset + length] == Contents()[len..];
      assert b != buf ==> Contents() == old(Contents());
      RemoveCount(len);
    }

    /** read(b, off, len) of the queue's input stream. */
    method Read(b: array<Byte>, off: nat, len: nat) returns (n: int)
      requires Valid() && off + len <= b.Length && b != buf
      modifies `buf, `offset, `length, b
      ensures Valid() && (buf == old(buf) || fresh(buf))
      ensures old(length) == 0 ==> n == -1 && unchanged(this) && b[..] == old(b[..])
      ensures old(length) != 0 ==> n == Min(len, old(length))
                                   && b[..] == Overwrite(old(b[..]), off, old(Contents())[..n])
                                   && Contents() == old(Contents())[n..]
                                   && GetShape() == old(GetShape()).Remove(n)
    {
      if length == 0 {
        return -1;
      }
      n := Min(len, length);
      Remove(b, off, n);
    }

    /** read(b) of the queue's input stream: -1 when nothing is queued. */
    method ReadSome(b: array<Byte>) returns (n: int)
      requires Valid() && b != buf
      modifies `buf, `offset, `length, b
      ensures Valid() && (buf == old(buf) || fresh(buf))
      ensures n == if old(length) == 0 then -1 else Min(b.Length, old(length))
      ensures n >= 0 ==> b[..n] + Contents() == old(Contents()) && length == old(length) - n
      ensures n < 0 ==> Contents() == []
      ensures GetShape() == old(GetShape()).Read(b.Length)
    {
      n := Read(b, 0, b.Length);
      assert n >= 0 ==> b[0..n] == b[..n];
    }
  }
}
