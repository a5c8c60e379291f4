/** Octets, and the array copy every byte container here is built on. */
module Octets {

  // Java bytes are signed; every use in the modelled code masks them with 0xFF,
  // so a byte is modelled by its unsigned value.
  type Byte = b: int | 0 <= b < 256
  type Bytes = seq<Byte>

  function Max(a: int, b: int): int {
    if a < b then b else a
  }

  function Min(a: int, b: int): int {
    if a < b then a else b
  }

  /** `s` with `data` written over it from index `at` on. */
  function Overwrite<T>(s: seq<T>, at: nat, data: seq<T>): (r: seq<T>)
    requires at + |data| <= |s|
    ensures |r| == |s|
  {
    seq(|s|, i requires 0 <= i < |s| => if at <= i < at + |data| then data[i - at] else s[i])
  }

  lemma OverwriteTwice<T>(s: seq<T>, at: nat, a: seq<T>, b: seq<T>)
    requires at + |a| + |b| <= |s|
    ensures Overwrite(Overwrite(s, at, a), at + |a|, b) == Overwrite(s, at, a + b)
  {
  }

  lemma SliceOfAll<T>(a: array<T>, from: nat, end: nat)
    requires from <= end <= a.Length
    ensures a[..][from..end] == a[from..end]
  {
  }

  /** System.arraycopy: the source range is read before anything is written, so the ranges may overlap. */
  method ArrayCopy<T>(src: array<T>, from: nat, dst: array<T>, at: nat, n: nat)
    requires from + n <= src.Length && at + n <= dst.Length
    modifies dst
    ensures dst[..] == Overwrite(old(dst[..]), at, old(src[from..from + n]))
  {
    forall i | 0 <= i < n {
      dst[at + i] := src[from + i];
    }
  }
}
