/** Bytes and the little-endian fields laid over them. */
module Octets {
  type Byte = b: int | 0 <= b < 256 witness 0

  /** The little-endian 16-bit field at index `i`. */
  function Word16(d: seq<Byte>, i: nat): (w: nat)
    requires i + 2 <= |d|
    ensures w < 0x1_0000
  {
    (d[i] as int) + 0x100 * (d[i + 1] as int)
  }

  /** The little-endian 32-bit field at index `i`. */
  function Word32(d: seq<Byte>, i: nat): (w: nat)
    requires i + 4 <= |d|
    ensures w < 0x1_0000_0000
  {
    Word16(d, i) + 0x1_0000 * Word16(d, i + 2)
  }

  function Zeros(k: nat): (z: seq<Byte>)
    ensures |z| == k && forall i :: 0 <= i < k ==> z[i] == 0
  {
    seq<Byte>(k, _ => 0)
  }

  /** A payload as it is sent: padded with zeros to the shortest frame. */
  function Enlarged(p: seq<Byte>, frameMin: nat): (f: seq<Byte>)
    ensures |f| == if |p| < frameMin then frameMin else |p|
  {
    if |p| < frameMin then p + Zeros(frameMin - |p|) else p
  }

  function EnlargedAll(ps: seq<seq<Byte>>, frameMin: nat): (fs: seq<seq<Byte>>)
    ensures |fs| == |ps| && forall i :: 0 <= i < |fs| ==> fs[i] == Enlarged(ps[i], frameMin)
  {
    seq(|ps|, i requires 0 <= i < |ps| => Enlarged(ps[i], frameMin))
  }

  /** Store the low 16 bits of `w` at index `i`. */
  method Put16(a: array<Byte>, i: nat, w: nat)
    requires i + 2 <= a.Length
    modifies a
    ensures Word16(a[..], i) == w % 0x1_0000
    ensures forall j :: 0 <= j < a.Length && j != i && j != i + 1 ==> a[j] == old(a[j])
  {
    a[i], a[i + 1] := w % 0x100, w / 0x100 % 0x100;
  }

  /** Fill `a` from `from` to `to` with one value. */
  method Fill(a: array<Byte>, from: nat, to: nat, b: Byte)
    requires from <= to <= a.Length
    modifies a
    ensures forall j :: from <= j < to ==> a[j] == b
    ensures forall j :: 0 <= j < a.Length && !(from <= j < to) ==> a[j] == old(a[j])
  {
    for i := from to to
      invariant forall j :: from <= j < i ==> a[j] == b
      invariant forall j :: 0 <= j < a.Length && !(from <= j < i) ==> a[j] == old(a[j])
    {
      a[i] := b;
    }
  }

  /** Copy `s` to index `at`. */
  method Copy(a: array<Byte>, at: nat, s: seq<Byte>)
    requires at + |s| <= a.Length
    modifies a
    ensures a[at..at + |s|] == s
    ensures forall j :: 0 <= j < a.Length && !(at <= j < at + |s|) ==> a[j] == old(a[j])
  {
    for i := 0 to |s|
      invariant forall j :: 0 <= j < i ==> a[at + j] == s[j]
      invariant forall j :: 0 <= j < a.Length && !(at <= j < at + i) ==> a[j] == old(a[j])
    {
      a[at + i] := s[i];
    }
  }
}
