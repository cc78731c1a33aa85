/** Bytes, and numbers as big-endian bytes. */
module Bytes {
  type Byte = b: int | 0 <= b < 256

  function Pow256(n: nat): nat {
    if n == 0 then 1 else 256 * Pow256(n - 1)
  }

  /** The low `n` bytes of a number, most significant first. */
  function BigEndian(v: nat, n: nat): (bytes: seq<Byte>)
    ensures |bytes| == n
  {
    if n == 0 then [] else BigEndian(v / 256, n - 1) + [v % 256]
  }

  function ReadBigEndian(bytes: seq<Byte>): nat {
    if bytes == [] then 0 else ReadBigEndian(bytes[..|bytes| - 1]) * 256 + bytes[|bytes| - 1]
  }

  lemma {:induction false} FieldBelow(bytes: seq<Byte>)
    ensures ReadBigEndian(bytes) < Pow256(|bytes|)
  {
    if bytes != [] { FieldBelow(bytes[..|bytes| - 1]); }
  }

  /** The first byte counts for most. */
  lemma {:induction false} FirstByteWeighsMost(bytes: seq<Byte>)
    requires bytes != []
    ensures ReadBigEndian(bytes) == bytes[0] as int * Pow256(|bytes| - 1) + ReadBigEndian(bytes[1..])
  {
    var last := |bytes| - 1;
    if last > 0 {
      var first := bytes[0] as int;
      FirstByteWeighsMost(bytes[..last]);
      assert bytes[..last][1..] == bytes[1..][..last - 1];
      OneMoreByte(first, Pow256(last - 1));
    }
  }

  lemma OneMoreByte(first: nat, weight: nat)
    ensures first * weight * 256 == first * (256 * weight)
  {
  }

  /** Bytes read and written again are the same bytes. */
  lemma {:induction false} FieldOfValue(bytes: seq<Byte>)
    ensures BigEndian(ReadBigEndian(bytes), |bytes|) == bytes
  {
    if bytes != [] { FieldOfValue(bytes[..|bytes| - 1]); }
  }

  /** A number that fits is read back from its bytes. */
  lemma {:induction false} FieldRoundTrip(v: nat, n: nat)
    requires v < Pow256(n)
    ensures ReadBigEndian(BigEndian(v, n)) == v
  {
    if n > 0 {
      FieldRoundTrip(v / 256, n - 1);
      assert BigEndian(v, n)[..n - 1] == BigEndian(v / 256, n - 1);
    }
  }

  lemma SubSlice(s: seq<Byte>, a: nat, b: nat, i: nat, n: nat)
    requires a + i + n <= b <= |s|
    ensures s[a..b][i..i + n] == s[a + i..a + i + n]
  {
    var inner, direct := s[a..b][i..i + n], s[a + i..a + i + n];
    assert forall k :: 0 <= k < n ==> inner[k] == direct[k];
  }

  /** A field overwritten in place. */
  function WithField(data: seq<Byte>, index: nat, field: seq<Byte>): (r: seq<Byte>)
    requires index + |field| <= |data|
    ensures |r| == |data| && r[index..index + |field|] == field
    ensures forall i :: 0 <= i < |data| && !(index <= i < index + |field|) ==> r[i] == data[i]
  {
    data[..index] + field + data[index + |field|..]
  }

  /** A field's write, and the bytes it leaves alone. */
  lemma WithFieldElsewhere(data: seq<Byte>, index: nat, field: seq<Byte>, at: nat, n: nat)
    requires index + |field| <= |data| && at + n <= |data| && (at + n <= index || at >= index + |field|)
    ensures WithField(data, index, field)[at..at + n] == data[at..at + n]
  {
    var r := WithField(data, index, field);
    assert forall i :: at <= i < at + n ==> r[i] == data[i];
  }

  /** Writing what is there already changes nothing. */
  lemma WithFieldSame(data: seq<Byte>, index: nat, field: seq<Byte>)
    requires index + |field| <= |data| && data[index..index + |field|] == field
    ensures WithField(data, index, field) == data
  {
  }

  function Zeros(n: nat): (z: seq<Byte>)
    ensures |z| == n && forall i :: 0 <= i < n ==> z[i] == 0
  {
    if n == 0 then [] else Zeros(n - 1) + [0]
  }
}
