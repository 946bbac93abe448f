/** Octet strings, the big-endian integers both file and wire formats use, and
    the copy primitive the block builders are written with. */
module Bytes {

  datatype Option<+T> = None | Some(value: T)

  type byte = x: int | 0 <= x < 256

  type Octets = seq<byte>

  /** `n` times `x`. */
  function Repeated<T>(x: T, n: nat): (r: seq<T>)
    ensures |r| == n && forall i :: 0 <= i < n ==> r[i] == x
  {
    seq(n, i => x)
  }

  /** `f` of each element. */
  function Each<X, Y>(s: seq<X>, f: X -> Y): (r: seq<Y>)
    ensures |r| == |s| && forall i :: 0 <= i < |s| ==> r[i] == f(s[i])
  {
    seq(|s|, i requires 0 <= i < |s| => f(s[i]))
  }

  /** A literal of seven-bit characters as octets. */
  function Ascii(s: string): (r: Octets)
    requires forall i :: 0 <= i < |s| ==> s[i] as int < 0x80
    ensures |r| == |s| && forall i :: 0 <= i < |s| ==> r[i] == s[i] as int
  {
    seq(|s|, i requires 0 <= i < |s| => s[i] as int)
  }

  const TWO63 := 0x8000_0000_0000_0000
  const TWO64 := 0x1_0000_0000_0000_0000

  /** `v` as `n` big-endian octets, truncated to the low `n` of them. */
  function BigEndian(v: nat, n: nat): (r: Octets)
    ensures |r| == n
  {
    if n == 0 then [] else BigEndian(v / 256, n - 1) + [v % 256]
  }

  function FromBigEndian(s: Octets): nat {
    if s == [] then 0 else 256 * FromBigEndian(s[..|s| - 1]) + s[|s| - 1]
  }

  function Pow256(n: nat): nat {
    if n == 0 then 1 else 256 * Pow256(n - 1)
  }

  lemma {:induction false} BigEndianRoundTrip(v: nat, n: nat)
    requires v < Pow256(n)
    ensures FromBigEndian(BigEndian(v, n)) == v
  {
    if n > 0 {
      BigEndianRoundTrip(v / 256, n - 1);
      assert BigEndian(v, n)[..n - 1] == BigEndian(v / 256, n - 1);
    }
  }

  lemma {:induction false} FromBigEndianRoundTrip(s: Octets)
    ensures FromBigEndian(s) < Pow256(|s|)
    ensures BigEndian(FromBigEndian(s), |s|) == s
  {
    if s != [] {
      FromBigEndianRoundTrip(s[..|s| - 1]);
    }
  }

  lemma Pow256Eight()
    ensures Pow256(8) == TWO64
  {
    assert Pow256(4) == 0x1_0000_0000;
  }

  /** Two octets, most significant first; a larger value loses its high bits. */
  function U16(v: nat): (r: Octets)
    ensures |r| == 2
  {
    [v / 256 % 256, v % 256]
  }

  /** A signed 64-bit value in two's complement, most significant octet first. */
  function I64(v: int): (r: Octets)
    ensures |r| == 8
  {
    BigEndian(v % TWO64, 8)
  }

  function FromI64(s: Octets): int
    requires |s| == 8
  {
    var u := FromBigEndian(s);
    if u >= TWO63 then u - TWO64 else u
  }

  predicate IsI64(v: int) { -TWO63 <= v < TWO63 }

  lemma I64RoundTrip(v: int)
    requires IsI64(v)
    ensures FromI64(I64(v)) == v
  {
    Pow256Eight();
    BigEndianRoundTrip(v % TWO64, 8);
  }

  lemma FromI64RoundTrip(s: Octets)
    requires |s| == 8
    ensures IsI64(FromI64(s)) && I64(FromI64(s)) == s
  {
    Pow256Eight();
    FromBigEndianRoundTrip(s);
    var u := FromBigEndian(s);
    assert FromI64(s) % TWO64 == u;
  }

  /** The store loop: octet 7 down to octet 0, shifting right by eight bits. */
  method PutI64(p: array<byte>, off: nat, v: int)
    requires off + 8 <= p.Length
    modifies p
    ensures p[..] == old(p[..off]) + I64(v) + old(p[off + 8..])
  {
    var u := v % TWO64;
    var i := 8;
    while i > 0
      invariant 0 <= i <= 8 && u >= 0
      invariant p[..off] == old(p[..off]) && p[off + 8..] == old(p[off + 8..])
      invariant BigEndian(u, i) + p[off + i..off + 8] == I64(v)
    {
      i := i - 1;
      ghost var tail := p[off + i + 1..off + 8];
      p[off + i] := u % 256;
      assert p[off + i..off + 8] == [u % 256] + tail;
      u := u / 256;
    }
    assert p[..] == p[..off] + p[off..off + 8] + p[off + 8..];
  }

  /** The load loop: octet 0 up to octet 7, shifting left by eight bits. */
  method GetI64(s: Octets, off: nat) returns (v: int)
    requires off + 8 <= |s|
    ensures v == FromI64(s[off..off + 8])
  {
    var u := 0;
    var i := 0;
    while i < 8
      invariant 0 <= i <= 8
      invariant u == FromBigEndian(s[off..off + i])
    {
      assert s[off..off + i + 1][..i] == s[off..off + i];
      u := 256 * u + s[off + i];
      i := i + 1;
    }
    v := if u >= TWO63 then u - TWO64 else u;
  }

  /** `memcpy` of `src` to offset `off` of a caller's buffer. */
  method CopyInto<T>(p: array<T>, off: nat, src: seq<T>)
    requires off + |src| <= p.Length
    modifies p
    ensures p[..] == old(p[..off]) + src + old(p[off + |src|..])
  {
    forall k | 0 <= k < |src| {
      p[off + k] := src[k];
    }
    assert p[off..off + |src|] == src;
    assert p[..] == p[..off] + p[off..off + |src|] + p[off + |src|..];
  }

  /** A copy that goes on from what was written before it. */
  method Put(p: array<byte>, off: nat, src: Octets) returns (end: nat)
    requires off + |src| <= p.Length
    modifies p
    ensures end == off + |src| && p[..end] == old(p[..off]) + src && p[end..] == old(p[end..])
  {
    CopyInto(p, off, src);
    end := off + |src|;
  }
}
