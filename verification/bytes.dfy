/**
 * Unsigned big-endian arithmetic over byte strings, as math/big does it for
 * `SetBytes` (bytes to integer) and `FillBytes` (integer to a fixed-width
 * buffer). Addresses are raw network-order byte strings: 4 bytes for IPv4,
 * 16 bytes for IPv6.
 */
module Bytes {

  type Byte = b: int | 0 <= b < 256
  type Uint32 = x: int | 0 <= x < 0x1_0000_0000
  type Address = seq<Byte>

  const IPv4Len: nat := 4
  const IPv6Len: nat := 16

  function Pow2(n: nat): (r: nat)
    ensures r >= 1
  {
    if n == 0 then 1 else 2 * Pow2(n - 1)
  }

  lemma {:induction false} Pow2Add(a: nat, b: nat)
    ensures Pow2(a + b) == Pow2(a) * Pow2(b)
  {
    if a > 0 {
      Pow2Add(a - 1, b);
    }
  }

  lemma Pow2Byte(n: nat)
    ensures Pow2(8 * n + 8) == Pow2(8 * n) * 256
  {
    Pow2Add(8 * n, 8);
    assert Pow2(8) == 256;
  }

  /** The unsigned integer a big-endian byte string denotes (big.Int.SetBytes). */
  function Value(s: seq<Byte>): (r: nat)
    ensures r < Pow2(8 * |s|)
  {
    if s == [] then 0
    else
      var prefix := s[..|s| - 1];
      Pow2Byte(|prefix|);
      Value(prefix) * 256 + s[|s| - 1]
  }

  /**
   * Writes `v` into exactly `n` big-endian bytes (big.Int.FillBytes on a
   * buffer of length n). math/big panics when `v` does not fit; the
   * precondition states that case away.
   */
  function FillBytes(v: nat, n: nat): (r: seq<Byte>)
    requires v < Pow2(8 * n)
    ensures |r| == n && Value(r) == v
  {
    if n == 0 then []
    else
      Pow2Byte(n - 1);
      var r := FillBytes(v / 256, n - 1) + [v % 256];
      assert r[..|r| - 1] == FillBytes(v / 256, n - 1);
      r
  }

  /** The value of a concatenation: the high part shifted past the low part. */
  lemma {:induction false} ValueAppend(s: seq<Byte>, t: seq<Byte>)
    ensures Value(s + t) == Value(s) * Pow2(8 * |t|) + Value(t)
  {
    if t == [] {
      assert s + t == s;
    } else {
      var n := |t| - 1;
      ValueAppend(s, t[..n]);
      assert (s + t)[..|s + t| - 1] == s + t[..n];
      Pow2Byte(n);
      ShiftByte(Value(s), Pow2(8 * n), Value(t[..n]), t[n]);
    }
  }

  lemma ShiftByte(a: int, p: int, b: int, c: int)
    ensures (a * p + b) * 256 + c == a * (p * 256) + (b * 256 + c)
  {
  }

  /** Two byte strings of the same width with the same value are equal. */
  lemma {:induction false} ValueInjective(a: seq<Byte>, b: seq<Byte>)
    requires |a| == |b| && Value(a) == Value(b)
    ensures a == b
  {
    if a != [] {
      var n := |a| - 1;
      assert a[n] == Value(a) % 256 && Value(a[..n]) == Value(a) / 256;
      assert b[n] == Value(b) % 256 && Value(b[..n]) == Value(b) / 256;
      ValueInjective(a[..n], b[..n]);
      assert a == a[..n] + [a[n]] && b == b[..n] + [b[n]];
    }
  }

  /** The all-zero address of the given width (Go's make([]byte, n)). */
  function Zeros(n: nat): (r: seq<Byte>)
    ensures |r| == n
  {
    seq(n, _ => 0)
  }
}
