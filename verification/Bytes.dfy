/** Octets, numbers in octets, and the status codes shared by the certificate modules. */
module Bytes {

  type byte = x: int | 0 <= x < 256

  const TWO32: nat := 0x1_0000_0000

  function Pow256(n: nat): (r: nat)
    ensures r >= 1
  {
    if n == 0 then 1 else 256 * Pow256(n - 1)
  }

  /** The number that a big-endian string stands for. */
  function Unsigned(s: seq<byte>): (r: nat)
  {
    if s == [] then 0 else 256 * Unsigned(s[..|s| - 1]) + s[|s| - 1]
  }

  /** The big-endian string of n in exactly k octets, or its low octets if n needs more. */
  function BigEndian(n: nat, k: nat): (r: seq<byte>)
    ensures |r| == k
  {
    if k == 0 then [] else BigEndian(n / 256, k - 1) + [n % 256]
  }

  /** The number that a big-endian two's-complement string stands for. */
  function Signed(s: seq<byte>): int
    requires s != []
  {
    if |s| == 1 then (if s[0] < 128 then s[0] else s[0] - 256)
    else 256 * Signed(s[..|s| - 1]) + s[|s| - 1]
  }

  function Overwrite(s: seq<byte>, at: nat, t: seq<byte>): (r: seq<byte>)
    requires at + |t| <= |s|
    ensures |r| == |s|
  {
    s[..at] + t + s[at + |t|..]
  }

  function Zeros(n: nat): (r: seq<byte>)
    ensures |r| == n
  {
    seq(n, _ => 0)
  }

  lemma OverwriteTwice(s: seq<byte>, at: nat, a: seq<byte>, b: seq<byte>)
    requires at + |a| + |b| <= |s|
    ensures Overwrite(Overwrite(s, at, a), at + |a|, b) == Overwrite(s, at, a + b)
  {}

  /** memcpy of some octets into a buffer. */
  method Put(buffer: array<byte>, at: nat, octets: seq<byte>)
    requires at + |octets| <= buffer.Length
    modifies buffer
    ensures buffer[..] == Overwrite(old(buffer[..]), at, octets)
  {
    forall i | 0 <= i < |octets| {
      buffer[at + i] := octets[i];
    }
  }

  /** memcpy behind some octets already put. */
  method PutNext(buffer: array<byte>, at: nat, octets: seq<byte>,
                 ghost was: seq<byte>, ghost start: nat, ghost done: seq<byte>)
    requires at == start + |done| && at + |octets| <= buffer.Length == |was|
    requires buffer[..] == Overwrite(was, start, done)
    modifies buffer
    ensures buffer[..] == Overwrite(was, start, done + octets)
  {
    Put(buffer, at, octets);
    OverwriteTwice(was, start, done, octets);
  }

  lemma {:induction false} UnsignedBound(s: seq<byte>)
    ensures Unsigned(s) < Pow256(|s|)
  {
    if s != [] { UnsignedBound(s[..|s| - 1]); }
  }

  lemma {:induction false} UnsignedOfBigEndian(n: nat, k: nat)
    requires n < Pow256(k)
    ensures Unsigned(BigEndian(n, k)) == n
  {
    if k > 0 {
      assert BigEndian(n, k)[..k - 1] == BigEndian(n / 256, k - 1);
      UnsignedOfBigEndian(n / 256, k - 1);
    }
  }

  lemma {:induction false} BigEndianOfUnsigned(s: seq<byte>)
    ensures BigEndian(Unsigned(s), |s|) == s
  {
    if s != [] {
      var t := s[..|s| - 1];
      BigEndianOfUnsigned(t);
      assert Unsigned(s) / 256 == Unsigned(t) && Unsigned(s) % 256 == s[|s| - 1];
      assert s == t + [s[|s| - 1]];
    }
  }

  lemma {:induction false} UnsignedLeadingZero(s: seq<byte>)
    ensures Unsigned([0] + s) == Unsigned(s)
  {
    if s != [] {
      assert ([0] + s)[..|s|] == [0] + s[..|s| - 1];
      UnsignedLeadingZero(s[..|s| - 1]);
    }
  }

  /** Strings of up to four octets, as sums. */
  lemma UnsignedForms(a: byte, b: byte, c: byte, d: byte)
    ensures Unsigned([a]) == a && Unsigned([a, b]) == 0x100 * a + b
    ensures Unsigned([a, b, c]) == 0x1_0000 * a + 0x100 * b + c
    ensures Unsigned([a, b, c, d]) == 0x100_0000 * a + 0x1_0000 * b + 0x100 * c + d
  {
    assert [a][..0] == [] && [a, b][..1] == [a] && [a, b, c][..2] == [a, b] && [a, b, c, d][..3] == [a, b, c];
  }

  /** Two's complement is the unsigned reading, less 256^k for k octets that begin with a set bit. */
  lemma {:induction false} SignedExactly(s: seq<byte>)
    requires s != []
    ensures Signed(s) == Unsigned(s) - if s[0] >= 128 then Pow256(|s|) else 0
  {
    if |s| > 1 { SignedExactly(s[..|s| - 1]); } else { assert s[..0] == []; }
  }

  /** Two's complement agrees with the unsigned reading when the first bit is clear. */
  lemma {:induction false} SignedNonNegative(s: seq<byte>)
    requires s != [] && s[0] < 128
    ensures Signed(s) == Unsigned(s)
  {
    if |s| > 1 { SignedNonNegative(s[..|s| - 1]); }
  }
}
