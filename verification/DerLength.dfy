/**
 DER lengths (atcacert_der.c; sections 8.1.3 and 10.1 of X.690): encoding, decoding, and adjusting a
 length field in place.
 */
module DerLength {
  import opened Arithmetic
  import opened Bytes
  import opened Status

  // ----- Specification -----

  /** The fewest octets that hold n. */
  function Octets(n: nat): (k: nat) {
    if n == 0 then 0 else 1 + Octets(n / 256)
  }

  /** A length in the shortest form. */
  function EncodeLength(n: nat): (r: seq<byte>)
    requires n < TWO32
    ensures 1 <= |r| <= 5
  {
    OctetsOf32(n);
    if n < 0x80 then [n] else [0x80 + Octets(n)] + BigEndian(n, Octets(n))
  }

  datatype Length = Length(value: nat, size: nat)

  function DecodeLength(s: seq<byte>): (r: Result<Length>)
    ensures r.Err? ==> r.status == DecodingError
    ensures r.Ok? ==> 1 <= r.value.size <= 5 && r.value.size <= |s| && r.value.value < TWO32
  {
    if |s| < 1 then Err(DecodingError)
    else if s[0] >= 0x80 then
      var k := s[0] - 0x80;
      if |s| < k + 1 || k == 0 || k > 4 then Err(DecodingError)
      else
        UnsignedBound(s[1..k + 1]);
        PowersOf256();
        PowMonotone(k, 4);
        Ok(Length(Unsigned(s[1..k + 1]), k + 1))
    else Ok(Length(s[0], 1))
  }

  lemma PowersOf256()
    ensures Pow256(1) == 0x100 && Pow256(2) == 0x1_0000 && Pow256(3) == 0x100_0000 && Pow256(4) == TWO32
  {}

  lemma {:induction false} PowMonotone(j: nat, k: nat)
    requires j <= k
    ensures Pow256(j) <= Pow256(k)
  {
    if j < k { PowMonotone(j, k - 1); }
  }

  lemma {:induction false} OctetsFit(n: nat)
    ensures n < Pow256(Octets(n))
    ensures n > 0 ==> Octets(n) > 0 && Pow256(Octets(n) - 1) <= n
  {
    if n > 0 { OctetsFit(n / 256); }
  }

  lemma {:induction false} OctetsFewest(n: nat, k: nat)
    requires n < Pow256(k)
    ensures Octets(n) <= k
  {
    if n > 0 {
      assert k > 0;
      OctetsFewest(n / 256, k - 1);
    }
  }

  lemma OctetsOf32(n: nat)
    requires n < TWO32
    ensures Octets(n) <= 4 && (n > 0 ==> Octets(n) >= 1)
  {
    PowersOf256();
    OctetsFewest(n, 4);
  }

  // ----- Laws -----

  /** Decoding an encoded length, whatever follows it, gives the length and the size of its field. */
  lemma LengthRoundTrip(n: nat, suffix: seq<byte>)
    requires n < TWO32
    ensures DecodeLength(EncodeLength(n) + suffix) == Ok(Length(n, |EncodeLength(n)|))
  {
    if n >= 0x80 {
      var k := Octets(n);
      OctetsOf32(n);
      OctetsFit(n);
      UnsignedOfBigEndian(n, k);
      assert (EncodeLength(n) + suffix)[1..k + 1] == BigEndian(n, k);
    }
  }

  /** No other field that decodes to the length is as short: the encoding is the shortest form, and the only one. */
  lemma LengthShortest(s: seq<byte>)
    requires DecodeLength(s).Ok?
    ensures var d := DecodeLength(s).value; var e := EncodeLength(d.value);
            |e| <= d.size && (|e| == d.size <==> s[..d.size] == e)
  {
    var d := DecodeLength(s).value;
    if s[0] >= 0x80 {
      var k := s[0] - 0x80;
      var t := s[1..k + 1];
      UnsignedBound(t);
      OctetsFewest(d.value, k);
      BigEndianOfUnsigned(t);
      assert s[..k + 1] == [s[0]] + t;
      if d.value >= 0x80 && Octets(d.value) == k {
        assert EncodeLength(d.value) == [0x80 + k] + BigEndian(Unsigned(t), k);
      }
    } else {
      assert s[..1] == [s[0]];
    }
  }

  /** The five forms of a length below 2^32. */
  lemma LengthForms(n: nat)
    requires n < TWO32
    ensures n < 0x80 ==> EncodeLength(n) == [n]
    ensures 0x80 <= n < 0x100 ==> EncodeLength(n) == [0x81, n]
    ensures 0x100 <= n < 0x1_0000 ==> EncodeLength(n) == [0x82, n / 0x100, n % 0x100]
    ensures 0x1_0000 <= n < 0x100_0000 ==>
              EncodeLength(n) == [0x83, n / 0x1_0000, n / 0x100 % 0x100, n % 0x100]
    ensures 0x100_0000 <= n ==>
              EncodeLength(n) == [0x84, n / 0x100_0000, n / 0x1_0000 % 0x100, n / 0x100 % 0x100, n % 0x100]
  {
    hide Octets, BigEndian;
    PowersOf256();
    if n >= 0x80 {
      var k := if n < 0x100 then 1 else if n < 0x1_0000 then 2 else if n < 0x100_0000 then 3 else 4;
      OctetsAre(n, k);
      forall i | 0 <= i < k ensures BigEndian(n, k)[i] == n / Pow256(k - 1 - i) % 256 {
        BigEndianAt(n, k, i);
      }
      assert Pow256(0) == 1;
      OneTo(BigEndian(n, k), k);
    }
  }

  lemma OneTo(s: seq<byte>, k: nat)
    requires |s| == k && 1 <= k <= 4
    ensures s == if k == 1 then [s[0]] else if k == 2 then [s[0], s[1]]
                 else if k == 3 then [s[0], s[1], s[2]] else [s[0], s[1], s[2], s[3]]
  {}

  /** Exactly these fields are taken: one octet below 128, and one to four octets behind their number. */
  lemma LengthTaken(s: seq<byte>)
    ensures DecodeLength(s).Ok?
            <==> s != [] && (s[0] < 0x80 || (0x81 <= s[0] <= 0x84 && |s| > s[0] as int - 0x80))
    ensures DecodeLength(s).Ok? ==>
              DecodeLength(s).value
              == if s[0] < 0x80 then Length(s[0], 1)
                 else if s[0] == 0x81 then Length(s[1], 2)
                 else if s[0] == 0x82 then Length(0x100 * s[1] as int + s[2] as int, 3)
                 else if s[0] == 0x83 then Length(0x1_0000 * s[1] as int + 0x100 * s[2] as int + s[3] as int, 4)
                 else Length(0x100_0000 * s[1] as int + 0x1_0000 * s[2] as int + 0x100 * s[3] as int + s[4] as int, 5)
  {
    hide Unsigned;
    if DecodeLength(s).Ok? && s[0] >= 0x80 {
      var k := s[0] as int - 0x80;
      OneTo(s[1..k + 1], k);
      UnsignedForms(s[1], if k > 1 then s[2] else 0, if k > 2 then s[3] else 0, if k > 3 then s[4] else 0);
    }
  }

  /** What follows a field has no say in its length. */
  lemma LengthAlone(s: seq<byte>, suffix: seq<byte>)
    requires DecodeLength(s).Ok?
    ensures DecodeLength(s[..DecodeLength(s).value.size] + suffix) == DecodeLength(s)
  {
    var k := DecodeLength(s).value.size;
    assert (s[..k] + suffix)[1..k] == s[1..k];
  }

  // ----- Code -----

  /** The status and size with which the encoders answer: no buffer at all asks for the size only. */
  function Answer(buffer: array?<byte>, size: nat, needed: nat): Status {
    if buffer != null && size < needed then BufferTooSmall else Success
  }

  /** What just fits is written, and no buffer is too small when there is none. */
  lemma AnswerExactly(buffer: array?<byte>, size: nat, needed: nat)
    ensures Answer(buffer, size, needed) == Success <==> buffer == null || needed <= size
    ensures Answer(buffer, size, needed) != Success ==> Answer(buffer, size, needed) == BufferTooSmall
  {}

  /** The octet-writing loop of atcacert_der_enc_length: `exp` + 1 octets that end before `end`. */
  method WriteBigEndian(length: nat, der: array<byte>, end: nat, exp: nat)
    requires exp + 1 <= end <= der.Length
    modifies der
    ensures der[..] == Overwrite(old(der[..]), end - 1 - exp, BigEndian(length, exp + 1))
  {
    var e: int := exp;
    ghost var k := exp + 1;
    while e >= 0
      invariant -1 <= e < k
      invariant forall i :: 0 <= i < k - 1 - e ==> der[end - k + i] == BigEndian(length, k)[i]
      invariant forall i :: 0 <= i < der.Length && !(end - k <= i < end - 1 - e) ==> der[i] == old(der[i])
      decreases e
    {
      BigEndianAt(length, k, k - 1 - e);
      der[end - 1 - e] := length / Pow256(e) % 256;
      e := e - 1;
    }
  }

  /** The search loop of atcacert_der_enc_length: the place of the first octet that is not zero. */
  method FirstOctet(length: nat) returns (exp: nat)
    requires 0 < length < TWO32
    ensures exp <= 3 && exp + 1 == Octets(length)
  {
    PowersOf256();
    exp := 3;
    while length / Pow256(exp) == 0
      invariant exp <= 3 && length < Pow256(exp + 1)
      decreases exp
    {
      exp := exp - 1;
    }
    OctetsAre(length, exp + 1);
  }

  /** atcacert_der_enc_length, into `size` octets of the buffer from `at` on. */
  method EncLength(length: nat, derLength: array?<byte>, at: nat, size: nat)
    returns (status: Status, derLengthSize: nat)
    requires length < TWO32 && (derLength != null ==> at + size <= derLength.Length)
    modifies if derLength == null then {} else {derLength}
    ensures derLengthSize == |EncodeLength(length)| && status == Answer(derLength, size, derLengthSize)
    ensures derLength != null ==>
              derLength[..] == if status == Success then Overwrite(old(derLength[..]), at, EncodeLength(length))
                               else old(derLength[..])
  {
    var exp := 0;
    derLengthSize := 1;
    if length >= 0x80 {
      exp := FirstOctet(length);
      derLengthSize := 2 + exp;
    }
    if derLength != null && size < derLengthSize {
      return BufferTooSmall, derLengthSize;
    }
    status := Success;
    if derLength != null {
      PutLength(length, derLength, at, exp);
    }
  }

  /** The writing half of atcacert_der_enc_length. */
  method PutLength(length: nat, der: array<byte>, at: nat, exp: nat)
    requires length < TWO32 && at + |EncodeLength(length)| <= der.Length
    requires if length < 0x80 then exp == 0 else exp <= 3 && exp + 1 == Octets(length)
    modifies der
    ensures der[..] == Overwrite(old(der[..]), at, EncodeLength(length))
  {
    if length < 0x80 {
      WriteBigEndian(length, der, at + 1, 0);
      assert BigEndian(length, 1) == [length];
    } else {
      WriteBigEndian(length, der, at + 2 + exp, exp);
      ghost var mid := der[..];
      var first: byte := 0x80 + (exp + 1);
      der[at] := first;
      assert der[..] == mid[at := first];
      OverwriteBefore(old(der[..]), at, first, BigEndian(length, exp + 1));
    }
  }

  lemma OverwriteBefore(s: seq<byte>, at: nat, b: byte, t: seq<byte>)
    requires at + 1 + |t| <= |s|
    ensures Overwrite(s, at + 1, t)[at := b] == Overwrite(s, at, [b] + t)
  {}

  lemma OctetsAre(n: nat, k: nat)
    requires k > 0 && Pow256(k - 1) <= n < Pow256(k)
    ensures Octets(n) == k
  {
    OctetsFewest(n, k);
    OctetsFit(n);
    if Octets(n) < k { PowMonotone(Octets(n), k - 1); }
  }

  lemma {:induction false} BigEndianAt(n: nat, k: nat, i: nat)
    requires i < k
    ensures BigEndian(n, k)[i] == n / Pow256(k - 1 - i) % 256
  {
    if i < k - 1 {
      BigEndianAt(n / 256, k - 1, i);
      DivTwice(n, 256, Pow256(k - 2 - i));
    }
  }

  /** atcacert_der_dec_length */
  method DecLength(derLength: seq<byte>) returns (status: Status, derLengthSize: nat, length: nat)
    ensures match DecodeLength(derLength)
            case Ok(d) => status == Success && derLengthSize == d.size && length == d.value
            case Err(e) => status == e
  {
    derLengthSize, length := |derLength|, 0;
    if |derLength| < 1 {
      return DecodingError, derLengthSize, length;
    }
    if derLength[0] >= 0x80 {
      var numBytes := derLength[0] - 0x80;
      if |derLength| < numBytes + 1 || numBytes == 0 || numBytes > 4 {
        return DecodingError, derLengthSize, length;
      }
      var i := 1;
      while i <= numBytes
        invariant 1 <= i <= numBytes + 1
        invariant length == Unsigned(derLength[1..i]) * Pow256(numBytes + 1 - i)
      {
        UnsignedGrows(derLength, i);
        Scale(Unsigned(derLength[1..i]), derLength[i], Pow256(numBytes - i));
        length := length + derLength[i] * Pow256(numBytes - i);
        i := i + 1;
      }
      derLengthSize := numBytes + 1;
    } else {
      length, derLengthSize := derLength[0], 1;
    }
    status := Success;
  }

  lemma UnsignedGrows(s: seq<byte>, i: nat)
    requires 1 <= i < |s|
    ensures Unsigned(s[1..i + 1]) == 256 * Unsigned(s[1..i]) + s[i]
  {
    var d := s[1..i + 1];
    assert d[..i - 1] == s[1..i] && d[i - 1] == s[i];
  }

  lemma Scale(u: nat, b: nat, p: nat)
    ensures u * (256 * p) + b * p == (256 * u + b) * p
  {}

  /** What atcacert_der_adjust_length makes of a length field and the octets after it. */
  function AdjustedLength(s: seq<byte>, delta: int): (r: Result<Length>)
    ensures r.Err? ==> r.status == DecodingError || r.status == Error || r.status == BadCert
  {
    match DecodeLength(s)
    case Err(e) => Err(e)
    case Ok(d) =>
      if delta < 0 && -delta > d.value then Err(Error)
      else
        var n := (d.value + delta) % TWO32;
        if d.size != |EncodeLength(n)| then Err(BadCert) else Ok(Length(n, d.size))
  }

  /** atcacert_der_adjust_length, on the `size` octets of the buffer from `at` on. */
  method AdjustLength(der: array<byte>, at: nat, size: nat, delta: int)
    returns (status: Status, derLengthSize: nat, newLength: nat)
    requires at + size <= der.Length
    modifies der
    ensures match AdjustedLength(old(der[at..at + size]), delta)
            case Ok(d) => status == Success && derLengthSize == d.size && newLength == d.value
                          && der[..] == Overwrite(old(der[..]), at, EncodeLength(d.value))
            case Err(e) => status == e && der[..] == old(der[..])
  {
    var oldLen: nat;
    newLength := 0;
    status, derLengthSize, oldLen := DecLength(der[at..at + size]);
    if status != Success {
      return;
    }
    if delta < 0 && -delta > oldLen {
      return Error, derLengthSize, newLength;
    }
    var newLen := (oldLen + delta) % TWO32;
    newLength := newLen;
    var newDerLength := new byte[5](_ => 0);
    var newDerLenSize: nat;
    status, newDerLenSize := EncLength(newLen, newDerLength, 0, 5);
    if derLengthSize != newDerLenSize {
      return BadCert, derLengthSize, newLength;
    }
    assert newDerLength[..newDerLenSize] == EncodeLength(newLen);
    Put(der, at, newDerLength[..newDerLenSize]);
  }

  /** A field is adjusted exactly when it decodes, nothing below zero is asked for, and the new length in 32 bits has
      a field of the old size. */
  lemma AdjustedExactly(s: seq<byte>, delta: int)
    ensures var r := AdjustedLength(s, delta);
            match DecodeLength(s)
            case Err(e) => r == Err(e)
            case Ok(d) =>
              var n := (d.value + delta) % 0x1_0000_0000;
              r == if d.value + delta < 0 then Err(Error)
                   else if |EncodeLength(n)| == d.size then Ok(Length(n, d.size)) else Err(BadCert)
  {}

  /** An adjusted field has its old size and decodes, whatever follows, to the old length plus the change
      exactly when that sum fits 32 bits. */
  lemma AdjustedDecodes(s: seq<byte>, delta: int, suffix: seq<byte>)
    requires AdjustedLength(s, delta).Ok?
    ensures var e, d := EncodeLength(AdjustedLength(s, delta).value.value), DecodeLength(s).value;
            && |e| == d.size == AdjustedLength(s, delta).value.size
            && DecodeLength(e + suffix).Ok?
            && (DecodeLength(e + suffix).value == Length(d.value + delta, d.size) <==> d.value + delta < TWO32)
  {
    var n := AdjustedLength(s, delta).value.value;
    LengthRoundTrip(n, suffix);
  }
}
