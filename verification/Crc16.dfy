/**
 The bit-serial CRC-16 of the crypto-device command layer (atca_command.c): polynomial
 x^16 + x^15 + x^2 + 1, register initially zero, every byte fed least significant bit first.

 The register is specified on bit sequences (`Run`); the nested loops of `AtCrc` are proved
 against it, and the error-detection theorems are proved about it for messages of any length.
 */
module Crc16 {
  import opened Arithmetic
  import opened Bytes

  type Bits = seq<bool>

  /** A 16-bit word, most significant bit first. */
  type Word = w: seq<bool> | |w| == 16 witness seq(16, _ => false)

  const ATCA_CRC_SIZE: nat := 2

  /** 0x8005 */
  const POLYNOM: Word := [true, false, false, false, false, false, false, false,
                          false, false, false, false, false, true, false, true]

  function Zeros(n: nat): (r: Bits)
    ensures |r| == n && forall i :: 0 <= i < n ==> !r[i]
  {
    seq(n, _ => false)
  }

  function Xor(a: Bits, b: Bits): (r: Bits)
    requires |a| == |b|
    ensures |r| == |a| && forall i :: 0 <= i < |a| ==> r[i] == (a[i] != b[i])
  {
    seq(|a|, i requires 0 <= i < |a| => a[i] != b[i])
  }

  function ShiftLeft(c: Word): Word { c[1..] + [false] }

  // ----- The register -----

  /** One turn of the inner loop: shift, then subtract the polynomial if the bits differ. */
  function Step(c: Word, bit: bool): Word {
    if bit != c[0] then Xor(ShiftLeft(c), POLYNOM) else ShiftLeft(c)
  }

  function Run(c: Word, bits: Bits): Word
    decreases |bits|
  {
    if bits == [] then c else Run(Step(c, bits[0]), bits[1..])
  }

  function Crc(bits: Bits): Word { Run(Zeros(16), bits) }

  /** The n lowest bits of b, least significant first: the order the shift register visits them. */
  function LowBits(b: nat, n: nat): (r: Bits)
    ensures |r| == n
  {
    if n == 0 then [] else [b % 2 == 1] + LowBits(b / 2, n - 1)
  }

  function ByteBits(b: byte): (r: Bits)
    ensures |r| == 8
  {
    LowBits(b, 8)
  }

  function Pow2(n: nat): (r: nat)
    ensures r >= 1
  {
    if n == 0 then 1 else 2 * Pow2(n - 1)
  }

  /** The number whose bits, least significant first, are given. */
  function Value(bits: Bits): (r: nat)
    ensures r < Pow2(|bits|)
  {
    if bits == [] then 0 else (if bits[0] then 1 else 0) + 2 * Value(bits[1..])
  }

  lemma {:induction false} LowBitsOfValue(bits: Bits)
    ensures LowBits(Value(bits), |bits|) == bits
  {
    if bits != [] {
      LowBitsOfValue(bits[1..]);
      assert Value(bits) / 2 == Value(bits[1..]);
    }
  }

  lemma {:induction false} LowBitsAt(b: nat, n: nat, k: nat)
    requires k < n
    ensures LowBits(b, n)[k] == (b / Pow2(k) % 2 == 1)
  {
    if k > 0 {
      var p := Pow2(k - 1);
      LowBitsAt(b / 2, n - 1, k - 1);
      assert LowBits(b, n)[k] == LowBits(b / 2, n - 1)[k - 1];
      DivTwice(b, 2, p);
      assert Pow2(k) == 2 * p;
    }
  }

  function MessageBits(data: seq<byte>): (r: Bits)
    ensures |r| == 8 * |data|
  {
    if data == [] then [] else MessageBits(data[..|data| - 1]) + ByteBits(data[|data| - 1])
  }

  lemma {:induction false} RunAppend(c: Word, a: Bits, b: Bits)
    ensures Run(c, a + b) == Run(Run(c, a), b)
    decreases |a|
  {
    if a == [] {
      assert a + b == b;
    } else {
      assert (a + b)[0] == a[0] && (a + b)[1..] == a[1..] + b;
      RunAppend(Step(c, a[0]), a[1..], b);
    }
  }

  lemma RunTake(c: Word, bits: Bits, k: nat)
    requires k < |bits|
    ensures Run(c, bits[..k + 1]) == Step(Run(c, bits[..k]), bits[k])
  {
    assert bits[..k + 1] == bits[..k] + [bits[k]];
    RunAppend(c, bits[..k], [bits[k]]);
  }

  // ----- Linearity -----

  lemma StepLinear(c: Word, d: Word, x: bool, y: bool)
    ensures Step(Xor(c, d), x != y) == Xor(Step(c, x), Step(d, y))
  {}

  /** Feeding the xor of two messages to the xor of two registers is the xor of the runs. */
  lemma {:induction false} RunLinear(c: Word, d: Word, a: Bits, b: Bits)
    requires |a| == |b|
    ensures Run(Xor(c, d), Xor(a, b)) == Xor(Run(c, a), Run(d, b))
    decreases |a|
  {
    if a != [] {
      StepLinear(c, d, a[0], b[0]);
      assert Xor(a, b)[1..] == Xor(a[1..], b[1..]);
      RunLinear(Step(c, a[0]), Step(d, b[0]), a[1..], b[1..]);
    }
  }

  lemma CrcLinear(a: Bits, b: Bits)
    requires |a| == |b|
    ensures Crc(Xor(a, b)) == Xor(Crc(a), Crc(b))
  {
    RunLinear(Zeros(16), Zeros(16), a, b);
    assert Xor(Zeros(16), Zeros(16)) == Zeros(16);
  }

  // ----- Bursts: up to sixteen bits fit the register -----

  /** No step loses information: the polynomial is odd, so the lowest bit tells what was subtracted. */
  lemma StepInjective(c: Word, d: Word, bit: bool)
    requires Step(c, bit) == Step(d, bit)
    ensures c == d
  {
    assert Step(c, bit)[15] == (bit != c[0]) && Step(d, bit)[15] == (bit != d[0]);
    forall i | 1 <= i < 16
      ensures c[i] == d[i]
    {
      assert Step(c, bit)[i - 1] == (if bit != c[0] then c[i] != POLYNOM[i - 1] else c[i]);
      assert Step(d, bit)[i - 1] == (if bit != d[0] then d[i] != POLYNOM[i - 1] else d[i]);
    }
  }

  lemma {:induction false} RunInjective(c: Word, d: Word, bits: Bits)
    requires Run(c, bits) == Run(d, bits)
    ensures c == d
    decreases |bits|
  {
    if bits != [] {
      RunInjective(Step(c, bits[0]), Step(d, bits[0]), bits[1..]);
      StepInjective(c, d, bits[0]);
    }
  }

  /** Message bits laid into the register from the top down. */
  function Pack(bits: Bits): Word
    requires |bits| <= 16
  {
    bits + Zeros(16 - |bits|)
  }

  lemma StepPack(c: Word, bits: Bits)
    requires 1 <= |bits| <= 16
    ensures Step(Xor(c, Pack(bits)), false) == Xor(Step(c, bits[0]), Pack(bits[1..]))
  {}

  /** Feeding at most sixteen bits is xoring them into the register and feeding zeros. */
  lemma {:induction false} RunPack(c: Word, bits: Bits)
    requires |bits| <= 16
    ensures Run(c, bits) == Run(Xor(c, Pack(bits)), Zeros(|bits|))
    decreases |bits|
  {
    if bits == [] {
      assert Xor(c, Pack(bits)) == c;
    } else {
      RunPack(Step(c, bits[0]), bits[1..]);
      StepPack(c, bits);
      assert Zeros(|bits|)[1..] == Zeros(|bits| - 1);
    }
  }

  lemma XorPackDiffers(c: Word, v: Bits, w: Bits)
    requires |v| == |w| <= 16 && v != w
    ensures Xor(c, Pack(v)) != Xor(c, Pack(w))
  {
    var i :| 0 <= i < |v| && v[i] != w[i];
    assert Xor(c, Pack(v))[i] != Xor(c, Pack(w))[i];
  }

  /** Messages that differ only inside a window of at most sixteen bits have different CRCs. */
  lemma BurstDetected(before: Bits, v: Bits, w: Bits, after: Bits)
    requires |v| == |w| <= 16 && v != w
    ensures Crc(before + v + after) != Crc(before + w + after)
  {
    var c := Crc(before);
    RunAppend(Zeros(16), before + v, after);
    RunAppend(Zeros(16), before, v);
    RunAppend(Zeros(16), before + w, after);
    RunAppend(Zeros(16), before, w);
    RunPack(c, v);
    RunPack(c, w);
    XorPackDiffers(c, v, w);
    if Crc(before + v + after) == Crc(before + w + after) {
      RunInjective(Run(c, v), Run(c, w), after);
      RunInjective(Xor(c, Pack(v)), Xor(c, Pack(w)), Zeros(|v|));
    }
  }

  /** Feeding the register its own bits clears it. */
  lemma RunOwnBits(z: Word, c: Word)
    requires forall i :: 0 <= i < 16 ==> !z[i]
    ensures Run(c, c) == z
  {
    assert Pack(c) == c;
    RunPack(c, c);
    assert Xor(c, c) == z;
    RunZeros(z, 16);
  }

  lemma StepOfZero(z: Word)
    requires forall i :: 0 <= i < 16 ==> !z[i]
    ensures Step(z, true) == POLYNOM
  {}

  /** Adding a pattern that itself leaves the register clear goes unnoticed. */
  lemma AddVanishing(z: Word, before: Bits, w: Bits, g: Bits, after: Bits)
    requires (forall i :: 0 <= i < 16 ==> !z[i]) && |w| == |g| && Run(z, g) == z
    ensures Run(z, before + Xor(w, g) + after) == Run(z, before + w + after)
  {
    var c, v := Run(z, before), Xor(w, g);
    RunLinear(c, z, w, g);
    assert Xor(c, z) == c;
    assert Xor(Run(c, w), z) == Run(c, w);
    RunAppend(z, before + v, after);
    RunAppend(z, before, v);
    RunAppend(z, before + w, after);
    RunAppend(z, before, w);
  }

  /** Seventeen bits are one too many: adding the generator g inside a message changes nothing. */
  lemma WindowIsTight(before: Bits, w: Bits, g: Bits, after: Bits)
    requires |w| == |g| == 17 && g[0] && g[1..] == POLYNOM
    ensures Xor(w, g) != w && Crc(before + Xor(w, g) + after) == Crc(before + w + after)
  {
    var z: Word := Zeros(16);
    StepOfZero(z);
    RunOwnBits(z, g[1..]);
    assert Run(z, g) == Run(Step(z, g[0]), g[1..]);
    AddVanishing(z, before, w, g, after);
    assert Xor(w, g)[0] != w[0];
  }

  lemma {:induction false} RunZeros(z: Word, n: nat)
    requires forall i :: 0 <= i < 16 ==> !z[i]
    ensures Run(z, Zeros(n)) == z
  {
    if n > 0 {
      assert Zeros(n)[1..] == Zeros(n - 1);
      assert Step(z, false) == z;
      RunZeros(z, n - 1);
    }
  }

  // ----- Parity -----

  predicate ParityOf(bits: Bits) {
    bits != [] && (bits[0] != ParityOf(bits[1..]))
  }

  lemma {:induction false} ParityAppend(a: Bits, b: Bits)
    ensures ParityOf(a + b) == (ParityOf(a) != ParityOf(b))
  {
    if a == [] {
      assert a + b == b;
    } else {
      assert (a + b)[0] == a[0] && (a + b)[1..] == a[1..] + b;
      ParityAppend(a[1..], b);
    }
  }

  lemma {:induction false} ParityXor(a: Bits, b: Bits)
    requires |a| == |b|
    ensures ParityOf(Xor(a, b)) == (ParityOf(a) != ParityOf(b))
  {
    if a != [] {
      assert Xor(a, b)[1..] == Xor(a[1..], b[1..]);
      ParityXor(a[1..], b[1..]);
    }
  }

  lemma {:induction false} ParityZeros(n: nat)
    ensures !ParityOf(Zeros(n))
  {
    if n > 0 {
      assert Zeros(n)[1..] == Zeros(n - 1);
      ParityZeros(n - 1);
    }
  }

  lemma ParityPolynom()
    ensures ParityOf(POLYNOM)
  {
    assert POLYNOM == [true] + Zeros(12) + [true] + [false] + [true];
    ParityAppend([true] + Zeros(12) + [true] + [false], [true]);
    ParityAppend([true] + Zeros(12) + [true], [false]);
    ParityAppend([true] + Zeros(12), [true]);
    ParityAppend([true], Zeros(12));
    ParityZeros(12);
  }

  lemma StepParity(c: Word, bit: bool)
    ensures ParityOf(Step(c, bit)) == (ParityOf(c) != bit)
  {
    ParityAppend(c[1..], [false]);
    ParityXor(ShiftLeft(c), POLYNOM);
    ParityPolynom();
  }

  /** The generator has an even number of terms, so the register keeps the parity of the message. */
  lemma {:induction false} RunParity(c: Word, bits: Bits)
    ensures ParityOf(Run(c, bits)) == (ParityOf(c) != ParityOf(bits))
    decreases |bits|
  {
    if bits != [] {
      StepParity(c, bits[0]);
      RunParity(Step(c, bits[0]), bits[1..]);
    }
  }

  lemma CrcParity(bits: Bits)
    ensures ParityOf(Crc(bits)) == ParityOf(bits)
  {
    RunParity(Zeros(16), bits);
    ParityZeros(16);
  }

  function Reverse(a: Bits): (r: Bits)
    ensures |r| == |a| && forall i :: 0 <= i < |a| ==> r[i] == a[|a| - 1 - i]
  {
    if a == [] then [] else Reverse(a[1..]) + [a[0]]
  }

  lemma {:induction false} ParityReverse(a: Bits)
    ensures ParityOf(Reverse(a)) == ParityOf(a)
  {
    if a != [] {
      ParityReverse(a[1..]);
      ParityAppend(Reverse(a[1..]), [a[0]]);
    }
  }

  // ----- Frames -----

  /** The byte whose bits, most significant first, are given. */
  function ByteOf(w: Bits): byte
    requires |w| == 8
  {
    assert Pow2(8) == 256;
    Value(Reverse(w))
  }

  /** The two CRC bytes in the little-endian order in which they are stored. */
  function CrcBytes(data: seq<byte>): (r: seq<byte>)
    ensures |r| == 2
  {
    var c := Crc(MessageBits(data));
    [ByteOf(c[8..]), ByteOf(c[..8])]
  }

  /** The stored CRC bytes carry the same number of one bits, modulo two, as the data before them. */
  lemma CrcBytesParity(data: seq<byte>)
    ensures !ParityOf(MessageBits(data + CrcBytes(data)))
  {
    var c := Crc(MessageBits(data));
    var lo, hi := ByteBits(ByteOf(c[8..])), ByteBits(ByteOf(c[..8]));
    LowBitsOfValue(Reverse(c[8..]));
    LowBitsOfValue(Reverse(c[..8]));
    ParityReverse(c[8..]);
    ParityReverse(c[..8]);
    assert c == c[..8] + c[8..];
    ParityAppend(c[..8], c[8..]);
    CrcParity(MessageBits(data));
    MessageBitsTwo(data, CrcBytes(data)[0], CrcBytes(data)[1]);
    ParityAppend(MessageBits(data) + lo, hi);
    ParityAppend(MessageBits(data), lo);
  }

  lemma MessageBitsTwo(data: seq<byte>, x: byte, y: byte)
    ensures MessageBits(data + [x, y]) == MessageBits(data) + ByteBits(x) + ByteBits(y)
  {
    assert (data + [x, y])[..|data| + 1] == data + [x];
    assert (data + [x])[..|data|] == data;
  }

  /** A response frame is accepted when the two bytes after its counted data are their CRC. */
  predicate Accepted(frame: seq<byte>) {
    frame != [] && var count := Counted(frame[0]);
    count + ATCA_CRC_SIZE <= |frame| && frame[count..count + ATCA_CRC_SIZE] == CrcBytes(frame[..count])
  }

  /** `uint8_t` subtraction of the CRC size. */
  function Counted(size: byte): byte { (size - ATCA_CRC_SIZE) % 256 }

  /** Every accepted frame has an even number of one bits, so an odd number of flipped bits is noticed. */
  lemma AcceptedParity(frame: seq<byte>)
    requires Accepted(frame)
    ensures !ParityOf(MessageBits(frame[..Counted(frame[0]) + ATCA_CRC_SIZE]))
  {
    var count := Counted(frame[0]);
    assert frame[..count + ATCA_CRC_SIZE] == frame[..count] + CrcBytes(frame[..count]);
    CrcBytesParity(frame[..count]);
  }

  // ----- Octets -----

  lemma ReverseTwice(a: Bits)
    ensures Reverse(Reverse(a)) == a
  {}

  lemma BitsOfByteOf(w: Bits)
    requires |w| == 8
    ensures ByteBits(ByteOf(w)) == Reverse(w)
  {
    LowBitsOfValue(Reverse(w));
  }

  lemma ByteOfInjective(v: Bits, w: Bits)
    requires |v| == |w| == 8 && ByteOf(v) == ByteOf(w)
    ensures v == w
  {
    hide ByteOf, Reverse, ByteBits;
    BitsOfByteOf(v);
    BitsOfByteOf(w);
    ReverseTwice(v);
    ReverseTwice(w);
  }

  /** The two octets stored tell the register. */
  lemma StoredTellsRegister(a: seq<byte>, b: seq<byte>)
    ensures CrcBytes(a) == CrcBytes(b) <==> Crc(MessageBits(a)) == Crc(MessageBits(b))
  {
    hide Crc, ByteOf;
    var c, d := Crc(MessageBits(a)), Crc(MessageBits(b));
    if CrcBytes(a) == CrcBytes(b) {
      assert ByteOf(c[8..]) == CrcBytes(b)[0] && ByteOf(c[..8]) == CrcBytes(b)[1];
      ByteOfInjective(c[8..], d[8..]);
      ByteOfInjective(c[..8], d[..8]);
      assert c == c[..8] + c[8..] && d == d[..8] + d[8..];
    }
  }

  /** The exclusive or of two octets. */
  function XorByte(a: byte, b: byte): byte {
    assert Pow2(8) == 256;
    Value(Xor(ByteBits(a), ByteBits(b)))
  }

  function XorBytes(a: seq<byte>, b: seq<byte>): (r: seq<byte>)
    requires |a| == |b|
    ensures |r| == |a|
  {
    seq(|a|, i requires 0 <= i < |a| => XorByte(a[i], b[i]))
  }

  lemma XorByteBits(a: byte, b: byte)
    ensures ByteBits(XorByte(a, b)) == Xor(ByteBits(a), ByteBits(b))
  {
    LowBitsOfValue(Xor(ByteBits(a), ByteBits(b)));
  }

  lemma {:induction false} MessageBitsXor(a: seq<byte>, b: seq<byte>)
    requires |a| == |b|
    ensures MessageBits(XorBytes(a, b)) == Xor(MessageBits(a), MessageBits(b))
  {
    hide ByteBits, XorByte;
    if a != [] {
      var n := |a| - 1;
      MessageBitsXor(a[..n], b[..n]);
      XorByteBits(a[n], b[n]);
      assert XorBytes(a, b)[..n] == XorBytes(a[..n], b[..n]);
    }
  }

  lemma ByteOfXor(v: Bits, w: Bits)
    requires |v| == |w| == 8
    ensures ByteOf(Xor(v, w)) == XorByte(ByteOf(v), ByteOf(w))
  {
    hide ByteBits, Value;
    BitsOfByteOf(v);
    BitsOfByteOf(w);
    assert Reverse(Xor(v, w)) == Xor(Reverse(v), Reverse(w));
  }

  /** What atCRC stores is linear too: the CRC of an exclusive or is that of the CRCs. */
  lemma OctetsLinear(a: seq<byte>, b: seq<byte>)
    requires |a| == |b|
    ensures CrcBytes(XorBytes(a, b)) == XorBytes(CrcBytes(a), CrcBytes(b))
  {
    hide ByteOf, XorByte, Crc, MessageBits;
    var c, d := Crc(MessageBits(a)), Crc(MessageBits(b));
    MessageBitsXor(a, b);
    CrcLinear(MessageBits(a), MessageBits(b));
    assert Xor(c, d)[8..] == Xor(c[8..], d[8..]) && Xor(c, d)[..8] == Xor(c[..8], d[..8]);
    ByteOfXor(c[8..], d[8..]);
    ByteOfXor(c[..8], d[..8]);
  }

  /** An accepted frame is refused when its data change inside a window of at most sixteen bits, wherever the window
      lies among the octets. */
  lemma BurstRefused(frame: seq<byte>, other: seq<byte>, before: Bits, v: Bits, w: Bits, after: Bits)
    requires Accepted(frame) && |other| == |frame| && other[0] == frame[0]
    requires var count := Counted(frame[0]);
             && other[count..] == frame[count..]
             && MessageBits(frame[..count]) == before + v + after
             && MessageBits(other[..count]) == before + w + after
    requires |v| == |w| <= 16 && v != w
    ensures !Accepted(other)
  {
    hide MessageBits, Crc, CrcBytes;
    var count := Counted(frame[0]);
    BurstDetected(before, v, w, after);
    StoredTellsRegister(frame[..count], other[..count]);
    assert frame[count..count + 2] == frame[count..][..2] && other[count..count + 2] == other[count..][..2];
  }

  /** And it is refused when nothing but its CRC changes. */
  lemma CrcChangeRefused(frame: seq<byte>, other: seq<byte>)
    requires Accepted(frame) && |other| == |frame| && other[0] == frame[0]
    requires var count := Counted(frame[0]);
             other[..count] == frame[..count] && other[count..count + 2] != frame[count..count + 2]
    ensures !Accepted(other)
  {}

  lemma XorByteZero(b: byte)
    ensures XorByte(b, 0) == b
  {
    hide Value, LowBits;
    assert Pow2(8) == 256;
    ZeroBits();
    assert Xor(ByteBits(b), Zeros(8)) == ByteBits(b);
    ValueOfLowBits(b, 8);
  }

  lemma ZeroBits()
    ensures ByteBits(0) == Zeros(8)
  {
    forall k | 0 <= k < 8
      ensures !ByteBits(0)[k]
    {
      LowBitsAt(0, 8, k);
    }
  }

  lemma {:induction false} ValueOfLowBits(b: nat, n: nat)
    requires b < Pow2(n)
    ensures Value(LowBits(b, n)) == b
  {
    if n > 0 {
      ValueOfLowBits(b / 2, n - 1);
      assert LowBits(b, n)[1..] == LowBits(b / 2, n - 1);
    }
  }

  /** Zeros in front leave the register clear. */
  lemma {:induction false} MessageOfZeros(n: nat)
    ensures Crc(MessageBits(Bytes.Zeros(n))) == Zeros(16)
  {
    hide Run;
    if n == 0 {
      RunZeros(Zeros(16), 0);
      assert Zeros(0) == [];
    } else {
      MessageOfZeros(n - 1);
      assert Bytes.Zeros(n)[..n - 1] == Bytes.Zeros(n - 1);
      ZeroBits();
      RunAppend(Zeros(16), MessageBits(Bytes.Zeros(n - 1)), Zeros(8));
      RunZeros(Zeros(16), 8);
    }
  }

  /** The last two bits of an octet, behind zeros. */
  lemma LastTwoBits(n: nat)
    ensures CrcBytes(Bytes.Zeros(n) + [0xC0]) == [0x0A, 0]
  {
    hide Run, MessageBits, ByteOf;
    var z, data := Bytes.Zeros(n), Bytes.Zeros(n) + [0xC0];
    MessageOfZeros(n);
    MessageBitsOne(z, 0xC0);
    RunAppend(Zeros(16), MessageBits(z), ByteBits(0xC0));
    RegisterOfC0();
    ByteOfRegister();
  }

  lemma MessageBitsOne(data: seq<byte>, x: byte)
    ensures MessageBits(data + [x]) == MessageBits(data) + ByteBits(x)
  {
    assert (data + [x])[..|data|] == data;
  }

  const REGISTER_0A: Word := [false, false, false, false, false, false, false, false,
                              false, false, false, false, true, false, true, false]

  lemma RegisterOfC0()
    ensures Run(Zeros(16), ByteBits(0xC0)) == REGISTER_0A
  {
    var bits := Zeros(6) + [true, true];
    assert ByteBits(0xC0) == bits;
    RunAppend(Zeros(16), Zeros(6), [true, true]);
    RunZeros(Zeros(16), 6);
    StepOfZero(Zeros(16));
    assert [true, true][1..] == [true] && [true][1..] == [];
    assert Step(POLYNOM, true) == REGISTER_0A;
  }

  lemma ByteOfRegister()
    ensures ByteOf(REGISTER_0A[8..]) == 0x0A && ByteOf(REGISTER_0A[..8]) == 0
  {
    hide Value;
    var low, high := Reverse(REGISTER_0A[8..]), Reverse(REGISTER_0A[..8]);
    assert high == Zeros(8);
    ValueOfClear(high);
    assert low == [false] + ([true] + ([false] + ([true] + Zeros(4))));
    ValueOfClear(Zeros(4));
    ValueStep(true, Zeros(4));
    ValueStep(false, [true] + Zeros(4));
    ValueStep(true, [false] + ([true] + Zeros(4)));
    ValueStep(false, [true] + ([false] + ([true] + Zeros(4))));
  }

  lemma ValueStep(bit: bool, bits: Bits)
    ensures Value([bit] + bits) == (if bit then 1 else 0) + 2 * Value(bits)
  {
    assert ([bit] + bits)[1..] == bits;
  }

  /**
   A burst that reaches from the data into the stored CRC can go unnoticed, although it is six bits long in the order
   of transmission: the last two bits of the data, and the second and fourth of the CRC.
   */
  lemma BurstUnnoticed(frame: seq<byte>)
    requires Accepted(frame) && Counted(frame[0]) >= 2
    ensures var count := Counted(frame[0]);
            Accepted(frame[count - 1 := XorByte(frame[count - 1], 0xC0)][count := XorByte(frame[count], 0x0A)])
  {
    hide CrcBytes, XorByte;
    var count := Counted(frame[0]);
    var other := frame[count - 1 := XorByte(frame[count - 1], 0xC0)][count := XorByte(frame[count], 0x0A)];
    var data, change := frame[..count], Bytes.Zeros(count - 1) + [0xC0];
    LastTwoBits(count - 1);
    OctetsLinear(data, change);
    XorByteZero(frame[count + 1]);
    assert other[..count] == XorBytes(data, change) by {
      forall i | 0 <= i < count - 1
        ensures XorBytes(data, change)[i] == frame[i]
      {
        XorByteZero(frame[i]);
      }
    }
    assert frame[count..count + 2] == CrcBytes(data);
    assert other[count..count + 2] == XorBytes(CrcBytes(data), [0x0A, 0]);
  }

  // ----- The code -----

  /** The inner loop of atCRC: `shiftRegister` doubles until it leaves eight bits. */
  method FeedByte(crcIn: Word, b: byte) returns (crcRegister: Word)
    ensures crcRegister == Run(crcIn, ByteBits(b))
  {
    hide Xor, ShiftLeft, LowBits;
    crcRegister := crcIn;
    ghost var bits, k := ByteBits(b), 0;
    var shiftRegister: nat := 1;
    assert Pow2(8) == 256;
    while shiftRegister < 256
      invariant 0 <= k <= 8 && shiftRegister == Pow2(k)
      invariant crcRegister == Run(crcIn, bits[..k])
      decreases 8 - k
    {
      var dataBit := b / shiftRegister % 2 == 1;
      var crcBit := crcRegister[0];
      LowBitsAt(b, 8, k);
      RunTake(crcIn, bits, k);
      crcRegister := ShiftLeft(crcRegister);
      if dataBit != crcBit {
        crcRegister := Xor(crcRegister, POLYNOM);
      }
      shiftRegister, k := shiftRegister * 2, k + 1;
    }
    assert bits[..8] == bits;
  }

  /** atCRC: the data bytes are those of `packet` from index `start`. */
  method AtCrc(length: nat, packet: array<byte>, start: nat) returns (low: byte, high: byte)
    requires start + length <= packet.Length
    ensures [low, high] == CrcBytes(packet[start..start + length])
  {
    var crcRegister: Word := Zeros(16);
    var counter := 0;
    while counter < length
      invariant counter <= length
      invariant crcRegister == Crc(MessageBits(packet[start..start + counter]))
    {
      ghost var done, more := packet[start..start + counter], packet[start..start + counter + 1];
      assert more[..counter] == done && more[counter] == packet[start + counter];
      RunAppend(Zeros(16), MessageBits(done), ByteBits(packet[start + counter]));
      crcRegister := FeedByte(crcRegister, packet[start + counter]);
      counter := counter + 1;
    }
    low, high := ByteOf(crcRegister[8..]), ByteOf(crcRegister[..8]);
  }

  /** atCalcCrc: `packet` is the I/O frame, whose first byte is its size. */
  method AtCalcCrc(packet: array<byte>)
    requires packet.Length > 0 && Counted(packet[0]) + ATCA_CRC_SIZE <= packet.Length
    modifies packet
    ensures var length := old(Counted(packet[0]));
            packet[..] == old(packet[..length]) + CrcBytes(old(packet[..length])) + old(packet[length + 2..])
  {
    var length := Counted(packet[0]);
    var low, high := AtCrc(length, packet, 0);
    packet[length] := low;
    packet[length + 1] := high;
  }

  /** atCheckCrc */
  method AtCheckCrc(response: array<byte>) returns (ok: bool)
    requires response.Length > 0 && Counted(response[0]) + ATCA_CRC_SIZE <= response.Length
    ensures ok <==> Accepted(response[..])
  {
    var count := Counted(response[0]);
    var low, high := AtCrc(count, response, 0);
    ok := low == response[count] && high == response[count + 1];
  }

  /** What atCalcCrc leaves behind. */
  function Finished(packet: seq<byte>): (r: seq<byte>)
    requires packet != [] && Counted(packet[0]) + ATCA_CRC_SIZE <= |packet|
    ensures |r| == |packet|
  {
    var length := Counted(packet[0]);
    packet[..length] + CrcBytes(packet[..length]) + packet[length + 2..]
  }

  /**
   Every finished frame is accepted unless its size is exactly that of the CRC. At that size the CRC
   is stored over the size byte itself, and the check then counts 254 bytes it was never given.
   */
  lemma FinishedAcceptedExactly(packet: seq<byte>)
    requires packet != [] && Counted(packet[0]) + ATCA_CRC_SIZE <= |packet|
    ensures packet[0] != ATCA_CRC_SIZE ==> Accepted(Finished(packet))
    ensures |packet| < 256 ==> (Accepted(Finished(packet)) <==> packet[0] != ATCA_CRC_SIZE)
  {
    var length := Counted(packet[0]);
    assert Finished(packet)[..length] == packet[..length];
    assert Finished(packet)[length..length + 2] == CrcBytes(packet[..length]);
    if packet[0] == ATCA_CRC_SIZE {
      CrcOfNothing(packet[..length]);
      assert Finished(packet)[0] == 0;
    }
  }

  lemma {:induction false} ValueOfClear(bits: Bits)
    requires forall i :: 0 <= i < |bits| ==> !bits[i]
    ensures Value(bits) == 0
  {
    if bits != [] { ValueOfClear(bits[1..]); }
  }

  lemma CrcOfNothing(data: seq<byte>)
    requires data == []
    ensures CrcBytes(data)[0] == 0
  {
    ValueOfClear(Reverse(Crc(MessageBits(data))[8..]));
  }
}
