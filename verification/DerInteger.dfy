/** DER integers (atcacert_der.c; section 8.3 of X.690). */
module DerInteger {
  import opened Bytes
  import opened Status
  import opened DerLength

  // ----- Specification -----

  /** The first nine bits are all equal, which section 8.3.2 of X.690 forbids. */
  predicate Redundant(s: seq<byte>) {
    |s| >= 2 && ((s[0] == 0 && s[1] < 128) || (s[0] == 255 && s[1] >= 128))
  }

  function Trimmed(s: seq<byte>): (r: seq<byte>)
    ensures !Redundant(r) && |r| <= |s| && (s != [] ==> r != [])
  {
    if Redundant(s) then Trimmed(s[1..]) else s
  }

  /** The content octets of an encoded integer. */
  function Content(data: seq<byte>, isUnsigned: bool): (r: seq<byte>)
    requires data != []
    ensures 1 <= |r| <= |data| + 1
  {
    if isUnsigned && data[0] >= 128 then [0] + data else Trimmed(data)
  }

  /** The integer that the caller's octets stand for. */
  function Value(data: seq<byte>, isUnsigned: bool): int
    requires data != []
  {
    if isUnsigned then Unsigned(data) else Signed(data)
  }

  function EncodeInteger(data: seq<byte>, isUnsigned: bool): (r: seq<byte>)
    requires 0 < |data| < TWO32 - 8
  {
    var c := Content(data, isUnsigned);
    [2] + EncodeLength(|c|) + c
  }

  /** The tag and length of an integer: the octets they take, and the content octets they announce. */
  datatype Header = Header(size: nat, length: nat)

  /** The size of the whole encoding, as the decoder computes it in 32 bits. */
  function Claimed(h: Header): (r: nat)
    ensures r <= h.size + h.length && (r == h.size + h.length <==> h.size + h.length < TWO32)
  {
    (h.size + h.length) % TWO32
  }

  function IntegerHeader(s: seq<byte>): (r: Result<Header>)
    ensures r.Err? ==> r.status == DecodingError
    ensures r.Ok? ==> 2 <= r.value.size <= 6 && r.value.size <= |s|
                      && r.value.length < TWO32 && Claimed(r.value) <= |s|
  {
    if |s| < 1 || s[0] != 2 then Err(DecodingError)
    else
      match DecodeLength(s[1..])
      case Err(e) => Err(e)
      case Ok(d) =>
        var h := Header(1 + d.size, d.value);
        if |s| < Claimed(h) then Err(DecodingError) else Ok(h)
  }

  /** The content of an integer, for a caller with room for `capacity` octets. */
  function DecodeInteger(s: seq<byte>, capacity: nat): (r: Result<seq<byte>>)
    requires capacity <= 0xFFFF
    ensures r.Ok? ==> |r.value| <= capacity
    ensures r.Err? ==> r.status == DecodingError || r.status == BufferTooSmall
  {
    match IntegerHeader(s)
    case Err(e) => Err(e)
    case Ok(h) =>
      if capacity < h.length then Err(BufferTooSmall) else Ok(s[h.size..h.size + h.length])
  }

  // ----- Laws -----

  lemma {:induction false} SignedTail(s: seq<byte>)
    requires Redundant(s)
    ensures Signed(s[1..]) == Signed(s)
  {
    if |s| > 2 {
      assert s[1..][..|s| - 2] == s[..|s| - 1][1..];
      SignedTail(s[..|s| - 1]);
    }
  }

  lemma {:induction false} SignedTrimmed(s: seq<byte>)
    requires s != []
    ensures Signed(Trimmed(s)) == Signed(s)
  {
    if Redundant(s) {
      SignedTail(s);
      SignedTrimmed(s[1..]);
    }
  }

  /** The content stands, in two's complement, for the caller's integer, and is minimal. */
  lemma ContentKeepsValue(data: seq<byte>, isUnsigned: bool)
    requires data != []
    ensures Signed(Content(data, isUnsigned)) == Value(data, isUnsigned)
    ensures Signed(Content(data, isUnsigned)) == if isUnsigned then Unsigned(data) else Signed(data)
    ensures !Redundant(Content(data, isUnsigned))
  {
    if isUnsigned && data[0] >= 128 {
      SignedNonNegative([0] + data);
      UnsignedLeadingZero(data);
    } else {
      SignedTrimmed(data);
      if isUnsigned { SignedNonNegative(data); }
    }
  }

  lemma {:induction false} MinimalIsWide(s: seq<byte>)
    requires |s| >= 2 && !Redundant(s)
    ensures Signed(s) < -128 || Signed(s) >= 128
  {
    if |s| > 2 { MinimalIsWide(s[..|s| - 1]); }
  }

  /** Minimal contents of equal value are equal. */
  lemma {:induction false} MinimalUnique(s: seq<byte>, t: seq<byte>)
    requires s != [] && t != [] && !Redundant(s) && !Redundant(t) && Signed(s) == Signed(t)
    ensures s == t
  {
    if |s| >= 2 { MinimalIsWide(s); }
    if |t| >= 2 { MinimalIsWide(t); }
    if |s| >= 2 && |t| >= 2 {
      MinimalUnique(s[..|s| - 1], t[..|t| - 1]);
      assert s == s[..|s| - 1] + [s[|s| - 1]] && t == t[..|t| - 1] + [t[|t| - 1]];
    }
  }

  lemma HeaderOfEncoded(c: seq<byte>, suffix: seq<byte>)
    requires |c| < TWO32 - 7
    ensures var e := EncodeLength(|c|); var s := [2] + e + c + suffix;
            IntegerHeader(s) == Ok(Header(1 + |e|, |c|)) && s[1 + |e|..1 + |e| + |c|] == c
  {
    var e := EncodeLength(|c|);
    assert ([2] + e + c + suffix)[1..] == e + (c + suffix);
    LengthRoundTrip(|c|, c + suffix);
  }

  /** Decoding an encoded integer, whatever follows it, gives its content when there is room for it, and the
      size of its encoding in any case. */
  lemma IntegerRoundTrip(data: seq<byte>, isUnsigned: bool, suffix: seq<byte>, capacity: nat)
    requires 0 < |data| < TWO32 - 8 && capacity <= 0xFFFF
    ensures var c, s := Content(data, isUnsigned), EncodeInteger(data, isUnsigned) + suffix;
            && IntegerHeader(s).Ok? && Claimed(IntegerHeader(s).value) == |EncodeInteger(data, isUnsigned)|
            && DecodeInteger(s, capacity) == if capacity < |c| then Err(BufferTooSmall) else Ok(c)
  {
    HeaderOfEncoded(Content(data, isUnsigned), suffix);
  }

  /** With room for so many octets, exactly those inputs are taken that begin with the tag, a length field, and as
      many octets of content, and the content is what is handed out. */
  lemma IntegerTaken(s: seq<byte>, capacity: nat)
    requires capacity <= 0xFFFF
    ensures DecodeInteger(s, capacity).Ok?
            <==> |s| >= 1 && s[0] == 2 && DecodeLength(s[1..]).Ok?
                 && var Length(n, size) := DecodeLength(s[1..]).value; n <= capacity && 1 + size + n <= |s|
    ensures DecodeInteger(s, capacity).Ok? ==>
              var Length(n, size) := DecodeLength(s[1..]).value;
              DecodeInteger(s, capacity).value == s[1 + size..][..n] && Claimed(IntegerHeader(s).value) == 1 + size + n
  {
    hide DecodeLength;
  }

  /** The encoding is canonical: two inputs have the same encoding exactly when they stand for the same integer. */
  lemma IntegerCanonical(a: seq<byte>, aUnsigned: bool, b: seq<byte>, bUnsigned: bool)
    requires 0 < |a| < TWO32 - 8 && 0 < |b| < TWO32 - 8
    ensures EncodeInteger(a, aUnsigned) == EncodeInteger(b, bUnsigned) <==> Value(a, aUnsigned) == Value(b, bUnsigned)
  {
    hide Content, IntegerHeader, EncodeLength, Redundant, Value, Signed;
    ContentKeepsValue(a, aUnsigned);
    ContentKeepsValue(b, bUnsigned);
    if Value(a, aUnsigned) == Value(b, bUnsigned) {
      MinimalUnique(Content(a, aUnsigned), Content(b, bUnsigned));
    }
    HeaderOfEncoded(Content(a, aUnsigned), []);
    HeaderOfEncoded(Content(b, bUnsigned), []);
    assert EncodeInteger(a, aUnsigned) + [] == EncodeInteger(a, aUnsigned);
    assert EncodeInteger(b, bUnsigned) + [] == EncodeInteger(b, bUnsigned);
  }

  /** An accepted integer is encoded again into the very octets it was read from exactly when its length is in
      the shortest form and its content is minimal. */
  lemma IntegerReencodes(s: seq<byte>, capacity: nat)
    requires capacity <= 0xFFFF && DecodeInteger(s, capacity).Ok? && DecodeInteger(s, capacity).value != []
    ensures var c, h := DecodeInteger(s, capacity).value, IntegerHeader(s).value;
            EncodeInteger(c, false) == s[..Claimed(h)]
            <==> h.size == 1 + |EncodeLength(|c|)| && !Redundant(c)
  {
    hide DecodeLength, EncodeLength;
    var c, h := DecodeInteger(s, capacity).value, IntegerHeader(s).value;
    if EncodeInteger(c, false) == s[..Claimed(h)] {
      HeaderOfPrefix(s, Trimmed(c), Claimed(h));
    }
    if h.size == 1 + |EncodeLength(|c|)| && !Redundant(c) {
      LengthShortest(s[1..]);
      assert s[1..][..h.size - 1] == EncodeLength(|c|);
      assert s[..Claimed(h)] == [2] + s[1..][..h.size - 1] + c;
    }
  }

  lemma HeaderOfPrefix(s: seq<byte>, c: seq<byte>, n: nat)
    requires |c| < TWO32 - 7 && n <= |s| && s[..n] == [2] + EncodeLength(|c|) + c
    ensures IntegerHeader(s) == Ok(Header(1 + |EncodeLength(|c|)|, |c|))
  {
    HeaderOfEncoded(c, s[n..]);
    assert s == s[..n] + s[n..];
  }

  /** An accepted integer has its whole content in the input exactly when its size fits 32 bits. The other
      case is real: a query for the size alone accepts an integer of 4294967295 octets held in six. */
  lemma AcceptedIsWhole(s: seq<byte>)
    requires |s| < TWO32 && IntegerHeader(s).Ok?
    ensures var h := IntegerHeader(s).value; h.size + h.length <= |s| <==> h.size + h.length < TWO32
    ensures var t := [2, 0x84, 0xFF, 0xFF, 0xFF, 0xFF];
            IntegerHeader(t) == Ok(Header(6, 0xFFFF_FFFF)) && Claimed(Header(6, 0xFFFF_FFFF)) == 5
  {
    var t: seq<byte> := [2, 0x84, 0xFF, 0xFF, 0xFF, 0xFF];
    var u: seq<byte> := [0xFF, 0xFF, 0xFF, 0xFF];
    assert t[1..][1..5] == u;
    assert u[..3][..2][..1][..0] == [];
    assert Unsigned(u[..3][..2][..1]) == 0xFF;
    assert Unsigned(u[..3][..2]) == 0xFFFF;
    assert Unsigned(u[..3]) == 0xFF_FFFF;
    assert Unsigned(u) == 0xFFFF_FFFF;
  }

  // ----- Code -----

  /** atcacert_der_enc_integer, into `size` octets of the buffer from `at` on. */
  method EncInteger(intData: seq<byte>, isUnsigned: bool, derInt: array?<byte>, at: nat, size: nat)
    returns (status: Status, derIntSize: nat)
    requires |intData| < TWO32 - 8 && (derInt != null ==> at + size <= derInt.Length)
    modifies if derInt == null then {} else {derInt}
    ensures |intData| == 0 ==> status == BadParams && derIntSize == size
    ensures |intData| > 0 ==>
              derIntSize == |EncodeInteger(intData, isUnsigned)| && status == Answer(derInt, size, derIntSize)
    ensures derInt != null ==>
              derInt[..] == if status == Success then Overwrite(old(derInt[..]), at, EncodeInteger(intData, isUnsigned))
                            else old(derInt[..])
  {
    if |intData| == 0 {
      return BadParams, size;
    }
    var trim, pad := TrimAndPad(intData, isUnsigned);
    ghost var c := Content(intData, isUnsigned);
    var derLength := new byte[5](_ => 0);
    var derLengthSize: nat;
    status, derLengthSize := EncLength(|intData| + pad - trim, derLength, 0, 5);
    derIntSize := 1 + derLengthSize + |intData| + pad - trim;
    if derInt != null && derIntSize > size {
      return BufferTooSmall, derIntSize;
    }
    if derInt == null {
      return Success, derIntSize;
    }
    assert derLength[..derLengthSize] == EncodeLength(|c|);
    PutInteger(derInt, at, derLength[..derLengthSize], pad, intData[trim..]);
  }

  /** The octets that atcacert_der_enc_integer drops from, or puts before, the caller's. */
  method TrimAndPad(intData: seq<byte>, isUnsigned: bool) returns (trim: nat, pad: nat)
    requires intData != []
    ensures trim < |intData| && pad <= 1 && Content(intData, isUnsigned) == Zeros(pad) + intData[trim..]
  {
    trim, pad := 0, 0;
    if !(isUnsigned && intData[0] >= 128) {
      while |intData| - trim >= 2
            && ((intData[trim] == 0 && intData[trim + 1] < 128) || (intData[trim] == 0xFF && intData[trim + 1] >= 128))
        invariant trim < |intData| && Trimmed(intData[trim..]) == Trimmed(intData)
      {
        assert intData[trim..][1..] == intData[trim + 1..];
        trim := trim + 1;
      }
    } else {
      pad := 1;
    }
  }

  /** The writing half of atcacert_der_enc_integer. */
  method PutInteger(derInt: array<byte>, at: nat, derLength: seq<byte>, pad: nat, value: seq<byte>)
    requires pad <= 1 && at + 1 + |derLength| + pad + |value| <= derInt.Length
    modifies derInt
    ensures derInt[..] == Overwrite(old(derInt[..]), at, [2] + derLength + (Zeros(pad) + value))
  {
    hide Overwrite;
    ghost var was := derInt[..];
    Put(derInt, at, [2]);
    PutNext(derInt, at + 1, derLength, was, at, [2]);
    ghost var head := [2] + derLength;
    if pad == 1 {
      PutNext(derInt, at + 1 + |derLength|, [0], was, at, head);
      assert Zeros(pad) == [0];
    } else {
      assert head + Zeros(pad) == head;
    }
    PutNext(derInt, at + 1 + |derLength| + pad, value, was, at, head + Zeros(pad));
    assert head + Zeros(pad) + value == head + (Zeros(pad) + value);
  }

  /** atcacert_der_dec_integer. A caller with no buffer asks for the sizes only. */
  method DecInteger(derInt: seq<byte>, intData: array?<byte>, capacity: nat)
    returns (status: Status, derIntSize: nat, intDataSize: nat)
    requires intData != null ==> capacity <= intData.Length && capacity <= 0xFFFF
    modifies if intData == null then {} else {intData}
    ensures match IntegerHeader(derInt)
            case Err(e) => status == e && derIntSize == |derInt| && intDataSize == capacity
            case Ok(h) =>
              status == Answer(intData, capacity, h.length) && derIntSize == Claimed(h) && intDataSize == h.length
    ensures intData != null ==>
              intData[..] == match DecodeInteger(derInt, capacity)
                             case Err(_) => old(intData[..])
                             case Ok(c) => Overwrite(old(intData[..]), 0, c)
  {
    hide DecodeLength, Overwrite;
    derIntSize, intDataSize := |derInt|, capacity;
    if |derInt| < 1 {
      return DecodingError, derIntSize, intDataSize;
    }
    if derInt[0] != 2 {
      return DecodingError, derIntSize, intDataSize;
    }
    var derLengthSize, length: nat;
    status, derLengthSize, length := DecLength(derInt[1..]);
    if status != Success {
      return;
    }
    if |derInt| < (1 + derLengthSize + length) % TWO32 {
      return DecodingError, derIntSize, intDataSize;
    }
    derIntSize := (1 + derLengthSize + length) % TWO32;
    intDataSize := length;
    if intData != null && capacity < length {
      return BufferTooSmall, derIntSize, intDataSize;
    }
    if intData != null {
      Put(intData, 0, derInt[1 + derLengthSize..1 + derLengthSize + length]);
    }
  }
}
