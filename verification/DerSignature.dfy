/** ECDSA signature values in DER (atcacert_der.c): a bit string that holds the sequence of two integers. */
module DerSignature {
  import opened Bytes
  import opened Status
  import opened DerLength
  import opened DerInteger

  // ----- Specification -----

  /** One 32-octet half of a raw signature as an integer. */
  function EncodeHalf(raw: seq<byte>): (r: seq<byte>)
    requires |raw| == 32
    ensures 3 <= |r| <= 35
  {
    EncodeInteger(raw, true)
  }

  function EncodeHalves(raw: seq<byte>): (r: seq<byte>)
    requires |raw| == 64
    ensures 6 <= |r| <= 70
  {
    EncodeHalf(raw[..32]) + EncodeHalf(raw[32..])
  }

  /** The tags and lengths around the two integers. */
  function Wrapped(body: seq<byte>): (r: seq<byte>)
    requires |body| <= 70
    ensures |r| == 5 + |body|
  {
    [3, |body| + 3, 0, 0x30, |body|] + body
  }

  function EncodeSignature(raw: seq<byte>): (r: seq<byte>)
    requires |raw| == 64
    ensures 11 <= |r| <= 75
  {
    Wrapped(EncodeHalves(raw))
  }

  /** Decoded octets, and the size of the encoding they come from. */
  datatype Sized = Sized(octets: seq<byte>, size: nat)

  /** The content of an integer in exactly 32 octets. */
  function Fitted(c: seq<byte>): (r: Result<seq<byte>>)
    requires |c| <= 33
    ensures r.Err? ==> r.status == DecodingError
    ensures r.Ok? ==> |r.value| == 32
  {
    if |c| <= 32 then Ok(Zeros(32 - |c|) + c)
    else if c[0] == 0 then Ok(c[1..])
    else Err(DecodingError)
  }

  function DecodeHalf(s: seq<byte>): (r: Result<Sized>)
    ensures r.Err? ==> r.status == DecodingError || r.status == BufferTooSmall
    ensures r.Ok? ==> |r.value.octets| == 32 && r.value.size <= 39 && r.value.size <= |s|
  {
    if |s| == 0 then Err(DecodingError)
    else
      match DecodeInteger(s, 33)
      case Err(e) => Err(e)
      case Ok(c) =>
        match Fitted(c)
        case Err(e) => Err(e)
        case Ok(raw) => Ok(Sized(raw, Claimed(IntegerHeader(s).value)))
  }

  /** Two halves one after the other. */
  function DecodeHalves(s: seq<byte>): (r: Result<Sized>)
    ensures r.Err? ==> r.status == DecodingError || r.status == BufferTooSmall
    ensures r.Ok? ==> |r.value.octets| == 64 && r.value.size <= 78 && r.value.size <= |s|
  {
    match DecodeHalf(s)
    case Err(e) => Err(e)
    case Ok(first) =>
      match DecodeHalf(s[first.size..])
      case Err(e) => Err(e)
      case Ok(second) => Ok(Sized(first.octets + second.octets, first.size + second.size))
  }

  /** The lengths of the bit string and of the sequence in it, and where the sequence's content starts. */
  datatype Envelope = Envelope(bits: nat, sequence: nat, start: nat)

  function DecodeEnvelope(s: seq<byte>): (r: Result<Envelope>)
    ensures r.Err? ==> r.status == DecodingError
    ensures r.Ok? ==> r.value.start <= |s|
  {
    if |s| < 1 || s[0] != 3 then Err(DecodingError)
    else
      match DecodeLength(s[1..])
      case Err(e) => Err(e)
      case Ok(bits) =>
        var i := 1 + bits.size;
        if (i + bits.value) % TWO32 > |s| || i + 2 >= |s| || s[i] != 0 || s[i + 1] != 0x30 then Err(DecodingError)
        else
          match DecodeLength(s[i + 2..])
          case Err(e) => Err(e)
          case Ok(sequence) =>
            var j := i + 2 + sequence.size;
            if (j + sequence.value) % TWO32 > |s| then Err(DecodingError)
            else Ok(Envelope(bits.value, sequence.value, j))
  }

  function DecodeSignature(s: seq<byte>): (r: Result<Sized>)
    ensures r.Err? ==> r.status == DecodingError || r.status == BufferTooSmall
    ensures r.Ok? ==> |r.value.octets| == 64 && r.value.size <= |s|
  {
    match DecodeEnvelope(s)
    case Err(e) => Err(e)
    case Ok(v) =>
      match DecodeHalves(s[v.start..])
      case Err(e) => Err(e)
      case Ok(halves) =>
        if v.sequence != halves.size || v.bits != halves.size + 3 then Err(DecodingError)
        else Ok(Sized(halves.octets, v.start + halves.size))
  }

  // ----- Laws -----

  lemma ZerosThenTrim(n: nat, c: seq<byte>)
    requires c != [] && !Redundant(c) && c[0] < 128
    ensures Trimmed(Zeros(n) + c) == c
  {
    if n == 0 {
      assert Zeros(0) + c == c;
    } else {
      assert (Zeros(n) + c)[1..] == Zeros(n - 1) + c;
      ZerosThenTrim(n - 1, c);
    }
  }

  lemma {:induction false} TrimmedBehindZeros(s: seq<byte>)
    requires s != [] && s[0] < 128
    ensures s == Zeros(|s| - |Trimmed(s)|) + Trimmed(s) && Trimmed(s)[0] < 128
  {
    if Redundant(s) {
      TrimmedBehindZeros(s[1..]);
      var t := Trimmed(s);
      assert t == Trimmed(s[1..]);
      assert Zeros(|s| - |t|) == [0] + Zeros(|s| - 1 - |t|);
      assert s == [0] + s[1..];
    } else {
      assert Zeros(0) + s == s;
    }
  }

  /** Fitting undoes the content encoding of a half. */
  lemma FittedContent(raw: seq<byte>)
    requires |raw| == 32
    ensures |Content(raw, true)| <= 33 && Fitted(Content(raw, true)) == Ok(raw)
    ensures Content(raw, true)[0] < 128 && !Redundant(Content(raw, true))
  {
    if raw[0] < 128 { TrimmedBehindZeros(raw); }
  }

  /** The content encoding of a half undoes fitting, for contents that are minimal and not negative. */
  lemma ContentFitted(c: seq<byte>)
    requires 1 <= |c| <= 33 && !Redundant(c) && c[0] < 128 && Fitted(c).Ok?
    ensures Content(Fitted(c).value, true) == c
  {
    if |c| <= 32 {
      ZerosThenTrim(32 - |c|, c);
    } else {
      assert c == [0] + c[1..];
    }
  }

  lemma HalfRoundTrip(raw: seq<byte>, suffix: seq<byte>)
    requires |raw| == 32
    ensures DecodeHalf(EncodeHalf(raw) + suffix) == Ok(Sized(raw, |EncodeHalf(raw)|))
  {
    FittedContent(raw);
    IntegerRoundTrip(raw, true, suffix, 33);
  }

  lemma HalvesRoundTrip(raw: seq<byte>, suffix: seq<byte>)
    requires |raw| == 64
    ensures DecodeHalves(EncodeHalves(raw) + suffix) == Ok(Sized(raw, |EncodeHalves(raw)|))
  {
    hide DecodeHalf, DecodeHalves, EncodeHalf;
    var r, s := EncodeHalf(raw[..32]), EncodeHalf(raw[32..]);
    HalfRoundTrip(raw[..32], s + suffix);
    HalfRoundTrip(raw[32..], suffix);
    TwoHalves(EncodeHalves(raw) + suffix, r, s, suffix, raw[..32], raw[32..]);
    assert raw[..32] + raw[32..] == raw;
  }

  lemma TwoHalves(t: seq<byte>, r: seq<byte>, s: seq<byte>, suffix: seq<byte>, first: seq<byte>, second: seq<byte>)
    requires t == r + s + suffix && DecodeHalf(r + (s + suffix)) == Ok(Sized(first, |r|))
    requires DecodeHalf(s + suffix) == Ok(Sized(second, |s|))
    ensures DecodeHalves(t) == Ok(Sized(first + second, |r + s|))
  {
    hide DecodeHalf;
    assert t == r + (s + suffix);
    assert t[|r|..] == s + suffix;
  }

  lemma EnvelopeRoundTrip(body: seq<byte>, suffix: seq<byte>)
    requires |body| <= 70
    ensures DecodeEnvelope(Wrapped(body) + suffix) == Ok(Envelope(|body| + 3, |body|, 5))
    ensures (Wrapped(body) + suffix)[5..] == body + suffix
  {
    var s := Wrapped(body) + suffix;
    assert s == [3, |body| + 3, 0, 0x30, |body|] + (body + suffix);
    assert DecodeLength(s[1..]) == Ok(Length(|body| + 3, 1));
    assert DecodeLength(s[4..]) == Ok(Length(|body|, 1));
  }

  /** Decoding an encoded signature, whatever follows it, gives the raw signature and the size of its encoding. */
  lemma SignatureRoundTrip(raw: seq<byte>, suffix: seq<byte>)
    requires |raw| == 64
    ensures DecodeSignature(EncodeSignature(raw) + suffix) == Ok(Sized(raw, |EncodeSignature(raw)|))
  {
    HalvesRoundTrip(raw, suffix);
    WrappedRoundTrip(raw, EncodeHalves(raw), suffix);
  }

  lemma WrappedRoundTrip(raw: seq<byte>, body: seq<byte>, suffix: seq<byte>)
    requires |body| <= 70 && DecodeHalves(body + suffix) == Ok(Sized(raw, |body|))
    ensures DecodeSignature(Wrapped(body) + suffix) == Ok(Sized(raw, |Wrapped(body)|))
  {
    EnvelopeRoundTrip(body, suffix);
  }

  /** The contents of an integer that fit 32 octets. */
  predicate Fits(c: seq<byte>) {
    |c| <= 32 || (|c| == 33 && c[0] == 0)
  }

  /** An integer as it is written: the tag, a length field in any form, and the content. */
  predicate Written(s: seq<byte>, e: seq<byte>, c: seq<byte>) {
    DecodeLength(e) == Ok(Length(|c|, |e|)) && s == [2] + e + c
  }

  lemma {:induction false} UnsignedOfPadded(n: nat, c: seq<byte>)
    ensures Unsigned(Zeros(n) + c) == Unsigned(c)
  {
    if n == 0 {
      assert Zeros(0) + c == c;
    } else {
      assert Zeros(n) + c == [0] + (Zeros(n - 1) + c);
      UnsignedLeadingZero(Zeros(n - 1) + c);
      UnsignedOfPadded(n - 1, c);
    }
  }

  lemma HalfTaken(s: seq<byte>, e: seq<byte>, c: seq<byte>, suffix: seq<byte>)
    requires Written(s, e, c) && Fits(c)
    ensures DecodeHalf(s + suffix).Ok? && DecodeHalf(s + suffix).value.size == |s|
    ensures Unsigned(DecodeHalf(s + suffix).value.octets) == Unsigned(c)
  {
    hide DecodeLength, Unsigned;
    assert (s + suffix)[1..] == e[..|e|] + (c + suffix);
    LengthAlone(e, c + suffix);
    assert (s + suffix)[1 + |e|..][..|c|] == c;
    IntegerTaken(s + suffix, 33);
    if |c| <= 32 { UnsignedOfPadded(32 - |c|, c); } else {
      assert c == [0] + c[1..];
      UnsignedLeadingZero(c[1..]);
    }
  }

  lemma HalfSplit(s: seq<byte>) returns (e: seq<byte>, c: seq<byte>)
    requires DecodeHalf(s).Ok?
    ensures Written(s[..DecodeHalf(s).value.size], e, c) && Fits(c)
  {
    hide DecodeLength, Unsigned;
    IntegerTaken(s, 33);
    var Length(n, size) := DecodeLength(s[1..]).value;
    e, c := s[1..][..size], s[1 + size..][..n];
    LengthAlone(s[1..], []);
    assert e + [] == e;
    assert s[..1 + size + n] == [2] + e + c;
  }

  /** A signature value as it is written, of two integers. The length of the bit string is three more than that of
      the sequence, whatever octets the sequence's own length field takes. */
  predicate SignatureWritten(s: seq<byte>, outer: seq<byte>, inner: seq<byte>, first: seq<byte>, second: seq<byte>) {
    && s == [3] + outer + ([0, 0x30] + inner + (first + second))
    && DecodeLength(outer) == Ok(Length(|first| + |second| + 3, |outer|))
    && DecodeLength(inner) == Ok(Length(|first| + |second|, |inner|))
  }

  /** Whatever is written so is taken, and gives the two numbers in 32 octets each. */
  lemma SignatureTaken(s: seq<byte>, outer: seq<byte>, inner: seq<byte>, first: seq<byte>, second: seq<byte>,
                       e: seq<byte>, c: seq<byte>, f: seq<byte>, d: seq<byte>, suffix: seq<byte>)
    requires SignatureWritten(s, outer, inner, first, second)
    requires Written(first, e, c) && Written(second, f, d) && Fits(c) && Fits(d)
    ensures DecodeSignature(s + suffix).Ok?
    ensures var Sized(raw, size) := DecodeSignature(s + suffix).value;
            size == |s| && Unsigned(raw[..32]) == Unsigned(c) && Unsigned(raw[32..]) == Unsigned(d)
  {
    hide DecodeLength, DecodeHalf, Unsigned, Fits;
    var t := s + suffix;
    EnvelopeTaken(s, outer, inner, first + second, suffix);
    var body := t[DecodeEnvelope(t).value.start..];
    assert body == first + (second + suffix);
    HalfTaken(first, e, c, second + suffix);
    assert body[|first|..] == second + suffix;
    HalfTaken(second, f, d, suffix);
  }

  lemma EnvelopeTaken(s: seq<byte>, outer: seq<byte>, inner: seq<byte>, body: seq<byte>, suffix: seq<byte>)
    requires s == [3] + outer + ([0, 0x30] + inner + body)
    requires DecodeLength(outer) == Ok(Length(|body| + 3, |outer|))
    requires DecodeLength(inner) == Ok(Length(|body|, |inner|))
    requires body != []
    ensures DecodeEnvelope(s + suffix) == Ok(Envelope(|body| + 3, |body|, |s| - |body|))
    ensures (s + suffix)[|s| - |body|..] == body + suffix
  {
    hide DecodeLength;
    var t := s + suffix;
    assert t[1..] == outer[..|outer|] + ([0, 0x30] + inner + body + suffix);
    LengthAlone(outer, [0, 0x30] + inner + body + suffix);
    assert t[1 + |outer| + 2..] == inner[..|inner|] + (body + suffix);
    LengthAlone(inner, body + suffix);
  }

  lemma EnvelopeSplit(s: seq<byte>) returns (outer: seq<byte>, inner: seq<byte>)
    requires DecodeEnvelope(s).Ok?
    ensures var v := DecodeEnvelope(s).value;
            && s[..v.start] == [3] + outer + ([0, 0x30] + inner)
            && DecodeLength(outer) == Ok(Length(v.bits, |outer|))
            && DecodeLength(inner) == Ok(Length(v.sequence, |inner|))
  {
    hide DecodeLength;
    var i := 1 + DecodeLength(s[1..]).value.size;
    var j := DecodeLength(s[i + 2..]).value.size;
    outer, inner := s[1..][..i - 1], s[i + 2..][..j];
    LengthAlone(s[1..], []);
    LengthAlone(s[i + 2..], []);
    assert outer + [] == outer && inner + [] == inner;
  }

  /** Nothing else is taken. */
  lemma SignatureSplit(s: seq<byte>)
    returns (outer: seq<byte>, inner: seq<byte>, first: seq<byte>, second: seq<byte>,
             e: seq<byte>, c: seq<byte>, f: seq<byte>, d: seq<byte>)
    requires DecodeSignature(s).Ok?
    ensures SignatureWritten(s[..DecodeSignature(s).value.size], outer, inner, first, second)
    ensures Written(first, e, c) && Written(second, f, d) && Fits(c) && Fits(d)
  {
    hide DecodeLength, DecodeHalf, DecodeEnvelope, Unsigned, Written, Fits;
    var v := DecodeEnvelope(s).value;
    var body := s[v.start..];
    outer, inner := EnvelopeSplit(s);
    var m := DecodeHalf(body).value.size;
    var n := DecodeHalf(body[m..]).value.size;
    first, second := body[..m], body[m..][..n];
    e, c := HalfSplit(body);
    f, d := HalfSplit(body[m..]);
    assert s[..v.start + m + n] == [3] + outer + ([0, 0x30] + inner + (first + second));
  }

  /** An integer whose length is one octet and whose content is minimal and not negative. */
  predicate CanonicalInteger(s: seq<byte>) {
    && |s| >= 3 && s[0] == 2 && 1 <= s[1] < 128 && 2 + s[1] <= |s|
    && s[2] < 128 && !Redundant(s[2..2 + s[1]])
  }

  /** A signature value whose lengths are all one octet and whose integers are canonical. */
  predicate CanonicalSignature(s: seq<byte>) {
    && |s| >= 7 && s[1] < 128 && s[4] < 128 && CanonicalInteger(s[5..])
    && CanonicalInteger(s[5..][2 + s[6]..])
  }

  lemma HalfReencodes(s: seq<byte>)
    requires CanonicalInteger(s) && DecodeHalf(s).Ok?
    ensures DecodeHalf(s).value.size == 2 + s[1] && EncodeHalf(DecodeHalf(s).value.octets) == s[..2 + s[1]]
  {
    var c := s[2..2 + s[1]];
    assert DecodeLength(s[1..]) == Ok(Length(s[1], 1));
    assert DecodeInteger(s, 33) == Ok(c);
    ContentFitted(c);
    assert s[..2 + s[1]] == [2, s[1]] + c;
  }

  lemma HalfIsCanonical(raw: seq<byte>, suffix: seq<byte>)
    requires |raw| == 32
    ensures var s := EncodeHalf(raw) + suffix; CanonicalInteger(s) && 2 + s[1] == |EncodeHalf(raw)|
  {
    var c, s := Content(raw, true), EncodeHalf(raw) + suffix;
    FittedContent(raw);
    assert s == [2, |c|] + c + suffix;
    assert s[2..2 + |c|] == c;
  }

  /** An accepted signature value is encoded again into the very octets it was read from exactly when it is
      canonical: short lengths and minimal integers that are not negative. */
  lemma SignatureReencodes(s: seq<byte>)
    requires DecodeSignature(s).Ok?
    ensures var d := DecodeSignature(s).value; EncodeSignature(d.octets) == s[..d.size] <==> CanonicalSignature(s)
  {
    var d := DecodeSignature(s).value;
    if CanonicalSignature(s) {
      CanonicalReencodes(s);
    }
    if EncodeSignature(d.octets) == s[..d.size] {
      EncodedIsCanonical(d.octets, s, d.size);
    }
  }

  lemma HalvesReencode(t: seq<byte>)
    requires DecodeHalves(t).Ok? && CanonicalInteger(t) && CanonicalInteger(t[2 + t[1]..])
    ensures var d := DecodeHalves(t).value; EncodeHalves(d.octets) == t[..d.size]
  {
    hide EncodeHalf, EncodeHalves;
    var t2 := t[2 + t[1]..];
    HalfReencodes(t);
    HalfReencodes(t2);
    JoinHalves(t, DecodeHalf(t).value, DecodeHalf(t2).value);
  }

  lemma JoinHalves(t: seq<byte>, r: Sized, u: Sized)
    requires |r.octets| == |u.octets| == 32 && r.size + u.size <= |t|
    requires EncodeHalf(r.octets) == t[..r.size] && EncodeHalf(u.octets) == t[r.size..][..u.size]
    ensures EncodeHalves(r.octets + u.octets) == t[..r.size + u.size]
  {
    var raw := r.octets + u.octets;
    assert raw[..32] == r.octets && raw[32..] == u.octets;
    assert t[..r.size + u.size] == t[..r.size] + t[r.size..][..u.size];
  }

  lemma ShortEnvelope(s: seq<byte>)
    requires DecodeEnvelope(s).Ok? && |s| >= 7 && s[1] < 128 && s[4] < 128
    ensures DecodeEnvelope(s).value == Envelope(s[1], s[4], 5) && s[..5] == [3, s[1], 0, 0x30, s[4]]
  {
    assert DecodeLength(s[1..]) == Ok(Length(s[1], 1));
    assert DecodeLength(s[4..]) == Ok(Length(s[4], 1));
  }

  lemma CanonicalReencodes(s: seq<byte>)
    requires DecodeSignature(s).Ok? && CanonicalSignature(s)
    ensures var d := DecodeSignature(s).value; EncodeSignature(d.octets) == s[..d.size]
  {
    hide DecodeEnvelope, DecodeHalves, CanonicalInteger, EncodeHalves, Wrapped;
    var t, d := s[5..], DecodeSignature(s).value;
    ShortEnvelope(s);
    assert s[6] == t[1];
    HalvesReencode(t);
    Rewrapped(s, EncodeHalves(d.octets));
  }

  lemma Rewrapped(s: seq<byte>, body: seq<byte>)
    requires |body| <= 70 && 5 + |body| <= |s| && s[5..][..|body|] == body
    requires s[..5] == [3, s[1], 0, 0x30, s[4]] && s[4] == |body| && s[1] == |body| + 3
    ensures Wrapped(body) == s[..5 + |body|]
  {
    assert s[..5 + |body|] == s[..5] + s[5..][..|body|];
  }

  lemma EncodedIsCanonical(raw: seq<byte>, s: seq<byte>, n: nat)
    requires |raw| == 64 && n <= |s| && s[..n] == EncodeSignature(raw)
    ensures CanonicalSignature(s)
  {
    var r, u := EncodeHalf(raw[..32]), EncodeHalf(raw[32..]);
    HalfIsCanonical(raw[..32], u + s[n..]);
    HalfIsCanonical(raw[32..], s[n..]);
    WrappedIsCanonical(r, u, s, n);
  }

  lemma WrappedIsCanonical(r: seq<byte>, u: seq<byte>, s: seq<byte>, n: nat)
    requires 3 <= |r| <= 35 && 3 <= |u| <= 35 && n <= |s| && s[..n] == Wrapped(r + u)
    requires CanonicalInteger(r + (u + s[n..])) && |r| == 2 + r[1] && CanonicalInteger(u + s[n..])
    ensures CanonicalSignature(s)
  {
    assert s == s[..n] + s[n..];
    assert s[5..] == r + (u + s[n..]);
    assert s[5..][|r|..] == u + s[n..];
    assert s[1] == s[..n][1] && s[4] == s[..n][4] && s[6] == s[..n][6];
  }

  // ----- Code -----

  /** atcacert_der_enc_ecdsa_sig_value, into `size` octets of the buffer from `at` on. */
  method EncSignature(rawSig: seq<byte>, derSig: array?<byte>, at: nat, size: nat)
    returns (status: Status, derSigSize: nat)
    requires |rawSig| == 64 && (derSig != null ==> at + size <= derSig.Length)
    modifies if derSig == null then {} else {derSig}
    ensures derSigSize == |EncodeSignature(rawSig)| && status == Answer(derSig, size, derSigSize)
    ensures derSig != null ==>
              derSig[..] == if status == Success then Overwrite(old(derSig[..]), at, EncodeSignature(rawSig))
                            else old(derSig[..])
  {
    var rSize, sSize: nat;
    status, rSize := EncInteger(rawSig[..32], true, null, 0, 0);
    status, sSize := EncInteger(rawSig[32..], true, null, 0, 0);
    derSigSize := 5 + rSize + sSize;
    if derSig != null && size < derSigSize {
      return BufferTooSmall, derSigSize;
    }
    if derSig == null {
      return Success, derSigSize;
    }
    PutSignature(rawSig, derSig, at, rSize, sSize);
    status := Success;
  }

  /** The writing half of atcacert_der_enc_ecdsa_sig_value. */
  method PutSignature(rawSig: seq<byte>, derSig: array<byte>, at: nat, rSize: nat, sSize: nat)
    requires |rawSig| == 64 && rSize == |EncodeHalf(rawSig[..32])| && sSize == |EncodeHalf(rawSig[32..])|
    requires at + 5 + rSize + sSize <= derSig.Length
    modifies derSig
    ensures derSig[..] == Overwrite(old(derSig[..]), at, EncodeSignature(rawSig))
  {
    hide DerLength.EncodeLength, DerInteger.Content;
    ghost var was := derSig[..];
    ghost var r, u := EncodeHalf(rawSig[..32]), EncodeHalf(rawSig[32..]);
    var head := [3, rSize + sSize + 3, 0, 0x30, rSize + sSize];
    Put(derSig, at, head);
    var status, n := EncInteger(rawSig[..32], true, derSig, at + 5, rSize);
    ghost var mid := derSig[..];
    status, n := EncInteger(rawSig[32..], true, derSig, at + 5 + rSize, sSize);
    PutThree(was, at, r, u, mid, derSig[..]);
  }

  lemma PutThree(was: seq<byte>, at: nat, r: seq<byte>, u: seq<byte>, mid: seq<byte>, now: seq<byte>)
    requires |r| + |u| <= 70 && at + 5 + |r| + |u| <= |was|
    requires mid == Overwrite(Overwrite(was, at, [3, |r| + |u| + 3, 0, 0x30, |r| + |u|]), at + 5, r)
    requires now == Overwrite(mid, at + 5 + |r|, u)
    ensures now == Overwrite(was, at, Wrapped(r + u))
  {
    var head: seq<byte> := [3, |r| + |u| + 3, 0, 0x30, |r| + |u|];
    OverwriteTwice(was, at, head, r);
    OverwriteTwice(was, at, head + r, u);
    assert head + r + u == Wrapped(r + u);
  }

  /** One integer of atcacert_der_dec_ecdsa_sig_value, into 32 octets of the raw signature. */
  method DecHalf(derSig: seq<byte>, rawSig: array<byte>, at: nat) returns (status: Status, size: nat)
    requires at + 32 <= rawSig.Length && rawSig[at..at + 32] == Zeros(32)
    modifies rawSig
    ensures match DecodeHalf(derSig)
            case Err(e) => status == e && rawSig[..] == old(rawSig[..])
            case Ok(d) => status == Success && size == d.size && rawSig[..] == Overwrite(old(rawSig[..]), at, d.octets)
  {
    if |derSig| == 0 {
      return DecodingError, 0;
    }
    var intData := new byte[33](_ => 0);
    var n: nat;
    status, size, n := DecInteger(derSig, intData, 33);
    if status != Success {
      return;
    }
    assert intData[..n] == DecodeInteger(derSig, 33).value;
    status := FitHalf(intData[..n], rawSig, at);
  }

  /** The content of one integer, right-aligned in 32 octets of the raw signature. */
  method FitHalf(intData: seq<byte>, rawSig: array<byte>, at: nat) returns (status: Status)
    requires |intData| <= 33 && at + 32 <= rawSig.Length && rawSig[at..at + 32] == Zeros(32)
    modifies rawSig
    ensures match Fitted(intData)
            case Err(e) => status == e && rawSig[..] == old(rawSig[..])
            case Ok(raw) => status == Success && rawSig[..] == Overwrite(old(rawSig[..]), at, raw)
  {
    ghost var was := rawSig[..];
    var n := |intData|;
    if n <= 32 {
      Put(rawSig, at + 32 - n, intData);
      PutPadded(was, at, intData);
    } else {
      if intData[0] != 0 {
        return DecodingError;
      }
      Put(rawSig, at, intData[1..]);
    }
    status := Success;
  }

  lemma PutPadded(s: seq<byte>, at: nat, c: seq<byte>)
    requires |c| <= 32 && at + 32 <= |s| && s[at..at + 32] == Zeros(32)
    ensures Overwrite(s, at + 32 - |c|, c) == Overwrite(s, at, Zeros(32 - |c|) + c)
  {
    assert s[at..at + 32 - |c|] == Zeros(32)[..32 - |c|] == Zeros(32 - |c|);
    assert s[..at + 32 - |c|] == s[..at] + s[at..at + 32 - |c|];
  }

  /** atcacert_der_dec_ecdsa_sig_value, into the first 64 octets of the caller's buffer. */
  method DecSignature(derSig: seq<byte>, rawSig: array<byte>) returns (status: Status, derSigSize: nat)
    requires rawSig.Length >= 64
    modifies rawSig
    ensures rawSig[64..] == old(rawSig[64..])
    ensures match DecodeSignature(derSig)
            case Err(e) => status == e
            case Ok(d) => status == Success && derSigSize == d.size && rawSig[..64] == d.octets
  {
    derSigSize := |derSig|;
    var currIdx, bsLength, seqLength, size: nat;
    status, currIdx, bsLength, seqLength := DecEnvelope(derSig);
    if status != Success {
      return;
    }
    status, size := DecHalves(derSig[currIdx..], rawSig);
    if status != Success {
      return;
    }
    if seqLength != size || bsLength != size + 3 {
      return DecodingError, derSigSize;
    }
    derSigSize := currIdx + size;
  }

  /** The tags and lengths of atcacert_der_dec_ecdsa_sig_value. */
  method DecEnvelope(derSig: seq<byte>) returns (status: Status, currIdx: nat, bsLength: nat, seqLength: nat)
    ensures match DecodeEnvelope(derSig)
            case Err(e) => status == e
            case Ok(v) => status == Success && Envelope(bsLength, seqLength, currIdx) == v
  {
    currIdx, bsLength, seqLength := 0, 0, 0;
    if |derSig| < 1 {
      return DecodingError, currIdx, bsLength, seqLength;
    }
    if derSig[0] != 3 {
      return DecodingError, currIdx, bsLength, seqLength;
    }
    var decSize: nat;
    status, decSize, bsLength := DecLength(derSig[1..]);
    if status != Success {
      return;
    }
    currIdx := 1 + decSize;
    if (currIdx + bsLength) % TWO32 > |derSig| || currIdx >= |derSig| || derSig[currIdx] != 0 {
      return DecodingError, currIdx, bsLength, seqLength;
    }
    currIdx := currIdx + 1;
    if currIdx >= |derSig| || derSig[currIdx] != 0x30 {
      return DecodingError, currIdx, bsLength, seqLength;
    }
    currIdx := currIdx + 1;
    if currIdx >= |derSig| {
      return DecodingError, currIdx, bsLength, seqLength;
    }
    status, decSize, seqLength := DecLength(derSig[currIdx..]);
    if status != Success {
      return;
    }
    currIdx := currIdx + decSize;
    if (currIdx + seqLength) % TWO32 > |derSig| {
      return DecodingError, currIdx, bsLength, seqLength;
    }
  }

  /** The two integers of atcacert_der_dec_ecdsa_sig_value. */
  method DecHalves(derSig: seq<byte>, rawSig: array<byte>) returns (status: Status, size: nat)
    requires rawSig.Length >= 64
    modifies rawSig
    ensures rawSig[64..] == old(rawSig[64..])
    ensures match DecodeHalves(derSig)
            case Err(e) => status == e
            case Ok(d) => status == Success && size == d.size && rawSig[..64] == d.octets
  {
    hide DecodeHalf;
    Put(rawSig, 0, Zeros(64));
    assert rawSig[0..32] == Zeros(64)[..32] == Zeros(32);
    assert rawSig[32..64] == Zeros(64)[32..] == Zeros(32);
    var rSize, sSize: nat;
    status, rSize := DecHalf(derSig, rawSig, 0);
    size := 0;
    if status != Success {
      return;
    }
    assert rawSig[..32] == DecodeHalf(derSig).value.octets && rawSig[32..64] == Zeros(32);
    status, sSize := DecHalf(derSig[rSize..], rawSig, 32);
    if status != Success {
      return;
    }
    size := rSize + sSize;
    assert rawSig[..32] == DecodeHalf(derSig).value.octets;
    assert rawSig[32..64] == DecodeHalf(derSig[rSize..]).value.octets;
    assert rawSig[..64] == rawSig[..32] + rawSig[32..64];
  }
}
