/**
 Certificates built from a definition (atcacert_def.c), as functions of the certificate's octets and size: its
 elements, its signature, and the compressed certificate that holds the parts of it that vary.
 */
module CertDef {
  import opened Bytes
  import opened Calendar
  import opened CertDate
  import opened DerLength
  import opened DerSignature
  import opened Status

  datatype CertType = X509 | Custom

  /** Where an element is in the template; none is there when the count is zero. */
  datatype CertLoc = CertLoc(offset: nat, count: nat)

  datatype CertDef = CertDef(
    certType: CertType,
    templateId: byte,
    chainId: byte,
    snSource: byte,
    issueFormat: Format,
    expireFormat: Format,
    expireYears: byte,
    signature: CertLoc,
    issueDate: CertLoc,
    expireDate: CertLoc,
    signerId: CertLoc,
    certSn: CertLoc,
    template: seq<byte>)

  // ----- Elements -----

  /** The serial number starts with its own length, which moves everything behind it. */
  predicate DynamicSn(def: CertDef) {
    def.certType == X509 && def.snSource == 7
  }

  /** The serial number's length can be read. */
  predicate SnReadable(def: CertDef, cert: seq<byte>) {
    DynamicSn(def) ==> def.certSn.offset < |cert| && def.certSn.offset < |def.template|
  }

  /** get_effective_offset */
  function EffectiveOffset(def: CertDef, cert: seq<byte>, offset: nat): int
    requires SnReadable(def, cert)
  {
    if !DynamicSn(def) || offset <= def.certSn.offset then 0
    else cert[def.certSn.offset] as int - def.template[def.certSn.offset]
  }

  function Place(def: CertDef, cert: seq<byte>, loc: CertLoc): int
    requires SnReadable(def, cert)
  {
    loc.offset + EffectiveOffset(def, cert, loc.offset)
  }

  /** The signature's place is kept in 16 bits. */
  function SignaturePlace(def: CertDef, cert: seq<byte>): nat
    requires SnReadable(def, cert)
  {
    Place(def, cert, def.signature) % 0x1_0000
  }

  /** A certificate fills the first `size` octets of its buffer. */
  datatype Outcome = Outcome(status: Status, cert: seq<byte>, size: nat)

  /** atcacert_set_cert_element. An element moved to before the certificate counts as out of bounds. */
  function SetElement(def: CertDef, loc: CertLoc, cert: seq<byte>, size: nat, data: seq<byte>): (r: Outcome)
    requires size <= |cert| && SnReadable(def, cert)
    ensures r.size == size && |r.cert| == |cert|
  {
    if loc.count == 0 then Outcome(Success, cert, size)
    else if !(DynamicSn(def) && loc.offset == def.certSn.offset) && |data| != loc.count then
      Outcome(UnexpectedElemSize, cert, size)
    else if Place(def, cert, loc) < 0 || Place(def, cert, loc) + |data| > size then Outcome(ElemOutOfBounds, cert, size)
    else Outcome(Success, Overwrite(cert, Place(def, cert, loc), data), size)
  }

  /** atcacert_get_cert_element */
  function GetElement(def: CertDef, loc: CertLoc, cert: seq<byte>, size: nat, n: nat): (r: Result<seq<byte>>)
    requires size <= |cert| && SnReadable(def, cert)
    ensures r.Ok? ==> |r.value| == n
    ensures r.Err? ==> r.status != Success && (r.status == ElemMissing <==> loc.count == 0)
  {
    if loc.count == 0 then Err(ElemMissing)
    else if loc.count != n then Err(UnexpectedElemSize)
    else if Place(def, cert, loc) < 0 || Place(def, cert, loc) + n > size then Err(ElemOutOfBounds)
    else Ok(cert[Place(def, cert, loc)..Place(def, cert, loc) + n])
  }

  /**
   Where an element is written: at the offset of its definition, and behind a serial number that tells its own length
   by as much later as that is longer than the template's. Nothing else changes.
   */
  lemma SetElementExactly(def: CertDef, loc: CertLoc, cert: seq<byte>, size: nat, data: seq<byte>)
    requires size <= |cert| && SnReadable(def, cert)
    ensures var dynamic := def.certType == X509 && def.snSource == 7;
            var at := loc.offset + if dynamic && loc.offset > def.certSn.offset
                                   then cert[def.certSn.offset] as int - def.template[def.certSn.offset] else 0;
            var r := SetElement(def, loc, cert, size, data);
            && r.size == size && |r.cert| == |cert|
            && r.status == (if loc.count == 0 then Success
                            else if |data| != loc.count && !(dynamic && loc.offset == def.certSn.offset) then
                              UnexpectedElemSize
                            else if 0 <= at && at + |data| <= size then Success else ElemOutOfBounds)
            && (if r.status == Success && loc.count != 0 then
                  && r.cert[at..at + |data|] == data
                  && (forall i :: 0 <= i < |cert| && !(at <= i < at + |data|) ==> r.cert[i] == cert[i])
                else r.cert == cert)
  {}

  /** An element is read from there, too. */
  lemma GetElementExactly(def: CertDef, loc: CertLoc, cert: seq<byte>, size: nat, n: nat)
    requires size <= |cert| && SnReadable(def, cert)
    ensures var at := loc.offset + if def.certType == X509 && def.snSource == 7 && loc.offset > def.certSn.offset
                                   then cert[def.certSn.offset] as int - def.template[def.certSn.offset] else 0;
            GetElement(def, loc, cert, size, n)
            == if loc.count == 0 then Err(ElemMissing)
               else if loc.count != n then Err(UnexpectedElemSize)
               else if 0 <= at && at + n <= size then Ok(cert[at..at + n]) else Err(ElemOutOfBounds)
  {}

  // ----- Signature -----

  /** What atcacert_set_signature does once the signature value is in place and the size is known. */
  function FixLength(cert: seq<byte>, size: nat, delta: int): (r: Outcome)
    requires 1 <= size <= |cert|
    ensures r.size == size && |r.cert| == |cert| && r.status != BufferTooSmall
  {
    match AdjustedLength(cert[1..size], delta)
    case Err(e) => Outcome(e, cert, size)
    case Ok(d) =>
      Outcome(if (1 + d.size + d.value) % TWO32 != size then BadCert else Success,
              Overwrite(cert, 1, EncodeLength(d.value)), size)
  }

  /** atcacert_set_signature, in a buffer with room for `max` octets */
  function SetSignature(def: CertDef, cert: seq<byte>, size: nat, max: nat, raw: seq<byte>): (r: Outcome)
    requires size <= max <= |cert| && |raw| == 64 && SnReadable(def, cert)
    ensures |r.cert| == |cert| && (r.status != BufferTooSmall ==> r.size <= max)
  {
    if def.certType != X509 then SetElement(def, def.signature, cert, size, raw)
    else
      var at, e := SignaturePlace(def, cert), EncodeSignature(raw);
      if at >= size then Outcome(ElemOutOfBounds, cert, size)
      else if max - at < |e| then Outcome(BufferTooSmall, cert, at + |e|)
      else FixLength(Overwrite(cert, at, e), at + |e|, at + |e| - size)
  }

  /** atcacert_get_signature */
  function GetSignature(def: CertDef, cert: seq<byte>, size: nat): (r: Result<seq<byte>>)
    requires size <= |cert| && SnReadable(def, cert)
    ensures r.Ok? ==> |r.value| == 64
    ensures r.Err? ==> r.status != Success
  {
    if def.certType != X509 then GetElement(def, def.signature, cert, size, 64)
    else if SignaturePlace(def, cert) >= size then Err(ElemOutOfBounds)
    else
      match DecodeSignature(cert[SignaturePlace(def, cert)..size])
      case Err(e) => Err(e)
      case Ok(d) => Ok(d.octets)
  }

  // ----- Laws of the signature -----

  /** The tag and length at the start of the certificate: how many octets, or none if they do not decode. */
  function HeaderSize(cert: seq<byte>, size: nat): nat
    requires 1 <= size <= |cert|
  {
    match DecodeLength(cert[1..size])
    case Err(_) => 0
    case Ok(d) => 1 + d.size
  }

  /** The signature lies behind the header, and the serial number's length, if it has one, between them. */
  predicate SignatureBehind(def: CertDef, cert: seq<byte>, size: nat) {
    && def.certType == X509 && SnReadable(def, cert)
    && SignaturePlace(def, cert) < size <= |cert|
    && 2 <= HeaderSize(cert, size) <= SignaturePlace(def, cert)
    && (DynamicSn(def) ==> HeaderSize(cert, size) <= def.certSn.offset < SignaturePlace(def, cert))
  }

  lemma LengthPrefix(s: seq<byte>, t: seq<byte>)
    requires DecodeLength(s).Ok?
    requires DecodeLength(s).value.size <= |t| && t[..DecodeLength(s).value.size] == s[..DecodeLength(s).value.size]
    ensures DecodeLength(t) == DecodeLength(s)
  {
    var k := DecodeLength(s).value.size;
    assert t[0] == t[..k][0] == s[0];
    if s[0] >= 0x80 {
      assert t[1..k] == t[..k][1..] == s[1..k];
    }
  }

  /** The length in front of the signature is the same before and after the signature is put. */
  lemma HeaderStays(cert: seq<byte>, size: nat, at: nat, e: seq<byte>)
    requires 1 <= size <= |cert| && at < size && at + |e| <= |cert| && |e| >= 1
    requires 2 <= HeaderSize(cert, size) <= at
    ensures DecodeLength(Overwrite(cert, at, e)[1..at + |e|]) == DecodeLength(cert[1..size])
  {
    var k := HeaderSize(cert, size) - 1;
    var s, t := cert[1..size], Overwrite(cert, at, e)[1..at + |e|];
    assert t[..k] == s[..k];
    LengthPrefix(s, t);
  }

  /** In a certificate whose outer length is right, a new signature is set exactly when it fits the buffer and
      the new outer length fits the field of the old one. */
  lemma ResignSucceeds(def: CertDef, cert: seq<byte>, size: nat, max: nat, raw: seq<byte>)
    requires size <= max <= |cert| < TWO32 && |raw| == 64 && SignatureBehind(def, cert, size)
    requires HeaderSize(cert, size) + DecodeLength(cert[1..size]).value.value == size
    ensures var end := SignaturePlace(def, cert) + |EncodeSignature(raw)|;
            SetSignature(def, cert, size, max, raw).status == Success
            <==> end <= max && |EncodeLength(end - HeaderSize(cert, size))| == HeaderSize(cert, size) - 1
  {
    hide EncodeSignature, DecodeLength, EncodeLength, EffectiveOffset;
    var at, e := SignaturePlace(def, cert), EncodeSignature(raw);
    if at + |e| <= max {
      HeaderStays(cert, size, at, e);
    }
  }

  /** The certificate with a new signature at `at` and a new outer length. */
  lemma FixedLength(cert: seq<byte>, size: nat, delta: int, r: Outcome)
    requires 8 <= size <= |cert| && r == FixLength(cert, size, delta) && r.status == Success
    ensures DecodeLength(cert[1..size]).Ok? && DecodeLength(r.cert[1..size]).Ok?
    ensures HeaderSize(r.cert, size) == HeaderSize(cert, size)
    ensures HeaderSize(r.cert, size) + DecodeLength(r.cert[1..size]).value.value == size
    ensures forall i :: 0 <= i < |cert| && !(1 <= i < HeaderSize(cert, size)) ==> r.cert[i] == cert[i]
  {
    hide DecodeLength, EncodeLength;
    var d := AdjustedLength(cert[1..size], delta).value;
    var e := EncodeLength(d.value);
    var suffix := r.cert[1 + |e|..size];
    AdjustedDecodes(cert[1..size], delta, suffix);
    assert r.cert[1..size] == e + suffix;
    LengthRoundTrip(d.value, suffix);
  }

  /** Setting a signature succeeds only with an outer length that spans the new certificate; the signature then
      reads back, and nothing outside the outer length and the signature has changed. */
  lemma ResignKeeps(def: CertDef, cert: seq<byte>, size: nat, max: nat, raw: seq<byte>)
    requires size <= max <= |cert| && |raw| == 64 && SignatureBehind(def, cert, size)
    requires SetSignature(def, cert, size, max, raw).status == Success
    ensures var r, header := SetSignature(def, cert, size, max, raw), HeaderSize(cert, size);
            var at := SignaturePlace(def, cert);
            && DecodeLength(r.cert[1..r.size]).Ok? && HeaderSize(r.cert, r.size) == header
            && header + DecodeLength(r.cert[1..r.size]).value.value == r.size == at + |EncodeSignature(raw)|
            && SignatureBehind(def, r.cert, r.size) && SignaturePlace(def, r.cert) == at
            && GetSignature(def, r.cert, r.size) == Ok(raw)
            && (forall i :: 0 <= i < |cert| && !(1 <= i < header || at <= i < r.size) ==> r.cert[i] == cert[i])
  {
    hide EncodeSignature, DecodeLength, DecodeSignature, FixLength;
    var r, header := SetSignature(def, cert, size, max, raw), HeaderSize(cert, size);
    var at, e := SignaturePlace(def, cert), EncodeSignature(raw);
    var cert1 := Overwrite(cert, at, e);
    HeaderStays(cert, size, at, e);
    FixedLength(cert1, at + |e|, at + |e| - size, r);
    assert SignaturePlace(def, r.cert) == at;
    assert r.cert[at..r.size] == e + [];
    SignatureRoundTrip(raw, []);
  }

  /** The signature of an X.509 certificate stands at the offset of its definition, moved like an element and kept in
      16 bits, and of any other certificate it is an element. */
  lemma SignatureExactly(def: CertDef, cert: seq<byte>, size: nat, max: nat, raw: seq<byte>, at: nat)
    requires size <= max <= |cert| && |raw| == 64 && SnReadable(def, cert)
    requires var dynamic := def.certType == X509 && def.snSource == 7;
             at == (def.signature.offset
                    + if dynamic && def.signature.offset > def.certSn.offset
                      then cert[def.certSn.offset] as int - def.template[def.certSn.offset] else 0) % 65536
    ensures def.certType != X509 ==>
              && SetSignature(def, cert, size, max, raw) == SetElement(def, def.signature, cert, size, raw)
              && GetSignature(def, cert, size) == GetElement(def, def.signature, cert, size, 64)
    ensures def.certType == X509 ==>
              GetSignature(def, cert, size)
              == if at >= size then Err(ElemOutOfBounds)
                 else match DecodeSignature(cert[at..size]) { case Err(e) => Err(e) case Ok(d) => Ok(d.octets) }
    ensures def.certType == X509 && at >= size ==>
              SetSignature(def, cert, size, max, raw) == Outcome(ElemOutOfBounds, cert, size)
    ensures def.certType == X509 && at < size ==>
              var end := at + |EncodeSignature(raw)|;
              SetSignature(def, cert, size, max, raw) == Outcome(BufferTooSmall, cert, end) <==> end > max
    ensures var r := SetSignature(def, cert, size, max, raw);
            r.status == Success && SignatureBehind(def, cert, size) ==>
              at <= r.size <= |r.cert| && r.cert[at..r.size] == EncodeSignature(raw)
  {
    hide EncodeSignature, DecodeSignature, FixLength, HeaderSize;
    assert at == SignaturePlace(def, cert);
    if SignatureBehind(def, cert, size) && SetSignature(def, cert, size, max, raw).status == Success {
      SignatureWritten(def, cert, size, max, raw);
    }
  }

  lemma SignatureWritten(def: CertDef, cert: seq<byte>, size: nat, max: nat, raw: seq<byte>)
    requires size <= max <= |cert| && |raw| == 64 && SignatureBehind(def, cert, size)
    requires SetSignature(def, cert, size, max, raw).status == Success
    ensures var r, at := SetSignature(def, cert, size, max, raw), SignaturePlace(def, cert);
            at <= r.size <= |r.cert| && r.cert[at..r.size] == EncodeSignature(raw)
  {
    hide EncodeSignature, DecodeLength, DecodeSignature, FixLength;
    var at, e := SignaturePlace(def, cert), EncodeSignature(raw);
    HeaderStays(cert, size, at, e);
    FixedLength(Overwrite(cert, at, e), at + |e|, at + |e| - size, SetSignature(def, cert, size, max, raw));
  }

  /** A buffer that is too small is left alone, and the size reported is the one needed. */
  lemma ResignTooSmall(def: CertDef, cert: seq<byte>, size: nat, max: nat, raw: seq<byte>)
    requires size <= max <= |cert| && |raw| == 64 && def.certType == X509 && SnReadable(def, cert)
    requires SetSignature(def, cert, size, max, raw).status == BufferTooSmall
    ensures var r := SetSignature(def, cert, size, max, raw);
            r.cert == cert && forall m :: size <= m <= |cert| ==>
              (SetSignature(def, cert, size, m, raw).status == BufferTooSmall <==> m < r.size)
  {}
}
