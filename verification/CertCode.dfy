/** The certificate code itself (atcacert_def.c), which works on the octets of a buffer in place. */
module CertCode {
  import opened Bytes
  import opened Calendar
  import opened CertDate
  import opened CertDef
  import opened CompCert
  import opened DateCode
  import opened DerLength
  import opened DerSignature
  import opened Status

  /** atcacert_set_cert_element */
  method SetCertElement(def: CertDef, loc: CertLoc, cert: array<byte>, size: nat, data: seq<byte>)
    returns (status: Status)
    requires size <= cert.Length && SnReadable(def, cert[..])
    modifies cert
    ensures Outcome(status, cert[..], size) == SetElement(def, loc, old(cert[..]), size, data)
  {
    if loc.count == 0 {
      return Success;
    }
    if !(def.certType == X509 && def.snSource == 7 && loc.offset == def.certSn.offset) && |data| != loc.count {
      return UnexpectedElemSize;
    }
    var at := Place(def, cert[..], loc);
    if at < 0 || at + |data| > size {
      return ElemOutOfBounds;
    }
    Put(cert, at, data);
    status := Success;
  }

  /** atcacert_get_cert_element */
  method GetCertElement(def: CertDef, loc: CertLoc, cert: array<byte>, size: nat, n: nat)
    returns (status: Status, data: seq<byte>)
    requires size <= cert.Length && SnReadable(def, cert[..])
    ensures match GetElement(def, loc, cert[..], size, n)
            case Err(e) => status == e
            case Ok(d) => status == Success && data == d
  {
    data := [];
    if loc.count == 0 {
      return ElemMissing, data;
    }
    if loc.count != n {
      return UnexpectedElemSize, data;
    }
    var at := Place(def, cert[..], loc);
    if at < 0 || at + n > size {
      return ElemOutOfBounds, data;
    }
    status, data := Success, cert[at..at + n];
  }

  /** atcacert_set_signature */
  method SetSignatureIn(def: CertDef, cert: array<byte>, size: nat, max: nat, signature: seq<byte>)
    returns (status: Status, newSize: nat)
    requires size <= max <= cert.Length && |signature| == 64 && SnReadable(def, cert[..])
    modifies cert
    ensures Outcome(status, cert[..], newSize) == SetSignature(def, old(cert[..]), size, max, signature)
  {
    hide EncodeSignature, FixLength;
    newSize := size;
    if def.certType != X509 {
      status := SetCertElement(def, def.signature, cert, size, signature);
      return;
    }
    var sigOffset := SignaturePlace(def, cert[..]);
    if sigOffset >= size {
      return ElemOutOfBounds, newSize;
    }
    var cur := size - sigOffset;
    var newDer: nat;
    status, newDer := EncSignature(signature, cert, sigOffset, max - sigOffset);
    newSize := size + (newDer - cur);
    if status != Success {
      return;
    }
    status := AdjustOuterLength(cert, newSize, newDer - cur);
  }

  /** The last steps of atcacert_set_signature. */
  method AdjustOuterLength(cert: array<byte>, size: nat, delta: int) returns (status: Status)
    requires 1 <= size <= cert.Length
    modifies cert
    ensures Outcome(status, cert[..], size) == FixLength(old(cert[..]), size, delta)
  {
    hide AdjustedLength, EncodeLength;
    var lengthSize, newLength: nat;
    status, lengthSize, newLength := AdjustLength(cert, 1, size - 1, delta);
    if status != Success {
      return;
    }
    if (1 + lengthSize + newLength) % TWO32 != size {
      return BadCert;
    }
  }

  /** atcacert_get_signature, into the first 64 octets of the caller's buffer */
  method GetSignatureFrom(def: CertDef, cert: array<byte>, size: nat, signature: array<byte>) returns (status: Status)
    requires size <= cert.Length && signature.Length >= 64 && signature != cert && SnReadable(def, cert[..])
    modifies signature
    ensures signature[64..] == old(signature[64..])
    ensures match GetSignature(def, cert[..], size)
            case Err(e) => status == e
            case Ok(raw) => status == Success && signature[..64] == raw
  {
    hide DecodeSignature;
    if def.certType != X509 {
      var data: seq<byte>;
      status, data := GetCertElement(def, def.signature, cert, size, 64);
      if status == Success {
        Put(signature, 0, data);
      }
      return;
    }
    var sigOffset := SignaturePlace(def, cert[..]);
    if sigOffset >= size {
      return ElemOutOfBounds;
    }
    var derSize: nat;
    assert cert[sigOffset..size] == cert[..][sigOffset..size];
    status, derSize := DecSignature(cert[sigOffset..size], signature);
  }

  /** atcacert_set_issue_date and atcacert_set_expire_date */
  method SetDateIn(def: CertDef, format: Format, loc: CertLoc, cert: array<byte>, size: nat, timestamp: Tm)
    returns (status: Status)
    requires size <= cert.Length && SnReadable(def, cert[..])
    modifies cert
    ensures Outcome(status, cert[..], size) == SetDate(def, format, loc, old(cert[..]), size, timestamp)
  {
    hide DateEnc, SetElement;
    if loc.count == 0 {
      return Success;
    }
    var formatted := new byte[20](_ => 0);
    var formattedSize: nat;
    status, formattedSize := EncDate(format, timestamp, formatted, 20);
    if status != Success {
      return;
    }
    assert formatted[..formattedSize] == DateEnc(format, timestamp).value;
    status := SetCertElement(def, loc, cert, size, formatted[..formattedSize]);
  }

  /** atcacert_get_issue_date and atcacert_get_expire_date */
  method GetDateFrom(def: CertDef, format: Format, loc: CertLoc, cert: array<byte>, size: nat)
    returns (status: Status, timestamp: Tm)
    requires size <= cert.Length && SnReadable(def, cert[..])
    ensures match GetDate(def, format, loc, cert[..], size)
            case Err(e) => status == e
            case Ok(d) => status == Success && timestamp == d
  {
    hide DateDec, GetElement;
    timestamp := LOWEST;
    var formatted: seq<byte>;
    status, formatted := GetCertElement(def, loc, cert, size, FormatSize(format));
    if status != Success {
      return;
    }
    status, timestamp := DecDate(format, formatted);
  }

  /** atcacert_set_signer_id */
  method SetSignerIdIn(def: CertDef, cert: array<byte>, size: nat, signerId: seq<byte>) returns (status: Status)
    requires size <= cert.Length && |signerId| == 2 && SnReadable(def, cert[..])
    modifies cert
    ensures Outcome(status, cert[..], size) == SetSignerId(def, old(cert[..]), size, signerId)
  {
    hide SetElement, HexByte;
    status := SetCertElement(def, def.signerId, cert, size, HexByte(signerId[0]) + HexByte(signerId[1]));
  }

  /** atcacert_get_signer_id */
  method GetSignerIdFrom(def: CertDef, cert: array<byte>, size: nat) returns (status: Status, signerId: seq<byte>)
    requires size <= cert.Length && SnReadable(def, cert[..])
    ensures match GetSignerId(def, cert[..], size)
            case Err(e) => status == e
            case Ok(id) => status == Success && signerId == id
  {
    hide GetElement, UnhexByte;
    signerId := [];
    var hex: seq<byte>;
    status, hex := GetCertElement(def, def.signerId, cert, size, 4);
    if status != Success {
      return;
    }
    var high := UnhexByte(hex[..2]);
    if high.Err? {
      return high.status, signerId;
    }
    var low := UnhexByte(hex[2..]);
    if low.Err? {
      return low.status, signerId;
    }
    signerId := [high.value, low.value];
  }

  /** atcacert_set_comp_cert */
  method SetCompCertIn(def: CertDef, cert: array<byte>, size: nat, max: nat, compCert: seq<byte>)
    returns (status: Status, newSize: nat)
    requires size <= max <= cert.Length && |compCert| == 72 && SnReadable(def, cert[..])
    modifies cert
    ensures Outcome(status, cert[..], newSize) == SetCompCert(def, old(cert[..]), size, max, compCert)
  {
    hide SetSignature, SetParts;
    newSize := size;
    if compCert[70] % 16 != 0 {
      return DecodingError, newSize;
    }
    if compCert[69] / 16 != def.templateId || compCert[69] % 16 != def.chainId || compCert[70] / 16 != def.snSource {
      return WrongCertDef, newSize;
    }
    status, newSize := SetSignatureIn(def, cert, size, max, compCert[..64]);
    if status != Success {
      return;
    }
    status := SetPartsIn(def, cert, newSize, compCert[64..67], compCert[67..69]);
  }

  /** The steps of atcacert_set_comp_cert behind the signature. */
  method SetPartsIn(def: CertDef, cert: array<byte>, size: nat, encDates: seq<byte>, signerId: seq<byte>)
    returns (status: Status)
    requires size <= cert.Length && |encDates| == 3 && |signerId| == 2 && SnReadable(def, cert[..])
    modifies cert
    ensures Outcome(status, cert[..], size) == SetParts(def, old(cert[..]), size, encDates, signerId)
  {
    hide SetDate, SetSignerId, CompIssue, CompExpire;
    status := SetDateIn(def, def.issueFormat, def.issueDate, cert, size, CompIssue(encDates));
    if status != Success {
      return;
    }
    status := SetDateIn(def, def.expireFormat, def.expireDate, cert, size, CompExpire(encDates, def.expireFormat));
    if status != Success {
      return;
    }
    status := SetSignerIdIn(def, cert, size, signerId);
  }

  /** atcacert_get_comp_cert */
  method GetCompCertFrom(def: CertDef, cert: array<byte>, size: nat, compCert: array<byte>) returns (status: Status)
    requires size <= cert.Length && compCert.Length == 72 && compCert != cert && SnReadable(def, cert[..])
    modifies compCert
    ensures match GetCompCert(def, cert[..], size)
            case Err(e) => status == e
            case Ok(comp) => status == Success && compCert[..] == comp
  {
    hide GetSignature, GetDate, GetSignerId, EncCompcert;
    status := GetSignatureFrom(def, cert, size, compCert);
    if status != Success {
      return;
    }
    var issue: Tm;
    status, issue := GetDateFrom(def, def.issueFormat, def.issueDate, cert, size);
    if status == ElemMissing {
      issue := LOWEST;
    } else if status != Success {
      return;
    }
    var dates := EncCompcert(issue, def.expireYears);
    if dates.Err? {
      return dates.status;
    }
    var id: seq<byte>;
    status, id := GetSignerIdFrom(def, cert, size);
    if status == ElemMissing {
      id := [0, 0];
    } else if status != Success {
      return;
    }
    Put(compCert, 64, dates.value + id + [def.templateId % 16 * 16 + def.chainId % 16, def.snSource % 16 * 16, 0]);
    status := Success;
  }
}
