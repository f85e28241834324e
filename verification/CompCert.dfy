/**
 Compressed certificates (atcacert_def.c): 72 octets that hold a certificate's signature, its dates, its
 signer's number and the definition it goes with.
 */
module CompCert {
  import opened Bytes
  import opened Calendar
  import opened CertDate
  import opened CertDef
  import opened DerSignature
  import opened Status

  // ----- Hexadecimal -----

  function Hex(n: nat): byte
    requires n < 16
  {
    if n < 10 then 48 + n else 55 + n
  }

  /** uint8_to_hex */
  function HexByte(b: byte): seq<byte> {
    [Hex(b / 16), Hex(b % 16)]
  }

  function Unhex(c: byte): (r: Result<nat>)
    ensures r.Ok? ==> r.value < 16
    ensures r.Err? ==> r.status == DecodingError
  {
    if 48 <= c <= 57 then Ok(c - 48)
    else if 65 <= c <= 70 then Ok(c - 55)
    else if 97 <= c <= 102 then Ok(c - 87)
    else Err(DecodingError)
  }

  /** hex_to_uint8 */
  function UnhexByte(s: seq<byte>): (r: Result<byte>)
    requires |s| == 2
    ensures r.Err? ==> r.status == DecodingError
  {
    match Unhex(s[0])
    case Err(e) => Err(e)
    case Ok(high) =>
      match Unhex(s[1])
      case Err(e) => Err(e)
      case Ok(low) => Ok(high * 16 + low)
  }

  lemma HexRoundTrip(b: byte)
    ensures UnhexByte(HexByte(b)) == Ok(b)
  {
    assert b == b / 16 * 16 + b % 16;
  }

  /** A pair of digits that is read is written back as it was exactly when its letters are capitals. */
  lemma HexReencodes(s: seq<byte>)
    requires |s| == 2 && UnhexByte(s).Ok?
    ensures HexByte(UnhexByte(s).value) == s <==> s[0] <= 70 && s[1] <= 70
  {
    var high, low := Unhex(s[0]).value, Unhex(s[1]).value;
    assert (high * 16 + low) / 16 == high && (high * 16 + low) % 16 == low;
  }

  /** The digits written are capitals; both cases are read. */
  lemma HexDigits(b: byte)
    ensures HexByte(b) == ["0123456789ABCDEF"[b / 16] as int, "0123456789ABCDEF"[b % 16] as int]
  {
    HexDigit(b / 16);
    HexDigit(b % 16);
  }

  lemma HexDigit(n: nat)
    requires n < 16
    ensures Hex(n) == "0123456789ABCDEF"[n] as int
  {}

  lemma UnhexDigit(c: byte, n: nat)
    requires n < 16
    ensures Unhex(c) == Ok(n) <==> c == "0123456789ABCDEF"[n] as int || c == "0123456789abcdef"[n] as int
  {}

  /** Exactly these pairs of digits are read as an octet. */
  lemma HexRead(s: seq<byte>, b: byte)
    requires |s| == 2
    ensures var capitals, letters := "0123456789ABCDEF", "0123456789abcdef";
            UnhexByte(s) == Ok(b)
            <==> && (s[0] == capitals[b / 16] as int || s[0] == letters[b / 16] as int)
                 && (s[1] == capitals[b % 16] as int || s[1] == letters[b % 16] as int)
  {
    hide Unhex;
    UnhexDigit(s[0], b / 16);
    UnhexDigit(s[1], b % 16);
  }

  // ----- Dates and signer in the certificate -----

  /** atcacert_set_issue_date and atcacert_set_expire_date */
  function SetDate(def: CertDef, f: Format, loc: CertLoc, cert: seq<byte>, size: nat, d: Tm): (r: Outcome)
    requires size <= |cert| && SnReadable(def, cert)
    ensures r.size == size && |r.cert| == |cert|
  {
    if loc.count == 0 then Outcome(Success, cert, size)
    else
      match DateEnc(f, d)
      case Err(e) => Outcome(e, cert, size)
      case Ok(s) => SetElement(def, loc, cert, size, s)
  }

  /** atcacert_get_issue_date and atcacert_get_expire_date */
  function GetDate(def: CertDef, f: Format, loc: CertLoc, cert: seq<byte>, size: nat): (r: Result<Tm>)
    requires size <= |cert| && SnReadable(def, cert)
    ensures r.Err? ==> r.status != Success && (r.status == ElemMissing <==> loc.count == 0)
    ensures r.Ok? ==> loc.count != 0
  {
    match GetElement(def, loc, cert, size, FormatSize(f))
    case Err(e) => Err(e)
    case Ok(s) => DateDec(f, s)
  }

  /** atcacert_set_signer_id */
  function SetSignerId(def: CertDef, cert: seq<byte>, size: nat, id: seq<byte>): (r: Outcome)
    requires size <= |cert| && SnReadable(def, cert) && |id| == 2
    ensures r.size == size && |r.cert| == |cert|
  {
    SetElement(def, def.signerId, cert, size, HexByte(id[0]) + HexByte(id[1]))
  }

  /** atcacert_get_signer_id */
  function GetSignerId(def: CertDef, cert: seq<byte>, size: nat): (r: Result<seq<byte>>)
    requires size <= |cert| && SnReadable(def, cert)
    ensures r.Ok? ==> |r.value| == 2 && def.signerId.count != 0
    ensures r.Err? ==> r.status != Success && (r.status == ElemMissing <==> def.signerId.count == 0)
  {
    match GetElement(def, def.signerId, cert, size, 4)
    case Err(e) => Err(e)
    case Ok(hex) =>
      match UnhexByte(hex[..2])
      case Err(e) => Err(e)
      case Ok(high) =>
        match UnhexByte(hex[2..])
        case Err(e) => Err(e)
        case Ok(low) => Ok([high, low])
  }

  // ----- Compressed certificates -----

  /** The definition that the compressed certificate says it goes with. */
  predicate GoesWith(def: CertDef, comp: seq<byte>)
    requires |comp| == 72
  {
    comp[69] / 16 == def.templateId && comp[69] % 16 == def.chainId && comp[70] / 16 == def.snSource
  }

  /** The elements that atcacert_set_comp_cert sets behind the signature. */
  function SetParts(def: CertDef, cert: seq<byte>, size: nat, dates: seq<byte>, id: seq<byte>): (r: Outcome)
    requires size <= |cert| && SnReadable(def, cert) && |dates| == 3 && |id| == 2
    ensures r.size == size && |r.cert| == |cert|
  {
    var issued := SetDate(def, def.issueFormat, def.issueDate, cert, size, CompIssue(dates));
    if issued.status != Success then issued
    else
      var expire := CompExpire(dates, def.expireFormat);
      var expired := SetDate(def, def.expireFormat, def.expireDate, issued.cert, size, expire);
      if expired.status != Success then expired else SetSignerId(def, expired.cert, size, id)
  }

  /** atcacert_set_comp_cert */
  function SetCompCert(def: CertDef, cert: seq<byte>, size: nat, max: nat, comp: seq<byte>): (r: Outcome)
    requires size <= max <= |cert| && |comp| == 72 && SnReadable(def, cert)
    ensures |r.cert| == |cert|
  {
    if comp[70] % 16 != 0 then Outcome(DecodingError, cert, size)
    else if !GoesWith(def, comp) then Outcome(WrongCertDef, cert, size)
    else
      var signed := SetSignature(def, cert, size, max, comp[..64]);
      if signed.status != Success then signed
      else SetParts(def, signed.cert, signed.size, comp[64..67], comp[67..69])
  }

  /** The lowest possible date, which stands for an issue date that the certificate does not have. */
  const LOWEST := Tm(2000 - 1900, 0, 1, 0, 0, 0)

  /** atcacert_get_comp_cert */
  function GetCompCert(def: CertDef, cert: seq<byte>, size: nat): (r: Result<seq<byte>>)
    requires size <= |cert| && SnReadable(def, cert)
    ensures r.Ok? ==> |r.value| == 72
  {
    match GetSignature(def, cert, size)
    case Err(e) => Err(e)
    case Ok(raw) =>
      var issue := GetDate(def, def.issueFormat, def.issueDate, cert, size);
      if issue.Err? && issue.status != ElemMissing then Err(issue.status)
      else
        match EncCompcert(if issue.Ok? then issue.value else LOWEST, def.expireYears)
        case Err(e) => Err(e)
        case Ok(dates) =>
          var id := GetSignerId(def, cert, size);
          if id.Err? && id.status != ElemMissing then Err(id.status)
          else
            Ok(raw + dates + (if id.Ok? then id.value else [0, 0])
               + [def.templateId % 16 * 16 + def.chainId % 16, def.snSource % 16 * 16, 0])
  }

  // ----- Laws -----

  /** Two elements do not share an octet. */
  predicate Apart(def: CertDef, cert: seq<byte>, a: CertLoc, b: CertLoc)
    requires SnReadable(def, cert)
  {
    || a.count == 0 || b.count == 0
    || Place(def, cert, a) + a.count <= Place(def, cert, b)
    || Place(def, cert, b) + b.count <= Place(def, cert, a)
  }

  /** An element leaves the serial number's length alone. */
  predicate ClearOfSn(def: CertDef, cert: seq<byte>, loc: CertLoc)
    requires SnReadable(def, cert)
  {
    DynamicSn(def) && loc.count != 0 ==>
      def.certSn.offset < Place(def, cert, loc) || Place(def, cert, loc) + loc.count <= def.certSn.offset
  }

  /** An element leaves the signature alone: it lies before it or, in a certificate of a custom form, apart. */
  predicate ClearOfSignature(def: CertDef, cert: seq<byte>, loc: CertLoc)
    requires SnReadable(def, cert)
  {
    if def.certType == X509 then loc.count == 0 || Place(def, cert, loc) + loc.count <= SignaturePlace(def, cert)
    else Apart(def, cert, loc, def.signature)
  }

  predicate Clear(def: CertDef, cert: seq<byte>, loc: CertLoc)
    requires SnReadable(def, cert)
  {
    ClearOfSn(def, cert, loc) && ClearOfSignature(def, cert, loc)
  }

  /** The parts that a compressed certificate sets share no octet. */
  predicate WellLaid(def: CertDef, cert: seq<byte>)
    requires SnReadable(def, cert)
  {
    && Clear(def, cert, def.issueDate) && Clear(def, cert, def.expireDate) && Clear(def, cert, def.signerId)
    && Apart(def, cert, def.issueDate, def.expireDate)
    && Apart(def, cert, def.issueDate, def.signerId)
    && Apart(def, cert, def.expireDate, def.signerId)
  }

  /** The serial number's length is the same in both, and so is the place of every element. */
  predicate SamePlaces(def: CertDef, cert: seq<byte>, now: seq<byte>)
    requires SnReadable(def, cert)
  {
    |cert| == |now| && (DynamicSn(def) ==> cert[def.certSn.offset] == now[def.certSn.offset])
  }

  lemma PlacesStay(def: CertDef, cert: seq<byte>, now: seq<byte>)
    requires SnReadable(def, cert) && SamePlaces(def, cert, now)
    ensures forall loc :: Place(def, now, loc) == Place(def, cert, loc)
    ensures WellLaid(def, cert) == WellLaid(def, now)
  {
    forall loc: CertLoc ensures Place(def, now, loc) == Place(def, cert, loc) {
      PlaceStays(def, cert, now, loc);
    }
  }

  lemma PlaceStays(def: CertDef, cert: seq<byte>, now: seq<byte>, loc: CertLoc)
    requires SnReadable(def, cert) && SamePlaces(def, cert, now)
    ensures Place(def, now, loc) == Place(def, cert, loc)
  {}

  lemma ElementReads(def: CertDef, loc: CertLoc, cert: seq<byte>, size: nat, data: seq<byte>)
    requires size <= |cert| && SnReadable(def, cert) && ClearOfSn(def, cert, loc)
    requires SetElement(def, loc, cert, size, data).status == Success
    ensures var now := SetElement(def, loc, cert, size, data).cert;
            && SamePlaces(def, cert, now)
            && (loc.count != 0 ==> GetElement(def, loc, now, size, |data|) == Ok(data))
  {
    if loc.count != 0 {
      var at := Place(def, cert, loc);
      assert Overwrite(cert, at, data)[at..at + |data|] == data;
    }
  }

  lemma SliceKept(s: seq<byte>, at: nat, data: seq<byte>, from: nat, to: nat)
    requires at + |data| <= |s| && from <= to <= |s| && (to <= at || at + |data| <= from)
    ensures Overwrite(s, at, data)[from..to] == s[from..to]
  {}

  lemma ElementStays(def: CertDef, loc: CertLoc, other: CertLoc, cert: seq<byte>, size: nat, data: seq<byte>, n: nat)
    requires size <= |cert| && SnReadable(def, cert) && ClearOfSn(def, cert, loc) && Apart(def, cert, loc, other)
    requires SetElement(def, loc, cert, size, data).status == Success
    ensures var now := SetElement(def, loc, cert, size, data).cert;
            GetElement(def, other, now, size, n) == GetElement(def, other, cert, size, n)
  {
    ElementReads(def, loc, cert, size, data);
    var now := SetElement(def, loc, cert, size, data).cert;
    PlacesStay(def, cert, now);
    var at := Place(def, cert, other);
    if loc.count != 0 && GetElement(def, other, cert, size, n).Ok? {
      SliceKept(cert, Place(def, cert, loc), data, at, at + n);
    }
  }

  lemma SignatureStays(def: CertDef, loc: CertLoc, cert: seq<byte>, size: nat, data: seq<byte>)
    requires size <= |cert| && SnReadable(def, cert) && Clear(def, cert, loc)
    requires SetElement(def, loc, cert, size, data).status == Success
    ensures var now := SetElement(def, loc, cert, size, data).cert;
            GetSignature(def, now, size) == GetSignature(def, cert, size)
  {
    hide DecodeSignature;
    if def.certType == X509 {
      ElementReads(def, loc, cert, size, data);
      var now := SetElement(def, loc, cert, size, data).cert;
      PlacesStay(def, cert, now);
      var at := SignaturePlace(def, cert);
      assert SignaturePlace(def, now) == at;
      if at < size {
        assert now[at..size] == cert[at..size];
      }
    } else {
      ElementStays(def, loc, def.signature, cert, size, data, 64);
    }
  }

  /** There is a place for the signature: behind the header, or an element of its own. */
  predicate SignatureLaid(def: CertDef, cert: seq<byte>, size: nat) {
    if def.certType == X509 then SnReadable(def, cert) && SignatureBehind(def, cert, size) else def.signature.count != 0
  }

  lemma SignatureReads(def: CertDef, cert: seq<byte>, size: nat, max: nat, raw: seq<byte>)
    requires size <= max <= |cert| && |raw| == 64 && SnReadable(def, cert) && SignatureLaid(def, cert, size)
    requires SetSignature(def, cert, size, max, raw).status == Success
    ensures var r := SetSignature(def, cert, size, max, raw);
            SamePlaces(def, cert, r.cert) && r.size <= max && GetSignature(def, r.cert, r.size) == Ok(raw)
  {
    hide EncodeSignature, DecodeSignature;
    if def.certType == X509 {
      ResignKeeps(def, cert, size, max, raw);
    } else {
      ElementReads(def, def.signature, cert, size, raw);
    }
  }

  /** The octets that set a date. */
  function DateData(f: Format, loc: CertLoc, d: Tm): seq<byte> {
    if loc.count == 0 || DateEnc(f, d).Err? then [] else DateEnc(f, d).value
  }

  /** A date that is set reads back as its format keeps it. */
  lemma DateReads(def: CertDef, f: Format, loc: CertLoc, cert: seq<byte>, size: nat, d: Tm)
    requires size <= |cert| && SnReadable(def, cert) && ClearOfSn(def, cert, loc)
    requires SetDate(def, f, loc, cert, size, d).status == Success
    ensures var now := SetDate(def, f, loc, cert, size, d).cert;
            && SetDate(def, f, loc, cert, size, d) == SetElement(def, loc, cert, size, DateData(f, loc, d))
            && SamePlaces(def, cert, now)
            && GetDate(def, f, loc, now, size)
               == if loc.count == 0 then Err(ElemMissing) else DateDec(f, DateEnc(f, d).value)
    ensures loc.count != 0 ==> DateEnc(f, d).Ok?
  {
    hide DateDec, DateEnc;
    ElementReads(def, loc, cert, size, DateData(f, loc, d));
  }

  lemma SignerReads(def: CertDef, cert: seq<byte>, size: nat, id: seq<byte>)
    requires size <= |cert| && SnReadable(def, cert) && ClearOfSn(def, cert, def.signerId) && |id| == 2
    requires SetSignerId(def, cert, size, id).status == Success
    ensures var now := SetSignerId(def, cert, size, id).cert;
            GetSignerId(def, now, size) == if def.signerId.count == 0 then Err(ElemMissing) else Ok(id)
  {
    hide HexByte, UnhexByte, SetElement, GetElement;
    var hex := HexByte(id[0]) + HexByte(id[1]);
    HexLength(id[0]);
    HexLength(id[1]);
    ElementReads(def, def.signerId, cert, size, hex);
    HexRoundTrip(id[0]);
    HexRoundTrip(id[1]);
    assert hex[..2] == HexByte(id[0]) && hex[2..] == HexByte(id[1]);
    assert id == [id[0], id[1]];
    if def.signerId.count == 0 {
      MissingElement(def, def.signerId, SetSignerId(def, cert, size, id).cert, size, 4);
    }
  }

  /** The signer's number is written in four digits, the first octet first. */
  lemma SignerWritten(def: CertDef, cert: seq<byte>, size: nat, id: seq<byte>)
    requires size <= |cert| && SnReadable(def, cert) && |id| == 2
    ensures var digits := "0123456789ABCDEF";
            SetSignerId(def, cert, size, id)
            == SetElement(def, def.signerId, cert, size,
                          [digits[id[0] / 16] as int, digits[id[0] % 16] as int,
                           digits[id[1] / 16] as int, digits[id[1] % 16] as int])
  {
    HexDigits(id[0]);
    HexDigits(id[1]);
  }

  lemma HexLength(b: byte)
    ensures |HexByte(b)| == 2
  {}

  lemma MissingElement(def: CertDef, loc: CertLoc, cert: seq<byte>, size: nat, n: nat)
    requires size <= |cert| && SnReadable(def, cert) && loc.count == 0
    ensures GetElement(def, loc, cert, size, n) == Err(ElemMissing)
  {}

  /** Setting the parts behind the signature leaves the signature alone, and each part reads back. */
  lemma PartsRead(def: CertDef, cert: seq<byte>, size: nat, dates: seq<byte>, id: seq<byte>)
    requires size <= |cert| && SnReadable(def, cert) && WellLaid(def, cert) && |dates| == 3 && |id| == 2
    requires SetParts(def, cert, size, dates, id).status == Success
    ensures var now := SetParts(def, cert, size, dates, id).cert;
            && GetSignature(def, now, size) == GetSignature(def, cert, size)
            && GetDate(def, def.issueFormat, def.issueDate, now, size)
               == (if def.issueDate.count == 0 then Err(ElemMissing)
                   else DateDec(def.issueFormat, DateEnc(def.issueFormat, CompIssue(dates)).value))
            && GetSignerId(def, now, size) == if def.signerId.count == 0 then Err(ElemMissing) else Ok(id)
    ensures def.issueDate.count != 0 ==> DateEnc(def.issueFormat, CompIssue(dates)).Ok?
    ensures def.expireDate.count != 0 ==>
              var expire := CompExpire(dates, def.expireFormat);
              && DateEnc(def.expireFormat, expire).Ok?
              && GetDate(def, def.expireFormat, def.expireDate, SetParts(def, cert, size, dates, id).cert, size)
                 == DateDec(def.expireFormat, DateEnc(def.expireFormat, expire).value)
  {
    hide SetElement, GetElement, DateEnc, DateDec, GetSignature, HexByte, UnhexByte, CompIssue, CompExpire,
      EffectiveOffset;
    var issue, expire := CompIssue(dates), CompExpire(dates, def.expireFormat);
    var c1 := SetDate(def, def.issueFormat, def.issueDate, cert, size, issue).cert;
    DateReads(def, def.issueFormat, def.issueDate, cert, size, issue);
    SignatureStays(def, def.issueDate, cert, size, DateData(def.issueFormat, def.issueDate, issue));
    PlacesStay(def, cert, c1);
    var d2 := DateData(def.expireFormat, def.expireDate, expire);
    var c2 := SetDate(def, def.expireFormat, def.expireDate, c1, size, expire).cert;
    DateReads(def, def.expireFormat, def.expireDate, c1, size, expire);
    SignatureStays(def, def.expireDate, c1, size, d2);
    ElementStays(def, def.expireDate, def.issueDate, c1, size, d2, FormatSize(def.issueFormat));
    PlacesStay(def, c1, c2);
    var hex := HexByte(id[0]) + HexByte(id[1]);
    SignerReads(def, c2, size, id);
    SignatureStays(def, def.signerId, c2, size, hex);
    ElementStays(def, def.signerId, def.issueDate, c2, size, hex, FormatSize(def.issueFormat));
    ElementStays(def, def.signerId, def.expireDate, c2, size, hex, FormatSize(def.expireFormat));
  }

  /** What a compressed certificate must hold for the certificate to give it back: the definition's years to
      expiry, a zero at the end, the values that stand for parts the certificate does not have, and, for a
      POSIX issue date, a day that the calendar has. */
  predicate Faithful(def: CertDef, comp: seq<byte>)
    requires |comp| == 72
  {
    && comp[66] % 32 == def.expireYears && comp[71] == 0
    && (def.issueDate.count == 0 ==> CompIssue(comp[64..67]) == LOWEST)
    && (def.issueDate.count != 0 && IsPosix(def.issueFormat) ==> RealDate(CompIssue(comp[64..67])))
    && (def.signerId.count == 0 ==> comp[67..69] == [0, 0])
  }

  /** The issue date that the certificate gives for the one that was set. */
  function KeptDate(def: CertDef, issue: Tm): Tm {
    if def.issueDate.count == 0 || DateEnc(def.issueFormat, issue).Err? then LOWEST
    else
      match DateDec(def.issueFormat, DateEnc(def.issueFormat, issue).value)
      case Err(_) => LOWEST
      case Ok(d) => d
  }

  lemma PosixIsReal(f: Format, s: seq<byte>)
    requires IsPosix(f) && DateDec(f, s).Ok?
    ensures RealDate(DateDec(f, s).value)
  {
    SecondsOfGmTime(Unsigned(if f == PosixBe then s[..4] else Reversed4(s[..4])));
  }

  /** Packing the date that is kept gives the packed dates back exactly when it is the date that was set. */
  lemma DatesGivenBack(def: CertDef, dates: seq<byte>)
    requires |dates| == 3
    requires def.issueDate.count != 0 ==> DateEnc(def.issueFormat, CompIssue(dates)).Ok?
    ensures EncCompcert(KeptDate(def, CompIssue(dates)), def.expireYears) == Ok(dates)
            <==> && CompYears(dates) == def.expireYears
                 && (def.issueDate.count == 0 ==> CompIssue(dates) == LOWEST)
                 && (def.issueDate.count != 0 && IsPosix(def.issueFormat) ==> RealDate(CompIssue(dates)))
  {
    hide DateDec, DateEnc, EncCompcert, CompIssue, CompYears, RealDate;
    var issue := CompIssue(dates);
    var kept := KeptDate(def, issue);
    CompcertRepacks(dates);
    if def.issueDate.count != 0 {
      DateRoundTrip(def.issueFormat, issue);
      EncodedInRange(def.issueFormat, issue);
      if IsPosix(def.issueFormat) { PosixIsReal(def.issueFormat, DateEnc(def.issueFormat, issue).value); }
    }
    if EncCompcert(kept, def.expireYears) == Ok(dates) {
      CompcertRoundTrip(kept, def.expireYears);
      WholeHours(kept, dates);
    }
  }

  lemma EncodedInRange(f: Format, d: Tm)
    requires DateEnc(f, d).Ok?
    ensures InRange(d)
  {}

  lemma WholeHours(d: Tm, dates: seq<byte>)
    requires |dates| == 3 && CompIssue(dates) == d.(minute := 0, sec := 0)
    ensures RealDate(d) ==> RealDate(CompIssue(dates))
  {}

  /** The compressed certificate that a certificate gives, out of its parts. */
  lemma GetCompCertIs(def: CertDef, cert: seq<byte>, size: nat, raw: seq<byte>, issue: Tm, id: seq<byte>)
    requires size <= |cert| && SnReadable(def, cert) && GetSignature(def, cert, size) == Ok(raw)
    requires GetDate(def, def.issueFormat, def.issueDate, cert, size)
             == if def.issueDate.count == 0 then Err(ElemMissing) else Ok(issue)
    requires GetSignerId(def, cert, size) == if def.signerId.count == 0 then Err(ElemMissing) else Ok(id)
    requires def.issueDate.count == 0 ==> issue == LOWEST
    requires def.signerId.count == 0 ==> id == [0, 0]
    ensures GetCompCert(def, cert, size)
            == match EncCompcert(issue, def.expireYears)
               case Err(e) => Err(e)
               case Ok(dates) =>
                 Ok(raw + dates + id + [def.templateId % 16 * 16 + def.chainId % 16, def.snSource % 16 * 16, 0])
  {
    hide GetDate, GetSignature, GetSignerId, EncCompcert;
  }

  lemma SplitComp(comp: seq<byte>, raw: seq<byte>, dates: seq<byte>, id: seq<byte>, last: seq<byte>)
    requires |comp| == 72 && |raw| == 64 && |dates| == 3 && |id| == 2 && |last| == 3
    ensures raw + dates + id + last == comp
            <==> raw == comp[..64] && dates == comp[64..67] && id == comp[67..69] && last == comp[69..]
  {
    var t := raw + dates + id + last;
    assert t[..64] == raw && t[64..67] == dates && t[67..69] == id && t[69..] == last;
    assert comp == comp[..64] + comp[64..67] + comp[67..69] + comp[69..];
  }

  lemma LastThree(def: CertDef, comp: seq<byte>)
    requires |comp| == 72 && comp[70] % 16 == 0 && GoesWith(def, comp)
    ensures [def.templateId % 16 * 16 + def.chainId % 16, def.snSource % 16 * 16, 0] == comp[69..] <==> comp[71] == 0
  {
    var last: seq<byte> := [def.templateId % 16 * 16 + def.chainId % 16, def.snSource % 16 * 16, 0];
    assert last[0] == comp[69] && last[1] == comp[70];
    assert comp[69..] == [comp[69], comp[70], comp[71]];
  }

  /** A compressed certificate that is set, in a certificate whose parts share no octet, is given back octet for
      octet exactly when it is faithful to the definition. */
  lemma CompCertRoundTrip(def: CertDef, cert: seq<byte>, size: nat, max: nat, comp: seq<byte>)
    requires size <= max <= |cert| && |comp| == 72 && SnReadable(def, cert)
    requires SignatureLaid(def, cert, size) && WellLaid(def, cert)
    requires SetCompCert(def, cert, size, max, comp).status == Success
    ensures var r := SetCompCert(def, cert, size, max, comp);
            r.size <= max && (GetCompCert(def, r.cert, r.size) == Ok(comp) <==> Faithful(def, comp))
  {
    hide SetSignature, GetSignature, SetParts, GetDate, GetSignerId, DateEnc, DateDec, GetCompCert, EncCompcert,
      CompIssue, WellLaid, SignatureLaid, RealDate;
    var r := SetCompCert(def, cert, size, max, comp);
    var raw, dates, id := comp[..64], comp[64..67], comp[67..69];
    var signed := SetSignature(def, cert, size, max, raw);
    SignatureReads(def, cert, size, max, raw);
    PlacesStay(def, cert, signed.cert);
    PartsRead(def, signed.cert, signed.size, dates, id);
    var issue := CompIssue(dates);
    if def.issueDate.count != 0 { DateRoundTrip(def.issueFormat, issue); }
    var kept, keptId := KeptDate(def, issue), if def.signerId.count == 0 then [0, 0] else id;
    GetCompCertIs(def, r.cert, r.size, raw, kept, keptId);
    DatesGivenBack(def, dates);
    LastThree(def, comp);
    if EncCompcert(kept, def.expireYears).Ok? {
      SplitComp(comp, raw, EncCompcert(kept, def.expireYears).value, keptId,
                [def.templateId % 16 * 16 + def.chainId % 16, def.snSource % 16 * 16, 0]);
    }
  }

  /** What a certificate says after a compressed one was set: octets 0 to 63 are its signature, 64 to 66 hold the date
      of issue, and 67 and 68 the signer's number. */
  lemma CompCertSet(def: CertDef, cert: seq<byte>, size: nat, max: nat, comp: seq<byte>)
    requires size <= max <= |cert| && |comp| == 72 && SnReadable(def, cert)
    requires SignatureLaid(def, cert, size) && WellLaid(def, cert)
    requires SetCompCert(def, cert, size, max, comp).status == Success
    ensures var r := SetCompCert(def, cert, size, max, comp);
            && r.size <= max && GetSignature(def, r.cert, r.size) == Ok(comp[..64])
            && GetSignerId(def, r.cert, r.size)
               == (if def.signerId.count == 0 then Err(ElemMissing) else Ok([comp[67], comp[68]]))
            && (def.issueDate.count != 0 ==>
                  var issue := CompIssue([comp[64], comp[65], comp[66]]);
                  && DateEnc(def.issueFormat, issue).Ok?
                  && GetDate(def, def.issueFormat, def.issueDate, r.cert, r.size)
                     == DateDec(def.issueFormat, DateEnc(def.issueFormat, issue).value))
  {
    hide SetSignature, GetSignature, SetParts, GetDate, GetSignerId, DateEnc, DateDec, CompIssue, WellLaid,
      SignatureLaid;
    var signed := SetSignature(def, cert, size, max, comp[..64]);
    SignatureReads(def, cert, size, max, comp[..64]);
    PlacesStay(def, cert, signed.cert);
    PartsRead(def, signed.cert, signed.size, comp[64..67], comp[67..69]);
    assert comp[64..67] == [comp[64], comp[65], comp[66]] && comp[67..69] == [comp[67], comp[68]];
  }

  /** What a compressed certificate says of the certificate that gave it: the signature, the date of issue to the hour,
      or 1 January 2000, with the definition's years to expiry, the signer's number, or zeros, and four digits of the
      definition. */
  lemma CompCertOctets(def: CertDef, cert: seq<byte>, size: nat)
    requires size <= |cert| && SnReadable(def, cert) && GetCompCert(def, cert, size).Ok?
    ensures var comp := GetCompCert(def, cert, size).value;
            && GetSignature(def, cert, size) == Ok(comp[..64])
            && (if def.issueDate.count == 0 then CompIssue(comp[64..67]) == Tm(100, 0, 1, 0, 0, 0)
                else var d := GetDate(def, def.issueFormat, def.issueDate, cert, size);
                     d.Ok? && CompIssue(comp[64..67]) == d.value.(minute := 0, sec := 0))
            && CompYears(comp[64..67]) == def.expireYears
            && (if def.signerId.count == 0 then comp[67..69] == [0, 0]
                else GetSignerId(def, cert, size) == Ok(comp[67..69]))
            && comp[69] == def.templateId % 16 * 16 + def.chainId % 16
            && comp[70] == def.snSource % 16 * 16 && comp[71] == 0
  {
    hide GetSignature, GetDate, GetSignerId, EncCompcert, CompIssue, CompYears;
    var comp, issued := GetCompCert(def, cert, size).value, GetDate(def, def.issueFormat, def.issueDate, cert, size);
    var issue := if issued.Ok? then issued.value else LOWEST;
    CompcertRoundTrip(issue, def.expireYears);
    var id := GetSignerId(def, cert, size);
    SplitComp(comp, GetSignature(def, cert, size).value, EncCompcert(issue, def.expireYears).value,
              if id.Ok? then id.value else [0, 0],
              [def.templateId % 16 * 16 + def.chainId % 16, def.snSource % 16 * 16, 0]);
  }

  /** The date of expiry then reads back as the issue date so many years later, or as the latest of the format
      when there are none: always in text, even a 29 February that the year does not have, and in a POSIX
      format exactly when the calendar has the day. For a real issue date, that 29 February is the only such day. */
  lemma ExpiryReads(def: CertDef, cert: seq<byte>, size: nat, max: nat, comp: seq<byte>)
    requires size <= max <= |cert| && |comp| == 72 && SnReadable(def, cert)
    requires SignatureLaid(def, cert, size) && WellLaid(def, cert) && def.expireDate.count != 0
    requires SetCompCert(def, cert, size, max, comp).status == Success
    ensures var r, expire := SetCompCert(def, cert, size, max, comp), CompExpire(comp[64..67], def.expireFormat);
            r.size <= max && (GetDate(def, def.expireFormat, def.expireDate, r.cert, r.size) == Ok(expire)
                              <==> (IsPosix(def.expireFormat) ==> RealDate(expire)))
    ensures var issue, years := CompIssue(comp[64..67]), CompYears(comp[64..67]);
            years != 0 && RealDate(issue) ==>
              (RealDate(CompExpire(comp[64..67], def.expireFormat))
               <==> !(issue.mon == 1 && issue.mday == 29 && !LeapYear(issue.year + years + 1900)))
  {
    hide SetSignature, GetSignature, SetParts, GetDate, GetSignerId, DateEnc, DateDec, CompIssue, CompYears, CompExpire,
      WellLaid, SignatureLaid, RealDate;
    if CompYears(comp[64..67]) != 0 && RealDate(CompIssue(comp[64..67])) {
      ExpiryDayExists(comp[64..67], def.expireFormat);
    }
    var signed := SetSignature(def, cert, size, max, comp[..64]);
    SignatureReads(def, cert, size, max, comp[..64]);
    PlacesStay(def, cert, signed.cert);
    PartsRead(def, signed.cert, signed.size, comp[64..67], comp[67..69]);
    DateRoundTrip(def.expireFormat, CompExpire(comp[64..67], def.expireFormat));
  }

  /** A certificate that does not expire cannot be rebuilt when its date of expiry is a POSIX time: the latest
      date of the format, which stands for none, is one that the format's encoder refuses. */
  lemma NoExpiryNeedsText(def: CertDef, cert: seq<byte>, size: nat, max: nat, comp: seq<byte>)
    requires size <= max <= |cert| && |comp| == 72 && SnReadable(def, cert)
    requires CompYears(comp[64..67]) == 0 && def.expireDate.count != 0 && IsPosix(def.expireFormat)
    ensures SetCompCert(def, cert, size, max, comp).status != Success
  {
    hide SetSignature, SetElement, DateEnc;
    var d := CompExpire(comp[64..67], def.expireFormat);
    assert DateEnc(def.expireFormat, d) == Err(InvalidDate) by { MaxDateRefused(def.expireFormat); }
  }

  lemma MaxDateRefused(f: Format)
    requires IsPosix(f)
    ensures DateEnc(f, MaxDate(f)) == Err(InvalidDate)
  {}

  // ----- When a compressed certificate is taken -----

  /** An element is absent, or has the size of its data and a place in the certificate. */
  predicate Holds(def: CertDef, cert: seq<byte>, size: nat, loc: CertLoc, n: nat)
    requires SnReadable(def, cert)
  {
    loc.count == 0 || (loc.count == n && 0 <= Place(def, cert, loc) && Place(def, cert, loc) + n <= size)
  }

  lemma ElementSets(def: CertDef, loc: CertLoc, cert: seq<byte>, size: nat, data: seq<byte>)
    requires size <= |cert| && SnReadable(def, cert) && ClearOfSn(def, cert, loc)
    ensures SetElement(def, loc, cert, size, data).status == Success <==> Holds(def, cert, size, loc, |data|)
  {}

  /** A date element is absent, or its format shows the date and it holds the format's size. */
  predicate HoldsDate(def: CertDef, cert: seq<byte>, size: nat, f: Format, loc: CertLoc, d: Tm)
    requires SnReadable(def, cert)
  {
    loc.count == 0 || (DateEnc(f, d).Ok? && Holds(def, cert, size, loc, FormatSize(f)))
  }

  lemma DateSets(def: CertDef, f: Format, loc: CertLoc, cert: seq<byte>, size: nat, d: Tm)
    requires size <= |cert| && SnReadable(def, cert) && ClearOfSn(def, cert, loc)
    ensures SetDate(def, f, loc, cert, size, d).status == Success <==> HoldsDate(def, cert, size, f, loc, d)
  {
    hide DateEnc, SetElement;
    if loc.count != 0 && DateEnc(f, d).Ok? { ElementSets(def, loc, cert, size, DateEnc(f, d).value); }
  }

  /** What a certificate must have room for to take the parts of a compressed one. */
  predicate TakesParts(def: CertDef, cert: seq<byte>, size: nat, dates: seq<byte>)
    requires SnReadable(def, cert) && |dates| == 3
  {
    && HoldsDate(def, cert, size, def.issueFormat, def.issueDate, CompIssue(dates))
    && HoldsDate(def, cert, size, def.expireFormat, def.expireDate, CompExpire(dates, def.expireFormat))
    && Holds(def, cert, size, def.signerId, 4)
  }

  lemma TakesPartsStays(def: CertDef, cert: seq<byte>, now: seq<byte>, size: nat, dates: seq<byte>)
    requires SnReadable(def, cert) && SamePlaces(def, cert, now) && |dates| == 3
    ensures TakesParts(def, cert, size, dates) == TakesParts(def, now, size, dates)
  {
    hide HoldsDate, Holds, CompIssue, CompExpire;
    HoldsDateStays(def, cert, now, size, def.issueFormat, def.issueDate, CompIssue(dates));
    HoldsDateStays(def, cert, now, size, def.expireFormat, def.expireDate, CompExpire(dates, def.expireFormat));
    HoldsStays(def, cert, now, size, def.signerId, 4);
  }

  lemma HoldsStays(def: CertDef, cert: seq<byte>, now: seq<byte>, size: nat, loc: CertLoc, n: nat)
    requires SnReadable(def, cert) && SamePlaces(def, cert, now)
    ensures Holds(def, cert, size, loc, n) == Holds(def, now, size, loc, n)
  {
    PlaceStays(def, cert, now, loc);
  }

  lemma HoldsDateStays(def: CertDef, cert: seq<byte>, now: seq<byte>, size: nat, f: Format, loc: CertLoc, d: Tm)
    requires SnReadable(def, cert) && SamePlaces(def, cert, now)
    ensures HoldsDate(def, cert, size, f, loc, d) == HoldsDate(def, now, size, f, loc, d)
  {
    hide DateEnc;
    HoldsStays(def, cert, now, size, loc, FormatSize(f));
  }

  lemma PartsSet(def: CertDef, cert: seq<byte>, size: nat, dates: seq<byte>, id: seq<byte>)
    requires size <= |cert| && SnReadable(def, cert) && WellLaid(def, cert) && |dates| == 3 && |id| == 2
    ensures SetParts(def, cert, size, dates, id).status == Success <==> TakesParts(def, cert, size, dates)
  {
    hide SetElement, DateEnc, SetDate, HoldsDate, Holds, HexByte, CompIssue, CompExpire,
      EffectiveOffset, Apart, Clear, SamePlaces;
    var issue, expire := CompIssue(dates), CompExpire(dates, def.expireFormat);
    var c1 := SetDate(def, def.issueFormat, def.issueDate, cert, size, issue);
    ClearIsClearOfSn(def, cert);
    DateSets(def, def.issueFormat, def.issueDate, cert, size, issue);
    if c1.status == Success {
      DateReads(def, def.issueFormat, def.issueDate, cert, size, issue);
      PlacesStay(def, cert, c1.cert);
      ClearIsClearOfSn(def, c1.cert);
      HoldsDateStays(def, cert, c1.cert, size, def.expireFormat, def.expireDate, expire);
      HoldsStays(def, cert, c1.cert, size, def.signerId, 4);
      DateSets(def, def.expireFormat, def.expireDate, c1.cert, size, expire);
      var c2 := SetDate(def, def.expireFormat, def.expireDate, c1.cert, size, expire);
      if c2.status == Success {
        DateReads(def, def.expireFormat, def.expireDate, c1.cert, size, expire);
        PlacesStay(def, c1.cert, c2.cert);
        ClearIsClearOfSn(def, c2.cert);
        HoldsStays(def, c1.cert, c2.cert, size, def.signerId, 4);
        HexLength(id[0]);
        HexLength(id[1]);
        ElementSets(def, def.signerId, c2.cert, size, HexByte(id[0]) + HexByte(id[1]));
      }
    }
  }

  lemma ClearIsClearOfSn(def: CertDef, cert: seq<byte>)
    requires SnReadable(def, cert) && WellLaid(def, cert)
    ensures ClearOfSn(def, cert, def.issueDate) && ClearOfSn(def, cert, def.expireDate)
    ensures ClearOfSn(def, cert, def.signerId)
  {}

  lemma HalvesOf(def: CertDef, comp: seq<byte>)
    requires |comp| == 72
    ensures comp[70] % 16 == 0 && GoesWith(def, comp)
            <==> comp[69] == def.templateId * 16 + def.chainId && def.chainId < 16 && comp[70] == def.snSource * 16
    ensures !GoesWith(def, comp)
            <==> comp[69] / 16 != def.templateId || comp[69] % 16 != def.chainId || comp[70] / 16 != def.snSource
  {}

  /** A compressed certificate is taken exactly when it has the known form and goes with the definition, its
      signature can be set, and the certificate of the new size has room for its parts in their formats. */
  lemma CompCertTaken(def: CertDef, cert: seq<byte>, size: nat, max: nat, comp: seq<byte>)
    requires size <= max <= |cert| && |comp| == 72 && SnReadable(def, cert)
    requires SignatureLaid(def, cert, size) && WellLaid(def, cert)
    ensures var signed := SetSignature(def, cert, size, max, comp[..64]);
            SetCompCert(def, cert, size, max, comp).status == Success
            <==> && comp[69] == def.templateId * 16 + def.chainId && def.chainId < 16
                 && comp[70] == def.snSource * 16 && signed.status == Success
                 && TakesParts(def, cert, signed.size, comp[64..67])
    ensures comp[70] % 16 != 0 ==> SetCompCert(def, cert, size, max, comp) == Outcome(DecodingError, cert, size)
    ensures comp[70] % 16 == 0
            && (comp[69] / 16 != def.templateId || comp[69] % 16 != def.chainId || comp[70] / 16 != def.snSource) ==>
              SetCompCert(def, cert, size, max, comp) == Outcome(WrongCertDef, cert, size)
  {
    hide SetSignature, SetParts, TakesParts, WellLaid, SignatureLaid, GoesWith;
    HalvesOf(def, comp);
    var signed := SetSignature(def, cert, size, max, comp[..64]);
    if signed.status == Success {
      SignatureReads(def, cert, size, max, comp[..64]);
      PlacesStay(def, cert, signed.cert);
      PartsSet(def, signed.cert, signed.size, comp[64..67], comp[67..69]);
      TakesPartsStays(def, cert, signed.cert, signed.size, comp[64..67]);
    }
  }
}
