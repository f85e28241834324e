/** The encoders and decoders of dates themselves (atcacert_date.c), which write and read a buffer field by field. */
module DateCode {
  import opened Bytes
  import opened Calendar
  import opened CertDate
  import opened Decimals
  import opened Status

  lemma JoinStep(done: seq<byte>, mark: seq<byte>, n: nat, width: nat, rest: seq<byte>)
    ensures done + Join(mark, n, width, rest) == done + mark + Decimal(n, width) + rest
  {}

  /** A separator, if the format has one there, and a number behind it. */
  method PutField(out: array<byte>, cur: nat, mark: seq<byte>, n: nat, width: nat,
                  ghost was: seq<byte>, ghost done: seq<byte>, ghost rest: seq<byte>, ghost whole: seq<byte>)
    returns (next: nat, ghost now: seq<byte>)
    requires cur == |done| && n < Pow10(width) && cur + |mark| + width <= out.Length == |was|
    requires out[..] == Overwrite(was, 0, done) && done + Join(mark, n, width, rest) == whole
    modifies out
    ensures next == |now| == cur + |mark| + width && out[..] == Overwrite(was, 0, now) && now + rest == whole
  {
    JoinStep(done, mark, n, width, rest);
    PutNext(out, cur, mark, was, 0, done);
    next := UintToStr(n, width, out, cur + |mark|);
    OverwriteTwice(was, 0, done + mark, Decimal(n, width));
    now := done + mark + Decimal(n, width);
  }

  lemma NothingYet(was: seq<byte>, whole: seq<byte>)
    ensures Overwrite(was, 0, []) == was && [] + whole == whole
  {}

  /** atcacert_date_enc_iso8601_sep, atcacert_date_enc_rfc5280_utc and atcacert_date_enc_rfc5280_gen, which
      differ in their separators and in the year. What a refused date leaves in the buffer is left open. */
  method EncText(f: Format, d: Tm, out: array<byte>) returns (status: Status)
    requires !IsPosix(f) && FormatSize(f) <= out.Length
    modifies out
    ensures match TextEnc(f, d)
            case Err(e) => status == e
            case Ok(s) => status == Success && out[..] == Overwrite(old(out[..]), 0, s)
  {
    hide Text, Pow10, Overwrite;
    status := InvalidDate;
    var year := WrittenYear(f, d.year + 1900);
    if year.Err? {
      return;
    }
    YearFits(f, d.year + 1900);
    TextSize(f);
    if !InRange(d) {
      // The source checks each field just before it writes it.
      return;
    }
    PutText(AsWritten(d, year.value), LayoutOf(f), out);
    status := Success;
  }

  /** The fields that the text encoders write, one after the other. */
  method PutText(w: Written, l: Layout, out: array<byte>)
    requires w.year < Pow10(l.width) && |Text(w, l)| <= out.Length
    requires w.mon < 100 && w.mday < 100 && w.hour < 100 && w.minute < 100 && w.sec < 100
    modifies out
    ensures out[..] == Overwrite(old(out[..]), 0, Text(w, l))
  {
    hide Join, Decimal, Pow10, Overwrite;
    PowersOf10();
    ghost var r5 := Join(l.colon, w.sec, 2, [90]);
    ghost var r4 := Join(l.colon, w.minute, 2, r5);
    ghost var r3 := Join(l.t, w.hour, 2, r4);
    ghost var r2 := Join(l.dash, w.mday, 2, r3);
    ghost var r1 := Join(l.dash, w.mon, 2, r2);
    ghost var was, whole := out[..], Text(w, l);
    ghost var done: seq<byte> := [];
    NothingYet(was, whole);
    var cur := 0;
    cur, done := PutField(out, cur, [], w.year, l.width, was, done, r1, whole);
    cur, done := PutField(out, cur, l.dash, w.mon, 2, was, done, r2, whole);
    cur, done := PutField(out, cur, l.dash, w.mday, 2, was, done, r3, whole);
    cur, done := PutField(out, cur, l.t, w.hour, 2, was, done, r4, whole);
    cur, done := PutField(out, cur, l.colon, w.minute, 2, was, done, r5, whole);
    cur, done := PutField(out, cur, l.colon, w.sec, 2, was, done, [90], whole);
    PutNext(out, cur, [90], was, 0, done);
  }

  /** atcacert_date_enc_posix_uint32_be and atcacert_date_enc_posix_uint32_le */
  method EncPosixIn(f: Format, d: Tm, out: array<byte>) returns (status: Status)
    requires IsPosix(f) && out.Length >= 4
    modifies out
    ensures match PosixEnc(f, d)
            case Err(e) => status == e && out[..] == old(out[..])
            case Ok(s) => status == Success && out[..] == Overwrite(old(out[..]), 0, s)
  {
    var posix;
    status, posix := EncPosix(d);
    if status != Success {
      return;
    }
    AcceptedFits(d);
    BigEndian4(posix);
    var big: seq<byte> := [posix / 0x100_0000 % 256, posix / 0x1_0000 % 256, posix / 0x100 % 256, posix % 256];
    Put(out, 0, if f == PosixBe then big else [big[3], big[2], big[1], big[0]]);
  }

  lemma BigEndian4(n: nat)
    requires n < TWO32
    ensures BigEndian(n, 4) == [n / 0x100_0000 % 256, n / 0x1_0000 % 256, n / 0x100 % 256, n % 256]
  {
    assert n / 256 / 256 == n / 0x1_0000 && n / 256 / 256 / 256 == n / 0x100_0000;
    assert BigEndian(n / 256 / 256 / 256, 1) == [n / 0x100_0000 % 256];
    assert BigEndian(n / 256 / 256, 2) == [n / 0x100_0000 % 256, n / 0x1_0000 % 256];
    assert BigEndian(n / 256, 3) == [n / 0x100_0000 % 256, n / 0x1_0000 % 256, n / 256 % 256];
  }

  /** atcacert_date_enc, for a caller that has a buffer of `size` octets */
  method EncDate(f: Format, d: Tm, out: array<byte>, size: nat) returns (status: Status, outSize: nat)
    requires size <= out.Length
    modifies out
    ensures outSize == FormatSize(f)
    ensures if size < outSize then status == BufferTooSmall && out[..] == old(out[..])
            else match DateEnc(f, d)
                 case Err(e) => status == e
                 case Ok(s) => status == Success && out[..] == Overwrite(old(out[..]), 0, s)
  {
    hide TextEnc, PosixEnc;
    outSize := FormatSize(f);
    if size < outSize {
      return BufferTooSmall, outSize;
    }
    if f == PosixBe || f == PosixLe {
      status := EncPosixIn(f, d, out);
    } else {
      status := EncText(f, d, out);
    }
  }

  lemma ShortNumber(s: seq<byte>)
    requires |s| <= 9
    ensures LowDigits(s) == s && (Fits32(s) <==> Digits(s)) && (Digits(s) ==> Number(s) <= 2147483647)
  {
    if Digits(s) {
      DecimalOfNumber(s);
      Pow10Monotone(|s|, 9);
      PowersOf10();
    }
  }

  /** str_to_int behind a separator, if the format has one there. */
  method TakeField(s: seq<byte>, cur: nat, mark: seq<byte>, width: nat) returns (ok: bool, next: nat, value: nat)
    requires cur + |mark| + width <= |s| && |mark| <= 1 && 0 < width <= 9
    ensures match Take(s[cur..], mark, width)
            case Err(_) => !ok
            case Ok(t) => ok && next == cur + |mark| + width && value == t.value && s[next..] == t.rest
  {
    hide Take, Fits32, Number, Digits;
    TakeAt(s, cur, mark, width);
    next, value := cur, 0;
    if |mark| == 1 {
      assert mark == [mark[0]] && s[cur..cur + 1] == [s[cur]];
      if s[next] != mark[0] {
        return false, next, value;
      }
      next := next + 1;
    }
    var number := s[next..next + width];
    ShortNumber(number);
    var ret;
    ret, value := StrToUint(number);
    if ret == 0 || value > 2147483647 {
      return false, next, value;
    }
    ok, next := true, next + width;
  }

  lemma TakeAt(s: seq<byte>, cur: nat, mark: seq<byte>, width: nat)
    requires cur + |mark| + width <= |s|
    ensures var from, to := cur + |mark|, cur + |mark| + width;
            Take(s[cur..], mark, width)
            == if s[cur..from] != mark || !Digits(s[from..to]) then Err(DecodingError)
               else Ok(Taken(Number(s[from..to]), s[to..]))
  {
    var t := s[cur..];
    assert t[..|mark|] == s[cur..cur + |mark|];
    assert t[|mark|..|mark| + width] == s[cur + |mark|..cur + |mark| + width];
    assert t[|mark| + width..] == s[cur + |mark| + width..];
    assert mark <= t <==> mark == t[..|mark|];
  }

  /** atcacert_date_dec_iso8601_sep, atcacert_date_dec_rfc5280_utc and atcacert_date_dec_rfc5280_gen */
  method DecText(f: Format, s: seq<byte>) returns (status: Status, d: Tm)
    requires !IsPosix(f) && FormatSize(f) <= |s|
    ensures match TextDec(f, s)
            case Err(e) => status == e
            case Ok(t) => status == Success && d == t
  {
    hide Take;
    status, d := DecodingError, Tm(0, 0, 0, 0, 0, 0);
    var l := LayoutOf(f);
    var ok, cur, year, mon, mday, hour, minute, sec := true, 0, 0, 0, 0, 0, 0, 0;
    assert s[0..] == s;
    ok, cur, year := TakeField(s, cur, [], l.width);
    if !ok {
      return;
    }
    ok, cur, mon := TakeField(s, cur, l.dash, 2);
    if !ok {
      return;
    }
    ok, cur, mday := TakeField(s, cur, l.dash, 2);
    if !ok {
      return;
    }
    ok, cur, hour := TakeField(s, cur, l.t, 2);
    if !ok {
      return;
    }
    ok, cur, minute := TakeField(s, cur, l.colon, 2);
    if !ok {
      return;
    }
    ok, cur, sec := TakeField(s, cur, l.colon, 2);
    if !ok || s[cur] != 90 {
      return;
    }
    status, d := Success, Tm(ReadYear(f, year) - 1900, mon as int - 1, mday, hour, minute, sec);
  }

  /** atcacert_date_dec */
  method DecDate(f: Format, s: seq<byte>) returns (status: Status, d: Tm)
    ensures match DateDec(f, s)
            case Err(e) => status == e
            case Ok(t) => status == Success && d == t
  {
    hide TextDec;
    if |s| < FormatSize(f) {
      return DecodingError, Tm(0, 0, 0, 0, 0, 0);
    }
    if f == PosixBe || f == PosixLe {
      var four := if f == PosixBe then s[..4] else [s[3], s[2], s[1], s[0]];
      assert four == if f == PosixBe then s[..4] else Reversed4(s[..4]);
      Unsigned4(four);
      FourOctets();
      UnsignedBound(four);
      var posix: nat := four[0] as int * 0x100_0000 + four[1] as int * 0x1_0000 + four[2] as int * 0x100 + four[3];
      status := Success;
      d := GmTime32(posix);
    } else {
      status, d := DecText(f, s);
    }
  }

  lemma Unsigned4(s: seq<byte>)
    requires |s| == 4
    ensures Unsigned(s) == s[0] as int * 0x100_0000 + s[1] as int * 0x1_0000 + s[2] as int * 0x100 + s[3]
  {
    var a, b, c := s[..3], s[..2], s[..1];
    assert a[..2] == b && b[..1] == c && c[..0] == [];
    assert Unsigned(c) == s[0];
    assert Unsigned(b) == 256 * Unsigned(c) + s[1];
    assert Unsigned(a) == 256 * Unsigned(b) + s[2];
  }
}
