/** Dates in certificates (atcacert_date.c): the five date formats, and the three octets of dates in a
    compressed certificate. */
module CertDate {
  import opened Bytes
  import opened Calendar
  import opened Decimals
  import opened Status

  datatype Format = Iso8601Sep | Rfc5280Utc | PosixBe | PosixLe | Rfc5280Gen

  function FormatSize(f: Format): nat {
    match f
    case Iso8601Sep => 20
    case Rfc5280Utc => 13
    case PosixBe => 4
    case PosixLe => 4
    case Rfc5280Gen => 15
  }

  predicate IsPosix(f: Format) {
    f == PosixBe || f == PosixLe
  }

  // ----- Text -----

  /** A separator, if there is one, then a number in `width` digits, then the rest. */
  function Join(mark: seq<byte>, n: nat, width: nat, rest: seq<byte>): (r: seq<byte>)
    ensures |r| == |mark| + width + |rest|
  {
    mark + Decimal(n, width) + rest
  }

  datatype Taken = Taken(value: nat, rest: seq<byte>)

  function Take(s: seq<byte>, mark: seq<byte>, width: nat): (r: Result<Taken>)
  {
    if !(mark <= s) || |s| < |mark| + width then Err(DecodingError)
    else
      var number := s[|mark|..|mark| + width];
      if !Digits(number) then Err(DecodingError) else Ok(Taken(Number(number), s[|mark| + width..]))
  }

  lemma TakeJoined(mark: seq<byte>, n: nat, width: nat, rest: seq<byte>)
    requires n < Pow10(width)
    ensures Take(Join(mark, n, width, rest), mark, width) == Ok(Taken(n, rest))
  {
    NumberOfDecimal(n, width);
    assert Join(mark, n, width, rest)[|mark|..|mark| + width] == Decimal(n, width);
  }

  lemma JoinTaken(s: seq<byte>, mark: seq<byte>, width: nat)
    requires Take(s, mark, width).Ok?
    ensures var t := Take(s, mark, width).value; t.value < Pow10(width) && Join(mark, t.value, width, t.rest) == s
  {
    DecimalOfNumber(s[|mark|..|mark| + width]);
    assert mark == s[..|mark|];
    assert s == mark + s[|mark|..|mark| + width] + s[|mark| + width..];
  }

  /** The separators of a text format, and the digits of its year. */
  datatype Layout = Layout(width: nat, dash: seq<byte>, t: seq<byte>, colon: seq<byte>)

  /** A date as written, with the year in full or in two digits. */
  datatype Written = Written(year: nat, mon: nat, mday: nat, hour: nat, minute: nat, sec: nat)

  function TimeText(w: Written, l: Layout): (r: seq<byte>)
    ensures |r| == |l.t| + 2 * |l.colon| + 7
  {
    Join(l.t, w.hour, 2, Join(l.colon, w.minute, 2, Join(l.colon, w.sec, 2, [90])))
  }

  function Text(w: Written, l: Layout): (r: seq<byte>)
    ensures |r| == l.width + 2 * |l.dash| + |l.t| + 2 * |l.colon| + 11
  {
    Join([], w.year, l.width, Join(l.dash, w.mon, 2, Join(l.dash, w.mday, 2, TimeText(w, l))))
  }

  function ParseTime(s: seq<byte>, l: Layout, w: Written): (r: Result<Written>) {
    match Take(s, l.t, 2)
    case Err(e) => Err(e)
    case Ok(hour) =>
      match Take(hour.rest, l.colon, 2)
      case Err(e) => Err(e)
      case Ok(minute) =>
        match Take(minute.rest, l.colon, 2)
        case Err(e) => Err(e)
        case Ok(sec) =>
          if |sec.rest| < 1 || sec.rest[0] != 90 then Err(DecodingError)
          else Ok(w.(hour := hour.value, minute := minute.value, sec := sec.value))
  }

  function Parse(s: seq<byte>, l: Layout): (r: Result<Written>) {
    match Take(s, [], l.width)
    case Err(e) => Err(e)
    case Ok(year) =>
      match Take(year.rest, l.dash, 2)
      case Err(e) => Err(e)
      case Ok(mon) =>
        match Take(mon.rest, l.dash, 2)
        case Err(e) => Err(e)
        case Ok(mday) => ParseTime(mday.rest, l, Written(year.value, mon.value, mday.value, 0, 0, 0))
  }

  /** What follows a text has no say in what is read from it. */
  lemma TakeFront(s: seq<byte>, mark: seq<byte>, width: nat, suffix: seq<byte>)
    requires Take(s, mark, width).Ok?
    ensures var t := Take(s, mark, width).value; Take(s + suffix, mark, width) == Ok(Taken(t.value, t.rest + suffix))
  {
    var k := |mark| + width;
    assert (s + suffix)[..|mark|] == s[..|mark|] == mark;
    assert (s + suffix)[|mark|..k] == s[|mark|..k] && (s + suffix)[k..] == s[k..] + suffix;
  }

  lemma ParseTimeFront(s: seq<byte>, l: Layout, w: Written, suffix: seq<byte>)
    requires ParseTime(s, l, w).Ok?
    ensures ParseTime(s + suffix, l, w) == ParseTime(s, l, w)
  {
    hide Take;
    var hour := Take(s, l.t, 2).value;
    var minute := Take(hour.rest, l.colon, 2).value;
    TakeFront(s, l.t, 2, suffix);
    TakeFront(hour.rest, l.colon, 2, suffix);
    TakeFront(minute.rest, l.colon, 2, suffix);
  }

  lemma ParseFront(s: seq<byte>, l: Layout, suffix: seq<byte>)
    requires Parse(s, l).Ok?
    ensures Parse(s + suffix, l) == Parse(s, l)
  {
    hide Take, ParseTime;
    var year := Take(s, [], l.width).value;
    var mon := Take(year.rest, l.dash, 2).value;
    var mday := Take(mon.rest, l.dash, 2).value;
    TakeFront(s, [], l.width, suffix);
    TakeFront(year.rest, l.dash, 2, suffix);
    TakeFront(mon.rest, l.dash, 2, suffix);
    ParseTimeFront(mday.rest, l, Written(year.value, mon.value, mday.value, 0, 0, 0), suffix);
  }

  predicate TwoDigits(w: Written) {
    w.mon < 100 && w.mday < 100 && w.hour < 100 && w.minute < 100 && w.sec < 100
  }

  lemma ParseTimeText(w: Written, l: Layout)
    requires TwoDigits(w)
    ensures ParseTime(TimeText(w, l), l, w.(hour := 0, minute := 0, sec := 0)) == Ok(w)
  {
    PowersOf10();
    var sec := Join(l.colon, w.sec, 2, [90]);
    var minute := Join(l.colon, w.minute, 2, sec);
    TakeJoined(l.colon, w.sec, 2, [90]);
    TakeJoined(l.colon, w.minute, 2, sec);
    TakeJoined(l.t, w.hour, 2, minute);
  }

  lemma ParseText(w: Written, l: Layout)
    requires w.year < Pow10(l.width) && TwoDigits(w)
    ensures Parse(Text(w, l), l) == Ok(w)
  {
    PowersOf10();
    var mday := Join(l.dash, w.mday, 2, TimeText(w, l));
    var mon := Join(l.dash, w.mon, 2, mday);
    TakeJoined(l.dash, w.mday, 2, TimeText(w, l));
    TakeJoined(l.dash, w.mon, 2, mday);
    TakeJoined([], w.year, l.width, mon);
    ParseTimeText(w, l);
  }

  /** The front of a text ends as early as the rest of it does. */
  lemma JoinFront(mark: seq<byte>, n: nat, width: nat, rest: seq<byte>, k: nat)
    requires k <= |rest|
    ensures Join(mark, n, width, rest)[..|mark| + width + k] == Join(mark, n, width, rest[..k])
  {}

  lemma TimeTextParsed(s: seq<byte>, l: Layout, w: Written)
    requires ParseTime(s, l, w).Ok?
    ensures var v, n := ParseTime(s, l, w).value, |l.t| + 2 * |l.colon| + 7;
            && v == w.(hour := v.hour, minute := v.minute, sec := v.sec)
            && v.hour < 100 && v.minute < 100 && v.sec < 100 && n <= |s| && TimeText(v, l) == s[..n]
  {
    hide Join, Take;
    PowersOf10();
    var hour := Take(s, l.t, 2).value;
    var minute := Take(hour.rest, l.colon, 2).value;
    var sec := Take(minute.rest, l.colon, 2).value;
    JoinTaken(s, l.t, 2);
    JoinTaken(hour.rest, l.colon, 2);
    JoinTaken(minute.rest, l.colon, 2);
    assert sec.rest[..1] == [90];
    JoinFront(l.colon, sec.value, 2, sec.rest, 1);
    JoinFront(l.colon, minute.value, 2, minute.rest, |l.colon| + 3);
    JoinFront(l.t, hour.value, 2, hour.rest, 2 * |l.colon| + 5);
  }

  lemma TextParsed(s: seq<byte>, l: Layout)
    requires Parse(s, l).Ok?
    ensures var w, n := Parse(s, l).value, l.width + 2 * |l.dash| + |l.t| + 2 * |l.colon| + 11;
            w.year < Pow10(l.width) && TwoDigits(w) && n <= |s| && Text(w, l) == s[..n]
  {
    hide Join, Take, TimeText, ParseTime;
    PowersOf10();
    var year := Take(s, [], l.width).value;
    var mon := Take(year.rest, l.dash, 2).value;
    var mday := Take(mon.rest, l.dash, 2).value;
    JoinTaken(s, [], l.width);
    JoinTaken(year.rest, l.dash, 2);
    JoinTaken(mon.rest, l.dash, 2);
    TimeTextParsed(mday.rest, l, Written(year.value, mon.value, mday.value, 0, 0, 0));
    var n := |l.t| + 2 * |l.colon| + 7;
    JoinFront(l.dash, mday.value, 2, mday.rest, n);
    JoinFront(l.dash, mon.value, 2, mon.rest, |l.dash| + 2 + n);
    JoinFront([], year.value, l.width, year.rest, 2 * |l.dash| + 4 + n);
  }

  // ----- The five formats -----

  /** Sections 4.1.2.5.1 and 4.1.2.5.2 of RFC 5280, and ISO 8601 with separators. */
  function LayoutOf(f: Format): Layout
    requires !IsPosix(f)
  {
    match f
    case Iso8601Sep => Layout(4, [45], [84], [58])
    case Rfc5280Utc => Layout(2, [], [], [])
    case Rfc5280Gen => Layout(4, [], [], [])
  }

  /** The years that a text format can show, and what it shows of them. */
  function WrittenYear(f: Format, year: int): (r: Result<nat>)
    requires !IsPosix(f)
  {
    if f == Rfc5280Utc then
      if 1950 <= year <= 1999 then Ok(year - 1900)
      else if 2000 <= year <= 2049 then Ok(year - 2000)
      else Err(InvalidDate)
    else if year < 0 || year > 9999 then Err(InvalidDate)
    else Ok(year)
  }

  function ReadYear(f: Format, year: nat): int
    requires !IsPosix(f)
  {
    if f != Rfc5280Utc then year else if year < 50 then year + 2000 else year + 1900
  }

  function Reversed4(s: seq<byte>): seq<byte>
    requires |s| == 4
  {
    [s[3], s[2], s[1], s[0]]
  }

  /** What a text format shows of a date. */
  function AsWritten(d: Tm, year: nat): Written
    requires InRange(d)
  {
    Written(year, d.mon + 1, d.mday, d.hour, d.minute, d.sec)
  }

  function FromWritten(f: Format, w: Written): Tm
    requires !IsPosix(f)
  {
    Tm(ReadYear(f, w.year) - 1900, w.mon - 1, w.mday, w.hour, w.minute, w.sec)
  }

  function TextEnc(f: Format, d: Tm): (r: Result<seq<byte>>)
    requires !IsPosix(f)
    ensures r.Ok? ==> |r.value| == FormatSize(f)
    ensures r.Err? ==> r.status == InvalidDate
  {
    match WrittenYear(f, d.year + 1900)
    case Err(e) => Err(e)
    case Ok(year) => if !InRange(d) then Err(InvalidDate) else Ok(Text(AsWritten(d, year), LayoutOf(f)))
  }

  function TextDec(f: Format, s: seq<byte>): (r: Result<Tm>)
    requires !IsPosix(f)
    ensures r.Err? ==> r.status == DecodingError
  {
    match Parse(s, LayoutOf(f))
    case Err(e) => Err(DecodingError)
    case Ok(w) => Ok(FromWritten(f, w))
  }

  function PosixEnc(f: Format, d: Tm): (r: Result<seq<byte>>)
    requires IsPosix(f)
    ensures r.Ok? ==> |r.value| == 4
    ensures r.Err? ==> r.status == InvalidDate
  {
    if !PosixAccepts(d) then Err(InvalidDate)
    else
      AcceptedFits(d);
      var big := BigEndian(Seconds(d), 4);
      Ok(if f == PosixBe then big else Reversed4(big))
  }

  function PosixDec(f: Format, s: seq<byte>): Tm
    requires IsPosix(f) && |s| == 4
  {
    GmTime(Unsigned(if f == PosixBe then s else Reversed4(s)))
  }

  /** atcacert_date_enc into a buffer that is large enough. */
  function DateEnc(f: Format, d: Tm): (r: Result<seq<byte>>)
    ensures r.Ok? ==> |r.value| == FormatSize(f)
    ensures r.Err? ==> r.status == InvalidDate
  {
    if IsPosix(f) then PosixEnc(f, d) else TextEnc(f, d)
  }

  /** atcacert_date_dec */
  function DateDec(f: Format, s: seq<byte>): (r: Result<Tm>)
    ensures r.Err? ==> r.status == DecodingError
  {
    if |s| < FormatSize(f) then Err(DecodingError)
    else if IsPosix(f) then Ok(PosixDec(f, s[..4]))
    else TextDec(f, s)
  }

  lemma FourOctets()
    ensures Pow256(4) == TWO32
  {
    assert Pow256(2) == 0x1_0000;
  }

  /** Decoding an encoded date gives it back: always for text, and exactly for days that the calendar has for
      POSIX times, whose encoder looks at no month's length. */
  lemma DateRoundTrip(f: Format, d: Tm)
    requires DateEnc(f, d).Ok?
    ensures var s := DateEnc(f, d).value;
            DateDec(f, s).Ok? && (DateDec(f, s).value == d <==> (IsPosix(f) ==> RealDate(d)))
  {
    if IsPosix(f) {
      PosixRoundTrip(f, d);
      assert PosixEnc(f, d).value[..4] == PosixEnc(f, d).value;
    } else {
      TextRoundTrip(f, d);
    }
  }

  /** 31 February 2001 is encoded as a POSIX time, and comes back as 3 March. */
  lemma NoSuchDay()
    ensures var d := Tm(101, 1, 31, 0, 0, 0);
            DateEnc(PosixBe, d).Ok? && DateDec(PosixBe, DateEnc(PosixBe, d).value) == Ok(Tm(101, 2, 3, 0, 0, 0))
  {
    hide BigEndian, Unsigned, GmTime, Seconds;
    var d, r := Tm(101, 1, 31, 0, 0, 0), Tm(101, 2, 3, 0, 0, 0);
    SameSeconds();
    var s := PosixEnc(PosixBe, d).value;
    AcceptedFits(d);
    FourOctets();
    UnsignedOfBigEndian(Seconds(d), 4);
    GmTimeOfSeconds(r);
    assert s[..4] == s;
  }

  lemma SameSeconds()
    ensures Seconds(Tm(101, 1, 31, 0, 0, 0)) == Seconds(Tm(101, 2, 3, 0, 0, 0))
  {
    NextMonth(2001, 1);
  }

  lemma TextRoundTrip(f: Format, d: Tm)
    requires !IsPosix(f) && TextEnc(f, d).Ok?
    ensures TextDec(f, TextEnc(f, d).value) == Ok(d)
  {
    hide Parse, Text, TimeText;
    var year := WrittenYear(f, d.year + 1900).value;
    PowersOf10();
    YearFits(f, d.year + 1900);
    ParseText(AsWritten(d, year), LayoutOf(f));
  }

  function Two(n: nat): seq<byte>
    requires n < 100
  {
    [48 + n / 10, 48 + n % 10]
  }

  function Four(n: nat): seq<byte>
    requires n < 10000
  {
    [48 + n / 1000, 48 + n / 100 % 10, 48 + n / 10 % 10, 48 + n % 10]
  }

  lemma DecimalTwo(n: nat)
    requires n < 100
    ensures Decimal(n, 2) == Two(n)
  {
    PowersOf10();
    DecimalAt(n, 2, 0);
    DecimalAt(n, 2, 1);
  }

  lemma OneIsPower()
    ensures Pow10(0) == 1
  {}

  lemma DecimalFour(n: nat)
    requires n < 10000
    ensures Decimal(n, 4) == Four(n)
  {
    hide Decimal, Pow10;
    PowersOf10();
    OneIsPower();
    DecimalAt(n, 4, 0);
    DecimalAt(n, 4, 1);
    DecimalAt(n, 4, 2);
    DecimalAt(n, 4, 3);
  }

  /** What a year, a month and so on look like: YYYY-MM-DDThh:mm:ssZ, YYMMDDhhmmssZ or YYYYMMDDhhmmssZ. */
  function Form(f: Format, w: Written): seq<byte>
    requires !IsPosix(f) && TwoDigits(w) && w.year < 10000
  {
    match f
    case Iso8601Sep =>
      Four(w.year) + ([45] + Two(w.mon) + ([45] + Two(w.mday) + ([84] + Two(w.hour) + ([58] + Two(w.minute)
      + ([58] + Two(w.sec) + [90])))))
    case Rfc5280Utc =>
      Two(w.year % 100)
      + (Two(w.mon) + (Two(w.mday) + (Two(w.hour) + (Two(w.minute) + (Two(w.sec) + [90])))))
    case Rfc5280Gen =>
      Four(w.year) + (Two(w.mon) + (Two(w.mday) + (Two(w.hour) + (Two(w.minute) + (Two(w.sec) + [90])))))
  }

  lemma TextIsForm(f: Format, w: Written)
    requires !IsPosix(f) && TwoDigits(w) && w.year < if f == Rfc5280Utc then 100 else 10000
    ensures Text(w, LayoutOf(f)) == Form(f, w)
  {
    hide Decimal, Two, Four, Pow10;
    if f == Rfc5280Utc { DecimalTwo(w.year); } else { DecimalFour(w.year); }
    DecimalTwo(w.mon);
    DecimalTwo(w.mday);
    DecimalTwo(w.hour);
    DecimalTwo(w.minute);
    DecimalTwo(w.sec);
    NoMark();
  }

  /** A date is shown in the form of its format, the month counted from one. */
  lemma TextShown(f: Format, d: Tm)
    requires !IsPosix(f) && TextEnc(f, d).Ok?
    ensures 0 <= d.year + 1900 < 10000 && 0 <= d.mon < 12 && InRange(d)
    ensures var year := if f == Rfc5280Utc then (d.year + 1900) % 100 else d.year + 1900;
            TextEnc(f, d).value == Form(f, Written(year, d.mon + 1, d.mday, d.hour, d.minute, d.sec))
  {
    hide Form, Text;
    TextIsForm(f, AsWritten(d, WrittenYear(f, d.year + 1900).value));
  }

  /** The fields that a text form shows are read from it, in range or not and whatever follows. */
  lemma TextRead(f: Format, w: Written, suffix: seq<byte>)
    requires !IsPosix(f) && TwoDigits(w) && w.year < if f == Rfc5280Utc then 100 else 10000
    ensures var year := if f == Rfc5280Utc && w.year < 50 then w.year + 100
                        else if f == Rfc5280Utc then w.year as int else w.year - 1900;
            DateDec(f, Form(f, w) + suffix) == Ok(Tm(year, w.mon - 1, w.mday, w.hour, w.minute, w.sec))
  {
    hide Form, Text, Parse;
    PowersOf10();
    TextIsForm(f, w);
    ParseText(w, LayoutOf(f));
    ParseFront(Form(f, w), LayoutOf(f), suffix);
    TextSize(f);
  }

  /** Nothing is read from any other text. */
  lemma TextReadOnly(f: Format, s: seq<byte>) returns (w: Written)
    requires !IsPosix(f) && DateDec(f, s).Ok?
    ensures TwoDigits(w) && w.year < if f == Rfc5280Utc then 100 else 10000
    ensures Form(f, w) <= s
  {
    hide Form, Text, Parse;
    PowersOf10();
    w := Parse(s, LayoutOf(f)).value;
    TextParsed(s, LayoutOf(f));
    TextIsForm(f, w);
    TextSize(f);
  }

  lemma NoMark()
    ensures forall s: seq<byte> :: [] + s == s
  {}

  /** Which dates a text format can show. */
  lemma TextShowsExactly(f: Format, d: Tm)
    requires !IsPosix(f)
    ensures TextEnc(f, d).Ok?
            <==> && 0 <= d.mon <= 11 && 1 <= d.mday <= 31 && 0 <= d.hour <= 23
                 && 0 <= d.minute <= 59 && 0 <= d.sec <= 59
                 && (if f == Rfc5280Utc then 50 <= d.year <= 149 else -1900 <= d.year <= 8099)
  {}

  lemma YearFits(f: Format, year: int)
    requires !IsPosix(f) && WrittenYear(f, year).Ok?
    ensures WrittenYear(f, year).value < Pow10(LayoutOf(f).width)
    ensures ReadYear(f, WrittenYear(f, year).value) == year
  {
    PowersOf10();
  }

  lemma TextSize(f: Format)
    requires !IsPosix(f)
    ensures var l := LayoutOf(f); FormatSize(f) == l.width + 2 * |l.dash| + |l.t| + 2 * |l.colon| + 11
  {}

  lemma YearShown(f: Format, year: nat)
    requires !IsPosix(f) && year < Pow10(LayoutOf(f).width)
    ensures WrittenYear(f, ReadYear(f, year)) == Ok(year)
  {
    PowersOf10();
  }

  lemma TextReencodes(f: Format, s: seq<byte>)
    requires !IsPosix(f) && |s| == FormatSize(f) && TextDec(f, s).Ok?
    ensures TextEnc(f, TextDec(f, s).value) == Ok(s) <==> InRange(TextDec(f, s).value)
  {
    hide Parse, Text, TimeText;
    TextSize(f);
    TextParsed(s, LayoutOf(f));
    assert s[..|s|] == s;
    YearShown(f, Parse(s, LayoutOf(f)).value.year);
  }

  lemma PosixRoundTrip(f: Format, d: Tm)
    requires IsPosix(f) && PosixEnc(f, d).Ok?
    ensures PosixDec(f, PosixEnc(f, d).value) == d <==> RealDate(d)
  {
    AcceptedFits(d);
    FourOctets();
    var big := BigEndian(Seconds(d), 4);
    UnsignedOfBigEndian(Seconds(d), 4);
    assert Reversed4(Reversed4(big)) == big;
    SecondsOfGmTime(Seconds(d));
    if RealDate(d) { GmTimeOfSeconds(d); }
  }

  /** The octets of a POSIX time, most significant first or last, and what four octets are read as. */
  lemma PosixOctets(f: Format, d: Tm, s: seq<byte>)
    requires IsPosix(f) && |s| >= 4
    ensures PosixEnc(f, d).Ok? ==>
              var e := PosixEnc(f, d).value;
              var high: int, low: int := if f == PosixBe then e[0] else e[3], if f == PosixBe then e[3] else e[0];
              var second: int, third: int := if f == PosixBe then e[1] else e[2], if f == PosixBe then e[2] else e[1];
              Seconds(d) == 0x100_0000 * high + 0x1_0000 * second + 0x100 * third + low
    ensures var high: int, low: int := if f == PosixBe then s[0] else s[3], if f == PosixBe then s[3] else s[0];
            var second: int, third: int := if f == PosixBe then s[1] else s[2], if f == PosixBe then s[2] else s[1];
            DateDec(f, s) == Ok(GmTime(0x100_0000 * high + 0x1_0000 * second + 0x100 * third + low))
  {
    hide Unsigned, BigEndian, GmTime, Seconds;
    FourOctets();
    FourAsSum(s[..4]);
    FourAsSum(Reversed4(s[..4]));
    if PosixEnc(f, d).Ok? {
      AcceptedFits(d);
      UnsignedOfBigEndian(Seconds(d), 4);
      FourAsSum(BigEndian(Seconds(d), 4));
    }
  }

  lemma FourAsSum(s: seq<byte>)
    requires |s| == 4
    ensures Unsigned(s) == 0x100_0000 * s[0] as int + 0x1_0000 * s[1] as int + 0x100 * s[2] as int + s[3]
  {
    UnsignedForms(s[0], s[1], s[2], s[3]);
    assert s == [s[0], s[1], s[2], s[3]];
  }

  /** Encoding a decoded date gives the octets back exactly when the fields read are in range or, for POSIX
      times, the count is not the largest. */
  lemma DateReencodes(f: Format, s: seq<byte>)
    requires |s| == FormatSize(f) && DateDec(f, s).Ok?
    ensures var d := DateDec(f, s).value;
            DateEnc(f, d) == Ok(s) <==> if IsPosix(f) then s != [0xFF, 0xFF, 0xFF, 0xFF] else InRange(d)
  {
    if IsPosix(f) {
      assert s[..4] == s;
      PosixReencodes(f, s);
    } else {
      TextReencodes(f, s);
    }
  }

  lemma PosixReencodes(f: Format, s: seq<byte>)
    requires IsPosix(f) && |s| == 4
    ensures PosixEnc(f, PosixDec(f, s)) == Ok(s) <==> s != [0xFF, 0xFF, 0xFF, 0xFF]
  {
    hide GmTime, Seconds;
    var big := if f == PosixBe then s else Reversed4(s);
    FourOctets();
    UnsignedBound(big);
    AcceptsDecoded(Unsigned(big));
    SecondsOfGmTime(Unsigned(big));
    BigEndianOfUnsigned(big);
    LargestCount(big);
    assert Reversed4(Reversed4(s)) == s;
  }

  lemma LargestCount(s: seq<byte>)
    requires |s| == 4
    ensures Unsigned(s) == TWO32 - 1 <==> s == [0xFF, 0xFF, 0xFF, 0xFF]
  {
    var a, b, c := s[..3], s[..2], s[..1];
    assert a[..2] == b && b[..1] == c && c[..0] == [];
    assert Unsigned(c) == s[0];
    assert Unsigned(b) == 256 * Unsigned(c) + s[1];
    assert Unsigned(a) == 256 * Unsigned(b) + s[2];
    assert Unsigned(s) == 256 * Unsigned(a) + s[3];
  }

  /** atcacert_date_get_max_date */
  function MaxDate(f: Format): Tm {
    match f
    case Iso8601Sep => Tm(9999 - 1900, 11, 31, 23, 59, 59)
    case Rfc5280Utc => Tm(2049 - 1900, 11, 31, 23, 59, 59)
    case PosixBe => Tm(2106 - 1900, 1, 7, 6, 28, 15)
    case PosixLe => Tm(2106 - 1900, 1, 7, 6, 28, 15)
    case Rfc5280Gen => Tm(9999 - 1900, 11, 31, 23, 59, 59)
  }

  /** No date that a format encodes comes after its maximum, and the maximum itself is encoded exactly when the
      format is not a POSIX one: there the encoder stops one second short. */
  lemma MaxDateBounds(f: Format, d: Tm)
    requires DateEnc(f, d).Ok?
    ensures !Before(MaxDate(f), d)
    ensures DateEnc(f, MaxDate(f)).Ok? <==> !IsPosix(f)
  {}

  /** The latest POSIX time is the last 32-bit count. */
  lemma MaxDatePosix(f: Format)
    requires IsPosix(f)
    ensures RealDate(MaxDate(f)) && Seconds(MaxDate(f)) == 0xFFFF_FFFF
  {
    Start2106();
    MonthStarts(2106, 1);
  }

  // ----- Compressed dates -----

  /** atcacert_date_enc_compcert: year, month, day, hour and years to expiry in 5, 4, 5, 5 and 5 bits. */
  function EncCompcert(d: Tm, expireYears: nat): (r: Result<seq<byte>>)
    ensures r.Ok? ==> |r.value| == 3
    ensures r.Err? ==> r.status == InvalidDate
  {
    if d.year + 1900 < 2000 || d.year + 1900 > 2031 || d.mon < 0 || d.mon > 11 || d.mday < 1 || d.mday > 31
       || d.hour < 0 || d.hour > 23 || expireYears > 31
    then Err(InvalidDate)
    else
      Ok([(d.year + 1900 - 2000) * 8 + (d.mon + 1) / 2,
          (d.mon + 1) % 2 * 128 + d.mday * 4 + d.hour / 8,
          d.hour % 8 * 32 + expireYears])
  }

  function CompIssue(e: seq<byte>): Tm
    requires |e| == 3
  {
    var a: int, b: int, c: int := e[0], e[1], e[2];
    Tm(a / 8 + 2000 - 1900, a % 8 * 2 + b / 128 - 1, b / 4 % 32, b % 4 * 8 + c / 32, 0, 0)
  }

  function CompYears(e: seq<byte>): nat
    requires |e| == 3
  {
    e[2] % 32
  }

  /** The date of expiry in atcacert_date_dec_compcert: none is written as the latest of the format. */
  function CompExpire(e: seq<byte>, f: Format): Tm
    requires |e| == 3
  {
    var issue, years := CompIssue(e), CompYears(e);
    if years != 0 then Tm(issue.year + years, issue.mon, issue.mday, issue.hour, 0, 0) else MaxDate(f)
  }

  /** The date of expiry is the issue date with the years added and every other field kept. */
  lemma ExpiryIs(e: seq<byte>, f: Format)
    requires |e| == 3
    ensures CompExpire(e, f)
            == if e[2] % 32 == 0 then MaxDate(f) else CompIssue(e).(year := CompIssue(e).year + e[2] % 32)
  {}

  /** Which dates are packed, and the 24 bits that they are packed into. */
  lemma CompcertBits(d: Tm, years: nat)
    ensures EncCompcert(d, years).Ok?
            <==> && 100 <= d.year <= 131 && 0 <= d.mon <= 11 && 1 <= d.mday <= 31 && 0 <= d.hour <= 23 && years <= 31
    ensures EncCompcert(d, years).Ok? ==>
              var e := EncCompcert(d, years).value;
              e[0] as int * 65536 + e[1] as int * 256 + e[2]
              == (((((d.year - 100) * 16 + d.mon + 1) * 32 + d.mday) * 32) + d.hour) * 32 + years
  {}

  /** The fields of any three octets: year, month, day, hour and years to expiry in 5, 4, 5, 5 and 5 bits. */
  lemma CompcertFields(e: seq<byte>)
    requires |e| == 3
    ensures var Tm(year, mon, mday, hour, minute, sec) := CompIssue(e);
            && 100 <= year < 132 && -1 <= mon < 15 && 0 <= mday < 32 && 0 <= hour < 32 && minute == sec == 0
            && CompYears(e) < 32
            && e[0] as int * 65536 + e[1] as int * 256 + e[2]
               == (((((year - 100) * 16 + mon + 1) * 32 + mday) * 32) + hour) * 32 + CompYears(e)
  {}

  /** A real date so many years on is a day of the calendar exactly unless it is a 29 February that its year does
      not have. */
  lemma ExpiryDayExists(e: seq<byte>, f: Format)
    requires |e| == 3 && CompYears(e) != 0 && RealDate(CompIssue(e))
    ensures var issue := CompIssue(e);
            RealDate(CompExpire(e, f))
            <==> !(issue.mon == 1 && issue.mday == 29 && !LeapYear(issue.year + CompYears(e) + 1900))
  {
    var issue := CompIssue(e);
    WholeHour(e);
    assert CompExpire(e, f) == issue.(year := issue.year + CompYears(e));
  }

  lemma WholeHour(e: seq<byte>)
    requires |e| == 3
    ensures CompIssue(e).minute == 0 && CompIssue(e).sec == 0
  {}

  /** Issued on 29 February 2020 for one year. */
  lemma LeapDayExpires(f: Format)
    ensures var e := [161, 116, 1];
            && CompIssue(e) == Tm(120, 1, 29, 0, 0, 0) && RealDate(CompIssue(e))
            && CompExpire(e, f) == Tm(121, 1, 29, 0, 0, 0) && !RealDate(CompExpire(e, f))
  {}

  /** Unpacking packed dates gives the issue date to the hour, and the years. */
  lemma CompcertRoundTrip(d: Tm, years: nat)
    requires EncCompcert(d, years).Ok?
    ensures var e := EncCompcert(d, years).value;
            CompIssue(e) == d.(minute := 0, sec := 0) && CompYears(e) == years
  {
    var e := EncCompcert(d, years).value;
    assert e[0] / 8 == d.year - 100 && e[0] % 8 == (d.mon + 1) / 2;
    assert e[1] / 128 == (d.mon + 1) % 2;
    assert e[1] / 4 == (d.mon + 1) % 2 * 32 + d.mday;
  }

  /** Packing unpacked dates gives the octets back exactly when they hold a month, a day and an hour. */
  lemma CompcertRepacks(e: seq<byte>)
    requires |e| == 3
    ensures EncCompcert(CompIssue(e), CompYears(e)) == Ok(e) <==> InRange(CompIssue(e))
  {
    assert e[0] == e[0] / 8 * 8 + e[0] % 8;
    assert e[1] == e[1] / 128 * 128 + e[1] / 4 % 32 * 4 + e[1] % 4;
    assert e[2] == e[2] / 32 * 32 + e[2] % 32;
    if EncCompcert(CompIssue(e), CompYears(e)).Ok? {
      var r := EncCompcert(CompIssue(e), CompYears(e)).value;
      assert r[0] == e[0] && r[1] == e[1] && r[2] == e[2];
      assert r == e;
    }
  }
}
