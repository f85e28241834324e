/** Zero-padded decimal numbers (atcacert_date.c). */
module Decimals {
  import opened Arithmetic
  import opened Bytes

  function Pow10(n: nat): (r: nat)
    ensures r >= 1
  {
    if n == 0 then 1 else 10 * Pow10(n - 1)
  }

  /** The last `width` decimal digits of n, in ASCII. */
  function Decimal(n: nat, width: nat): (r: seq<byte>)
    ensures |r| == width
  {
    if width == 0 then [] else Decimal(n / 10, width - 1) + [48 + n % 10]
  }

  predicate Digits(s: seq<byte>) {
    forall i :: 0 <= i < |s| ==> 48 <= s[i] <= 57
  }

  /** The number that a string of digits stands for. */
  function Number(s: seq<byte>): (r: nat)
    requires Digits(s)
  {
    if s == [] then 0 else 10 * Number(s[..|s| - 1]) + (s[|s| - 1] - 48)
  }

  lemma {:induction false} NumberOfDecimal(n: nat, width: nat)
    requires n < Pow10(width)
    ensures Digits(Decimal(n, width)) && Number(Decimal(n, width)) == n
  {
    if width > 0 {
      NumberOfDecimal(n / 10, width - 1);
      assert Decimal(n, width)[..width - 1] == Decimal(n / 10, width - 1);
    }
  }

  lemma {:induction false} DecimalOfNumber(s: seq<byte>)
    requires Digits(s)
    ensures Decimal(Number(s), |s|) == s && Number(s) < Pow10(|s|)
  {
    if s != [] {
      var t := s[..|s| - 1];
      DecimalOfNumber(t);
      assert Number(s) / 10 == Number(t) && Number(s) % 10 == s[|s| - 1] - 48;
      assert s == t + [s[|s| - 1]];
    }
  }

  lemma {:induction false} DecimalAt(n: nat, width: nat, i: nat)
    requires i < width
    ensures Decimal(n, width)[i] == 48 + n / Pow10(width - 1 - i) % 10
  {
    if i < width - 1 {
      DecimalAt(n / 10, width - 1, i);
      DivTen(n, Pow10(width - 2 - i));
    }
  }

  lemma DivTen(n: nat, p: nat)
    requires p >= 1
    ensures n / 10 / p == n / (10 * p) && n / p / 10 == n / (10 * p)
  {
    DivTwice(n, 10, p);
    DivTwice(n, p, 10);
  }

  lemma {:induction false} NoMoreDigits(n: nat, k: nat, j: nat)
    requires k <= j && n / Pow10(k) == 0
    ensures n / Pow10(j) == 0
  {
    if k < j {
      NoMoreDigits(n, k, j - 1);
      DivTen(n, Pow10(j - 1));
    }
  }

  lemma NoDigits(n: nat, width: nat)
    requires n < Pow10(width)
    ensures n / Pow10(width) == 0
  {
    Quotient(n, Pow10(width), 0, n);
  }

  /** uint_to_str: the digits of a number that has at most `width` of them, zero padded. */
  method UintToStr(num: nat, width: nat, str: array<byte>, at: nat) returns (ret: nat)
    requires num < Pow10(width) && at + width <= str.Length
    modifies str
    ensures ret == at + width && str[..] == Overwrite(old(str[..]), at, Decimal(num, width))
  {
    ret := at + width;
    for i := 0 to width
      invariant forall j :: at <= j < at + i ==> str[j] == 48
      invariant forall j :: 0 <= j < str.Length && !(at <= j < at + i) ==> str[j] == old(str[j])
    {
      str[at + i] := 48;
    }
    PutDigits(num, width, str, at);
  }

  /** The second loop of uint_to_str, from right to left over the zeros that the first one put. */
  method PutDigits(num: nat, width: nat, str: array<byte>, at: nat)
    requires num < Pow10(width) && at + width <= str.Length
    requires forall j :: at <= j < at + width ==> str[j] == 48
    modifies str
    ensures forall j :: at <= j < at + width ==> str[j] == Decimal(num, width)[j - at]
    ensures forall j :: 0 <= j < str.Length && !(at <= j < at + width) ==> str[j] == old(str[j])
  {
    ghost var d := Decimal(num, width);
    var rest, k: nat := num, width;
    NoDigits(num, width);
    while rest != 0
      invariant k <= width && rest == num / Pow10(width - k)
      invariant forall j :: at <= j < at + k ==> str[j] == 48
      invariant forall j :: at + k <= j < at + width ==> str[j] == d[j - at]
      invariant forall j :: 0 <= j < str.Length && !(at <= j < at + width) ==> str[j] == old(str[j])
      decreases rest
    {
      DigitStep(num, width, k);
      k := k - 1;
      str[at + k] := 48 + rest % 10;
      rest := rest / 10;
    }
    HighDigits(num, width, k);
  }

  lemma DigitStep(num: nat, width: nat, k: nat)
    requires k <= width && num < Pow10(width) && num / Pow10(width - k) != 0
    ensures k > 0 && num / Pow10(width - k) / 10 == num / Pow10(width - (k - 1))
    ensures Decimal(num, width)[k - 1] == 48 + num / Pow10(width - k) % 10
  {
    if k == 0 {
      NoDigits(num, width);
    } else {
      DivTen(num, Pow10(width - k));
      DecimalAt(num, width, k - 1);
    }
  }

  lemma HighDigits(num: nat, width: nat, k: nat)
    requires k <= width && num / Pow10(width - k) == 0
    ensures forall i :: 0 <= i < k ==> Decimal(num, width)[i] == 48
  {
    forall i | 0 <= i < k ensures Decimal(num, width)[i] == 48 {
      DecimalAt(num, width, i);
      NoMoreDigits(num, width - k, width - 1 - i);
    }
  }

  /** The ten digits that str_to_uint adds up. */
  function LowDigits(s: seq<byte>): seq<byte> {
    if |s| <= 10 then s else s[|s| - 10..]
  }

  /** The strings that str_to_uint takes: ten digits within 32 bits, and a zero before them. */
  predicate Fits32(s: seq<byte>) {
    Digits(LowDigits(s)) && Number(LowDigits(s)) < TWO32 && (|s| > 10 ==> s[|s| - 11] == 48)
  }

  /** Up to ten characters are taken exactly when they are digits of a number of 32 bits. */
  lemma ShortTaken(s: seq<byte>)
    requires |s| <= 10
    ensures Fits32(s) <==> (forall i :: 0 <= i < |s| ==> 48 <= s[i] <= 57) && Number(s) < 0x1_0000_0000
    ensures LowDigits(s) == s
  {}

  /** Of more, the ten at the end are, with a zero before them, whatever else comes in front. */
  lemma LongTaken(front: seq<byte>, c: byte, s: seq<byte>)
    requires |s| == 10
    ensures Fits32(front + [c] + s)
            <==> c == 48 && (forall i :: 0 <= i < 10 ==> 48 <= s[i] <= 57) && Number(s) < 0x1_0000_0000
    ensures LowDigits(front + [c] + s) == s
  {
    var t := front + [c] + s;
    assert t[|t| - 10..] == s;
  }

  lemma {:induction false} NumberPrepend(c: byte, s: seq<byte>)
    requires Digits([c] + s)
    ensures Digits(s) && Number([c] + s) == (c - 48) * Pow10(|s|) + Number(s)
  {
    hide Number;
    assert forall i :: 0 <= i < |s| ==> s[i] == ([c] + s)[i + 1];
    NumberLast([c] + s);
    if s == [] {
      assert ([c] + s)[..0] == [];
      NumberNone();
    } else {
      var t := s[..|s| - 1];
      assert ([c] + s)[..|s|] == [c] + t;
      NumberPrepend(c, t);
      NumberLast(s);
      Scale10(c - 48, Pow10(|t|));
    }
  }

  lemma NumberNone()
    ensures Number([]) == 0
  {}

  lemma NumberLast(s: seq<byte>)
    requires s != [] && Digits(s)
    ensures Digits(s[..|s| - 1]) && Number(s) == 10 * Number(s[..|s| - 1]) + (s[|s| - 1] - 48)
  {}

  lemma Scale10(x: int, p: nat)
    ensures 10 * (x * p) == x * (10 * p)
  {}

  lemma PowersOf10()
    ensures Pow10(1) == 10 && Pow10(2) == 100 && Pow10(3) == 1000 && Pow10(4) == 10000 && Pow10(5) == 100000
    ensures Pow10(6) == 1000000 && Pow10(7) == 10000000 && Pow10(8) == 100000000 && Pow10(9) == 1000000000
  {}

  lemma {:induction false} Pow10Monotone(j: nat, k: nat)
    requires j <= k
    ensures Pow10(j) <= Pow10(k)
  {
    if j < k { Pow10Monotone(j, k - 1); }
  }

  /** One digit of str_to_uint, put before the k digits t already added up; a sum that rolls over, or a tenth
      digit above 4, is refused. */
  method AddDigit(c: byte, k: nat, num: nat, digitValue: nat, ghost t: seq<byte>) returns (ok: bool, sum: nat)
    requires k == |t| < 10 && Digits(t) && num == Number(t) < TWO32 && digitValue == Pow10(k)
    ensures ok <==> Digits([c] + t) && Number([c] + t) < TWO32
    ensures ok ==> sum == Number([c] + t)
  {
    sum := num;
    if c < 48 || c > 57 {
      assert ([c] + t)[0] == c;
      return false, sum;
    }
    assert Digits([c] + t);
    NumberPrepend(c, t);
    DecimalOfNumber(t);
    DigitBounds(k, c - 48, num);
    if k == 9 && c > 52 {
      return false, sum;
    }
    sum := (num + digitValue * (c - 48)) % TWO32;
    RollOver(num, digitValue * (c - 48));
    if sum < num {
      return false, sum;
    }
    ok := true;
  }

  lemma DigitBounds(k: nat, x: nat, num: nat)
    requires k < 10 && x <= 9 && num < Pow10(k)
    ensures k < 9 ==> 0 <= Pow10(k) * x < TWO32 - num
    ensures k == 9 && x <= 4 ==> 0 <= Pow10(k) * x < TWO32
    ensures k == 9 && x > 4 ==> Pow10(k) * x >= TWO32
  {
    PowersOf10();
    if k < 9 {
      Pow10Monotone(k, 8);
      MulMonotone(Pow10(k), 100000000, x, 9);
    }
  }

  lemma MulMonotone(a: nat, b: nat, x: nat, y: nat)
    requires a <= b && x <= y
    ensures 0 <= a * x <= b * y
  {
    assert b * y - a * x == b * (y - x) + (b - a) * x;
  }

  lemma RollOver(num: nat, add: nat)
    requires num < TWO32 && add < TWO32
    ensures (num + add) % TWO32 < num <==> num + add >= TWO32
    ensures num + add < TWO32 ==> (num + add) % TWO32 == num + add
  {}

  /** str_to_uint. The pointer stops moving after the tenth digit from the right, so that of a longer string the
      eleventh is looked at again and again, and the ones before it never. */
  method StrToUint(str: seq<byte>) returns (ret: nat, num: nat)
    ensures ret == if Fits32(str) then |str| else 0
    ensures Fits32(str) ==> num == Number(LowDigits(str))
  {
    hide Number;
    NumberNone();
    assert str[|str|..] == [];
    num := 0;
    var digit, digitValue, pos := 0, 1, |str| - 1;
    while digit < |str|
      invariant 0 <= digit <= |str|
      invariant pos == |str| - 1 - if digit <= 10 then digit else 10
      invariant Digits(str[pos + 1..]) && num == Number(str[pos + 1..]) < TWO32
      invariant digit < 10 ==> digitValue == Pow10(digit)
      invariant digit > 10 ==> str[pos] == 48
    {
      if digit >= 10 {
        if str[pos] != 48 {
          return 0, num;
        }
      } else {
        ghost var t := str[pos + 1..];
        assert str[pos..] == [str[pos]] + t;
        var ok, sum := AddDigit(str[pos], digit, num, digitValue, t);
        if !ok {
          NotLow(str, pos);
          return 0, num;
        }
        num := sum;
        digitValue := digitValue * 10 % TWO32;
        PowersOf10();
        pos := pos - 1;
      }
      digit := digit + 1;
    }
    ret := |str|;
  }

  /** A run of at most ten digits at the end that is refused is refused as part of the ten, too. */
  lemma {:induction false} NotLow(s: seq<byte>, pos: nat)
    requires pos < |s| <= pos + 10
    requires !(Digits(s[pos..]) && Number(s[pos..]) < TWO32)
    ensures !Fits32(s)
  {
    var low := LowDigits(s);
    var n := |s| - pos;
    assert s[pos..] == low[|low| - n..];
    if Digits(low) { NumberOfTail(low, |low| - n); }
  }

  lemma {:induction false} NumberOfTail(s: seq<byte>, i: nat)
    requires i <= |s| && Digits(s)
    ensures Number(s[i..]) <= Number(s)
    decreases i
  {
    if i == 0 {
      assert s[0..] == s;
    } else {
      assert s[i - 1..] == [s[i - 1]] + s[i..];
      NumberPrepend(s[i - 1], s[i..]);
      MulMonotone(0, s[i - 1] - 48, 0, Pow10(|s| - i));
      NumberOfTail(s, i - 1);
    }
  }
}
