/**
 Looking up a key in a flat JSON object by walking over its text (json.c). The text is a C string: reading it at
 its end gives the terminating zero.
 */
module JsonLookup {
  import opened Arithmetic
  import opened Bytes
  import opened Options

  const NUL: char := '\0'

  // ----- Objects and their text -----

  predicate IsWhiteSpace(c: char) {
    c == '\n' || c == '\r' || c == '\t' || c == ' '
  }

  predicate IsDigit(c: char) {
    '0' <= c <= '9'
  }

  predicate IsAlpha(c: char) {
    'A' <= c <= 'Z' || 'a' <= c <= 'z'
  }

  /** White space only: blanks, tabulators and ends of lines. */
  predicate Blank(s: string) {
    forall i :: 0 <= i < |s| ==> s[i] == ' ' || s[i] == '\t' || s[i] == '\n' || s[i] == '\r'
  }

  /** No quote, no backslash, no zero. */
  predicate Plain(s: string) {
    forall i :: 0 <= i < |s| ==> s[i] != '"' && s[i] != '\\' && s[i] != NUL
  }

  predicate AlphaNumeric(s: string) {
    forall i :: 0 <= i < |s| ==> '0' <= s[i] <= '9' || 'A' <= s[i] <= 'Z' || 'a' <= s[i] <= 'z'
  }

  /** What numbers and words are written with, signs and points included. */
  predicate Literal(s: string) {
    forall i :: 0 <= i < |s| ==>
      '0' <= s[i] <= '9' || 'A' <= s[i] <= 'Z' || 'a' <= s[i] <= 'z' || s[i] == '+' || s[i] == '-' || s[i] == '.'
  }

  /** The inside of a string: a backslash takes the next character with it, and no quote stands alone. */
  predicate Escaped(s: string) {
    s == [] || (
      if s[0] == '\\' then |s| >= 2 && s[1] != NUL && Escaped(s[2..])
      else s[0] != '"' && s[0] != NUL && Escaped(s[1..]))
  }

  datatype Value = Text(chars: string) | Token(chars: string) {
    predicate Valid() {
      if Text? then Escaped(chars) else chars != [] && Literal(chars)
    }

    /** A scan gets over the value: the code passes letters and digits only. */
    predicate Passable() {
      Token? ==> AlphaNumeric(chars)
    }

    function Shown(): (r: string) {
      if Text? then ['"'] + chars + ['"'] else chars
    }
  }

  /** A key and a value, with the white space before the key, around the colon, and after the value. */
  datatype Pair = Pair(before: string, key: string, beforeColon: string, afterColon: string,
                       value: Value, after: string) {
    predicate Valid() {
      Blank(before) && Escaped(key) && Blank(beforeColon) && Blank(afterColon) && value.Valid() && Blank(after)
    }
  }

  predicate Valid(pairs: seq<Pair>) {
    forall i :: 0 <= i < |pairs| ==> pairs[i].Valid()
  }

  /** The text from the value of the i-th pair on. */
  function FromValue(pairs: seq<Pair>, i: nat, tail: string): string
    requires i < |pairs|
    decreases |pairs| - i, 1
  {
    pairs[i].value.Shown() + (pairs[i].after + AfterPair(pairs, i, tail))
  }

  /** The text behind the i-th pair. */
  function AfterPair(pairs: seq<Pair>, i: nat, tail: string): (r: string)
    requires i < |pairs|
    ensures r != []
    decreases |pairs| - i, 0
  {
    if i == |pairs| - 1 then ['}'] + tail else [','] + FromPair(pairs, i + 1, tail)
  }

  /** The text from the i-th pair on. */
  function FromPair(pairs: seq<Pair>, i: nat, tail: string): string
    requires i < |pairs|
    decreases |pairs| - i, 4
  {
    pairs[i].before + (['"'] + (pairs[i].key + FromKeyEnd(pairs, i, tail)))
  }

  /** The text from the quote behind the i-th key on. */
  function FromKeyEnd(pairs: seq<Pair>, i: nat, tail: string): string
    requires i < |pairs|
    decreases |pairs| - i, 3
  {
    ['"'] + Colon(pairs, i, tail)
  }

  /** The text behind that quote. */
  function Colon(pairs: seq<Pair>, i: nat, tail: string): string
    requires i < |pairs|
    decreases |pairs| - i, 2
  {
    pairs[i].beforeColon + ([':'] + (pairs[i].afterColon + FromValue(pairs, i, tail)))
  }

  /** The first pair from i on with the key, or the number of pairs. */
  function First(pairs: seq<Pair>, key: string, i: nat): (r: nat)
    requires i <= |pairs|
    ensures i <= r <= |pairs| && (r < |pairs| ==> pairs[r].key == key)
    ensures forall j :: i <= j < r ==> pairs[j].key != key
    decreases |pairs| - i
  {
    if i == |pairs| || pairs[i].key == key then i else First(pairs, key, i + 1)
  }

  // ----- Scanning -----

  // A pointer into a C string is the text behind it, up to the zero: "" is the pointer to the zero itself.

  /** The character that a pointer points to. */
  function Head(t: string): char {
    if t == "" then NUL else t[0]
  }

  /** How far it is to the first quote that no backslash takes with it, or to the end. */
  function ToQuote(t: string): (r: nat)
    ensures r <= |t| && (r < |t| ==> t[r] == '"')
  {
    if t == "" || t[0] == '"' then 0
    else if t[0] == '\\' then if |t| == 1 then 1 else 2 + ToQuote(t[2..])
    else 1 + ToQuote(t[1..])
  }

  function SkipBlanks(t: string): (r: string)
    ensures |r| <= |t| && !IsWhiteSpace(Head(r))
  {
    if IsWhiteSpace(Head(t)) then SkipBlanks(t[1..]) else t
  }

  function SkipWord(t: string): (r: string)
    ensures |r| <= |t| && !IsAlpha(Head(r)) && !IsDigit(Head(r))
  {
    if IsAlpha(Head(t)) || IsDigit(Head(t)) then SkipWord(t[1..]) else t
  }

  /** From the quote behind a key, over the colon, to the value. */
  function ToValue(t: string): (r: Option<string>)
    requires t != ""
    ensures r.Some? ==> 0 < |r.value| < |t|
  {
    var colon := SkipBlanks(t[1..]);
    if Head(colon) != ':' then None
    else
      var v := SkipBlanks(colon[1..]);
      if v == "" || v[0] == '}' then None else Some(v)
  }

  /** From the beginning of a value over its end and the white space behind. */
  function PastValue(t: string): (r: Option<string>)
    requires t != ""
    ensures r.Some? ==> |r.value| <= |t|
  {
    if t[0] != '"' then Some(SkipBlanks(SkipWord(t)))
    else
      var inside := t[1..];
      if ToQuote(inside) == |inside| then None else Some(SkipBlanks(inside[ToQuote(inside) + 1..]))
  }

  /** What a lookup comes to. In an overrun the code reads on behind the zero at the end of the text, and C gives
      its result no meaning. */
  datatype Lookup<+T> = Found(value: T) | Missing | Overrun

  /** The lookup of a key in any text: the text from the value on. */
  function Scan(t: string, key: string): (r: Lookup<string>)
    ensures r.Found? ==> 0 < |r.value| < |t|
    decreases |t|
  {
    if t == "" then Missing
    else if ToQuote(t) == |t| then Overrun
    else ScanKey(t[ToQuote(t) + 1..], key)
  }

  /** The lookup from the text behind the opening quote of a key on. */
  function ScanKey(t: string, key: string): (r: Lookup<string>)
    ensures r.Found? ==> 0 < |r.value| < |t|
    decreases |t|, 1
  {
    if key <= t && Head(t[|key|..]) == '"' then
      match ToValue(t[|key|..]) { case Some(v) => Found(v) case None => Missing }
    else if key <= t && |key| == |t| then Overrun
    else
      var more := if key <= t then t[|key| + 1..] else t;
      if ToQuote(more) == |more| then Missing else ScanOn(more[ToQuote(more)..], key)
  }

  /** The lookup from the quote behind a key that is not the one sought. */
  function ScanOn(t: string, key: string): (r: Lookup<string>)
    requires t != ""
    ensures r.Found? ==> 0 < |r.value| < |t|
    decreases |t|, 0
  {
    match ToValue(t)
    case None => Missing
    case Some(v) =>
      match PastValue(v)
      case None => Missing
      case Some(q) => if Head(q) == ',' then Scan(q, key) else Missing
  }

  // ----- The code of the lookup -----

  /** The character at a place in a C string. */
  function At(s: string, p: nat): char {
    if p < |s| then s[p] else NUL
  }

  /** JSON_findQuote, on a text without zeros */
  method FindQuote(s: string, start: nat) returns (p: nat)
    requires start <= |s| && NUL !in s
    ensures p == start + ToQuote(s[start..])
  {
    p := start;
    while At(s, p) != NUL
      invariant start <= p <= |s| && p + ToQuote(s[p..]) == start + ToQuote(s[start..])
      decreases |s| - p
    {
      if At(s, p) == '"' {
        return;
      }
      if At(s, p) == '\\' {
        if p + 1 < |s| { assert s[p..][2..] == s[p + 2..]; }
        p := p + 1;
        if At(s, p) == NUL {
          break;
        }
      } else {
        assert s[p..][1..] == s[p + 1..];
      }
      p := p + 1;
    }
  }

  /** next, the skipping of white space */
  method Next(s: string, start: nat) returns (p: nat)
    requires start <= |s| && NUL !in s
    ensures start <= p <= |s| && s[p..] == SkipBlanks(s[start..])
  {
    p := start;
    while At(s, p) != NUL && IsWhiteSpace(At(s, p))
      invariant start <= p <= |s| && SkipBlanks(s[p..]) == SkipBlanks(s[start..])
      decreases |s| - p
    {
      assert s[p..][1..] == s[p + 1..];
      p := p + 1;
    }
  }

  /** strncmp over the length of the key */
  method StartsWith(s: string, start: nat, key: string) returns (r: bool)
    requires start <= |s| && NUL !in key
    ensures r <==> key <= s[start..]
  {
    var i := 0;
    while i < |key|
      invariant 0 <= i <= |key| && i <= |s| - start && key[..i] == s[start..][..i]
    {
      if At(s, start + i) != key[i] {
        return false;
      }
      assert key[..i + 1] == key[..i] + [key[i]];
      assert s[start..][..i + 1] == s[start..][..i] + [s[start + i]];
      i := i + 1;
    }
    r := true;
  }

  /** The loop of JSON_getValue over a number or a word. */
  method EndOfWord(s: string, start: nat) returns (p: nat)
    requires start <= |s|
    ensures start <= p <= |s| && s[p..] == SkipWord(s[start..])
  {
    p := start;
    while IsAlpha(At(s, p)) || IsDigit(At(s, p))
      invariant start <= p <= |s| && SkipWord(s[p..]) == SkipWord(s[start..])
      decreases |s| - p
    {
      assert s[p..][1..] == s[p + 1..];
      p := p + 1;
    }
  }

  /** The steps of JSON_getValue from the quote behind a key to the value. */
  method FindValue(s: string, close: nat) returns (ok: bool, p: nat)
    requires close < |s| && NUL !in s
    ensures close < p <= |s| && ToValue(s[close..]) == if ok then Some(s[p..]) else None
  {
    hide SkipBlanks;
    assert s[close..][1..] == s[close + 1..];
    p := Next(s, close + 1);
    if At(s, p) != ':' {
      return false, p;
    }
    assert s[p..][1..] == s[p + 1..];
    p := Next(s, p + 1);
    ok := At(s, p) != NUL && At(s, p) != '}';
  }

  /** The steps of JSON_getValue over a value. */
  method SkipValue(s: string, start: nat) returns (ok: bool, p: nat)
    requires start < |s| && NUL !in s
    ensures start <= p <= |s| && PastValue(s[start..]) == if ok then Some(s[p..]) else None
  {
    hide ToQuote, SkipWord;
    p := start;
    if At(s, p) == '"' {
      p := FindQuote(s, p + 1);
      assert s[start..][1..] == s[start + 1..];
      if At(s, p) == NUL {
        return false, p;
      }
      assert s[start + 1..][p - start..] == s[p + 1..];
      p := Next(s, p + 1);
    } else {
      p := EndOfWord(s, p);
    }
    p := Next(s, p);
    ok := true;
  }

  /** The steps of JSON_getValue at a key, the text of which begins at `start`: to the quote behind it if it is the
      one sought, and otherwise to the next quote or the end. */
  method PassKey(s: string, start: nat, key: string) returns (same: bool, over: bool, p: nat)
    requires start <= |s| && NUL !in s && NUL !in key
    ensures start <= p <= |s| && !(same && over)
    ensures same ==> p < |s| && ScanKey(s[start..], key)
                                == match ToValue(s[p..]) { case Some(v) => Found(v) case None => Missing }
    ensures over ==> ScanKey(s[start..], key) == Overrun
    ensures !same && !over ==> ScanKey(s[start..], key) == if p == |s| then Missing else ScanOn(s[p..], key)
  {
    hide ToQuote, ToValue, ScanOn;
    p := start;
    same, over := false, false;
    var begins := StartsWith(s, start, key);
    if begins {
      p := start + |key|;
      assert s[start..][|key|..] == s[p..];
      if At(s, p) == '"' {
        same := true;
        return;
      }
      if p == |s| {
        over := true;
        return;
      }
      p := p + 1;
      assert s[start..][|key| + 1..] == s[p..];
    }
    ghost var more := s[p..];
    p := FindQuote(s, p);
    assert s[p..] == more[ToQuote(more)..];
  }

  /** The place found is where the text found begins. */
  predicate Points(s: string, place: Lookup<nat>, text: Lookup<string>) {
    match place
    case Found(p) => p <= |s| && text == Found(s[p..])
    case Missing => text == Missing
    case Overrun => text == Overrun
  }

  /** JSON_getValue, on any text */
  method GetValue(json: string, key: string) returns (value: Lookup<nat>)
    requires NUL !in json && NUL !in key
    ensures Points(json, value, Scan(json, key))
  {
    hide ToQuote, ToValue, PastValue, ScanKey;
    var p: nat := 0;
    assert json[0..] == json;
    while At(json, p) != NUL
      invariant p <= |json| && Scan(json[p..], key) == Scan(json, key)
      decreases |json| - p
    {
      ghost var start := p;
      p := FindQuote(json, p);
      if p == |json| {
        return Overrun;
      }
      assert json[start..][p - start + 1..] == json[p + 1..];
      var same, over, ok;
      same, over, p := PassKey(json, p + 1, key);
      if same {
        ok, p := FindValue(json, p);
        return if ok then Found(p) else Missing;
      }
      if over {
        return Overrun;
      }
      if At(json, p) == NUL {
        return Missing;
      }
      ok, p := FindValue(json, p);
      if !ok {
        return Missing;
      }
      ok, p := SkipValue(json, p);
      if !ok || At(json, p) != ',' {
        return Missing;
      }
    }
    value := Missing;
  }

  // ----- The lookup in an object -----

  /** The text of an object: white space, the pairs in braces, and anything behind. */
  function Shown(lead: string, pairs: seq<Pair>, tail: string): string
    requires pairs != []
  {
    lead + (['{'] + FromPair(pairs, 0, tail))
  }

  /**
   The key sought begins the text behind an opening quote only when it is the key there, or ends inside it, where
   neither it nor the character behind it leaves a quote that a backslash had taken.
   */
  predicate Clear(key: string, stored: string, end: string) {
    key <= stored + (['"'] + end) ==>
      key <= stored && (key == stored || (stored[|key|] != '"' && Escaped(stored[|key| + 1..])))
  }

  /** A key without quotes is clear of every key without quotes and backslashes. */
  lemma PlainIsClear(key: string, stored: string, end: string)
    requires '"' !in key && Plain(stored)
    ensures Clear(key, stored, end)
  {
    var t := stored + (['"'] + end);
    assert t[|stored|] == '"';
    if key <= t {
      assert forall i :: 0 <= i < |key| ==> key[i] == t[i];
      if key != stored { PlainIsEscaped(stored[|key| + 1..]); }
    }
  }

  /** The key sought is clear of the pairs before the i-th. */
  predicate ClearBefore(pairs: seq<Pair>, key: string, i: nat, tail: string)
    requires i <= |pairs|
  {
    forall j :: 0 <= j < i ==> Clear(key, pairs[j].key, Colon(pairs, j, tail))
  }

  lemma {:induction false} PlainIsEscaped(s: string)
    requires Plain(s)
    ensures Escaped(s)
  {
    if s != "" { PlainIsEscaped(s[1..]); }
  }

  lemma {:induction false} QuoteAfter(inside: string, rest: string)
    requires Escaped(inside)
    ensures ToQuote(inside + (['"'] + rest)) == |inside|
  {
    var t := inside + (['"'] + rest);
    if inside == "" {
      assert t == ['"'] + rest;
    } else if inside[0] == '\\' {
      assert t[2..] == inside[2..] + (['"'] + rest);
      QuoteAfter(inside[2..], rest);
    } else {
      assert t[1..] == inside[1..] + (['"'] + rest);
      QuoteAfter(inside[1..], rest);
    }
  }

  /** Over the inside of a string, to the quote and behind it. */
  lemma QuoteFound(inside: string, rest: string)
    requires Escaped(inside)
    ensures var t, q := inside + (['"'] + rest), ToQuote(inside + (['"'] + rest));
            q < |t| && t[q..] == ['"'] + rest && t[q + 1..] == rest
  {
    QuoteAfter(inside, rest);
    assert (inside + (['"'] + rest))[|inside| + 1..] == rest;
  }

  lemma {:induction false} BlanksPassed(blank: string, rest: string)
    requires Blank(blank) && !IsWhiteSpace(Head(rest))
    ensures SkipBlanks(blank + rest) == rest
  {
    if blank == "" {
      assert blank + rest == rest;
    } else {
      assert (blank + rest)[1..] == blank[1..] + rest;
      BlanksPassed(blank[1..], rest);
    }
  }

  lemma {:induction false} WordPassed(chars: string, rest: string)
    requires AlphaNumeric(chars) && !IsAlpha(Head(rest)) && !IsDigit(Head(rest))
    ensures SkipWord(chars + rest) == rest
  {
    if chars == "" {
      assert chars + rest == rest;
    } else {
      assert (chars + rest)[1..] == chars[1..] + rest;
      WordPassed(chars[1..], rest);
    }
  }

  /** A word of letters and digits is passed exactly up to its end. */
  lemma {:induction false} WordEnds(chars: string, rest: string)
    requires AlphaNumeric(chars)
    ensures SkipWord(chars + rest) == rest <==> rest == "" || !AlphaNumeric([rest[0]])
  {
    if chars == "" {
      assert chars + rest == rest;
      if rest != "" {
        assert AlphaNumeric([rest[0]]) <==> IsAlpha(rest[0]) || IsDigit(rest[0]) by { assert [rest[0]][0] == rest[0]; }
      }
    } else {
      assert (chars + rest)[1..] == chars[1..] + rest;
      WordEnds(chars[1..], rest);
    }
  }

  /** White space is passed exactly up to its end. */
  lemma {:induction false} BlanksEnd(blank: string, rest: string)
    requires Blank(blank)
    ensures SkipBlanks(blank + rest) == rest <==> rest == "" || !Blank([rest[0]])
  {
    if blank == "" {
      assert blank + rest == rest;
      if rest != "" {
        assert Blank([rest[0]]) <==> IsWhiteSpace(rest[0]) by { assert [rest[0]][0] == rest[0]; }
      }
    } else {
      assert (blank + rest)[1..] == blank[1..] + rest;
      BlanksEnd(blank[1..], rest);
    }
  }

  lemma ValueStart(value: Value, rest: string)
    requires value.Valid()
    ensures var c := Head(value.Shown() + rest); !IsWhiteSpace(c) && c != '}' && c != NUL && (c == '"' <==> value.Text?)
  {}

  /** From the closing quote of a key to the value. */
  lemma ValueFound(pairs: seq<Pair>, i: nat, tail: string)
    requires i < |pairs| && pairs[i].Valid()
    ensures ToValue(FromKeyEnd(pairs, i, tail)) == Some(FromValue(pairs, i, tail))
  {
    hide FromPair, FromValue, FromKeyEnd, AfterPair, Colon, Escaped, Literal, Plain, Blank, SkipBlanks;
    KeyEndSplit(pairs, i, tail);
    var pair, value := pairs[i], FromValue(pairs, i, tail);
    ValueStart(pair.value, pair.after + AfterPair(pairs, i, tail));
    assert FromKeyEnd(pairs, i, tail)[1..] == Colon(pairs, i, tail);
    BlanksPassed(pair.beforeColon, [':'] + (pair.afterColon + value));
    assert ([':'] + (pair.afterColon + value))[1..] == pair.afterColon + value;
    BlanksPassed(pair.afterColon, value);
  }

  /** From the value on: behind the pair, or to nothing. */
  lemma ValueScanned(pairs: seq<Pair>, i: nat, tail: string)
    requires i < |pairs| && pairs[i].Valid()
    ensures FromValue(pairs, i, tail) != "" && PastValue(FromValue(pairs, i, tail)).Some?
    ensures var q := PastValue(FromValue(pairs, i, tail)).value;
            if pairs[i].value.Passable() then q == AfterPair(pairs, i, tail) else Head(q) != ','
  {
    hide FromPair, FromValue, FromKeyEnd, AfterPair, Colon, Escaped, Literal, AlphaNumeric, Plain, Blank, PastValue;
    KeyEndSplit(pairs, i, tail);
    var value, after, rest := pairs[i].value, pairs[i].after, AfterPair(pairs, i, tail);
    if value.Passable() {
      ValuePassed(value, after, rest);
    } else {
      ValueSticks(value.chars, after + rest);
    }
  }

  lemma ValuePassed(value: Value, after: string, rest: string)
    requires value.Valid() && value.Passable() && Blank(after) && (Head(rest) == ',' || Head(rest) == '}')
    ensures value.Shown() + (after + rest) != "" && PastValue(value.Shown() + (after + rest)) == Some(rest)
  {
    hide Escaped, Literal, AlphaNumeric, Blank, SkipBlanks, SkipWord, ToQuote, PastValue;
    BlanksPassed(after, rest);
    if value.Text? {
      TextPassed(value.chars, after + rest);
    } else {
      ValueStart(value, after + rest);
      AfterIs(after, rest);
      WordPassed(value.chars, after + rest);
      PastWord(value.chars + (after + rest));
    }
  }

  lemma TextPassed(inside: string, behind: string)
    requires Escaped(inside)
    ensures PastValue((['"'] + inside + ['"']) + behind) == Some(SkipBlanks(behind))
  {
    hide Escaped, SkipBlanks, ToQuote;
    var t := (['"'] + inside + ['"']) + behind;
    assert t[1..] == inside + (['"'] + behind);
    QuoteFound(inside, behind);
  }

  lemma PastWord(t: string)
    requires t != "" && t[0] != '"'
    ensures PastValue(t) == Some(SkipBlanks(SkipWord(t)))
  {}

  /** A sign or a point stops the loop over a number. */
  lemma ValueSticks(chars: string, rest: string)
    requires Literal(chars) && !AlphaNumeric(chars)
    ensures chars + rest != "" && PastValue(chars + rest).Some? && Head(PastValue(chars + rest).value) != ','
  {
    hide SkipWord;
    WordSticks(chars, rest);
    assert (chars + rest)[0] == chars[0];
    var q := SkipWord(chars + rest);
    assert SkipBlanks(q) == q;
  }

  lemma {:induction false} WordSticks(chars: string, rest: string)
    requires Literal(chars) && !AlphaNumeric(chars)
    ensures var c := Head(SkipWord(chars + rest)); c == '+' || c == '-' || c == '.'
  {
    if IsAlpha(chars[0]) || IsDigit(chars[0]) {
      assert (chars + rest)[1..] == chars[1..] + rest;
      assert AlphaNumeric(chars[1..]) ==> AlphaNumeric(chars) by {
        assert forall i :: 0 < i < |chars| ==> chars[i] == chars[1..][i - 1];
      }
      WordSticks(chars[1..], rest);
    }
  }

  lemma AfterIs(after: string, rest: string)
    requires Blank(after) && (Head(rest) == ',' || Head(rest) == '}')
    ensures !IsAlpha(Head(after + rest)) && !IsDigit(Head(after + rest))
  {}

  lemma KeyEndSplit(pairs: seq<Pair>, i: nat, tail: string)
    requires i < |pairs|
    ensures FromKeyEnd(pairs, i, tail) == ['"'] + Colon(pairs, i, tail)
    ensures Colon(pairs, i, tail)
            == pairs[i].beforeColon + ([':'] + (pairs[i].afterColon + FromValue(pairs, i, tail)))
    ensures FromValue(pairs, i, tail) == pairs[i].value.Shown() + (pairs[i].after + AfterPair(pairs, i, tail))
    ensures Head(AfterPair(pairs, i, tail)) == if i == |pairs| - 1 then '}' else ','
    ensures i < |pairs| - 1 ==> AfterPair(pairs, i, tail) == [','] + FromPair(pairs, i + 1, tail)
  {}

  /** A scan from before a pair comes to the key. */
  lemma KeyOpens(key: string, pairs: seq<Pair>, i: nat, tail: string, glue: string)
    requires i < |pairs| && pairs[i].Valid() && Plain(glue)
    ensures Scan(glue + FromPair(pairs, i, tail), key) == ScanKey(pairs[i].key + FromKeyEnd(pairs, i, tail), key)
  {
    hide ToQuote, ScanKey, Escaped, FromKeyEnd;
    var keyed := pairs[i].key + FromKeyEnd(pairs, i, tail);
    assert glue + FromPair(pairs, i, tail) == (glue + pairs[i].before) + (['"'] + keyed);
    PlainIsEscaped(glue + pairs[i].before);
    QuoteFound(glue + pairs[i].before, keyed);
  }

  /** A scan passes a key that is not the one sought. */
  lemma KeyPassed(key: string, stored: string, end: string)
    requires Escaped(stored) && key != stored && Clear(key, stored, end)
    ensures ScanKey(stored + (['"'] + end), key) == ScanOn(['"'] + end, key)
  {
    hide ToQuote, ToValue, ScanOn, Escaped;
    var t := stored + (['"'] + end);
    if key <= t {
      assert t[|key|..][0] == stored[|key|];
      assert t[|key| + 1..] == stored[|key| + 1..] + (['"'] + end);
      QuoteFound(stored[|key| + 1..], end);
    } else {
      QuoteFound(stored, end);
    }
  }

  /** A scan at a pair: it finds the value, or goes on behind the pair. */
  lemma PairScanned(key: string, pairs: seq<Pair>, i: nat, tail: string, glue: string)
    requires i < |pairs| && pairs[i].Valid() && Plain(glue)
    requires key != pairs[i].key ==> Clear(key, pairs[i].key, Colon(pairs, i, tail))
    ensures Scan(glue + FromPair(pairs, i, tail), key)
            == if pairs[i].key == key then Found(FromValue(pairs, i, tail))
               else if i == |pairs| - 1 || !pairs[i].value.Passable() then Missing
               else Scan([','] + FromPair(pairs, i + 1, tail), key)
  {
    hide FromPair, FromValue, FromKeyEnd, AfterPair, Colon, Escaped, ToQuote, ToValue, PastValue, Plain, Clear, Blank,
      Scan;
    KeyOpens(key, pairs, i, tail, glue);
    KeyEndSplit(pairs, i, tail);
    ValueFound(pairs, i, tail);
    ValueScanned(pairs, i, tail);
    if key == pairs[i].key {
      assert (key + FromKeyEnd(pairs, i, tail))[|key|..] == FromKeyEnd(pairs, i, tail);
    } else {
      PairKeyed(pairs[i]);
      KeyPassed(key, pairs[i].key, Colon(pairs, i, tail));
    }
  }

  lemma PairKeyed(pair: Pair)
    requires pair.Valid()
    ensures Escaped(pair.key)
  {}

  /** The result that a lookup of a key in an object should have. */
  function Wanted(pairs: seq<Pair>, key: string, tail: string): Lookup<string> {
    FoundAt(pairs, First(pairs, key, 0), tail)
  }

  /** The value of the i-th pair, or nothing. */
  function FoundAt(pairs: seq<Pair>, i: nat, tail: string): Lookup<string>
    requires i <= |pairs|
  {
    if i == |pairs| then Missing else Found(FromValue(pairs, i, tail))
  }

  /** A scan gets over the values of the pairs before the i-th. */
  predicate PassableBefore(pairs: seq<Pair>, i: nat)
    requires i <= |pairs|
  {
    forall j :: 0 <= j < i ==> pairs[j].value.Passable()
  }

  /** The pair that a scan finds: the first with the key, unless it gets stuck before. */
  function Reached(pairs: seq<Pair>, key: string): (r: nat)
    ensures r <= |pairs|
  {
    if PassableBefore(pairs, First(pairs, key, 0)) then First(pairs, key, 0) else |pairs|
  }

  /** A scan comes to the i-th pair when the key is clear of the pairs before, and it gets over all of them. */
  lemma {:induction false} ScanReaches(key: string, pairs: seq<Pair>, i: nat, tail: string, glue: string)
    requires Valid(pairs) && i < |pairs| && Plain(glue)
    requires i <= First(pairs, key, 0) && ClearBefore(pairs, key, i, tail) && PassableBefore(pairs, i)
    ensures Scan(glue + FromPair(pairs, 0, tail), key)
            == Scan((if i == 0 then glue else [',']) + FromPair(pairs, i, tail), key)
  {
    hide FromPair, Colon, Scan, Clear, Value.Passable;
    if i > 0 {
      ScanReaches(key, pairs, i - 1, tail, glue);
      PairScanned(key, pairs, i - 1, tail, if i == 1 then glue else [',']);
    }
  }

  /** The first value before the n-th pair that a scan does not get over. */
  lemma {:induction false} FirstStuck(pairs: seq<Pair>, n: nat) returns (j: nat)
    requires n <= |pairs| && !PassableBefore(pairs, n)
    ensures j < n && PassableBefore(pairs, j) && !pairs[j].value.Passable()
  {
    if PassableBefore(pairs, n - 1) {
      j := n - 1;
    } else {
      j := FirstStuck(pairs, n - 1);
    }
  }

  /**
   JSON_getValue in an object, for a key that is clear of the pairs before the first with that key: the value of that
   pair, and nothing when there is none or when a number with a sign or a point comes before. So the lookup is right
   exactly when no such number comes before, or there is nothing to find.
   */
  lemma ObjectLookup(key: string, lead: string, pairs: seq<Pair>, tail: string)
    requires pairs != [] && Valid(pairs) && Blank(lead)
    requires ClearBefore(pairs, key, First(pairs, key, 0), tail)
    ensures Scan(Shown(lead, pairs, tail), key) == FoundAt(pairs, Reached(pairs, key), tail)
    ensures Scan(Shown(lead, pairs, tail), key) == Wanted(pairs, key, tail)
            <==> PassableBefore(pairs, First(pairs, key, 0)) || First(pairs, key, 0) == |pairs|
  {
    hide FromPair, FromValue, Scan, Clear, Colon, Value.Passable;
    var first, glue := First(pairs, key, 0), lead + ['{'];
    var i: nat;
    if PassableBefore(pairs, first) {
      i := if first == |pairs| then first - 1 else first;
    } else {
      i := FirstStuck(pairs, first);
    }
    assert Shown(lead, pairs, tail) == glue + FromPair(pairs, 0, tail);
    ScanReaches(key, pairs, i, tail, glue);
    PairScanned(key, pairs, i, tail, if i == 0 then glue else [',']);
  }

  // ----- Where a lookup goes astray -----

  predicate Ends(t: string, end: string) {
    |end| <= |t| && t[|t| - |end|..] == end
  }

  lemma EndsOn(t: string, u: string, end: string)
    requires Ends(t, u) && Ends(u, end)
    ensures Ends(t, end)
  {
    assert t[|t| - |u|..][|u| - |end|..] == t[|t| - |end|..];
  }

  lemma Appended(t: string, end: string)
    ensures Ends(t + end, end)
  {}

  lemma InFront(a: string, t: string, end: string)
    requires Ends(t, end)
    ensures Ends(a + t, end)
  {
    Appended(a, t);
    EndsOn(a + t, t, end);
  }

  lemma {:induction false} SkippedBlanks(t: string)
    ensures Ends(t, SkipBlanks(t)) && Blank(t[..|t| - |SkipBlanks(t)|])
  {
    if IsWhiteSpace(Head(t)) {
      SkippedBlanks(t[1..]);
      EndsOn(t, t[1..], SkipBlanks(t));
      var k := |t| - |SkipBlanks(t)|;
      assert t[..k] == [t[0]] + t[1..][..k - 1];
    } else {
      assert t[|t| - |t|..] == t;
    }
  }

  // ----- What is found in any text -----

  /** A key in quotes, a colon in white space, and what follows. */
  function Keyed(key: string, before: string, after: string, v: string): string {
    ['"'] + (key + (['"'] + (before + ([':'] + (after + v)))))
  }

  predicate StartsValue(v: string) {
    v != "" && v[0] != '}' && v[0] != ' ' && v[0] != '\t' && v[0] != '\n' && v[0] != '\r'
  }

  lemma BlanksSplit(t: string) returns (blank: string)
    ensures Blank(blank) && t == blank + SkipBlanks(t)
  {
    SkippedBlanks(t);
    blank := t[..|t| - |SkipBlanks(t)|];
  }

  lemma ValueSplit(t: string, key: string) returns (before: string, after: string)
    requires t != "" && ToValue(t).Some? && t[0] == '"'
    ensures Blank(before) && Blank(after) && StartsValue(ToValue(t).value)
    ensures ['"'] + (key + t) == Keyed(key, before, after, ToValue(t).value)
  {
    hide SkipBlanks, Blank;
    before := BlanksSplit(t[1..]);
    var colon := SkipBlanks(t[1..]);
    after := BlanksSplit(colon[1..]);
    var v := ToValue(t).value;
    assert t == ['"'] + t[1..] && colon == [':'] + colon[1..];
  }

  lemma {:induction false} WordSkipped(t: string)
    ensures Ends(t, SkipWord(t))
  {
    if IsAlpha(Head(t)) || IsDigit(Head(t)) {
      WordSkipped(t[1..]);
      EndsOn(t, t[1..], SkipWord(t));
    } else {
      assert t[|t| - |t|..] == t;
    }
  }

  lemma ToValueEnds(t: string)
    requires t != "" && ToValue(t).Some?
    ensures Ends(t, ToValue(t).value)
  {
    hide SkipBlanks;
    var colon := SkipBlanks(t[1..]);
    SkippedBlanks(t[1..]);
    SkippedBlanks(colon[1..]);
    EndsOn(t, t[1..], colon);
    EndsOn(t, colon, colon[1..]);
    EndsOn(t, colon[1..], ToValue(t).value);
  }

  lemma PastValueEnds(v: string)
    requires v != "" && PastValue(v).Some?
    ensures Ends(v, PastValue(v).value)
  {
    hide SkipBlanks, SkipWord, ToQuote;
    var r := PastValue(v).value;
    var end := if v[0] == '"' then v[1..][ToQuote(v[1..]) + 1..] else SkipWord(v);
    WordSkipped(v);
    assert v[0] == '"' ==> end == v[|v| - |end|..];
    SkippedBlanks(end);
    EndsOn(v, end, r);
  }

  /** In any text, well formed or not, what a lookup finds stands behind the key in quotes and a colon. */
  lemma {:induction false} FoundBehindKey(t: string, key: string)
    returns (front: string, before: string, after: string)
    requires Scan(t, key).Found?
    ensures Blank(before) && Blank(after) && StartsValue(Scan(t, key).value)
    ensures t == front + Keyed(key, before, after, Scan(t, key).value)
    decreases |t|, 0
  {
    hide ToQuote, Blank, StartsValue, Keyed, ScanKey;
    var q := ToQuote(t);
    front, before, after := FoundBehindQuote(t[q + 1..], key);
    assert t == t[..q] + (['"'] + t[q + 1..]);
    front := t[..q] + front;
  }

  lemma {:induction false} FoundBehindQuote(t: string, key: string)
    returns (front: string, before: string, after: string)
    requires ScanKey(t, key).Found?
    ensures Blank(before) && Blank(after) && StartsValue(ScanKey(t, key).value)
    ensures ['"'] + t == front + Keyed(key, before, after, ScanKey(t, key).value)
    decreases |t|, 1
  {
    hide Blank, StartsValue, Keyed, ToValue, Scan, ScanKey;
    if key <= t && Head(t[|key|..]) == '"' {
      front := "";
      KeyHere(t, key);
      before, after := ValueSplit(t[|key|..], key);
      assert t == key + t[|key|..];
    } else {
      var q := GoesOn(t, key);
      front, before, after := FoundBehindKey(q, key);
      assert t == t[..|t| - |q|] + q;
      front := ['"'] + (t[..|t| - |q|] + front);
    }
  }

  lemma KeyHere(t: string, key: string)
    requires ScanKey(t, key).Found? && key <= t && Head(t[|key|..]) == '"'
    ensures ToValue(t[|key|..]) == Some(ScanKey(t, key).value)
  {
    hide ToValue;
  }

  /** The text that the lookup goes on with behind a pair. */
  lemma GoesOn(t: string, key: string) returns (q: string)
    requires ScanKey(t, key).Found? && !(key <= t && Head(t[|key|..]) == '"')
    ensures |q| < |t| && Ends(t, q) && Scan(q, key) == ScanKey(t, key)
  {
    hide ToQuote, ToValue, PastValue, Scan;
    var more := if key <= t then t[|key| + 1..] else t;
    var on := more[ToQuote(more)..];
    var v := ToValue(on).value;
    q := PastValue(v).value;
    ToValueEnds(on);
    PastValueEnds(v);
    EndsOn(on, v, q);
    EndsOn(more, on, q);
    EndsOn(t, more, q);
  }

  lemma {:induction false} DarkStops(t: string, d: nat)
    requires d < |t| && !IsWhiteSpace(t[d])
    ensures |SkipBlanks(t)| >= |t| - d
  {
    if d > 0 && IsWhiteSpace(t[0]) { DarkStops(t[1..], d - 1); }
  }

  /** Only one character that is not white space is followed by white space up to a given place. */
  lemma SameDark(t: string, x: string, y: string)
    requires Ends(t, x) && Ends(t, y) && x != "" && y != "" && |SkipBlanks(x[1..])| == |SkipBlanks(y[1..])|
    requires !IsWhiteSpace(x[0]) && !IsWhiteSpace(y[0])
    ensures |x| == |y|
    decreases |x| < |y|
  {
    hide SkipBlanks;
    if |x| < |y| {
      SameDark(t, y, x);
    } else if |x| > |y| {
      var d := |x| - |y|;
      assert x[d..] == y by { assert x[d..] == t[|t| - |x|..][d..]; }
      DarkStops(x[1..], d - 1);
    }
  }

  /** Only one quote leads over a colon to a given value. */
  lemma SameQuote(t: string, x: string, y: string)
    requires Ends(t, x) && Ends(t, y) && Head(x) == '"' && Head(y) == '"'
    requires ToValue(x).Some? && ToValue(x) == ToValue(y)
    ensures |x| == |y|
  {
    hide SkipBlanks;
    var colonX, colonY := SkipBlanks(x[1..]), SkipBlanks(y[1..]);
    SkippedBlanks(x[1..]);
    SkippedBlanks(y[1..]);
    EndsOn(x, x[1..], colonX);
    EndsOn(y, y[1..], colonY);
    EndsOn(t, x, colonX);
    EndsOn(t, y, colonY);
    SameDark(t, colonX, colonY);
    SameDark(t, x, y);
  }

  /** A later key stands further on in the text. */
  lemma {:induction false} LaterKey(pairs: seq<Pair>, i: nat, j: nat, tail: string)
    requires i < j < |pairs|
    ensures Ends(FromKeyEnd(pairs, i, tail), pairs[j].key + FromKeyEnd(pairs, j, tail))
    ensures |pairs[j].key + FromKeyEnd(pairs, j, tail)| < |FromKeyEnd(pairs, i, tail)|
    decreases j
  {
    hide FromPair, FromKeyEnd, FromValue, AfterPair, Colon, Ends;
    if i < j - 1 {
      LaterKey(pairs, i, j - 1, tail);
      NextKey(pairs, j - 1, tail);
      var before, last := FromKeyEnd(pairs, j - 1, tail), pairs[j].key + FromKeyEnd(pairs, j, tail);
      Appended(pairs[j - 1].key, before);
      EndsOn(FromKeyEnd(pairs, i, tail), pairs[j - 1].key + before, before);
      EndsOn(FromKeyEnd(pairs, i, tail), before, last);
    } else {
      NextKey(pairs, i, tail);
    }
  }

  lemma NextKey(pairs: seq<Pair>, i: nat, tail: string)
    requires i < |pairs| - 1
    ensures Ends(FromKeyEnd(pairs, i, tail), pairs[i + 1].key + FromKeyEnd(pairs, i + 1, tail))
    ensures |pairs[i + 1].key + FromKeyEnd(pairs, i + 1, tail)| < |FromKeyEnd(pairs, i, tail)|
  {
    hide FromValue, FromKeyEnd, AfterPair, Colon, Ends;
    KeyEndSplit(pairs, i, tail);
    var keyed, pair := pairs[i + 1].key + FromKeyEnd(pairs, i + 1, tail), pairs[i];
    Appended(['"'], keyed);
    InFront(pairs[i + 1].before, ['"'] + keyed, keyed);
    InFront([','], FromPair(pairs, i + 1, tail), keyed);
    InFront(pair.after, AfterPair(pairs, i, tail), keyed);
    InFront(pair.value.Shown(), pair.after + AfterPair(pairs, i, tail), keyed);
    InFront(pair.afterColon, FromValue(pairs, i, tail), keyed);
    InFront([':'], pair.afterColon + FromValue(pairs, i, tail), keyed);
    InFront(pair.beforeColon, [':'] + (pair.afterColon + FromValue(pairs, i, tail)), keyed);
    InFront(['"'], Colon(pairs, i, tail), keyed);
  }

  /** The first pair with a key, and an earlier pair behind whose opening quote the text begins with that key: what
      follows there is not the later pair's colon and value. */
  lemma OtherValue(key: string, pairs: seq<Pair>, i: nat, j: nat, tail: string, behind: string)
    requires i < j < |pairs| && pairs[j].Valid() && pairs[j].key == key && Head(behind) == '"'
    requires pairs[i].key + FromKeyEnd(pairs, i, tail) == key + behind
    ensures ToValue(behind) != Some(FromValue(pairs, j, tail))
  {
    hide FromPair, FromKeyEnd, FromValue, AfterPair, Colon, Ends, ToValue;
    var close := FromKeyEnd(pairs, j, tail);
    ValueFound(pairs, j, tail);
    KeyEndSplit(pairs, j, tail);
    LaterKey(pairs, i, j, tail);
    Appended(pairs[i].key, FromKeyEnd(pairs, i, tail));
    EndsOn(key + behind, FromKeyEnd(pairs, i, tail), key + close);
    Appended(key, close);
    EndsOn(key + behind, key + close, close);
    Appended(key, behind);
    if ToValue(behind) == ToValue(close) {
      SameQuote(key + behind, behind, close);
      assert false;
    }
  }

  /**
   Where the key sought, with a quote behind it, begins the text behind an opening quote without being the key there,
   the lookup takes what follows for its colon and value: it is right only if they are not there, and no later pair
   has the key.
   */
  lemma QuoteBehindKey(key: string, lead: string, pairs: seq<Pair>, i: nat, tail: string)
    requires Valid(pairs) && Blank(lead) && i < First(pairs, key, 0)
    requires ClearBefore(pairs, key, i, tail) && PassableBefore(pairs, i)
    requires key + ['"'] <= pairs[i].key + FromKeyEnd(pairs, i, tail)
    ensures var behind := (pairs[i].key + FromKeyEnd(pairs, i, tail))[|key|..];
            && behind != ""
            && Scan(Shown(lead, pairs, tail), key)
               == (match ToValue(behind) { case Some(v) => Found(v) case None => Missing })
            && (Scan(Shown(lead, pairs, tail), key) == Wanted(pairs, key, tail)
                <==> ToValue(behind) == None && First(pairs, key, 0) == |pairs|)
  {
    hide FromPair, FromKeyEnd, FromValue, AfterPair, Colon, Clear, Scan, ToValue, ScanOn, Plain, Valid, Blank;
    var glue, keyed, first := lead + ['{'], pairs[i].key + FromKeyEnd(pairs, i, tail), First(pairs, key, 0);
    assert Shown(lead, pairs, tail) == glue + FromPair(pairs, 0, tail);
    GluePlain(lead, pairs, i);
    ScanReaches(key, pairs, i, tail, glue);
    KeyOpens(key, pairs, i, tail, if i == 0 then glue else [',']);
    PrefixSplit(key, keyed);
    if first < |pairs| {
      GluePlain(lead, pairs, first);
      OtherValue(key, pairs, i, first, tail, keyed[|key|..]);
    }
  }

  lemma PrefixSplit(key: string, t: string)
    requires key + ['"'] <= t
    ensures key <= t && t == key + t[|key|..] && Head(t[|key|..]) == '"'
  {
    assert t[..|key|] == (key + ['"'])[..|key|];
    assert t[|key|..][0] == (key + ['"'])[|key|];
  }

  lemma GluePlain(lead: string, pairs: seq<Pair>, i: nat)
    requires Blank(lead) && Valid(pairs) && i < |pairs|
    ensures Plain(lead + ['{']) && Plain([',']) && pairs[i].Valid()
  {}

  function Compact(key: string, word: string): Pair {
    Pair("", key, "", "", Token(word), "")
  }

  lemma CompactShown(pairs: seq<Pair>, i: nat, key: string, word: string)
    requires i < |pairs| && pairs[i] == Compact(key, word)
    ensures FromValue(pairs, i, "") == word + AfterPair(pairs, i, "")
    ensures FromKeyEnd(pairs, i, "") == "\":" + (word + AfterPair(pairs, i, ""))
    ensures FromPair(pairs, i, "") == "\"" + (key + FromKeyEnd(pairs, i, ""))
  {
    hide AfterPair;
    var rest := AfterPair(pairs, i, "");
    assert FromValue(pairs, i, "") == word + rest;
    assert Colon(pairs, i, "") == ":" + (word + rest);
  }

  /** The text behind the first opening quote of an object of two such pairs. */
  lemma CompactValid(pairs: seq<Pair>, key: string, word: string, other: string, last: string)
    requires pairs == [Compact(key, word), Compact(other, last)]
    requires Plain(key) && Plain(other) && Literal(word) && Literal(last) && word != "" && last != ""
    ensures Valid(pairs)
  {
    hide Plain, Literal, Escaped;
    PlainIsEscaped(key);
    PlainIsEscaped(other);
  }

  lemma QuotedRest()
    ensures var key, keyed := "a\":1,\"b", "a\":1,\"b\":2}";
            key + ['"'] <= keyed && keyed[|key|..] == "\":2}"
  {}

  lemma PlainParts()
    ensures Literal("1") && Literal("2") && Plain("a") && Plain("b")
  {}

  lemma SignedNumber()
    ensures Literal("-1") && Literal("2") && !AlphaNumeric("-1") && Plain("a") && Plain("b")
  {
    assert "-1"[0] == '-';
  }

  function TwoShown(key: string, word: string, other: string, last: string): string {
    key + ("\":" + (word + (",\"" + (other + ("\":" + (last + "}"))))))
  }

  lemma TwoPairs(key: string, word: string, other: string, last: string)
    ensures var pairs := [Compact(key, word), Compact(other, last)];
            && key + FromKeyEnd(pairs, 0, "") == TwoShown(key, word, other, last)
            && Shown("", pairs, "") == "{\"" + TwoShown(key, word, other, last)
            && FromValue(pairs, 1, "") == last + "}"
  {
    hide FromKeyEnd, FromPair, FromValue;
    var pairs := [Compact(key, word), Compact(other, last)];
    CompactShown(pairs, 0, key, word);
    CompactShown(pairs, 1, other, last);
    assert AfterPair(pairs, 1, "") == "}";
    assert AfterPair(pairs, 0, "") == ",\"" + (other + ("\":" + (last + "}")));
    assert FromPair(pairs, 0, "") == "\"" + TwoShown(key, word, other, last);
    assert ['{'] + ("\"" + TwoShown(key, word, other, last)) == "{\"" + TwoShown(key, word, other, last);
  }

  /** In {"a":1,"b":2} the key a":1,"b is found with the value 2, although no pair has it. */
  lemma QuotedKeyMisleads()
    ensures var pairs, key := [Compact("a", "1"), Compact("b", "2")], "a\":1,\"b";
            && Shown("", pairs, "") == "{\"a\":1,\"b\":2}"
            && Scan(Shown("", pairs, ""), key) == Found("2}") && Wanted(pairs, key, "") == Missing
  {
    hide FromKeyEnd, FromPair, FromValue, Shown, Scan, Escaped, Clear, Plain, Literal, AlphaNumeric, Valid;
    var pairs, key, keyed := [Compact("a", "1"), Compact("b", "2")], "a\":1,\"b", "a\":1,\"b\":2}";
    TwoPairs("a", "1", "b", "2");
    assert TwoShown("a", "1", "b", "2") == keyed;
    PlainParts();
    CompactValid(pairs, "a", "1", "b", "2");
    assert First(pairs, key, 2) == 2 && First(pairs, key, 1) == 2;
    QuotedRest();
    BehindColon("2}");
    QuoteBehindKey(key, "", pairs, 0, "");
  }

  lemma BehindColon(value: string)
    requires value != "" && !IsWhiteSpace(value[0]) && value[0] != '}'
    ensures ToValue("\":" + value) == Some(value)
  {
    assert ("\":" + value)[1..] == ":" + value && (":" + value)[1..] == value;
  }

  /** In {"a":1} the key a" is not clear, and is rightly not found: no lookup need go astray for want of clearness. */
  lemma OverrunHarmless()
    ensures var pairs, key := [Compact("a", "1")], "a\"";
            && Shown("", pairs, "") == "{\"a\":1}" && !ClearBefore(pairs, key, 1, "")
            && Scan(Shown("", pairs, ""), key) == Missing == Wanted(pairs, key, "")
  {
    hide FromKeyEnd, FromPair, ScanKey, Scan, Escaped, Clear;
    var pairs, key, keyed := [Compact("a", "1")], "a\"", "a\":1}";
    CompactShown(pairs, 0, "a", "1");
    assert AfterPair(pairs, 0, "") == "}";
    KeyEndSplit(pairs, 0, "");
    assert FromKeyEnd(pairs, 0, "") == "\":1}";
    assert "a" + FromKeyEnd(pairs, 0, "") == keyed;
    NotClear(key, "a", Colon(pairs, 0, ""));
    assert First(pairs, key, 1) == 1;
    PlainIsEscaped("a");
    KeyOpens(key, pairs, 0, "", "{");
    assert Shown("", pairs, "") == "{" + FromPair(pairs, 0, "");
    HarmlessKey();
  }

  lemma NotClear(key: string, stored: string, end: string)
    requires key <= stored + (['"'] + end) && |key| > |stored|
    ensures !Clear(key, stored, end)
  {}

  lemma HarmlessKey()
    ensures ScanKey("a\":1}", "a\"") == Missing
  {
    var keyed := "a\":1}";
    assert keyed[2..] == ":1}" && keyed[3..] == "1}";
    NoQuote("1}");
  }

  lemma {:induction false} NoQuote(t: string)
    requires '"' !in t
    ensures ToQuote(t) == |t|
  {
    if |t| > 1 {
      NoQuote(t[1..]);
      NoQuote(t[2..]);
    }
  }

  /** In {"a\"b":1,"a":2} the key a is not found, although a pair has it: the scan takes the quote behind the
      backslash for the end of the first key. */
  lemma EscapedKeyHides()
    ensures var pairs := [Compact("a\\\"b", "1"), Compact("a", "2")];
            && Valid(pairs) && Shown("", pairs, "") == "{\"a\\\"b\":1,\"a\":2}"
            && Scan(Shown("", pairs, ""), "a") == Missing && Wanted(pairs, "a", "") == Found("2}")
  {
    hide FromKeyEnd, FromPair, Colon, FromValue, ScanKey, Scan, Escaped, TwoShown, Plain;
    var pairs, keyed := [Compact("a\\\"b", "1"), Compact("a", "2")], "a\\\"b\":1,\"a\":2}";
    TwoPairs("a\\\"b", "1", "a", "2");
    EscapedText();
    assert First(pairs, "a", 1) == 1 && "2" + "}" == "2}";
    EscapedKey();
    PlainIsEscaped("a");
    assert Shown("", pairs, "") == "{" + FromPair(pairs, 0, "");
    KeyOpens("a", pairs, 0, "", "{");
    HiddenKey();
  }

  lemma EscapedText()
    ensures TwoShown("a\\\"b", "1", "a", "2") == "a\\\"b\":1,\"a\":2}"
    ensures "{\"" + "a\\\"b\":1,\"a\":2}" == "{\"a\\\"b\":1,\"a\":2}"
    ensures Plain("a") && Plain("{")
  {}

  lemma EscapedKey()
    ensures Escaped("a\\\"b")
  {
    assert "a\\\"b"[1..] == "\\\"b" && "\\\"b"[2..] == "b" && "b"[1..] == "";
    assert Escaped("b");
  }

  lemma HiddenKey()
    ensures ScanKey("a\\\"b\":1,\"a\":2}", "a") == Missing
  {
    var keyed := "a\\\"b\":1,\"a\":2}";
    var close := "\"b\":1,\"a\":2}";
    assert keyed[1..][0] == '\\' && keyed[2..] == close;
    assert close[0..] == close;
    assert ToValue(close) == None;
  }

  /** In {"a":-1,"b":2} the key b is not found, although a pair has it. */
  lemma SignHides()
    ensures var pairs := [Compact("a", "-1"), Compact("b", "2")];
            && Valid(pairs) && Shown("", pairs, "") == "{\"a\":-1,\"b\":2}"
            && Scan(Shown("", pairs, ""), "b") == Missing && Wanted(pairs, "b", "") == Found("2}")
  {
    hide FromKeyEnd, FromPair, FromValue, Scan, Shown, Escaped, Clear, Plain, Literal, AlphaNumeric, Valid;
    var pairs := [Compact("a", "-1"), Compact("b", "2")];
    TwoPairs("a", "-1", "b", "2");
    SignedNumber();
    CompactValid(pairs, "a", "-1", "b", "2");
    assert TwoShown("a", "-1", "b", "2") == "a\":-1,\"b\":2}";
    assert First(pairs, "b", 1) == 1 && "2" + "}" == "2}";
    PlainIsClear("b", "a", Colon(pairs, 0, ""));
    assert !pairs[0].value.Passable();
    ObjectLookup("b", "", pairs, "");
  }

  /** In an object without pairs, and no quote behind it, the scan runs over the end of the text. */
  lemma EmptyObject(key: string, lead: string, tail: string)
    requires Blank(lead) && '"' !in tail
    ensures Scan(lead + ("{}" + tail), key) == Overrun
  {
    NoQuote(lead + ("{}" + tail));
  }

  // ----- Typed values -----

  /** The digits that a text begins with. */
  function LeadingDigits(t: string): (r: string)
    ensures r <= t && forall i :: 0 <= i < |r| ==> IsDigit(r[i])
  {
    if t == [] || !IsDigit(t[0]) then [] else
      assert [t[0]] + LeadingDigits(t[1..]) <= t;
      [t[0]] + LeadingDigits(t[1..])
  }

  function Digit(c: char): (r: nat)
    requires IsDigit(c)
    ensures r < 10
  {
    c as int - '0' as int
  }

  function Number(digits: string): (r: nat)
    requires forall i :: 0 <= i < |digits| ==> IsDigit(digits[i])
  {
    if digits == [] then 0 else 10 * Number(digits[..|digits| - 1]) + Digit(digits[|digits| - 1])
  }

  lemma {:induction false} DigitsEnd(t: string, rest: string)
    requires rest != [] && !IsDigit(rest[0])
    ensures LeadingDigits(t + rest) == LeadingDigits(t)
  {
    if t != [] && IsDigit(t[0]) {
      assert (t + rest)[1..] == t[1..] + rest;
      DigitsEnd(t[1..], rest);
    }
  }

  lemma {:induction false} DigitsRun(t: string, k: nat)
    requires k <= |t| && (forall i :: 0 <= i < k ==> IsDigit(t[i])) && (k < |t| ==> !IsDigit(t[k]))
    ensures LeadingDigits(t) == t[..k]
  {
    if k > 0 {
      DigitsRun(t[1..], k - 1);
      assert t[..k] == [t[0]] + t[1..][..k - 1];
    }
  }

  /** The number that get_number reads at a value. */
  function IntAt(t: string): (r: nat)
    requires t != ""
    ensures r < TWO32
  {
    Number(LeadingDigits(if t[0] == '"' && |t| > 1 then t[1..] else t)) % TWO32
  }

  /** get_number, kept in 32 bits: the digits at a place, or behind the quote there. */
  method GetNumber(s: string, start: nat) returns (value: nat)
    requires start < |s| && NUL !in s
    ensures value == IntAt(s[start..])
  {
    hide LeadingDigits, Number, Digit;
    NoDigits();
    var p := start;
    if At(s, p) == '"' && At(s, p + 1) != NUL {
      p := p + 1;
    }
    assert s[start..][1..] == s[start + 1..];
    value := 0;
    ghost var first, seen := p, "";
    while At(s, p) != NUL && IsDigit(At(s, p))
      invariant first <= p <= |s| && seen == s[first..p]
      invariant forall i :: 0 <= i < |seen| ==> IsDigit(seen[i])
      invariant value == Number(seen) % TWO32
      decreases |s| - p
    {
      NumberStep(seen, s[p]);
      TimesTen(Number(seen), Digit(s[p]));
      value := value * 10 % TWO32;
      value := (value + Digit(s[p])) % TWO32;
      SliceGrows(s, first, p);
      seen := seen + [s[p]];
      p := p + 1;
    }
    SliceOfRest(s, first, p);
    DigitsRun(s[first..], p - first);
  }

  lemma SliceGrows(s: string, i: nat, j: nat)
    requires i <= j < |s|
    ensures s[i..j + 1] == s[i..j] + [s[j]]
  {}

  lemma SliceOfRest(s: string, i: nat, j: nat)
    requires i <= j <= |s|
    ensures s[i..][..j - i] == s[i..j]
  {}

  lemma NoDigits()
    ensures Number("") == 0
  {}

  lemma NumberStep(seen: string, c: char)
    requires IsDigit(c) && forall i :: 0 <= i < |seen| ==> IsDigit(seen[i])
    ensures Number(seen + [c]) == 10 * Number(seen) + Digit(c)
  {
    assert (seen + [c])[..|seen|] == seen;
  }

  lemma TimesTen(n: nat, d: nat)
    ensures (n % TWO32 * 10 % TWO32 + d) % TWO32 == (10 * n + d) % TWO32
  {
    var m := n % TWO32 * 10;
    Quotient(10 * n + d, TWO32, 10 * (n / TWO32) + m / TWO32 + (m % TWO32 + d) / TWO32, (m % TWO32 + d) % TWO32);
  }

  /** A number in decimal, without zeros in front. */
  function Decimal(n: nat): (r: string)
    ensures r != "" && forall i :: 0 <= i < |r| ==> '0' <= r[i] <= '9'
  {
    if n < 10 then ["0123456789"[n]] else Decimal(n / 10) + ["0123456789"[n % 10]]
  }

  lemma {:induction false} NumberOfDecimal(n: nat)
    ensures Number(Decimal(n)) == n
  {
    var s := Decimal(n);
    assert s[..|s| - 1] == if n < 10 then "" else Decimal(n / 10);
    NoDigits();
    if n >= 10 { NumberOfDecimal(n / 10); }
  }

  /** A decimal number is read as it is, modulo 2^32, with a quote before it or without. */
  lemma IntOfDecimal(n: nat, rest: string)
    requires rest == "" || !('0' <= rest[0] <= '9')
    ensures IntAt(Decimal(n) + rest) == IntAt(['"'] + (Decimal(n) + rest)) == n % TWO32
  {
    hide Decimal, Number, LeadingDigits;
    var t := Decimal(n) + rest;
    DigitsRun(t, |Decimal(n)|);
    NumberOfDecimal(n);
    assert (['"'] + t)[1..] == t;
    assert t[..|Decimal(n)|] == Decimal(n);
  }

  lemma NumberOfValue(value: Value, rest: string)
    requires value.Valid() && rest != [] && !IsDigit(rest[0])
    ensures var t := value.Shown() + rest;
            t != [] && (value.Text? <==> t[0] == '"') && (value.Text? ==> |t| > 1)
            && LeadingDigits(if value.Text? then t[1..] else t) == LeadingDigits(value.chars)
  {
    hide LeadingDigits, Escaped;
    var t := value.Shown() + rest;
    if value.Text? {
      assert t[1..] == value.chars + (['"'] + rest);
      DigitsEnd(value.chars, ['"'] + rest);
    } else {
      DigitsEnd(value.chars, rest);
    }
  }

  lemma AfterValue(pairs: seq<Pair>, i: nat, tail: string)
    requires i < |pairs| && pairs[i].Valid()
    ensures var rest := pairs[i].after + AfterPair(pairs, i, tail);
            && FromValue(pairs, i, tail) == pairs[i].value.Shown() + rest
            && rest != [] && !IsDigit(rest[0]) && !IsAlpha(rest[0])
  {
    KeyEndSplit(pairs, i, tail);
  }

  function LookupInt(t: string, key: string): Lookup<nat> {
    match Scan(t, key)
    case Found(v) => Found(IntAt(v))
    case Missing => Missing
    case Overrun => Overrun
  }

  /** JSON_getInt */
  method GetInt(json: string, key: string) returns (value: Lookup<nat>)
    requires NUL !in json && NUL !in key
    ensures value == LookupInt(json, key)
  {
    hide Scan, IntAt;
    value := GetValue(json, key);
    if value.Found? {
      var n := GetNumber(json, value.value);
      value := Found(n);
    }
  }

  /** The number read from an object: the leading digits of the first value with the key, modulo 2^32. */
  lemma IntOfObject(key: string, lead: string, pairs: seq<Pair>, tail: string)
    requires pairs != [] && Valid(pairs) && Blank(lead) && ClearBefore(pairs, key, First(pairs, key, 0), tail)
    ensures var i := Reached(pairs, key);
            LookupInt(Shown(lead, pairs, tail), key)
            == if i == |pairs| then Missing else Found(Number(LeadingDigits(pairs[i].value.chars)) % TWO32)
  {
    hide FromPair, FromValue, AfterPair, LeadingDigits, Number, Blank, Scan, Shown, Clear, Colon;
    ObjectLookup(key, lead, pairs, tail);
    var i := Reached(pairs, key);
    if i < |pairs| {
      AfterValue(pairs, i, tail);
      NumberOfValue(pairs[i].value, pairs[i].after + AfterPair(pairs, i, tail));
    }
  }

  /** A pointer and a length in one octet. */
  datatype Str = Str(from: string, len: nat)

  function LookupString(t: string, key: string): Lookup<Str> {
    match Scan(t, key)
    case Found(v) => Found(Str(v[1..], ToQuote(v[1..]) % 256))
    case Missing => Missing
    case Overrun => Overrun
  }

  /** JSON_getString: the place, if there is one, and the length. */
  method GetString(json: string, key: string) returns (value: Lookup<nat>, len: nat)
    requires NUL !in json && NUL !in key
    ensures value.Found? ==> value.value <= |json| && LookupString(json, key) == Found(Str(json[value.value..], len))
    ensures !value.Found? ==> LookupString(json, key) == if value.Missing? then Missing else Overrun
  {
    hide Scan, ToQuote;
    len := 0;
    value := GetValue(json, key);
    if value.Found? {
      var p := value.value + 1;
      assert json[value.value..][1..] == json[p..];
      var end := FindQuote(json, p);
      value, len := Found(p), (end - p) % 256;
    }
  }

  /**
   The string read from an object. Of a string value it is the inside, with its length modulo 256. Of a number or a
   word it misses the first character, and its length, before it is cut to an octet, goes beyond the value and the
   white space behind.
   */
  lemma StringOfObject(key: string, lead: string, pairs: seq<Pair>, tail: string)
    requires pairs != [] && Valid(pairs) && Blank(lead) && ClearBefore(pairs, key, First(pairs, key, 0), tail)
    ensures var i, found := Reached(pairs, key), LookupString(Shown(lead, pairs, tail), key);
            if i == |pairs| then found == Missing
            else
              var Pair(_, _, _, _, value, after) := pairs[i];
              var rest := after + AfterPair(pairs, i, tail);
              if value.Text? then found == Found(Str(value.chars + (['"'] + rest), |value.chars| % 256))
              else
                var from := value.chars[1..] + rest;
                found == Found(Str(from, ToQuote(from) % 256)) && ToQuote(from) >= |value.chars| + |after|
  {
    hide FromPair, FromValue, AfterPair, Blank, Scan, Shown, Clear, Colon, Escaped, AlphaNumeric, ToQuote;
    ObjectLookup(key, lead, pairs, tail);
    var i := Reached(pairs, key);
    if i < |pairs| {
      AfterValue(pairs, i, tail);
      KeyEndSplit(pairs, i, tail);
      var value, after, end := pairs[i].value, pairs[i].after, AfterPair(pairs, i, tail);
      var t := value.Shown() + (after + end);
      if value.Text? {
        assert t[1..] == value.chars + (['"'] + (after + end));
        QuoteAfter(value.chars, after + end);
      } else {
        assert t[1..] == value.chars[1..] + (after + end);
        ValuePlain(pairs[i]);
        assert t[1..] == (value.chars[1..] + after) + end;
        PlainPassed(value.chars[1..] + after, end);
      }
    }
  }

  lemma ValuePlain(pair: Pair)
    requires pair.Valid() && pair.value.Token?
    ensures Plain(pair.value.chars[1..] + pair.after)
  {}

  /** No quote comes before the character behind a plain text. */
  lemma {:induction false} PlainPassed(s: string, rest: string)
    requires Plain(s) && rest != "" && rest[0] != '"' && rest[0] != '\\'
    ensures ToQuote(s + rest) >= |s| + 1
  {
    if s == "" {
      assert s + rest == rest;
    } else {
      assert (s + rest)[1..] == s[1..] + rest;
      PlainPassed(s[1..], rest);
    }
  }

  lemma WordPrefix(word: string, value: Value, rest: string)
    requires value.Valid() && rest != [] && !IsAlpha(rest[0])
    requires word != [] && forall i :: 0 <= i < |word| ==> IsAlpha(word[i])
    ensures word <= value.Shown() + rest <==> value.Token? && word <= value.chars
  {
    var t := value.Shown() + rest;
    assert word <= t ==> forall i :: 0 <= i < |word| ==> word[i] == t[i];
    if value.Token? {
      assert t[|value.chars|] == rest[0];
    } else {
      assert t[0] == '"';
    }
  }

  function BoolAt(t: string): Option<bool> {
    if "true" <= t then Some(true) else if "false" <= t then Some(false) else None
  }

  function LookupBool(t: string, key: string): Lookup<bool> {
    match Scan(t, key)
    case Found(v) => (match BoolAt(v) { case Some(b) => Found(b) case None => Missing })
    case Missing => Missing
    case Overrun => Overrun
  }

  /** JSON_getBool */
  method GetBool(json: string, key: string) returns (value: Lookup<bool>)
    requires NUL !in json && NUL !in key
    ensures value == LookupBool(json, key)
  {
    hide Scan;
    var pV := GetValue(json, key);
    match pV
    case Missing => value := Missing;
    case Overrun => value := Overrun;
    case Found(p) =>
      var word := StartsWith(json, p, "true");
      if word {
        return Found(true);
      }
      word := StartsWith(json, p, "false");
      value := if word then Found(false) else Missing;
  }

  /** The truth value read from an object: that of a word that begins so, and of no string. */
  lemma BoolOfObject(key: string, lead: string, pairs: seq<Pair>, tail: string)
    requires pairs != [] && Valid(pairs) && Blank(lead) && ClearBefore(pairs, key, First(pairs, key, 0), tail)
    ensures var i, found := Reached(pairs, key), LookupBool(Shown(lead, pairs, tail), key);
            if i == |pairs| || pairs[i].value.Text? then found == Missing
            else var word := pairs[i].value.chars;
                 found == if "true" <= word then Found(true) else if "false" <= word then Found(false) else Missing
  {
    hide FromPair, FromValue, AfterPair, Blank, Scan, Shown, Clear, Colon, Escaped, AlphaNumeric;
    ObjectLookup(key, lead, pairs, tail);
    var i := Reached(pairs, key);
    if i < |pairs| {
      AfterValue(pairs, i, tail);
      WordPrefix("true", pairs[i].value, pairs[i].after + AfterPair(pairs, i, tail));
      WordPrefix("false", pairs[i].value, pairs[i].after + AfterPair(pairs, i, tail));
    }
  }
}
