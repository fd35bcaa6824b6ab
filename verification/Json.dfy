/** `JSON.parse` and the part of `JSON.stringify` that prints an event reference (RFC 8259). */
module Json {
  import opened Prelude

  /** A parsed value; what a number is does not matter to any reader. */
  datatype Value =
    | Null
    | Bool(b: bool)
    | Num
    | Str(s: string)
    | Arr(items: seq<Value>)
    | Obj(fields: map<string, Value>)

  /** A value read off the front of a text, and what is left of the text. */
  datatype Parse<+T> = Fail | Done(value: T, rest: string)

  function SkipSpace(s: string): (r: string)
    ensures |r| <= |s|
  {
    if s != [] && s[0] in " \t\n\r" then SkipSpace(s[1..]) else s
  }

  predicate Starts(s: string, c: char)
  {
    s != [] && s[0] == c
  }

  predicate IsDigit(c: char) { '0' <= c <= '9' }

  function SkipDigits(s: string): (r: string)
    ensures |r| <= |s|
    ensures s != [] && IsDigit(s[0]) ==> |r| < |s|
  {
    if s != [] && IsDigit(s[0]) then SkipDigits(s[1..]) else s
  }

  /** The digits a fraction or an exponent must have. */
  function SkipSomeDigits(s: string): (r: Option<string>)
    ensures r.Some? ==> |r.value| < |s|
  {
    if s != [] && IsDigit(s[0]) then Some(SkipDigits(s)) else None
  }

  function SkipFraction(s: string): (r: Option<string>)
    ensures r.Some? ==> |r.value| <= |s|
  {
    if Starts(s, '.') then SkipSomeDigits(s[1..]) else Some(s)
  }

  function SkipExponent(s: string): (r: Option<string>)
    ensures r.Some? ==> |r.value| <= |s|
  {
    if Starts(s, 'e') || Starts(s, 'E') then
      var t := s[1..];
      SkipSomeDigits(if Starts(t, '+') || Starts(t, '-') then t[1..] else t)
    else Some(s)
  }

  function ParseNumber(s: string): (p: Parse<Value>)
    ensures p.Done? ==> |p.rest| < |s|
  {
    var t := if Starts(s, '-') then s[1..] else s;
    if t == [] || !IsDigit(t[0]) then Fail
    else
      match SkipFraction(if t[0] == '0' then t[1..] else SkipDigits(t))
      case None => Fail
      case Some(u) =>
        match SkipExponent(u)
        case None => Fail
        case Some(rest) => Done(Num, rest)
  }

  function HexValue(c: char): Option<nat>
  {
    if '0' <= c <= '9' then Some((c - '0') as int)
    else if 'a' <= c <= 'f' then Some((c - 'a') as int + 10)
    else if 'A' <= c <= 'F' then Some((c - 'A') as int + 10)
    else None
  }

  /** The number in the first `n` hexadecimal digits. */
  function HexNumber(s: string, n: nat): Option<nat>
  {
    if n == 0 then Some(0)
    else if |s| < n then None
    else
      match (HexNumber(s, n - 1), HexValue(s[n - 1]))
      case (Some(high), Some(low)) => Some(16 * high + low)
      case _ => None
  }

  /** What follows a backslash: the character it stands for and the text after it. */
  function ParseEscape(s: string): (p: Parse<char>)
    ensures p.Done? ==> |p.rest| < |s|
  {
    if s == [] then Fail
    else if s[0] in "\"\\/" then Done(s[0], s[1..])
    else if s[0] == 'b' then Done('\U{8}', s[1..])
    else if s[0] == 'f' then Done('\U{c}', s[1..])
    else if s[0] == 'n' then Done('\n', s[1..])
    else if s[0] == 'r' then Done('\r', s[1..])
    else if s[0] == 't' then Done('\t', s[1..])
    else if s[0] == 'u' then ParseUnicode(s[1..])
    else Fail
  }

  /** Four hexadecimal digits, or a surrogate pair of them. */
  function ParseUnicode(s: string): (p: Parse<char>)
    ensures p.Done? ==> |p.rest| < |s|
  {
    match HexNumber(s, 4)
    case None => Fail
    case Some(n) =>
      if |s| < 4 then Fail
      else if n < 0xD800 || 0xE000 <= n < 0x10000 then Done(n as char, s[4..])
      else if n < 0xDC00 && |s| >= 10 && s[4] == '\\' && s[5] == 'u' then
        match HexNumber(s[6..], 4)
        case Some(low) =>
          if 0xDC00 <= low < 0xE000 then
            Done((0x10000 + (n - 0xD800) * 0x400 + (low - 0xDC00)) as char, s[10..])
          else Fail
        case None => Fail
      else Fail
  }

  function Prepend(c: char, p: Parse<string>): Parse<string>
  {
    match p
    case Fail => Fail
    case Done(s, rest) => Done([c] + s, rest)
  }

  /** A string literal from after its opening quote. */
  function ParseString(s: string): (p: Parse<string>)
    ensures p.Done? ==> |p.rest| < |s|
    decreases |s|
  {
    if s == [] then Fail
    else if s[0] == '"' then Done("", s[1..])
    else if s[0] == '\\' then
      match ParseEscape(s[1..])
      case Fail => Fail
      case Done(c, rest) => Prepend(c, ParseString(rest))
    else if s[0] < ' ' then Fail
    else Prepend(s[0], ParseString(s[1..]))
  }

  function ParseWord(s: string, word: string, value: Value): (p: Parse<Value>)
    requires word != []
    ensures p.Done? ==> |p.rest| < |s|
  {
    if word <= s then Done(value, s[|word|..]) else Fail
  }

  function ParseValue(s: string): (p: Parse<Value>)
    ensures p.Done? ==> |p.rest| < |s|
    decreases |s|, 0
  {
    var t := SkipSpace(s);
    if t == [] then Fail
    else if t[0] == '"' then
      match ParseString(t[1..])
      case Fail => Fail
      case Done(text, rest) => Done(Str(text), rest)
    else if t[0] == '{' then
      var u := SkipSpace(t[1..]);
      if Starts(u, '}') then Done(Obj(map[]), u[1..]) else ParseMembers(t[1..], map[])
    else if t[0] == '[' then
      var u := SkipSpace(t[1..]);
      if Starts(u, ']') then Done(Arr([]), u[1..]) else ParseItems(t[1..], [])
    else if t[0] == 'n' then ParseWord(t, "null", Null)
    else if t[0] == 't' then ParseWord(t, "true", Bool(true))
    else if t[0] == 'f' then ParseWord(t, "false", Bool(false))
    else ParseNumber(t)
  }

  /** `"name": value` pairs up to the closing brace; a later pair replaces an earlier one. */
  function ParseMembers(s: string, fields: map<string, Value>): (p: Parse<Value>)
    ensures p.Done? ==> |p.rest| < |s|
    decreases |s|, 0
  {
    var t := SkipSpace(s);
    if !Starts(t, '"') then Fail
    else
      match ParseString(t[1..])
      case Fail => Fail
      case Done(name, rest) =>
        var u := SkipSpace(rest);
        if !Starts(u, ':') then Fail
        else
          match ParseValue(u[1..])
          case Fail => Fail
          case Done(value, rest) =>
            var w := SkipSpace(rest);
            if Starts(w, ',') then ParseMembers(w[1..], fields[name := value])
            else if Starts(w, '}') then Done(Obj(fields[name := value]), w[1..])
            else Fail
  }

  function ParseItems(s: string, items: seq<Value>): (p: Parse<Value>)
    ensures p.Done? ==> |p.rest| < |s|
    decreases |s|, 1
  {
    match ParseValue(s)
    case Fail => Fail
    case Done(value, rest) =>
      var w := SkipSpace(rest);
      if Starts(w, ',') then ParseItems(w[1..], items + [value])
      else if Starts(w, ']') then Done(Arr(items + [value]), w[1..])
      else Fail
  }

  /** `JSON.parse`: one value and nothing else, or None for the error it throws. */
  function FromText(s: string): Option<Value>
  {
    match ParseValue(s)
    case Done(value, rest) => if SkipSpace(rest) == [] then Some(value) else None
    case Fail => None
  }

  function HexDigit(n: nat): char
    requires n < 16
  {
    "0123456789abcdef"[n]
  }

  function EscapeChar(c: char): string
  {
    if c == '"' then "\\\""
    else if c == '\\' then "\\\\"
    else if c == '\U{8}' then "\\b"
    else if c == '\t' then "\\t"
    else if c == '\n' then "\\n"
    else if c == '\U{c}' then "\\f"
    else if c == '\r' then "\\r"
    else if c < ' ' then "\\u00" + [HexDigit(c as int / 16), HexDigit(c as int % 16)]
    else [c]
  }

  function Escape(s: string): string
  {
    if s == [] then [] else EscapeChar(s[0]) + Escape(s[1..])
  }

  /** `JSON.stringify({ id })`. */
  function PrintReference(id: string): string
  {
    "{\"id\":\"" + Escape(id) + "\"}"
  }

  lemma HexDigitValue(n: nat)
    requires n < 16
    ensures HexValue(HexDigit(n)) == Some(n)
  {}

  lemma ControlEscape(c: char, tail: string)
    requires c < ' '
    ensures
      var hex := "00" + [HexDigit(c as int / 16), HexDigit(c as int % 16)] + tail;
      ParseUnicode(hex) == Done(c, tail)
  {
    var hex := "00" + [HexDigit(c as int / 16), HexDigit(c as int % 16)] + tail;
    HexDigitValue(c as int / 16);
    HexDigitValue(c as int % 16);
    assert HexNumber(hex, 1) == Some(0);
    assert HexNumber(hex, 2) == Some(0);
    assert HexNumber(hex, 3) == Some(c as int / 16);
    assert HexNumber(hex, 4) == Some(c as int);
    assert hex[4..] == tail;
  }

  /** Every escape is read as the character it was printed for. */
  lemma EscapeRoundTrip(c: char, tail: string)
    requires EscapeChar(c)[0] == '\\'
    ensures ParseEscape(EscapeChar(c)[1..] + tail) == Done(c, tail)
  {
    var s := EscapeChar(c)[1..] + tail;
    if |EscapeChar(c)| == 2 {
      assert s[1..] == tail;
    } else {
      var hex := "00" + [HexDigit(c as int / 16), HexDigit(c as int % 16)] + tail;
      assert c < ' ';
      ControlEscape(c, tail);
      assert s[1..] == hex;
    }
  }

  lemma PlainCharRoundTrip(c: char, tail: string)
    requires c != '"' && c != '\\' && c >= ' '
    ensures ParseString([c] + tail) == Prepend(c, ParseString(tail))
  {
    assert ([c] + tail)[1..] == tail;
  }

  lemma CharRoundTrip(c: char, tail: string)
    ensures ParseString(EscapeChar(c) + tail) == Prepend(c, ParseString(tail))
  {
    var e := EscapeChar(c);
    if e[0] == '\\' {
      EscapeRoundTrip(c, tail);
      var s := e + tail;
      assert s[0] == '\\' && s[1..] == e[1..] + tail;
      hide ParseEscape, EscapeChar;
    } else {
      assert e == [c] && c != '"' && c != '\\' && c >= ' ';
      hide EscapeChar;
      PlainCharRoundTrip(c, tail);
    }
  }

  /** Escaping loses nothing: a printed text is read back up to its closing quote. */
  lemma {:induction false} StringRoundTrip(text: string, tail: string)
    ensures ParseString(Escape(text) + "\"" + tail) == Done(text, tail)
    decreases |text|
  {
    if text == [] {
      assert Escape(text) + "\"" + tail == "\"" + tail;
    } else {
      var rest := Escape(text[1..]) + "\"" + tail;
      assert Escape(text) + "\"" + tail == EscapeChar(text[0]) + rest;
      CharRoundTrip(text[0], rest);
      StringRoundTrip(text[1..], tail);
      assert [text[0]] + text[1..] == text;
    }
  }

  lemma {:induction false} SkipsNoPercent(s: string)
    ensures '%' in s ==> '%' in SkipSpace(s) && '%' in SkipDigits(s)
    decreases |s|
  {
    if s != [] {
      SkipsNoPercent(s[1..]);
    }
  }

  lemma SomeDigitsAreNoPercent(s: string)
    requires '%' in s && SkipSomeDigits(s).Some?
    ensures '%' in SkipSomeDigits(s).value
  {
    SkipsNoPercent(s);
  }

  lemma FractionIsNoPercent(s: string)
    requires '%' in s && SkipFraction(s).Some?
    ensures '%' in SkipFraction(s).value
  {
    if Starts(s, '.') {
      SomeDigitsAreNoPercent(s[1..]);
    }
  }

  lemma ExponentIsNoPercent(s: string)
    requires '%' in s && SkipExponent(s).Some?
    ensures '%' in SkipExponent(s).value
  {
    if Starts(s, 'e') || Starts(s, 'E') {
      var t := s[1..];
      SomeDigitsAreNoPercent(if Starts(t, '+') || Starts(t, '-') then t[1..] else t);
    }
  }

  lemma NumberIsNoPercent(s: string)
    requires '%' in s && ParseNumber(s).Done?
    ensures '%' in ParseNumber(s).rest
  {
    hide SkipFraction, SkipExponent, SkipDigits;
    var t := if Starts(s, '-') then s[1..] else s;
    SkipsNoPercent(t);
    var digits := if t[0] == '0' then t[1..] else SkipDigits(t);
    FractionIsNoPercent(digits);
    ExponentIsNoPercent(SkipFraction(digits).value);
  }

  lemma WordIsNoPercent(s: string, word: string, value: Value)
    requires '%' in s && '%' !in word && word != [] && ParseWord(s, word, value).Done?
    ensures '%' in ParseWord(s, word, value).rest
  {
    assert s == word + s[|word|..];
  }

  /** JSON holds a percent sign only inside quotes. */
  lemma UnquotedPercentIsNotJson(s: string)
    requires '%' in s && '"' !in s && '{' !in s && '[' !in s
    ensures FromText(s) == None
  {
    var t := SkipSpace(s);
    SkipsNoPercent(s);
    SkippedIsPart(s);
    assert t[0] in s;
    if ParseValue(s).Done? {
      hide ParseNumber, ParseWord;
      if t[0] == 'n' {
        WordIsNoPercent(t, "null", Null);
      } else if t[0] == 't' {
        WordIsNoPercent(t, "true", Bool(true));
      } else if t[0] == 'f' {
        WordIsNoPercent(t, "false", Bool(false));
      } else {
        NumberIsNoPercent(t);
      }
      SkipsNoPercent(ParseValue(s).rest);
    }
  }

  lemma {:induction false} StringIsShorter(s: string)
    requires ParseString(s).Done?
    ensures |ParseString(s).value| + |ParseString(s).rest| < |s|
    decreases |s|
  {
    hide ParseEscape;
    if s[0] == '\\' {
      StringIsShorter(ParseEscape(s[1..]).rest);
    } else if s[0] != '"' {
      StringIsShorter(s[1..]);
    }
  }

  /** The text of a field, if it is one, is shorter than `n`. */
  ghost predicate ShortFields(fields: map<string, Value>, n: nat)
  {
    forall name | name in fields && fields[name].Str? :: |fields[name].s| < n
  }

  /** What is read off a text is shorter than the text: a string, and every string field of an object. */
  lemma {:induction false} ValueIsShorter(s: string)
    requires ParseValue(s).Done?
    ensures ParseValue(s).value.Str? ==> |ParseValue(s).value.s| < |s|
    ensures ParseValue(s).value.Obj? ==> ShortFields(ParseValue(s).value.fields, |s|)
    decreases |s|
  {
    hide ParseString, ParseNumber, ParseMembers, ParseItems;
    var t := SkipSpace(s);
    if t[0] == '"' {
      StringIsShorter(t[1..]);
    } else if t[0] == '{' {
      if !Starts(SkipSpace(t[1..]), '}') {
        MembersAreShorter(t[1..], map[], |s|);
      }
    } else if t[0] == '[' {
      ItemsAreNoObject(t[1..], []);
    } else {
      NumberIsNumber(t);
    }
  }

  lemma NumberIsNumber(s: string)
    ensures ParseNumber(s).Done? ==> ParseNumber(s).value.Num?
  {}

  lemma {:induction false} MembersAreShorter(s: string, fields: map<string, Value>, n: nat)
    requires |s| <= n && ShortFields(fields, n) && ParseMembers(s, fields).Done?
    ensures ParseMembers(s, fields).value.Obj? && ShortFields(ParseMembers(s, fields).value.fields, n)
    decreases |s|
  {
    hide ParseString, ParseValue;
    var name := ParseString(SkipSpace(s)[1..]);
    var u := SkipSpace(name.rest);
    var value := ParseValue(u[1..]);
    ValueIsShorter(u[1..]);
    var w := SkipSpace(value.rest);
    if Starts(w, ',') {
      MembersAreShorter(w[1..], fields[name.value := value.value], n);
    }
  }

  lemma SkippedIsPart(s: string)
    ensures forall c | c in SkipSpace(s) :: c in s
  {}

  /** An object needs its opening brace. */
  lemma ObjectHasBrace(s: string)
    requires FromText(s).Some? && FromText(s).value.Obj?
    ensures '{' in s
  {
    SkippedIsPart(s);
    var t := SkipSpace(s);
    if t[0] == '[' {
      ItemsAreNoObject(t[1..], []);
    }
  }

  lemma {:induction false} ItemsAreNoObject(s: string, items: seq<Value>)
    ensures ParseItems(s, items).Done? ==> ParseItems(s, items).value.Arr?
    decreases |s|
  {
    match ParseValue(s)
    case Fail =>
    case Done(value, rest) =>
      var w := SkipSpace(rest);
      if Starts(w, ',') {
        ItemsAreNoObject(w[1..], items + [value]);
      }
  }

  lemma {:induction false} AllDigitsSkipped(s: string)
    requires forall c | c in s :: IsDigit(c)
    ensures SkipDigits(s) == ""
    decreases |s|
  {
    if s != [] {
      AllDigitsSkipped(s[1..]);
    }
  }

  /** A run of digits without a leading zero is a JSON number. */
  lemma DigitsAreNumber(s: string)
    requires s != "" && s[0] != '0' && forall c | c in s :: IsDigit(c)
    ensures FromText(s) == Some(Num)
  {
    assert IsDigit(s[0]);
    AllDigitsSkipped(s);
  }
}
