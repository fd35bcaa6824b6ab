/** The tokens of RFC 8259, and the proof that the reader takes exactly these for numbers and strings. */
module JsonGrammar {
  import opened Prelude
  import opened Json

  // ---------------------------------------------------------------- the tokens

  predicate Space(s: string)
  {
    forall c | c in s :: c in " \t\n\r"
  }

  predicate Digits(s: string)
  {
    s != "" && forall c | c in s :: c in "0123456789"
  }

  /** Section 6: a sign, a whole part without leading zeros, a fraction and an exponent. */
  predicate NumberParts(sign: string, whole: string, fraction: string, exponent: string)
  {
    && (sign == "" || sign == "-")
    && Digits(whole) && (whole[0] == '0' ==> |whole| == 1)
    && (fraction == "" || (fraction[0] == '.' && Digits(fraction[1..])))
    && (exponent == "" || ExponentText(exponent))
  }

  predicate ExponentText(s: string)
  {
    && s != "" && s[0] in "eE"
    && (Digits(s[1..]) || (|s| > 1 && s[1] in "+-" && Digits(s[2..])))
  }

  ghost predicate NumberText(s: string)
  {
    exists sign, whole, fraction, exponent ::
      NumberParts(sign, whole, fraction, exponent) && s == sign + whole + fraction + exponent
  }

  predicate IsHex(c: char, h: int)
  {
    0 <= h < 16 && (c == "0123456789abcdef"[h] || c == "0123456789ABCDEF"[h])
  }

  ghost predicate FourHex(s: string, n: int)
  {
    |s| == 4 && exists a, b, c, d ::
      IsHex(s[0], a) && IsHex(s[1], b) && IsHex(s[2], c) && IsHex(s[3], d) && n == 4096 * a + 256 * b + 16 * c + d
  }

  /** What may follow a backslash for a character, other than `u`. */
  predicate Escaped(x: char, c: char)
  {
    match x
    case '"' => c == '"'
    case '\\' => c == '\\'
    case '/' => c == '/'
    case 'b' => c == '\U{8}'
    case 'f' => c == '\U{c}'
    case 'n' => c == '\n'
    case 'r' => c == '\r'
    case 't' => c == '\t'
    case _ => false
  }

  ghost predicate SurrogatePair(u: string, c: char)
  {
    |u| == 12 && u[..2] == "\\u" && u[6..8] == "\\u" && exists high, low ::
      && FourHex(u[2..6], high) && FourHex(u[8..], low)
      && 0xD800 <= high < 0xDC00 <= low < 0xE000
      && c as int == 0x10000 + (high - 0xD800) * 0x400 + (low - 0xDC00)
  }

  /** Section 7: one character of a string, as itself or escaped. */
  ghost predicate CharText(u: string, c: char)
  {
    || (u == [c] && c >= ' ' && c != '"' && c != '\\')
    || (|u| == 2 && u[0] == '\\' && Escaped(u[1], c))
    || (|u| == 6 && u[..2] == "\\u" && FourHex(u[2..], c as int))
    || SurrogatePair(u, c)
  }

  ghost predicate StringText(body: string, value: string)
    decreases |value|
  {
    if value == "" then body == ""
    else exists k :: 0 < k <= |body| && CharText(body[..k], value[0]) && StringText(body[k..], value[1..])
  }

  // ---------------------------------------------------------------- white space

  lemma {:induction false} SpaceIsSkipped(space: string, s: string)
    requires Space(space) && (s == "" || s[0] !in " \t\n\r")
    ensures SkipSpace(space + s) == s
    decreases |space|
  {
    if space == "" {
      assert space + s == s;
    } else {
      assert space[0] in space;
      assert (space + s)[1..] == space[1..] + s;
      SpaceIsSkipped(space[1..], s);
    }
  }

  lemma {:induction false} SkippedIsSpace(s: string) returns (space: string)
    ensures Space(space) && s == space + SkipSpace(s)
    ensures SkipSpace(s) == "" || SkipSpace(s)[0] !in " \t\n\r"
    decreases |s|
  {
    space := "";
    if s != "" && s[0] in " \t\n\r" {
      var rest := SkippedIsSpace(s[1..]);
      space := [s[0]] + rest;
    }
  }

  // ---------------------------------------------------------------- numbers

  lemma DigitIsDigit(c: char)
    ensures IsDigit(c) <==> c in "0123456789"
  {
    if IsDigit(c) {
      assert "0123456789"[c as int - '0' as int] == c;
    }
  }

  lemma {:induction false} DigitsAreSkipped(digits: string, tail: string)
    requires (forall c | c in digits :: c in "0123456789") && (tail == "" || !IsDigit(tail[0]))
    ensures SkipDigits(digits + tail) == tail
    decreases |digits|
  {
    if digits == "" {
      assert digits + tail == tail;
    } else {
      assert digits[0] in digits;
      DigitIsDigit(digits[0]);
      assert (digits + tail)[1..] == digits[1..] + tail;
      DigitsAreSkipped(digits[1..], tail);
    }
  }

  lemma {:induction false} SkippedAreDigits(s: string) returns (digits: string)
    ensures s == digits + SkipDigits(s) && forall c | c in digits :: c in "0123456789"
    ensures s != "" && IsDigit(s[0]) ==> Digits(digits) && digits[0] == s[0]
    decreases |s|
  {
    digits := "";
    if s != "" && IsDigit(s[0]) {
      DigitIsDigit(s[0]);
      var rest := SkippedAreDigits(s[1..]);
      digits := [s[0]] + rest;
    }
  }

  /** What cannot go on a number. */
  predicate EndsNumber(tail: string)
  {
    tail == "" || !(IsDigit(tail[0]) || tail[0] == '.' || tail[0] == 'e' || tail[0] == 'E')
  }

  lemma SomeDigitsAreRead(digits: string, tail: string)
    requires Digits(digits) && (tail == "" || !IsDigit(tail[0]))
    ensures SkipSomeDigits(digits + tail) == Some(tail)
  {
    assert digits[0] in digits && (digits + tail)[0] == digits[0];
    DigitIsDigit(digits[0]);
    DigitsAreSkipped(digits, tail);
  }

  lemma ExponentIsRead(exponent: string, tail: string)
    requires (exponent == "" || ExponentText(exponent)) && EndsNumber(tail)
    ensures SkipExponent(exponent + tail) == Some(tail)
  {
    var s := exponent + tail;
    if exponent == "" {
      assert s == tail;
    } else {
      assert s[0] == exponent[0] && s[1..] == exponent[1..] + tail;
      hide SkipSomeDigits;
      if Digits(exponent[1..]) {
        assert exponent[1] in exponent[1..];
        SomeDigitsAreRead(exponent[1..], tail);
      } else {
        assert s[1..][1..] == exponent[2..] + tail;
        SomeDigitsAreRead(exponent[2..], tail);
      }
    }
  }

  /** A fraction or an exponent does not begin with a digit. */
  lemma FractionIsRead(fraction: string, exponent: string, tail: string)
    requires fraction == "" || (fraction[0] == '.' && Digits(fraction[1..]))
    requires (exponent == "" || ExponentText(exponent)) && EndsNumber(tail)
    ensures SkipFraction(fraction + (exponent + tail)) == Some(exponent + tail)
  {
    var rest := exponent + tail;
    var s := fraction + rest;
    assert rest != "" ==> rest[0] == if exponent == "" then tail[0] else exponent[0];
    if fraction == "" {
      assert s == rest;
    } else {
      assert s[0] == '.' && s[1..] == fraction[1..] + rest;
      SomeDigitsAreRead(fraction[1..], rest);
    }
  }

  lemma NumberIsRead(sign: string, whole: string, fraction: string, exponent: string, tail: string)
    requires NumberParts(sign, whole, fraction, exponent) && EndsNumber(tail)
    ensures ParseNumber(sign + (whole + (fraction + (exponent + tail)))) == Done(Num, tail)
  {
    var late := fraction + (exponent + tail);
    var t := whole + late;
    var s := sign + t;
    assert whole[0] in whole && t[0] == whole[0];
    DigitIsDigit(whole[0]);
    assert sign == "" ==> s == t;
    assert sign == "-" ==> s[0] == '-' && s[1..] == t;
    assert late != "" ==> late[0] == if fraction != "" then '.' else if exponent != "" then exponent[0] else tail[0];
    DigitsAreSkipped(whole, late);
    assert |whole| == 1 ==> t[1..] == late;
    FractionIsRead(fraction, exponent, tail);
    ExponentIsRead(exponent, tail);
    hide SkipFraction, SkipExponent, SkipDigits, ExponentText;
  }

  lemma SomeDigitsAreDigits(s: string) returns (digits: string)
    requires SkipSomeDigits(s).Some?
    ensures Digits(digits) && s == digits + SkipSomeDigits(s).value
  {
    digits := SkippedAreDigits(s);
  }

  lemma SkippedIsFraction(s: string) returns (fraction: string)
    requires SkipFraction(s).Some?
    ensures fraction == "" || (fraction[0] == '.' && Digits(fraction[1..]))
    ensures s == fraction + SkipFraction(s).value
  {
    fraction := "";
    if Starts(s, '.') {
      var digits := SomeDigitsAreDigits(s[1..]);
      fraction := "." + digits;
      assert fraction[1..] == digits;
    }
  }

  lemma SkippedIsExponent(s: string) returns (exponent: string)
    requires SkipExponent(s).Some?
    ensures exponent == "" || ExponentText(exponent)
    ensures s == exponent + SkipExponent(s).value
  {
    exponent := "";
    if Starts(s, 'e') || Starts(s, 'E') {
      var t := s[1..];
      if Starts(t, '+') || Starts(t, '-') {
        var digits := SomeDigitsAreDigits(t[1..]);
        exponent := [s[0], t[0]] + digits;
        assert exponent[2..] == digits;
      } else {
        var digits := SomeDigitsAreDigits(t);
        exponent := [s[0]] + digits;
        assert exponent[1..] == digits;
      }
    }
  }

  lemma WholePart(t: string) returns (whole: string)
    requires t != "" && IsDigit(t[0])
    ensures Digits(whole) && (whole[0] == '0' ==> |whole| == 1)
    ensures t == whole + if t[0] == '0' then t[1..] else SkipDigits(t)
  {
    DigitIsDigit(t[0]);
    if t[0] == '0' {
      whole := "0";
    } else {
      whole := SkippedAreDigits(t);
    }
  }

  lemma JoinParts(sign: string, whole: string, fraction: string, exponent: string, tail: string)
    ensures sign + whole + fraction + exponent + tail == sign + (whole + (fraction + (exponent + tail)))
  {}

  lemma ReadIsNumber(s: string) returns (text: string)
    requires ParseNumber(s).Done?
    ensures NumberText(text) && s == text + ParseNumber(s).rest && ParseNumber(s).value == Num
  {
    hide SkipFraction, SkipExponent, SkipDigits, NumberParts;
    var sign := if Starts(s, '-') then "-" else "";
    var t := if Starts(s, '-') then s[1..] else s;
    var late := if t[0] == '0' then t[1..] else SkipDigits(t);
    var whole := WholePart(t);
    var fraction := SkippedIsFraction(late);
    var exponent := SkippedIsExponent(SkipFraction(late).value);
    text := sign + whole + fraction + exponent;
    assert NumberText(text) by {
      PartsAreNumber(sign, whole, fraction, exponent);
    }
    JoinParts(sign, whole, fraction, exponent, ParseNumber(s).rest);
    assert s == sign + t;
  }

  lemma PartsAreNumber(sign: string, whole: string, fraction: string, exponent: string)
    requires sign == "" || sign == "-"
    requires Digits(whole) && (whole[0] == '0' ==> |whole| == 1)
    requires fraction == "" || (fraction[0] == '.' && Digits(fraction[1..]))
    requires exponent == "" || ExponentText(exponent)
    ensures NumberText(sign + whole + fraction + exponent)
  {
    assert NumberParts(sign, whole, fraction, exponent);
  }

  // ---------------------------------------------------------------- strings

  lemma HexIsExact(c: char, h: int)
    ensures IsHex(c, h) <==> HexValue(c).Some? && h == HexValue(c).value && h < 16
  {
    assert forall k | 0 <= k < 16 ::
        "0123456789abcdef"[k] as int == if k < 10 then '0' as int + k else 'a' as int + k - 10;
    assert forall k | 0 <= k < 16 ::
        "0123456789ABCDEF"[k] as int == if k < 10 then '0' as int + k else 'A' as int + k - 10;
  }

  lemma OneMoreHex(s: string, n: nat)
    requires n < |s|
    ensures HexNumber(s, n + 1) ==
      if HexNumber(s, n).Some? && HexValue(s[n]).Some? then
        Some(16 * HexNumber(s, n).value + HexValue(s[n]).value) else None
  {
    hide HexValue;
  }

  lemma FourDigitsAreNumber(s: string)
    requires |s| >= 4
    ensures HexNumber(s, 4) ==
      if HexValue(s[0]).Some? && HexValue(s[1]).Some? && HexValue(s[2]).Some? && HexValue(s[3]).Some? then
        Some(4096 * HexValue(s[0]).value + 256 * HexValue(s[1]).value + 16 * HexValue(s[2]).value
             + HexValue(s[3]).value)
      else None
  {
    assert HexNumber(s, 0) == Some(0);
    hide HexNumber, HexValue;
    OneMoreHex(s, 0);
    OneMoreHex(s, 1);
    OneMoreHex(s, 2);
    OneMoreHex(s, 3);
  }

  lemma FourHexIsNumber(s: string, n: int)
    requires |s| >= 4 && FourHex(s[..4], n)
    ensures HexNumber(s, 4) == Some(n)
  {
    hide IsHex, HexValue, HexNumber;
    var u := s[..4];
    var a, b, c, d :|
      IsHex(u[0], a) && IsHex(u[1], b) && IsHex(u[2], c) && IsHex(u[3], d) && n == 4096 * a + 256 * b + 16 * c + d;
    hide FourHex;
    assert u[0] == s[0] && u[1] == s[1] && u[2] == s[2] && u[3] == s[3];
    HexIsExact(s[0], a);
    HexIsExact(s[1], b);
    HexIsExact(s[2], c);
    HexIsExact(s[3], d);
    FourDigitsAreNumber(s);
  }

  lemma FourHexIsRead(s: string, n: int)
    requires |s| >= 4
    ensures FourHex(s[..4], n) <==> HexNumber(s, 4) == Some(n)
  {
    hide FourHex, HexValue, HexNumber;
    if FourHex(s[..4], n) {
      FourHexIsNumber(s, n);
    }
    if HexNumber(s, 4) == Some(n) {
      FourDigitsAreNumber(s);
      NumberIsFourHex(s[..4], HexValue(s[0]).value, HexValue(s[1]).value, HexValue(s[2]).value, HexValue(s[3]).value);
    }
  }

  lemma NumberIsFourHex(s: string, a: int, b: int, c: int, d: int)
    requires |s| == 4 && HexValue(s[0]) == Some(a) && HexValue(s[1]) == Some(b)
    requires HexValue(s[2]) == Some(c) && HexValue(s[3]) == Some(d)
    ensures FourHex(s, 4096 * a + 256 * b + 16 * c + d)
  {
    HexIsSmall(s[0]);
    HexIsSmall(s[1]);
    HexIsSmall(s[2]);
    HexIsSmall(s[3]);
    hide HexValue, IsHex;
    HexIsExact(s[0], a);
    HexIsExact(s[1], b);
    HexIsExact(s[2], c);
    HexIsExact(s[3], d);
  }

  lemma HexIsSmall(c: char)
    ensures HexValue(c).Some? ==> HexValue(c).value < 16
  {}

  lemma SimpleEscape(x: char, c: char, tail: string)
    requires Escaped(x, c)
    ensures ParseEscape([x] + tail) == Done(c, tail)
  {
    assert ([x] + tail)[1..] == tail;
  }

  lemma UnicodeEscape(u: string, c: char, tail: string)
    requires |u| == 4 && FourHex(u, c as int)
    ensures ParseUnicode(u + tail) == Done(c, tail)
  {
    var s := u + tail;
    assert s[..4] == u && s[4..] == tail;
    FourHexIsRead(s, c as int);
    hide FourHex, HexNumber;
  }

  lemma PairIsRead(s: string, high: int, low: int)
    requires |s| >= 10 && s[4] == '\\' && s[5] == 'u'
    requires HexNumber(s, 4) == Some(high) && HexNumber(s[6..], 4) == Some(low)
    requires 0xD800 <= high < 0xDC00 <= low < 0xE000
    ensures ParseUnicode(s) == Done((0x10000 + (high - 0xD800) * 0x400 + (low - 0xDC00)) as char, s[10..])
  {
    hide HexNumber;
  }

  lemma PairParts(u: string, c: char) returns (high: int, low: int)
    requires SurrogatePair(u, c)
    ensures |u| == 12 && u[..2] == "\\u" && u[6..8] == "\\u" && FourHex(u[2..6], high) && FourHex(u[8..], low)
    ensures 0xD800 <= high < 0xDC00 <= low < 0xE000
    ensures c as int == 0x10000 + (high - 0xD800) * 0x400 + (low - 0xDC00)
  {
    hide FourHex;
    high, low :|
      && FourHex(u[2..6], high) && FourHex(u[8..], low)
      && 0xD800 <= high < 0xDC00 <= low < 0xE000
      && c as int == 0x10000 + (high - 0xD800) * 0x400 + (low - 0xDC00);
  }

  lemma PairEscape(u: string, c: char, tail: string)
    requires SurrogatePair(u, c)
    ensures |u| == 12 && ParseUnicode(u[2..] + tail) == Done(c, tail)
  {
    hide FourHex, HexNumber, ParseUnicode, SurrogatePair;
    var high, low := PairParts(u, c);
    var s := u[2..] + tail;
    assert s[..4] == u[2..6] && s[6..][..4] == u[8..] && s[10..] == tail;
    assert s[4] == u[6..8][0] && s[5] == u[6..8][1];
    FourHexIsRead(s, high);
    FourHexIsRead(s[6..], low);
    PairIsRead(s, high, low);
  }

  lemma PlainCharIsRead(c: char, tail: string)
    requires c >= ' ' && c != '"' && c != '\\'
    ensures ParseString([c] + tail) == Json.Prepend(c, ParseString(tail))
  {
    var s := [c] + tail;
    assert s[0] == c && s[1..] == tail;
    hide ParseEscape;
  }

  lemma EscapeIsRead(escape: string, c: char, tail: string)
    requires ParseEscape(escape + tail) == Done(c, tail)
    ensures ParseString("\\" + escape + tail) == Json.Prepend(c, ParseString(tail))
  {
    var s := "\\" + escape + tail;
    assert s[0] == '\\' && s[1..] == escape + tail;
    hide ParseEscape;
  }

  lemma UnicodeIsEscape(digits: string, c: char, tail: string)
    requires ParseUnicode(digits + tail) == Done(c, tail)
    ensures ParseEscape("u" + digits + tail) == Done(c, tail)
  {
    var s := "u" + digits + tail;
    assert s[0] == 'u' && s[1..] == digits + tail;
    hide ParseUnicode;
  }

  lemma LongCharIsRead(u: string, c: char, tail: string)
    requires |u| >= 2 && u[..2] == "\\u" && ParseUnicode(u[2..] + tail) == Done(c, tail)
    ensures ParseString(u + tail) == Json.Prepend(c, ParseString(tail))
  {
    hide ParseString, ParseEscape, ParseUnicode;
    var digits := u[2..];
    UnicodeIsEscape(digits, c, tail);
    assert u == u[..2] + digits && "\\u" + digits == "\\" + ("u" + digits);
    EscapeIsRead("u" + digits, c, tail);
  }

  lemma TwoCharsAreRead(u: string, c: char, tail: string)
    requires |u| == 2 && u[0] == '\\' && Escaped(u[1], c)
    ensures ParseString(u + tail) == Json.Prepend(c, ParseString(tail))
  {
    hide ParseString, ParseEscape, Escaped;
    SimpleEscape(u[1], c, tail);
    assert u == "\\" + [u[1]];
    EscapeIsRead([u[1]], c, tail);
  }

  /** One character of a string is read, and then the rest. */
  lemma CharIsRead(u: string, c: char, tail: string)
    requires CharText(u, c)
    ensures ParseString(u + tail) == Json.Prepend(c, ParseString(tail))
  {
    hide ParseString, ParseUnicode, SurrogatePair, FourHex, Escaped;
    if u == [c] && c >= ' ' && c != '"' && c != '\\' {
      PlainCharIsRead(c, tail);
    } else if |u| == 2 && u[0] == '\\' && Escaped(u[1], c) {
      TwoCharsAreRead(u, c, tail);
    } else if |u| == 6 && u[..2] == "\\u" && FourHex(u[2..], c as int) {
      UnicodeEscape(u[2..], c, tail);
      LongCharIsRead(u, c, tail);
    } else {
      var high, low := PairParts(u, c);
      PairEscape(u, c, tail);
      LongCharIsRead(u, c, tail);
    }
  }

  lemma Rejoin(body: string, k: nat, tail: string)
    requires k <= |body|
    ensures body + "\"" + tail == body[..k] + (body[k..] + "\"" + tail)
  {}

  lemma StringTextFront(body: string, value: string) returns (k: nat)
    requires value != "" && StringText(body, value)
    ensures 0 < k <= |body| && CharText(body[..k], value[0]) && StringText(body[k..], value[1..])
  {
    hide CharText;
    k :| 0 < k <= |body| && CharText(body[..k], value[0]) && StringText(body[k..], value[1..]);
  }

  lemma {:induction false} StringIsRead(body: string, value: string, tail: string)
    requires StringText(body, value)
    ensures ParseString(body + "\"" + tail) == Done(value, tail)
    decreases |value|
  {
    if value == "" {
      var s := body + "\"" + tail;
      assert s[0] == '"' && s[1..] == tail;
    } else {
      hide CharText, StringText, ParseString;
      var k := StringTextFront(body, value);
      Rejoin(body, k, tail);
      CharIsRead(body[..k], value[0], body[k..] + "\"" + tail);
      StringIsRead(body[k..], value[1..], tail);
      assert [value[0]] + value[1..] == value;
    }
  }

  /** What reading a `\\u` escape comes down to. */
  lemma UnicodeSteps(s: string)
    requires ParseUnicode(s).Done?
    ensures |s| >= 4 && HexNumber(s, 4).Some?
    ensures
      var n, p := HexNumber(s, 4).value, ParseUnicode(s);
      if n < 0xD800 || 0xE000 <= n then p.value as int == n && p.rest == s[4..]
      else
        && n < 0xDC00 && |s| >= 10 && s[4] == '\\' && s[5] == 'u' && HexNumber(s[6..], 4).Some?
        && var low := HexNumber(s[6..], 4).value;
        && 0xDC00 <= low < 0xE000 && p.rest == s[10..]
        && p.value as int == 0x10000 + (n - 0xD800) * 0x400 + (low - 0xDC00)
  {
    hide HexNumber;
  }

  lemma PairText(u: string, c: char, high: int, low: int)
    requires |u| == 10 && FourHex(u[..4], high) && u[4] == '\\' && u[5] == 'u' && FourHex(u[6..], low)
    requires 0xD800 <= high < 0xDC00 <= low < 0xE000
    requires c as int == 0x10000 + (high - 0xD800) * 0x400 + (low - 0xDC00)
    ensures CharText("\\u" + u, c)
  {
    hide FourHex;
    var v := "\\u" + u;
    assert v[..2] == "\\u" && v[2..6] == u[..4] && v[6..8] == u[4..6] == "\\u" && v[8..] == u[6..];
    assert SurrogatePair(v, c);
  }

  lemma ReadIsUnicode(s: string) returns (u: string)
    requires ParseUnicode(s).Done?
    ensures CharText("\\u" + u, ParseUnicode(s).value) && s == u + ParseUnicode(s).rest
  {
    hide ParseUnicode, HexNumber, FourHex, SurrogatePair;
    UnicodeSteps(s);
    var n := HexNumber(s, 4).value;
    FourHexIsRead(s, n);
    if n < 0xD800 || 0xE000 <= n {
      u := s[..4];
      assert ("\\u" + u)[2..] == u && ("\\u" + u)[..2] == "\\u";
    } else {
      u := s[..10];
      var low := HexNumber(s[6..], 4).value;
      FourHexIsRead(s[6..], low);
      assert u[..4] == s[..4] && u[6..] == s[6..][..4];
      PairText(u, ParseUnicode(s).value, n, low);
    }
  }

  lemma UnicodeOpens(s: string)
    requires s != "" && s[0] == 'u'
    ensures ParseEscape(s) == ParseUnicode(s[1..])
  {
    hide ParseUnicode;
  }

  lemma ReadIsSimple(s: string)
    requires ParseEscape(s).Done? && s[0] != 'u'
    ensures Escaped(s[0], ParseEscape(s).value) && ParseEscape(s).rest == s[1..]
  {
    hide ParseUnicode;
  }

  lemma SimpleIsText(x: char, c: char)
    requires Escaped(x, c)
    ensures CharText("\\" + [x], c)
  {
    hide Escaped, SurrogatePair, FourHex;
    var t := "\\" + [x];
    assert |t| == 2 && t[0] == '\\' && t[1] == x;
  }

  lemma ReadIsEscape(s: string) returns (u: string)
    requires ParseEscape(s).Done?
    ensures CharText("\\" + u, ParseEscape(s).value) && s == u + ParseEscape(s).rest
    ensures u != ""
  {
    assert s != "";
    hide ParseEscape, ParseUnicode, CharText, Escaped;
    assert s == [s[0]] + s[1..];
    if s[0] == 'u' {
      UnicodeOpens(s);
      var v := ReadIsUnicode(s[1..]);
      u := "u" + v;
      assert "\\" + ("u" + v) == "\\u" + v;
    } else {
      ReadIsSimple(s);
      u := [s[0]];
      SimpleIsText(s[0], ParseEscape(s).value);
    }
  }

  lemma StringTextCons(u: string, c: char, rest: string, value: string)
    requires CharText(u, c) && StringText(rest, value)
    ensures StringText(u + rest, [c] + value)
  {
    var body := u + rest;
    assert u != "";
    hide CharText;
    assert body[..|u|] == u && body[|u|..] == rest;
    assert ([c] + value)[1..] == value;
  }

  lemma EscapeIsFront(s: string)
    requires ParseString(s).Done? && s[0] == '\\'
    ensures ParseEscape(s[1..]).Done?
    ensures ParseString(s) == Json.Prepend(ParseEscape(s[1..]).value, ParseString(ParseEscape(s[1..]).rest))
  {
    hide ParseEscape;
  }

  lemma PlainIsFront(s: string)
    requires ParseString(s).Done? && s[0] != '\\' && s[0] != '"'
    ensures CharText([s[0]], s[0]) && ParseString(s) == Json.Prepend(s[0], ParseString(s[1..]))
  {
    hide ParseEscape, SurrogatePair, FourHex;
  }

  /** The front character of a string literal that is read. */
  lemma ReadIsChar(s: string) returns (u: string, c: char, tail: string)
    requires ParseString(s).Done? && s[0] != '"'
    ensures s == u + tail && u != "" && CharText(u, c) && ParseString(s) == Json.Prepend(c, ParseString(tail))
  {
    hide ParseEscape, CharText, ParseString;
    if s[0] == '\\' {
      EscapeIsFront(s);
      var v := ReadIsEscape(s[1..]);
      u, c, tail := "\\" + v, ParseEscape(s[1..]).value, ParseEscape(s[1..]).rest;
      assert s == "\\" + s[1..];
    } else {
      PlainIsFront(s);
      u, c, tail := [s[0]], s[0], s[1..];
    }
  }

  lemma ReadIsEmpty(s: string)
    requires Starts(s, '"')
    ensures ParseString(s) == Done("", s[1..]) && StringText("", "")
  {}

  lemma {:induction false} ReadIsString(s: string) returns (body: string)
    requires ParseString(s).Done?
    ensures StringText(body, ParseString(s).value) && s == body + "\"" + ParseString(s).rest
    decreases |s|
  {
    assert s != "";
    hide ParseString, CharText, StringText;
    if s[0] == '"' {
      body := "";
      ReadIsEmpty(s);
      assert s == body + "\"" + s[1..];
    } else {
      var u, c, tail := ReadIsChar(s);
      var rest := ReadIsString(tail);
      StringTextCons(u, c, rest, ParseString(tail).value);
      body := u + rest;
      Rejoin(body, |u|, ParseString(s).rest);
      assert body[..|u|] == u && body[|u|..] == rest;
    }
  }

}
