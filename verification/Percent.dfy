/** `encodeURIComponent` and `decodeURIComponent` on texts of Unicode scalar values. */
module Percent {
  import opened Prelude
  import Json
  import JsonGrammar

  /** The characters `encodeURIComponent` leaves alone. */
  predicate Unreserved(c: char)
  {
    'A' <= c <= 'Z' || 'a' <= c <= 'z' || '0' <= c <= '9' || c in "-_.!~*'()"
  }

  function HexDigit(n: nat): char
    requires n < 16
  {
    "0123456789ABCDEF"[n]
  }

  function EncodeByte(b: nat): (e: string)
    requires b < 256
    ensures |e| == 3
  {
    ['%', HexDigit(b / 16), HexDigit(b % 16)]
  }

  /** The UTF-8 bytes of a character, each percent-encoded. */
  function EncodeChar(c: char): string
  {
    var n := c as int;
    if Unreserved(c) then [c]
    else if n < 0x80 then EncodeByte(n)
    else if n < 0x800 then EncodeByte(0xC0 + n / 64) + EncodeByte(0x80 + n % 64)
    else if n < 0x10000 then
      EncodeByte(0xE0 + n / 4096) + EncodeByte(0x80 + n / 64 % 64) + EncodeByte(0x80 + n % 64)
    else
      EncodeByte(0xF0 + n / 262144) + EncodeByte(0x80 + n / 4096 % 64)
      + EncodeByte(0x80 + n / 64 % 64) + EncodeByte(0x80 + n % 64)
  }

  function Encode(s: string): string
  {
    if s == [] then [] else EncodeChar(s[0]) + Encode(s[1..])
  }

  /** A `%XX` at the front. */
  function ReadByte(s: string): (b: Option<nat>)
    ensures b.Some? ==> b.value < 256 && |s| >= 3
  {
    if |s| < 3 || s[0] != '%' then None
    else
      match (Json.HexValue(s[1]), Json.HexValue(s[2]))
      case (Some(high), Some(low)) => if high < 16 && low < 16 then Some(16 * high + low) else None
      case _ => None
  }

  /** `n` continuation bytes at the front, added to the bits read so far. */
  function ReadContinuation(s: string, n: nat, bits: nat): (r: Option<nat>)
    ensures r.Some? ==> |s| >= 3 * n
    decreases n
  {
    if n == 0 then Some(bits)
    else
      match ReadByte(s)
      case None => None
      case Some(b) =>
        if b / 64 != 2 then None else ReadContinuation(s[3..], n - 1, bits * 64 + b % 64)
  }

  /** How many continuation bytes a leading byte asks for, its own bits, and the least value allowed. */
  function Lead(b: nat): Option<(nat, nat, nat)>
    requires b < 256
  {
    if b < 0x80 then Some((0, b, 0))
    else if 0xC0 <= b < 0xE0 then Some((1, b - 0xC0, 0x80))
    else if 0xE0 <= b < 0xF0 then Some((2, b - 0xE0, 0x800))
    else if 0xF0 <= b < 0xF8 then Some((3, b - 0xF0, 0x10000))
    else None
  }

  predicate IsScalar(n: nat)
  {
    n < 0xD800 || 0xE000 <= n < 0x110000
  }

  /** The character a percent sequence at the front stands for, and the length of the sequence. */
  function ReadChar(s: string): (r: Option<(char, nat)>)
    ensures r.Some? ==> 0 < r.value.1 <= |s|
  {
    match ReadByte(s)
    case None => None
    case Some(b) =>
      match Lead(b)
      case None => None
      case Some((more, bits, least)) =>
        match ReadContinuation(s[3..], more, bits)
        case None => None
        case Some(n) => if least <= n && IsScalar(n) then Some((n as char, 3 + 3 * more)) else None
  }

  /** `decodeURIComponent`, with None for the error it throws. */
  function Decode(s: string): Option<string>
    decreases |s|
  {
    if s == [] then Some([])
    else if s[0] != '%' then Prepend(s[0], Decode(s[1..]))
    else
      match ReadChar(s)
      case None => None
      case Some((c, length)) => Prepend(c, Decode(s[length..]))
  }

  function Prepend(c: char, s: Option<string>): Option<string>
  {
    if s.Some? then Some([c] + s.value) else None
  }

  // ---------------------------------------------------------------- what is decoded

  /** A percent sign and two hexadecimal digits, in either case. */
  ghost predicate SpellsByte(u: string, b: int)
  {
    |u| == 3 && u[0] == '%' && exists high, low ::
      JsonGrammar.IsHex(u[1], high) && JsonGrammar.IsHex(u[2], low) && b == 16 * high + low
  }

  /** Section 3 of RFC 3629. */
  function Utf8(n: nat): seq<int>
  {
    if n < 0x80 then [n]
    else if n < 0x800 then [0xC0 + n / 64, 0x80 + n % 64]
    else if n < 0x10000 then [0xE0 + n / 4096, 0x80 + n / 64 % 64, 0x80 + n % 64]
    else [0xF0 + n / 262144, 0x80 + n / 4096 % 64, 0x80 + n / 64 % 64, 0x80 + n % 64]
  }

  ghost predicate SpellsBytes(u: string, bytes: seq<int>)
  {
    |u| == 3 * |bytes| && forall i | 0 <= i < |bytes| :: SpellsByte(u[3 * i..3 * i + 3], bytes[i])
  }

  /** A character as itself, or its UTF-8 bytes, each spelled. */
  ghost predicate Spells(u: string, c: char)
  {
    (u == [c] && c != '%') || SpellsBytes(u, Utf8(c as int))
  }

  /** A text that spells another one, character by character. */
  ghost predicate Spelling(s: string, t: string)
    decreases |t|
  {
    if t == "" then s == ""
    else exists k :: 0 < k <= |s| && Spells(s[..k], t[0]) && Spelling(s[k..], t[1..])
  }

  lemma HexIsSmall(c: char)
    ensures Json.HexValue(c).Some? ==> Json.HexValue(c).value < 16
  {}

  lemma ByteOfDigits(s: string, high: int, low: int)
    requires |s| >= 3 && s[0] == '%'
    requires JsonGrammar.IsHex(s[1], high) && JsonGrammar.IsHex(s[2], low)
    ensures ReadByte(s) == Some(16 * high + low)
  {
    hide Json.HexValue, JsonGrammar.IsHex;
    JsonGrammar.HexIsExact(s[1], high);
    JsonGrammar.HexIsExact(s[2], low);
    assert JsonGrammar.IsHex(s[1], high) ==> 0 <= high < 16 by {
      HexIsSmall(s[1]);
    }
  }

  lemma DigitsOfByte(s: string)
    requires ReadByte(s).Some?
    ensures |s| >= 3 && SpellsByte(s[..3], ReadByte(s).value)
  {
    hide Json.HexValue, JsonGrammar.IsHex;
    var high, low := Json.HexValue(s[1]).value, Json.HexValue(s[2]).value;
    JsonGrammar.HexIsExact(s[1], high);
    JsonGrammar.HexIsExact(s[2], low);
    var u := s[..3];
    assert u[0] == s[0] && u[1] == s[1] && u[2] == s[2];
    assert JsonGrammar.IsHex(u[1], high) && JsonGrammar.IsHex(u[2], low);
  }

  lemma ByteIsExact(s: string, b: int)
    requires |s| >= 3
    ensures ReadByte(s) == Some(b) <==> SpellsByte(s[..3], b)
  {
    var u := s[..3];
    assert u[0] == s[0] && u[1] == s[1] && u[2] == s[2];
    hide ReadByte, JsonGrammar.IsHex;
    if SpellsByte(u, b) {
      var high, low :| JsonGrammar.IsHex(u[1], high) && JsonGrammar.IsHex(u[2], low) && b == 16 * high + low;
      ByteOfDigits(s, high, low);
    }
    if ReadByte(s) == Some(b) {
      DigitsOfByte(s);
    }
  }

  /** A spelled byte at the front of a longer text is read. */
  lemma ByteIsRead(s: string, k: nat, b: int)
    requires k + 3 <= |s| && SpellsByte(s[k..k + 3], b)
    ensures ReadByte(s[k..]) == Some(b)
  {
    assert s[k..][..3] == s[k..k + 3];
    ByteIsExact(s[k..], b);
    hide SpellsByte, ReadByte;
  }

  lemma ReadIsByte(s: string, k: nat)
    requires k <= |s| && ReadByte(s[k..]).Some?
    ensures k + 3 <= |s| && SpellsByte(s[k..k + 3], ReadByte(s[k..]).value)
  {
    assert |s[k..]| >= 3;
    assert s[k..][..3] == s[k..k + 3];
    ByteIsExact(s[k..], ReadByte(s[k..]).value);
    hide SpellsByte, ReadByte;
  }

  lemma OneContinuation(s: string, n: nat, bits: nat)
    requires n > 0
    ensures ReadContinuation(s, n, bits) ==
      match ReadByte(s)
      case None => None
      case Some(b) => if b / 64 != 2 then None else ReadContinuation(s[3..], n - 1, bits * 64 + b % 64)
  {
    hide ReadByte;
  }

  lemma NoContinuation(s: string, bits: nat)
    ensures ReadContinuation(s, 0, bits) == Some(bits)
  {}

  /** The character of two bytes: five bits and six. */
  lemma TwoBytes(s: string, a: nat, b: nat)
    requires a < 32 && b < 64 && ReadByte(s) == Some(0xC0 + a) && ReadByte(s[3..]) == Some(0x80 + b)
    ensures ReadChar(s) == if 0x80 <= a * 64 + b then Some(((a * 64 + b) as char, 6)) else None
  {
    hide ReadByte, ReadContinuation;
    OneContinuation(s[3..], 1, a);
    NoContinuation(s[3..][3..], a * 64 + b);
  }

  lemma ThreeBytes(s: string, a: nat, b: nat, c: nat)
    requires a < 16 && b < 64 && c < 64 && ReadByte(s) == Some(0xE0 + a)
    requires ReadByte(s[3..]) == Some(0x80 + b) && ReadByte(s[3..][3..]) == Some(0x80 + c)
    ensures
      var n := (a * 64 + b) * 64 + c;
      ReadChar(s) == if 0x800 <= n && IsScalar(n) then Some((n as char, 9)) else None
  {
    hide ReadByte, ReadContinuation;
    OneContinuation(s[3..], 2, a);
    OneContinuation(s[3..][3..], 1, a * 64 + b);
    NoContinuation(s[3..][3..][3..], (a * 64 + b) * 64 + c);
  }

  lemma FourBytes(s: string, a: nat, b: nat, c: nat, d: nat)
    requires a < 8 && b < 64 && c < 64 && d < 64 && ReadByte(s) == Some(0xF0 + a)
    requires ReadByte(s[3..]) == Some(0x80 + b) && ReadByte(s[3..][3..]) == Some(0x80 + c)
    requires ReadByte(s[3..][3..][3..]) == Some(0x80 + d)
    ensures
      var n := ((a * 64 + b) * 64 + c) * 64 + d;
      ReadChar(s) == if 0x10000 <= n && IsScalar(n) then Some((n as char, 12)) else None
  {
    hide ReadByte, ReadContinuation;
    OneContinuation(s[3..], 3, a);
    OneContinuation(s[3..][3..], 2, a * 64 + b);
    OneContinuation(s[3..][3..][3..], 1, (a * 64 + b) * 64 + c);
    NoContinuation(s[3..][3..][3..][3..], ((a * 64 + b) * 64 + c) * 64 + d);
  }

  /** The six-bit digits of a number. */
  lemma Sextets(n: nat)
    ensures n == n / 64 * 64 + n % 64 && n % 64 < 64
    ensures n / 64 == n / 4096 * 64 + n / 64 % 64 && n / 4096 == n / 262144 * 64 + n / 4096 % 64
  {}

  lemma Utf8OfTwo(a: nat, b: nat)
    requires b < 64 && 0x80 <= a * 64 + b < 0x800
    ensures Utf8(a * 64 + b) == [0xC0 + a, 0x80 + b]
  {
    assert (a * 64 + b) / 64 == a && (a * 64 + b) % 64 == b;
  }

  lemma Utf8OfThree(a: nat, b: nat, c: nat)
    requires b < 64 && c < 64 && 0x800 <= (a * 64 + b) * 64 + c < 0x10000
    ensures Utf8((a * 64 + b) * 64 + c) == [0xE0 + a, 0x80 + b, 0x80 + c]
  {
    var n := (a * 64 + b) * 64 + c;
    assert n / 64 == a * 64 + b && n % 64 == c;
    assert n / 4096 == a && n / 64 % 64 == b;
  }

  lemma Utf8OfFour(a: nat, b: nat, c: nat, d: nat)
    requires b < 64 && c < 64 && d < 64 && 0x10000 <= ((a * 64 + b) * 64 + c) * 64 + d
    ensures Utf8(((a * 64 + b) * 64 + c) * 64 + d) == [0xF0 + a, 0x80 + b, 0x80 + c, 0x80 + d]
  {
    var n := ((a * 64 + b) * 64 + c) * 64 + d;
    assert n / 64 == (a * 64 + b) * 64 + c && n % 64 == d;
    assert n / 4096 == a * 64 + b && n / 64 % 64 == c;
    assert n / 262144 == a && n / 4096 % 64 == b;
  }

  /** Spelled bytes at the front are read one after the other. */
  lemma BytesAreRead(s: string, bytes: seq<int>)
    requires 3 * |bytes| <= |s| && SpellsBytes(s[..3 * |bytes|], bytes)
    ensures forall i | 0 <= i < |bytes| :: ReadByte(s[3 * i..]) == Some(bytes[i])
  {
    var u := s[..3 * |bytes|];
    hide SpellsByte, ReadByte;
    forall i | 0 <= i < |bytes|
      ensures ReadByte(s[3 * i..]) == Some(bytes[i])
    {
      assert u[3 * i..3 * i + 3] == s[3 * i..3 * i + 3];
      ByteIsRead(s, 3 * i, bytes[i]);
    }
  }

  lemma ReadAreBytes(s: string, bytes: seq<int>)
    requires 3 * |bytes| <= |s| && forall i | 0 <= i < |bytes| :: ReadByte(s[3 * i..]) == Some(bytes[i])
    ensures SpellsBytes(s[..3 * |bytes|], bytes)
  {
    var u := s[..3 * |bytes|];
    hide SpellsByte, ReadByte;
    forall i | 0 <= i < |bytes|
      ensures SpellsByte(u[3 * i..3 * i + 3], bytes[i])
    {
      assert u[3 * i..3 * i + 3] == s[3 * i..3 * i + 3];
      ReadIsByte(s, 3 * i);
    }
  }

  lemma Drops(s: string)
    ensures s[0..] == s
    ensures |s| >= 6 ==> s[3..][3..] == s[6..]
    ensures |s| >= 9 ==> s[6..][3..] == s[9..]
  {}

  lemma ShortSequence(s: string, n: nat)
    requires n < 0x80 && ReadByte(s) == Some(n)
    ensures ReadChar(s) == Some((n as char, 3))
  {
    hide ReadByte, ReadContinuation;
    NoContinuation(s[3..], n);
  }

  /** The bytes of a character are read as the character. */
  lemma SequenceIsRead(s: string, c: char)
    requires 3 * |Utf8(c as int)| <= |s| && SpellsBytes(s[..3 * |Utf8(c as int)|], Utf8(c as int))
    ensures ReadChar(s) == Some((c, 3 * |Utf8(c as int)|))
  {
    hide SpellsBytes, ReadByte, ReadChar;
    BytesAreRead(s, Utf8(c as int));
    if c as int < 0x80 {
      assert s[3 * 0..] == s && Utf8(c as int)[0] == c as int;
      ShortSequence(s, c as int);
    } else {
      LongSequence(s, c);
    }
  }

  lemma LongSequence(s: string, c: char)
    requires c as int >= 0x80 && 3 * |Utf8(c as int)| <= |s|
    requires forall i | 0 <= i < |Utf8(c as int)| :: ReadByte(s[3 * i..]) == Some(Utf8(c as int)[i])
    ensures ReadChar(s) == Some((c, 3 * |Utf8(c as int)|))
  {
    var n := c as int;
    hide ReadByte, ReadChar;
    Drops(s);
    Sextets(n);
    assert ReadByte(s[3 * 0..]) == Some(Utf8(n)[0]) && ReadByte(s[3 * 1..]) == Some(Utf8(n)[1]);
    if n < 0x800 {
      TwoBytes(s, n / 64, n % 64);
    } else if n < 0x10000 {
      assert ReadByte(s[3 * 2..]) == Some(Utf8(n)[2]);
      ThreeBytes(s, n / 4096, n / 64 % 64, n % 64);
    } else {
      assert ReadByte(s[3 * 2..]) == Some(Utf8(n)[2]) && ReadByte(s[3 * 3..]) == Some(Utf8(n)[3]);
      FourBytes(s, n / 262144, n / 4096 % 64, n / 64 % 64, n % 64);
    }
  }

  /** A continuation byte is there when a sequence asks for one. */
  lemma ContinuationByte(s: string, n: nat, bits: nat) returns (b: nat)
    requires n > 0 && ReadContinuation(s, n, bits).Some?
    ensures b < 64 && ReadByte(s) == Some(0x80 + b) && |s| >= 3
    ensures ReadContinuation(s, n, bits) == ReadContinuation(s[3..], n - 1, bits * 64 + b)
  {
    hide ReadByte;
    b := ReadByte(s).value % 64;
  }

  lemma ReadIsOne(s: string, b: nat)
    requires ReadByte(s) == Some(b) && b < 0x80
    ensures ReadChar(s) == Some((b as char, 3)) && |s| >= 3 && SpellsBytes(s[..3], Utf8(b))
  {
    hide SpellsBytes, ReadByte, ReadContinuation;
    NoContinuation(s[3..], b);
    Drops(s);
    ReadAreBytes(s, [b]);
  }

  lemma ReadIsTwo(s: string, a: nat)
    requires a < 32 && ReadByte(s) == Some(0xC0 + a) && ReadChar(s).Some?
    ensures ReadChar(s).value.1 == 6 <= |s| && SpellsBytes(s[..6], Utf8(ReadChar(s).value.0 as int))
  {
    hide ReadByte, ReadContinuation, SpellsBytes, Utf8;
    var b := ContinuationByte(s[3..], 1, a);
    TwoBytes(s, a, b);
    hide ReadChar;
    Drops(s);
    Utf8OfTwo(a, b);
    ReadAreBytes(s, [0xC0 + a, 0x80 + b]);
  }

  lemma ReadIsThree(s: string, a: nat)
    requires a < 16 && ReadByte(s) == Some(0xE0 + a) && ReadChar(s).Some?
    ensures ReadChar(s).value.1 == 9 <= |s| && SpellsBytes(s[..9], Utf8(ReadChar(s).value.0 as int))
  {
    hide ReadByte, ReadContinuation, SpellsBytes, Utf8;
    var b := ContinuationByte(s[3..], 2, a);
    var c := ContinuationByte(s[3..][3..], 1, a * 64 + b);
    ThreeBytes(s, a, b, c);
    hide ReadChar;
    Drops(s);
    Utf8OfThree(a, b, c);
    var bytes := [0xE0 + a, 0x80 + b, 0x80 + c];
    assert forall i | 0 <= i < 3 :: ReadByte(s[3 * i..]) == Some(bytes[i]) by {
      assert s[3 * 0..] == s && s[3 * 1..] == s[3..] && s[3 * 2..] == s[6..];
    }
    ReadAreBytes(s, bytes);
  }

  lemma ReadIsFour(s: string, a: nat)
    requires a < 8 && ReadByte(s) == Some(0xF0 + a) && ReadChar(s).Some?
    ensures ReadChar(s).value.1 == 12 <= |s| && SpellsBytes(s[..12], Utf8(ReadChar(s).value.0 as int))
  {
    hide ReadByte, ReadContinuation, SpellsBytes, Utf8;
    var b := ContinuationByte(s[3..], 3, a);
    var c := ContinuationByte(s[3..][3..], 2, a * 64 + b);
    var d := ContinuationByte(s[3..][3..][3..], 1, (a * 64 + b) * 64 + c);
    FourBytes(s, a, b, c, d);
    hide ReadChar;
    Drops(s);
    Utf8OfFour(a, b, c, d);
    var bytes := [0xF0 + a, 0x80 + b, 0x80 + c, 0x80 + d];
    assert forall i | 0 <= i < 4 :: ReadByte(s[3 * i..]) == Some(bytes[i]) by {
      assert s[3 * 0..] == s && s[3 * 1..] == s[3..] && s[3 * 2..] == s[6..] && s[3 * 3..] == s[9..];
    }
    ReadAreBytes(s, bytes);
  }

  /** The bytes that are read are those of the character. */
  lemma ReadIsSequence(s: string)
    requires ReadChar(s).Some?
    ensures ReadChar(s).value.1 <= |s| && Spells(s[..ReadChar(s).value.1], ReadChar(s).value.0)
  {
    var b := ReadByte(s).value;
    assert Lead(b).Some?;
    hide SpellsBytes, Utf8, ReadChar, ReadByte;
    if b < 0x80 {
      ReadIsOne(s, b);
    } else if b < 0xE0 {
      ReadIsTwo(s, b - 0xC0);
    } else if b < 0xF0 {
      ReadIsThree(s, b - 0xE0);
    } else {
      ReadIsFour(s, b - 0xF0);
    }
  }

  lemma SpelledBegins(u: string, bytes: seq<int>)
    requires SpellsBytes(u, bytes) && bytes != []
    ensures |u| >= 3 && u[0] == '%'
  {
    assert SpellsByte(u[3 * 0..3 * 0 + 3], bytes[0]);
    assert u[0..3][0] == u[0];
  }

  /** The front of a text that spells `c` is read as `c`. */
  lemma FrontIsRead(s: string, k: nat, c: char)
    requires 0 < k <= |s| && Spells(s[..k], c)
    ensures Decode(s) == Prepend(c, Decode(s[k..]))
  {
    hide ReadChar, SpellsBytes;
    var u := s[..k];
    assert s[0] == u[0];
    if u == [c] && c != '%' {
      assert k == 1;
    } else {
      assert Utf8(c as int) != [];
      SpelledBegins(u, Utf8(c as int));
      assert k == 3 * |Utf8(c as int)| by {
        LengthOfBytes(u, Utf8(c as int));
      }
      hide Utf8;
      SequenceIsRead(s, c);
    }
  }

  lemma LengthOfBytes(u: string, bytes: seq<int>)
    requires SpellsBytes(u, bytes)
    ensures |u| == 3 * |bytes|
  {}

  /** `decodeURIComponent` accepts exactly the spellings of a text, and gives that text. */
  lemma {:induction false} DecodeIsExact(s: string, t: string)
    ensures Decode(s) == Some(t) <==> Spelling(s, t)
    decreases |s|
  {
    hide ReadChar, Spells;
    if Spelling(s, t) {
      SpellingIsDecoded(s, t);
    }
    if Decode(s) == Some(t) && s != "" {
      var k, c := DecodedFront(s);
      DecodeIsExact(s[k..], t[1..]);
      hide Decode;
    }
  }

  lemma SpellingFront(s: string, t: string) returns (k: nat)
    requires t != "" && Spelling(s, t)
    ensures 0 < k <= |s| && Spells(s[..k], t[0]) && Spelling(s[k..], t[1..])
  {
    hide Spells;
    k :| 0 < k <= |s| && Spells(s[..k], t[0]) && Spelling(s[k..], t[1..]);
  }

  lemma {:induction false} SpellingIsDecoded(s: string, t: string)
    requires Spelling(s, t)
    ensures Decode(s) == Some(t)
    decreases |t|
  {
    hide Spells, ReadChar;
    if t != "" {
      hide Decode, Spelling;
      var k := SpellingFront(s, t);
      FrontIsRead(s, k, t[0]);
      SpellingIsDecoded(s[k..], t[1..]);
      assert [t[0]] + t[1..] == t;
    }
  }

  lemma DecodedFront(s: string) returns (k: nat, c: char)
    requires s != "" && Decode(s).Some?
    ensures 0 < k <= |s| && Spells(s[..k], c) && Decode(s) == Prepend(c, Decode(s[k..]))
  {
    if s[0] != '%' {
      k, c := 1, s[0];
      assert s[..1] == [s[0]];
    } else {
      ReadIsSequence(s);
      k, c := ReadChar(s).value.1, ReadChar(s).value.0;
      hide Spells, ReadChar;
    }
  }

  lemma HexDigitIsHex(n: nat)
    requires n < 16
    ensures JsonGrammar.IsHex(HexDigit(n), n)
  {}

  lemma EncodedByteSpells(b: nat)
    requires b < 256
    ensures SpellsByte(EncodeByte(b), b)
  {
    var high, low := b / 16, b % 16;
    HexDigitIsHex(high);
    HexDigitIsHex(low);
    var u := EncodeByte(b);
    assert JsonGrammar.IsHex(u[1], high) && JsonGrammar.IsHex(u[2], low);
    hide JsonGrammar.IsHex, HexDigit;
  }

  /** Several bytes spelled one after the other. */
  lemma SpellsBytesCons(u: string, b: int, v: string, bytes: seq<int>)
    requires SpellsByte(u, b) && SpellsBytes(v, bytes)
    ensures SpellsBytes(u + v, [b] + bytes)
  {
    hide SpellsByte;
    var w, all := u + v, [b] + bytes;
    assert |u| == 3 by {
      ByteLength(u, b);
    }
    forall i | 0 <= i < |all|
      ensures SpellsByte(w[3 * i..3 * i + 3], all[i])
    {
      if i == 0 {
        assert w[0..3] == u;
      } else {
        assert w[3 * i..3 * i + 3] == v[3 * (i - 1)..3 * (i - 1) + 3];
      }
    }
  }

  lemma ByteLength(u: string, b: int)
    requires SpellsByte(u, b)
    ensures |u| == 3
  {}

  lemma OneEncoded(a: nat)
    requires a < 256
    ensures SpellsBytes(EncodeByte(a), [a])
  {
    EncodedByteSpells(a);
    hide EncodeByte, SpellsByte;
    assert SpellsBytes("", []);
    SpellsBytesCons(EncodeByte(a), a, "", []);
    assert EncodeByte(a) + "" == EncodeByte(a) && [a] + [] == [a];
  }

  lemma MoreEncoded(a: nat, v: string, bytes: seq<int>)
    requires a < 256 && SpellsBytes(v, bytes)
    ensures SpellsBytes(EncodeByte(a) + v, [a] + bytes)
  {
    EncodedByteSpells(a);
    hide EncodeByte, SpellsByte, SpellsBytes;
    SpellsBytesCons(EncodeByte(a), a, v, bytes);
  }

  lemma EncodedCharSpells(c: char)
    ensures EncodeChar(c) != "" && Spells(EncodeChar(c), c)
  {
    var n := c as int;
    hide EncodeByte, SpellsBytes;
    if Unreserved(c) {
      assert c != '%';
    } else if n < 0x80 {
      OneEncoded(n);
    } else if n < 0x800 {
      var a, b := 0xC0 + n / 64, 0x80 + n % 64;
      OneEncoded(b);
      MoreEncoded(a, EncodeByte(b), [b]);
      assert [a] + [b] == [a, b];
    } else if n < 0x10000 {
      var a, b, d := 0xE0 + n / 4096, 0x80 + n / 64 % 64, 0x80 + n % 64;
      OneEncoded(d);
      MoreEncoded(b, EncodeByte(d), [d]);
      MoreEncoded(a, EncodeByte(b) + EncodeByte(d), [b] + [d]);
      assert [a] + ([b] + [d]) == [a, b, d];
      Regroup(EncodeByte(a), EncodeByte(b), "", "", EncodeByte(d));
    } else {
      var a, b, d, e := 0xF0 + n / 262144, 0x80 + n / 4096 % 64, 0x80 + n / 64 % 64, 0x80 + n % 64;
      OneEncoded(e);
      MoreEncoded(d, EncodeByte(e), [e]);
      MoreEncoded(b, EncodeByte(d) + EncodeByte(e), [d] + [e]);
      MoreEncoded(a, EncodeByte(b) + (EncodeByte(d) + EncodeByte(e)), [b] + ([d] + [e]));
      assert [a] + ([b] + ([d] + [e])) == [a, b, d, e];
      Regroup(EncodeByte(a), EncodeByte(b), EncodeByte(d), "", EncodeByte(e));
    }
  }

  /** Decoding gives back every text that was encoded. */
  lemma {:induction false} RoundTrip(s: string)
    ensures Decode(Encode(s)) == Some(s)
    decreases |s|
  {
    if s != [] {
      var u, e := EncodeChar(s[0]), Encode(s);
      EncodedCharSpells(s[0]);
      assert e[..|u|] == u && e[|u|..] == Encode(s[1..]);
      hide EncodeChar, Spells, Encode, Decode;
      FrontIsRead(e, |u|, s[0]);
      RoundTrip(s[1..]);
      assert [s[0]] + s[1..] == s;
    }
  }

  predicate CookieSafe(c: char)
  {
    Unreserved(c) || c == '%'
  }

  lemma HexDigitIsSafe(n: nat)
    requires n < 16
    ensures Unreserved(HexDigit(n))
  {}

  lemma EncodedCharIsSafe(c: char)
    ensures forall x | x in EncodeChar(c) :: CookieSafe(x)
  {
    forall b: nat | b < 256
      ensures forall x | x in EncodeByte(b) :: CookieSafe(x)
    {
      HexDigitIsSafe(b / 16);
      HexDigitIsSafe(b % 16);
    }
    hide EncodeByte, CookieSafe;
  }

  /** Encoded text holds unreserved characters and percent signs only. */
  lemma {:induction false} EncodedIsSafe(s: string)
    ensures forall c | c in Encode(s) :: CookieSafe(c)
    decreases |s|
  {
    if s != [] {
      EncodedCharIsSafe(s[0]);
      hide EncodeChar, CookieSafe;
      EncodedIsSafe(s[1..]);
    }
  }

  /** Text without a percent sign decodes to itself. */
  lemma {:induction false} PlainDecodes(s: string)
    requires '%' !in s
    ensures Decode(s) == Some(s)
    decreases |s|
  {
    if s != [] {
      PlainDecodes(s[1..]);
      assert [s[0]] + s[1..] == s;
    }
  }

  lemma {:induction false} DecodeIsNoLonger(s: string)
    requires Decode(s).Some?
    ensures |Decode(s).value| <= |s|
    decreases |s|
  {
    hide ReadChar;
    if s != [] {
      DecodeIsNoLonger(if s[0] != '%' then s[1..] else s[ReadChar(s).value.1..]);
    }
  }

  /** Encoding leaves exactly the texts of unreserved characters alone; all others get percent signs. */
  lemma {:induction false} EncodeKeepsUnreserved(s: string)
    ensures |Encode(s)| >= |s|
    ensures (forall c | c in s :: Unreserved(c)) ==> Encode(s) == s
    ensures (exists c | c in s :: !Unreserved(c)) ==> |Encode(s)| > |s| && '%' in Encode(s)
    decreases |s|
  {
    if s != [] {
      EncodeKeepsUnreserved(s[1..]);
      assert s == [s[0]] + s[1..];
      assert Unreserved(s[0]) || (|EncodeChar(s[0])| >= 3 && EncodeChar(s[0])[0] == '%');
      hide Unreserved, EncodeChar;
    }
  }

  lemma ContainsLater(s: string, part: string)
    requires s != [] && part != [] && part[0] != s[0]
    ensures Contains(s, part) <==> Contains(s[1..], part)
  {}

  /** An encoded byte does not stand across two encoded bytes. */
  lemma PartInByte(b: nat, tail: string, part: string)
    requires b < 256 && |part| == 3 && part[0] == '%'
    ensures Contains(EncodeByte(b) + tail, part) <==> EncodeByte(b) == part || Contains(tail, part)
  {
    var s := EncodeByte(b) + tail;
    HexDigitIsSafe(b / 16);
    HexDigitIsSafe(b % 16);
    assert s[1..][1..][1..] == tail;
    assert s[..3] == EncodeByte(b);
    assert part <= s <==> part == s[..3];
    assert Contains(s, part) <==> part <= s || Contains(s[1..], part);
    ContainsLater(s[1..], part);
    ContainsLater(s[1..][1..], part);
  }

  /** Nor does one with the high digit 7 stand anywhere in a longer character's bytes. */
  lemma PartInHighByte(b: nat, tail: string, part: string)
    requires 0x80 <= b < 256 && |part| == 3 && part[0] == '%' && part[1] == '7'
    ensures Contains(EncodeByte(b) + tail, part) <==> Contains(tail, part)
  {
    PartInByte(b, tail, part);
    assert EncodeByte(b)[1] == HexDigit(b / 16) != '7';
  }

  lemma Regroup(a: string, b: string, c: string, d: string, tail: string)
    ensures a + b + tail == a + (b + tail)
    ensures a + b + c + tail == a + (b + (c + tail))
    ensures a + b + c + d + tail == a + (b + (c + (d + tail)))
  {}

  lemma PartInChar(c: char, tail: string, part: string)
    requires |part| == 3 && part[0] == '%' && part[1] == '7'
    ensures Contains(EncodeChar(c) + tail, part) <==> EncodeChar(c) == part || Contains(tail, part)
  {
    hide Contains, EncodeByte;
    var n := c as int;
    if Unreserved(c) {
      assert ([c] + tail)[1..] == tail;
      ContainsLater([c] + tail, part);
    } else if n < 0x80 {
      PartInByte(n, tail, part);
    } else if n < 0x800 {
      Regroup(EncodeByte(0xC0 + n / 64), EncodeByte(0x80 + n % 64), "", "", tail);
      PartInHighByte(0x80 + n % 64, tail, part);
      PartInHighByte(0xC0 + n / 64, EncodeByte(0x80 + n % 64) + tail, part);
    } else if n < 0x10000 {
      var a, b, d := EncodeByte(0xE0 + n / 4096), EncodeByte(0x80 + n / 64 % 64), EncodeByte(0x80 + n % 64);
      Regroup(a, b, d, "", tail);
      PartInHighByte(0x80 + n % 64, tail, part);
      PartInHighByte(0x80 + n / 64 % 64, d + tail, part);
      PartInHighByte(0xE0 + n / 4096, b + (d + tail), part);
    } else {
      var a, b := EncodeByte(0xF0 + n / 262144), EncodeByte(0x80 + n / 4096 % 64);
      var d, e := EncodeByte(0x80 + n / 64 % 64), EncodeByte(0x80 + n % 64);
      Regroup(a, b, d, e, tail);
      PartInHighByte(0x80 + n % 64, tail, part);
      PartInHighByte(0x80 + n / 64 % 64, e + tail, part);
      PartInHighByte(0x80 + n / 4096 % 64, d + (e + tail), part);
      PartInHighByte(0xF0 + n / 262144, b + (d + (e + tail)), part);
    }
  }

  ghost predicate HasCode(s: string, code: string)
  {
    exists c :: c in s && EncodeChar(c) == code
  }

  lemma HasCodeStep(s: string, code: string)
    requires s != []
    ensures HasCode(s, code) <==> EncodeChar(s[0]) == code || HasCode(s[1..], code)
  {
    hide EncodeChar;
    assert forall c :: c in s <==> c == s[0] || c in s[1..];
  }

  /** A sequence such as `%7B` stands in an encoded text exactly when its character stands in the text. */
  lemma {:induction false} PartInEncoded(s: string, part: string)
    requires |part| == 3 && part[0] == '%' && part[1] == '7'
    ensures Contains(Encode(s), part) <==> HasCode(s, part)
    decreases |s|
  {
    if s != [] {
      hide Contains, EncodeChar, HasCode;
      PartInChar(s[0], Encode(s[1..]), part);
      PartInEncoded(s[1..], part);
      HasCodeStep(s, part);
    }
  }
}
