/** Shared vocabulary: options, results, and the JavaScript string operations the services use. */
module Prelude {

  datatype Option<+T> = None | Some(value: T)

  datatype Result<+T, +E> = Ok(value: T) | Err(error: E)

  function Max(a: int, b: int): int { if a < b then b else a }

  function Min(a: int, b: int): int { if a < b then a else b }

  /** The quotient rounded up, as `Math.ceil(a / b)` gives it for a positive divisor. */
  function CeilDiv(a: int, b: int): (q: int)
    requires b > 0
    ensures b * (q - 1) < a <= b * q
  {
    -((-a) / b)
  }

  /** The position of the first `c` in `s`, or -1. */
  function IndexOf(s: string, c: char): (i: int)
    ensures -1 <= i < |s|
    ensures i == -1 <==> c !in s
    ensures i >= 0 ==> s[i] == c && c !in s[..i]
  {
    if s == [] then -1
    else if s[0] == c then 0
    else
      var rest := IndexOf(s[1..], c);
      if rest == -1 then -1
      else
        assert s[..rest + 1] == [s[0]] + s[1..][..rest];
        rest + 1
  }

  lemma IndexOfFirst(a: string, c: char, b: string)
    requires c !in a
    ensures IndexOf(a + [c] + b, c) == |a|
  {
    var s := a + [c] + b;
    assert s[|a|] == c;
    var i := IndexOf(s, c);
    assert forall j | 0 <= j < |a| :: s[j] == a[j];
    assert forall k | |a| < k <= |s| :: s[..k][|a|] == c;
  }

  /** A separator cuts a text in one way only when the left part is free of it. */
  lemma CutAtFirst(c: char, a: string, x: string, b: string, y: string)
    requires c !in a && c !in b
    requires a + [c] + x == b + [c] + y
    ensures a == b && x == y
  {
    IndexOfFirst(a, c, x);
    IndexOfFirst(b, c, y);
    assert a == (a + [c] + x)[..|a|];
    assert b == (b + [c] + y)[..|b|];
    assert x == (a + [c] + x)[|a| + 1..];
    assert y == (b + [c] + y)[|b| + 1..];
  }

  /** A separator that occurs once cuts a text in one way. */
  lemma CutAtOnly(c: char, a: string, x: string, b: string, y: string)
    requires c !in a && c !in x
    requires a + [c] + x == b + [c] + y
    ensures a == b && x == y
  {
    var s := a + [c] + x;
    assert s == b + [c] + y;
    assert s[|b|] == c;
    assert forall k | 0 <= k < |a| :: s[k] == a[k];
    assert forall k | |a| < k < |s| :: s[k] == x[k - |a| - 1];
    assert |b| == |a|;
    assert a == s[..|a|] && b == s[..|b|];
    assert x == s[|a| + 1..] && y == s[|b| + 1..];
  }

  /** A separator cuts a text in one way when both right parts are free of it. */
  lemma CutAtLast(c: char, a: string, x: string, b: string, y: string)
    requires c !in x && c !in y
    requires a + [c] + x == b + [c] + y
    ensures a == b && x == y
  {
    var s := a + [c] + x;
    assert s == b + [c] + y;
    assert s[|a|] == c && s[|b|] == c;
    assert forall k | |a| < k < |s| :: s[k] == x[k - |a| - 1];
    assert forall k | |b| < k < |s| :: s[k] == y[k - |b| - 1];
    assert |a| == |b|;
    assert a == s[..|a|] && b == s[..|b|];
    assert x == s[|a| + 1..] && y == s[|b| + 1..];
  }

  /** A text cut at a separator in two ways: the shorter left part and its separator begin the longer. */
  lemma CutTwice(c: char, a: string, x: string, b: string, y: string)
    requires a + [c] + x == b + [c] + y
    ensures a == b || (a + [c] <= b && c in b) || (b + [c] <= a && c in a)
    ensures a == b ==> x == y
  {
    var s := a + [c] + x;
    assert s == b + [c] + y;
    assert a == s[..|a|] && b == s[..|b|];
    assert s[|a|] == c && s[|b|] == c;
    assert x == s[|a| + 1..] && y == s[|b| + 1..];
    assert |a| < |b| ==> b[..|a|] == a && b[|a|] == c;
    assert |b| < |a| ==> a[..|b|] == b && a[|b|] == c;
  }

  predicate EndsWith(s: string, tail: string)
  {
    |tail| <= |s| && s[|s| - |tail|..] == tail
  }

  /** The same from the end: the separator and the shorter right part end the longer. */
  lemma CutTwiceFromEnd(c: char, a: string, x: string, b: string, y: string)
    requires a + [c] + x == b + [c] + y
    ensures x == y || (EndsWith(y, [c] + x) && c in y) || (EndsWith(x, [c] + y) && c in x)
    ensures x == y ==> a == b
  {
    var s := a + [c] + x;
    assert s == b + [c] + y;
    assert a == s[..|a|] && b == s[..|b|];
    assert s[|a|..] == [c] + x && s[|b|..] == [c] + y;
    assert x == s[|a| + 1..] && y == s[|b| + 1..];
    if |a| < |b| {
      assert x[|b| - |a| - 1..] == s[|b|..] && x[|b| - |a| - 1] == c;
    } else if |b| < |a| {
      assert y[|a| - |b| - 1..] == s[|a|..] && y[|a| - |b| - 1] == c;
    }
  }

  /** Two texts behind the same prefix are equal exactly when the whole texts are. */
  lemma CancelPrefix(p: string, a: string, b: string)
    ensures p + a == p + b <==> a == b
  {
    assert (p + a)[|p|..] == a;
    assert (p + b)[|p|..] == b;
  }

  predicate Contains(s: string, part: string)
  {
    part <= s || (s != [] && Contains(s[1..], part))
  }

  lemma {:induction false} ContainsPart(s: string, part: string, i: nat)
    requires i + |part| <= |s| && s[i..i + |part|] == part
    ensures Contains(s, part)
    decreases i
  {
    if i > 0 {
      assert s[1..][i - 1..i - 1 + |part|] == s[i..i + |part|];
      ContainsPart(s[1..], part, i - 1);
    }
  }

  /** Where the part stands. */
  lemma {:induction false} PartOf(s: string, part: string) returns (i: nat)
    requires Contains(s, part)
    ensures i + |part| <= |s| && s[i..i + |part|] == part
    ensures s == s[..i] + part + s[i + |part|..]
  {
    i := 0;
    if !(part <= s) {
      var j := PartOf(s[1..], part);
      i := j + 1;
      assert s[i..i + |part|] == s[1..][j..j + |part|];
    }
  }

  /** White space and line terminators, as `String.prototype.trim` removes them. */
  predicate IsSpace(c: char)
  {
    c in {'\t', '\n', '\U{b}', '\U{c}', '\r', ' ', '\U{a0}', '\U{1680}',
          '\U{2028}', '\U{2029}', '\U{202f}', '\U{205f}', '\U{3000}', '\U{feff}'}
    || '\U{2000}' <= c <= '\U{200a}'
  }

  /** WhiteSpace and LineTerminator of ECMA-262, by their code points. */
  lemma SpacesAreExact(c: char)
    ensures IsSpace(c) <==>
              var n := c as int;
              || 0x09 <= n <= 0x0D || n == 0x20 || n == 0xA0 || n == 0x1680 || 0x2000 <= n <= 0x200A
              || n == 0x2028 || n == 0x2029 || n == 0x202F || n == 0x205F || n == 0x3000 || n == 0xFEFF
  {}

  function TrimStart(s: string): string
  {
    if s != [] && IsSpace(s[0]) then TrimStart(s[1..]) else s
  }

  function TrimEnd(s: string): string
  {
    if s != [] && IsSpace(s[|s| - 1]) then TrimEnd(s[..|s| - 1]) else s
  }

  function Trim(s: string): string { TrimEnd(TrimStart(s)) }

  /** No white space at either end. */
  predicate Trimmed(s: string)
  {
    s == [] || (!IsSpace(s[0]) && !IsSpace(s[|s| - 1]))
  }

  lemma TrimKeepsTrimmed(s: string)
    requires Trimmed(s)
    ensures Trim(s) == s
  {}

  lemma TrimEndTrims(s: string)
    requires s == [] || !IsSpace(s[0])
    ensures Trimmed(TrimEnd(s))
  {}

  lemma TrimStartTrims(s: string)
    ensures TrimStart(s) == [] || !IsSpace(TrimStart(s)[0])
  {}

  lemma TrimTrims(s: string)
    ensures Trimmed(Trim(s)) && Trim(Trim(s)) == Trim(s)
  {
    TrimStartTrims(s);
    TrimEndTrims(TrimStart(s));
    TrimKeepsTrimmed(Trim(s));
  }

  ghost predicate AllSpace(s: string)
  {
    forall c | c in s :: IsSpace(c)
  }

  lemma {:induction false} TrimStartIsExact(s: string) returns (left: string)
    ensures s == left + TrimStart(s) && AllSpace(left)
    decreases |s|
  {
    left := "";
    if s != [] && IsSpace(s[0]) {
      var rest := TrimStartIsExact(s[1..]);
      left := [s[0]] + rest;
    }
    hide IsSpace;
  }

  lemma {:induction false} TrimEndIsExact(s: string) returns (right: string)
    ensures s == TrimEnd(s) + right && AllSpace(right)
    decreases |s|
  {
    right := "";
    if s != [] && IsSpace(s[|s| - 1]) {
      var rest := TrimEndIsExact(s[..|s| - 1]);
      right := rest + [s[|s| - 1]];
    }
    hide IsSpace;
  }

  /** Trimming takes away white space at both ends, all of it and nothing else. */
  lemma TrimIsExact(s: string) returns (left: string, right: string)
    ensures s == left + Trim(s) + right && AllSpace(left) && AllSpace(right) && Trimmed(Trim(s))
  {
    left := TrimStartIsExact(s);
    right := TrimEndIsExact(TrimStart(s));
    TrimTrims(s);
    hide IsSpace, TrimStart, TrimEnd, Trimmed;
  }

  lemma TrimAfterSpace(s: string)
    ensures Trim(" " + s) == Trim(s)
  {}

  /** The pieces of `s` between occurrences of `sep`; always at least one. */
  function Split(s: string, sep: char): (parts: seq<string>)
    ensures |parts| >= 1
    decreases |s|
  {
    var i := IndexOf(s, sep);
    if i == -1 then [s] else [s[..i]] + Split(s[i + 1..], sep)
  }

  function Join(parts: seq<string>, sep: char): string
  {
    if parts == [] then ""
    else if |parts| == 1 then parts[0]
    else parts[0] + [sep] + Join(parts[1..], sep)
  }

  lemma SplitUnfold(s: string, sep: char)
    ensures
      var i := IndexOf(s, sep);
      Split(s, sep) == if i == -1 then [s] else [s[..i]] + Split(s[i + 1..], sep)
  {
    hide IndexOf;
  }

  /** The pieces, joined again, are the text, and none of them holds the separator. */
  lemma {:induction false} SplitIsExact(s: string, sep: char)
    ensures Join(Split(s, sep), sep) == s
    ensures forall i | 0 <= i < |Split(s, sep)| :: sep !in Split(s, sep)[i]
    decreases |s|
  {
    hide IndexOf, Split;
    SplitUnfold(s, sep);
    var i := IndexOf(s, sep);
    if i != -1 {
      var first, rest := s[..i], s[i + 1..];
      SplitIsExact(rest, sep);
      assert s == first + [sep] + rest;
      assert ([first] + Split(rest, sep))[1..] == Split(rest, sep);
    }
  }

  lemma SplitAtFirst(a: string, sep: char, b: string)
    requires sep !in a
    ensures Split(a + [sep] + b, sep) == [a] + Split(b, sep)
  {
    IndexOfFirst(a, sep, b);
    var s := a + [sep] + b;
    assert s[..|a|] == a;
    assert s[|a| + 1..] == b;
  }
}
