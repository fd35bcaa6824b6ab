/** Where a request's event id comes from: variables, a header, or the active-event cookie. */
module EventId {
  import opened Prelude
  import Json
  import opened JsonDocument
  import Percent

  const ACTIVE_EVENT_COOKIE := "activeEvent"

  // ---------------------------------------------------------------- the cookie header

  datatype Cookie = Cookie(name: string, value: string)

  /** The value of the first piece `key=value` whose trimmed key is `name`. */
  function FindPiece(pieces: seq<string>, name: string): Option<string>
  {
    if pieces == [] then None
    else
      var i := IndexOf(pieces[0], '=');
      if i != -1 && Trim(pieces[0][..i]) == name then Some(Trim(pieces[0][i + 1..]))
      else FindPiece(pieces[1..], name)
  }

  /** A parsed cookie wins; otherwise the header is searched. */
  function CookieValue(parsed: Option<string>, header: Option<string>, name: string): Option<string>
  {
    if parsed.Some? then parsed
    else if header.None? then None
    else FindPiece(Split(header.value, ';'), name)
  }

  lemma FindPieceEnd(name: string)
    ensures FindPiece([], name) == None
  {}

  lemma FindPieceStep(pieces: seq<string>, n: nat, name: string)
    requires n < |pieces|
    ensures
      var i := IndexOf(pieces[n], '=');
      FindPiece(pieces[n..], name) ==
        if i != -1 && Trim(pieces[n][..i]) == name then Some(Trim(pieces[n][i + 1..]))
        else FindPiece(pieces[n + 1..], name)
  {}

  /** Piece `n` of a header is `name=v`, give or take white space around either; `v` may hold further signs. */
  ghost predicate IsNamed(pieces: seq<string>, n: int, name: string, v: string)
  {
    0 <= n < |pieces| && exists left, right ::
      && pieces[n] == left + "=" + right && '=' !in left
      && Trim(left) == name && Trim(right) == v
  }

  lemma NamedPiece(pieces: seq<string>, n: nat, name: string)
    requires n < |pieces|
    ensures
      var i := IndexOf(pieces[n], '=');
      forall v :: IsNamed(pieces, n, name, v) <==>
        i != -1 && Trim(pieces[n][..i]) == name && Trim(pieces[n][i + 1..]) == v
  {
    hide Trim;
    var i := IndexOf(pieces[n], '=');
    if i != -1 {
      assert pieces[n] == pieces[n][..i] + "=" + pieces[n][i + 1..];
    }
    forall left, right | pieces[n] == left + "=" + right && '=' !in left
      ensures i == |left| && pieces[n][..i] == left && pieces[n][i + 1..] == right
    {
      IndexOfFirst(left, '=', right);
    }
  }

  method ReadCookie(parsed: Option<string>, header: Option<string>, name: string) returns (r: Option<string>)
    ensures r == CookieValue(parsed, header, name)
    ensures parsed.Some? ==> r == parsed
    ensures parsed.None? && header.None? ==> r == None
    ensures parsed.None? && header.Some? && r.Some? ==>
              exists n :: IsNamed(Split(header.value, ';'), n, name, r.value)
                          && forall m, v | 0 <= m < n :: !IsNamed(Split(header.value, ';'), m, name, v)
    ensures parsed.None? && header.Some? && r.None? ==>
              forall n, v | 0 <= n < |Split(header.value, ';')| :: !IsNamed(Split(header.value, ';'), n, name, v)
  {
    hide FindPiece, Trim, IsNamed, Split, IndexOf;
    if parsed.Some? {
      return parsed;
    }
    if header.None? {
      return None;
    }
    var pairs := Split(header.value, ';');
    for n := 0 to |pairs|
      invariant FindPiece(pairs, name) == FindPiece(pairs[n..], name)
      invariant forall m, v | 0 <= m < n :: !IsNamed(pairs, m, name, v)
    {
      FindPieceStep(pairs, n, name);
      NamedPiece(pairs, n, name);
      var separator := IndexOf(pairs[n], '=');
      if separator == -1 {
        continue;
      }
      var key := Trim(pairs[n][..separator]);
      if key == name {
        var value := Trim(pairs[n][separator + 1..]);
        assert IsNamed(pairs, n, name, value);
        return Some(value);
      }
    }
    assert pairs[|pairs|..] == [] && pairs[0..] == pairs;
    FindPieceEnd(name);
    return None;
  }

  /** Cookies as section 4.2.1 of RFC 6265 prints them. */
  function PrintCookies(cookies: seq<Cookie>): string
  {
    if cookies == [] then ""
    else if |cookies| == 1 then PrintCookie(cookies[0])
    else PrintCookie(cookies[0]) + "; " + PrintCookies(cookies[1..])
  }

  function PrintCookie(c: Cookie): string { c.name + "=" + c.value }

  ghost predicate WellFormed(c: Cookie)
  {
    && '=' !in c.name && ';' !in c.name && Trimmed(c.name)
    && ';' !in c.value && Trimmed(c.value)
  }

  /** What a reader of the printed cookies should find. */
  function FirstNamed(cookies: seq<Cookie>, name: string): Option<string>
  {
    if cookies == [] then None
    else if cookies[0].name == name then Some(cookies[0].value)
    else FirstNamed(cookies[1..], name)
  }

  lemma TrimDropsLeadingSpace(pad: string, s: string)
    requires (pad == "" || pad == " ") && Trimmed(s)
    ensures Trim(pad + s) == s
  {
    assert "" + s == s;
    TrimAfterSpace(s);
    TrimKeepsTrimmed(s);
  }

  /** One printed cookie, perhaps after a blank, is found under its own name only. */
  lemma PieceIsFound(pad: string, c: Cookie, rest: seq<string>, name: string)
    requires (pad == "" || pad == " ") && WellFormed(c)
    ensures FindPiece([pad + PrintCookie(c)] + rest, name)
              == if c.name == name then Some(c.value) else FindPiece(rest, name)
  {
    var piece := pad + PrintCookie(c);
    assert piece == (pad + c.name) + "=" + c.value;
    IndexOfFirst(pad + c.name, '=', c.value);
    assert piece[..|pad + c.name|] == pad + c.name;
    assert piece[|pad + c.name| + 1..] == c.value;
    TrimDropsLeadingSpace(pad, c.name);
    TrimKeepsTrimmed(c.value);
    assert ([piece] + rest)[1..] == rest;
  }

  lemma JoinAtSemicolon(pad: string, x: string, y: string)
    ensures pad + (x + "; " + y) == (pad + x) + [';'] + (" " + y)
  {}

  lemma {:induction false} PrintedAreFound(pad: string, cookies: seq<Cookie>, name: string)
    requires (pad == "" || pad == " ") && forall i | 0 <= i < |cookies| :: WellFormed(cookies[i])
    ensures FindPiece(Split(pad + PrintCookies(cookies), ';'), name) == FirstNamed(cookies, name)
    decreases |cookies|
  {
    if cookies == [] {
      assert pad + "" == pad && ';' !in pad && '=' !in pad;
    } else {
      var piece := pad + PrintCookie(cookies[0]);
      assert ';' !in piece;
      if |cookies| == 1 {
        PieceIsFound(pad, cookies[0], [], name);
        assert [piece] + [] == [piece];
      } else {
        var after := " " + PrintCookies(cookies[1..]);
        JoinAtSemicolon(pad, PrintCookie(cookies[0]), PrintCookies(cookies[1..]));
        SplitAtFirst(piece, ';', after);
        PieceIsFound(pad, cookies[0], Split(after, ';'), name);
        PrintedAreFound(" ", cookies[1..], name);
        hide FindPiece, Split, PrintCookies, PrintCookie, WellFormed;
      }
    }
  }

  /** Reading a printed cookie header gives the value of the first cookie with the name, or nothing. */
  lemma CookieRoundTrip(cookies: seq<Cookie>, name: string)
    requires forall i | 0 <= i < |cookies| :: WellFormed(cookies[i])
    ensures CookieValue(None, Some(PrintCookies(cookies)), name) == FirstNamed(cookies, name)
  {
    PrintedAreFound("", cookies, name);
    assert "" + PrintCookies(cookies) == PrintCookies(cookies);
  }

  // ---------------------------------------------------------------- the event reference

  /** Whether the text holds an encoded brace. */
  predicate LooksEncoded(s: string)
  {
    Contains(s, "%7B") || Contains(s, "%7b") || Contains(s, "%7D") || Contains(s, "%7d")
  }

  predicate Blank(s: string) { Trim(s) == "" }

  /** What one candidate text gives: an id, or nothing. Reading `id` of null is an error like bad JSON. */
  function Judge(candidate: string): Option<string>
  {
    match Json.FromText(candidate)
    case Some(Obj(fields)) =>
      if "id" in fields && fields["id"].Str? && !Blank(fields["id"].s) then Some(fields["id"].s) else None
    case Some(Null) => AsPlain(candidate)
    case Some(_) => None
    case None => AsPlain(candidate)
  }

  /** A candidate that is not JSON is an id itself unless it looks like broken JSON. */
  function AsPlain(candidate: string): Option<string>
  {
    if !Blank(candidate) && '{' !in candidate && !LooksEncoded(candidate) then Some(candidate) else None
  }

  function Candidates(raw: string): seq<string>
  {
    match Percent.Decode(raw)
    case None => [raw]
    case Some(decoded) => [raw, decoded]
  }

  function FirstJudged(candidates: seq<string>): Option<string>
  {
    if candidates == [] then None
    else if Judge(candidates[0]).Some? then Judge(candidates[0])
    else FirstJudged(candidates[1..])
  }

  /** The id in an active-event cookie. */
  function FromCookie(raw: Option<string>): Option<string>
  {
    if raw.None? || raw.value == "" then None else FirstJudged(Candidates(raw.value))
  }

  /** A candidate text yields an id: the text of its field `id`, or itself when it is no JSON and no broken JSON. */
  ghost predicate Yields(candidate: string, id: string)
  {
    match Json.FromText(candidate)
    case Some(Obj(fields)) => "id" in fields && fields["id"] == Json.Str(id) && Trim(id) != ""
    case Some(Bool(_)) => false
    case Some(Num) => false
    case Some(Str(_)) => false
    case Some(Arr(_)) => false
    case _ =>
      && id == candidate && Trim(id) != "" && '{' !in id
      && !Contains(id, "%7B") && !Contains(id, "%7b") && !Contains(id, "%7D") && !Contains(id, "%7d")
  }

  lemma JudgedIsYielded(candidate: string)
    ensures forall id :: Judge(candidate) == Some(id) <==> Yields(candidate, id)
  {
    hide Json.FromText, Contains, Trim;
  }

  lemma CookieYields(text: string)
    requires text != ""
    ensures
      var decoded, id := Percent.Decode(text), FromCookie(Some(text));
      && (id.Some? ==>
            || Yields(text, id.value)
            || (decoded.Some? && Yields(decoded.value, id.value) && forall x :: !Yields(text, x)))
      && (id.None? ==>
            && (forall x :: !Yields(text, x))
            && (decoded.Some? ==> forall x :: !Yields(decoded.value, x)))
  {
    hide Judge, Yields, FromCookie;
    RawThenDecoded(text);
    JudgedIsYielded(text);
    if Percent.Decode(text).Some? {
      JudgedIsYielded(Percent.Decode(text).value);
    }
  }

  method ParseActiveEventCookie(raw: Option<string>) returns (id: Option<string>)
    ensures id == FromCookie(raw)
    ensures raw.None? || raw.value == "" ==> id == None
    ensures raw.Some? && raw.value != "" ==>
              var decoded := Percent.Decode(raw.value);
              && (id.Some? ==>
                    || Yields(raw.value, id.value)
                    || (decoded.Some? && Yields(decoded.value, id.value) && forall x :: !Yields(raw.value, x)))
              && (id.None? ==>
                    && (forall x :: !Yields(raw.value, x))
                    && (decoded.Some? ==> forall x :: !Yields(decoded.value, x)))
  {
    if raw.None? || raw.value == "" {
      return None;
    }
    CookieYields(raw.value);
    hide Yields;
    var candidates := [raw.value];
    var decoded := Percent.Decode(raw.value);
    if decoded.Some? {
      candidates := candidates + [decoded.value];
    }
    for n := 0 to |candidates|
      invariant FirstJudged(candidates) == FirstJudged(candidates[n..])
    {
      assert candidates[n..][1..] == candidates[n + 1..];
      var candidate := candidates[n];
      var parsed := Json.FromText(candidate);
      if parsed.Some? && parsed.value != Json.Null {
        if parsed.value.Obj? && "id" in parsed.value.fields && parsed.value.fields["id"].Str?
           && Trim(parsed.value.fields["id"].s) != "" {
          return Some(parsed.value.fields["id"].s);
        }
      } else {
        var looksEncodedJson := LooksEncoded(candidate);
        if Trim(candidate) != "" && '{' !in candidate && !looksEncodedJson {
          return Some(candidate);
        }
      }
    }
    return None;
  }

  /** The raw text is judged first, and then the decoded one. */
  lemma RawThenDecoded(text: string)
    requires text != ""
    ensures FromCookie(Some(text)) ==
      if Judge(text).Some? then Judge(text)
      else if Percent.Decode(text).Some? then Judge(Percent.Decode(text).value)
      else None
  {
    hide Judge, Percent.Decode;
    var c := Candidates(text);
    assert FirstJudged(c) == if Judge(c[0]).Some? then Judge(c[0]) else FirstJudged(c[1..]);
    assert |c| == 2 ==> FirstJudged(c[1..]) == if Judge(c[1]).Some? then Judge(c[1]) else FirstJudged(c[1..][1..]);
  }

  /** The id a record holds: the text of its last member `id`, if that is a text and not blank. */
  function IdOf(members: seq<Member>): Option<string>
  {
    if members == [] then None
    else
      var last := members[|members| - 1];
      if last.name != "id" then IdOf(members[..|members| - 1])
      else if last.item.tree.Quoted? && !Blank(last.item.tree.value) then Some(last.item.tree.value)
      else None
  }

  lemma {:induction false} FieldsSnoc(members: seq<Member>, m: Member, fields: map<string, Json.Value>)
    ensures FieldsOf(members + [m], fields) == FieldsOf(members, fields)[m.name := ValueOf(m.item.tree)]
    decreases |members|
  {
    var all := members + [m];
    if members == [] {
      var more := fields[m.name := ValueOf(m.item.tree)];
      assert all == [m] && FieldsOf(all[1..], more) == more;
    } else {
      assert all[1..] == members[1..] + [m];
      FieldsSnoc(members[1..], m, fields[members[0].name := ValueOf(members[0].item.tree)]);
    }
  }

  lemma {:induction false} IdOfFields(members: seq<Member>)
    ensures
      var fields := FieldsOf(members, map[]);
      IdOf(members) ==
        if "id" in fields && fields["id"].Str? && !Blank(fields["id"].s) then Some(fields["id"].s) else None
    decreases |members|
  {
    hide Blank;
    if members != [] {
      var last, before := members[|members| - 1], members[..|members| - 1];
      assert members == before + [last];
      FieldsSnoc(before, last, map[]);
      IdOfFields(before);
    }
  }

  lemma RecordIsJudged(i: Item)
    requires ValidItem(i) && i.tree.Record?
    ensures Judge(ShowItem(i)) == IdOf(i.tree.members)
  {
    ItemTextRoundTrip(i);
    IdOfFields(i.tree.members);
    hide Json.FromText, ShowItem, ValidItem, AsPlain, Blank, FieldsOf, IdOf;
  }

  lemma RecordHasBrace(i: Item)
    requires i.tree.Record?
    ensures '{' in ShowItem(i)
  {
    var s := ShowItem(i);
    hide ShowMembers;
    assert s[|i.before|] == Show(i.tree)[0] == '{';
  }

  /** The undecoded candidate never wins where a brace was encoded. */
  lemma EncodedNeverWins(s: string)
    requires '{' in s || '}' in s
    ensures Judge(Percent.Encode(s)) == None
  {
    assert !Percent.Unreserved('{') && !Percent.Unreserved('}');
    EncodedIsJudged(s);
    BracesLookEncoded(s);
    hide Judge, LooksEncoded, Percent.Encode;
  }

  /** Every record is read from its percent-encoded text: its id, whatever else it holds and however it is laid out. */
  lemma RecordIsRead(i: Item)
    requires ValidItem(i) && i.tree.Record?
    ensures FromCookie(Some(Percent.Encode(ShowItem(i)))) == IdOf(i.tree.members)
  {
    var s := ShowItem(i);
    RecordHasBrace(i);
    EncodedNeverWins(s);
    Percent.RoundTrip(s);
    RecordIsJudged(i);
    Percent.EncodeKeepsUnreserved(s);
    hide Judge, FromCookie, ShowItem, ValidItem, Percent.Encode, Percent.Decode, Percent.Unreserved, IdOf;
    RawThenDecoded(Percent.Encode(s));
  }

  /** A reference as a record without any space around it. */
  function ReferenceItem(id: string): Item
  {
    Item("", Reference(id), "")
  }

  lemma ReferenceItemIsPrinted(id: string)
    ensures ValidItem(ReferenceItem(id)) && ShowItem(ReferenceItem(id)) == Json.PrintReference(id)
    ensures IdOf(ReferenceItem(id).tree.members) == if Blank(id) then None else Some(id)
  {
    ReferenceIsPrinted(id);
    hide Valid, Show, Json.PrintReference, Blank;
    assert "" + Show(Reference(id)) + "" == Show(Reference(id));
  }

  /** An id is read from its encoded reference exactly when it is not blank. */
  lemma ReferenceIsRead(id: string)
    ensures FromCookie(Some(Percent.Encode(Json.PrintReference(id)))) == if Blank(id) then None else Some(id)
  {
    ReferenceItemIsPrinted(id);
    hide FromCookie, ShowItem, ValidItem, Json.PrintReference, Percent.Encode, Blank, IdOf;
    RecordIsRead(ReferenceItem(id));
  }

  /** A record that holds an id is read without encoding as well. */
  lemma UnencodedRecordIsRead(i: Item)
    requires ValidItem(i) && i.tree.Record? && IdOf(i.tree.members).Some?
    ensures FromCookie(Some(ShowItem(i))) == IdOf(i.tree.members)
  {
    RecordIsJudged(i);
    RecordHasBrace(i);
    hide Judge, ShowItem, ValidItem, IdOf;
    RawThenDecoded(ShowItem(i));
  }

  /** Whatever a cookie yields is never blank. */
  lemma CookieIdIsNeverBlank(raw: Option<string>)
    ensures FromCookie(raw).Some? ==> !Blank(FromCookie(raw).value)
  {
    if raw.Some? && raw.value != "" {
      RawThenDecoded(raw.value);
    }
    hide Blank;
  }

  /** Not blank, without a brace, plain or encoded, and no JSON value but null. */
  predicate PlainId(text: string)
  {
    && !Blank(text) && '{' !in text && !LooksEncoded(text)
    && (Json.FromText(text) == None || Json.FromText(text) == Some(Json.Null))
  }

  /** A candidate yields itself, or an id inside it that is shorter. */
  lemma JudgedIsShorter(candidate: string)
    ensures Judge(candidate) == Some(candidate) <==> PlainId(candidate)
    ensures Judge(candidate).Some? ==> Judge(candidate).value == candidate || |Judge(candidate).value| < |candidate|
  {
    if Json.ParseValue(candidate).Done? {
      Json.ValueIsShorter(candidate);
    }
    if Json.FromText(candidate).Some? && Json.FromText(candidate).value.Obj? {
      Json.ObjectHasBrace(candidate);
    }
    hide Json.ParseValue, Blank, LooksEncoded;
  }

  /** A cookie is the id itself exactly when it is a plain id: decoding never brings the same text back. */
  lemma PlainCookieIsKept(text: string)
    ensures FromCookie(Some(text)) == Some(text) <==> PlainId(text)
  {
    JudgedIsShorter(text);
    if text != "" {
      RawThenDecoded(text);
      if Percent.Decode(text).Some? {
        Percent.DecodeIsNoLonger(text);
        JudgedIsShorter(Percent.Decode(text).value);
      }
    }
    hide Judge, FromCookie, Percent.Decode, LooksEncoded;
    assert Blank("");
  }

  lemma BracesLookEncoded(id: string)
    ensures LooksEncoded(Percent.Encode(id)) <==> '{' in id || '}' in id
  {
    Percent.PartInEncoded(id, "%7B");
    Percent.PartInEncoded(id, "%7b");
    Percent.PartInEncoded(id, "%7D");
    Percent.PartInEncoded(id, "%7d");
    forall c: char
      ensures Percent.EncodeChar(c) == "%7B" <==> c == '{'
      ensures Percent.EncodeChar(c) == "%7D" <==> c == '}'
      ensures Percent.EncodeChar(c) != "%7b" && Percent.EncodeChar(c) != "%7d"
    {
      EncodedBraces(c);
    }
    hide Percent.EncodeChar, Percent.Encode, Contains;
  }

  lemma EncodedBraces(c: char)
    ensures Percent.EncodeChar(c) == "%7B" <==> c == '{'
    ensures Percent.EncodeChar(c) == "%7D" <==> c == '}'
    ensures Percent.EncodeChar(c) != "%7b" && Percent.EncodeChar(c) != "%7d"
  {
    assert '{' as int == 0x7B && '}' as int == 0x7D;
  }

  /** Encoded text that is not plain is no JSON, and is taken for an id unless it holds an encoded brace. */
  lemma EncodedIsJudged(id: string)
    requires exists c | c in id :: !Percent.Unreserved(c)
    ensures var e := Percent.Encode(id); Judge(e) == if LooksEncoded(e) then None else Some(e)
  {
    var e := Percent.Encode(id);
    Percent.EncodeKeepsUnreserved(id);
    Percent.EncodedIsSafe(id);
    hide Percent.Encode;
    assert !Percent.CookieSafe('"') && !Percent.CookieSafe('{') && !Percent.CookieSafe('[');
    Json.UnquotedPercentIsNotJson(e);
    assert !Blank(e) by {
      SafeIsNotSpace(e[0]);
      SafeIsNotSpace(e[|e| - 1]);
      TrimKeepsTrimmed(e);
    }
  }

  /**
   * A percent-encoded plain id comes back exactly when encoding left it alone, or when it holds a
   * closing brace: any other encoded text is taken for the id before it is decoded.
   */
  lemma EncodedPlainIdIsKept(id: string)
    ensures FromCookie(Some(Percent.Encode(id))) == Some(id) <==>
              PlainId(id) && ((forall c | c in id :: Percent.Unreserved(c)) || '}' in id)
  {
    var e := Percent.Encode(id);
    Percent.EncodeKeepsUnreserved(id);
    if forall c | c in id :: Percent.Unreserved(c) {
      PlainCookieIsKept(id);
    } else {
      EncodedIsJudged(id);
      BracesLookEncoded(id);
      RawThenDecoded(e);
      Percent.RoundTrip(id);
      JudgedIsShorter(id);
    }
    hide Judge, FromCookie, Percent.Encode, Percent.Decode, Percent.Unreserved, Blank, LooksEncoded, Json.FromText;
  }

  /** So a plain cookie that holds a number is lost. */
  lemma NumericCookieIsLost(text: string)
    requires text != "" && text[0] != '0' && forall c | c in text :: Json.IsDigit(c)
    ensures FromCookie(Some(text)) == None
  {
    Json.DigitsAreNumber(text);
    RawThenDecoded(text);
    Percent.PlainDecodes(text);
  }

  // ---------------------------------------------------------------- the whole request

  /** A variable that may hold an event id of its own. */
  datatype Variable = Missing | Object(eventId: Option<string>) | Items(firstEventId: Option<string>)

  datatype Header = NoHeader | One(value: string) | Many(values: seq<string>)

  datatype Request = Request(
    eventId: Option<string>,
    input: Variable,
    filter: Variable,
    activeEventHeader: Header,
    parsedCookie: Option<string>,
    cookieHeader: Option<string>)

  function FromHeader(h: Header): Option<string>
  {
    var value :=
      match h
      case NoHeader => None
      case One(v) => Some(v)
      case Many(vs) => if vs == [] then None else Some(vs[0]);
    if value.Some? && !Blank(value.value) then Some(Trim(value.value)) else None
  }

  /** Everything a request may take its event id from, the strongest first. */
  function Sources(req: Request): seq<Option<string>>
  {
    [ req.eventId,
      if req.input.Object? then req.input.eventId else None,
      if req.input.Items? then req.input.firstEventId else None,
      if req.filter.Object? then req.filter.eventId else None,
      FromHeader(req.activeEventHeader),
      FromCookie(CookieValue(req.parsedCookie, req.cookieHeader, ACTIVE_EVENT_COOKIE)) ]
  }

  function FirstPresent(sources: seq<Option<string>>): Option<string>
  {
    if sources == [] then None
    else if sources[0].Some? then sources[0]
    else FirstPresent(sources[1..])
  }

  /** The event id of a request: its first present source. */
  function Extract(req: Request): Option<string>
  {
    FirstPresent(Sources(req))
  }

  /** A present source wins over all later ones when all earlier ones are missing. */
  lemma {:induction false} FirstPresentWins(sources: seq<Option<string>>, k: nat)
    requires k <= |sources| && forall j | 0 <= j < k :: sources[j].None?
    requires k < |sources| ==> sources[k].Some?
    ensures FirstPresent(sources) == if k < |sources| then sources[k] else None
    decreases k
  {
    if k > 0 {
      FirstPresentWins(sources[1..], k - 1);
    }
  }

  /** Variables beat the header, and the header beats the cookie, a parsed one first. */
  lemma Precedence(req: Request)
    ensures
      var input := match req.input case Missing => None case Object(id) => id case Items(id) => id;
      var filter := match req.filter case Object(id) => id case _ => None;
      var header :=
        match req.activeEventHeader
        case NoHeader => None
        case One(v) => Some(v)
        case Many(vs) => if vs == [] then None else Some(vs[0]);
      && (req.eventId.Some? ==> Extract(req) == req.eventId)
      && (req.eventId.None? && input.Some? ==> Extract(req) == input)
      && (req.eventId.None? && input.None? && filter.Some? ==> Extract(req) == filter)
      && (req.eventId.None? && input.None? && filter.None? ==>
            Extract(req) ==
              if header.Some? && Trim(header.value) != "" then Some(Trim(header.value))
              else if req.parsedCookie.Some? then FromCookie(req.parsedCookie)
              else FromCookie(CookieValue(None, req.cookieHeader, "activeEvent")))
  {
    var s := Sources(req);
    assert |s| == 6;
    hide FirstPresent, FromCookie, Trim;
    FirstPresentWins(s, if s[0].Some? then 0 else if s[1].Some? then 1 else if s[2].Some? then 2
                        else if s[3].Some? then 3 else if s[4].Some? then 4 else if s[5].Some? then 5 else 6);
  }

  method ExtractEventId(req: Request) returns (id: Option<string>)
    ensures id == Extract(req)
    ensures
      var input := match req.input case Missing => None case Object(id) => id case Items(id) => id;
      var filter := match req.filter case Object(id) => id case _ => None;
      var header :=
        match req.activeEventHeader
        case NoHeader => None
        case One(v) => Some(v)
        case Many(vs) => if vs == [] then None else Some(vs[0]);
      && (req.eventId.Some? ==> id == req.eventId)
      && (req.eventId.None? && input.Some? ==> id == input)
      && (req.eventId.None? && input.None? && filter.Some? ==> id == filter)
      && (req.eventId.None? && input.None? && filter.None? ==>
            id ==
              if header.Some? && Trim(header.value) != "" then Some(Trim(header.value))
              else if req.parsedCookie.Some? then FromCookie(req.parsedCookie)
              else FromCookie(CookieValue(None, req.cookieHeader, "activeEvent")))
  {
    Precedence(req);
    hide FromCookie, CookieValue, Extract, Trim;
    if req.eventId.Some? {
      return req.eventId;
    }
    if req.input.Object? && req.input.eventId.Some? {
      return req.input.eventId;
    }
    if req.input.Items? && req.input.firstEventId.Some? {
      return req.input.firstEventId;
    }
    if req.filter.Object? && req.filter.eventId.Some? {
      return req.filter.eventId;
    }
    var header := FromHeader(req.activeEventHeader);
    if header.Some? {
      return header;
    }
    var cookie := ReadCookie(req.parsedCookie, req.cookieHeader, ACTIVE_EVENT_COOKIE);
    id := ParseActiveEventCookie(cookie);
  }

  /** No variable, no header and no parsed cookie: only the cookie header is left. */
  function CookieRequest(header: string): Request
  {
    Request(None, Missing, Missing, NoHeader, None, Some(header))
  }

  lemma SafeIsNotSpace(c: char)
    requires Percent.CookieSafe(c)
    ensures !IsSpace(c) && c != ';'
  {}

  lemma EncodedHasNoSpace(s: string, c: char)
    requires c in Percent.Encode(s)
    ensures !IsSpace(c) && c != ';'
  {
    hide Percent.Encode;
    Percent.EncodedIsSafe(s);
    SafeIsNotSpace(c);
  }

  lemma EncodedIsWellFormed(s: string)
    ensures WellFormed(Cookie(ACTIVE_EVENT_COOKIE, Percent.Encode(s)))
  {
    hide Percent.Encode;
    var e := Percent.Encode(s);
    forall c | c in e
      ensures !IsSpace(c) && c != ';'
    {
      EncodedHasNoSpace(s, c);
    }
    assert Trimmed(e) by {
      hide IsSpace;
      assert e != [] ==> e[0] in e && e[|e| - 1] in e;
    }
  }

  /**
   * The full round trip: the JSON text of a record, percent-encoded, and put anywhere into a
   * well-formed cookie header as the first active-event cookie gives its id as the event id.
   */
  lemma RecordRoundTrip(before: seq<Cookie>, i: Item, after: seq<Cookie>)
    requires ValidItem(i) && i.tree.Record?
    requires forall c | c in before :: WellFormed(c) && c.name != ACTIVE_EVENT_COOKIE
    requires forall c | c in after :: WellFormed(c)
    ensures
      var cookie := Cookie(ACTIVE_EVENT_COOKIE, Percent.Encode(ShowItem(i)));
      Extract(CookieRequest(PrintCookies(before + [cookie] + after))) == IdOf(i.tree.members)
  {
    var cookie := Cookie(ACTIVE_EVENT_COOKIE, Percent.Encode(ShowItem(i)));
    var cookies := before + [cookie] + after;
    EncodedIsWellFormed(ShowItem(i));
    var header := PrintCookies(cookies);
    Precedence(CookieRequest(header));
    hide WellFormed, PrintCookies, CookieValue, ShowItem, ValidItem, Percent.Encode, FromCookie, IdOf, Extract;
    CookieRoundTrip(cookies, ACTIVE_EVENT_COOKIE);
    FirstIsFound(before, cookie, after);
    RecordIsRead(i);
  }

  /** In particular an id comes back exactly when it is not blank. */
  lemma EventIdRoundTrip(before: seq<Cookie>, id: string, after: seq<Cookie>)
    requires forall c | c in before :: WellFormed(c) && c.name != ACTIVE_EVENT_COOKIE
    requires forall c | c in after :: WellFormed(c)
    ensures
      var cookie := Cookie(ACTIVE_EVENT_COOKIE, Percent.Encode(Json.PrintReference(id)));
      Extract(CookieRequest(PrintCookies(before + [cookie] + after))) == if Blank(id) then None else Some(id)
  {
    ReferenceItemIsPrinted(id);
    hide WellFormed, PrintCookies, ShowItem, ValidItem, Json.PrintReference, Percent.Encode, Blank, Extract, IdOf;
    RecordRoundTrip(before, ReferenceItem(id), after);
  }

  lemma {:induction false} FirstIsFound(before: seq<Cookie>, cookie: Cookie, after: seq<Cookie>)
    requires forall c | c in before :: c.name != cookie.name
    ensures FirstNamed(before + [cookie] + after, cookie.name) == Some(cookie.value)
    decreases |before|
  {
    if before != [] {
      FirstIsFound(before[1..], cookie, after);
      assert (before + [cookie] + after)[1..] == before[1..] + [cookie] + after;
    }
  }
}
