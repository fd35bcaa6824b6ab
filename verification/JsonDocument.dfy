/**
 * The grammar of RFC 8259 as syntax trees that keep every character of the text, and the proof that
 * the reader accepts exactly the texts of the grammar, with the values it gives them.
 */
module JsonDocument {
  import opened Prelude
  import opened Json
  import opened JsonGrammar

  datatype Tree =
    | Word(word: string)
    | Number(text: string)
    | Quoted(body: string, value: string)
    | List(space: string, items: seq<Item>)
    | Record(space: string, members: seq<Member>)

  /** A value with the white space around it. */
  datatype Item = Item(before: string, tree: Tree, after: string)

  datatype Member = Member(before: string, body: string, name: string, middle: string, item: Item)

  ghost predicate Valid(t: Tree)
    decreases t
  {
    match t
    case Word(word) => word == "null" || word == "true" || word == "false"
    case Number(text) => NumberText(text)
    case Quoted(body, value) => StringText(body, value)
    case List(space, items) => Space(space) && forall i | i in items :: ValidItem(i)
    case Record(space, members) => Space(space) && forall m | m in members :: ValidMember(m)
  }

  ghost predicate ValidItem(i: Item)
    decreases i
  {
    Space(i.before) && Valid(i.tree) && Space(i.after)
  }

  ghost predicate ValidMember(m: Member)
    decreases m
  {
    Space(m.before) && StringText(m.body, m.name) && Space(m.middle) && ValidItem(m.item)
  }

  function Show(t: Tree): string
    decreases t
  {
    match t
    case Word(word) => word
    case Number(text) => text
    case Quoted(body, _) => "\"" + body + "\""
    case List(space, items) => "[" + (if items == [] then space else ShowItems(items)) + "]"
    case Record(space, members) => "{" + (if members == [] then space else ShowMembers(members)) + "}"
  }

  function ShowItem(i: Item): string
    decreases i
  {
    i.before + Show(i.tree) + i.after
  }

  function ShowItems(items: seq<Item>): string
    decreases items
  {
    if items == [] then ""
    else if |items| == 1 then ShowItem(items[0])
    else ShowItem(items[0]) + "," + ShowItems(items[1..])
  }

  function ShowMember(m: Member): string
    decreases m
  {
    m.before + "\"" + m.body + "\"" + m.middle + ":" + ShowItem(m.item)
  }

  function ShowMembers(members: seq<Member>): string
    decreases members
  {
    if members == [] then ""
    else if |members| == 1 then ShowMember(members[0])
    else ShowMember(members[0]) + "," + ShowMembers(members[1..])
  }

  function ValueOf(t: Tree): Value
    decreases t
  {
    match t
    case Word(word) => if word == "null" then Null else Bool(word == "true")
    case Number(_) => Num
    case Quoted(_, value) => Str(value)
    case List(_, items) => Arr(ValuesOf(items))
    case Record(_, members) => Obj(FieldsOf(members, map[]))
  }

  function ValuesOf(items: seq<Item>): seq<Value>
    decreases items
  {
    if items == [] then [] else [ValueOf(items[0].tree)] + ValuesOf(items[1..])
  }

  /** A later member replaces an earlier one of the same name. */
  function FieldsOf(members: seq<Member>, fields: map<string, Value>): map<string, Value>
    decreases members
  {
    if members == [] then fields
    else FieldsOf(members[1..], fields[members[0].name := ValueOf(members[0].item.tree)])
  }

  /** A text of the grammar and its value. */
  ghost predicate IsText(s: string, v: Value)
  {
    exists i :: ValidItem(i) && s == ShowItem(i) && v == ValueOf(i.tree)
  }

  // ---------------------------------------------------------------- every text of the grammar is read

  lemma NoSpaceToSkip(s: string)
    requires s == "" || s[0] !in " \t\n\r"
    ensures SkipSpace(s) == s
  {}

  /** White space before a value does not matter. */
  lemma SpaceBeforeValue(before: string, s: string)
    requires Space(before) && s != "" && s[0] !in " \t\n\r"
    ensures ParseValue(before + s) == ParseValue(s)
  {
    SpaceIsSkipped(before, s);
    NoSpaceToSkip(s);
    hide SkipSpace, ParseString, ParseMembers, ParseItems, ParseWord, ParseNumber;
  }

  /** A bracket opens a list unless the closing one follows. */
  lemma ListOpens(inner: string)
    ensures ParseValue("[" + inner) ==
      var u := SkipSpace(inner);
      if Starts(u, ']') then Done(Arr([]), u[1..]) else ParseItems(inner, [])
  {
    var s := "[" + inner;
    assert s[0] == '[' && s[1..] == inner;
    NoSpaceToSkip(s);
    hide ParseItems, ParseMembers, ParseNumber, ParseString, ParseWord, SkipSpace;
  }

  lemma RecordOpens(inner: string)
    ensures ParseValue("{" + inner) ==
      var u := SkipSpace(inner);
      if Starts(u, '}') then Done(Obj(map[]), u[1..]) else ParseMembers(inner, map[])
  {
    var s := "{" + inner;
    assert s[0] == '{' && s[1..] == inner;
    NoSpaceToSkip(s);
    hide ParseItems, ParseMembers, ParseNumber, ParseString, ParseWord, SkipSpace;
  }

  lemma WordIsRead(word: string, tail: string)
    requires Valid(Word(word))
    ensures ParseValue(word + tail) == Done(ValueOf(Word(word)), tail)
  {
    var s := word + tail;
    assert s[0] == word[0] && s[|word|..] == tail;
    NoSpaceToSkip(s);
    hide SkipSpace, ParseNumber;
  }

  lemma NumberBegins(text: string)
    requires NumberText(text)
    ensures text != "" && (text[0] == '-' || IsDigit(text[0]))
  {
    var sign, whole, fraction, exponent :|
      NumberParts(sign, whole, fraction, exponent) && text == sign + whole + fraction + exponent;
    assert whole[0] in whole;
    DigitIsDigit(whole[0]);
    assert text[0] == (sign + whole)[0];
  }

  /** What begins with nothing else is a number, or nothing. */
  lemma OtherIsNumber(s: string)
    requires s != "" && s[0] !in " \t\n\r" && s[0] !in "\"{[ntf"
    ensures ParseValue(s) == ParseNumber(s)
  {
    NoSpaceToSkip(s);
    hide SkipSpace, ParseNumber;
  }

  lemma NumberTextIsRead(text: string, tail: string)
    requires NumberText(text) && EndsNumber(tail)
    ensures ParseValue(text + tail) == Done(Num, tail)
  {
    NumberBegins(text);
    hide ParseValue, ParseNumber, NumberParts;
    assert (text + tail)[0] == text[0] && text[0] !in " \t\n\r\"{[ntf";
    OtherIsNumber(text + tail);
    var sign, whole, fraction, exponent :|
      NumberParts(sign, whole, fraction, exponent) && text == sign + whole + fraction + exponent;
    JoinParts(sign, whole, fraction, exponent, tail);
    NumberIsRead(sign, whole, fraction, exponent, tail);
  }

  lemma QuotedIsRead(body: string, value: string, tail: string)
    requires StringText(body, value)
    ensures ParseValue("\"" + body + "\"" + tail) == Done(Str(value), tail)
  {
    var s := "\"" + body + "\"" + tail;
    assert s[0] == '"' && s[1..] == body + "\"" + tail;
    StringIsRead(body, value, tail);
    NoSpaceToSkip(s);
    hide SkipSpace, ParseString, StringText;
  }

  /** What may follow a value, its own trailing space included. */
  predicate Follows(tail: string)
  {
    tail == "" || tail[0] in " \t\n\r,]}"
  }

  lemma ShowBegins(t: Tree)
    requires Valid(t)
    ensures Show(t) != "" && Show(t)[0] !in " \t\n\r,]}:"
  {
    if t.Number? {
      NumberBegins(t.text);
    }
    hide NumberText, StringText, ValidItem, ValidMember, ShowItems, ShowMembers;
  }

  lemma Regroup(a: string, b: string, c: string, d: string)
    ensures a + b + c + d == a + (b + c + d)
    ensures a + b + c + d == a + (b + (c + d))
    ensures a + b + c == a + (b + c)
  {}

  /** Every tree is read from its text, with whatever may follow it left over. */
  lemma {:induction false} TreeIsRead(t: Tree, tail: string)
    requires Valid(t) && Follows(tail)
    ensures ParseValue(Show(t) + tail) == Done(ValueOf(t), tail)
    decreases t
  {
    match t
    case Word(word) => WordIsRead(word, tail);
    case Number(text) => NumberTextIsRead(text, tail);
    case Quoted(body, value) => QuotedIsRead(body, value, tail);
    case List(space, items) => ListIsRead(space, items, tail);
    case Record(space, members) => RecordIsRead(space, members, tail);
  }

  /** A value with its space around it is read up to what follows. */
  lemma {:induction false} ItemIsRead(i: Item, tail: string)
    requires ValidItem(i) && tail != "" && tail[0] in ",]}"
    ensures ParseValue(ShowItem(i) + tail) == Done(ValueOf(i.tree), i.after + tail)
    ensures SkipSpace(i.after + tail) == tail
    decreases i
  {
    var rest := i.after + tail;
    assert rest[0] == if i.after == "" then tail[0] else i.after[0];
    assert i.after != "" ==> i.after[0] in i.after;
    TreeIsRead(i.tree, rest);
    ShowBegins(i.tree);
    SpaceIsSkipped(i.after, tail);
    hide Valid, Show, ValueOf, ParseValue, SkipSpace;
    Regroup(i.before, Show(i.tree), i.after, tail);
    assert (Show(i.tree) + rest)[0] == Show(i.tree)[0];
    SpaceBeforeValue(i.before, Show(i.tree) + rest);
  }

  lemma {:induction false} ListIsRead(space: string, items: seq<Item>, tail: string)
    requires Valid(List(space, items))
    ensures ParseValue(Show(List(space, items)) + tail) == Done(Arr(ValuesOf(items)), tail)
    decreases items, 1
  {
    var inside := if items == [] then space else ShowItems(items);
    var inner := inside + "]" + tail;
    assert Show(List(space, items)) + tail == "[" + inner by {
      hide ShowItems;
      Regroup("[", inside, "]", tail);
    }
    ListOpens(inner);
    if items == [] {
      Regroup(space, "]", tail, "");
      assert ("]" + tail)[0] == ']' && ("]" + tail)[1..] == tail;
      SpaceIsSkipped(space, "]" + tail);
      hide SkipSpace, ParseValue, ParseItems, Show;
    } else {
      ItemsAreRead(items, [], tail);
      ItemsBegin(items, "]" + tail);
      Regroup(ShowItems(items), "]", tail, "");
      hide SkipSpace, ParseValue, ParseItems, Show, ShowItems, ValuesOf, Valid;
      assert [] + ValuesOf(items) == ValuesOf(items);
    }
  }

  lemma ItemsUnfold(items: seq<Item>)
    requires items != []
    ensures ShowItems(items) ==
              if |items| == 1 then ShowItem(items[0]) else ShowItem(items[0]) + "," + ShowItems(items[1..])
    ensures ValuesOf(items) == [ValueOf(items[0].tree)] + ValuesOf(items[1..])
    ensures |items| == 1 ==> ValuesOf(items) == [ValueOf(items[0].tree)]
  {
    hide ShowItem, ValueOf;
  }

  /** Behind its space an item does not begin with a bracket. */
  lemma ItemBegins(i: Item, tail: string)
    requires ValidItem(i)
    ensures SkipSpace(ShowItem(i) + tail) != "" && SkipSpace(ShowItem(i) + tail)[0] !in ",]}:"
  {
    ShowBegins(i.tree);
    hide Valid, Show, SkipSpace;
    var s := Show(i.tree) + (i.after + tail);
    Regroup(i.before, Show(i.tree), i.after, tail);
    assert s[0] == Show(i.tree)[0];
    SpaceIsSkipped(i.before, s);
  }

  lemma ItemsBegin(items: seq<Item>, tail: string)
    requires items != [] && forall i | i in items :: ValidItem(i)
    ensures !Starts(SkipSpace(ShowItems(items) + tail), ']')
  {
    ItemsUnfold(items);
    hide ValidItem, ShowItem, ShowItems, SkipSpace;
    if |items| == 1 {
      ItemBegins(items[0], tail);
    } else {
      ItemBegins(items[0], "," + ShowItems(items[1..]) + tail);
      assert ShowItem(items[0]) + "," + ShowItems(items[1..]) + tail
          == ShowItem(items[0]) + ("," + ShowItems(items[1..]) + tail);
    }
  }

  lemma {:induction false} ItemsAreRead(items: seq<Item>, read: seq<Value>, tail: string)
    requires items != [] && forall i | i in items :: ValidItem(i)
    ensures ParseItems(ShowItems(items) + "]" + tail, read) == Done(Arr(read + ValuesOf(items)), tail)
    decreases items, 0
  {
    ItemsUnfold(items);
    var i := items[0];
    if |items| == 1 {
      ItemIsRead(i, "]" + tail);
      hide ValidItem, ParseValue, ParseItems, ShowItem, ShowItems, ValuesOf, ValueOf, SkipSpace;
      LastItem(ShowItem(i), ValueOf(i.tree), i.after, tail, read);
    } else {
      var more := items[1..];
      var later := ShowItems(more) + "]" + tail;
      ItemIsRead(i, "," + later);
      ItemsAreRead(more, read + [ValueOf(i.tree)], tail);
      hide ValidItem, ParseValue, ParseItems, ShowItem, ShowItems, ValuesOf, ValueOf, SkipSpace;
      NextItem(ShowItem(i), ValueOf(i.tree), i.after, later, read);
      AfterComma(ShowItem(i), ShowItems(more), "]", tail);
      assert read + [ValueOf(i.tree)] + ValuesOf(more) == read + ([ValueOf(i.tree)] + ValuesOf(more));
    }
  }

  lemma LastItem(text: string, value: Value, after: string, tail: string, read: seq<Value>)
    requires ParseValue(text + ("]" + tail)) == Done(value, after + ("]" + tail))
    requires SkipSpace(after + ("]" + tail)) == "]" + tail
    ensures ParseItems(text + "]" + tail, read) == Done(Arr(read + [value]), tail)
  {
    Regroup(text, "]", tail, "");
    assert ("]" + tail)[1..] == tail;
    hide ParseValue, SkipSpace;
  }

  lemma NextItem(text: string, value: Value, after: string, later: string, read: seq<Value>)
    requires ParseValue(text + ("," + later)) == Done(value, after + ("," + later))
    requires SkipSpace(after + ("," + later)) == "," + later
    ensures ParseItems(text + ("," + later), read) == ParseItems(later, read + [value])
  {
    assert ("," + later)[1..] == later;
    hide ParseValue, SkipSpace;
  }

  lemma AfterComma(text: string, more: string, close: string, tail: string)
    ensures text + "," + more + close + tail == text + ("," + (more + close + tail))
  {}

  lemma {:induction false} RecordIsRead(space: string, members: seq<Member>, tail: string)
    requires Valid(Record(space, members))
    ensures ParseValue(Show(Record(space, members)) + tail) == Done(Obj(FieldsOf(members, map[])), tail)
    decreases members, 1
  {
    var inside := if members == [] then space else ShowMembers(members);
    var inner := inside + "}" + tail;
    assert Show(Record(space, members)) + tail == "{" + inner by {
      hide ShowMembers;
      Regroup("{", inside, "}", tail);
    }
    RecordOpens(inner);
    if members == [] {
      Regroup(space, "}", tail, "");
      assert ("}" + tail)[0] == '}' && ("}" + tail)[1..] == tail;
      SpaceIsSkipped(space, "}" + tail);
      hide SkipSpace, ParseValue, ParseMembers, Show;
    } else {
      MembersAreRead(members, map[], tail);
      MembersBegin(members, "}" + tail);
      Regroup(ShowMembers(members), "}", tail, "");
      hide SkipSpace, ParseValue, ParseMembers, Show, ShowMembers, FieldsOf, Valid;
    }
  }

  lemma MembersUnfold(members: seq<Member>, fields: map<string, Value>)
    requires members != []
    ensures ShowMembers(members) ==
              if |members| == 1 then ShowMember(members[0])
              else ShowMember(members[0]) + "," + ShowMembers(members[1..])
    ensures FieldsOf(members, fields)
              == FieldsOf(members[1..], fields[members[0].name := ValueOf(members[0].item.tree)])
    ensures |members| == 1 ==>
              FieldsOf(members, fields) == fields[members[0].name := ValueOf(members[0].item.tree)]
  {
    hide ShowMember, ValueOf;
  }

  lemma MemberBegins(m: Member, tail: string)
    requires ValidMember(m)
    ensures Starts(SkipSpace(ShowMember(m) + tail), '"')
    ensures SkipSpace(ShowMember(m) + tail)[1..] == m.body + "\"" + (m.middle + (":" + (ShowItem(m.item) + tail)))
  {
    var late := m.middle + (":" + (ShowItem(m.item) + tail));
    var s := "\"" + (m.body + "\"" + late);
    hide ShowItem, ValidItem, SkipSpace, StringText;
    MemberShape(m.before, m.body, m.middle, ShowItem(m.item), tail);
    assert s[0] == '"' && s[1..] == m.body + "\"" + late;
    SpaceIsSkipped(m.before, s);
  }

  lemma MemberShape(before: string, body: string, middle: string, item: string, tail: string)
    ensures before + "\"" + body + "\"" + middle + ":" + item + tail
              == before + ("\"" + (body + "\"" + (middle + (":" + (item + tail)))))
  {}

  lemma MembersBegin(members: seq<Member>, tail: string)
    requires members != [] && forall m | m in members :: ValidMember(m)
    ensures !Starts(SkipSpace(ShowMembers(members) + tail), '}')
  {
    MembersUnfold(members, map[]);
    hide ValidMember, ShowMember, ShowMembers, SkipSpace;
    if |members| == 1 {
      MemberBegins(members[0], tail);
    } else {
      MemberBegins(members[0], "," + ShowMembers(members[1..]) + tail);
      assert ShowMember(members[0]) + "," + ShowMembers(members[1..]) + tail
          == ShowMember(members[0]) + ("," + ShowMembers(members[1..]) + tail);
    }
  }

  /** One member is read up to what follows its value. */
  lemma {:induction false} MemberIsRead(m: Member, fields: map<string, Value>, tail: string)
    requires ValidMember(m) && tail != "" && (tail[0] == ',' || tail[0] == '}')
    ensures
      var more := fields[m.name := ValueOf(m.item.tree)];
      ParseMembers(ShowMember(m) + tail, fields)
        == if tail[0] == ',' then ParseMembers(tail[1..], more) else Done(Obj(more), tail[1..])
    decreases m
  {
    var value := ShowItem(m.item) + tail;
    var colon := ":" + value;
    MemberBegins(m, tail);
    StringIsRead(m.body, m.name, m.middle + colon);
    SpaceIsSkipped(m.middle, colon);
    ItemIsRead(m.item, tail);
    assert colon[0] == ':' && colon[1..] == value;
    hide ShowMember, ShowItem, ValidItem, SkipSpace, StringText, ParseString, ParseValue, ValueOf;
  }

  lemma {:induction false} MembersAreRead(members: seq<Member>, fields: map<string, Value>, tail: string)
    requires members != [] && forall m | m in members :: ValidMember(m)
    ensures ParseMembers(ShowMembers(members) + "}" + tail, fields) == Done(Obj(FieldsOf(members, fields)), tail)
    decreases members, 0
  {
    MembersUnfold(members, fields);
    var m := members[0];
    var more := fields[m.name := ValueOf(m.item.tree)];
    if |members| == 1 {
      var after := "}" + tail;
      MemberIsRead(m, fields, after);
      hide ValidMember, ParseMembers, ShowMember, ShowMembers, FieldsOf, ValueOf;
      Regroup(ShowMember(m), "}", tail, "");
      assert after[1..] == tail;
    } else {
      var later := ShowMembers(members[1..]) + "}" + tail;
      var after := "," + later;
      MemberIsRead(m, fields, after);
      MembersAreRead(members[1..], more, tail);
      hide ValidMember, ParseMembers, ShowMember, ShowMembers, FieldsOf, ValueOf;
      AfterComma(ShowMember(m), ShowMembers(members[1..]), "}", tail);
      assert after[1..] == later;
    }
  }

  // ---------------------------------------------------------------- what is read is a text of the grammar

  lemma QuoteOpens(inner: string)
    ensures ParseValue("\"" + inner) ==
      match ParseString(inner)
      case Fail => Fail
      case Done(text, rest) => Done(Str(text), rest)
  {
    var s := "\"" + inner;
    assert s[0] == '"' && s[1..] == inner;
    NoSpaceToSkip(s);
    hide ParseItems, ParseMembers, ParseNumber, ParseString, ParseWord, SkipSpace;
  }

  lemma ReadIsQuoted(s: string) returns (t: Tree)
    requires Starts(s, '"') && ParseValue(s).Done?
    ensures Valid(t) && s == Show(t) + ParseValue(s).rest && ParseValue(s).value == ValueOf(t)
  {
    hide ParseValue, ParseString, StringText;
    var inner := s[1..];
    assert s == "\"" + inner;
    QuoteOpens(inner);
    var body := ReadIsString(inner);
    t := Quoted(body, ParseString(inner).value);
  }

  lemma ReadIsWord(s: string) returns (t: Tree)
    requires s != "" && s[0] in "ntf" && ParseValue(s).Done?
    ensures Valid(t) && s == Show(t) + ParseValue(s).rest && ParseValue(s).value == ValueOf(t)
  {
    NoSpaceToSkip(s);
    t := Word(if s[0] == 'n' then "null" else if s[0] == 't' then "true" else "false");
    hide SkipSpace;
    assert t.word <= s ==> s == t.word + s[|t.word|..];
  }

  /** An empty record or list with the space inside it. */
  lemma ShowEmpty(space: string, tail: string)
    ensures Show(Record(space, [])) + tail == "{" + (space + ("}" + tail))
    ensures Show(List(space, [])) + tail == "[" + (space + ("]" + tail))
  {}

  lemma ShowFull(items: seq<Item>, members: seq<Member>, tail: string)
    ensures items != [] ==> Show(List("", items)) + tail == "[" + (ShowItems(items) + "]" + tail)
    ensures members != [] ==> Show(Record("", members)) + tail == "{" + (ShowMembers(members) + "}" + tail)
  {
    hide ShowItems, ShowMembers;
  }

  lemma {:induction false} ReadIsRecord(s: string) returns (t: Tree)
    requires Starts(s, '{') && ParseValue(s).Done?
    ensures Valid(t) && s == Show(t) + ParseValue(s).rest && ParseValue(s).value == ValueOf(t)
    decreases |s|, 0
  {
    hide SkipSpace, ParseValue, ParseMembers, Show, ShowMembers, FieldsOf, ValidMember;
    var inner := s[1..];
    assert s == "{" + inner;
    RecordOpens(inner);
    var u := SkipSpace(inner);
    if Starts(u, '}') {
      var space := SkippedIsSpace(inner);
      t := Record(space, []);
      assert u == "}" + u[1..];
      ShowEmpty(space, u[1..]);
      assert FieldsOf([], map[]) == map[] by {
        NoFields();
      }
    } else {
      var members := ReadIsMembers(inner, map[]);
      t := Record("", members);
      ShowFull([], members, ParseMembers(inner, map[]).rest);
    }
  }

  lemma NoFields()
    ensures FieldsOf([], map[]) == map[] && ValuesOf([]) == []
  {}

  lemma {:induction false} ReadIsList(s: string) returns (t: Tree)
    requires Starts(s, '[') && ParseValue(s).Done?
    ensures Valid(t) && s == Show(t) + ParseValue(s).rest && ParseValue(s).value == ValueOf(t)
    decreases |s|, 0
  {
    hide SkipSpace, ParseValue, ParseItems, Show, ShowItems, ValuesOf, ValidItem;
    var inner := s[1..];
    assert s == "[" + inner;
    ListOpens(inner);
    var u := SkipSpace(inner);
    if Starts(u, ']') {
      var space := SkippedIsSpace(inner);
      t := List(space, []);
      assert u == "]" + u[1..];
      ShowEmpty(space, u[1..]);
      NoFields();
    } else {
      var items := ReadIsItems(inner, []);
      t := List("", items);
      ShowFull(items, [], ParseItems(inner, []).rest);
      assert [] + ValuesOf(items) == ValuesOf(items);
    }
  }

  lemma SpaceThenValue(s: string) returns (before: string)
    requires ParseValue(s).Done?
    ensures Space(before) && s == before + SkipSpace(s) && SkipSpace(s) != ""
    ensures SkipSpace(s)[0] !in " \t\n\r" && ParseValue(SkipSpace(s)) == ParseValue(s)
  {
    before := SkippedIsSpace(s);
    SpaceBeforeValue(before, SkipSpace(s));
    hide SkipSpace;
  }

  /** Whatever is read is the text of a tree, behind some space. */
  lemma {:induction false} ReadIsTree(s: string) returns (before: string, t: Tree)
    requires ParseValue(s).Done?
    ensures Space(before) && Valid(t) && s == before + (Show(t) + ParseValue(s).rest)
    ensures ParseValue(s).value == ValueOf(t)
    decreases |s|, 1
  {
    before := SpaceThenValue(s);
    var u := SkipSpace(s);
    hide SkipSpace, ParseValue, Space, Show, ValueOf;
    if u[0] == '"' {
      t := ReadIsQuoted(u);
    } else if u[0] == '{' {
      t := ReadIsRecord(u);
    } else if u[0] == '[' {
      t := ReadIsList(u);
    } else if u[0] in "ntf" {
      t := ReadIsWord(u);
    } else {
      OtherIsNumber(u);
      var text := ReadIsNumber(u);
      t := NumberTree(text);
    }
  }

  lemma NumberTree(text: string) returns (t: Tree)
    requires NumberText(text)
    ensures Valid(t) && Show(t) == text && ValueOf(t) == Num
  {
    t := Number(text);
  }

  lemma {:induction false} ReadIsItem(s: string) returns (i: Item)
    requires ParseValue(s).Done?
    ensures ValidItem(i) && s == ShowItem(i) + SkipSpace(ParseValue(s).rest) && ParseValue(s).value == ValueOf(i.tree)
    decreases |s|, 2
  {
    var before, t := ReadIsTree(s);
    var after := SkippedIsSpace(ParseValue(s).rest);
    i := Item(before, t, after);
    hide SkipSpace, ParseValue, Show, ValueOf, Valid, Space;
    Regroup(before, Show(t), after, SkipSpace(ParseValue(s).rest));
  }

  lemma ItemsCons(i: Item, items: seq<Item>)
    requires items != []
    ensures ShowItems([i] + items) == ShowItem(i) + "," + ShowItems(items)
    ensures ValuesOf([i] + items) == [ValueOf(i.tree)] + ValuesOf(items)
  {
    hide ShowItem, ValueOf;
    assert ([i] + items)[1..] == items;
  }

  /** What reading items comes down to after the first one. */
  lemma ItemsStep(s: string, read: seq<Value>) returns (w: string)
    requires ParseItems(s, read).Done?
    ensures ParseValue(s).Done? && w == SkipSpace(ParseValue(s).rest) && |w| < |s| && w != ""
    ensures
      var more := read + [ParseValue(s).value];
      if w[0] == ',' then ParseItems(s, read) == ParseItems(w[1..], more)
      else w[0] == ']' && ParseItems(s, read) == Done(Arr(more), w[1..])
  {
    hide ParseValue, SkipSpace;
    w := SkipSpace(ParseValue(s).rest);
  }

  lemma OneItem(i: Item)
    ensures ShowItems([i]) == ShowItem(i) && ValuesOf([i]) == [ValueOf(i.tree)]
  {
    ItemsUnfold([i]);
    hide ShowItem, ValueOf;
  }

  lemma {:induction false} ReadIsItems(s: string, read: seq<Value>) returns (items: seq<Item>)
    requires ParseItems(s, read).Done?
    ensures items != [] && forall i | i in items :: ValidItem(i)
    ensures s == ShowItems(items) + "]" + ParseItems(s, read).rest
    ensures ParseItems(s, read).value == Arr(read + ValuesOf(items))
    decreases |s|, 3
  {
    hide ParseValue, ParseItems, SkipSpace, ShowItem, ShowItems, ValuesOf, ValueOf, ValidItem;
    var w := ItemsStep(s, read);
    var i := ReadIsItem(s);
    var value := ParseValue(s).value;
    assert w == [w[0]] + w[1..];
    if w[0] == ',' {
      var more := ReadIsItems(w[1..], read + [value]);
      items := [i] + more;
      ItemsCons(i, more);
      AfterComma(ShowItem(i), ShowItems(more), "]", ParseItems(w[1..], read + [value]).rest);
      assert read + [value] + ValuesOf(more) == read + ([value] + ValuesOf(more));
    } else {
      items := [i];
      OneItem(i);
    }
  }

  /** What reading a member comes down to: its name, the colon, its value and what follows. */
  lemma MembersStep(s: string, fields: map<string, Value>) returns (name: Parse<string>, u: string, w: string)
    requires ParseMembers(s, fields).Done?
    ensures Starts(SkipSpace(s), '"') && name == ParseString(SkipSpace(s)[1..]) && name.Done?
    ensures u == SkipSpace(name.rest) && Starts(u, ':') && ParseValue(u[1..]).Done?
    ensures w == SkipSpace(ParseValue(u[1..]).rest) && |u| < |s| && |w| < |s| && w != ""
    ensures
      var more := fields[name.value := ParseValue(u[1..]).value];
      if w[0] == ',' then ParseMembers(s, fields) == ParseMembers(w[1..], more)
      else w[0] == '}' && ParseMembers(s, fields) == Done(Obj(more), w[1..])
  {
    hide ParseValue, SkipSpace, ParseString;
    name := ParseString(SkipSpace(s)[1..]);
    u := SkipSpace(name.rest);
    w := SkipSpace(ParseValue(u[1..]).rest);
  }

  /** The pieces of a member that is read. */
  lemma {:induction false} ReadIsMember(s: string, fields: map<string, Value>) returns (m: Member, w: string)
    requires ParseMembers(s, fields).Done?
    ensures ValidMember(m) && s == ShowMember(m) + w && |w| < |s| && w != "" && (w[0] == ',' || w[0] == '}')
    ensures
      var more := fields[m.name := ValueOf(m.item.tree)];
      ParseMembers(s, fields) == if w[0] == ',' then ParseMembers(w[1..], more) else Done(Obj(more), w[1..])
    decreases |s|, 2
  {
    hide SkipSpace, ParseString, ParseValue, ParseMembers, ShowItem, ValidItem, StringText, ValueOf, Space;
    var name, u, rest := MembersStep(s, fields);
    var before := SkippedIsSpace(s);
    var t := SkipSpace(s);
    var body := ReadIsString(t[1..]);
    var middle := SkippedIsSpace(name.rest);
    var item := ReadIsItem(u[1..]);
    w := rest;
    m := Member(before, body, name.value, middle, item);
    assert t == "\"" + t[1..] && u == ":" + u[1..];
    MemberShape(before, body, middle, ShowItem(item), w);
  }

  lemma MembersCons(m: Member, members: seq<Member>, fields: map<string, Value>)
    requires members != []
    ensures ShowMembers([m] + members) == ShowMember(m) + "," + ShowMembers(members)
    ensures FieldsOf([m] + members, fields) == FieldsOf(members, fields[m.name := ValueOf(m.item.tree)])
  {
    hide ShowMember, ValueOf;
    assert ([m] + members)[1..] == members;
  }

  lemma OneMember(m: Member, fields: map<string, Value>)
    ensures ShowMembers([m]) == ShowMember(m)
    ensures FieldsOf([m], fields) == fields[m.name := ValueOf(m.item.tree)]
  {
    MembersUnfold([m], fields);
    hide ShowMember, ValueOf;
  }

  lemma {:induction false} ReadIsMembers(s: string, fields: map<string, Value>) returns (members: seq<Member>)
    requires ParseMembers(s, fields).Done?
    ensures members != [] && forall m | m in members :: ValidMember(m)
    ensures s == ShowMembers(members) + "}" + ParseMembers(s, fields).rest
    ensures ParseMembers(s, fields).value == Obj(FieldsOf(members, fields))
    decreases |s|, 3
  {
    hide ParseMembers, ShowMember, ValueOf, ValidMember, ShowMembers, FieldsOf;
    var m, w := ReadIsMember(s, fields);
    var more := fields[m.name := ValueOf(m.item.tree)];
    assert w == [w[0]] + w[1..];
    if w[0] == ',' {
      var others := ReadIsMembers(w[1..], more);
      members := [m] + others;
      MembersCons(m, others, fields);
      AfterComma(ShowMember(m), ShowMembers(others), "}", ParseMembers(w[1..], more).rest);
    } else {
      members := [m];
      OneMember(m, fields);
    }
  }

  /** `JSON.parse` accepts exactly the texts of the grammar, and gives them their values. */
  lemma ParserIsExact(s: string, v: Value)
    ensures FromText(s) == Some(v) <==> IsText(s, v)
  {
    if FromText(s) == Some(v) {
      var i := ReadIsItem(s);
      hide SkipSpace, ParseValue, ShowItem, ValueOf, ValidItem;
      assert s == ShowItem(i);
    }
    if i :| ValidItem(i) && s == ShowItem(i) && v == ValueOf(i.tree) {
      ItemTextRoundTrip(i);
    }
  }

  /** A value and the space around it, and nothing else. */
  lemma ItemTextRoundTrip(i: Item)
    requires ValidItem(i)
    ensures FromText(ShowItem(i)) == Some(ValueOf(i.tree))
  {
    assert Follows(i.after) by {
      assert i.after != "" ==> i.after[0] in i.after;
    }
    TreeIsRead(i.tree, i.after);
    ShowBegins(i.tree);
    SpaceIsSkipped(i.after, "");
    hide Valid, Show, ValueOf, ParseValue, SkipSpace;
    assert i.after + "" == i.after;
    Regroup(i.before, Show(i.tree), i.after, "");
    assert (Show(i.tree) + i.after)[0] == Show(i.tree)[0];
    SpaceBeforeValue(i.before, Show(i.tree) + i.after);
  }

  /** Parsing the text of a tree gives its value. */
  lemma TextRoundTrip(t: Tree)
    requires Valid(t)
    ensures FromText(Show(t)) == Some(ValueOf(t))
  {
    ItemTextRoundTrip(Item("", t, ""));
    hide FromText, Show, ValueOf, Valid;
    assert "" + Show(t) + "" == Show(t);
  }

  // ---------------------------------------------------------------- event references

  lemma EscapeIsText(text: string)
    ensures StringText(Escape(text), text)
  {
    StringRoundTrip(text, "");
    var s := Escape(text) + "\"" + "";
    var body := ReadIsString(s);
    hide ParseString, Escape, StringText;
    assert s == body + "\"" + "";
    assert body == s[..|s| - 1] == Escape(text);
  }

  /** `{ id }` as a tree. */
  function Reference(id: string): Tree
  {
    Record("", [Member("", "id", "id", "", Item("", Quoted(Escape(id), id), ""))])
  }

  lemma NameIsText()
    ensures StringText("id", "id")
  {
    assert CharText("i", 'i') && CharText("d", 'd');
    hide CharText;
    assert StringText("", "");
    StringTextCons("d", 'd', "", "");
    assert "d" + "" == "d" && ['d'] + "" == "d";
    StringTextCons("i", 'i', "d", "d");
    hide StringText;
    assert "i" + "d" == "id" && ['i'] + "d" == "id";
  }

  lemma ReferenceIsValid(id: string)
    ensures Valid(Reference(id))
  {
    EscapeIsText(id);
    NameIsText();
    hide StringText, Escape;
    var i := Item("", Quoted(Escape(id), id), "");
    var m := Member("", "id", "id", "", i);
    assert ValidItem(i);
    assert ValidMember(m) && forall x | x in [m] :: x == m;
  }

  lemma ShowQuoted(body: string, value: string)
    ensures ShowItem(Item("", Quoted(body, value), "")) == "\"" + body + "\""
  {
    assert "" + ("\"" + body + "\"") + "" == "\"" + body + "\"";
  }

  lemma ShowNamed(i: Item)
    ensures ShowMember(Member("", "id", "id", "", i)) == "\"id\":" + ShowItem(i)
  {
    hide ShowItem;
    assert "" + "\"" + "id" + "\"" + "" + ":" == "\"id\":";
  }

  lemma ShowOnly(m: Member)
    ensures Show(Record("", [m])) == "{" + ShowMember(m) + "}"
  {
    OneMember(m, map[]);
    hide ShowMember, ShowMembers;
  }

  lemma BraceReference(escaped: string)
    ensures "{" + ("\"id\":" + ("\"" + escaped + "\"")) + "}" == "{\"id\":\"" + escaped + "\"}"
  {}

  lemma ReferenceIsPrinted(id: string)
    ensures Valid(Reference(id)) && Show(Reference(id)) == PrintReference(id)
  {
    ReferenceIsValid(id);
    hide Valid, Escape, Show, ShowItem, ShowMember, ShowMembers;
    var i := Item("", Quoted(Escape(id), id), "");
    ShowQuoted(Escape(id), id);
    ShowNamed(i);
    ShowOnly(Member("", "id", "id", "", i));
    BraceReference(Escape(id));
  }

  /** Parsing a printed event reference gives back an object with exactly that id. */
  lemma ReferenceRoundTrip(id: string)
    ensures FromText(PrintReference(id)) == Some(Obj(map["id" := Str(id)]))
  {
    ReferenceIsPrinted(id);
    TextRoundTrip(Reference(id));
    hide FromText, Show, PrintReference, Valid;
    var m := Member("", "id", "id", "", Item("", Quoted(Escape(id), id), ""));
    assert FieldsOf([m], map[]) == FieldsOf([m][1..], map["id" := Str(id)]) == map["id" := Str(id)];
  }
}
