/** JSON values (RFC 8259) as a printer to, and a parser from, sequences of tokens. */
module Json {
  import opened GoBase

  /** A JSON value. Numbers are kept as the text they are written as; objects keep their members in order. */
  datatype Value =
    | JNull
    | JBool(b: bool)
    | JNumber(text: bytes)
    | JString(s: bytes)
    | JArray(items: seq<Value>)
    | JObject(members: seq<Member>)

  datatype Member = Member(key: bytes, value: Value)

  /** The six structural characters, the three literal names, numbers and strings. */
  datatype Token =
    | BeginObject | EndObject | BeginArray | EndArray | NameSeparator | ValueSeparator
    | True | False | Null | Number(text: bytes) | String(s: bytes)

  // ----- printing

  function Print(v: Value): (ts: seq<Token>)
    ensures ts != [] && ts[0] !in {EndArray, EndObject, ValueSeparator, NameSeparator}
    decreases v, 0
  {
    match v
    case JNull => [Null]
    case JBool(b) => [if b then True else False]
    case JNumber(text) => [Number(text)]
    case JString(s) => [String(s)]
    case JArray(items) => [BeginArray] + PrintItems(items) + [EndArray]
    case JObject(members) => [BeginObject] + PrintMembers(members) + [EndObject]
  }

  function PrintItems(items: seq<Value>): seq<Token>
    decreases items, 0
  {
    if items == [] then []
    else if |items| == 1 then Print(items[0])
    else Print(items[0]) + [ValueSeparator] + PrintItems(items[1..])
  }

  function PrintMember(m: Member): seq<Token>
    decreases m, 1
  {
    [String(m.key), NameSeparator] + Print(m.value)
  }

  function PrintMembers(members: seq<Member>): seq<Token>
    decreases members, 0
  {
    if members == [] then []
    else if |members| == 1 then PrintMember(members[0])
    else PrintMember(members[0]) + [ValueSeparator] + PrintMembers(members[1..])
  }

  // ----- parsing

  /** A parsed thing and the tokens after it. */
  datatype Parsed<T> = Parsed(result: T, rest: seq<Token>) | Malformed

  function ParseValue(ts: seq<Token>): (p: Parsed<Value>)
    ensures p.Parsed? ==> |p.rest| < |ts|
    decreases |ts|, 0
  {
    if ts == [] then Malformed
    else match ts[0]
      case Null => Parsed(JNull, ts[1..])
      case True => Parsed(JBool(true), ts[1..])
      case False => Parsed(JBool(false), ts[1..])
      case Number(text) => Parsed(JNumber(text), ts[1..])
      case String(s) => Parsed(JString(s), ts[1..])
      case BeginArray =>
        if |ts| > 1 && ts[1] == EndArray then Parsed(JArray([]), ts[2..])
        else
          var items := ParseItems(ts[1..]);
          if items.Parsed? then Parsed(JArray(items.result), items.rest) else Malformed
      case BeginObject =>
        if |ts| > 1 && ts[1] == EndObject then Parsed(JObject([]), ts[2..])
        else
          var members := ParseMembers(ts[1..]);
          if members.Parsed? then Parsed(JObject(members.result), members.rest) else Malformed
      case _ => Malformed
  }

  /** One or more items and the closing bracket. */
  function ParseItems(ts: seq<Token>): (p: Parsed<seq<Value>>)
    ensures p.Parsed? ==> |p.rest| < |ts|
    decreases |ts|, 1
  {
    var first := ParseValue(ts);
    if first.Malformed? || first.rest == [] then Malformed
    else if first.rest[0] == EndArray then Parsed([first.result], first.rest[1..])
    else if first.rest[0] == ValueSeparator then
      var more := ParseItems(first.rest[1..]);
      if more.Parsed? then Parsed([first.result] + more.result, more.rest) else Malformed
    else Malformed
  }

  function ParseMember(ts: seq<Token>): (p: Parsed<Member>)
    ensures p.Parsed? ==> |p.rest| < |ts|
    decreases |ts|, 1
  {
    if |ts| < 2 || !ts[0].String? || ts[1] != NameSeparator then Malformed
    else
      var v := ParseValue(ts[2..]);
      if v.Parsed? then Parsed(Member(ts[0].s, v.result), v.rest) else Malformed
  }

  /** One or more members and the closing brace. */
  function ParseMembers(ts: seq<Token>): (p: Parsed<seq<Member>>)
    ensures p.Parsed? ==> |p.rest| < |ts|
    decreases |ts|, 2
  {
    var first := ParseMember(ts);
    if first.Malformed? || first.rest == [] then Malformed
    else if first.rest[0] == EndObject then Parsed([first.result], first.rest[1..])
    else if first.rest[0] == ValueSeparator then
      var more := ParseMembers(first.rest[1..]);
      if more.Parsed? then Parsed([first.result] + more.result, more.rest) else Malformed
    else Malformed
  }

  /** A document: one value and nothing after it. */
  function Parse(ts: seq<Token>): Option<Value> {
    var p := ParseValue(ts);
    if p.Parsed? && p.rest == [] then Some(p.result) else None
  }

  lemma Regroup(a: seq<Token>, sep: Token, b: seq<Token>, c: seq<Token>)
    ensures a + ([sep] + (b + c)) == (a + [sep] + b) + c
  {
  }

  lemma Bracket(left: Token, inside: seq<Token>, right: Token, rest: seq<Token>)
    ensures [left] + (inside + ([right] + rest)) == ([left] + inside + [right]) + rest
  {
  }

  // ----- the parser reads back what the printer wrote

  lemma FirstItemToken(items: seq<Value>)
    requires items != []
    ensures PrintItems(items) != [] && PrintItems(items)[0] == Print(items[0])[0]
  {
  }

  lemma {:induction false} ParseOfPrint(v: Value, rest: seq<Token>)
    ensures ParseValue(Print(v) + rest) == Parsed(v, rest)
    decreases v, 0
  {
    var ts := Print(v) + rest;
    match v
    case JArray(items) =>
      if items != [] {
        assert ts[1..] == PrintItems(items) + ([EndArray] + rest);
        ParseOfItems(items, rest);
        FirstItemToken(items);
      } else {
        assert ts == [BeginArray, EndArray] + rest;
      }
    case JObject(members) =>
      if members != [] {
        assert ts[1..] == PrintMembers(members) + ([EndObject] + rest);
        ParseOfMembers(members, rest);
        assert PrintMembers(members)[0] == String(members[0].key);
      } else {
        assert ts == [BeginObject, EndObject] + rest;
      }
    case _ =>
      assert ts[1..] == rest;
  }

  lemma PrintItemsStep(items: seq<Value>)
    requires items != []
    ensures PrintItems(items) ==
            if |items| == 1 then Print(items[0]) else Print(items[0]) + [ValueSeparator] + PrintItems(items[1..])
  {
  }

  lemma PrintMembersStep(members: seq<Member>)
    requires members != []
    ensures PrintMembers(members) ==
            if |members| == 1 then PrintMember(members[0])
            else PrintMember(members[0]) + [ValueSeparator] + PrintMembers(members[1..])
  {
  }

  lemma {:induction false} ParseOfItems(items: seq<Value>, rest: seq<Token>)
    requires items != []
    ensures ParseItems(PrintItems(items) + ([EndArray] + rest)) == Parsed(items, rest)
    decreases items, 0
  {
    hide Print, PrintItems, ParseValue;
    PrintItemsStep(items);
    if |items| == 1 {
      ParseOfPrint(items[0], [EndArray] + rest);
      assert items == [items[0]];
    } else {
      var tail := PrintItems(items[1..]) + ([EndArray] + rest);
      Regroup(Print(items[0]), ValueSeparator, PrintItems(items[1..]), [EndArray] + rest);
      ParseOfPrint(items[0], [ValueSeparator] + tail);
      assert ([ValueSeparator] + tail)[1..] == tail;
      ParseOfItems(items[1..], rest);
      assert items == [items[0]] + items[1..];
    }
  }

  lemma {:induction false} ParseOfMember(m: Member, rest: seq<Token>)
    ensures ParseMember(PrintMember(m) + rest) == Parsed(m, rest)
    decreases m, 1
  {
    var ts := PrintMember(m) + rest;
    assert ts[2..] == Print(m.value) + rest;
    ParseOfPrint(m.value, rest);
  }

  lemma {:induction false} ParseOfMembers(members: seq<Member>, rest: seq<Token>)
    requires members != []
    ensures ParseMembers(PrintMembers(members) + ([EndObject] + rest)) == Parsed(members, rest)
    decreases members, 0
  {
    hide PrintMember, PrintMembers, ParseMember;
    PrintMembersStep(members);
    if |members| == 1 {
      ParseOfMember(members[0], [EndObject] + rest);
      assert members == [members[0]];
    } else {
      var tail := PrintMembers(members[1..]) + ([EndObject] + rest);
      Regroup(PrintMember(members[0]), ValueSeparator, PrintMembers(members[1..]), [EndObject] + rest);
      ParseOfMember(members[0], [ValueSeparator] + tail);
      assert ([ValueSeparator] + tail)[1..] == tail;
      ParseOfMembers(members[1..], rest);
      assert members == [members[0]] + members[1..];
    }
  }

  /** Every JSON value, of any depth and width, survives printing and parsing. */
  lemma ParseInvertsPrint(v: Value)
    ensures Parse(Print(v)) == Some(v)
  {
    ParseOfPrint(v, []);
    assert Print(v) + [] == Print(v);
  }

  // ----- and accepts nothing else

  lemma {:induction false} PrintOfParse(ts: seq<Token>)
    requires ParseValue(ts).Parsed?
    ensures ts == Print(ParseValue(ts).result) + ParseValue(ts).rest
    decreases |ts|, 0
  {
    if ts[0] == BeginArray {
      PrintOfParsedArray(ts);
    } else if ts[0] == BeginObject {
      PrintOfParsedObject(ts);
    } else {
      assert ts == [ts[0]] + ts[1..];
    }
  }

  lemma NothingToPrint()
    ensures PrintItems([]) == [] && PrintMembers([]) == []
  {
  }

  lemma {:induction false} PrintOfParsedArray(ts: seq<Token>)
    requires ParseValue(ts).Parsed? && ts[0] == BeginArray
    ensures ts == Print(ParseValue(ts).result) + ParseValue(ts).rest
    decreases |ts|, 0, 0
  {
    hide ParseItems, PrintItems, ParseMembers, PrintMembers;
    if |ts| > 1 && ts[1] == EndArray {
      NothingToPrint();
      assert ts == [BeginArray, EndArray] + ts[2..];
    } else {
      var items := ParseItems(ts[1..]);
      PrintOfParsedItems(ts[1..]);
      assert ts == [BeginArray] + ts[1..];
      Bracket(BeginArray, PrintItems(items.result), EndArray, items.rest);
    }
  }

  lemma {:induction false} PrintOfParsedObject(ts: seq<Token>)
    requires ParseValue(ts).Parsed? && ts[0] == BeginObject
    ensures ts == Print(ParseValue(ts).result) + ParseValue(ts).rest
    decreases |ts|, 0, 0
  {
    hide ParseItems, PrintItems, ParseMembers, PrintMembers;
    if |ts| > 1 && ts[1] == EndObject {
      NothingToPrint();
      assert ts == [BeginObject, EndObject] + ts[2..];
    } else {
      var members := ParseMembers(ts[1..]);
      PrintOfParsedMembers(ts[1..]);
      assert ts == [BeginObject] + ts[1..];
      Bracket(BeginObject, PrintMembers(members.result), EndObject, members.rest);
    }
  }

  lemma {:induction false} PrintOfParsedItems(ts: seq<Token>)
    requires ParseItems(ts).Parsed?
    ensures ParseItems(ts).result != []
    ensures ts == PrintItems(ParseItems(ts).result) + ([EndArray] + ParseItems(ts).rest)
    decreases |ts|, 1
  {
    var first := ParseValue(ts);
    PrintOfParse(ts);
    assert first.rest == [first.rest[0]] + first.rest[1..];
    if first.rest[0] == ValueSeparator {
      PrintOfParsedItems(first.rest[1..]);
      var more := ParseItems(first.rest[1..]);
      assert ParseItems(ts).result[1..] == more.result;
      Regroup(Print(first.result), ValueSeparator, PrintItems(more.result), [EndArray] + more.rest);
    } else {
      assert PrintItems([first.result]) == Print(first.result);
    }
  }

  lemma {:induction false} PrintOfParsedMember(ts: seq<Token>)
    requires ParseMember(ts).Parsed?
    ensures ts == PrintMember(ParseMember(ts).result) + ParseMember(ts).rest
    decreases |ts|, 1
  {
    PrintOfParse(ts[2..]);
    assert ts == [ts[0], ts[1]] + ts[2..];
  }

  lemma {:induction false} PrintOfParsedMembers(ts: seq<Token>)
    requires ParseMembers(ts).Parsed?
    ensures ParseMembers(ts).result != []
    ensures ts == PrintMembers(ParseMembers(ts).result) + ([EndObject] + ParseMembers(ts).rest)
    decreases |ts|, 2
  {
    var first := ParseMember(ts);
    PrintOfParsedMember(ts);
    assert first.rest == [first.rest[0]] + first.rest[1..];
    if first.rest[0] == ValueSeparator {
      PrintOfParsedMembers(first.rest[1..]);
      var more := ParseMembers(first.rest[1..]);
      assert ParseMembers(ts).result[1..] == more.result;
      Regroup(PrintMember(first.result), ValueSeparator, PrintMembers(more.result), [EndObject] + more.rest);
    } else {
      assert PrintMembers([first.result]) == PrintMember(first.result);
    }
  }

  /** A token sequence parses to a value exactly when it is that value's printed form. */
  lemma ParseIffPrinted(ts: seq<Token>, v: Value)
    ensures Parse(ts) == Some(v) <==> ts == Print(v)
  {
    ParseInvertsPrint(v);
    if Parse(ts) == Some(v) {
      PrintOfParse(ts);
      assert Print(v) + [] == Print(v);
    }
  }

  /** The grammar at work, on an object of a string and a list: {"a":"b","c":[null,true]}. */
  lemma PrintExample()
    ensures Print(JObject([Member("a", JString("b")), Member("c", JArray([JNull, JBool(true)]))]))
            == [BeginObject, String("a"), NameSeparator, String("b"), ValueSeparator, String("c"), NameSeparator,
                BeginArray, Null, ValueSeparator, True, EndArray, EndObject]
  {
    var items := [JNull, JBool(true)];
    var a, c := Member("a", JString("b")), Member("c", JArray(items));
    assert items[1..] == [JBool(true)] && [a, c][1..] == [c];
    assert PrintItems(items) == [Null, ValueSeparator, True];
    assert PrintMember(a) == [String("a"), NameSeparator, String("b")];
    assert PrintMember(c) == [String("c"), NameSeparator, BeginArray, Null, ValueSeparator, True, EndArray];
  }
}
