/** The five response shapes of src/json/jsonrpc_server.c, and what the client of src/json/jsonrpc_api.c makes of
    them. */
module WireReplies {
  import opened Options
  import opened JsmnSpec
  import opened JsonText
  import opened JsonReads
  import opened Wire
  import opened WireLists
  import opened Strings
  import opened JsonMessage
  import opened ParsedStrings
  import JsmnInvariant
  import R = JsonRpcSpec

  const INT_MIN := -0x8000_0000
  const INT_MAX := 0x7fff_ffff

  // `{ "value" : ... }`
  function ValueText(text: string): string {
    "{" + (" " + (SpacedKey("value") + (text + (" " + "}"))))
  }

  function ListReply(id: string, elements: seq<string>): string {
    Reply(id, "result", ValueText("[ " + Joined(elements, ", ", "\"", "\"") + " ]"))
  }

  function BoolReply(id: string, value: bool): string {
    Reply(id, "result", ValueText(BoolText(value)))
  }

  function IntReply(id: string, value: int): string {
    Reply(id, "result", ValueText(Decimal(value)))
  }

  datatype Attr = Attr(attribute: string, value: string)

  function AttrTexts(attrs: seq<Attr>): (r: seq<string>)
    ensures |r| == |attrs|
  {
    if attrs == [] then [] else [FieldText(attrs[0].attribute, attrs[0].value)] + AttrTexts(attrs[1..])
  }

  function AttrReply(id: string, attrs: seq<Attr>): string {
    Reply(id, "result", ValueText("{ " + Joined(AttrTexts(attrs), ", ", "", "") + " }"))
  }

  function ErrorReply(id: string, code: int, message: string): string {
    Reply(id, "error", "{" + (" " + (TightKey("code") + (Decimal(code) + (", " + (TightKey("message") + (Quoted(message) + (" " + "}"))))))))
  }

  function Answered(id: string, result: R.Map): R.Msg {
    R.Msg(None, Some(id), map[], result, map[])
  }

  function Answer(id: string, result: R.Map): R.Parsed {
    R.Ok(Answered(id, result))
  }

  // ---------------------------------------------------------------- results with one value

  function ValueObject(val: Value): Value {
    Obj(" ", Member("value", " ", " ", val, " ", NoMember))
  }

  lemma {:induction false} ValueObjectText(val: Value)
    ensures Text(ValueObject(val)) == ValueText(Text(val))
  {
    hide MembersText, SpacedKey;
    var m := Member("value", " ", " ", val, " ", NoMember);
    SpacedKeyMember("value", val, " ", NoMember);
    NoMemberText();
    CloseText(" ", m, MembersText(m) + "}");
    PushMember(SpacedKey("value"), Text(val), " ", "");
    assert "" + "}" == "}";
  }

  lemma {:induction false} ValueObjectReads(val: Value)
    requires Good(val) && Readable(val)
    ensures var v := ValueObject(val);
      Good(v) && Readable(v) && Size(v) == 2 + Size(val) && MembersMeaning(v.members, map[]) == map["value" := Meaning(val)]
  {
    PlainIsBody("value");
    hide JsmnInvariant.IsBody;
    LastMember("value", val, " ");
    ReadableLast("value", val, " ");
    assert Keys(NoMember) == {};
    assert MembersMeaning(NoMember, map["value" := Meaning(val)]) == map["value" := Meaning(val)];
  }

  lemma {:induction false} ReadableLast(key: string, val: Value, sep: string)
    requires |key| < R.MAX_STR_SIZE && Readable(val)
    ensures ReadableMembers(Member(key, " ", " ", val, sep, NoMember))
  {
  }

  /** A result with one value is framed and parsed to the table that holds this value; the body of a response may
      overshoot. */
  lemma {:induction false} ValueReplyParses(id: string, val: Value)
    requires WireString(id) && Good(val) && Readable(val) && 2 + Size(val) <= ROOM
    ensures R.ParseRpc(Reply(id, "result", ValueText(Text(val)))) == Answer(id, map["value" := Meaning(val)])
    ensures Framed(Reply(id, "result", ValueText(Text(val))), Answered(id, map["value" := Meaning(val)]))
  {
    hide R.ParseRpc, Reply, Good, Readable, Text, WireString, Size, ValueText;
    ValueObjectText(val);
    ValueObjectReads(val);
    ReplyFramed(id, "result", ValueObject(val));
  }

  lemma {:induction false} ListReplyRoundTrip(id: string, elements: seq<string>)
    requires WireString(id) && WireStrings(elements) && 3 + |elements| <= ROOM
    ensures R.ParseRpc(ListReply(id, elements)) == Answer(id, map["value" := R.ListOf(TextList(elements))])
    ensures Framed(ListReply(id, elements), Answered(id, map["value" := R.ListOf(TextList(elements))]))
  {
    hide R.ParseRpc, Reply, ValueText, WireString, ArrayOf;
    StringArray(elements);
    ValueReplyParses(id, ArrayOf(Strs(elements)));
  }

  /** A list response with a wire id is read back exactly when all its strings are wire strings. */
  lemma {:induction false} ListReplyExact(id: string, elements: seq<string>)
    requires WireString(id) && 3 + |elements| <= ROOM
    ensures R.ParseRpc(ListReply(id, elements)) == Answer(id, map["value" := R.ListOf(TextList(elements))]) <==> WireStrings(elements)
  {
    hide R.ParseRpc, ListReply, WireString, WireStrings, R.ListOf, WireValue;
    if WireStrings(elements) {
      ListReplyRoundTrip(id, elements);
    } else if R.ParseRpc(ListReply(id, elements)) == Answer(id, map["value" := R.ListOf(TextList(elements))]) {
      ParsedIsWire(ListReply(id, elements));
      OneEntry("value", R.ListOf(TextList(elements)));
      ListOnlyWire(elements);
    }
  }

  lemma {:induction false} OneEntry(key: string, v: R.JVal)
    requires WireTable(map[key := v])
    ensures WireValue(v)
  {
    hide WireString, WireValue;
    assert map[key := v][key] == v;
  }

  lemma {:induction false} BoolReplyRoundTrip(id: string, value: bool)
    requires WireString(id)
    ensures R.ParseRpc(BoolReply(id, value)) == Answer(id, map["value" := R.Bool(value)])
  {
    hide R.ParseRpc, Reply, ValueText, WireString;
    BoolReads(value);
    ValueReplyParses(id, Prim(BoolText(value)));
  }

  lemma {:induction false} IntReplyRoundTrip(id: string, value: int)
    requires WireString(id) && INT_MIN <= value <= INT_MAX
    ensures R.ParseRpc(IntReply(id, value)) == Answer(id, map["value" := R.Long(value)])
  {
    hide R.ParseRpc, Reply, ValueText, WireString, Decimal;
    DecimalReads(value);
    ValueReplyParses(id, Prim(Decimal(value)));
  }

  // ---------------------------------------------------------------- attributes

  function AttrFields(attrs: seq<Attr>): (r: seq<Field>)
    ensures |r| == |attrs|
    ensures forall i :: 0 <= i < |attrs| ==>
      r[i] == Field(attrs[i].attribute, attrs[i].value, if i == |attrs| - 1 then " " else ", ")
  {
    if attrs == [] then []
    else [Field(attrs[0].attribute, attrs[0].value, if |attrs| == 1 then " " else ", ")] + AttrFields(attrs[1..])
  }

  // The attributes as a table; with distinct names, nothing is lost.
  function AttrTable(attrs: seq<Attr>, table: R.Map): R.Map {
    if attrs == [] then table else AttrTable(attrs[1..], table[attrs[0].attribute := R.JVal.Text(attrs[0].value)])
  }

  predicate AttrsOnWire(attrs: seq<Attr>) {
    && (forall i :: 0 <= i < |attrs| ==> WireString(attrs[i].attribute) && WireString(attrs[i].value))
    && (forall i, j :: 0 <= i < j < |attrs| ==> attrs[i].attribute != attrs[j].attribute)
  }

  lemma {:induction false} AttrFieldsText(attrs: seq<Attr>)
    requires attrs != []
    ensures FieldsText(AttrFields(attrs)) == Joined(AttrTexts(attrs), ", ", "", "") + " "
  {
    hide FieldText;
    var first := FieldText(attrs[0].attribute, attrs[0].value);
    assert "" + first + "" == first;
    if |attrs| > 1 {
      AttrFieldsText(attrs[1..]);
      assert AttrFields(attrs)[1..] == AttrFields(attrs[1..]);
      assert AttrTexts(attrs)[1..] == AttrTexts(attrs[1..]);
      var rest := Joined(AttrTexts(attrs[1..]), ", ", "", "");
      assert first + ", " + (rest + " ") == first + ", " + rest + " ";
    } else {
      assert FieldsText(AttrFields(attrs)[1..]) == "";
      assert AttrTexts(attrs) == [first];
    }
  }

  lemma {:induction false} AttrFieldTable(attrs: seq<Attr>, table: R.Map)
    ensures FieldTable(AttrFields(attrs), table) == AttrTable(attrs, table)
  {
    if attrs != [] {
      assert AttrFields(attrs)[1..] == AttrFields(attrs[1..]);
      AttrFieldTable(attrs[1..], table[attrs[0].attribute := R.JVal.Text(attrs[0].value)]);
    }
  }

  function AttrObject(attrs: seq<Attr>): Value {
    Obj(if attrs == [] then "  " else " ", FieldMembers(AttrFields(attrs)))
  }

  lemma {:induction false} AttrObjectText(attrs: seq<Attr>)
    ensures Text(AttrObject(attrs)) == "{ " + Joined(AttrTexts(attrs), ", ", "", "") + " }"
  {
    hide Joined, FieldsText, MembersText;
    FieldsAreText(AttrFields(attrs));
    if attrs == [] {
      EmptyJoin();
      assert FieldsText([]) == "" by { NoFieldText(); }
      assert "{" + "  " + "" + "}" == "{ " + "" + " }";
    } else {
      AttrFieldsText(attrs);
      var list := Joined(AttrTexts(attrs), ", ", "", "");
      assert "{" + " " + (list + " ") + "}" == "{ " + list + " }";
    }
  }

  lemma {:induction false} NoFieldText()
    ensures FieldsText([]) == ""
  {
  }

  lemma {:induction false} AttrReplyRoundTrip(id: string, attrs: seq<Attr>)
    requires WireString(id) && AttrsOnWire(attrs) && 3 + 2 * |attrs| <= ROOM
    ensures R.ParseRpc(AttrReply(id, attrs)) == Answer(id, map["value" := R.Table(AttrTable(attrs, map[]))])
    ensures Framed(AttrReply(id, attrs), Answered(id, map["value" := R.Table(AttrTable(attrs, map[]))]))
  {
    hide R.ParseRpc, Reply, ValueText, WireString;
    assert FieldsOk(AttrFields(attrs));
    hide AttrsOnWire, FieldsOk;
    FieldsAreMembers(AttrFields(attrs));
    FieldsMean(AttrFields(attrs), map[]);
    AttrFieldTable(attrs, map[]);
    AttrObjectText(attrs);
    ValueReplyParses(id, AttrObject(attrs));
  }

  /** An attribute response with a wire id and distinct names is read back exactly when all names and values are wire
      strings. */
  lemma {:induction false} AttrReplyExact(id: string, attrs: seq<Attr>)
    requires WireString(id) && 3 + 2 * |attrs| <= ROOM
    requires forall i, j :: 0 <= i < j < |attrs| ==> attrs[i].attribute != attrs[j].attribute
    ensures R.ParseRpc(AttrReply(id, attrs)) == Answer(id, map["value" := R.Table(AttrTable(attrs, map[]))]) <==> AttrsOnWire(attrs)
  {
    hide R.ParseRpc, AttrReply, WireString, WireValue, AttrTable;
    if AttrsOnWire(attrs) {
      AttrReplyRoundTrip(id, attrs);
    } else if R.ParseRpc(AttrReply(id, attrs)) == Answer(id, map["value" := R.Table(AttrTable(attrs, map[]))]) {
      ParsedIsWire(AttrReply(id, attrs));
      OneEntry("value", R.Table(AttrTable(attrs, map[])));
      forall i | 0 <= i < |attrs|
        ensures WireString(attrs[i].attribute) && WireString(attrs[i].value)
      {
        AttrEntry(attrs, map[], i);
        AttrOnlyWire(AttrTable(attrs, map[]), attrs[i]);
      }
    }
  }

  lemma {:induction false} AttrEntry(attrs: seq<Attr>, table: R.Map, i: nat)
    requires i < |attrs| && forall i, j :: 0 <= i < j < |attrs| ==> attrs[i].attribute != attrs[j].attribute
    ensures attrs[i].attribute in AttrTable(attrs, table) && AttrTable(attrs, table)[attrs[i].attribute] == R.JVal.Text(attrs[i].value)
  {
    var table' := table[attrs[0].attribute := R.JVal.Text(attrs[0].value)];
    if i > 0 {
      AttrEntry(attrs[1..], table', i - 1);
    } else {
      AttrEntryStays(attrs[1..], table', attrs[0].attribute);
    }
  }

  lemma {:induction false} AttrEntryStays(attrs: seq<Attr>, table: R.Map, name: string)
    requires name in table && forall i :: 0 <= i < |attrs| ==> attrs[i].attribute != name
    ensures name in AttrTable(attrs, table) && AttrTable(attrs, table)[name] == table[name]
  {
    if attrs != [] {
      AttrEntryStays(attrs[1..], table[attrs[0].attribute := R.JVal.Text(attrs[0].value)], name);
    }
  }

  lemma {:induction false} AttrOnlyWire(table: R.Map, attr: Attr)
    requires WireValue(R.Table(table)) && attr.attribute in table && table[attr.attribute] == R.JVal.Text(attr.value)
    ensures WireString(attr.attribute) && WireString(attr.value)
  {
    hide WireString;
    assert WireValue(table[attr.attribute]);
  }

  // ---------------------------------------------------------------- errors

  function ErrorObject(code: int, message: string): Value {
    Obj(" ", Member("code", "", " ", Prim(Decimal(code)), ", ", Member("message", "", " ", Str(message), " ", NoMember)))
  }

  lemma {:induction false} ErrorObjectText(code: int, message: string)
    ensures Text(ErrorObject(code, message)) ==
      "{" + (" " + (TightKey("code") + (Decimal(code) + (", " + (TightKey("message") + (Quoted(message) + (" " + "}")))))))
  {
    hide MembersText, TightKey, Decimal, Quoted;
    var m2 := Member("message", "", " ", Str(message), " ", NoMember);
    var m1 := Member("code", "", " ", Prim(Decimal(code)), ", ", m2);
    TightMember("message", Str(message), " ", NoMember);
    TightMember("code", Prim(Decimal(code)), ", ", m2);
    QuotedStr(message);
    assert Text(Prim(Decimal(code))) == Decimal(code);
    NoMemberText();
    CloseText(" ", m1, MembersText(m1) + "}");
    PushMember(TightKey("code"), Decimal(code), ", ", MembersText(m2));
    PushMember(TightKey("message"), Quoted(message), " ", "");
    assert "" + "}" == "}";
  }

  // An object of two scalar members.
  lemma {:induction false} TwoReads(k1: string, v1: Value, k2: string, v2: Value)
    requires WireString(k1) && WireString(k2) && k1 != k2 && ScalarReads(v1) && ScalarReads(v2)
    ensures var v := Obj(" ", Member(k1, "", " ", v1, ", ", Member(k2, "", " ", v2, " ", NoMember)));
      Good(v) && Readable(v) && Size(v) == 5 && MembersMeaning(v.members, map[]) == map[k1 := Meaning(v1), k2 := Meaning(v2)]
  {
    hide ScalarReads, WireString, Meaning;
    var m2 := Member(k2, "", " ", v2, " ", NoMember);
    var m1 := Member(k1, "", " ", v1, ", ", m2);
    ScalarMember(m2);
    ScalarMember(m1);
    var t1 := map[k1 := Meaning(v1)];
    assert MembersMeaning(m2, t1) == MembersMeaning(NoMember, t1[k2 := Meaning(v2)]);
    assert MembersMeaning(m1, map[]) == MembersMeaning(m2, t1);
  }

  lemma {:induction false} ErrorKeys()
    ensures WireString("code") && WireString("message") && "code" != "message"
  {
    hide JsmnInvariant.IsBody;
    PlainIsBody("code");
    PlainIsBody("message");
    assert "code"[0] != "message"[0];
  }

  lemma {:induction false} ErrorObjectReads(code: int, message: string)
    requires WireString(message) && INT_MIN <= code <= INT_MAX
    ensures var v := ErrorObject(code, message);
      Good(v) && Readable(v) && Size(v) == 5 &&
      MembersMeaning(v.members, map[]) == map["code" := R.Long(code), "message" := R.JVal.Text(message)]
  {
    DecimalReads(code);
    var num := Prim(Decimal(code));
    assert Meaning(num) == R.Long(code);
    assert ScalarReads(num) && ScalarReads(Str(message));
    StrMeaning(message);
    ErrorKeys();
    hide ScalarReads, WireString, Decimal, Meaning, Good, Readable, Size, MembersMeaning;
    TwoReads("code", num, "message", Str(message));
  }

  lemma {:induction false} StrMeaning(s: string)
    ensures Meaning(Str(s)) == R.JVal.Text(s)
  {
  }

  lemma {:induction false} ErrorReplyRoundTrip(id: string, code: int, message: string)
    requires WireString(id) && WireString(message) && INT_MIN <= code <= INT_MAX
    ensures R.ParseRpc(ErrorReply(id, code, message)) ==
      R.Ok(R.Msg(None, Some(id), map[], map[], map["code" := R.Long(code), "message" := R.JVal.Text(message)]))
  {
    hide R.ParseRpc, Reply, WireString, Decimal, TightKey, Quoted;
    ErrorObjectText(code, message);
    ErrorObjectReads(code, message);
    ReplyFramed(id, "error", ErrorObject(code, message));
  }

  /** An error response with a wire id is read back exactly when its message is a wire string. */
  lemma {:induction false} ErrorReplyExact(id: string, code: int, message: string)
    requires WireString(id) && INT_MIN <= code <= INT_MAX
    ensures R.ParseRpc(ErrorReply(id, code, message)) ==
        R.Ok(R.Msg(None, Some(id), map[], map[], map["code" := R.Long(code), "message" := R.JVal.Text(message)]))
      <==> WireString(message)
  {
    hide R.ParseRpc, ErrorReply, WireString, WireValue;
    if WireString(message) {
      ErrorReplyRoundTrip(id, code, message);
    } else if R.ParseRpc(ErrorReply(id, code, message)) ==
        R.Ok(R.Msg(None, Some(id), map[], map[], map["code" := R.Long(code), "message" := R.JVal.Text(message)])) {
      ParsedIsWire(ErrorReply(id, code, message));
      MessageEntry(map["code" := R.Long(code), "message" := R.JVal.Text(message)], message);
    }
  }

  lemma {:induction false} MessageEntry(table: R.Map, message: string)
    requires WireTable(table) && "message" in table && table["message"] == R.JVal.Text(message)
    ensures WireString(message)
  {
    hide WireString;
    assert WireValue(table["message"]);
  }
}
