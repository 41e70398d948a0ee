/** The message printers: the request templates of src/json/jsonrpc_api.c and the response templates of
    src/json/jsonrpc_server.c, and the proof that each text is parsed to exactly what was printed. */
module Wire {
  import opened Options
  import opened JsmnSpec
  import opened JsonText
  import opened JsonReads
  import opened JsonMessage
  import opened Strings
  import JsmnInvariant
  import R = JsonRpcSpec

  const REQUEST_ID := "id-xpto-123"

  /** A string that survives the wire: printers do not escape and the reader does not unescape, so it must be a
      string body as it stands, and fit the reader's buffer. */
  predicate WireString(s: string) {
    JsmnInvariant.IsBody(s) && |s| < R.MAX_STR_SIZE
  }

  // ---------------------------------------------------------------- objects with string members

  /** A string member: `"key" : "value"` and the separator behind it. */
  datatype Field = Field(key: string, value: string, sep: string)

  function FieldText(key: string, value: string): string {
    "\"" + key + "\" : \"" + value + "\""
  }

  function FieldsText(fields: seq<Field>): string {
    if fields == [] then "" else FieldText(fields[0].key, fields[0].value) + fields[0].sep + FieldsText(fields[1..])
  }

  function ObjectText(pad: string, fields: seq<Field>): string {
    "{" + pad + FieldsText(fields) + "}"
  }

  function FieldMembers(fields: seq<Field>): Members {
    if fields == [] then NoMember
    else Member(fields[0].key, " ", " ", Str(fields[0].value), fields[0].sep, FieldMembers(fields[1..]))
  }

  // The table the fields are read into.
  function FieldTable(fields: seq<Field>, table: R.Map): R.Map {
    if fields == [] then table else FieldTable(fields[1..], table[fields[0].key := R.JVal.Text(fields[0].value)])
  }

  predicate FieldsOk(fields: seq<Field>) {
    && (forall i :: 0 <= i < |fields| ==> WireString(fields[i].key) && WireString(fields[i].value) && Separator(fields[i].sep))
    && (forall i :: 0 <= i < |fields| - 1 ==> ',' in fields[i].sep)
    && (forall i, j :: 0 <= i < j < |fields| ==> fields[i].key != fields[j].key)
  }

  lemma {:induction false} FieldKeys(fields: seq<Field>)
    ensures forall key :: key in Keys(FieldMembers(fields)) <==> exists i :: 0 <= i < |fields| && fields[i].key == key
  {
    if fields != [] {
      FieldKeys(fields[1..]);
      forall key
        ensures key in Keys(FieldMembers(fields)) <==> exists i :: 0 <= i < |fields| && fields[i].key == key
      {
        if key in Keys(FieldMembers(fields[1..])) {
          var i :| 0 <= i < |fields[1..]| && fields[1..][i].key == key;
          assert fields[i + 1].key == key;
        }
        if i :| 0 <= i < |fields| && fields[i].key == key && i > 0 {
          assert fields[1..][i - 1].key == key;
        }
      }
    }
  }

  lemma {:induction false} FieldHead(key: string, value: string)
    ensures MemberHead(key, " ", " ") + Text(Str(value)) == FieldText(key, value)
  {
    assert "\"" + key + "\"" + " " + ":" + " " + ("\"" + value + "\"") == "\"" + key + "\" : \"" + value + "\"";
  }

  // What the fields are: their text, tokens and meaning as members of an object.
  lemma {:induction false} FieldsAreMembers(fields: seq<Field>)
    requires FieldsOk(fields)
    ensures MembersText(FieldMembers(fields)) == FieldsText(fields)
    ensures GoodMembers(FieldMembers(fields)) && ReadableMembers(FieldMembers(fields))
    ensures MembersOvershoot(FieldMembers(fields)) == 0 && MembersSize(FieldMembers(fields)) == 2 * |fields|
  {
    FieldsAreText(fields);
    FieldsAreGood(fields);
  }

  lemma {:induction false} FieldsAreText(fields: seq<Field>)
    ensures MembersText(FieldMembers(fields)) == FieldsText(fields)
  {
    if fields != [] {
      FieldsAreText(fields[1..]);
      FieldHead(fields[0].key, fields[0].value);
    }
  }

  lemma {:induction false} FieldsAreGood(fields: seq<Field>)
    requires FieldsOk(fields)
    ensures GoodMembers(FieldMembers(fields)) && ReadableMembers(FieldMembers(fields))
    ensures MembersOvershoot(FieldMembers(fields)) == 0 && MembersSize(FieldMembers(fields)) == 2 * |fields|
  {
    if fields != [] {
      hide JsmnInvariant.IsBody;
      var f := fields[0];
      var rest := fields[1..];
      assert forall i :: 0 <= i < |rest| ==> rest[i] == fields[i + 1];
      FieldsAreGood(rest);
      FieldKeys(rest);
      var m := Member(f.key, " ", " ", Str(f.value), f.sep, FieldMembers(rest));
      assert FieldMembers(fields) == m;
      assert m.rest.Member? ==> ',' in f.sep;
      assert f.key !in Keys(m.rest);
      assert Overshoot(m.val) == 0;
      assert MemberOvershoot(m.val) == 0;
    }
  }

  lemma {:induction false} FieldsMean(fields: seq<Field>, table: R.Map)
    ensures MembersMeaning(FieldMembers(fields), table) == FieldTable(fields, table)
  {
    if fields != [] {
      var f := fields[0];
      assert Meaning(Str(f.value)) == R.JVal.Text(f.value);
      FieldsMean(fields[1..], table[f.key := R.JVal.Text(f.value)]);
    }
  }

  // ---------------------------------------------------------------- the three families of templates

  function VersionText(): string {
    "\"jsonrpc\": \"2.0\","
  }

  // `"method": "name"` and `"id" : "id-xpto-123",` as the request templates print them.
  function MethodText(name: string): string {
    "\"method\": \"" + name + "\""
  }

  function IdText(): string {
    "\"id\" : \"" + REQUEST_ID + "\","
  }

  /** Requests whose template puts the parameters first: the indents of the four lines and what follows the
      parameters, which need not hold a comma. */
  function ParamsFirst(in1: string, params: string, sep: string, in2: string, in3: string, in4: string, name: string): string {
    "{" + (in1 + ("\"params\" : " + (params + (sep + in2 + (VersionText() + (in3 + (IdText() + (in4 + (MethodText(name) + "}")))))))))
  }

  /** Requests whose template puts the parameters last. */
  function ParamsLast(indent: string, name: string, params: string): string {
    "{" + (indent + (VersionText() + (indent + (IdText() + (indent + (MethodText(name) + ("," + indent + ("\"params\" : " + (params + (" " + "}"))))))))))
  }

  /** Responses: the id and either a result or an error object. */
  function Reply(id: string, key: string, body: string): string {
    "{" + (" " + (FieldText("jsonrpc", "2.0") + (", " + (FieldText("id", id) + (", " + ("\"" + key + "\" : " + (body + (" " + "}"))))))))
  }

  function ParamsFirstValue(in1: string, params: Value, sep: string, in2: string, in3: string, in4: string, name: string): Value {
    Obj(in1,
      Member("params", " ", " ", params, sep + in2,
      Member("jsonrpc", "", " ", Str("2.0"), "," + in3,
      Member("id", " ", " ", Str(REQUEST_ID), "," + in4,
      Member("method", "", " ", Str(name), "", NoMember)))))
  }

  function ParamsLastValue(indent: string, name: string, params: Value): Value {
    Obj(indent,
      Member("jsonrpc", "", " ", Str("2.0"), "," + indent,
      Member("id", " ", " ", Str(REQUEST_ID), "," + indent,
      Member("method", "", " ", Str(name), "," + indent,
      Member("params", " ", " ", params, " ", NoMember)))))
  }

  function ReplyValue(id: string, key: string, body: Value): Value {
    Obj(" ",
      Member("jsonrpc", " ", " ", Str("2.0"), ", ",
      Member("id", " ", " ", Str(id), ", ",
      Member(key, " ", " ", body, " ", NoMember))))
  }

  // Member texts, one at a time, with whatever follows.
  lemma {:induction false} VersionMember(sep: string, rest: Members)
    ensures MembersText(Member("jsonrpc", "", " ", Str("2.0"), "," + sep, rest)) == VersionText() + (sep + MembersText(rest))
  {
    assert MemberHead("jsonrpc", "", " ") + Text(Str("2.0")) + "," == VersionText();
    var head := MemberHead("jsonrpc", "", " ") + Text(Str("2.0"));
    assert head + ("," + sep) == (head + ",") + sep;
    assert head + ("," + sep) + MembersText(rest) == VersionText() + (sep + MembersText(rest));
  }

  lemma {:induction false} IdMember(sep: string, rest: Members)
    ensures MembersText(Member("id", " ", " ", Str(REQUEST_ID), "," + sep, rest)) == IdText() + (sep + MembersText(rest))
  {
    FieldHead("id", REQUEST_ID);
    var head := MemberHead("id", " ", " ") + Text(Str(REQUEST_ID));
    assert head + "," == IdText();
    assert head + ("," + sep) == (head + ",") + sep;
    assert head + ("," + sep) + MembersText(rest) == IdText() + (sep + MembersText(rest));
  }

  lemma {:induction false} MethodMember(name: string, sep: string, rest: Members)
    ensures MembersText(Member("method", "", " ", Str(name), sep, rest)) == MethodText(name) + (sep + MembersText(rest))
  {
    assert MemberHead("method", "", " ") + Text(Str(name)) == MethodText(name);
    var head := MethodText(name);
    assert head + sep + MembersText(rest) == head + (sep + MembersText(rest));
  }

  lemma {:induction false} ParamsMember(params: Value, sep: string, rest: Members)
    ensures MembersText(Member("params", " ", " ", params, sep, rest)) == "\"params\" : " + (Text(params) + (sep + MembersText(rest)))
  {
    assert MemberHead("params", " ", " ") == "\"params\" : ";
  }

  lemma {:induction false} ParamsFirstText(in1: string, params: Value, sep: string, in2: string, in3: string, in4: string, name: string)
    ensures Text(ParamsFirstValue(in1, params, sep, in2, in3, in4, name)) == ParamsFirst(in1, Text(params), sep, in2, in3, in4, name)
  {
    hide VersionText, IdText, MethodText, MembersText;
    var m4 := Member("method", "", " ", Str(name), "", NoMember);
    var m3 := Member("id", " ", " ", Str(REQUEST_ID), "," + in4, m4);
    var m2 := Member("jsonrpc", "", " ", Str("2.0"), "," + in3, m3);
    var m1 := Member("params", " ", " ", params, sep + in2, m2);
    MethodMember(name, "", NoMember);
    IdMember(in4, m4);
    VersionMember(in3, m3);
    ParamsMember(params, sep + in2, m2);
    Close1(m4, NoMember, MethodText(name), "");
    NoMemberText();
    CloseText(in1, m1, MembersText(m1) + "}");
    calc {
      MembersText(m1) + "}";
      "\"params\" : " + (Text(params) + (sep + in2 + MembersText(m2))) + "}";
      { Push("\"params\" : ", Text(params) + (sep + in2 + MembersText(m2))); Push(Text(params), sep + in2 + MembersText(m2)); Push(sep + in2, MembersText(m2)); }
      "\"params\" : " + (Text(params) + (sep + in2 + (MembersText(m2) + "}")));
    }
    calc {
      MembersText(m2) + "}";
      { Push(VersionText(), in3 + MembersText(m3)); Push(in3, MembersText(m3)); }
      VersionText() + (in3 + (MembersText(m3) + "}"));
      { Push(IdText(), in4 + MembersText(m4)); Push(in4, MembersText(m4)); }
      VersionText() + (in3 + (IdText() + (in4 + (MembersText(m4) + "}"))));
    }
  }

  lemma {:induction false} ParamsLastText(indent: string, name: string, params: Value)
    ensures Text(ParamsLastValue(indent, name, params)) == ParamsLast(indent, name, Text(params))
  {
    hide VersionText, IdText, MethodText, MembersText;
    var m4 := Member("params", " ", " ", params, " ", NoMember);
    var m3 := Member("method", "", " ", Str(name), "," + indent, m4);
    var m2 := Member("id", " ", " ", Str(REQUEST_ID), "," + indent, m3);
    var m1 := Member("jsonrpc", "", " ", Str("2.0"), "," + indent, m2);
    VersionMember(indent, m2);
    IdMember(indent, m3);
    MethodMember(name, "," + indent, m4);
    ParamsMember(params, " ", NoMember);
    NoMemberText();
    CloseText(indent, m1, MembersText(m1) + "}");
    calc {
      MembersText(m1) + "}";
      { Push(VersionText(), indent + MembersText(m2)); Push(indent, MembersText(m2)); }
      VersionText() + (indent + (MembersText(m2) + "}"));
      { Push(IdText(), indent + MembersText(m3)); Push(indent, MembersText(m3)); }
      VersionText() + (indent + (IdText() + (indent + (MembersText(m3) + "}"))));
    }
    calc {
      MembersText(m3) + "}";
      { Push(MethodText(name), "," + indent + MembersText(m4)); Push("," + indent, MembersText(m4)); }
      MethodText(name) + ("," + indent + (MembersText(m4) + "}"));
      { Push("\"params\" : ", Text(params) + (" " + "")); Push(Text(params), " " + ""); }
      MethodText(name) + ("," + indent + ("\"params\" : " + (Text(params) + (" " + "" + "}"))));
      { assert " " + "" + "}" == " " + "}"; }
      MethodText(name) + ("," + indent + ("\"params\" : " + (Text(params) + (" " + "}"))));
    }
  }

  lemma {:induction false} SpacedMember(key: string, val: Value, sep: string, rest: Members)
    ensures MembersText(Member(key, " ", " ", val, sep, rest)) == "\"" + key + "\" : " + (Text(val) + (sep + MembersText(rest)))
  {
    assert MemberHead(key, " ", " ") == "\"" + key + "\" : ";
  }

  lemma {:induction false} SpacedField(key: string, value: string, sep: string, rest: Members)
    ensures MembersText(Member(key, " ", " ", Str(value), sep, rest)) == FieldText(key, value) + (sep + MembersText(rest))
  {
    FieldHead(key, value);
    assert FieldText(key, value) + sep + MembersText(rest) == FieldText(key, value) + (sep + MembersText(rest));
  }

  lemma {:induction false} ReplyText(id: string, key: string, body: Value)
    ensures Text(ReplyValue(id, key, body)) == Reply(id, key, Text(body))
  {
    hide FieldText, MembersText;
    var m3 := Member(key, " ", " ", body, " ", NoMember);
    var m2 := Member("id", " ", " ", Str(id), ", ", m3);
    var m1 := Member("jsonrpc", " ", " ", Str("2.0"), ", ", m2);
    SpacedField("jsonrpc", "2.0", ", ", m2);
    SpacedField("id", id, ", ", m3);
    SpacedMember(key, body, " ", NoMember);
    NoMemberText();
    CloseText(" ", m1, MembersText(m1) + "}");
    calc {
      MembersText(m1) + "}";
      { Push(FieldText("jsonrpc", "2.0"), ", " + MembersText(m2)); Push(", ", MembersText(m2)); }
      FieldText("jsonrpc", "2.0") + (", " + (MembersText(m2) + "}"));
      { Push(FieldText("id", id), ", " + MembersText(m3)); Push(", ", MembersText(m3)); }
      FieldText("jsonrpc", "2.0") + (", " + (FieldText("id", id) + (", " + (MembersText(m3) + "}"))));
      { Push("\"" + key + "\" : ", Text(body) + (" " + "")); Push(Text(body), " " + ""); assert " " + "" + "}" == " " + "}"; }
      FieldText("jsonrpc", "2.0") + (", " + (FieldText("id", id) + (", " + ("\"" + key + "\" : " + (Text(body) + (" " + "}"))))));
    }
  }

  lemma {:induction false} NoMemberText()
    ensures MembersText(NoMember) == ""
  {
  }

  // A closing brace moves inwards.
  lemma {:induction false} Push(x: string, y: string)
    ensures (x + y) + "}" == x + (y + "}")
  {
  }

  lemma {:induction false} Close1(m: Members, rest: Members, text: string, sep: string)
    requires rest.NoMember? && MembersText(m) == text + (sep + MembersText(rest))
    ensures MembersText(m) == text + sep
  {
    assert text + (sep + "") == text + sep;
  }

  lemma {:induction false} CloseText(pad: string, members: Members, text: string)
    requires MembersText(members) + "}" == text
    ensures Text(Obj(pad, members)) == "{" + (pad + text)
  {
    assert "{" + pad + MembersText(members) + "}" == "{" + (pad + (MembersText(members) + "}"));
  }

  // ---------------------------------------------------------------- the families are parsed back

  // The tokens left for the parameters or the body of a message.
  const ROOM := R.MAX_TOKENS - 8

  lemma {:induction false} BlankIsSeparator(s: string)
    requires Blank(s)
    ensures Separator(s) && Separator("," + s) && ',' in "," + s
  {
    assert ("," + s)[0] == ',';
  }

  lemma {:induction false} LiteralStrings()
    ensures JsmnInvariant.IsBody("jsonrpc") && JsmnInvariant.IsBody("2.0") && JsmnInvariant.IsBody("id")
    ensures JsmnInvariant.IsBody("method") && JsmnInvariant.IsBody("params") && JsmnInvariant.IsBody(REQUEST_ID)
    ensures JsmnInvariant.IsBody("result") && JsmnInvariant.IsBody("error") && JsmnInvariant.IsBody("value")
  {
    hide JsmnInvariant.IsBody;
    PlainIsBody("jsonrpc");
    PlainIsBody("2.0");
    PlainIsBody("id");
    PlainIsBody("method");
    PlainIsBody("params");
    PlainIsBody(REQUEST_ID);
    PlainIsBody("result");
    PlainIsBody("error");
    PlainIsBody("value");
  }

  lemma {:induction false} PlainIsBody(s: string)
    requires forall i :: 0 <= i < |s| ==> s[i] != '"' && s[i] != '\0' && s[i] != '\\'
    ensures JsmnInvariant.IsBody(s)
  {
    if s != "" {
      PlainIsBody(s[1..]);
    }
  }

  /** A parameters-first request is framed, and parsed to its method, its id and the table its parameters spell, whether or not
      the template has a comma behind the parameters. */
  lemma {:induction false} ParamsFirstFramed(in1: string, params: Value, sep: string, in2: string, in3: string, in4: string, name: string)
    requires Blank(in1) && Separator(sep) && Blank(in2) && Blank(in3) && Blank(in4) && WireString(name)
    requires params.Obj? && Good(params) && Readable(params) && Overshoot(params) == 0 && Size(params) <= ROOM
    ensures Framed(ParamsFirst(in1, Text(params), sep, in2, in3, in4, name),
      R.Msg(Some(name), Some(REQUEST_ID), MembersMeaning(params.members, map[]), map[], map[]))
  {
    hide Good, Readable, Overshoot, Text, R.ParseRpc, MembersMeaning, JsmnInvariant.IsBody;
    var v := ParamsFirstValue(in1, params, sep, in2, in3, in4, name);
    ParamsFirstText(in1, params, sep, in2, in3, in4, name);
    ParamsFirstGood(in1, params, sep, in2, in3, in4, name);
    ParamsFirstMeaning(in1, params, sep, in2, in3, in4, name);
    MessagesAreFramed(v);
  }

  lemma {:induction false} LastMember(key: string, val: Value, sep: string)
    requires JsmnInvariant.IsBody(key) && Good(val) && Separator(sep)
    ensures var m := Member(key, " ", " ", val, sep, NoMember); GoodMembers(m) && MembersSize(m) == 1 + Size(val)
  {
  }

  lemma {:induction false} StringMember(m: Members)
    requires m.Member? && m.val.Str? && JsmnInvariant.IsBody(m.key) && JsmnInvariant.IsBody(m.val.body)
    requires Blank(m.before) && Blank(m.after) && Separator(m.sep) && ',' in m.sep && GoodMembers(m.rest)
    ensures GoodMembers(m) && MembersSize(m) == 2 + MembersSize(m.rest)
  {
  }

  lemma {:induction false} ObjectOf(pad: string, members: Members)
    requires Blank(pad) && GoodMembers(members)
    ensures Good(Obj(pad, members)) && Size(Obj(pad, members)) == 1 + MembersSize(members)
  {
  }

  lemma {:induction false} ParamsFirstGood(in1: string, params: Value, sep: string, in2: string, in3: string, in4: string, name: string)
    requires Blank(in1) && Separator(sep) && Blank(in2) && Blank(in3) && Blank(in4) && WireString(name)
    requires params.Obj? && Good(params) && Size(params) <= ROOM
    ensures var v := ParamsFirstValue(in1, params, sep, in2, in3, in4, name); Good(v) && Size(v) <= R.MAX_TOKENS
  {
    hide JsmnInvariant.IsBody;
    LiteralStrings();
    BlankIsSeparator(in3);
    BlankIsSeparator(in4);
    var v := ParamsFirstValue(in1, params, sep, in2, in3, in4, name);
    var m2 := v.members.rest;
    var m3 := m2.rest;
    assert GoodMembers(m3.rest) && MembersSize(m3.rest) == 2;
    assert GoodMembers(m3) && MembersSize(m3) == 4;
    assert GoodMembers(m2) && MembersSize(m2) == 6;
    assert Separator(sep + in2);
    assert GoodMembers(v.members) && MembersSize(v.members) == 7 + Size(params);
  }

  lemma {:induction false} ParamsFirstMeaning(in1: string, params: Value, sep: string, in2: string, in3: string, in4: string, name: string)
    requires |name| < R.MAX_STR_SIZE && params.Obj? && Readable(params) && Overshoot(params) == 0
    ensures var v := ParamsFirstValue(in1, params, sep, in2, in3, in4, name);
      ReadableMessage(v.members) &&
      MessageMeaning(v.members, R.EmptyMsg) == R.Msg(Some(name), Some(REQUEST_ID), MembersMeaning(params.members, map[]), map[], map[])
  {
    hide Readable, Overshoot, MembersMeaning;
    var v := ParamsFirstValue(in1, params, sep, in2, in3, in4, name);
    var m2 := v.members.rest;
    var m3 := m2.rest;
    var m4 := m3.rest;
    assert Keys(m4) == {"method"} && Keys(m3) == {"id", "method"} && Keys(m2) == {"jsonrpc", "id", "method"};
    assert ReadableMessage(m4);
    assert ReadableMessage(m3);
    assert ReadableMessage(m2);
    var msg1 := R.EmptyMsg.(params := MembersMeaning(params.members, map[]));
    assert PartMeaning(v.members, R.EmptyMsg) == msg1;
    assert PartMeaning(m2, msg1) == msg1;
    var msg3 := msg1.(id := Some(REQUEST_ID));
    assert PartMeaning(m3, msg1) == msg3;
    assert MessageMeaning(m4, msg3) == msg3.(methodName := Some(name));
    assert MessageMeaning(m3, msg1) == msg3.(methodName := Some(name));
  }

  /** A parameters-last request is framed, and parsed to its method, its id and the table its parameters spell. */
  lemma {:induction false} ParamsLastFramed(indent: string, name: string, params: Value)
    requires Blank(indent) && WireString(name)
    requires params.Obj? && Good(params) && Readable(params) && Size(params) <= ROOM
    ensures Framed(ParamsLast(indent, name, Text(params)),
      R.Msg(Some(name), Some(REQUEST_ID), MembersMeaning(params.members, map[]), map[], map[]))
  {
    hide Good, Readable, Text, R.ParseRpc, MembersMeaning, JsmnInvariant.IsBody;
    ParamsLastText(indent, name, params);
    ParamsLastGood(indent, name, params);
    ParamsLastMeaning(indent, name, params);
    MessagesAreFramed(ParamsLastValue(indent, name, params));
  }

  lemma {:induction false} ParamsLastGood(indent: string, name: string, params: Value)
    requires Blank(indent) && WireString(name) && params.Obj? && Good(params) && Size(params) <= ROOM
    ensures var v := ParamsLastValue(indent, name, params); Good(v) && Size(v) <= R.MAX_TOKENS
  {
    hide JsmnInvariant.IsBody;
    LiteralStrings();
    BlankIsSeparator(indent);
    hide Good, Size;
    LastMember("params", params, " ");
    var m4 := Member("params", " ", " ", params, " ", NoMember);
    var m3 := Member("method", "", " ", Str(name), "," + indent, m4);
    var m2 := Member("id", " ", " ", Str(REQUEST_ID), "," + indent, m3);
    StringMember(m3);
    StringMember(m2);
    StringMember(Member("jsonrpc", "", " ", Str("2.0"), "," + indent, m2));
    ObjectOf(indent, Member("jsonrpc", "", " ", Str("2.0"), "," + indent, m2));
  }

  lemma {:induction false} ParamsLastMeaning(indent: string, name: string, params: Value)
    requires |name| < R.MAX_STR_SIZE && params.Obj? && Readable(params)
    ensures var v := ParamsLastValue(indent, name, params);
      ReadableMessage(v.members) &&
      MessageMeaning(v.members, R.EmptyMsg) == R.Msg(Some(name), Some(REQUEST_ID), MembersMeaning(params.members, map[]), map[], map[])
  {
    hide Readable, Overshoot, MembersMeaning;
    var v := ParamsLastValue(indent, name, params);
    var m2 := v.members.rest;
    var m3 := m2.rest;
    var m4 := m3.rest;
    assert Keys(m4) == {"params"} && Keys(m3) == {"method", "params"} && Keys(m2) == {"id", "method", "params"};
    assert ReadableMessage(m4);
    assert ReadableMessage(m3);
    assert ReadableMessage(m2);
    var msg2 := R.EmptyMsg.(id := Some(REQUEST_ID));
    var msg3 := msg2.(methodName := Some(name));
    assert PartMeaning(v.members, R.EmptyMsg) == R.EmptyMsg;
    assert PartMeaning(m2, R.EmptyMsg) == msg2;
    assert R.NamesText("method") && !R.NamesText("params") && R.NamesTable("params");
    assert PartMeaning(m3, msg2) == msg3;
    assert MessageMeaning(m4, msg3) == msg3.(params := MembersMeaning(params.members, map[]));
    assert MessageMeaning(m2, R.EmptyMsg) == msg3.(params := MembersMeaning(params.members, map[]));
  }

  /** A response is framed, and parsed to its id and the table its result or error spells; the body is last, so it may overshoot. */
  lemma {:induction false} ReplyFramed(id: string, key: string, body: Value)
    requires WireString(id) && (key == "result" || key == "error")
    requires body.Obj? && Good(body) && Readable(body) && Size(body) <= ROOM
    ensures Framed(Reply(id, key, Text(body)),
      R.WithTable(R.Msg(None, Some(id), map[], map[], map[]), key, MembersMeaning(body.members, map[])))
  {
    hide Good, Readable, Text, R.ParseRpc, MembersMeaning, JsmnInvariant.IsBody;
    ReplyText(id, key, body);
    ReplyGood(id, key, body);
    ReplyMeaning(id, key, body);
    MessagesAreFramed(ReplyValue(id, key, body));
  }

  lemma {:induction false} ReplyGood(id: string, key: string, body: Value)
    requires WireString(id) && (key == "result" || key == "error") && body.Obj? && Good(body) && Size(body) <= ROOM
    ensures var v := ReplyValue(id, key, body); Good(v) && Size(v) <= R.MAX_TOKENS
  {
    hide JsmnInvariant.IsBody;
    LiteralStrings();
    hide Good, Size;
    LastMember(key, body, " ");
    var m3 := Member(key, " ", " ", body, " ", NoMember);
    var m2 := Member("id", " ", " ", Str(id), ", ", m3);
    StringMember(m2);
    StringMember(Member("jsonrpc", " ", " ", Str("2.0"), ", ", m2));
    ObjectOf(" ", Member("jsonrpc", " ", " ", Str("2.0"), ", ", m2));
  }

  lemma {:induction false} ReplyMeaning(id: string, key: string, body: Value)
    requires |id| < R.MAX_STR_SIZE && (key == "result" || key == "error") && body.Obj? && Readable(body)
    ensures var v := ReplyValue(id, key, body);
      ReadableMessage(v.members) &&
      MessageMeaning(v.members, R.EmptyMsg) ==
        R.WithTable(R.Msg(None, Some(id), map[], map[], map[]), key, MembersMeaning(body.members, map[]))
  {
    hide Readable, Overshoot, MembersMeaning;
    var v := ReplyValue(id, key, body);
    var m2 := v.members.rest;
    var m3 := m2.rest;
    assert Keys(m3) == {key} && Keys(m2) == {"id", key};
    assert ReadableMessage(m3);
    assert ReadableMessage(m2);
    var msg2 := R.EmptyMsg.(id := Some(id));
    assert PartMeaning(v.members, R.EmptyMsg) == R.EmptyMsg;
    assert PartMeaning(m2, R.EmptyMsg) == msg2;
    assert R.NamesTable(key) && !R.NamesText(key);
    assert PartMeaning(m3, msg2) == R.WithTable(msg2, key, MembersMeaning(body.members, map[]));
    assert MessageMeaning(m3, msg2) == PartMeaning(m3, msg2);
    assert MessageMeaning(m2, R.EmptyMsg) == PartMeaning(m3, msg2);
  }
}
