/** The request templates of src/json/jsonrpc_api.c with string parameters, and exactly when they are read back. */
module WireRequests {
  import opened Options
  import opened JsmnSpec
  import opened JsonText
  import opened JsonReads
  import opened Wire
  import opened JsonMessage
  import opened ParsedStrings
  import JsmnInvariant
  import R = JsonRpcSpec

  function Request(name: string, params: R.Map): R.Msg {
    R.Msg(Some(name), Some(REQUEST_ID), params, map[], map[])
  }

  function SetTag(filepath: string, tag: string): string {
    ParamsFirst("    ", ObjectText(" ", [Field("filepath", filepath, ", "), Field("tag", tag, " ")]), ", ", "    ", "    ", "     ", "settag")
  }

  function ListTags(repodir: string): string {
    ParamsFirst("    ", ObjectText(" ", [Field("repodir", repodir, " ")]), " ", "    ", "    ", "    ", "listtags")
  }

  function GetTags(filepath: string): string {
    ParamsFirst("    ", ObjectText(" ", [Field("filepath", filepath, " ")]), " ", "    ", "    ", "    ", "gettags")
  }

  function GetAttr(filepath: string): string {
    ParamsFirst("    ", ObjectText(" ", [Field("filepath", filepath, " ")]), " ", "    ", "    ", "    ", "getattr")
  }

  function UnsetAttr(filepath: string, attribute: string): string {
    ParamsFirst("    ", ObjectText(" ", [Field("filepath", filepath, ",                    "), Field("attribute", attribute, "  ")]),
      " ", "    ", "    ", "    ", "unsetattr")
  }

  function InsertTag(repodir: string, tag: string): string {
    ParamsLast("    ", "inserttag", ObjectText(" ", [Field("repodir", repodir, ", "), Field("tag", tag, "  ")]))
  }

  function ClearTags(filepath: string): string {
    ParamsLast("    ", "cleartags", ObjectText(" ", [Field("filepath", filepath, " ")]))
  }

  function UnsetTag(filepath: string, tag: string): string {
    ParamsLast("    ", "unsettag", ObjectText(" ", [Field("filepath", filepath, ", "), Field("tag", tag, " ")]))
  }

  function SetAttr(filepath: string, attribute: string, value: string): string {
    ParamsLast("  ", "setattr", ObjectText(" ",
      [Field("filepath", filepath, ",                  "), Field("attribute", attribute, ",                  "), Field("value", value, "                ")]))
  }

  // ---------------------------------------------------------------- round trips

  ghost predicate ValuesOnWire(fields: seq<Field>) {
    forall i :: 0 <= i < |fields| ==> WireString(fields[i].value)
  }

  // The layout of a template: wire keys, distinct, with commas between the members.
  predicate FieldLayout(fields: seq<Field>) {
    && (forall i :: 0 <= i < |fields| ==> WireString(fields[i].key) && Separator(fields[i].sep))
    && (forall i :: 0 <= i < |fields| - 1 ==> ',' in fields[i].sep)
    && (forall i, j :: 0 <= i < j < |fields| ==> fields[i].key != fields[j].key)
  }

  lemma {:induction false} FieldParams(pad: string, fields: seq<Field>)
    requires Blank(pad) && FieldsOk(fields) && 1 + 2 * |fields| <= ROOM
    ensures var v := Obj(pad, FieldMembers(fields));
      Text(v) == ObjectText(pad, fields) && Good(v) && Readable(v) && Overshoot(v) == 0 && Size(v) <= ROOM &&
      MembersMeaning(FieldMembers(fields), map[]) == FieldTable(fields, map[])
  {
    FieldsAreMembers(fields);
    FieldsMean(fields, map[]);
  }

  lemma {:induction false} FieldTableHolds(fields: seq<Field>, table: R.Map, i: nat)
    requires i < |fields| && forall i, j :: 0 <= i < j < |fields| ==> fields[i].key != fields[j].key
    ensures fields[i].key in FieldTable(fields, table) && FieldTable(fields, table)[fields[i].key] == R.JVal.Text(fields[i].value)
  {
    var table' := table[fields[0].key := R.JVal.Text(fields[0].value)];
    if i > 0 {
      FieldTableHolds(fields[1..], table', i - 1);
    } else {
      FieldTableKeeps(fields[1..], table', fields[0].key);
    }
  }

  lemma {:induction false} FieldTableKeeps(fields: seq<Field>, table: R.Map, key: string)
    requires key in table && forall i :: 0 <= i < |fields| ==> fields[i].key != key
    ensures key in FieldTable(fields, table) && FieldTable(fields, table)[key] == table[key]
  {
    if fields != [] {
      FieldTableKeeps(fields[1..], table[fields[0].key := R.JVal.Text(fields[0].value)], key);
    }
  }

  // A message whose parameters are these fields can only be parsed from wire strings.
  lemma {:induction false} OnlyWireStrings(json: string, name: string, fields: seq<Field>)
    requires R.ParseRpc(json) == R.Ok(Request(name, FieldTable(fields, map[]))) && FieldLayout(fields)
    ensures ValuesOnWire(fields)
  {
    hide R.ParseRpc, WireString;
    ParsedIsWire(json);
    forall i | 0 <= i < |fields|
      ensures WireString(fields[i].value)
    {
      FieldTableHolds(fields, map[], i);
      assert WireValue(FieldTable(fields, map[])[fields[i].key]);
    }
  }

  /** A parameters-first request is read back exactly when every value is a wire string: what a caller can check
      before the call, since printers do not escape. */
  lemma {:induction false} ParamsFirstExact(in1: string, pad: string, fields: seq<Field>, sep: string, in2: string, in3: string, in4: string, name: string)
    requires Blank(in1) && Blank(pad) && Separator(sep) && Blank(in2) && Blank(in3) && Blank(in4) && WireString(name)
    requires FieldLayout(fields) && 1 + 2 * |fields| <= ROOM
    ensures R.ParseRpc(ParamsFirst(in1, ObjectText(pad, fields), sep, in2, in3, in4, name)) == R.Ok(Request(name, FieldTable(fields, map[])))
      <==> ValuesOnWire(fields)
    ensures ValuesOnWire(fields) ==> Framed(ParamsFirst(in1, ObjectText(pad, fields), sep, in2, in3, in4, name), Request(name, FieldTable(fields, map[])))
  {
    hide R.ParseRpc, ParamsFirst, FieldTable, ObjectText;
    if ValuesOnWire(fields) {
      FieldParams(pad, fields);
      ParamsFirstFramed(in1, Obj(pad, FieldMembers(fields)), sep, in2, in3, in4, name);
    } else if R.ParseRpc(ParamsFirst(in1, ObjectText(pad, fields), sep, in2, in3, in4, name)) == R.Ok(Request(name, FieldTable(fields, map[]))) {
      OnlyWireStrings(ParamsFirst(in1, ObjectText(pad, fields), sep, in2, in3, in4, name), name, fields);
    }
  }

  /** The same for requests with the parameters last. */
  lemma {:induction false} ParamsLastExact(indent: string, name: string, pad: string, fields: seq<Field>)
    requires Blank(indent) && Blank(pad) && WireString(name) && FieldLayout(fields) && 1 + 2 * |fields| <= ROOM
    ensures R.ParseRpc(ParamsLast(indent, name, ObjectText(pad, fields))) == R.Ok(Request(name, FieldTable(fields, map[])))
      <==> ValuesOnWire(fields)
    ensures ValuesOnWire(fields) ==> Framed(ParamsLast(indent, name, ObjectText(pad, fields)), Request(name, FieldTable(fields, map[])))
  {
    hide R.ParseRpc, ParamsLast, FieldTable, ObjectText;
    if ValuesOnWire(fields) {
      FieldParams(pad, fields);
      ParamsLastFramed(indent, name, Obj(pad, FieldMembers(fields)));
    } else if R.ParseRpc(ParamsLast(indent, name, ObjectText(pad, fields))) == R.Ok(Request(name, FieldTable(fields, map[]))) {
      OnlyWireStrings(ParamsLast(indent, name, ObjectText(pad, fields)), name, fields);
    }
  }

  lemma {:induction false} Names()
    ensures WireString("filepath") && WireString("tag") && WireString("repodir") && WireString("attribute") && WireString("value")
    ensures WireString("settag") && WireString("listtags") && WireString("gettags") && WireString("getattr") && WireString("unsetattr")
    ensures WireString("inserttag") && WireString("cleartags") && WireString("unsettag") && WireString("setattr")
  {
    hide JsmnInvariant.IsBody;
    PlainIsBody("filepath");
    PlainIsBody("tag");
    PlainIsBody("repodir");
    PlainIsBody("attribute");
    PlainIsBody("value");
    PlainIsBody("settag");
    PlainIsBody("listtags");
    PlainIsBody("gettags");
    PlainIsBody("getattr");
    PlainIsBody("unsetattr");
    PlainIsBody("inserttag");
    PlainIsBody("cleartags");
    PlainIsBody("unsettag");
    PlainIsBody("setattr");
  }

  lemma {:induction false} OneField(key: string, value: string, sep: string)
    requires WireString(key) && Blank(sep)
    ensures var fields := [Field(key, value, sep)];
      FieldLayout(fields) && FieldTable(fields, map[]) == map[key := R.JVal.Text(value)] && (ValuesOnWire(fields) <==> WireString(value))
  {
    hide WireString;
    var fields := [Field(key, value, sep)];
    assert fields[0].value == value;
    assert FieldTable(fields[1..], map[key := R.JVal.Text(value)]) == map[key := R.JVal.Text(value)];
  }

  lemma {:induction false} TwoFields(key1: string, value1: string, key2: string, value2: string, sep1: string, sep2: string)
    requires WireString(key1) && WireString(key2) && key1 != key2 && Separator(sep1) && ',' in sep1 && Blank(sep2)
    ensures var fields := [Field(key1, value1, sep1), Field(key2, value2, sep2)];
      FieldLayout(fields) &&
      FieldTable(fields, map[]) == map[key1 := R.JVal.Text(value1), key2 := R.JVal.Text(value2)] &&
      (ValuesOnWire(fields) <==> WireString(value1) && WireString(value2))
  {
    hide WireString;
    var fields := [Field(key1, value1, sep1), Field(key2, value2, sep2)];
    assert fields[0].value == value1 && fields[1].value == value2;
    var table := map[key1 := R.JVal.Text(value1)];
    assert fields[1..] == [fields[1]];
    assert FieldTable(fields[1..], table) == FieldTable(fields[1..][1..], table[key2 := R.JVal.Text(value2)]);
    assert FieldTable([], table[key2 := R.JVal.Text(value2)]) == table[key2 := R.JVal.Text(value2)];
  }

  lemma {:induction false} SetTagRoundTrip(filepath: string, tag: string)
    ensures R.ParseRpc(SetTag(filepath, tag)) == R.Ok(Request("settag", map["filepath" := R.JVal.Text(filepath), "tag" := R.JVal.Text(tag)]))
      <==> WireString(filepath) && WireString(tag)
    ensures WireString(filepath) && WireString(tag) ==>
      Framed(SetTag(filepath, tag), Request("settag", map["filepath" := R.JVal.Text(filepath), "tag" := R.JVal.Text(tag)]))
  {
    hide R.ParseRpc, Framed, WireString, ParamsFirst, ObjectText;
    Names();
    TwoFields("filepath", filepath, "tag", tag, ", ", " ");
    ParamsFirstExact("    ", " ", [Field("filepath", filepath, ", "), Field("tag", tag, " ")], ", ", "    ", "    ", "     ", "settag");
  }

  lemma {:induction false} ListTagsRoundTrip(repodir: string)
    ensures R.ParseRpc(ListTags(repodir)) == R.Ok(Request("listtags", map["repodir" := R.JVal.Text(repodir)]))
      <==> WireString(repodir)
    ensures WireString(repodir) ==>
      Framed(ListTags(repodir), Request("listtags", map["repodir" := R.JVal.Text(repodir)]))
  {
    hide R.ParseRpc, Framed, WireString, ParamsFirst, ObjectText;
    Names();
    OneField("repodir", repodir, " ");
    ParamsFirstExact("    ", " ", [Field("repodir", repodir, " ")], " ", "    ", "    ", "    ", "listtags");
  }

  lemma {:induction false} GetTagsRoundTrip(filepath: string)
    ensures R.ParseRpc(GetTags(filepath)) == R.Ok(Request("gettags", map["filepath" := R.JVal.Text(filepath)]))
      <==> WireString(filepath)
    ensures WireString(filepath) ==>
      Framed(GetTags(filepath), Request("gettags", map["filepath" := R.JVal.Text(filepath)]))
  {
    hide R.ParseRpc, Framed, WireString, ParamsFirst, ObjectText;
    Names();
    OneField("filepath", filepath, " ");
    ParamsFirstExact("    ", " ", [Field("filepath", filepath, " ")], " ", "    ", "    ", "    ", "gettags");
  }

  lemma {:induction false} GetAttrRoundTrip(filepath: string)
    ensures R.ParseRpc(GetAttr(filepath)) == R.Ok(Request("getattr", map["filepath" := R.JVal.Text(filepath)]))
      <==> WireString(filepath)
    ensures WireString(filepath) ==>
      Framed(GetAttr(filepath), Request("getattr", map["filepath" := R.JVal.Text(filepath)]))
  {
    hide R.ParseRpc, Framed, WireString, ParamsFirst, ObjectText;
    Names();
    OneField("filepath", filepath, " ");
    ParamsFirstExact("    ", " ", [Field("filepath", filepath, " ")], " ", "    ", "    ", "    ", "getattr");
  }

  lemma {:induction false} UnsetAttrRoundTrip(filepath: string, attribute: string)
    ensures R.ParseRpc(UnsetAttr(filepath, attribute)) == R.Ok(Request("unsetattr", map["filepath" := R.JVal.Text(filepath), "attribute" := R.JVal.Text(attribute)]))
      <==> WireString(filepath) && WireString(attribute)
    ensures WireString(filepath) && WireString(attribute) ==>
      Framed(UnsetAttr(filepath, attribute), Request("unsetattr", map["filepath" := R.JVal.Text(filepath), "attribute" := R.JVal.Text(attribute)]))
  {
    hide R.ParseRpc, Framed, WireString, ParamsFirst, ObjectText;
    Names();
    var sep := ",                    ";
    assert sep[0] == ',';
    TwoFields("filepath", filepath, "attribute", attribute, sep, "  ");
    ParamsFirstExact("    ", " ", [Field("filepath", filepath, sep), Field("attribute", attribute, "  ")], " ", "    ", "    ", "    ", "unsetattr");
  }

  lemma {:induction false} InsertTagRoundTrip(repodir: string, tag: string)
    ensures R.ParseRpc(InsertTag(repodir, tag)) == R.Ok(Request("inserttag", map["repodir" := R.JVal.Text(repodir), "tag" := R.JVal.Text(tag)]))
      <==> WireString(repodir) && WireString(tag)
    ensures WireString(repodir) && WireString(tag) ==>
      Framed(InsertTag(repodir, tag), Request("inserttag", map["repodir" := R.JVal.Text(repodir), "tag" := R.JVal.Text(tag)]))
  {
    hide R.ParseRpc, Framed, WireString, ParamsLast, ObjectText;
    Names();
    TwoFields("repodir", repodir, "tag", tag, ", ", "  ");
    ParamsLastExact("    ", "inserttag", " ", [Field("repodir", repodir, ", "), Field("tag", tag, "  ")]);
  }

  lemma {:induction false} ClearTagsRoundTrip(filepath: string)
    ensures R.ParseRpc(ClearTags(filepath)) == R.Ok(Request("cleartags", map["filepath" := R.JVal.Text(filepath)]))
      <==> WireString(filepath)
    ensures WireString(filepath) ==>
      Framed(ClearTags(filepath), Request("cleartags", map["filepath" := R.JVal.Text(filepath)]))
  {
    hide R.ParseRpc, Framed, WireString, ParamsLast, ObjectText;
    Names();
    OneField("filepath", filepath, " ");
    ParamsLastExact("    ", "cleartags", " ", [Field("filepath", filepath, " ")]);
  }

  lemma {:induction false} UnsetTagRoundTrip(filepath: string, tag: string)
    ensures R.ParseRpc(UnsetTag(filepath, tag)) == R.Ok(Request("unsettag", map["filepath" := R.JVal.Text(filepath), "tag" := R.JVal.Text(tag)]))
      <==> WireString(filepath) && WireString(tag)
    ensures WireString(filepath) && WireString(tag) ==>
      Framed(UnsetTag(filepath, tag), Request("unsettag", map["filepath" := R.JVal.Text(filepath), "tag" := R.JVal.Text(tag)]))
  {
    hide R.ParseRpc, Framed, WireString, ParamsLast, ObjectText;
    Names();
    TwoFields("filepath", filepath, "tag", tag, ", ", " ");
    ParamsLastExact("    ", "unsettag", " ", [Field("filepath", filepath, ", "), Field("tag", tag, " ")]);
  }

  lemma {:induction false} SetAttrRoundTrip(filepath: string, attribute: string, value: string)
    ensures R.ParseRpc(SetAttr(filepath, attribute, value)) == R.Ok(Request("setattr", map["filepath" := R.JVal.Text(filepath), "attribute" := R.JVal.Text(attribute), "value" := R.JVal.Text(value)]))
      <==> WireString(filepath) && WireString(attribute) && WireString(value)
    ensures WireString(filepath) && WireString(attribute) && WireString(value) ==>
      Framed(SetAttr(filepath, attribute, value), Request("setattr", map["filepath" := R.JVal.Text(filepath), "attribute" := R.JVal.Text(attribute), "value" := R.JVal.Text(value)]))
  {
    hide R.ParseRpc, Framed, WireString, ParamsLast, ObjectText;
    Names();
    var sep := ",                  ";
    assert sep[0] == ',';
    var fields := [Field("filepath", filepath, sep), Field("attribute", attribute, sep), Field("value", value, "                ")];
    TwoFields("attribute", attribute, "value", value, sep, "                ");
    var table := map["filepath" := R.JVal.Text(filepath)];
    assert fields[1..][0] == fields[1] && fields[1..][1] == fields[2];
    assert fields[1..][1..] == [fields[2]];
    assert FieldTable([fields[2]][1..], table["attribute" := R.JVal.Text(attribute)]["value" := R.JVal.Text(value)]) ==
      map["filepath" := R.JVal.Text(filepath), "attribute" := R.JVal.Text(attribute), "value" := R.JVal.Text(value)];
    assert FieldTable(fields, map[]) == FieldTable(fields[1..], table) == FieldTable(fields[1..][1..], table["attribute" := R.JVal.Text(attribute)]);
    assert fields[0].value == filepath && fields[1].value == attribute && fields[2].value == value;
    ParamsLastExact("  ", "setattr", " ", fields);
  }
}
