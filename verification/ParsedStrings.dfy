/** What the reader can return: every key and string in the tables of a parsed message, however deep, is one that
    could have been printed as it is. */
module ParsedStrings {
  import opened Options
  import opened JsmnSpec
  import opened Wire
  import JsmnInvariant
  import R = JsonRpcSpec

  /** All keys and strings in a value are wire strings. */
  ghost predicate WireValue(v: R.JVal) {
    match v
    case Text(s) => WireString(s)
    case List(items) => forall i :: 0 <= i < |items| ==> WireValue(items[i])
    case Table(table) => forall key :: key in table ==> WireString(key) && WireValue(table[key])
    case _ => true
  }

  ghost predicate WireItems(items: seq<R.JVal>) {
    forall i :: 0 <= i < |items| ==> WireValue(items[i])
  }

  ghost predicate WireTable(table: R.Map) {
    forall key :: key in table ==> WireString(key) && WireValue(table[key])
  }

  ghost predicate WireCells(cells: seq<R.Cell>) {
    forall i :: 0 <= i < |cells| && cells[i].Own? ==> WireValue(cells[i].v)
  }

  lemma {:induction false} PrimitiveIsWire(text: string, c: nat)
    ensures R.ReadPrimitive(text, c).Done? ==> WireValue(R.ReadPrimitive(text, c).value)
  {
  }

  lemma {:induction false} TokenIsWire(json: string, toks: seq<Token>, c: nat)
    requires JsmnInvariant.Usable(json, toks) && c < |toks| && toks[c].kind == String && toks[c].end - toks[c].start < R.MAX_STR_SIZE
    ensures WireString(R.TokText(json, toks[c]))
  {
    hide JsmnInvariant.IsBody;
    assert |R.TokText(json, toks[c])| == toks[c].end - toks[c].start;
  }

  lemma {:induction false} ResolveIsWire(cells: seq<R.Cell>, sub: seq<R.JVal>)
    requires WireCells(cells) && WireItems(sub)
    ensures WireItems(R.Resolve(cells, sub))
  {
    hide R.Resolve, WireString;
  }

  lemma {:induction false} ListIsWire(items: seq<R.JVal>)
    requires WireItems(items)
    ensures WireValue(R.ListOf(items)) && WireValue(R.List(items))
  {
    hide WireString;
  }

  lemma {:induction false} CellsMore(cells: seq<R.Cell>, cell: R.Cell)
    requires WireCells(cells) && (cell.Own? ==> WireValue(cell.v))
    ensures WireCells(cells + [cell])
  {
    hide WireValue;
  }

  lemma {:induction false} ArrayKeepsWire(json: string, toks: seq<Token>, c: nat, init: seq<R.JVal>)
    requires JsmnInvariant.Usable(json, toks) && c < |toks| && WireItems(init)
    ensures var r := R.ReadArray(json, toks, c, init); r.Done? ==> WireItems(r.value)
    decreases R.Left(toks, c), 0
  {
    hide WireValue, R.ReadItems, R.Owned;
    assert WireItems([]);
    ItemsKeepWire(json, toks, c + 1, toks[c].size, R.Owned(init), []);
  }

  lemma {:induction false} ItemsKeepWire(json: string, toks: seq<Token>, c: nat, n: nat, cells: seq<R.Cell>, sub: seq<R.JVal>)
    requires JsmnInvariant.Usable(json, toks) && WireCells(cells) && WireItems(sub)
    ensures var r := R.ReadItems(json, toks, c, n, cells, sub); r.Done? ==> WireItems(r.value)
    decreases R.Left(toks, c), 1
  {
    hide WireValue, WireCells, WireItems, WireString, R.Resolve, R.ReadArray, R.ReadObject, JsmnInvariant.IsBody;
    ResolveIsWire(cells, sub);
    if n > 0 && c < |toks| {
      var t := toks[c];
      match t.kind
      case Primitive =>
        PrimitiveItem(json, toks, c, n, cells, sub);
      case String =>
        if t.end - t.start < R.MAX_STR_SIZE {
          var v := R.JVal.Text(R.TokText(json, t));
          TokenIsWire(json, toks, c);
          TextIsWire(v.s);
          CellsMore(cells, R.Own(v));
          ItemsKeepWire(json, toks, c + 1, n - 1, cells + [R.Own(v)], sub);
        }
      case Object =>
        EmptyIsWire();
        ObjectKeepsWire(json, toks, c, map[]);
        var r := R.ReadObject(json, toks, c, map[]);
        if r.Done? {
          TableIsWire(r.value);
          CellsMore(cells, R.Own(R.Table(r.value)));
          ItemsKeepWire(json, toks, r.cursor, n - 1, cells + [R.Own(R.Table(r.value))], sub);
        }
      case Array =>
        ArrayKeepsWire(json, toks, c, sub);
        var r := R.ReadArray(json, toks, c, sub);
        if r.Done? {
          var cell := if r.value == [] then R.Own(R.Null) else R.Shared;
          NullIsWire();
          CellsMore(cells, cell);
          ResolveIsWire(cells, r.value);
          ItemsKeepWire(json, toks, r.cursor, n - 1, cells + [cell], r.value);
        }
    }
  }

  lemma {:induction false} PrimitiveItem(json: string, toks: seq<Token>, c: nat, n: nat, cells: seq<R.Cell>, sub: seq<R.JVal>)
    requires JsmnInvariant.Usable(json, toks) && WireCells(cells) && WireItems(sub) && n > 0 && c < |toks| && toks[c].kind == Primitive
    ensures var r := R.ReadItems(json, toks, c, n, cells, sub); r.Done? ==> WireItems(r.value)
    decreases R.Left(toks, c), 0
  {
    var text := R.TokText(json, toks[c]);
    hide WireValue, WireCells, WireItems, R.Resolve, R.ReadPrimitive, JsmnInvariant.Usable;
    ResolveIsWire(cells, sub);
    PrimitiveIsWire(text, c + 1);
    var r := R.ReadPrimitive(text, c + 1);
    if r.Done? && r.ok {
      CellsMore(cells, R.Own(r.value));
      ItemsKeepWire(json, toks, r.cursor, n - 1, cells + [R.Own(r.value)], sub);
    }
  }

  lemma {:induction false} TextIsWire(s: string)
    requires WireString(s)
    ensures WireValue(R.JVal.Text(s))
  {
  }

  lemma {:induction false} NullIsWire()
    ensures WireValue(R.Null)
  {
  }

  lemma {:induction false} EmptyIsWire()
    ensures WireTable(map[])
  {
  }

  lemma {:induction false} TableIsWire(table: R.Map)
    requires WireTable(table)
    ensures WireValue(R.Table(table))
  {
    hide WireString;
  }

  lemma {:induction false} PutIsWire(table: R.Map, key: string, v: R.JVal)
    requires WireTable(table) && WireValue(v) && WireString(key)
    ensures WireTable(table[key := v])
  {
    hide WireValue, WireString;
  }

  lemma {:induction false} ObjectKeepsWire(json: string, toks: seq<Token>, c: nat, table: R.Map)
    requires JsmnInvariant.Usable(json, toks) && WireTable(table)
    ensures var r := R.ReadObject(json, toks, c, table); r.Done? ==> WireTable(r.value)
    decreases R.Left(toks, c), 0
  {
    hide WireTable, R.ReadParams;
    if c < |toks| {
      ParamsKeepWire(json, toks, c + 1, toks[c].size, table);
    }
  }

  lemma {:induction false} ParamsKeepWire(json: string, toks: seq<Token>, c: nat, n: nat, table: R.Map)
    requires JsmnInvariant.Usable(json, toks) && WireTable(table)
    ensures var r := R.ReadParams(json, toks, c, n, table); r.Done? ==> WireTable(r.value)
    decreases R.Left(toks, c), 2
  {
    hide R.ReadParam, JsmnInvariant.Usable, WireTable;
    if n > 0 && c < |toks| {
      ParamKeepsWire(json, toks, c, table);
      var r := R.ReadParam(json, toks, c, table);
      if r.Done? && r.ok {
        ParamsKeepWire(json, toks, r.cursor, n - 1, r.value);
      }
    }
  }

  lemma {:induction false} ParamKeepsWire(json: string, toks: seq<Token>, c: nat, table: R.Map)
    requires JsmnInvariant.Usable(json, toks) && c < |toks| && WireTable(table)
    ensures var r := R.ReadParam(json, toks, c, table); r.Done? ==> WireTable(r.value)
    decreases R.Left(toks, c), 1
  {
    hide WireTable, WireValue, WireItems, WireString, R.ReadArray, R.ReadObject, R.ReadPrimitive, R.PutList, JsmnInvariant.IsBody;
    var key := toks[c];
    if key.kind == String && key.end - key.start < R.MAX_STR_SIZE && c + 1 < |toks| {
      var attr := R.TokText(json, key);
      var t := toks[c + 1];
      TokenIsWire(json, toks, c);
      match t.kind
      case String =>
        if t.end - t.start < R.MAX_STR_SIZE {
          TokenIsWire(json, toks, c + 1);
          TextIsWire(R.TokText(json, t));
          PutIsWire(table, attr, R.JVal.Text(R.TokText(json, t)));
        }
      case Array =>
        ParamArray(json, toks, c, table);
      case Primitive =>
        PrimitiveIsWire(R.TokText(json, t), c + 2);
        var r := R.ReadPrimitive(R.TokText(json, t), c + 2);
        if r.Done? && r.ok {
          PutIsWire(table, attr, r.value);
        }
      case Object =>
        EmptyIsWire();
        ObjectKeepsWire(json, toks, c + 1, map[]);
        var r := R.ReadObject(json, toks, c + 1, map[]);
        if r.Done? && r.ok {
          TableIsWire(r.value);
          PutIsWire(table, attr, R.Table(r.value));
        }
    }
  }

  lemma {:induction false} ParamArray(json: string, toks: seq<Token>, c: nat, table: R.Map)
    requires JsmnInvariant.Usable(json, toks) && c + 1 < |toks| && WireTable(table) && toks[c + 1].kind == Array
    ensures var r := R.ReadParam(json, toks, c, table); r.Done? ==> WireTable(r.value)
    decreases R.Left(toks, c), 0
  {
    var key := toks[c];
    if key.kind == String && key.end - key.start < R.MAX_STR_SIZE {
      var attr := R.TokText(json, key);
      var init := if attr in table && table[attr].List? then table[attr].items else [];
      InitIsWire(table, attr);
      TokenIsWire(json, toks, c);
      hide WireTable, WireString, WireValue, WireItems, R.ReadArray, JsmnInvariant.Usable;
      ArrayKeepsWire(json, toks, c + 1, init);
      var r := R.ReadArray(json, toks, c + 1, init);
      if r.Done? {
        ListIsWire(r.value);
        PutIsWire(table, attr, R.ListOf(r.value));
      }
    }
  }

  lemma {:induction false} InitIsWire(table: R.Map, attr: string)
    requires WireTable(table)
    ensures WireItems(if attr in table && table[attr].List? then table[attr].items else [])
  {
    hide WireString;
    if attr in table && table[attr].List? {
      assert WireValue(table[attr]);
    }
  }

  lemma {:induction false} MessageKeepsWire(json: string, toks: seq<Token>, c: nat, msg: R.Msg)
    requires JsmnInvariant.Usable(json, toks) && WireTable(msg.params) && WireTable(msg.result) && WireTable(msg.error)
    ensures var r := R.ReadMessage(json, toks, c, msg); r.Ok? ==> WireTable(r.msg.params) && WireTable(r.msg.result) && WireTable(r.msg.error)
    decreases R.Left(toks, c)
  {
    hide R.ReadObject, WireTable, R.NamesText, R.NamesTable;
    if c < |toks| && toks[c].end - toks[c].start < R.MAX_STR_SIZE {
      var attr := R.TokText(json, toks[c]);
      if R.NamesText(attr) {
        if toks[c].size == 1 {
          MessageKeepsWire(json, toks, c + 2, R.WithText(msg, attr, R.TokText(json, toks[c + 1])));
        }
      } else if R.NamesTable(attr) {
        ObjectKeepsWire(json, toks, c + 1, R.TableOf(msg, attr));
        var r := R.ReadObject(json, toks, c + 1, R.TableOf(msg, attr));
        if r.Done? && r.ok {
          MessageKeepsWire(json, toks, r.cursor, R.WithTable(msg, attr, r.value));
        }
      } else {
        MessageKeepsWire(json, toks, c + 1 + toks[c].size, msg);
      }
    }
  }

  /** Whatever text is parsed, every key and string in the three tables of the message is a wire string. */
  lemma {:induction false} ParsedIsWire(json: string)
    ensures var r := R.ParseRpc(json); r.Ok? ==> WireTable(r.msg.params) && WireTable(r.msg.result) && WireTable(r.msg.error)
  {
    var r := Tokenize(json, R.MAX_TOKENS);
    if r.code >= 0 {
      JsmnInvariant.TokenizeUsable(json, R.MAX_TOKENS);
      MessageKeepsWire(json, r.st.toks, 1, R.EmptyMsg);
    }
  }
}
