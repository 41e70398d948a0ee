/** The JSON-RPC reader of src/json/jsonrpc_parser.c as functions: a walk over the flat token array that turns
    tokens into tables and lists. */
module JsonRpcSpec {
  import opened Options
  import opened JsmnSpec
  import opened JsmnInvariant

  const MAX_STR_SIZE := 1024
  const MAX_PRIMITIVE_SIZE := 255
  const MAX_TOKENS := 4096
  const JSONRPC_INVALID := -5000

  type Map = map<string, JVal>

  /** A value as the daemon holds it. A NULL pointer is both JSON's null and the empty list. */
  datatype JVal =
    | Null
    | Bool(b: bool)
    | Long(n: int)
    | Text(s: string)
    | List(items: seq<JVal>)
    | Table(table: Map)

  function ListOf(items: seq<JVal>): JVal {
    if items == [] then Null else List(items)
  }

  /** `Undefined` stands for what the C text leaves undefined (a token past the last one, a fixed buffer that is too
      small, a long out of range, a value of another type under a repeated key) and for doubles, which are left out. */
  datatype Outcome<+T> = Done(ok: bool, value: T, cursor: nat) | Undefined

  datatype Msg = Msg(methodName: Option<string>, id: Option<string>, params: Map, result: Map, error: Map)

  datatype Parsed = Ok(msg: Msg) | Error(code: int) | Unspecified

  const EmptyMsg := Msg(None, None, map[], map[], map[])

  function TokText(json: string, t: Token): string
    requires 0 <= t.start <= t.end <= |json|
  {
    json[t.start..t.end]
  }

  function Digits(s: string, n: nat): (r: nat) {
    if s == "" || !('0' <= s[0] <= '9') then n else Digits(s[1..], 10 * n + (s[0] as int - '0' as int))
  }

  // sscanf("%ld"): an optional sign and the longest run of digits, which may not be empty.
  function ScanLong(s: string): Option<int> {
    var body := if s != "" && (s[0] == '-' || s[0] == '+') then s[1..] else s;
    if body == "" || !('0' <= body[0] <= '9') then None
    else Some(if s[0] == '-' then 0 - Digits(body, 0) else Digits(body, 0))
  }

  predicate IsLong(n: int) {
    -0x8000_0000_0000_0000 <= n < 0x8000_0000_0000_0000
  }

  // The value of a primitive; the outcome's cursor is where the walk goes on.
  function ReadPrimitive(text: string, cursor: nat): (r: Outcome<JVal>)
    ensures r.Done? ==> r.cursor == cursor
  {
    if |text| >= MAX_PRIMITIVE_SIZE then Undefined
    else if text == "true" || text == "false" then Done(true, Bool(text == "true"), cursor)
    else if text == "null" then Done(true, Null, cursor)
    else if '.' in text then Undefined
    else
      match ScanLong(text)
      case None => Done(false, Null, cursor)
      case Some(n) => if IsLong(n) then Done(true, Long(n), cursor) else Undefined
  }

  /** A cell of a list under construction. All arrays nested in one array share one list once it is not empty
      (`sublist`), so what such a cell holds is known only at the end. */
  datatype Cell = Own(v: JVal) | Shared

  function Resolve(cells: seq<Cell>, sub: seq<JVal>): (r: seq<JVal>)
    ensures |r| == |cells|
    ensures forall i :: 0 <= i < |cells| ==> r[i] == if cells[i].Own? then cells[i].v else List(sub)
  {
    if cells == [] then []
    else [if cells[0].Own? then cells[0].v else List(sub)] + Resolve(cells[1..], sub)
  }

  function Owned(items: seq<JVal>): (cells: seq<Cell>)
    ensures |cells| == |items| && forall i :: 0 <= i < |items| ==> cells[i] == Own(items[i])
  {
    if items == [] then [] else [Own(items[0])] + Owned(items[1..])
  }

  function Left(toks: seq<Token>, cursor: nat): nat {
    if cursor < |toks| then |toks| - cursor else 0
  }

  function ReadArray(json: string, toks: seq<Token>, cursor: nat, init: seq<JVal>): (r: Outcome<seq<JVal>>)
    requires Usable(json, toks) && cursor < |toks|
    ensures r.Done? ==> r.cursor > cursor
    decreases Left(toks, cursor), 0
  {
    ReadItems(json, toks, cursor + 1, toks[cursor].size, Owned(init), [])
  }

  function ReadItems(json: string, toks: seq<Token>, cursor: nat, n: nat, cells: seq<Cell>, sub: seq<JVal>): (r: Outcome<seq<JVal>>)
    requires Usable(json, toks)
    ensures r.Done? ==> r.cursor >= cursor
    decreases Left(toks, cursor), 1
  {
    if n == 0 then Done(true, Resolve(cells, sub), cursor)
    else if cursor >= |toks| then Undefined
    else
      var t := toks[cursor];
      match t.kind
      case Primitive =>
        (match ReadPrimitive(TokText(json, t), cursor + 1)
         case Undefined => Undefined
         case Done(ok, v, c) =>
           if ok then ReadItems(json, toks, c, n - 1, cells + [Own(v)], sub)
           else Done(false, Resolve(cells, sub), c))
      case String =>
        if t.end - t.start >= MAX_STR_SIZE then Undefined
        else ReadItems(json, toks, cursor + 1, n - 1, cells + [Own(Text(TokText(json, t)))], sub)
      case Object =>
        // a failed read_object is not noticed here
        (match ReadObject(json, toks, cursor, map[])
         case Undefined => Undefined
         case Done(_, table, c) => ReadItems(json, toks, c, n - 1, cells + [Own(Table(table))], sub))
      case Array =>
        (match ReadArray(json, toks, cursor, sub)
         case Undefined => Undefined
         case Done(ok, sub', c) =>
           if ok then ReadItems(json, toks, c, n - 1, cells + [if sub' == [] then Own(Null) else Shared], sub')
           else Done(false, Resolve(cells, sub'), c))
  }

  // parse_param_obj
  function ReadObject(json: string, toks: seq<Token>, cursor: nat, table: Map): (r: Outcome<Map>)
    requires Usable(json, toks)
    ensures r.Done? ==> r.cursor >= cursor && (cursor < |toks| && toks[cursor].kind == Object ==> r.cursor > cursor)
    decreases Left(toks, cursor), 0
  {
    if cursor >= |toks| then Undefined
    else if toks[cursor].kind != Object then Done(false, table, cursor)
    else ReadParams(json, toks, cursor + 1, toks[cursor].size, table)
  }

  function ReadParams(json: string, toks: seq<Token>, cursor: nat, n: nat, table: Map): (r: Outcome<Map>)
    requires Usable(json, toks)
    ensures r.Done? ==> r.cursor >= cursor
    decreases Left(toks, cursor), 2
  {
    if n == 0 then Done(true, table, cursor)
    else if cursor >= |toks| then Undefined
    else
      match ReadParam(json, toks, cursor, table)
      case Undefined => Undefined
      case Done(ok, table', c) =>
        if ok then ReadParams(json, toks, c, n - 1, table') else Done(false, table', c)
  }

  // The list under a repeated key is extended in place; an empty one is a NULL that stays behind.
  function PutList(table: Map, attr: string, items: seq<JVal>): Map {
    if attr !in table then table[attr := ListOf(items)]
    else if table[attr].List? then table[attr := ListOf(items)]
    else table
  }

  // parse_param: one key and its value
  function ReadParam(json: string, toks: seq<Token>, cursor: nat, table: Map): (r: Outcome<Map>)
    requires Usable(json, toks) && cursor < |toks|
    ensures r.Done? ==> r.cursor >= cursor && (r.ok ==> r.cursor > cursor)
    decreases Left(toks, cursor), 1
  {
    var key := toks[cursor];
    if key.kind != String then Done(false, table, cursor)
    else if key.end - key.start >= MAX_STR_SIZE || cursor + 1 >= |toks| then Undefined
    else
      var attr := TokText(json, key);
      var t := toks[cursor + 1];
      match t.kind
      case String =>
        if t.end - t.start >= MAX_STR_SIZE then Undefined
        else Done(true, table[attr := Text(TokText(json, t))], cursor + 1 + key.size)
      case Array =>
        if attr in table && !table[attr].List? && !table[attr].Null? then Undefined
        else
          (match ReadArray(json, toks, cursor + 1, if attr in table && table[attr].List? then table[attr].items else [])
           case Undefined => Undefined
           case Done(ok, items, c) => Done(ok, if ok || attr in table then PutList(table, attr, items) else table, c))
      case Primitive =>
        (match ReadPrimitive(TokText(json, t), cursor + 2)
         case Undefined => Undefined
         case Done(ok, v, c) => Done(ok, if ok then table[attr := v] else table, c))
      case Object =>
        (match ReadObject(json, toks, cursor + 1, map[])
         case Undefined => Undefined
         case Done(ok, obj, c) =>
           if ok then Done(true, table[attr := Table(obj)], c + key.size) else Done(false, table, c))
  }

  predicate NamesText(key: string) {
    key == "jsonrpc" || key == "method" || key == "id"
  }

  predicate NamesTable(key: string) {
    key == "params" || key == "result" || key == "error"
  }

  // The loop of parse_message.
  function ReadMessage(json: string, toks: seq<Token>, cursor: nat, msg: Msg): Parsed
    requires Usable(json, toks)
    decreases Left(toks, cursor)
  {
    if cursor >= |toks| then Ok(msg)
    else if toks[cursor].end - toks[cursor].start >= MAX_STR_SIZE then Unspecified
    else
      var attr := TokText(json, toks[cursor]);
      if NamesText(attr) then
        if toks[cursor].size != 1 then Error(JSONRPC_INVALID)
        else if toks[cursor + 1].end - toks[cursor + 1].start >= MAX_STR_SIZE then Unspecified
        else ReadMessage(json, toks, cursor + 2, WithText(msg, attr, TokText(json, toks[cursor + 1])))
      else if NamesTable(attr) then
        if toks[cursor].size != 1 then Error(JSONRPC_INVALID)
        else
          match ReadObject(json, toks, cursor + 1, TableOf(msg, attr))
          case Undefined => Unspecified
          case Done(ok, table, c) =>
            if ok then ReadMessage(json, toks, c, WithTable(msg, attr, table)) else Error(JSONRPC_INVALID)
      else ReadMessage(json, toks, cursor + 1 + toks[cursor].size, msg)
  }

  function WithText(msg: Msg, attr: string, text: string): Msg {
    if attr == "method" then msg.(methodName := Some(text))
    else if attr == "id" then msg.(id := Some(text))
    else msg
  }

  function TableOf(msg: Msg, attr: string): Map {
    if attr == "params" then msg.params else if attr == "result" then msg.result else msg.error
  }

  function WithTable(msg: Msg, attr: string, table: Map): Msg {
    if attr == "params" then msg.(params := table)
    else if attr == "result" then msg.(result := table)
    else msg.(error := table)
  }

  // ufa_jsonrpc_parse on a C string
  function ParseRpc(json: string): Parsed
  {
    var r := Tokenize(json, MAX_TOKENS);
    if r.code < 0 then Error(r.code)
    else
      var toks := r.st.toks;
      TokenizeUsable(json, MAX_TOKENS);
      if |toks| == 0 then Unspecified
      else if toks[0].kind != Object then Error(JSONRPC_INVALID)
      else ReadMessage(json, toks, 1, EmptyMsg)
  }
}
