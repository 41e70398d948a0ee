/** src/json/jsonrpc_parser.c in its own form: recursive readers that advance one shared cursor and fill tables
    and lists in loops. Every method is proved equal to the function in JsonRpcSpec. */
module JsonRpcParser {
  import opened Options
  import opened JsmnSpec
  import opened JsmnInvariant
  import opened JsonRpcSpec
  import JsmnParser

  // What a reader reports: true, false, or that the C text leaves the outcome undefined.
  datatype Status = Yes | No | Undef

  ghost predicate Meets<T>(spec: Outcome<T>, status: Status, value: T, cursor: nat) {
    match spec
    case Undefined => status == Undef
    case Done(ok, v, c) => status == (if ok then Yes else No) && value == v && cursor == c
  }

  class Context {
    const json: string
    const tokens: seq<Token>
    var cursor: nat

    constructor (json: string, tokens: seq<Token>)
      ensures this.json == json && this.tokens == tokens && cursor == 0
    {
      this.json, this.tokens, cursor := json, tokens, 0;
    }

    method ReadString() returns (status: Status, value: string)
      requires Usable(json, tokens) && cursor < |tokens|
      modifies this`cursor
      ensures var t := tokens[old(cursor)];
        if t.kind != String then status == No && cursor == old(cursor)
        else if t.end - t.start >= MAX_STR_SIZE then status == Undef
        else status == Yes && value == TokText(json, t) && cursor == old(cursor) + 1
    {
      var t := tokens[cursor];
      value := "";
      if t.kind != String {
        return No, value;
      }
      cursor := cursor + 1;
      if t.end - t.start >= MAX_STR_SIZE {
        return Undef, value;
      }
      return Yes, TokText(json, t);
    }

    method ReadPrimitiveToken() returns (status: Status, value: JVal)
      requires Usable(json, tokens) && cursor < |tokens| && tokens[cursor].kind == Primitive
      modifies this`cursor
      ensures Meets(ReadPrimitive(TokText(json, tokens[old(cursor)]), old(cursor) + 1), status, value, cursor)
    {
      var text := TokText(json, tokens[cursor]);
      value := Null;
      cursor := cursor + 1;
      if |text| >= MAX_PRIMITIVE_SIZE {
        return Undef, value;
      }
      if text == "true" || text == "false" {
        return Yes, Bool(text == "true");
      } else if text == "null" {
        return Yes, Null;
      } else if '.' in text {
        return Undef, value;
      } else {
        var n := ScanLong(text);
        if n == None {
          return No, value;
        }
        if !IsLong(n.value) {
          return Undef, value;
        }
        return Yes, Long(n.value);
      }
    }

    method ReadArrayToken(size: nat, init: seq<JVal>) returns (status: Status, list: seq<JVal>)
      requires Usable(json, tokens) && cursor < |tokens| && size == tokens[cursor].size
      modifies this`cursor
      ensures Meets(ReadArray(json, tokens, old(cursor), init), status, list, cursor)
      decreases Left(tokens, cursor), 0
    {
      hide ReadPrimitive, ReadObject, Resolve, Owned;
      ghost var spec := ReadArray(json, tokens, cursor, init);
      var cells := Owned(init);
      var sublist := [];
      list := [];
      cursor := cursor + 1;
      for x := 0 to size
        invariant cursor > old(cursor)
        invariant spec == ReadItems(json, tokens, cursor, size - x, cells, sublist)
      {
        if cursor >= |tokens| {
          return Undef, list;
        }
        var t := tokens[cursor];
        var value := Null;
        if t.kind == Primitive {
          status, value := ReadPrimitiveToken();
        } else if t.kind == String {
          var s;
          status, s := ReadString();
          value := Text(s);
        } else if t.kind == Object {
          var table;
          status, table := ReadObjectToken();
          status := if status == No then Yes else status;
          value := Table(table);
        } else {
          status, sublist := ReadArrayToken(t.size, sublist);
        }
        if status == Undef {
          return Undef, list;
        }
        if status == No {
          return No, Resolve(cells, sublist);
        }
        cells := cells + [if t.kind == Array && sublist != [] then Shared else Own(if t.kind == Array then Null else value)];
      }
      return Yes, Resolve(cells, sublist);
    }

    method ReadObjectToken() returns (status: Status, table: Map)
      requires Usable(json, tokens) && cursor < |tokens|
      modifies this`cursor
      ensures Meets(ReadObject(json, tokens, old(cursor), map[]), status, table, cursor)
      decreases Left(tokens, cursor), 1
    {
      status, table := ParseParamObj(map[]);
    }

    method ParseParam(values: Map) returns (status: Status, table: Map)
      requires Usable(json, tokens) && cursor < |tokens|
      modifies this`cursor
      ensures Meets(ReadParam(json, tokens, old(cursor), values), status, table, cursor)
      decreases Left(tokens, cursor), 1
    {
      table := values;
      var key := tokens[cursor];
      if key.kind != String {
        return No, table;
      }
      if key.end - key.start >= MAX_STR_SIZE {
        return Undef, table;
      }
      var attr := TokText(json, key);
      cursor := cursor + 1;
      if cursor >= |tokens| {
        return Undef, table;
      }
      var t := tokens[cursor];
      if t.kind == String {
        if t.end - t.start >= MAX_STR_SIZE {
          return Undef, table;
        }
        table := table[attr := Text(TokText(json, t))];
        cursor := cursor + key.size;
        return Yes, table;
      } else if t.kind == Array {
        if attr in values && !values[attr].List? && !values[attr].Null? {
          return Undef, table;
        }
        var list;
        status, list := ReadArrayToken(t.size, if attr in values && values[attr].List? then values[attr].items else []);
        if status != Undef && (status == Yes || attr in values) {
          table := PutList(values, attr, list);
        }
      } else if t.kind == Primitive {
        var value;
        status, value := ReadPrimitiveToken();
        if status == Yes {
          table := table[attr := value];
        }
      } else {
        var obj;
        status, obj := ParseParamObj(map[]);
        if status == Yes {
          table := table[attr := Table(obj)];
          cursor := cursor + key.size;
        }
      }
    }

    method ParseParamObj(values: Map) returns (status: Status, table: Map)
      requires Usable(json, tokens)
      modifies this`cursor
      ensures Meets(ReadObject(json, tokens, old(cursor), values), status, table, cursor)
      decreases Left(tokens, cursor), 0
    {
      hide ReadParam;
      ghost var spec := ReadObject(json, tokens, cursor, values);
      table := values;
      if cursor >= |tokens| {
        return Undef, table;
      }
      if tokens[cursor].kind != Object {
        return No, table;
      }
      var size := tokens[cursor].size;
      cursor := cursor + 1;
      for i := 0 to size
        invariant cursor > old(cursor)
        invariant spec == ReadParams(json, tokens, cursor, size - i, table)
      {
        if cursor >= |tokens| {
          return Undef, table;
        }
        status, table := ParseParam(table);
        if status != Yes {
          return;
        }
      }
      status := Yes;
    }

    // parse_message
    method ParseMessage() returns (r: Parsed)
      requires Usable(json, tokens)
      modifies this`cursor
      ensures r == (if |tokens| == 0 then Unspecified
                    else if tokens[0].kind != Object then Error(JSONRPC_INVALID)
                    else ReadMessage(json, tokens, 1, EmptyMsg))
    {
      if |tokens| == 0 {
        return Unspecified;
      }
      if tokens[0].kind != Object {
        return Error(JSONRPC_INVALID);
      }
      var obj := EmptyMsg;
      cursor := 1;
      while cursor < |tokens|
        invariant ReadMessage(json, tokens, 1, EmptyMsg) == ReadMessage(json, tokens, cursor, obj)
        decreases Left(tokens, cursor)
      {
        var next := ParseMember(obj);
        if !next.Ok? {
          return next;
        }
        obj := next.msg;
      }
      return Ok(obj);
    }

    // One turn of the loop of parse_message: the message read so far, or how the parse ends.
    method ParseMember(obj: Msg) returns (r: Parsed)
      requires Usable(json, tokens) && cursor < |tokens|
      modifies this`cursor
      ensures if r.Ok?
        then cursor > old(cursor) && ReadMessage(json, tokens, old(cursor), obj) == ReadMessage(json, tokens, cursor, r.msg)
        else ReadMessage(json, tokens, old(cursor), obj) == r
    {
      hide WithText, WithTable, TableOf, NamesText, NamesTable, ReadObject;
      var tok := tokens[cursor];
      if tok.end - tok.start >= MAX_STR_SIZE {
        return Unspecified;
      }
      var attr := TokText(json, tok);
      if NamesText(attr) {
        if tok.size != 1 {
          return Error(JSONRPC_INVALID);
        }
        cursor := cursor + 1;
        var next := tokens[cursor];
        if next.end - next.start >= MAX_STR_SIZE {
          return Unspecified;
        }
        cursor := cursor + 1;
        return Ok(WithText(obj, attr, TokText(json, next)));
      } else if NamesTable(attr) {
        if tok.size != 1 {
          return Error(JSONRPC_INVALID);
        }
        cursor := cursor + 1;
        var status, table := ParseParamObj(TableOf(obj, attr));
        if status == Undef {
          return Unspecified;
        }
        if status == No {
          return Error(JSONRPC_INVALID);
        }
        return Ok(WithTable(obj, attr, table));
      } else {
        cursor := cursor + 1;
        cursor := cursor + tok.size;
        return Ok(obj);
      }
    }
  }

  // ufa_jsonrpc_parse: tokenizes into a fresh array of MAX_TOKENS tokens, then reads the message.
  method Parse(json: string) returns (r: Parsed)
    ensures r == ParseRpc(json)
  {
    var parser := new JsmnParser.Parser();
    var tokens := new Token[MAX_TOKENS](_ => Token(Primitive, -1, -1, 0));
    assert parser.Abs(tokens) == Start;
    var count := parser.Parse(json, tokens);
    if count < 0 {
      return Error(count);
    }
    TokenizeUsable(json, MAX_TOKENS);
    assert count == parser.toknext;
    var context := new Context(json, tokens[..count]);
    r := context.ParseMessage();
  }
}
