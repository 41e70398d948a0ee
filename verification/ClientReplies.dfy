/** What the client of src/json/jsonrpc_api.c makes of the responses: it reads once, into a buffer of fixed size, and
    parses what is there. */
module ClientReplies {
  import opened Options
  import opened JsmnSpec
  import opened Wire
  import opened WireLists
  import opened WireReplies
  import opened JsonMessage
  import opened Strings
  import JsmnInvariant
  import R = JsonRpcSpec

  const MAX_RESPONSE_SIZE := 4096

  /** The C string in the buffer after the read: the response with its terminator, when both fit; otherwise as much of
      the response as fits, and behind it whatever the memory behind the buffer holds up to a NUL. */
  function Received(reply: string, beyond: string): string {
    if |reply| < MAX_RESPONSE_SIZE then reply else reply[..MAX_RESPONSE_SIZE] + beyond
  }

  // request_jsonrpc: the message of a response that is neither unreadable nor an error.
  function Response(reply: string, beyond: string): Option<R.Msg> {
    match R.ParseRpc(Received(reply, beyond))
    case Ok(msg) => if msg.error == map[] then Some(msg) else None
    case _ => None
  }

  // ---------------------------------------------------------------- exactly when a response is received

  /** Whatever lies behind the buffer, the client gets the message. */
  ghost predicate Arrives(reply: string, msg: R.Msg) {
    forall beyond :: '\0' !in beyond ==> Response(reply, beyond) == Some(msg)
  }

  /** A response arrives exactly when it and its terminator fit the buffer. */
  lemma {:induction false} ArrivesExactly(reply: string, msg: R.Msg)
    requires Framed(reply, msg) && msg.error == map[]
    ensures Arrives(reply, msg) <==> |reply| < MAX_RESPONSE_SIZE
  {
    hide R.ParseRpc;
    if |reply| >= MAX_RESPONSE_SIZE {
      var beyond := if |reply| == MAX_RESPONSE_SIZE then "{" else "";
      assert |reply| == MAX_RESPONSE_SIZE ==> reply[..MAX_RESPONSE_SIZE] == reply;
      assert reply[..MAX_RESPONSE_SIZE] + "" == reply[..MAX_RESPONSE_SIZE];
      assert '\0' !in beyond && Response(reply, beyond) == None;
    }
  }

  // ---------------------------------------------------------------- lists

  // The strings of the list under "value" (ufa_jsonrpc_api_listtags, gettags, search).
  function DecodeList(msg: R.Msg): seq<string> {
    if "value" in msg.result && msg.result["value"].List? then TextsOf(msg.result["value"].items) else []
  }

  function TextsOf(vals: seq<R.JVal>): seq<string> {
    if vals == [] then [] else [if vals[0].Text? then vals[0].s else ""] + TextsOf(vals[1..])
  }

  lemma {:induction false} TextsOfTextList(list: seq<string>)
    ensures TextsOf(TextList(list)) == list
  {
    if list != [] {
      assert TextList(list)[1..] == TextList(list[1..]);
      TextsOfTextList(list[1..]);
    }
  }

  // ufa_jsonrpc_api_listtags, gettags and search: the list, or nothing.
  function ClientList(reply: string, beyond: string): Option<seq<string>> {
    match Response(reply, beyond)
    case None => None
    case Some(msg) => Some(DecodeList(msg))
  }

  /** The list a client returns is the list the server sent, whatever lies behind the buffer, exactly when the response
      is shorter than the buffer. */
  lemma {:induction false} ListArrives(id: string, elements: seq<string>)
    requires WireString(id) && WireStrings(elements) && 3 + |elements| <= ROOM
    ensures (forall beyond :: '\0' !in beyond ==> ClientList(ListReply(id, elements), beyond) == Some(elements))
      <==> |ListReply(id, elements)| < MAX_RESPONSE_SIZE
  {
    var reply := ListReply(id, elements);
    var msg := Answered(id, map["value" := R.ListOf(TextList(elements))]);
    ListReplyRoundTrip(id, elements);
    DecodesList(id, elements);
    hide R.ParseRpc, ListReply, WireString, WireStrings, DecodeList, Received, Framed;
    ArrivesExactly(reply, msg);
    if |reply| >= MAX_RESPONSE_SIZE {
      NotReceived(reply, msg);
      var beyond :| '\0' !in beyond && Response(reply, beyond) == None;
      assert ClientList(reply, beyond) == None;
    }
  }

  lemma {:induction false} NotReceived(reply: string, msg: R.Msg)
    requires Framed(reply, msg) && |reply| >= MAX_RESPONSE_SIZE
    ensures exists beyond :: '\0' !in beyond && Response(reply, beyond) == None
  {
    hide R.ParseRpc;
    var beyond := if |reply| == MAX_RESPONSE_SIZE then "{" else "";
    assert |reply| == MAX_RESPONSE_SIZE ==> reply[..MAX_RESPONSE_SIZE] == reply;
    assert reply[..MAX_RESPONSE_SIZE] + "" == reply[..MAX_RESPONSE_SIZE];
    assert '\0' !in beyond && Response(reply, beyond) == None;
  }

  lemma {:induction false} DecodesList(id: string, elements: seq<string>)
    ensures DecodeList(Answered(id, map["value" := R.ListOf(TextList(elements))])) == elements
  {
    TextsOfTextList(elements);
  }

  // ---------------------------------------------------------------- a list that does not arrive

  function LongString(): (s: string)
    ensures |s| == 1000 && forall i :: 0 <= i < |s| ==> s[i] == 'a'
  {
    seq(1000, _ => 'a')
  }

  lemma {:induction false} LettersAreBody(s: string)
    requires forall i :: 0 <= i < |s| ==> s[i] == 'a'
    ensures JsmnInvariant.IsBody(s)
  {
    if s != "" {
      LettersAreBody(s[1..]);
    }
  }

  /** Five tags of 1000 letters each, every one of which can be set and is sent, do not arrive. */
  lemma {:induction false} FiveLongTags(id: string)
    requires WireString(id)
    ensures var tags := [LongString(), LongString(), LongString(), LongString(), LongString()];
      WireStrings(tags) && |ListReply(id, tags)| >= MAX_RESPONSE_SIZE &&
      exists beyond :: '\0' !in beyond && ClientList(ListReply(id, tags), beyond) == None
  {
    var s := LongString();
    var tags := [s, s, s, s, s];
    LettersAreBody(s);
    assert forall t :: t in tags ==> t == s;
    hide JsmnInvariant.IsBody;
    FiveJoined(s);
    assert |ListReply(id, tags)| >= |Joined(tags, ", ", "\"", "\"")|;
    hide ListReply, Joined, LongString;
    ListReplyRoundTrip(id, tags);
    NotReceived(ListReply(id, tags), Answered(id, map["value" := R.ListOf(TextList(tags))]));
    var beyond :| '\0' !in beyond && Response(ListReply(id, tags), beyond) == None;
    assert ClientList(ListReply(id, tags), beyond) == None;
  }

  lemma {:induction false} FiveJoined(s: string)
    ensures |Joined([s, s, s, s, s], ", ", "\"", "\"")| >= 5 * |s|
  {
    var delim, quote := ", ", "\"";
    assert [s, s, s, s, s][1..] == [s, s, s, s] && [s, s, s, s][1..] == [s, s, s] && [s, s, s][1..] == [s, s] && [s, s][1..] == [s];
    assert |Joined([s], delim, quote, quote)| >= |s|;
    assert |Joined([s, s], delim, quote, quote)| >= 2 * |s|;
    assert |Joined([s, s, s], delim, quote, quote)| >= 3 * |s|;
    assert |Joined([s, s, s, s], delim, quote, quote)| >= 4 * |s|;
  }

  // ---------------------------------------------------------------- attributes

  // The attributes of the table under "value" (ufa_jsonrpc_api_getattr); their order is that of the hash table.
  function DecodeAttrs(msg: R.Msg): set<Attr> {
    if "value" in msg.result && msg.result["value"].Table? then
      set key | key in msg.result["value"].table :: Attr(key, var v := msg.result["value"].table[key]; if v.Text? then v.s else "")
    else {}
  }

  lemma {:induction false} AttrDomain(attrs: seq<Attr>, table: R.Map, key: string)
    ensures key in AttrTable(attrs, table) <==> key in table || exists i :: 0 <= i < |attrs| && attrs[i].attribute == key
  {
    if attrs != [] {
      var rest := attrs[1..];
      AttrDomain(rest, table[attrs[0].attribute := R.JVal.Text(attrs[0].value)], key);
      assert forall i :: 0 <= i < |rest| ==> rest[i] == attrs[i + 1];
      if i :| 0 <= i < |attrs| && attrs[i].attribute == key && i > 0 {
        assert rest[i - 1].attribute == key;
      }
    }
  }

  lemma {:induction false} DecodesAttrs(id: string, attrs: seq<Attr>)
    requires forall i, j :: 0 <= i < j < |attrs| ==> attrs[i].attribute != attrs[j].attribute
    ensures forall a :: a in DecodeAttrs(Answered(id, map["value" := R.Table(AttrTable(attrs, map[]))])) <==> a in attrs
  {
    var t := AttrTable(attrs, map[]);
    forall a
      ensures a in DecodeAttrs(Answered(id, map["value" := R.Table(t)])) <==> a in attrs
    {
      if a in attrs {
        var i :| 0 <= i < |attrs| && attrs[i] == a;
        AttrEntry(attrs, map[], i);
      }
      AttrDomain(attrs, map[], a.attribute);
      if a.attribute in t {
        var i :| 0 <= i < |attrs| && attrs[i].attribute == a.attribute;
        AttrEntry(attrs, map[], i);
      }
    }
  }

  // ufa_jsonrpc_api_getattr: the attributes, or nothing.
  function ClientAttrs(reply: string, beyond: string): Option<set<Attr>> {
    match Response(reply, beyond)
    case None => None
    case Some(msg) => Some(DecodeAttrs(msg))
  }

  /** The attributes a client returns are the attributes the server sent, whatever lies behind the buffer, exactly when
      the response is shorter than the buffer. */
  lemma {:induction false} AttrsArrive(id: string, attrs: seq<Attr>)
    requires WireString(id) && AttrsOnWire(attrs) && 3 + 2 * |attrs| <= ROOM
    ensures (forall beyond :: '\0' !in beyond ==> ClientAttrs(AttrReply(id, attrs), beyond) == Some(set a | a in attrs))
      <==> |AttrReply(id, attrs)| < MAX_RESPONSE_SIZE
  {
    var reply := AttrReply(id, attrs);
    var msg := Answered(id, map["value" := R.Table(AttrTable(attrs, map[]))]);
    AttrReplyRoundTrip(id, attrs);
    DecodesAttrs(id, attrs);
    assert DecodeAttrs(msg) == set a | a in attrs;
    hide R.ParseRpc, AttrReply, WireString, DecodeAttrs, Received, Framed;
    ArrivesExactly(reply, msg);
    if |reply| >= MAX_RESPONSE_SIZE {
      NotReceived(reply, msg);
      var beyond :| '\0' !in beyond && Response(reply, beyond) == None;
      assert ClientAttrs(reply, beyond) == None;
    }
  }
}
