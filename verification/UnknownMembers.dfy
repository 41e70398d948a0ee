/** Messages with members of other names: the walk steps over such a name and one token, so what an object holds there is
    taken for members of the message. */
module UnknownMembers {
  import opened Sets
  import opened JsmnSpec
  import opened JsonText
  import opened JsonReads
  import opened JsonMessage
  import JsmnInvariant
  import JsonTokens
  import R = JsonRpcSpec

  predicate Unknown(key: string) {
    !R.NamesText(key) && !R.NamesTable(key)
  }

  /** What a message is read as. */
  function ReadMeaning(members: Members, msg: R.Msg): R.Msg
    decreases members
  {
    match members
    case NoMember => msg
    case Member(key, _, _, val, _, rest) =>
      ReadMeaning(rest, if Unknown(key) && val.Obj? then ReadMeaning(val.members, msg) else PartMeaning(members, msg))
  }

  // The names that the walk comes across.
  function Reached(members: Members): set<string>
    decreases members
  {
    match members
    case NoMember => {}
    case Member(key, _, _, val, _, rest) => ReachedBy(key, val) + Reached(rest)
  }

  function ReachedBy(key: string, val: Value): set<string>
    decreases val
  {
    if !Unknown(key) then {key} else if val.Obj? then Reached(val.members) else {}
  }

  // How many tokens too far the walk ends.
  function WalkOvershoot(members: Members): nat
    decreases members
  {
    if members.NoMember? then 0
    else if members.rest.Member? then WalkOvershoot(members.rest)
    else OvershootBy(members.key, members.val)
  }

  function OvershootBy(key: string, val: Value): nat
    decreases val
  {
    if R.NamesTable(key) then Overshoot(val) else if Unknown(key) && val.Obj? then WalkOvershoot(val.members) else 0
  }

  predicate ScalarItems(items: Items) {
    items.Item? ==> Scalar(items.val) && |ScalarText(items.val)| < R.MAX_STR_SIZE && ScalarItems(items.rest)
  }

  /** The messages considered here: no name is reached twice, named members are as in JsonMessage, other members hold
      scalars, arrays of scalars, or objects of the same kind, and only the last member may overshoot. */
  predicate Walkable(members: Members)
    decreases members
  {
    match members
    case NoMember => true
    case Member(key, _, _, val, _, rest) =>
      |key| < R.MAX_STR_SIZE && ReachedBy(key, val) !! Reached(rest) && Walkable(rest) &&
      (rest.Member? ==> OvershootBy(key, val) == 0) &&
      (R.NamesText(key) ==> Scalar(val) && |ScalarText(val)| < R.MAX_STR_SIZE) &&
      (R.NamesTable(key) ==> val.Obj? && Readable(val)) &&
      (Unknown(key) ==> Scalar(val) || (val.Arr? && ScalarItems(val.items)) || (val.Obj? && Walkable(val.members)))
  }

  // An item of an array is a name of the reader.
  predicate NamesItem(items: Items) {
    items.Item? && (!Unknown(ScalarText(items.val)) || NamesItem(items.rest))
  }

  /** The walk comes across such an item, which has no value behind it. */
  predicate Stops(members: Members)
    decreases members
  {
    members.Member? && (StopsBy(members.key, members.val) || Stops(members.rest))
  }

  predicate StopsBy(key: string, val: Value)
    decreases val
  {
    Unknown(key) && ((val.Arr? && NamesItem(val.items)) || (val.Obj? && Stops(val.members)))
  }

  // The tables with these names are still empty.
  ghost predicate Empty(keys: set<string>, msg: R.Msg) {
    forall key :: key in keys && R.NamesTable(key) ==> R.TableOf(msg, key) == map[]
  }

  // Tables that are not reached stay.
  lemma {:induction false} TablesStay(members: Members, msg: R.Msg, key: string)
    requires R.NamesTable(key) && key !in Reached(members)
    ensures R.TableOf(ReadMeaning(members, msg), key) == R.TableOf(msg, key)
    decreases members
  {
    hide MembersMeaning;
    if members.Member? {
      var inner := Unknown(members.key) && members.val.Obj?;
      if inner {
        TablesStay(members.val.members, msg, key);
      }
      TablesStay(members.rest, if inner then ReadMeaning(members.val.members, msg) else PartMeaning(members, msg), key);
    }
  }

  lemma {:induction false} StaysEmpty(members: Members, msg: R.Msg, keys: set<string>)
    requires Empty(keys, msg) && keys !! Reached(members)
    ensures Empty(keys, ReadMeaning(members, msg))
  {
    forall key | key in keys && R.NamesTable(key)
      ensures R.TableOf(ReadMeaning(members, msg), key) == map[]
    {
      TablesStay(members, msg, key);
    }
  }

  // The same for one member.
  lemma {:induction false} PartStaysEmpty(m: Members, msg: R.Msg, keys: set<string>)
    requires m.Member? && Empty(keys, msg) && m.key !in keys
    ensures Empty(keys, PartMeaning(m, msg))
  {
    hide MembersMeaning;
  }

  // ---------------------------------------------------------------- the walk

  lemma {:induction false} ReadsNamed(json: string, toks: seq<Token>, c: nat, m: Members, at: nat, msg: R.Msg)
    requires JsmnInvariant.Usable(json, toks) && m.Member? && Walkable(m) && Empty(Reached(m), msg) && (Unknown(m.key) ==> Scalar(m.val))
    requires At(json, at, MembersText(m)) && At(toks, c, MembersTokens(m, at))
    ensures R.ReadMessage(json, toks, c, msg) ==
      R.ReadMessage(json, toks, c + 1 + Size(m.val) + OvershootBy(m.key, m.val), PartMeaning(m, msg))
  {
    hide Text, Tokens, Readable, Overshoot, R.ReadMessage, At, JsmnInvariant.Usable, Size, MembersMeaning, MembersText, MembersTokens, MemberHead;
    KeyAndValue(json, toks, c, m, at);
    var valAt := at + |MemberHead(m.key, m.before, m.after)|;
    if R.NamesTable(m.key) {
      assert m.key in Reached(m);
      ReadsTablePart(json, toks, c, m, valAt, msg);
    } else {
      ReadsScalarPart(json, toks, c, m, valAt, msg);
    }
  }

  // A token without a value behind it, as an item of an array is.
  lemma {:induction false} ReadsLone(json: string, toks: seq<Token>, c: nat, msg: R.Msg)
    requires JsmnInvariant.Usable(json, toks) && c < |toks| && toks[c].size == 0 && |R.TokText(json, toks[c])| < R.MAX_STR_SIZE
    ensures R.ReadMessage(json, toks, c, msg) ==
      if Unknown(R.TokText(json, toks[c])) then R.ReadMessage(json, toks, c + 1, msg) else R.Error(R.JSONRPC_INVALID)
  {
    SizeOfText(json, toks, c);
    hide R.ReadObject, JsmnInvariant.Usable, R.NamesText, R.NamesTable, R.TableOf, R.WithText, R.WithTable, R.TokText;
  }

  lemma {:induction false} ScalarTokenText(json: string, toks: seq<Token>, c: nat, v: Value, at: nat)
    requires Scalar(v) && At(json, at, Text(v)) && At(toks, c, Tokens(v, at))
    ensures c < |toks| && toks[c].size == 0 && 0 <= toks[c].start <= toks[c].end <= |json|
    ensures R.TokText(json, toks[c]) == ScalarText(v) && Size(v) == 1
  {
    ScalarToken(json, toks, c, v, at);
  }

  lemma {:induction false} ReadsScalars(json: string, toks: seq<Token>, c: nat, items: Items, at: nat, msg: R.Msg)
    requires JsmnInvariant.Usable(json, toks) && ScalarItems(items)
    requires At(json, at, ItemsText(items)) && At(toks, c, ItemsTokens(items, at))
    ensures R.ReadMessage(json, toks, c, msg) ==
      if NamesItem(items) then R.Error(R.JSONRPC_INVALID) else R.ReadMessage(json, toks, c + ItemsSize(items), msg)
    decreases items
  {
    hide Text, Tokens, R.ReadMessage, At, JsmnInvariant.Usable, ItemsText, ItemsTokens, Unknown, Size, R.TokText;
    if items.Item? {
      ItemParts(json, toks, c, items, at);
      ScalarTokenText(json, toks, c, items.val, at);
      ReadsLone(json, toks, c, msg);
      if Unknown(ScalarText(items.val)) {
        ReadsScalars(json, toks, c + 1, items.rest, at + |Text(items.val)| + |items.sep|, msg);
      }
    }
  }

  lemma {:induction false} ReadsUnknownArray(json: string, toks: seq<Token>, c: nat, key: string, val: Value, at: nat, msg: R.Msg)
    requires JsmnInvariant.Usable(json, toks) && KeyAt(json, toks, c, key) && Unknown(key) && val.Arr? && ScalarItems(val.items)
    requires At(json, at, Text(val)) && At(toks, c + 1, Tokens(val, at))
    ensures R.ReadMessage(json, toks, c, msg) ==
      if NamesItem(val.items) then R.Error(R.JSONRPC_INVALID) else R.ReadMessage(json, toks, c + 1 + Size(val), msg)
  {
    hide Text, Tokens, R.ReadMessage, At, JsmnInvariant.Usable, ItemsText, ItemsTokens, KeyAt, NamesItem, ScalarItems;
    OtherPart(json, toks, c, key, msg);
    ContainerParts(json, toks, c + 1, val, at);
    ReadsScalars(json, toks, c + 2, val.items, at + 1 + |val.pad|, msg);
  }

  lemma {:induction false} ReadsThrough(json: string, toks: seq<Token>, c: nat, members: Members, at: nat, msg: R.Msg)
    requires JsmnInvariant.Usable(json, toks) && Walkable(members) && Empty(Reached(members), msg)
    requires At(json, at, MembersText(members)) && At(toks, c, MembersTokens(members, at))
    ensures R.ReadMessage(json, toks, c, msg) ==
      if Stops(members) then R.Error(R.JSONRPC_INVALID)
      else R.ReadMessage(json, toks, c + MembersSize(members) + WalkOvershoot(members), ReadMeaning(members, msg))
    decreases members
  {
    hide Text, Tokens, Readable, Overshoot, R.ReadMessage, At, JsmnInvariant.Usable, MembersMeaning, MembersText, MembersTokens, MemberHead, PartMeaning, Empty, KeyAt, Reached,
      NamesItem, ScalarItems;
    if members.Member? {
      var Member(key, before, after, val, sep, rest) := members;
      MemberParts(json, toks, c, members, at);
      KeyAndValue(json, toks, c, members, at);
      var valAt := at + |MemberHead(key, before, after)|;
      EmptyParts(members, msg);
      var msg';
      if Unknown(key) && val.Obj? {
        OtherPart(json, toks, c, key, msg);
        ContainerParts(json, toks, c + 1, val, valAt);
        ReadsThrough(json, toks, c + 2, val.members, valAt + 1 + |val.pad|, msg);
        StaysEmpty(val.members, msg, Reached(rest));
        msg' := ReadMeaning(val.members, msg);
      } else if Unknown(key) && val.Arr? {
        ReadsUnknownArray(json, toks, c, key, val, valAt, msg);
        UnknownPart(members, msg);
        msg' := msg;
      } else {
        ReadsNamed(json, toks, c, members, at, msg);
        NamedStaysEmpty(members, msg);
        msg' := PartMeaning(members, msg);
      }
      if !StopsBy(key, val) && rest.Member? {
        ReadsThrough(json, toks, c + 1 + Size(val), rest, valAt + |Text(val)| + |sep|, msg');
      }
    }
  }

  lemma {:induction false} EmptyParts(m: Members, msg: R.Msg)
    requires m.Member? && Empty(Reached(m), msg)
    ensures Empty(ReachedBy(m.key, m.val), msg) && Empty(Reached(m.rest), msg)
  {
  }

  lemma {:induction false} NamedStaysEmpty(m: Members, msg: R.Msg)
    requires m.Member? && Walkable(m) && Empty(Reached(m.rest), msg) && !(Unknown(m.key) && m.val.Obj?)
    ensures Empty(Reached(m.rest), PartMeaning(m, msg))
  {
    hide MembersMeaning, Readable, Overshoot;
    if Unknown(m.key) {
      assert PartMeaning(m, msg) == msg;
    } else {
      assert m.key in ReachedBy(m.key, m.val);
      PartStaysEmpty(m, msg, Reached(m.rest));
    }
  }

  /** The text of such a message is read as if the members of its unknown objects were its own, or refused when an unknown
      array holds a name of the reader. */
  lemma {:induction false} ReadsUnknown(v: Value)
    requires v.Obj? && Good(v) && Size(v) <= R.MAX_TOKENS && Walkable(v.members)
    ensures R.ParseRpc(Text(v)) ==
      if Stops(v.members) then R.Error(R.JSONRPC_INVALID) else R.Ok(ReadMeaning(v.members, R.EmptyMsg))
  {
    hide Walkable, ReadMeaning, Stops, Good, R.ReadMessage, Tokenize;
    var json := Text(v);
    JsonTokens.TokenizeText(v, R.MAX_TOKENS);
    TokensSize(v, 0);
    JsmnInvariant.TokenizeUsable(json, R.MAX_TOKENS);
    ReadsTokens(json, Tokens(v, 0), v);
    ContainerParts(json, Tokens(v, 0), 0, v, 0);
  }

  lemma {:induction false} ReadsTokens(json: string, toks: seq<Token>, v: Value)
    requires v.Obj? && JsmnInvariant.Usable(json, toks) && json == Text(v) && toks == Tokens(v, 0) && |toks| == Size(v) && Walkable(v.members)
    ensures R.ReadMessage(json, toks, 1, R.EmptyMsg) ==
      if Stops(v.members) then R.Error(R.JSONRPC_INVALID) else R.Ok(ReadMeaning(v.members, R.EmptyMsg))
  {
    hide *;
    WholeText(json, toks, v);
    ContainerParts(json, toks, 0, v, 0);
    AllEmpty(Reached(v.members));
    ReadsThrough(json, toks, 1, v.members, 1 + |v.pad|, R.EmptyMsg);
    ReadsEnd(json, toks, 1 + MembersSize(v.members) + WalkOvershoot(v.members), ReadMeaning(v.members, R.EmptyMsg));
  }

  lemma {:induction false} WholeText(json: string, toks: seq<Token>, v: Value)
    requires v.Obj? && json == Text(v) && toks == Tokens(v, 0)
    ensures At(json, 0, Text(v)) && At(toks, 0, Tokens(v, 0)) && Size(v) == 1 + MembersSize(v.members) && !Scalar(v)
  {
    hide Text, Tokens;
  }

  lemma {:induction false} AllEmpty(keys: set<string>)
    ensures Empty(keys, R.EmptyMsg)
  {
  }

  // ---------------------------------------------------------------- exactly when it is read as written

  // A member that fills a field of the message.
  predicate Fills(key: string, val: Value) {
    key == "method" || key == "id" || (R.NamesTable(key) && val.Obj? && val.members.Member?)
  }

  // The fields that the walk fills, and those that the message fills.
  function Filled(members: Members): set<string>
    decreases members
  {
    match members
    case NoMember => {}
    case Member(key, _, _, val, _, rest) => FilledBy(key, val) + Filled(rest)
  }

  function FilledBy(key: string, val: Value): set<string>
    decreases val
  {
    if Unknown(key) then (if val.Obj? then Filled(val.members) else {}) else if Fills(key, val) then {key} else {}
  }

  function Written(members: Members): set<string> {
    match members
    case NoMember => {}
    case Member(key, _, _, val, _, rest) => (if !Unknown(key) && Fills(key, val) then {key} else {}) + Written(rest)
  }

  /** No object under another name holds a method, an identifier or a table with members, at any depth of such objects, and
      no array there holds a name of the reader. */
  predicate Harmless(members: Members) {
    members.Member? ==>
      (Unknown(members.key) ==> FilledBy(members.key, members.val) == {} && !StopsBy(members.key, members.val)) && Harmless(members.rest)
  }

  predicate IsSet(msg: R.Msg, field: string) {
    if field == "method" then msg.methodName.Some?
    else if field == "id" then msg.id.Some?
    else R.NamesTable(field) && R.TableOf(msg, field) != map[]
  }

  lemma {:induction false} SomeMeaning(members: Members)
    ensures MembersMeaning(members, map[]) == map[] <==> members.NoMember?
  {
    if members.Member? {
      MoreKeys(members.rest, map[members.key := Meaning(members.val)]);
      assert map[][members.key := Meaning(members.val)] == map[members.key := Meaning(members.val)];
      assert members.key in MembersMeaning(members, map[]).Keys;
    }
  }

  lemma {:induction false} MoreKeys(members: Members, table: R.Map)
    ensures table.Keys <= MembersMeaning(members, table).Keys
  {
    hide Meaning;
    if members.Member? {
      MoreKeys(members.rest, table[members.key := Meaning(members.val)]);
    }
  }

  lemma {:induction false} PartSets(m: Members, msg: R.Msg, field: string)
    requires m.Member? && Walkable(m) && Empty(ReachedBy(m.key, m.val), msg) && !(Unknown(m.key) && m.val.Obj?)
    ensures IsSet(PartMeaning(m, msg), field) <==> IsSet(msg, field) || field in FilledBy(m.key, m.val)
  {
    hide Readable, Overshoot, MembersMeaning;
    NamesDisjoint(m.key);
    if R.NamesTable(m.key) {
      SomeMeaning(m.val.members);
      assert m.key in ReachedBy(m.key, m.val);
    }
  }

  lemma {:induction false} WalkSets(members: Members, msg: R.Msg, field: string)
    requires Walkable(members) && Empty(Reached(members), msg)
    ensures IsSet(ReadMeaning(members, msg), field) <==> IsSet(msg, field) || field in Filled(members)
    decreases members
  {
    hide Readable, Overshoot, MembersMeaning, IsSet, PartMeaning, Empty;
    if members.Member? {
      var m := members;
      EmptyParts(m, msg);
      if Unknown(m.key) && m.val.Obj? {
        WalkSets(m.val.members, msg, field);
        StaysEmpty(m.val.members, msg, Reached(m.rest));
        WalkSets(m.rest, ReadMeaning(m.val.members, msg), field);
      } else {
        PartSets(m, msg, field);
        NamedStaysEmpty(m, msg);
        WalkSets(m.rest, PartMeaning(m, msg), field);
      }
    }
  }

  lemma {:induction false} WrittenSets(members: Members, msg: R.Msg, field: string)
    requires Walkable(members) && Empty(Reached(members), msg)
    ensures IsSet(MessageMeaning(members, msg), field) <==> IsSet(msg, field) || field in Written(members)
  {
    hide Readable, Overshoot, MembersMeaning, IsSet, PartMeaning, Empty;
    if members.Member? {
      var m := members;
      EmptyParts(m, msg);
      if Unknown(m.key) && m.val.Obj? {
        UnknownPart(m, msg);
        WrittenSets(m.rest, msg, field);
      } else {
        PartSets(m, msg, field);
        NamedStaysEmpty(m, msg);
        WrittenSets(m.rest, PartMeaning(m, msg), field);
      }
    }
  }

  lemma {:induction false} UnknownPart(m: Members, msg: R.Msg)
    requires m.Member? && Unknown(m.key)
    ensures PartMeaning(m, msg) == msg
  {
  }

  // Members that fill nothing change nothing.
  lemma {:induction false} SilentMeaning(members: Members, msg: R.Msg)
    requires Walkable(members) && Empty(Reached(members), msg) && Filled(members) == {}
    ensures ReadMeaning(members, msg) == msg
    decreases members
  {
    hide Readable, Overshoot, MembersMeaning, Empty;
    if members.Member? {
      var m := members;
      EmptyParts(m, msg);
      assert FilledBy(m.key, m.val) <= Filled(m) && Filled(m.rest) <= Filled(m);
      if Unknown(m.key) && m.val.Obj? {
        SilentMeaning(m.val.members, msg);
      } else {
        SilentPart(m, msg);
      }
      SilentMeaning(m.rest, msg);
    }
  }

  lemma {:induction false} SilentPart(m: Members, msg: R.Msg)
    requires m.Member? && Walkable(m) && Empty(ReachedBy(m.key, m.val), msg) && FilledBy(m.key, m.val) == {} && !(Unknown(m.key) && m.val.Obj?)
    ensures PartMeaning(m, msg) == msg
  {
    hide Readable, Overshoot;
    if !Unknown(m.key) {
      assert m.key in ReachedBy(m.key, m.val);
      FillsItself(m.key, m.val);
    }
  }

  lemma {:induction false} FillsItself(key: string, val: Value)
    requires !Unknown(key)
    ensures Fills(key, val) <==> FilledBy(key, val) != {}
  {
    assert Fills(key, val) ==> key in FilledBy(key, val);
  }

  lemma {:induction false} HarmlessMeaning(members: Members, msg: R.Msg)
    requires Walkable(members) && Empty(Reached(members), msg) && Harmless(members)
    ensures ReadMeaning(members, msg) == MessageMeaning(members, msg)
  {
    hide Readable, Overshoot, MembersMeaning, Empty, PartMeaning;
    if members.Member? {
      var m := members;
      EmptyParts(m, msg);
      if Unknown(m.key) && m.val.Obj? {
        SilentMeaning(m.val.members, msg);
        UnknownPart(m, msg);
        HarmlessMeaning(m.rest, msg);
      } else {
        NamedStaysEmpty(m, msg);
        HarmlessMeaning(m.rest, PartMeaning(m, msg));
      }
    }
  }

  lemma {:induction false} FilledReached(members: Members)
    ensures Filled(members) <= Reached(members) && Written(members) <= Filled(members)
    decreases members
  {
    if members.Member? {
      FilledReached(members.rest);
      if members.val.Obj? {
        FilledReached(members.val.members);
      }
    }
  }

  // A harmful object fills a field that the message does not.
  lemma {:induction false} HarmfulField(members: Members) returns (field: string)
    requires Walkable(members) && !Harmless(members) && !Stops(members)
    ensures field in Filled(members) && field !in Written(members)
  {
    hide Readable, Overshoot;
    var m := members;
    FilledReached(m);
    FilledReached(m.rest);
    if Unknown(m.key) && FilledBy(m.key, m.val) != {} {
      field := AnyOf(FilledBy(m.key, m.val));
      FilledReached(m.val.members);
    } else {
      field := HarmfulField(m.rest);
      if !Unknown(m.key) {
        assert m.key in ReachedBy(m.key, m.val);
      }
    }
  }

  lemma {:induction false} HarmlessPasses(members: Members)
    requires Harmless(members)
    ensures !Stops(members)
  {
    if members.Member? {
      HarmlessPasses(members.rest);
    }
  }

  /** A message is read as it was written exactly when its unknown objects and arrays are harmless. */
  lemma {:induction false} UnknownExact(v: Value)
    requires v.Obj? && Good(v) && Size(v) <= R.MAX_TOKENS && Walkable(v.members)
    ensures R.ParseRpc(Text(v)) == R.Ok(MessageMeaning(v.members, R.EmptyMsg)) <==> Harmless(v.members)
  {
    ReadsUnknown(v);
    assert Empty(Reached(v.members), R.EmptyMsg);
    hide Walkable, R.ParseRpc, Good, Empty, IsSet, Text, ReadMeaning, MessageMeaning, Stops, Harmless;
    if Harmless(v.members) {
      HarmlessPasses(v.members);
      HarmlessMeaning(v.members, R.EmptyMsg);
    } else if !Stops(v.members) {
      var field := HarmfulField(v.members);
      WalkSets(v.members, R.EmptyMsg, field);
      WrittenSets(v.members, R.EmptyMsg, field);
      NothingSet(field);
    }
  }

  lemma {:induction false} NothingSet(field: string)
    ensures !IsSet(R.EmptyMsg, field)
  {
  }
}
