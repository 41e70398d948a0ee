/** Whole messages: a JSON-RPC request or response text is parsed to exactly the message it spells, and every part
    of it that has not been received completely is reported as partial. */
module JsonMessage {
  import opened JsmnSpec
  import opened JsonText
  import opened JsonReads
  import JsmnInvariant
  import JsonTokens
  import PrefixSafety
  import R = JsonRpcSpec

  function ScalarText(v: Value): string {
    match v
    case Str(body) => body
    case Prim(text) => text
    case _ => ""
  }

  // The message spelled by the members of the outermost object, read after msg.
  function MessageMeaning(members: Members, msg: R.Msg): R.Msg {
    if members.NoMember? then msg else MessageMeaning(members.rest, PartMeaning(members, msg))
  }

  /** The messages that are read back: version, method and id are scalars, the three tables are readable objects, and
      only the last member may overshoot. Members with other names are skipped when they are scalars. */
  predicate ReadableMessage(members: Members) {
    match members
    case NoMember => true
    case Member(key, _, _, val, _, rest) =>
      |key| < R.MAX_STR_SIZE && key !in Keys(rest) && ReadableMessage(rest) &&
      (R.NamesText(key) ==> Scalar(val) && |ScalarText(val)| < R.MAX_STR_SIZE) &&
      (R.NamesTable(key) ==> val.Obj? && Readable(val) && (rest.Member? ==> Overshoot(val) == 0)) &&
      (!R.NamesText(key) && !R.NamesTable(key) ==> Scalar(val))
  }

  // No table named by a member still to come has been filled.
  ghost predicate Fresh(members: Members, msg: R.Msg) {
    forall key :: key in Keys(members) && R.NamesTable(key) ==> R.TableOf(msg, key) == map[]
  }

  function PartMeaning(m: Members, msg: R.Msg): R.Msg
    requires m.Member?
  {
    if R.NamesText(m.key) then R.WithText(msg, m.key, ScalarText(m.val))
    else if R.NamesTable(m.key) && m.val.Obj? then R.WithTable(msg, m.key, MembersMeaning(m.val.members, map[]))
    else msg
  }

  lemma {:induction false} ReadsMessage(json: string, toks: seq<Token>, c: nat, members: Members, at: nat, msg: R.Msg)
    requires JsmnInvariant.Usable(json, toks) && ReadableMessage(members) && Fresh(members, msg)
    requires At(json, at, MembersText(members)) && At(toks, c, MembersTokens(members, at))
    requires c + MembersSize(members) == |toks|
    ensures R.ReadMessage(json, toks, c, msg) == R.Ok(MessageMeaning(members, msg))
    decreases members
  {
    hide Text, Tokens, Readable, Overshoot, R.ReadObject, At, JsmnInvariant.Usable, Size, MembersMeaning;
    if members.Member? {
      var Member(key, before, after, val, sep, rest) := members;
      hide R.ReadMessage;
      MemberParts(json, toks, c, members, at);
      var at1 := at + |MemberHead(key, before, after)| + |Text(val)| + |sep|;
      var msg' := PartMeaning(members, msg);
      var extra := ReadsPart(json, toks, c, members, at, msg);
      StaysFresh(members, msg);
      if rest.Member? {
        ReadsMessage(json, toks, c + 1 + Size(val), rest, at1, msg');
      } else {
        ReadsEnd(json, toks, c + 1 + Size(val) + extra, msg');
      }
    }
  }

  lemma {:induction false} ReadsEnd(json: string, toks: seq<Token>, c: nat, msg: R.Msg)
    requires JsmnInvariant.Usable(json, toks) && c >= |toks|
    ensures R.ReadMessage(json, toks, c, msg) == R.Ok(msg)
  {
  }

  lemma {:induction false} StaysFresh(m: Members, msg: R.Msg)
    requires m.Member? && m.key !in Keys(m.rest) && Fresh(m, msg)
    ensures Fresh(m.rest, PartMeaning(m, msg))
  {
    hide MembersMeaning;
  }

  lemma {:induction false} NamesDisjoint(key: string)
    ensures !(R.NamesText(key) && R.NamesTable(key))
  {
  }

  lemma {:induction false} KeyAndValue(json: string, toks: seq<Token>, c: nat, m: Members, at: nat)
    requires m.Member? && |m.key| < R.MAX_STR_SIZE && At(json, at, MembersText(m)) && At(toks, c, MembersTokens(m, at))
    ensures var valAt := at + |MemberHead(m.key, m.before, m.after)|;
      KeyAt(json, toks, c, m.key) && At(json, valAt, Text(m.val)) && At(toks, c + 1, Tokens(m.val, valAt))
  {
    hide Text, Tokens, MembersText, MembersTokens, At, MemberHead;
    MemberParts(json, toks, c, m, at);
  }

  lemma {:induction false} ReadablePart(m: Members)
    requires m.Member? && ReadableMessage(m)
    ensures |m.key| < R.MAX_STR_SIZE
    ensures if R.NamesTable(m.key) then m.val.Obj? && Readable(m.val) && (m.rest.Member? ==> Overshoot(m.val) == 0)
            else Scalar(m.val) && (R.NamesText(m.key) ==> |ScalarText(m.val)| < R.MAX_STR_SIZE)
  {
    hide Readable, Overshoot, R.NamesText, R.NamesTable;
  }

  // One turn of the loop of parse_message: `extra` is how far the cursor ends behind the member.
  lemma {:induction false} ReadsPart(json: string, toks: seq<Token>, c: nat, m: Members, at: nat, msg: R.Msg) returns (extra: nat)
    requires JsmnInvariant.Usable(json, toks) && m.Member? && ReadableMessage(m) && Fresh(m, msg)
    requires At(json, at, MembersText(m)) && At(toks, c, MembersTokens(m, at))
    ensures m.rest.Member? ==> extra == 0
    ensures R.ReadMessage(json, toks, c, msg) == R.ReadMessage(json, toks, c + 1 + Size(m.val) + extra, PartMeaning(m, msg))
  {
    hide *;
    ReadablePart(m);
    KeyAndValue(json, toks, c, m, at);
    var valAt := at + |MemberHead(m.key, m.before, m.after)|;
    if R.NamesTable(m.key) {
      FreshTable(m, msg);
      ReadsTablePart(json, toks, c, m, valAt, msg);
      extra := Overshoot(m.val);
    } else {
      ReadsScalarPart(json, toks, c, m, valAt, msg);
      extra := 0;
    }
  }

  lemma {:induction false} FreshTable(m: Members, msg: R.Msg)
    requires m.Member? && Fresh(m, msg) && R.NamesTable(m.key)
    ensures R.TableOf(msg, m.key) == map[]
  {
    assert m.key in Keys(m);
  }

  lemma {:induction false} ReadsTablePart(json: string, toks: seq<Token>, c: nat, m: Members, at: nat, msg: R.Msg)
    requires m.Member? && JsmnInvariant.Usable(json, toks) && KeyAt(json, toks, c, m.key)
    requires R.NamesTable(m.key) && R.TableOf(msg, m.key) == map[]
    requires m.val.Obj? && Readable(m.val) && At(json, at, Text(m.val)) && At(toks, c + 1, Tokens(m.val, at))
    ensures R.ReadMessage(json, toks, c, msg) ==
      R.ReadMessage(json, toks, c + 1 + Size(m.val) + Overshoot(m.val), PartMeaning(m, msg))
  {
    NamesDisjoint(m.key);
    hide Text, Tokens, Readable, At, Overshoot, R.ReadObject, MembersMeaning, JsmnInvariant.Usable, R.NamesText, R.NamesTable, R.TableOf, R.WithText, R.WithTable;
    assert toks[c].end - toks[c].start == |R.TokText(json, toks[c])|;
    ReadsObject(json, toks, c + 1, m.val, at, map[]);
  }

  lemma {:induction false} ReadsScalarPart(json: string, toks: seq<Token>, c: nat, m: Members, at: nat, msg: R.Msg)
    requires m.Member? && JsmnInvariant.Usable(json, toks) && KeyAt(json, toks, c, m.key) && !R.NamesTable(m.key)
    requires Scalar(m.val) && At(json, at, Text(m.val)) && At(toks, c + 1, Tokens(m.val, at))
    requires R.NamesText(m.key) ==> |ScalarText(m.val)| < R.MAX_STR_SIZE
    ensures R.ReadMessage(json, toks, c, msg) == R.ReadMessage(json, toks, c + 1 + Size(m.val) + 0, PartMeaning(m, msg))
  {
    ScalarToken(json, toks, c + 1, m.val, at);
    assert Size(m.val) == 1;
    hide Size, Text, Tokens, At, Meaning, MembersMeaning, R.ReadMessage, JsmnInvariant.Usable, R.NamesText, R.NamesTable, R.WithText;
    if R.NamesText(m.key) {
      TextPart(json, toks, c, m.key, ScalarText(m.val), msg);
    } else {
      OtherPart(json, toks, c, m.key, msg);
    }
  }

  // One turn of the loop at a member that names a text, and at one that names nothing.
  lemma {:induction false} TextPart(json: string, toks: seq<Token>, c: nat, key: string, text: string, msg: R.Msg)
    requires JsmnInvariant.Usable(json, toks) && KeyAt(json, toks, c, key) && R.NamesText(key) && c + 1 < |toks|
    requires 0 <= toks[c + 1].start <= toks[c + 1].end <= |json| && R.TokText(json, toks[c + 1]) == text && |text| < R.MAX_STR_SIZE
    ensures R.ReadMessage(json, toks, c, msg) == R.ReadMessage(json, toks, c + 2, R.WithText(msg, key, text))
  {
    SizeOfText(json, toks, c);
    SizeOfText(json, toks, c + 1);
    hide R.ReadObject, JsmnInvariant.Usable, R.NamesText, R.NamesTable, R.TableOf, R.WithText, R.WithTable, R.TokText;
  }

  lemma {:induction false} OtherPart(json: string, toks: seq<Token>, c: nat, key: string, msg: R.Msg)
    requires JsmnInvariant.Usable(json, toks) && KeyAt(json, toks, c, key) && !R.NamesText(key) && !R.NamesTable(key)
    ensures R.ReadMessage(json, toks, c, msg) == R.ReadMessage(json, toks, c + 2, msg)
  {
    SizeOfText(json, toks, c);
    hide R.ReadObject, JsmnInvariant.Usable, R.NamesText, R.NamesTable, R.TableOf, R.WithText, R.WithTable, R.TokText;
  }

  lemma {:induction false} SizeOfText(json: string, toks: seq<Token>, c: nat)
    requires JsmnInvariant.Usable(json, toks) && c < |toks|
    ensures 0 <= toks[c].start <= toks[c].end <= |json| && |R.TokText(json, toks[c])| == toks[c].end - toks[c].start
  {
  }

  /** Every message text whose layout is grammatical, whose strings fit and whose tokens are at most MAX_TOKENS is
      parsed to the message it spells. */
  lemma {:induction false} ParsesMessage(v: Value)
    requires v.Obj? && Good(v) && Size(v) <= R.MAX_TOKENS && ReadableMessage(v.members)
    ensures R.ParseRpc(Text(v)) == R.Ok(MessageMeaning(v.members, R.EmptyMsg))
  {
    hide ReadableMessage, MessageMeaning, Good, R.ReadMessage, Tokenize;
    var json := Text(v);
    JsonTokens.TokenizeText(v, R.MAX_TOKENS);
    TokensSize(v, 0);
    JsmnInvariant.TokenizeUsable(json, R.MAX_TOKENS);
    var toks := Tokens(v, 0);
    assert At(json, 0, Text(v)) && At(toks, 0, toks);
    ContainerParts(json, toks, 0, v, 0);
    ReadsMessage(json, toks, 1, v.members, 1 + |v.pad|, R.EmptyMsg);
  }

  /** A message that is still incomplete, wherever it was cut, is reported as partial. */
  lemma {:induction false} PartialMessage(v: Value, k: nat)
    requires v.Obj? && Good(v) && Size(v) <= R.MAX_TOKENS && 0 < k < |Text(v)|
    ensures R.ParseRpc(Text(v)[..k]) == R.Error(ERROR_PART)
  {
    PrefixSafety.TextPrefixIsPart(v, k, R.MAX_TOKENS);
  }

  // A text that is read as msg once it is complete, as partial before, and not at all with an opening brace behind it.
  ghost predicate Framed(text: string, msg: R.Msg) {
    text != "" && '\0' !in text && R.ParseRpc(text) == R.Ok(msg) && !R.ParseRpc(text + "{").Ok? &&
    forall k :: 0 < k < |text| ==> R.ParseRpc(text[..k]) == R.Error(ERROR_PART)
  }

  lemma {:induction false} BodyHasNoNul(s: string)
    requires JsmnInvariant.IsBody(s)
    ensures '\0' !in s
  {
    if s != "" {
      var n := JsonTokens.BodyStep(s);
      BodyHasNoNul(s[n..]);
      assert s == s[..n] + s[n..];
      assert '\0' !in s[..n];
    }
  }

  lemma {:induction false} TextHasNoNul(v: Value)
    requires Good(v)
    ensures '\0' !in Text(v)
    decreases v
  {
    match v
    case Str(body) => BodyHasNoNul(body);
    case Prim(text) =>
    case Arr(pad, items) => ItemsHaveNoNul(items);
    case Obj(pad, members) => MembersHaveNoNul(members);
  }

  lemma {:induction false} ItemsHaveNoNul(items: Items)
    requires GoodItems(items)
    ensures '\0' !in ItemsText(items)
    decreases items
  {
    if items.Item? {
      TextHasNoNul(items.val);
      ItemsHaveNoNul(items.rest);
    }
  }

  lemma {:induction false} MembersHaveNoNul(members: Members)
    requires GoodMembers(members)
    ensures '\0' !in MembersText(members)
    decreases members
  {
    if members.Member? {
      BodyHasNoNul(members.key);
      TextHasNoNul(members.val);
      MembersHaveNoNul(members.rest);
      assert '\0' !in MemberHead(members.key, members.before, members.after);
    }
  }

  /** Every message text is framed: it is partial until its last character and then read as the message it spells. */
  lemma {:induction false} MessagesAreFramed(v: Value)
    requires v.Obj? && Good(v) && Size(v) <= R.MAX_TOKENS && ReadableMessage(v.members)
    ensures Framed(Text(v), MessageMeaning(v.members, R.EmptyMsg))
  {
    ThenOpenFails(v);
    hide R.ParseRpc, Good, Text;
    ParsesMessage(v);
    TextHasNoNul(v);
    assert Text(v) != "" by { ObjectNotEmpty(v); }
    forall k | 0 < k < |Text(v)|
      ensures R.ParseRpc(Text(v)[..k]) == R.Error(ERROR_PART)
    {
      PartialMessage(v, k);
    }
  }

  lemma {:induction false} ThenOpenFails(v: Value)
    requires v.Obj? && Good(v) && Size(v) <= R.MAX_TOKENS
    ensures !R.ParseRpc(Text(v) + "{").Ok?
  {
    hide Tokenize, R.ReadMessage;
    PrefixSafety.ThenOpen(v, R.MAX_TOKENS);
  }

  lemma {:induction false} ObjectNotEmpty(v: Value)
    requires v.Obj?
    ensures Text(v) != ""
  {
  }
}
