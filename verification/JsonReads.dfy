/** The reader consumes exactly one subtree per call and yields the value that was written: for every JSON value
    that stays within the limits of the C buffers and of the two places where the walk loses its way. */
module JsonReads {
  import opened JsmnSpec
  import opened JsonText
  import JsmnInvariant
  import R = JsonRpcSpec

  // What a value means to the daemon.
  function Meaning(v: Value): R.JVal {
    match v
    case Str(body) => R.JVal.Text(body)
    case Prim(text) => PrimMeaning(text)
    case Arr(_, items) => R.ListOf(ItemsMeaning(items))
    case Obj(_, members) => R.Table(MembersMeaning(members, map[]))
  }

  function PrimMeaning(text: string): R.JVal {
    var r := R.ReadPrimitive(text, 0);
    if r.Done? then r.value else R.Null
  }

  function ItemsMeaning(items: Items): (r: seq<R.JVal>)
    ensures |r| == ItemCount(items)
  {
    match items
    case NoItem => []
    case Item(val, _, rest) => [Meaning(val)] + ItemsMeaning(rest)
  }

  function MembersMeaning(members: Members, table: R.Map): R.Map {
    match members
    case NoMember => table
    case Member(key, _, _, val, _, rest) => MembersMeaning(rest, table[key := Meaning(val)])
  }

  function Keys(members: Members): set<string> {
    match members
    case NoMember => {}
    case Member(key, _, _, _, _, rest) => {key} + Keys(rest)
  }

  /** How many tokens too far the walk ends behind a value: an object that is the value of a member makes the cursor
      skip one token more, so an object overshoots when its last member holds one. */
  function Overshoot(v: Value): nat
    decreases v, 0
  {
    match v
    case Str(_) => 0
    case Prim(_) => 0
    case Arr(_, items) => ItemsOvershoot(items)
    case Obj(_, members) => MembersOvershoot(members)
  }

  function ItemsOvershoot(items: Items): nat
    decreases items, 0
  {
    match items
    case NoItem => 0
    case Item(val, _, rest) => if rest.NoItem? then Overshoot(val) else ItemsOvershoot(rest)
  }

  function MemberOvershoot(val: Value): nat
    decreases val, 1
  {
    Overshoot(val) + if val.Obj? then 1 else 0
  }

  function MembersOvershoot(members: Members): nat
    decreases members, 0
  {
    match members
    case NoMember => 0
    case Member(_, _, _, val, _, rest) => if rest.NoMember? then MemberOvershoot(val) else MembersOvershoot(rest)
  }

  predicate HasArray(items: Items) {
    items.Item? && (items.val.Arr? || HasArray(items.rest))
  }

  /** The values that are read back: strings fit their buffers, numbers are longs, keys are distinct, only the last
      item or member may overshoot, and no array follows a non-empty one among the items of an array, since the two
      would share one list. */
  predicate Readable(v: Value) {
    match v
    case Str(body) => |body| < R.MAX_STR_SIZE
    case Prim(text) => var r := R.ReadPrimitive(text, 0); r.Done? && r.ok
    case Arr(_, items) => ReadableItems(items)
    case Obj(_, members) => ReadableMembers(members)
  }

  predicate ReadableItems(items: Items) {
    match items
    case NoItem => true
    case Item(val, _, rest) =>
      Readable(val) && ReadableItems(rest) && (rest.Item? ==> Overshoot(val) == 0) &&
      (val.Arr? && val.items.Item? ==> !HasArray(rest))
  }

  predicate ReadableMembers(members: Members) {
    match members
    case NoMember => true
    case Member(key, _, _, val, _, rest) =>
      |key| < R.MAX_STR_SIZE && key !in Keys(rest) && Readable(val) && ReadableMembers(rest) &&
      (rest.Member? ==> MemberOvershoot(val) == 0)
  }

  lemma {:induction false} ResolveAppend(cells: seq<R.Cell>, cell: R.Cell, sub: seq<R.JVal>, sub': seq<R.JVal>)
    requires sub != sub' ==> R.Shared !in cells
    ensures R.Resolve(cells + [cell], sub') == R.Resolve(cells, sub) + [if cell.Own? then cell.v else R.List(sub')]
  {
    hide R.Resolve;
    var all := R.Resolve(cells + [cell], sub');
    forall i | 0 <= i < |cells|
      ensures all[i] == R.Resolve(cells, sub)[i]
    {
      assert (cells + [cell])[i] == cells[i];
      assert cells[i] in cells;
    }
  }

  // The text s begins with three parts at p.
  lemma {:induction false} AtThree(s: string, p: nat, x: string, y: string, z: string, end: string)
    requires At(s, p, x + y + z + end)
    ensures At(s, p + |x| + |y|, z)
  {
    assert x + y + z + end == x + (y + (z + end));
    AtSplit(s, p, x, y + (z + end));
    AtSplit(s, p + |x|, y, z + end);
    AtSplit(s, p + |x| + |y|, z, end);
  }

  lemma {:induction false} AtCons<T>(s: seq<T>, p: nat, x: T, y: seq<T>)
    requires At(s, p, [x] + y)
    ensures p < |s| && s[p] == x && At(s, p + 1, y)
  {
    AtSplit(s, p, [x], y);
    assert s[p] == s[p..p + 1][0];
  }

  // The parts of an array or object in the text and in the tokens.
  lemma {:induction false} ContainerParts(json: string, toks: seq<Token>, c: nat, v: Value, at: nat)
    requires !Scalar(v) && At(json, at, Text(v)) && At(toks, c, Tokens(v, at))
    ensures c < |toks| && toks[c].kind == (if v.Obj? then Object else Array)
    ensures toks[c].size == if v.Obj? then MemberCount(v.members) else ItemCount(v.items)
    ensures var at1 := at + 1 + |v.pad|;
      match v
      case Arr(_, items) => At(json, at1, ItemsText(items)) && At(toks, c + 1, ItemsTokens(items, at1))
      case Obj(_, members) => At(json, at1, MembersText(members)) && At(toks, c + 1, MembersTokens(members, at1))
  {
    hide ItemsText, MembersText, ItemsTokens, MembersTokens, At;
    var at1 := at + 1 + |v.pad|;
    match v {
      case Arr(pad, items) =>
        AtThree(json, at, "[", pad, ItemsText(items), "]");
        AtCons(toks, c, Tokens(v, at)[0], ItemsTokens(items, at1));
      case Obj(pad, members) =>
        AtThree(json, at, "{", pad, MembersText(members), "}");
        AtCons(toks, c, Tokens(v, at)[0], MembersTokens(members, at1));
    }
  }

  // A scalar's token and the text under it.
  lemma {:induction false} ScalarToken(json: string, toks: seq<Token>, c: nat, v: Value, at: nat)
    requires Scalar(v) && At(json, at, Text(v)) && At(toks, c, Tokens(v, at))
    ensures c < |toks| && toks[c].size == 0 && 0 <= toks[c].start <= toks[c].end <= |json|
    ensures toks[c].kind == (if v.Str? then String else Primitive)
    ensures R.TokText(json, toks[c]) == if v.Str? then v.body else v.text
  {
    assert toks[c] == toks[c..c + 1][0];
    if v.Str? {
      assert Text(v) == "\"" + (v.body + "\"");
      AtSplit(json, at, "\"", v.body + "\"");
      AtSplit(json, at + 1, v.body, "\"");
    }
  }

  lemma {:induction false} ItemParts(json: string, toks: seq<Token>, c: nat, items: Items, at: nat)
    requires items.Item? && At(json, at, ItemsText(items)) && At(toks, c, ItemsTokens(items, at))
    ensures At(json, at, Text(items.val)) && At(toks, c, Tokens(items.val, at))
    ensures var at1 := at + |Text(items.val)| + |items.sep|;
      At(json, at1, ItemsText(items.rest)) && At(toks, c + Size(items.val), ItemsTokens(items.rest, at1))
  {
    hide Text, Tokens;
    var Item(val, sep, rest) := items;
    assert ItemsText(items) == Text(val) + (sep + ItemsText(rest));
    AtSplit(json, at, Text(val), sep + ItemsText(rest));
    AtSplit(json, at + |Text(val)|, sep, ItemsText(rest));
    AtSplit(toks, c, Tokens(val, at), ItemsTokens(rest, at + |Text(val)| + |sep|));
    TokensSize(val, at);
  }

  lemma {:induction false} MemberParts(json: string, toks: seq<Token>, c: nat, m: Members, at: nat)
    requires m.Member? && At(json, at, MembersText(m)) && At(toks, c, MembersTokens(m, at))
    ensures c < |toks| && toks[c] == Token(String, at + 1, at + 1 + |m.key|, 1)
    ensures at + 1 + |m.key| <= |json| && R.TokText(json, toks[c]) == m.key
    ensures var valAt := at + |MemberHead(m.key, m.before, m.after)|;
      var at1 := valAt + |Text(m.val)| + |m.sep|;
      At(json, valAt, Text(m.val)) && At(toks, c + 1, Tokens(m.val, valAt)) &&
      At(json, at1, MembersText(m.rest)) && At(toks, c + 1 + Size(m.val), MembersTokens(m.rest, at1))
  {
    hide Text, Tokens, MembersText, MembersTokens;
    var head := MemberHead(m.key, m.before, m.after);
    var valAt := at + |head|;
    var at1 := valAt + |Text(m.val)| + |m.sep|;
    MemberUnfold(m, at);
    AtSplit(json, at, head, Text(m.val) + (m.sep + MembersText(m.rest)));
    AtSplit(json, valAt, Text(m.val), m.sep + MembersText(m.rest));
    AtSplit(json, valAt + |Text(m.val)|, m.sep, MembersText(m.rest));
    var quoted := m.key + ("\"" + m.before + ":" + m.after);
    assert head == "\"" + quoted;
    AtSplit(json, at, "\"", quoted);
    AtSplit(json, at + 1, m.key, "\"" + m.before + ":" + m.after);
    var keyTok := Token(String, at + 1, at + 1 + |m.key|, 1);
    AtSplit(toks, c, [keyTok], Tokens(m.val, valAt) + MembersTokens(m.rest, at1));
    AtSplit(toks, c + 1, Tokens(m.val, valAt), MembersTokens(m.rest, at1));
    TokensSize(m.val, valAt);
    assert toks[c] == toks[c..c + 1][0];
  }

  lemma {:induction false} MemberUnfold(m: Members, at: nat)
    requires m.Member?
    ensures var head := MemberHead(m.key, m.before, m.after);
      var valAt := at + |head|;
      MembersText(m) == head + (Text(m.val) + (m.sep + MembersText(m.rest))) &&
      MembersTokens(m, at) == [Token(String, at + 1, at + 1 + |m.key|, 1)] + (Tokens(m.val, valAt) +
        MembersTokens(m.rest, valAt + |Text(m.val)| + |m.sep|))
  {
    hide Text, Tokens, MemberHead;
  }

  /** An array under construction reads all its items; `sub` is the list its nested arrays share so far. */
  lemma {:induction false} ReadsItems(json: string, toks: seq<Token>, c: nat, items: Items, at: nat, cells: seq<R.Cell>, sub: seq<R.JVal>)
    requires JsmnInvariant.Usable(json, toks) && ReadableItems(items)
    requires At(json, at, ItemsText(items)) && At(toks, c, ItemsTokens(items, at))
    requires if HasArray(items) then sub == [] && R.Shared !in cells else true
    ensures R.ReadItems(json, toks, c, ItemCount(items), cells, sub) ==
      R.Done(true, R.Resolve(cells, sub) + ItemsMeaning(items), c + ItemsSize(items) + ItemsOvershoot(items))
    decreases items, 1
  {
    hide Readable, Overshoot, Meaning, Text, Tokens, Size, JsmnInvariant.Usable, R.Resolve, R.ReadItems, At;
    if items.NoItem? {
      ReadsNoItem(json, toks, c, cells, sub);
    } else {
      var Item(val, sep, rest) := items;
      ItemParts(json, toks, c, items, at);
      var cell, sub' := ReadsItem(json, toks, c, val, at, cells, sub, ItemCount(rest));
      ResolveAppend(cells, cell, sub, sub');
      Regroup(R.Resolve(cells, sub), Meaning(val), ItemsMeaning(rest));
      if rest.Item? {
        ReadsItems(json, toks, c + Size(val), rest, at + |Text(val)| + |sep|, cells + [cell], sub');
      } else {
        ReadsNoItem(json, toks, c + Size(val) + Overshoot(val), cells + [cell], sub');
      }
    }
  }

  lemma {:induction false} Regroup<T>(a: seq<T>, x: T, b: seq<T>)
    ensures a + [x] + b == a + ([x] + b)
  {
  }

  lemma {:induction false} ReadsNoItem(json: string, toks: seq<Token>, c: nat, cells: seq<R.Cell>, sub: seq<R.JVal>)
    requires JsmnInvariant.Usable(json, toks)
    ensures R.ReadItems(json, toks, c, 0, cells, sub) == R.Done(true, R.Resolve(cells, sub) + [], c)
  {
    assert R.Resolve(cells, sub) + [] == R.Resolve(cells, sub);
  }

  // One turn of the loop over an array.
  lemma {:induction false} ReadsItem(json: string, toks: seq<Token>, c: nat, val: Value, at: nat, cells: seq<R.Cell>, sub: seq<R.JVal>, n: nat)
    returns (cell: R.Cell, sub': seq<R.JVal>)
    requires JsmnInvariant.Usable(json, toks) && Readable(val) && At(json, at, Text(val)) && At(toks, c, Tokens(val, at))
    requires val.Arr? ==> sub == [] && R.Shared !in cells
    ensures Meaning(val) == if cell.Own? then cell.v else R.List(sub')
    ensures !(val.Arr? && val.items.Item?) ==> sub' == sub && cell.Own?
    ensures sub' != sub ==> R.Shared !in cells
    ensures R.ReadItems(json, toks, c, n + 1, cells, sub) ==
      R.ReadItems(json, toks, c + Size(val) + Overshoot(val), n, cells + [cell], sub')
    decreases val, 3
  {
    hide Text, Tokens, JsmnInvariant.Usable, R.Resolve, At, ItemsText, MembersText, ItemsTokens, MembersTokens, ReadableItems, ReadableMembers, ItemsOvershoot, MembersOvershoot;
    cell, sub' := R.Own(Meaning(val)), sub;
    match val {
      case Str(body) => ScalarToken(json, toks, c, val, at);
      case Prim(text) =>
        ScalarToken(json, toks, c, val, at);
        PrimitiveAnywhere(text, c + 1);
      case Obj(_, members) =>
        ContainerParts(json, toks, c, val, at);
        ReadsObject(json, toks, c, val, at, map[]);
      case Arr(_, items) =>
        ContainerParts(json, toks, c, val, at);
        ReadsArray(json, toks, c, val, at);
        sub' := ItemsMeaning(items);
        cell := if sub' == [] then R.Own(R.Null) else R.Shared;
    }
  }

  lemma {:induction false} ReadsArray(json: string, toks: seq<Token>, c: nat, v: Value, at: nat)
    requires JsmnInvariant.Usable(json, toks) && v.Arr? && Readable(v) && At(json, at, Text(v)) && At(toks, c, Tokens(v, at))
    ensures c < |toks| && R.ReadArray(json, toks, c, []) == R.Done(true, ItemsMeaning(v.items), c + Size(v) + Overshoot(v))
    decreases v, 2
  {
    ContainerParts(json, toks, c, v, at);
    ReadsItems(json, toks, c + 1, v.items, at + 1 + |v.pad|, [], []);
    assert R.Resolve([], []) + ItemsMeaning(v.items) == ItemsMeaning(v.items);
  }

  /** An object is read into a table in one call, which ends behind its tokens, overshoot included. */
  lemma {:induction false} ReadsObject(json: string, toks: seq<Token>, c: nat, v: Value, at: nat, table: R.Map)
    requires JsmnInvariant.Usable(json, toks) && v.Obj? && Readable(v) && At(json, at, Text(v)) && At(toks, c, Tokens(v, at))
    requires table.Keys !! Keys(v.members)
    ensures R.ReadObject(json, toks, c, table) == R.Done(true, MembersMeaning(v.members, table), c + Size(v) + Overshoot(v))
    decreases v, 2
  {
    ContainerParts(json, toks, c, v, at);
    ReadsMembers(json, toks, c + 1, v.members, at + 1 + |v.pad|, table);
  }

  lemma {:induction false} ReadsMembers(json: string, toks: seq<Token>, c: nat, members: Members, at: nat, table: R.Map)
    requires JsmnInvariant.Usable(json, toks) && ReadableMembers(members) && table.Keys !! Keys(members)
    requires At(json, at, MembersText(members)) && At(toks, c, MembersTokens(members, at))
    ensures R.ReadParams(json, toks, c, MemberCount(members), table) ==
      R.Done(true, MembersMeaning(members, table), c + MembersSize(members) + MembersOvershoot(members))
    decreases members, 1
  {
    hide Readable, MemberOvershoot, Meaning, Text, Tokens, Size, JsmnInvariant.Usable, R.ReadParam, MemberHead;
    if members.Member? {
      var Member(key, before, after, val, sep, rest) := members;
      MemberParts(json, toks, c, members, at);
      ReadsMember(json, toks, c, members, at, table);
      var at1 := at + |MemberHead(key, before, after)| + |Text(val)| + |sep|;
      var table' := table[key := Meaning(val)];
      assert table'.Keys == table.Keys + {key};
      if rest.Member? {
        ReadsMembers(json, toks, c + 1 + Size(val), rest, at1, table');
      }
    }
  }

  lemma {:induction false} ReadsMember(json: string, toks: seq<Token>, c: nat, m: Members, at: nat, table: R.Map)
    requires JsmnInvariant.Usable(json, toks) && m.Member? && ReadableMembers(m) && m.key !in table
    requires At(json, at, MembersText(m)) && At(toks, c, MembersTokens(m, at))
    ensures c < |toks| && R.ReadParam(json, toks, c, table) ==
      R.Done(true, table[m.key := Meaning(m.val)], c + 1 + Size(m.val) + MemberOvershoot(m.val))
    decreases m.val, 4
  {
    hide Text, Tokens, MembersText, MembersTokens, R.ReadParam, Readable, ReadableMembers, Meaning, MemberOvershoot, Size;
    MemberParts(json, toks, c, m, at);
    var valAt := at + |MemberHead(m.key, m.before, m.after)|;
    ReadableMember(m);
    if m.val.Str? || m.val.Prim? {
      ReadsScalarValue(json, toks, c, m.key, m.val, valAt, table);
    } else {
      ReadsContainerValue(json, toks, c, m.key, m.val, valAt, table);
    }
  }

  lemma {:induction false} ReadableMember(m: Members)
    requires m.Member? && ReadableMembers(m)
    ensures Readable(m.val) && |m.key| < R.MAX_STR_SIZE
  {
  }

  // The token at c is a key with one child.
  ghost predicate KeyAt(json: string, toks: seq<Token>, c: nat, key: string) {
    c < |toks| && toks[c].kind == String && toks[c].size == 1 && |key| < R.MAX_STR_SIZE &&
    0 <= toks[c].start <= toks[c].end <= |json| && R.TokText(json, toks[c]) == key
  }

  lemma {:induction false} ReadsScalarValue(json: string, toks: seq<Token>, c: nat, key: string, val: Value, at: nat, table: R.Map)
    requires JsmnInvariant.Usable(json, toks) && KeyAt(json, toks, c, key)
    requires Scalar(val) && Readable(val) && At(json, at, Text(val)) && At(toks, c + 1, Tokens(val, at))
    ensures R.ReadParam(json, toks, c, table) ==
      R.Done(true, table[key := Meaning(val)], c + 1 + Size(val) + MemberOvershoot(val))
  {
    ScalarToken(json, toks, c + 1, val, at);
    hide Text, Tokens, JsmnInvariant.Usable, R.ReadArray, R.ReadObject, R.PutList;
    assert |R.TokText(json, toks[c + 1])| == toks[c + 1].end - toks[c + 1].start;
    if val.Prim? {
      PrimitiveAnywhere(val.text, c + 2);
      hide R.ReadPrimitive;
    }
  }

  lemma {:induction false} PrimitiveAnywhere(text: string, cursor: nat)
    requires R.ReadPrimitive(text, 0).Done?
    ensures R.ReadPrimitive(text, cursor) == R.ReadPrimitive(text, 0).(cursor := cursor)
  {
  }

  lemma {:induction false} ReadsContainerValue(json: string, toks: seq<Token>, c: nat, key: string, val: Value, at: nat, table: R.Map)
    requires JsmnInvariant.Usable(json, toks) && KeyAt(json, toks, c, key) && (val.Arr? ==> key !in table)
    requires !Scalar(val) && Readable(val) && At(json, at, Text(val)) && At(toks, c + 1, Tokens(val, at))
    ensures R.ReadParam(json, toks, c, table) ==
      R.Done(true, table[key := Meaning(val)], c + 1 + Size(val) + MemberOvershoot(val))
    decreases val, 3
  {
    ContainerParts(json, toks, c + 1, val, at);
    hide Text, Tokens, JsmnInvariant.Usable, R.ReadPrimitive, R.ReadArray, R.ReadObject, Readable;
    match val {
      case Obj(_, members) => ReadsObject(json, toks, c + 1, val, at, map[]);
      case Arr(_, items) => ReadsArray(json, toks, c + 1, val, at);
    }
  }
}
