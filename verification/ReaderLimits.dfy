/** The two places where the reader loses its way, and exactly when it does. */
module ReaderLimits {
  import opened JsmnSpec
  import opened JsonText
  import opened JsonReads
  import opened WireLists
  import opened Wire
  import WireRequests
  import JsmnInvariant
  import JsonTokens
  import JsonMessage
  import R = JsonRpcSpec

  // ---------------------------------------------------------------- arrays inside an array share one list

  function Lists(lists: seq<seq<string>>): (r: seq<Value>)
    ensures |r| == |lists| && forall i :: 0 <= i < |lists| ==> r[i] == ArrayOf(Strs(lists[i]))
  {
    if lists == [] then [] else [ArrayOf(Strs(lists[0]))] + Lists(lists[1..])
  }

  // What an array of lists should be read as.
  function ListValues(lists: seq<seq<string>>): (r: seq<R.JVal>)
    ensures |r| == |lists| && forall i :: 0 <= i < |lists| ==> r[i] == R.ListOf(TextList(lists[i]))
  {
    if lists == [] then [] else [R.ListOf(TextList(lists[0]))] + ListValues(lists[1..])
  }

  function Concat(lists: seq<seq<string>>): seq<string> {
    if lists == [] then [] else lists[0] + Concat(lists[1..])
  }

  /** What it is read as: every list from the first non-empty one on is the concatenation of them all. */
  function SharedValues(lists: seq<seq<string>>, before: seq<string>, all: seq<string>): (r: seq<R.JVal>)
    ensures |r| == |lists|
  {
    if lists == [] then []
    else
      var now := before + lists[0];
      [if now == [] then R.Null else R.List(TextList(all))] + SharedValues(lists[1..], now, all)
  }

  lemma {:induction false} TextListAppend(a: seq<string>, b: seq<string>)
    ensures TextList(a + b) == TextList(a) + TextList(b)
  {
  }

  lemma {:induction false} ResolveOwned(items: seq<R.JVal>)
    ensures R.Resolve(R.Owned(items), []) == items
  {
  }

  // A list nested in an array is appended to what the lists before it held.
  lemma {:induction false} ReadsNested(json: string, toks: seq<Token>, c: nat, list: seq<string>, at: nat, before: seq<string>)
    requires JsmnInvariant.Usable(json, toks) && WireStrings(list)
    requires At(json, at, Text(ArrayOf(Strs(list)))) && At(toks, c, Tokens(ArrayOf(Strs(list)), at))
    ensures c < |toks| && R.ReadArray(json, toks, c, TextList(before)) == R.Done(true, TextList(before + list), c + 1 + |list|)
  {
    var v := ArrayOf(Strs(list));
    ContainerParts(json, toks, c, v, at);
    StrsRead(list);
    ItemsOfReads(Strs(list));
    ReadsItems(json, toks, c + 1, v.items, at + 1 + |v.pad|, R.Owned(TextList(before)), []);
    ResolveOwned(TextList(before));
    TextListAppend(before, list);
  }

  lemma {:induction false} ReadsLists(json: string, toks: seq<Token>, c: nat, lists: seq<seq<string>>, at: nat, cells: seq<R.Cell>, before: seq<string>)
    requires JsmnInvariant.Usable(json, toks) && forall list :: list in lists ==> WireStrings(list)
    requires At(json, at, ItemsText(ItemsOf(Lists(lists)))) && At(toks, c, ItemsTokens(ItemsOf(Lists(lists)), at))
    requires R.Shared in cells ==> before != []
    ensures ReadAs(R.ReadItems(json, toks, c, |lists|, cells, TextList(before)), cells, before, lists)
    decreases |lists|
  {
    hide *;
    if lists == [] {
      ReadsNoItem(json, toks, c, cells, TextList(before));
      NoLists(R.ReadItems(json, toks, c, 0, cells, TextList(before)), cells, before);
    } else {
      var list := lists[0];
      var now := before + list;
      assert list in lists && forall l :: l in lists[1..] ==> l in lists;
      var at1 := ListParts(json, toks, c, lists, at);
      var cell := if now == [] then R.Own(R.Null) else R.Shared;
      ReadsList(json, toks, c, list, at, cells, before, |lists| - 1);
      ReadsLists(json, toks, c + 1 + |list|, lists[1..], at1, cells + [cell], now);
      ReadAsStep(R.ReadItems(json, toks, c, |lists|, cells, TextList(before)), cells, before, lists);
    }
  }

  // The first list and where the others start.
  lemma {:induction false} ListParts(json: string, toks: seq<Token>, c: nat, lists: seq<seq<string>>, at: nat) returns (at1: nat)
    requires lists != [] && WireStrings(lists[0])
    requires At(json, at, ItemsText(ItemsOf(Lists(lists)))) && At(toks, c, ItemsTokens(ItemsOf(Lists(lists)), at))
    ensures At(json, at, Text(ArrayOf(Strs(lists[0])))) && At(toks, c, Tokens(ArrayOf(Strs(lists[0])), at))
    ensures At(json, at1, ItemsText(ItemsOf(Lists(lists[1..])))) && At(toks, c + 1 + |lists[0]|, ItemsTokens(ItemsOf(Lists(lists[1..])), at1))
  {
    hide Text, Tokens, ItemsText, ItemsTokens, ArrayOf, At;
    var items := ItemsOf(Lists(lists));
    at1 := at + |Text(items.val)| + |items.sep|;
    ItemParts(json, toks, c, items, at);
    assert Lists(lists)[1..] == Lists(lists[1..]);
    StrsSize(lists[0]);
  }

  // The outcome of reading `lists` behind the cells, when the nested lists so far hold `before`.
  ghost predicate ReadAs(r: R.Outcome<seq<R.JVal>>, cells: seq<R.Cell>, before: seq<string>, lists: seq<seq<string>>) {
    var all := before + Concat(lists);
    r.Done? && r.ok && r.value == R.Resolve(cells, TextList(all)) + SharedValues(lists, before, all)
  }

  lemma {:induction false} ReadAsStep(r: R.Outcome<seq<R.JVal>>, cells: seq<R.Cell>, before: seq<string>, lists: seq<seq<string>>)
    requires lists != []
    requires var now := before + lists[0];
      ReadAs(r, cells + [if now == [] then R.Own(R.Null) else R.Shared], now, lists[1..])
    ensures ReadAs(r, cells, before, lists)
  {
    hide R.Resolve, TextList, SharedValues, Concat;
    SharedStep(lists, cells, before);
  }

  lemma {:induction false} NoLists(r: R.Outcome<seq<R.JVal>>, cells: seq<R.Cell>, before: seq<string>)
    requires r.Done? && r.ok && r.value == R.Resolve(cells, TextList(before))
    ensures ReadAs(r, cells, before, [])
  {
    assert before + Concat([]) == before;
  }

  lemma {:induction false} SharedStep(lists: seq<seq<string>>, cells: seq<R.Cell>, before: seq<string>)
    requires lists != []
    ensures var now := before + lists[0];
      var all := before + Concat(lists);
      all == now + Concat(lists[1..]) &&
      R.Resolve(cells, TextList(all)) + SharedValues(lists, before, all) ==
        R.Resolve(cells + [if now == [] then R.Own(R.Null) else R.Shared], TextList(all)) + SharedValues(lists[1..], now, all)
  {
    hide R.Resolve, TextList;
    var now := before + lists[0];
    var all := before + Concat(lists);
    ResolveCell(cells, if now == [] then R.Own(R.Null) else R.Shared, TextList(all));
    Regroup(R.Resolve(cells, TextList(all)), if now == [] then R.Null else R.List(TextList(all)), SharedValues(lists[1..], now, all));
  }

  // One turn of the loop over an array of lists.
  lemma {:induction false} ReadsList(json: string, toks: seq<Token>, c: nat, list: seq<string>, at: nat, cells: seq<R.Cell>, before: seq<string>, n: nat)
    requires JsmnInvariant.Usable(json, toks) && WireStrings(list)
    requires At(json, at, Text(ArrayOf(Strs(list)))) && At(toks, c, Tokens(ArrayOf(Strs(list)), at))
    ensures var now := before + list;
      R.ReadItems(json, toks, c, n + 1, cells, TextList(before)) ==
      R.ReadItems(json, toks, c + 1 + |list|, n, cells + [if now == [] then R.Own(R.Null) else R.Shared], TextList(now))
  {
    hide Text, Tokens, R.Resolve, ArrayOf, JsmnInvariant.Usable, R.ReadArray, At, R.ReadPrimitive, R.ReadObject;
    ReadsNested(json, toks, c, list, at, before);
    ArrayHead(json, toks, c, list, at);
    assert before + list == [] <==> TextList(before + list) == [];
  }

  lemma {:induction false} ResolveCell(cells: seq<R.Cell>, cell: R.Cell, sub: seq<R.JVal>)
    ensures R.Resolve(cells + [cell], sub) == R.Resolve(cells, sub) + [if cell.Own? then cell.v else R.List(sub)]
  {
    ResolveAppend(cells, cell, sub, sub);
  }

  lemma {:induction false} StrsSize(list: seq<string>)
    requires WireStrings(list)
    ensures Size(ArrayOf(Strs(list))) == 1 + |list|
  {
    StringArray(list);
  }

  lemma {:induction false} ArrayHead(json: string, toks: seq<Token>, c: nat, list: seq<string>, at: nat)
    requires At(json, at, Text(ArrayOf(Strs(list)))) && At(toks, c, Tokens(ArrayOf(Strs(list)), at))
    ensures c < |toks| && toks[c].kind == Array
  {
    ContainerParts(json, toks, c, ArrayOf(Strs(list)), at);
  }

  predicate AllButLastEmpty(lists: seq<seq<string>>) {
    forall i :: 0 <= i < |lists| - 1 ==> lists[i] == []
  }

  /** An array of lists, wherever it stands in a text, is read as it was written exactly when no list in it follows a
      non-empty one. */
  lemma {:induction false} NestedListsExact(json: string, toks: seq<Token>, c: nat, lists: seq<seq<string>>, at: nat)
    requires JsmnInvariant.Usable(json, toks) && forall list :: list in lists ==> WireStrings(list)
    requires At(json, at, Text(ArrayOf(Lists(lists)))) && At(toks, c, Tokens(ArrayOf(Lists(lists)), at))
    ensures c < |toks|
    ensures var r := R.ReadArray(json, toks, c, []);
      r.Done? && r.ok && (r.value == ListValues(lists) <==> AllButLastEmpty(lists))
  {
    var v := ArrayOf(Lists(lists));
    hide R.ReadItems, ItemsText, ItemsTokens, JsmnInvariant.Usable, At, WireStrings, SharedValues, ListValues, AllButLastEmpty;
    ContainerParts(json, toks, c, v, at);
    ListsCount(lists);
    ReadsLists(json, toks, c + 1, lists, at + 1 + |v.pad|, [], []);
    SharedExact(lists, Concat(lists));
    assert [] + Concat(lists) == Concat(lists);
    assert R.Resolve([], TextList(Concat(lists))) + SharedValues(lists, [], Concat(lists)) == SharedValues(lists, [], Concat(lists));
  }

  lemma {:induction false} ListsCount(lists: seq<seq<string>>)
    ensures ItemCount(ItemsOf(Lists(lists))) == |lists|
  {
    if lists != [] {
      assert Lists(lists)[1..] == Lists(lists[1..]);
      ListsCount(lists[1..]);
    }
  }

  lemma {:induction false} SharedExact(lists: seq<seq<string>>, all: seq<string>)
    requires all == Concat(lists)
    ensures SharedValues(lists, [], all) == ListValues(lists) <==> AllButLastEmpty(lists)
  {
    if lists != [] {
      var rest := lists[1..];
      assert [] + lists[0] == lists[0];
      if lists[0] == [] {
        assert all == Concat(rest);
        SharedExact(rest, all);
        var shared, values := SharedValues(lists, [], all), ListValues(lists);
        assert shared == [R.Null] + SharedValues(rest, [], all);
        assert values == [R.Null] + ListValues(rest);
        assert shared[1..] == SharedValues(rest, [], all) && values[1..] == ListValues(rest);
        if AllButLastEmpty(rest) {
          assert forall i :: 0 < i < |lists| ==> lists[i] == rest[i - 1];
        }
        if AllButLastEmpty(lists) {
          assert forall i :: 0 <= i < |rest| ==> rest[i] == lists[i + 1];
        }
      } else if rest == [] {
        assert all == lists[0];
        assert SharedValues(rest, lists[0], all) == [];
      } else {
        assert |lists| > 1 && lists[0] != [];
        var shared, values := SharedValues(lists, [], all), ListValues(lists);
        assert shared[0] == R.List(TextList(all)) && shared[1] == SharedValues(rest, lists[0], all)[0] == R.List(TextList(all));
        assert values[1] == R.ListOf(TextList(lists[1]));
        assert all == lists[0] + (lists[1] + Concat(rest[1..]));
        if lists[1] == [] {
          assert values[1] == R.Null;
        } else {
          assert |TextList(all)| > |TextList(lists[0])|;
          assert shared[0] != values[0];
        }
      }
    }
  }

  // ---------------------------------------------------------------- an object member makes the cursor skip a token

  // A parameter object whose first member holds an object and whose second is lost.
  function SkipExample(): Value {
    Obj("", Member("params", "", "",
      Obj("", Member("a", "", "", Obj("", NoMember), ",", Member("b", "", "", Str("c"), "", NoMember))), "", NoMember))
  }

  /** Behind an object that is the value of a member the cursor is one token too far: here the reader takes the value of
      the next member for its name and runs past the last token. */
  lemma {:induction false} ObjectMemberSkips()
    ensures R.ParseRpc(Text(SkipExample())) == R.Unspecified
  {
    var v := SkipExample();
    var inner := v.members.val;
    var json := Text(v);
    assert Good(v) && Size(v) == 7 by { SkipGood(); }
    JsonTokens.TokenizeText(v, R.MAX_TOKENS);
    TokensSize(v, 0);
    JsmnInvariant.TokenizeUsable(json, R.MAX_TOKENS);
    var toks := Tokens(v, 0);
    assert At(json, 0, Text(v)) && At(toks, 0, toks);
    SkipWalk(json, toks);
  }

  lemma {:induction false} SkipGood()
    ensures Good(SkipExample()) && Size(SkipExample()) == 7
  {
    var b := Member("b", "", "", Str("c"), "", NoMember);
    var a := Member("a", "", "", Obj("", NoMember), ",", b);
    assert JsmnInvariant.IsBody("b") && JsmnInvariant.IsBody("c") && JsmnInvariant.IsBody("a");
    assert GoodMembers(b) && MembersSize(b) == 2;
    assert Good(Obj("", NoMember)) && Size(Obj("", NoMember)) == 1;
    assert GoodMembers(a) && MembersSize(a) == 4;
    PlainIsBody("params");
    assert Good(Obj("", a)) && Size(Obj("", a)) == 5;
    assert GoodMembers(Member("params", "", "", Obj("", a), "", NoMember));
  }

  // The seven tokens of the example.
  ghost predicate SkipTokens(json: string, toks: seq<Token>) {
    && |toks| == 7 && JsmnInvariant.Usable(json, toks)
    && toks[1].kind == String && toks[1].size == 1 && R.TokText(json, toks[1]) == "params"
    && toks[2].kind == Object && toks[2].size == 2
    && toks[3].kind == String && toks[3].size == 1 && R.TokText(json, toks[3]) == "a"
    && toks[4].kind == Object && toks[4].size == 0
    && toks[6].kind == String && toks[6].size == 0 && R.TokText(json, toks[6]) == "c"
  }

  lemma {:induction false} SkipWalk(json: string, toks: seq<Token>)
    requires JsmnInvariant.Usable(json, toks) && |toks| == 7
    requires At(json, 0, Text(SkipExample())) && At(toks, 0, Tokens(SkipExample(), 0))
    ensures R.ReadMessage(json, toks, 1, R.EmptyMsg) == R.Unspecified
  {
    hide Text, Tokens, MembersText, MembersTokens, At, JsmnInvariant.Usable, R.ReadMessage, MemberHead;
    var v := SkipExample();
    var outer := v.members;
    var params := outer.val;
    ContainerParts(json, toks, 0, v, 0);
    MemberParts(json, toks, 1, outer, 1);
    var at := 1 + |MemberHead("params", "", "")|;
    ContainerParts(json, toks, 2, params, at);
    var a := params.members;
    MemberParts(json, toks, 3, a, at + 1);
    var at2 := at + 1 + |MemberHead("a", "", "")|;
    ContainerParts(json, toks, 4, a.val, at2);
    var b := a.rest;
    var at3 := at2 + |Text(a.val)| + 1;
    assert Size(a.val) == 1;
    MemberParts(json, toks, 5, b, at3);
    ScalarToken(json, toks, 6, b.val, at3 + |MemberHead("b", "", "")|);
    assert SkipTokens(json, toks);
    SkipReads(json, toks);
  }

  lemma {:induction false} SkipReads(json: string, toks: seq<Token>)
    requires SkipTokens(json, toks)
    ensures R.ReadMessage(json, toks, 1, R.EmptyMsg) == R.Unspecified
  {
    SkipObject(json, toks);
    assert |R.TokText(json, toks[1])| == toks[1].end - toks[1].start == 6;
    assert R.NamesTable("params") && !R.NamesText("params");
    hide R.NamesTable, R.NamesText, R.ReadObject, JsmnInvariant.Usable;
  }

  lemma {:induction false} SkipObject(json: string, toks: seq<Token>)
    requires SkipTokens(json, toks)
    ensures R.ReadObject(json, toks, 2, map[]) == R.Undefined
  {
    assert |R.TokText(json, toks[3])| == toks[3].end - toks[3].start == 1;
    assert |R.TokText(json, toks[6])| == toks[6].end - toks[6].start == 1;
    hide R.ReadPrimitive, R.ReadArray, JsmnInvariant.Usable;
    assert R.ReadObject(json, toks, 4, map[]) == R.Done(true, map[], 5);
    var t := map["a" := R.Table(map[])];
    assert R.ReadParam(json, toks, 3, map[]) == R.Done(true, t, 6);
    assert R.ReadParam(json, toks, 6, t) == R.Undefined;
    hide R.ReadParam;
    assert R.ReadParams(json, toks, 6, 1, t) == R.Undefined;
    assert R.ReadParams(json, toks, 3, 2, map[]) == R.Undefined;
  }

  // ---------------------------------------------------------------- exactly when an object member is read back

  // A string token as a value behind a string token as a key, whatever the key's size.
  lemma {:induction false} ReadsText(json: string, toks: seq<Token>, c: nat, key: string, value: string, table: R.Map)
    requires JsmnInvariant.Usable(json, toks) && c + 1 < |toks| && toks[c].kind == String && toks[c + 1].kind == String
    requires R.TokText(json, toks[c]) == key && R.TokText(json, toks[c + 1]) == value && |key| < R.MAX_STR_SIZE && |value| < R.MAX_STR_SIZE
    ensures R.ReadParam(json, toks, c, table) == R.Done(true, table[key := R.JVal.Text(value)], c + 1 + toks[c].size)
  {
    hide JsmnInvariant.IsBody;
    assert |R.TokText(json, toks[c])| == toks[c].end - toks[c].start;
    assert |R.TokText(json, toks[c + 1])| == toks[c + 1].end - toks[c + 1].start;
  }

  // The entries that members would overwrite are strings.
  ghost predicate OnlyTexts(members: Members, table: R.Map) {
    forall k :: k in Keys(members) && k in table ==> table[k].Text?
  }

  // A member over such an entry: an array is refused, and everything else replaces it.
  lemma {:induction false} ReadsOne(json: string, toks: seq<Token>, c: nat, m: Members, at: nat, table: R.Map)
    requires JsmnInvariant.Usable(json, toks) && m.Member? && ReadableMembers(m) && OnlyTexts(m, table)
    requires At(json, at, MembersText(m)) && At(toks, c, MembersTokens(m, at))
    ensures c < |toks| && R.ReadParam(json, toks, c, table) ==
      if m.val.Arr? && m.key in table then R.Undefined
      else R.Done(true, table[m.key := Meaning(m.val)], c + 1 + Size(m.val) + MemberOvershoot(m.val))
  {
    hide Text, Tokens, At, Readable, MemberHead, Meaning, MemberOvershoot, Size, R.ReadParam;
    MemberParts(json, toks, c, m, at);
    var valAt := at + |MemberHead(m.key, m.before, m.after)|;
    ReadableMember(m);
    if m.val.Str? || m.val.Prim? {
      ReadsScalarValue(json, toks, c, m.key, m.val, valAt, table);
    } else if m.val.Arr? && m.key in table {
      assert m.key in Keys(m);
      ContainerParts(json, toks, c + 1, m.val, valAt);
      RefusesArray(json, toks, c, m.key, table);
    } else {
      ReadsContainerValue(json, toks, c, m.key, m.val, valAt, table);
    }
  }

  lemma {:induction false} RefusesArray(json: string, toks: seq<Token>, c: nat, key: string, table: R.Map)
    requires JsmnInvariant.Usable(json, toks) && KeyAt(json, toks, c, key) && key in table && table[key].Text?
    requires c + 1 < |toks| && toks[c + 1].kind == Array
    ensures R.ReadParam(json, toks, c, table) == R.Undefined
  {
    hide R.ReadArray, JsmnInvariant.Usable;
  }

  // Members over string entries are read in turn, or not at all.
  lemma {:induction false} ReadsOver(json: string, toks: seq<Token>, c: nat, members: Members, at: nat, table: R.Map)
    requires JsmnInvariant.Usable(json, toks) && ReadableMembers(members) && OnlyTexts(members, table)
    requires At(json, at, MembersText(members)) && At(toks, c, MembersTokens(members, at))
    ensures var r := R.ReadParams(json, toks, c, MemberCount(members), table);
      r.Done? ==> r.value == MembersMeaning(members, table)
    decreases members
  {
    hide Readable, MemberOvershoot, Meaning, Text, Tokens, Size, At, JsmnInvariant.Usable, R.ReadParam, MemberHead;
    if members.Member? {
      var Member(key, before, after, val, sep, rest) := members;
      MemberParts(json, toks, c, members, at);
      ReadsOne(json, toks, c, members, at, table);
      if rest.Member? && !(val.Arr? && key in table) {
        ReadsOver(json, toks, c + 1 + Size(val), rest, at + |MemberHead(key, before, after)| + |Text(val)| + |sep|, table[key := Meaning(val)]);
      }
    }
  }

  // What members do not name stays as it was.
  lemma {:induction false} MeaningOther(members: Members, table: R.Map, key: string)
    requires key !in Keys(members)
    ensures key in MembersMeaning(members, table) <==> key in table
    ensures key in table ==> MembersMeaning(members, table)[key] == table[key]
  {
    hide Meaning;
    if members.Member? {
      MeaningOther(members.rest, table[members.key := Meaning(members.val)], key);
    }
  }

  // The reader returns this table and goes on.
  predicate Reads(r: R.Outcome<R.Map>, table: R.Map) {
    r.Done? && r.ok && r.value == table
  }

  // The kind of the token of a value that is not a string.
  lemma {:induction false} NotString(json: string, toks: seq<Token>, c: nat, val: Value, at: nat)
    requires !val.Str? && At(json, at, Text(val)) && At(toks, c, Tokens(val, at))
    ensures c < |toks| && toks[c].kind != String
  {
    if val.Prim? {
      ScalarToken(json, toks, c, val, at);
    } else {
      ContainerParts(json, toks, c, val, at);
    }
  }

  lemma {:induction false} StopsAt(json: string, toks: seq<Token>, c: nat, n: nat, table: R.Map)
    requires JsmnInvariant.Usable(json, toks) && n > 0 && c < |toks| && toks[c].kind != String
    ensures !R.ReadParams(json, toks, c, n, table).Done? || !R.ReadParams(json, toks, c, n, table).ok
  {
    assert R.ReadParam(json, toks, c, table) == R.Done(false, table, c);
    hide R.ReadParam;
  }

  lemma {:induction false} RunsOut(json: string, toks: seq<Token>, c: nat, n: nat, table: R.Map)
    requires JsmnInvariant.Usable(json, toks) && n > 0 && c + 1 == |toks| && toks[c].kind == String
    ensures R.ReadParams(json, toks, c, n, table) == R.Undefined
  {
    assert R.ReadParam(json, toks, c, table) == R.Undefined;
    hide R.ReadParam;
  }

  // One token too far, the reader takes the first value for a key: it stops there, runs past the end, or falls back into
  // step with a wrong entry.
  lemma {:induction false} SkewedDiffers(json: string, toks: seq<Token>, c: nat, m: Members, at: nat, table: R.Map)
    requires JsmnInvariant.Usable(json, toks) && m.Member? && ReadableMembers(m) && c + MembersSize(m) == |toks|
    requires At(json, at, MembersText(m)) && At(toks, c, MembersTokens(m, at)) && table.Keys !! Keys(m)
    ensures !Reads(R.ReadParams(json, toks, c + 1, MemberCount(m), table), MembersMeaning(m, table))
  {
    hide Text, Tokens, MembersText, MembersTokens, At, MemberHead, R.ReadParams, JsmnInvariant.Usable, MembersMeaning, Readable;
    MemberParts(json, toks, c, m, at);
    var valAt := at + |MemberHead(m.key, m.before, m.after)|;
    if !m.val.Str? {
      NotString(json, toks, c + 1, m.val, valAt);
      StopsAt(json, toks, c + 1, MemberCount(m), table);
    } else {
      ScalarToken(json, toks, c + 1, m.val, valAt);
      if m.rest.NoMember? {
        RunsOut(json, toks, c + 1, 1, table);
      } else {
        SkewedStep(json, toks, c, m, at, valAt, table);
      }
    }
  }

  // Back in step, behind a string member that is followed by another member.
  lemma {:induction false} SkewedStep(json: string, toks: seq<Token>, c: nat, m: Members, at: nat, valAt: nat, table: R.Map)
    requires JsmnInvariant.Usable(json, toks) && m.Member? && m.val.Str? && m.rest.Member? && ReadableMembers(m)
    requires At(json, at, MembersText(m)) && At(toks, c, MembersTokens(m, at)) && table.Keys !! Keys(m)
    requires valAt == at + |MemberHead(m.key, m.before, m.after)| && c + 1 < |toks|
    requires toks[c + 1].kind == String && toks[c + 1].size == 0 && R.TokText(json, toks[c + 1]) == m.val.body
    ensures !Reads(R.ReadParams(json, toks, c + 1, MemberCount(m), table), MembersMeaning(m, table))
  {
    hide Text, Tokens, MembersText, MembersTokens, At, MemberHead, JsmnInvariant.Usable, R.ReadParam, MembersMeaning;
    var next := m.rest;
    var body := m.val.body;
    MemberParts(json, toks, c, m, at);
    var at1 := valAt + |Text(m.val)| + |m.sep|;
    MemberParts(json, toks, c + 2, next, at1);
    assert |next.key| < R.MAX_STR_SIZE && |body| < R.MAX_STR_SIZE;
    ReadsText(json, toks, c + 1, body, next.key, table);
    var table' := table[body := R.JVal.Text(next.key)];
    ReadsOver(json, toks, c + 2, next, at1, table');
    assert next.key in Keys(next) && m.key !in Keys(next) && m.key !in table;
    MeaningOther(next, table', m.key);
    MeaningOther(next, table[m.key := R.JVal.Text(body)], m.key);
    MeaningCons(m, table);
  }

  lemma {:induction false} MeaningCons(m: Members, table: R.Map)
    requires m.Member? && m.val.Str?
    ensures MembersMeaning(m, table) == MembersMeaning(m.rest, table[m.key := R.JVal.Text(m.val.body)])
  {
  }

  // An object whose first member holds the object o, followed by other members.
  function Holding(pad: string, key: string, before: string, after: string, o: Value, sep: string, rest: Members): Value {
    Obj(pad, Member(key, before, after, o, sep, rest))
  }

  /** An object with an object member in front of other members, at the end of a message, is read as it was written
      exactly when no member follows the object member. */
  lemma {:induction false} ObjectMemberExact(json: string, toks: seq<Token>, c: nat, pad: string, key: string, before: string, after: string,
      o: Value, sep: string, rest: Members, at: nat)
    requires JsmnInvariant.Usable(json, toks) && ReadableMembers(rest) && |key| < R.MAX_STR_SIZE && key !in Keys(rest)
    requires o.Obj? && Readable(o) && Overshoot(o) == 0
    requires var v := Holding(pad, key, before, after, o, sep, rest);
      At(json, at, Text(v)) && At(toks, c, Tokens(v, at)) && c + Size(v) == |toks|
    ensures Reads(R.ReadObject(json, toks, c, map[]), MembersMeaning(Holding(pad, key, before, after, o, sep, rest).members, map[]))
      <==> rest.NoMember?
  {
    hide Text, Tokens, MembersText, MembersTokens, At, Readable, Overshoot, JsmnInvariant.Usable, MemberHead, R.ReadParam;
    var v := Holding(pad, key, before, after, o, sep, rest);
    var m := v.members;
    ContainerParts(json, toks, c, v, at);
    var at0 := at + 1 + |pad|;
    MemberParts(json, toks, c + 1, m, at0);
    var valAt := at0 + |MemberHead(key, before, after)|;
    hide MembersMeaning, Meaning;
    ReadsContainerValue(json, toks, c + 1, key, o, valAt, map[]);
    var table := map[key := Meaning(o)];
    OneMore(o);
    var next := c + 1 + 1 + Size(o);
    assert map[][key := Meaning(o)] == table;
    assert R.ReadObject(json, toks, c, map[]) == R.ReadParams(json, toks, next + 1, MemberCount(rest), table);
    HoldingMeans(pad, key, before, after, o, sep, rest);
    if rest.Member? {
      SkewedDiffers(json, toks, next, rest, valAt + |Text(o)| + |sep|, table);
    } else {
      NoneMeans(table);
    }
  }

  lemma {:induction false} NoneMeans(table: R.Map)
    ensures MembersMeaning(NoMember, table) == table
  {
  }

  lemma {:induction false} OneMore(o: Value)
    requires o.Obj? && Overshoot(o) == 0
    ensures MemberOvershoot(o) == 1
  {
  }

  lemma {:induction false} HoldingMeans(pad: string, key: string, before: string, after: string, o: Value, sep: string, rest: Members)
    ensures MembersMeaning(Holding(pad, key, before, after, o, sep, rest).members, map[]) ==
      MembersMeaning(rest, map[key := Meaning(o)])
  {
    assert map[][key := Meaning(o)] == map[key := Meaning(o)];
  }
}
