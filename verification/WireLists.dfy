/** The messages that carry lists and single values: the search request with the server's side of it, and the five
    response shapes. */
module WireLists {
  import opened Options
  import opened Filters
  import opened JsmnSpec
  import opened JsonText
  import opened JsonReads
  import opened Wire
  import opened Strings
  import opened JsonMessage
  import opened ParsedStrings
  import JsmnInvariant
  import WireRequests
  import R = JsonRpcSpec

  // ---------------------------------------------------------------- lists

  function ItemsOf(vals: seq<Value>): Items {
    if vals == [] then NoItem else Item(vals[0], if |vals| == 1 then " " else ", ", ItemsOf(vals[1..]))
  }

  // An array as the templates lay it out: `[ %s ]`.
  function ArrayOf(vals: seq<Value>): Value {
    Arr(if vals == [] then "  " else " ", ItemsOf(vals))
  }

  function Texts(vals: seq<Value>): (r: seq<string>)
    ensures |r| == |vals|
  {
    if vals == [] then [] else [Text(vals[0])] + Texts(vals[1..])
  }

  function Meanings(vals: seq<Value>): (r: seq<R.JVal>)
    ensures |r| == |vals|
    ensures forall i :: 0 <= i < |vals| ==> r[i] == Meaning(vals[i])
  {
    if vals == [] then [] else [Meaning(vals[0])] + Meanings(vals[1..])
  }

  function Sizes(vals: seq<Value>): nat {
    if vals == [] then 0 else Size(vals[0]) + Sizes(vals[1..])
  }

  lemma {:induction false} ItemsOfText(vals: seq<Value>)
    requires vals != []
    ensures ItemsText(ItemsOf(vals)) == Joined(Texts(vals), ", ", "", "") + " "
  {
    hide Text;
    if |vals| > 1 {
      ItemsOfText(vals[1..]);
      var rest := Joined(Texts(vals[1..]), ", ", "", "");
      assert Texts(vals)[1..] == Texts(vals[1..]);
      assert "" + Text(vals[0]) + "" == Text(vals[0]);
      assert Text(vals[0]) + ", " + (rest + " ") == Text(vals[0]) + ", " + rest + " ";
    } else {
      assert Texts(vals) == [Text(vals[0])];
      assert ItemsText(ItemsOf(vals[1..])) == "";
      assert "" + Text(vals[0]) + "" == Text(vals[0]);
    }
  }

  lemma {:induction false} ArrayOfText(vals: seq<Value>)
    ensures Text(ArrayOf(vals)) == "[ " + Joined(Texts(vals), ", ", "", "") + " ]"
  {
    hide Joined, ItemsText;
    if vals == [] {
      assert Joined([], ", ", "", "") == "" by { EmptyJoin(); }
      assert ItemsText(NoItem) == "" by { NoItemText(); }
      assert "[" + "  " + "" + "]" == "[ " + "" + " ]";
    } else {
      ItemsOfText(vals);
      var list := Joined(Texts(vals), ", ", "", "");
      assert "[" + " " + (list + " ") + "]" == "[ " + list + " ]";
    }
  }

  lemma {:induction false} EmptyJoin()
    ensures Joined([], ", ", "", "") == ""
  {
  }

  lemma {:induction false} NoItemText()
    ensures ItemsText(NoItem) == ""
  {
  }

  // Items that do not overshoot and are no arrays: strings and flat objects.
  predicate Plain(v: Value) {
    Good(v) && Readable(v) && Overshoot(v) == 0 && !v.Arr? && !v.Prim?
  }

  lemma {:induction false} ItemsOfReads(vals: seq<Value>)
    requires forall v :: v in vals ==> Plain(v)
    ensures var items := ItemsOf(vals);
      GoodItems(items) && ReadableItems(items) && !HasArray(items) && ItemsOvershoot(items) == 0 &&
      ItemsMeaning(items) == Meanings(vals) && ItemsSize(items) == Sizes(vals) && ItemCount(items) == |vals|
  {
    if vals != [] {
      hide Good, Readable, Overshoot, Meaning;
      assert vals[0] in vals;
      assert forall v :: v in vals[1..] ==> v in vals;
      ItemsOfReads(vals[1..]);
    }
  }

  lemma {:induction false} ArrayOfReads(vals: seq<Value>)
    requires forall v :: v in vals ==> Plain(v)
    ensures var v := ArrayOf(vals);
      Good(v) && Readable(v) && Overshoot(v) == 0 && Meaning(v) == R.ListOf(Meanings(vals)) && Size(v) == 1 + Sizes(vals)
  {
    ItemsOfReads(vals);
  }

  // ---------------------------------------------------------------- lists of strings

  function Strs(list: seq<string>): (r: seq<Value>)
    ensures |r| == |list| && forall i :: 0 <= i < |list| ==> r[i] == Str(list[i])
  {
    if list == [] then [] else [Str(list[0])] + Strs(list[1..])
  }

  function TextList(list: seq<string>): (r: seq<R.JVal>)
    ensures |r| == |list| && forall i :: 0 <= i < |list| ==> r[i] == R.JVal.Text(list[i])
  {
    if list == [] then [] else [R.JVal.Text(list[0])] + TextList(list[1..])
  }

  ghost predicate WireStrings(list: seq<string>) {
    forall s :: s in list ==> WireString(s)
  }

  lemma {:induction false} QuotedJoin(list: seq<string>)
    ensures Joined(Texts(Strs(list)), ", ", "", "") == Joined(list, ", ", "\"", "\"")
  {
    if list != [] {
      QuotedJoin(list[1..]);
      var texts := Texts(Strs(list));
      assert Strs(list)[1..] == Strs(list[1..]);
      assert texts[0] == "\"" + list[0] + "\"";
      assert texts[1..] == Texts(Strs(list[1..]));
      assert "" + texts[0] + "" == texts[0];
    }
  }

  lemma {:induction false} StrsRead(list: seq<string>)
    requires WireStrings(list)
    ensures forall v :: v in Strs(list) ==> Plain(v)
    ensures Meanings(Strs(list)) == TextList(list) && Sizes(Strs(list)) == |list|
  {
    hide JsmnInvariant.IsBody;
    if list != [] {
      assert forall s :: s in list[1..] ==> s in list;
      StrsRead(list[1..]);
      assert Strs(list)[1..] == Strs(list[1..]);
      assert list[0] in list;
      assert Plain(Str(list[0]));
    }
  }

  /** A list of wire strings, printed as an array, is read as that list. */
  lemma {:induction false} StringArray(list: seq<string>)
    requires WireStrings(list)
    ensures var v := ArrayOf(Strs(list));
      Text(v) == "[ " + Joined(list, ", ", "\"", "\"") + " ]" && Good(v) && Readable(v) && Overshoot(v) == 0 &&
      Meaning(v) == R.ListOf(TextList(list)) && Size(v) == 1 + |list|
  {
    hide Joined, Texts;
    ArrayOfText(Strs(list));
    QuotedJoin(list);
    StrsRead(list);
    ArrayOfReads(Strs(list));
  }

  // ---------------------------------------------------------------- numbers and truth values

  lemma {:induction false} DigitsAppend(s: string, d: nat, acc: nat)
    requires d < 10 && forall i :: 0 <= i < |s| ==> '0' <= s[i] <= '9'
    ensures R.Digits(s + [d as char + '0'], acc) == 10 * R.Digits(s, acc) + d
  {
    var last := [d as char + '0'];
    if s == "" {
      assert s + last == last;
      assert R.Digits(last, acc) == R.Digits(last[1..], 10 * acc + d);
    } else {
      assert (s + last)[1..] == s[1..] + last;
      DigitsAppend(s[1..], d, 10 * acc + (s[0] as int - '0' as int));
    }
  }

  lemma {:induction false} DigitsOfDecimal(n: nat)
    ensures R.Digits(DecimalNat(n), 0) == n
  {
    if n < 10 {
      DigitsAppend("", n, 0);
      assert "" + [n as char + '0'] == DecimalNat(n);
    } else {
      DigitsOfDecimal(n / 10);
      DigitsAppend(DecimalNat(n / 10), n % 10, 0);
    }
  }

  lemma {:induction false} DecimalScans(n: int)
    ensures R.ScanLong(Decimal(n)) == Some(n)
  {
    var s := Decimal(n);
    DigitsOfDecimal(if n < 0 then -n else n);
    hide DecimalNat, R.Digits;
    if n < 0 {
      assert s[1..] == DecimalNat(-n);
    }
  }

  predicate NumberText(s: string) {
    s != "" && |s| <= 11 && forall i :: 0 <= i < |s| ==> s[i] == '-' || '0' <= s[i] <= '9'
  }

  lemma {:induction false} NumberIsPrimitive(s: string)
    requires NumberText(s)
    ensures IsPrimitiveText(s) && s != "true" && s != "false" && s != "null" && '.' !in s
  {
    assert s[0] != 't' && s[0] != 'f' && s[0] != 'n';
  }

  /** A 32-bit integer, printed with %d, is a primitive that is read as that integer. */
  lemma {:induction false} DecimalReads(n: int)
    requires -0x8000_0000 <= n < 0x8000_0000
    ensures IsPrimitiveText(Decimal(n)) && R.ReadPrimitive(Decimal(n), 0) == R.Done(true, R.Long(n), 0)
  {
    IntLength(n);
    DecimalScans(n);
    assert NumberText(Decimal(n));
    NumberIsPrimitive(Decimal(n));
    hide Decimal, R.ScanLong, NumberText, IsPrimitiveText;
  }

  function BoolText(b: bool): string {
    if b then "true" else "false"
  }

  lemma {:induction false} BoolReads(b: bool)
    ensures IsPrimitiveText(BoolText(b)) && R.ReadPrimitive(BoolText(b), 0) == R.Done(true, R.Bool(b), 0)
  {
  }

  // ---------------------------------------------------------------- search

  // What printf prints for the value: the C library shows a null pointer as "(null)".
  function Shown(value: Option<string>): string {
    match value
    case Some(s) => s
    case None => "(null)"
  }

  function FilterText(f: Filter): string {
    "{" + (" " + (TightKey("attribute") + (Quoted(f.attribute) + (", " + (TightKey("value") + (Quoted(Shown(f.value)) +
      (", " + (TightKey("matchmode") + (Decimal(f.matchmode) + (" " + "}"))))))))))
  }

  function Quoted(s: string): string {
    "\"" + s + "\""
  }

  // A key with its colon, as the two kinds of templates print it.
  function TightKey(key: string): string {
    "\"" + key + "\": "
  }

  function SpacedKey(key: string): string {
    "\"" + key + "\" : "
  }

  function FilterTexts(filters: seq<Filter>): (r: seq<string>)
    ensures |r| == |filters|
  {
    if filters == [] then [] else [FilterText(filters[0])] + FilterTexts(filters[1..])
  }

  const GAP := ",                "

  function SearchParams(repos: seq<string>, filters: seq<Filter>, tags: seq<string>, withConfig: bool): string {
    "{" + (" " + (SpacedKey("repo_dirs") + ("[ " + Joined(repos, ", ", "\"", "\"") + " ]" + (GAP +
      (SpacedKey("filter_attrs") + ("[ " + Joined(FilterTexts(filters), ", ", "", "") + " ]" + (GAP +
      (SpacedKey("tags") + ("[ " + Joined(tags, ", ", "\"", "\"") + " ]" + (GAP +
      (SpacedKey("include_repo_from_config") + (BoolText(withConfig) + (" " + "}")))))))))))))
  }

  /** The search request of ufa_jsonrpc_api_search. */
  function Search(repos: seq<string>, filters: seq<Filter>, tags: seq<string>, withConfig: bool): string {
    ParamsFirst(" ", SearchParams(repos, filters, tags, withConfig), ", ", "  ", "  ", "   ", "search")
  }

  predicate FilterOnWire(f: Filter) {
    WireString(f.attribute) && WireString(Shown(f.value)) && (f.matchmode == 0 || f.matchmode == 1)
  }

  // The table the server gets for a filter.
  function FilterTable(f: Filter): R.JVal {
    R.Table(map["attribute" := R.JVal.Text(f.attribute), "value" := R.JVal.Text(Shown(f.value)), "matchmode" := R.Long(f.matchmode)])
  }

  function FilterTables(filters: seq<Filter>): (r: seq<R.JVal>)
    ensures |r| == |filters| && forall i :: 0 <= i < |filters| ==> r[i] == FilterTable(filters[i])
  {
    if filters == [] then [] else [FilterTable(filters[0])] + FilterTables(filters[1..])
  }

  lemma {:induction false} TightMember(key: string, val: Value, sep: string, rest: Members)
    ensures MembersText(Member(key, "", " ", val, sep, rest)) == TightKey(key) + (Text(val) + (sep + MembersText(rest)))
  {
    assert MemberHead(key, "", " ") == TightKey(key);
  }

  lemma {:induction false} QuotedStr(s: string)
    ensures Text(Str(s)) == Quoted(s)
  {
  }

  // A closing brace moves inwards past a whole member.
  lemma {:induction false} PushMember(head: string, val: string, sep: string, rest: string)
    ensures head + (val + (sep + rest)) + "}" == head + (val + (sep + (rest + "}")))
  {
    Push(head, val + (sep + rest));
    Push(val, sep + rest);
    Push(sep, rest);
  }

  // An object of three members, as the filters are laid out.
  function Three(k1: string, v1: Value, k2: string, v2: Value, k3: string, v3: Value): Value {
    Obj(" ", Member(k1, "", " ", v1, ", ", Member(k2, "", " ", v2, ", ", Member(k3, "", " ", v3, " ", NoMember))))
  }

  function FilterValue(f: Filter): Value {
    Three("attribute", Str(f.attribute), "value", Str(Shown(f.value)), "matchmode", Prim(Decimal(f.matchmode)))
  }

  function FilterValues(filters: seq<Filter>): (r: seq<Value>)
    ensures |r| == |filters| && forall i :: 0 <= i < |filters| ==> r[i] == FilterValue(filters[i])
  {
    if filters == [] then [] else [FilterValue(filters[0])] + FilterValues(filters[1..])
  }

  lemma {:induction false} ThreeText(k1: string, v1: Value, k2: string, v2: Value, k3: string, v3: Value)
    ensures Text(Three(k1, v1, k2, v2, k3, v3)) ==
      "{" + (" " + (TightKey(k1) + (Text(v1) + (", " + (TightKey(k2) + (Text(v2) + (", " + (TightKey(k3) + (Text(v3) + (" " + "}"))))))))))
  {
    hide MembersText, TightKey;
    var m3 := Member(k3, "", " ", v3, " ", NoMember);
    var m2 := Member(k2, "", " ", v2, ", ", m3);
    var m1 := Member(k1, "", " ", v1, ", ", m2);
    TightMember(k3, v3, " ", NoMember);
    TightMember(k2, v2, ", ", m3);
    TightMember(k1, v1, ", ", m2);
    NoMemberText();
    CloseText(" ", m1, MembersText(m1) + "}");
    PushMember(TightKey(k1), Text(v1), ", ", MembersText(m2));
    PushMember(TightKey(k2), Text(v2), ", ", MembersText(m3));
    PushMember(TightKey(k3), Text(v3), " ", "");
    assert "" + "}" == "}";
  }

  predicate ScalarReads(v: Value) {
    Scalar(v) && Good(v) && Readable(v)
  }

  lemma {:induction false} ThreeReads(k1: string, v1: Value, k2: string, v2: Value, k3: string, v3: Value)
    requires WireString(k1) && WireString(k2) && WireString(k3) && k1 != k2 && k1 != k3 && k2 != k3
    requires ScalarReads(v1) && ScalarReads(v2) && ScalarReads(v3)
    ensures var v := Three(k1, v1, k2, v2, k3, v3);
      Plain(v) && Size(v) == 7 && Meaning(v) == R.Table(map[k1 := Meaning(v1), k2 := Meaning(v2), k3 := Meaning(v3)])
  {
    hide JsmnInvariant.IsBody, Meaning;
    ThreeParts(k1, v1, k2, v2, k3, v3);
    ThreeMeans(k1, v1, k2, v2, k3, v3);
  }

  lemma {:induction false} ThreeParts(k1: string, v1: Value, k2: string, v2: Value, k3: string, v3: Value)
    requires WireString(k1) && WireString(k2) && WireString(k3) && k1 != k2 && k1 != k3 && k2 != k3
    requires ScalarReads(v1) && ScalarReads(v2) && ScalarReads(v3)
    ensures var ms := Three(k1, v1, k2, v2, k3, v3).members;
      GoodMembers(ms) && ReadableMembers(ms) && MembersOvershoot(ms) == 0 && MembersSize(ms) == 6
  {
    var m3 := Member(k3, "", " ", v3, " ", NoMember);
    var m2 := Member(k2, "", " ", v2, ", ", m3);
    ScalarMember(m3);
    ScalarMember(m2);
    ScalarMember(Member(k1, "", " ", v1, ", ", m2));
  }

  // A scalar member in front of readable members keeps them readable.
  lemma {:induction false} ScalarMember(m: Members)
    requires m.Member? && ScalarReads(m.val) && WireString(m.key) && m.key !in Keys(m.rest)
    requires Blank(m.before) && Blank(m.after) && Separator(m.sep) && (m.rest.Member? ==> ',' in m.sep)
    requires GoodMembers(m.rest) && ReadableMembers(m.rest) && MembersOvershoot(m.rest) == 0
    ensures GoodMembers(m) && ReadableMembers(m) && MembersOvershoot(m) == 0
    ensures MembersSize(m) == 2 + MembersSize(m.rest) && Keys(m) == {m.key} + Keys(m.rest)
  {
    assert Overshoot(m.val) == 0 && Size(m.val) == 1;
    assert MemberOvershoot(m.val) == 0;
  }

  lemma {:induction false} ThreeMeans(k1: string, v1: Value, k2: string, v2: Value, k3: string, v3: Value)
    ensures Meaning(Three(k1, v1, k2, v2, k3, v3)) == R.Table(map[k1 := Meaning(v1), k2 := Meaning(v2), k3 := Meaning(v3)])
  {
    var m3 := Member(k3, "", " ", v3, " ", NoMember);
    var m2 := Member(k2, "", " ", v2, ", ", m3);
    var m1 := Member(k1, "", " ", v1, ", ", m2);
    var t1 := map[k1 := Meaning(v1)];
    var t2 := t1[k2 := Meaning(v2)];
    assert MembersMeaning(m3, t2) == t2[k3 := Meaning(v3)];
    assert MembersMeaning(m2, t1) == MembersMeaning(m3, t2);
    assert MembersMeaning(m1, map[]) == MembersMeaning(m2, t1);
  }

  lemma {:induction false} FilterLiterals()
    ensures WireString("attribute") && WireString("value") && WireString("matchmode")
    ensures "attribute" != "value" && "attribute" != "matchmode" && "value" != "matchmode"
  {
    hide JsmnInvariant.IsBody;
    PlainIsBody("attribute");
    PlainIsBody("value");
    PlainIsBody("matchmode");
    assert "attribute"[0] != "value"[0];
    assert "attribute"[0] != "matchmode"[0];
    assert "value"[0] != "matchmode"[0];
  }

  lemma {:induction false} FilterValueText(f: Filter)
    ensures Text(FilterValue(f)) == FilterText(f)
  {
    hide Decimal, TightKey;
    ThreeText("attribute", Str(f.attribute), "value", Str(Shown(f.value)), "matchmode", Prim(Decimal(f.matchmode)));
    QuotedStr(f.attribute);
    QuotedStr(Shown(f.value));
    assert Text(Prim(Decimal(f.matchmode))) == Decimal(f.matchmode);
  }

  lemma {:induction false} FilterPlain(f: Filter)
    requires FilterOnWire(f)
    ensures var v := FilterValue(f); Plain(v) && Size(v) == 7 && Meaning(v) == FilterTable(f)
  {
    FilterLiterals();
    DecimalReads(f.matchmode);
    var mode := Prim(Decimal(f.matchmode));
    assert Meaning(mode) == R.Long(f.matchmode);
    assert ScalarReads(mode) && ScalarReads(Str(f.attribute)) && ScalarReads(Str(Shown(f.value)));
    hide WireString, ScalarReads, Three, Plain, Size;
    ThreeReads("attribute", Str(f.attribute), "value", Str(Shown(f.value)), "matchmode", mode);
  }

  lemma {:induction false} FiltersRead(filters: seq<Filter>)
    requires forall f :: f in filters ==> FilterOnWire(f)
    ensures forall v :: v in FilterValues(filters) ==> Plain(v)
    ensures Texts(FilterValues(filters)) == FilterTexts(filters)
    ensures Meanings(FilterValues(filters)) == FilterTables(filters) && Sizes(FilterValues(filters)) == 7 * |filters|
  {
    hide FilterOnWire, FilterValue, Plain, FilterText, FilterTable, Text, Meaning, Size;
    if filters != [] {
      assert filters[0] in filters && forall f :: f in filters[1..] ==> f in filters;
      FiltersRead(filters[1..]);
      assert FilterValues(filters)[1..] == FilterValues(filters[1..]);
      FilterPlain(filters[0]);
      FilterValueText(filters[0]);
    }
  }

  function SearchValue(repos: seq<string>, filters: seq<Filter>, tags: seq<string>, withConfig: bool): Value {
    Four("repo_dirs", ArrayOf(Strs(repos)), "filter_attrs", ArrayOf(FilterValues(filters)), "tags", ArrayOf(Strs(tags)),
      "include_repo_from_config", Prim(BoolText(withConfig)), GAP)
  }

  // The parameter table of a search request.
  function SearchTable(repos: seq<string>, filters: seq<Filter>, tags: seq<string>, withConfig: bool): R.Map {
    map["repo_dirs" := R.ListOf(TextList(repos)), "filter_attrs" := R.ListOf(FilterTables(filters)),
      "tags" := R.ListOf(TextList(tags)), "include_repo_from_config" := R.Bool(withConfig)]
  }

  predicate FiltersOnWire(filters: seq<Filter>) {
    forall f :: f in filters ==> FilterOnWire(f)
  }

  lemma {:induction false} FilterArray(filters: seq<Filter>)
    requires FiltersOnWire(filters)
    ensures var v := ArrayOf(FilterValues(filters));
      Text(v) == "[ " + Joined(FilterTexts(filters), ", ", "", "") + " ]" && Good(v) && Readable(v) && Overshoot(v) == 0 &&
      Meaning(v) == R.ListOf(FilterTables(filters)) && Size(v) == 1 + 7 * |filters|
  {
    hide Joined, Texts, Text, FilterOnWire, Plain;
    FiltersRead(filters);
    ArrayOfText(FilterValues(filters));
    ArrayOfReads(FilterValues(filters));
  }

  lemma {:induction false} SearchText(repos: seq<string>, filters: seq<Filter>, tags: seq<string>, withConfig: bool)
    requires WireStrings(repos) && WireStrings(tags) && FiltersOnWire(filters)
    ensures Text(SearchValue(repos, filters, tags, withConfig)) == SearchParams(repos, filters, tags, withConfig)
  {
    hide SpacedKey, Joined, ArrayOf, Four;
    StringArray(repos);
    FilterArray(filters);
    StringArray(tags);
    FourText("repo_dirs", ArrayOf(Strs(repos)), "filter_attrs", ArrayOf(FilterValues(filters)), "tags", ArrayOf(Strs(tags)),
      "include_repo_from_config", Prim(BoolText(withConfig)), GAP);
    assert Text(Prim(BoolText(withConfig))) == BoolText(withConfig);
  }

  // An object of four members, as the search parameters are laid out.
  function Four(k1: string, v1: Value, k2: string, v2: Value, k3: string, v3: Value, k4: string, v4: Value, sep: string): Value {
    Obj(" ", Member(k1, " ", " ", v1, sep, Member(k2, " ", " ", v2, sep, Member(k3, " ", " ", v3, sep, Member(k4, " ", " ", v4, " ", NoMember)))))
  }

  lemma {:induction false} SpacedKeyMember(key: string, val: Value, sep: string, rest: Members)
    ensures MembersText(Member(key, " ", " ", val, sep, rest)) == SpacedKey(key) + (Text(val) + (sep + MembersText(rest)))
  {
    SpacedMember(key, val, sep, rest);
  }

  lemma {:induction false} FourText(k1: string, v1: Value, k2: string, v2: Value, k3: string, v3: Value, k4: string, v4: Value, sep: string)
    ensures Text(Four(k1, v1, k2, v2, k3, v3, k4, v4, sep)) ==
      "{" + (" " + (SpacedKey(k1) + (Text(v1) + (sep + (SpacedKey(k2) + (Text(v2) + (sep + (SpacedKey(k3) + (Text(v3) + (sep +
        (SpacedKey(k4) + (Text(v4) + (" " + "}")))))))))))))
  {
    hide MembersText, SpacedKey;
    var m4 := Member(k4, " ", " ", v4, " ", NoMember);
    var m3 := Member(k3, " ", " ", v3, sep, m4);
    var m2 := Member(k2, " ", " ", v2, sep, m3);
    var m1 := Member(k1, " ", " ", v1, sep, m2);
    SpacedKeyMember(k4, v4, " ", NoMember);
    SpacedKeyMember(k3, v3, sep, m4);
    SpacedKeyMember(k2, v2, sep, m3);
    SpacedKeyMember(k1, v1, sep, m2);
    NoMemberText();
    CloseText(" ", m1, MembersText(m1) + "}");
    PushMember(SpacedKey(k1), Text(v1), sep, MembersText(m2));
    PushMember(SpacedKey(k2), Text(v2), sep, MembersText(m3));
    PushMember(SpacedKey(k3), Text(v3), sep, MembersText(m4));
    PushMember(SpacedKey(k4), Text(v4), " ", "");
    assert "" + "}" == "}";
  }

  predicate ValueReads(v: Value) {
    Good(v) && Readable(v) && Overshoot(v) == 0 && !v.Obj?
  }

  lemma {:induction false} ValueMember(m: Members)
    requires m.Member? && ValueReads(m.val) && WireString(m.key) && m.key !in Keys(m.rest)
    requires Blank(m.before) && Blank(m.after) && Separator(m.sep) && (m.rest.Member? ==> ',' in m.sep)
    requires GoodMembers(m.rest) && ReadableMembers(m.rest) && MembersOvershoot(m.rest) == 0
    ensures GoodMembers(m) && ReadableMembers(m) && MembersOvershoot(m) == 0
    ensures MembersSize(m) == 1 + Size(m.val) + MembersSize(m.rest) && Keys(m) == {m.key} + Keys(m.rest)
  {
    assert MemberOvershoot(m.val) == 0;
  }

  lemma {:induction false} FourReads(k1: string, v1: Value, k2: string, v2: Value, k3: string, v3: Value, k4: string, v4: Value, sep: string)
    requires WireString(k1) && WireString(k2) && WireString(k3) && WireString(k4)
    requires k1 != k2 && k1 != k3 && k1 != k4 && k2 != k3 && k2 != k4 && k3 != k4
    requires ValueReads(v1) && ValueReads(v2) && ValueReads(v3) && ValueReads(v4) && Separator(sep) && ',' in sep
    ensures var v := Four(k1, v1, k2, v2, k3, v3, k4, v4, sep);
      Good(v) && Readable(v) && Overshoot(v) == 0 && Size(v) == 5 + Size(v1) + Size(v2) + Size(v3) + Size(v4)
  {
    hide ValueReads, WireString;
    var m4 := Member(k4, " ", " ", v4, " ", NoMember);
    var m3 := Member(k3, " ", " ", v3, sep, m4);
    var m2 := Member(k2, " ", " ", v2, sep, m3);
    ValueMember(m4);
    ValueMember(m3);
    ValueMember(m2);
    ValueMember(Member(k1, " ", " ", v1, sep, m2));
  }

  lemma {:induction false} FourMeans(k1: string, v1: Value, k2: string, v2: Value, k3: string, v3: Value, k4: string, v4: Value, sep: string)
    ensures MembersMeaning(Four(k1, v1, k2, v2, k3, v3, k4, v4, sep).members, map[]) ==
      map[k1 := Meaning(v1), k2 := Meaning(v2), k3 := Meaning(v3), k4 := Meaning(v4)]
  {
    var m4 := Member(k4, " ", " ", v4, " ", NoMember);
    var m3 := Member(k3, " ", " ", v3, sep, m4);
    var m2 := Member(k2, " ", " ", v2, sep, m3);
    var t1 := map[k1 := Meaning(v1)];
    var t2 := t1[k2 := Meaning(v2)];
    var t3 := t2[k3 := Meaning(v3)];
    assert MembersMeaning(m4, t3) == t3[k4 := Meaning(v4)];
    assert MembersMeaning(m3, t2) == MembersMeaning(m4, t3);
    assert MembersMeaning(m2, t1) == MembersMeaning(m3, t2);
  }

  lemma {:induction false} SearchLiterals()
    ensures WireString("repo_dirs") && WireString("filter_attrs") && WireString("tags") && WireString("include_repo_from_config")
    ensures WireString("search")
    ensures "repo_dirs" != "filter_attrs" && "repo_dirs" != "tags" && "repo_dirs" != "include_repo_from_config"
    ensures "filter_attrs" != "tags" && "filter_attrs" != "include_repo_from_config" && "tags" != "include_repo_from_config"
    ensures Separator(GAP) && ',' in GAP
  {
    hide JsmnInvariant.IsBody;
    PlainIsBody("repo_dirs");
    PlainIsBody("filter_attrs");
    PlainIsBody("tags");
    PlainIsBody("include_repo_from_config");
    PlainIsBody("search");
    assert "repo_dirs"[0] == 'r' && "filter_attrs"[0] == 'f' && "tags"[0] == 't' && "include_repo_from_config"[0] == 'i';
    assert GAP[0] == ',';
  }

  /** A search with any lists of repositories, filters and tags is read back: the server's parameter table holds
      exactly the lists that were given. */
  lemma {:induction false} SearchRoundTrip(repos: seq<string>, filters: seq<Filter>, tags: seq<string>, withConfig: bool)
    requires WireStrings(repos) && WireStrings(tags) && FiltersOnWire(filters)
    requires 9 + |repos| + 7 * |filters| + |tags| <= ROOM
    ensures Framed(Search(repos, filters, tags, withConfig),
      WireRequests.Request("search", SearchTable(repos, filters, tags, withConfig)))
  {
    hide Framed, WireStrings, FiltersOnWire, ArrayOf, ParamsFirst, WireString, SearchParams, Four, Readable, Good, Text, Meaning;
    SearchText(repos, filters, tags, withConfig);
    SearchReads(repos, filters, tags, withConfig);
    SearchLiterals();
    ParamsFirstFramed(" ", SearchValue(repos, filters, tags, withConfig), ", ", "  ", "  ", "   ", "search");
  }

  // A parsed list of texts has wire strings only.
  lemma {:induction false} ListOnlyWire(list: seq<string>)
    requires WireValue(R.ListOf(TextList(list)))
    ensures WireStrings(list)
  {
    hide WireString;
    forall s | s in list
      ensures WireString(s)
    {
      var i :| 0 <= i < |list| && list[i] == s;
      assert WireValue(TextList(list)[i]);
    }
  }

  lemma {:induction false} FilterOnlyWire(f: Filter)
    requires WireValue(FilterTable(f)) && (f.matchmode == 0 || f.matchmode == 1)
    ensures FilterOnWire(f)
  {
    hide WireString;
    FilterLiterals();
    var table := FilterTable(f).table;
    assert WireValue(table["attribute"]) && WireValue(table["value"]);
  }

  lemma {:induction false} FiltersOnlyWire(filters: seq<Filter>)
    requires WireValue(R.ListOf(FilterTables(filters))) && forall f :: f in filters ==> f.matchmode == 0 || f.matchmode == 1
    ensures FiltersOnWire(filters)
  {
    hide FilterOnWire, FilterTable;
    forall f | f in filters
      ensures FilterOnWire(f)
    {
      var i :| 0 <= i < |filters| && filters[i] == f;
      assert WireValue(FilterTables(filters)[i]);
      FilterOnlyWire(f);
    }
  }

  /** A search within the token limit is read back exactly when all its strings are wire strings. */
  lemma {:induction false} SearchExact(repos: seq<string>, filters: seq<Filter>, tags: seq<string>, withConfig: bool)
    requires 9 + |repos| + 7 * |filters| + |tags| <= ROOM && forall f :: f in filters ==> f.matchmode == 0 || f.matchmode == 1
    ensures R.ParseRpc(Search(repos, filters, tags, withConfig)) ==
        R.Ok(WireRequests.Request("search", SearchTable(repos, filters, tags, withConfig)))
      <==> WireStrings(repos) && WireStrings(tags) && FiltersOnWire(filters)
  {
    hide R.ParseRpc, WireStrings, FiltersOnWire, Search, WireString;
    if WireStrings(repos) && WireStrings(tags) && FiltersOnWire(filters) {
      SearchRoundTrip(repos, filters, tags, withConfig);
    } else if R.ParseRpc(Search(repos, filters, tags, withConfig)) == R.Ok(WireRequests.Request("search", SearchTable(repos, filters, tags, withConfig))) {
      ParsedIsWire(Search(repos, filters, tags, withConfig));
      SearchOnlyWire(repos, filters, tags, withConfig);
    }
  }

  lemma {:induction false} SearchEntries(repos: seq<string>, filters: seq<Filter>, tags: seq<string>, withConfig: bool)
    ensures var table := SearchTable(repos, filters, tags, withConfig);
      "repo_dirs" in table && table["repo_dirs"] == R.ListOf(TextList(repos)) &&
      "filter_attrs" in table && table["filter_attrs"] == R.ListOf(FilterTables(filters)) &&
      "tags" in table && table["tags"] == R.ListOf(TextList(tags)) &&
      "include_repo_from_config" in table && table["include_repo_from_config"] == R.Bool(withConfig)
  {
    SearchLiterals();
    FourEntries("repo_dirs", R.ListOf(TextList(repos)), "filter_attrs", R.ListOf(FilterTables(filters)),
      "tags", R.ListOf(TextList(tags)), "include_repo_from_config", R.Bool(withConfig));
  }

  lemma {:induction false} FourEntries(k1: string, v1: R.JVal, k2: string, v2: R.JVal, k3: string, v3: R.JVal, k4: string, v4: R.JVal)
    requires k1 != k2 && k1 != k3 && k1 != k4 && k2 != k3 && k2 != k4 && k3 != k4
    ensures var table := map[k1 := v1, k2 := v2, k3 := v3, k4 := v4];
      k1 in table && table[k1] == v1 && k2 in table && table[k2] == v2 && k3 in table && table[k3] == v3 && k4 in table && table[k4] == v4
  {
  }

  lemma {:induction false} SearchOnlyWire(repos: seq<string>, filters: seq<Filter>, tags: seq<string>, withConfig: bool)
    requires WireTable(SearchTable(repos, filters, tags, withConfig)) && forall f :: f in filters ==> f.matchmode == 0 || f.matchmode == 1
    ensures WireStrings(repos) && WireStrings(tags) && FiltersOnWire(filters)
  {
    hide WireStrings, FiltersOnWire, WireString, WireValue, R.ListOf, SearchTable;
    SearchEntries(repos, filters, tags, withConfig);
    var table := SearchTable(repos, filters, tags, withConfig);
    assert WireValue(table["repo_dirs"]) && WireValue(table["filter_attrs"]) && WireValue(table["tags"]);
    ListOnlyWire(repos);
    FiltersOnlyWire(filters);
    ListOnlyWire(tags);
  }

  lemma {:induction false} SearchReads(repos: seq<string>, filters: seq<Filter>, tags: seq<string>, withConfig: bool)
    requires WireStrings(repos) && WireStrings(tags) && FiltersOnWire(filters)
    ensures var v := SearchValue(repos, filters, tags, withConfig);
      v.Obj? && Good(v) && Readable(v) && Overshoot(v) == 0 && Size(v) == 9 + |repos| + 7 * |filters| + |tags| &&
      MembersMeaning(v.members, map[]) == SearchTable(repos, filters, tags, withConfig)
  {
    hide WireStrings, FiltersOnWire, WireString;
    var r, f, t, b := ArrayOf(Strs(repos)), ArrayOf(FilterValues(filters)), ArrayOf(Strs(tags)), Prim(BoolText(withConfig));
    StringArray(repos);
    FilterArray(filters);
    StringArray(tags);
    BoolReads(withConfig);
    assert ValueReads(r) && ValueReads(f) && ValueReads(t) && ValueReads(b);
    assert Size(b) == 1 && Meaning(b) == R.Bool(withConfig);
    SearchLiterals();
    hide ValueReads, ArrayOf, BoolText, Good, Readable, Overshoot, MembersMeaning, Size;
    FourReads("repo_dirs", r, "filter_attrs", f, "tags", t, "include_repo_from_config", b, GAP);
    FourMeans("repo_dirs", r, "filter_attrs", f, "tags", t, "include_repo_from_config", b, GAP);
  }

  // ---------------------------------------------------------------- the server's side of search

  // What the server needs of a filter table: it follows the pointers to the attribute and the match mode unchecked.
  predicate IsFilterTable(v: R.JVal) {
    v.Table? && "attribute" in v.table && v.table["attribute"].Text? &&
    "matchmode" in v.table && v.table["matchmode"].Long? &&
    ("value" in v.table ==> v.table["value"].Text? || v.table["value"].Null?)
  }

  function FilterFrom(v: R.JVal): Filter
    requires IsFilterTable(v)
  {
    Filter(v.table["attribute"].s,
      if "value" in v.table && v.table["value"].Text? then Some(v.table["value"].s) else None,
      v.table["matchmode"].n)
  }

  function FiltersFrom(list: seq<R.JVal>): (r: seq<Filter>)
    requires forall v :: v in list ==> IsFilterTable(v)
    ensures |r| == |list| && forall i :: 0 <= i < |list| ==> r[i] == FilterFrom(list[i])
  {
    if list == [] then [] else [FilterFrom(list[0])] + FiltersFrom(list[1..])
  }

  // The loop of handle_search over the filter list.
  method RebuildFilters(list: seq<R.JVal>) returns (attributes: seq<Filter>)
    requires forall v :: v in list ==> IsFilterTable(v)
    ensures attributes == FiltersFrom(list)
  {
    attributes := [];
    for i := 0 to |list|
      invariant |attributes| == i && forall j :: 0 <= j < i ==> attributes[j] == FilterFrom(list[j])
    {
      attributes := attributes + [FilterFrom(list[i])];
    }
  }

  function ItemsIn(v: R.JVal): seq<R.JVal> {
    if v.List? then v.items else []
  }

  /** What the server searches for is what the client asked for exactly when every filter has a value: a filter on the
      presence of an attribute arrives as a filter for the value "(null)". */
  lemma {:induction false} FiltersArrive(filters: seq<Filter>)
    ensures var list := ItemsIn(R.ListOf(FilterTables(filters)));
      (forall v :: v in list ==> IsFilterTable(v)) &&
      |FiltersFrom(list)| == |filters| &&
      (forall i :: 0 <= i < |filters| ==> FiltersFrom(list)[i] == filters[i].(value := Some(Shown(filters[i].value)))) &&
      (FiltersFrom(list) == filters <==> forall f :: f in filters ==> f.value.Some?)
  {
    var list := ItemsIn(R.ListOf(FilterTables(filters)));
    assert list == FilterTables(filters);
    forall i | 0 <= i < |filters|
      ensures IsFilterTable(list[i]) && FilterFrom(list[i]) == filters[i].(value := Some(Shown(filters[i].value)))
    {
      FilterArrives(filters[i]);
    }
    assert forall v :: v in list ==> IsFilterTable(v);
    var got := FiltersFrom(list);
    if forall f :: f in filters ==> f.value.Some? {
      forall i | 0 <= i < |filters|
        ensures got[i] == filters[i]
      {
        assert filters[i] in filters;
      }
    } else {
      var f :| f in filters && f.value.None?;
      var i :| 0 <= i < |filters| && filters[i] == f;
      assert got[i] != filters[i];
    }
  }

  lemma {:induction false} FilterArrives(f: Filter)
    ensures IsFilterTable(FilterTable(f)) && FilterFrom(FilterTable(f)) == f.(value := Some(Shown(f.value)))
  {
    FilterLiterals();
  }
}
