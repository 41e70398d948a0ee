/** JSON values with their layout (RFC 8259, section 2), their text, and the tokens that text has. */
module JsonText {
  import opened JsmnSpec
  import JsmnInvariant

  /** `pad` is the blank space after an opening bracket; `before` and `after` surround a colon; `sep` follows a
      value: blanks and commas. The grammar is wider than RFC 8259: the comma after a closing bracket is optional,
      as in the messages of src/json/jsonrpc_api.c. */
  datatype Value =
    | Str(body: string)
    | Prim(text: string)
    | Arr(pad: string, items: Items)
    | Obj(pad: string, members: Members)

  datatype Items = NoItem | Item(val: Value, sep: string, rest: Items)

  datatype Members = NoMember | Member(key: string, before: string, after: string, val: Value, sep: string, rest: Members)

  function Text(v: Value): string {
    match v
    case Str(body) => "\"" + body + "\""
    case Prim(text) => text
    case Arr(pad, items) => "[" + pad + ItemsText(items) + "]"
    case Obj(pad, members) => "{" + pad + MembersText(members) + "}"
  }

  function ItemsText(items: Items): string {
    match items
    case NoItem => ""
    case Item(val, sep, rest) => Text(val) + sep + ItemsText(rest)
  }

  function MemberHead(key: string, before: string, after: string): string {
    "\"" + key + "\"" + before + ":" + after
  }

  function MembersText(members: Members): string {
    match members
    case NoMember => ""
    case Member(key, before, after, val, sep, rest) =>
      MemberHead(key, before, after) + Text(val) + sep + MembersText(rest)
  }

  predicate Blank(s: string) {
    forall i :: 0 <= i < |s| ==> IsBlank(s[i])
  }

  predicate Separator(s: string) {
    forall i :: 0 <= i < |s| ==> IsBlank(s[i]) || s[i] == ','
  }

  predicate IsPrimitiveText(s: string) {
    s != "" && s[0] != '{' && s[0] != '[' && s[0] != '"' &&
    forall i :: 0 <= i < |s| ==> IsPlain(s[i]) && !IsDelimiter(s[i])
  }

  predicate Scalar(v: Value) {
    v.Str? || v.Prim?
  }

  predicate Good(v: Value) {
    match v
    case Str(body) => JsmnInvariant.IsBody(body)
    case Prim(text) => IsPrimitiveText(text)
    case Arr(pad, items) => Blank(pad) && GoodItems(items)
    case Obj(pad, members) => Blank(pad) && GoodMembers(members)
  }

  predicate GoodItems(items: Items) {
    match items
    case NoItem => true
    case Item(val, sep, rest) =>
      Good(val) && Separator(sep) && (val.Prim? && rest.Item? ==> sep != "") && GoodItems(rest)
  }

  predicate GoodMembers(members: Members) {
    match members
    case NoMember => true
    case Member(key, before, after, val, sep, rest) =>
      JsmnInvariant.IsBody(key) && Blank(before) && Blank(after) && Good(val) && Separator(sep) &&
      (Scalar(val) && rest.Member? ==> ',' in sep) && GoodMembers(rest)
  }

  function ItemCount(items: Items): nat {
    match items
    case NoItem => 0
    case Item(_, _, rest) => 1 + ItemCount(rest)
  }

  function MemberCount(members: Members): nat {
    match members
    case NoMember => 0
    case Member(_, _, _, _, _, rest) => 1 + MemberCount(rest)
  }

  /** The tokens of a value whose text starts at `at`: its nodes in pre-order, each with its span in the text and
      its number of children, a key having its value as only child. */
  function Tokens(v: Value, at: nat): seq<Token> {
    match v
    case Str(body) => [Token(String, at + 1, at + 1 + |body|, 0)]
    case Prim(text) => [Token(Primitive, at, at + |text|, 0)]
    case Arr(pad, items) => [Token(Array, at, at + |Text(v)|, ItemCount(items))] + ItemsTokens(items, at + 1 + |pad|)
    case Obj(pad, members) => [Token(Object, at, at + |Text(v)|, MemberCount(members))] + MembersTokens(members, at + 1 + |pad|)
  }

  function ItemsTokens(items: Items, at: nat): seq<Token> {
    match items
    case NoItem => []
    case Item(val, sep, rest) => Tokens(val, at) + ItemsTokens(rest, at + |Text(val)| + |sep|)
  }

  function MembersTokens(members: Members, at: nat): seq<Token> {
    match members
    case NoMember => []
    case Member(key, before, after, val, sep, rest) =>
      var valAt := at + |MemberHead(key, before, after)|;
      [Token(String, at + 1, at + 1 + |key|, 1)] + Tokens(val, valAt) + MembersTokens(rest, valAt + |Text(val)| + |sep|)
  }

  // How many tokens a value has: one for each scalar, container and key.
  function Size(v: Value): nat {
    match v
    case Str(_) => 1
    case Prim(_) => 1
    case Arr(_, items) => 1 + ItemsSize(items)
    case Obj(_, members) => 1 + MembersSize(members)
  }

  function ItemsSize(items: Items): nat {
    match items
    case NoItem => 0
    case Item(val, _, rest) => Size(val) + ItemsSize(rest)
  }

  function MembersSize(members: Members): nat {
    match members
    case NoMember => 0
    case Member(_, _, _, val, _, rest) => 1 + Size(val) + MembersSize(rest)
  }

  lemma {:induction false} TokensSize(v: Value, at: nat)
    ensures |Tokens(v, at)| == Size(v)
    decreases v
  {
    match v
    case Str(_) =>
    case Prim(_) =>
    case Arr(pad, items) => ItemsTokensSize(items, at + 1 + |pad|);
    case Obj(pad, members) => MembersTokensSize(members, at + 1 + |pad|);
  }

  lemma {:induction false} ItemsTokensSize(items: Items, at: nat)
    ensures |ItemsTokens(items, at)| == ItemsSize(items)
    decreases items
  {
    match items
    case NoItem =>
    case Item(val, sep, rest) => TokensSize(val, at); ItemsTokensSize(rest, at + |Text(val)| + |sep|);
  }

  lemma {:induction false} MembersTokensSize(members: Members, at: nat)
    ensures |MembersTokens(members, at)| == MembersSize(members)
    decreases members
  {
    match members
    case NoMember =>
    case Member(key, before, after, val, sep, rest) =>
      var valAt := at + |MemberHead(key, before, after)|;
      TokensSize(val, valAt);
      MembersTokensSize(rest, valAt + |Text(val)| + |sep|);
  }

  // The sequence x stands at position p of s.
  predicate At<T(==)>(s: seq<T>, p: nat, x: seq<T>) {
    p + |x| <= |s| && s[p..p + |x|] == x
  }

  lemma AtSplit<T>(s: seq<T>, p: nat, x: seq<T>, y: seq<T>)
    requires At(s, p, x + y)
    ensures At(s, p, x) && At(s, p + |x|, y)
  {
    assert s[p..p + |x| + |y|] == x + y;
    assert s[p..p + |x|] == (x + y)[..|x|];
    assert s[p + |x|..p + |x| + |y|] == (x + y)[|x|..];
  }
}
