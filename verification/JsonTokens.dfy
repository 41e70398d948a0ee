/** The tokenizer is right on JSON: the text of every value yields exactly the tokens of that value. */
module JsonTokens {
  import opened Options
  import opened JsmnSpec
  import opened JsonText
  import JsmnInvariant

  predicate AllClosed(toks: seq<Token>) {
    forall i :: 0 <= i < |toks| ==> !toks[i].IsOpen()
  }

  lemma {:induction false} LastOpenIgnoresClosed(toks: seq<Token>, more: seq<Token>)
    requires AllClosed(more)
    ensures LastOpen(toks + more) == LastOpen(toks)
  {
    if more == [] {
      assert toks + more == toks;
    } else {
      assert (toks + more)[..|toks + more| - 1] == toks + more[..|more| - 1];
      LastOpenIgnoresClosed(toks, more[..|more| - 1]);
    }
  }

  lemma {:induction false} LastOpenEnd(toks: seq<Token>, tok: Token)
    requires tok.IsOpen()
    ensures LastOpen(toks + [tok]) == |toks|
  {
  }

  lemma {:induction false} TokensClosed(v: Value, at: nat)
    ensures AllClosed(Tokens(v, at))
    decreases v
  {
    match v
    case Str(_) =>
    case Prim(_) =>
    case Arr(pad, items) => ItemsTokensClosed(items, at + 1 + |pad|);
    case Obj(pad, members) => MembersTokensClosed(members, at + 1 + |pad|);
  }

  lemma {:induction false} ItemsTokensClosed(items: Items, at: nat)
    ensures AllClosed(ItemsTokens(items, at))
    decreases items
  {
    match items
    case NoItem =>
    case Item(val, sep, rest) => TokensClosed(val, at); ItemsTokensClosed(rest, at + |Text(val)| + |sep|);
  }

  lemma {:induction false} MembersTokensClosed(members: Members, at: nat)
    ensures AllClosed(MembersTokens(members, at))
    decreases members
  {
    match members
    case NoMember =>
    case Member(key, before, after, val, sep, rest) =>
      var valAt := at + |MemberHead(key, before, after)|;
      TokensClosed(val, valAt);
      MembersTokensClosed(rest, valAt + |Text(val)| + |sep|);
  }

  // How many characters of a string body one turn of the scan reads.
  function BodyStep(body: string): nat
    requires body != "" && JsmnInvariant.IsBody(body)
  {
    if body[0] != '\\' then 1 else if IsSimpleEscape(body[1]) then 2 else 6
  }

  lemma {:induction false} ScanBodyStep(js: string, p: nat, body: string)
    requires body != "" && JsmnInvariant.IsBody(body) && At(js, p, body + "\"")
    ensures ScanString(js, p) == ScanString(js, p + BodyStep(body))
  {
    hide ScanHex;
    assert forall i :: 0 <= i <= |body| ==> js[p + i] == js[p..p + |body| + 1][i] == (body + "\"")[i];
    if BodyStep(body) == 6 {
      ScanFourHex(js, p + 2);
    }
  }

  lemma {:induction false} ScanBody(js: string, p: nat, body: string)
    requires JsmnInvariant.IsBody(body) && At(js, p, body + "\"")
    ensures ScanString(js, p) == Closed(p + |body|)
    decreases |body|
  {
    if body == "" {
      assert js[p] == js[p..p + 1][0] == '"';
    } else {
      var n := BodyStep(body);
      ScanBodyStep(js, p, body);
      assert body + "\"" == body[..n] + (body[n..] + "\"");
      AtSplit(js, p, body[..n], body[n..] + "\"");
      ScanBody(js, p + n, body[n..]);
    }
  }

  lemma {:induction false} ScanFourHex(js: string, p: nat)
    requires p + 4 <= |js| && IsHex(js[p]) && IsHex(js[p + 1]) && IsHex(js[p + 2]) && IsHex(js[p + 3])
    ensures ScanHex(js, p, 4) == Some(p + 4)
  {
    assert ScanHex(js, p, 4) == ScanHex(js, p + 2, 2) == ScanHex(js, p + 4, 0);
  }

  lemma {:induction false} ScanText(js: string, p: nat, end: nat)
    requires p <= end <= |js|
    requires forall i :: p <= i < end ==> IsPlain(js[i]) && !IsDelimiter(js[i])
    requires end == |js| || js[end] == '\0' || IsDelimiter(js[end])
    ensures ScanPrimitive(js, p) == Some(end)
    decreases end - p
  {
    if p < end {
      ScanText(js, p + 1, end);
    }
  }

  lemma {:induction false} RunStep(js: string, st: State, cap: nat, next: State)
    requires st.Ok() && next.Ok() && !AtEnd(js, st) && Step(js, st, cap) == Next(next)
    ensures Run(js, st, cap) == Run(js, next, cap)
  {
  }

  lemma {:induction false} SeparatorStep(js: string, st: State, cap: nat)
    requires st.Ok() && st.pos < |js| && (IsBlank(js[st.pos]) || js[st.pos] == ',')
    ensures !AtEnd(js, st) && Step(js, st, cap) ==
      Next(State(st.pos + 1, st.toks, if js[st.pos] == ',' then CommaSuper(st.toks, st.super) else st.super))
  {
    hide LastOpen, Close, CommaSuper, Alloc, ScanString, ScanPrimitive;
  }

  // A second comma changes nothing.
  lemma {:induction false} CommaTwice(toks: seq<Token>, super: int)
    requires -1 <= super < |toks|
    ensures CommaSuper(toks, CommaSuper(toks, super)) == CommaSuper(toks, super)
  {
  }

  // Blanks and commas only move the position and, with a comma, the superior token.
  lemma {:induction false} RunSeparator(js: string, st: State, cap: nat, s: string)
    requires st.Ok() && At(js, st.pos, s) && Separator(s)
    ensures Run(js, st, cap) ==
      Run(js, State(st.pos + |s|, st.toks, if ',' in s then CommaSuper(st.toks, st.super) else st.super), cap)
    decreases |s|
  {
    hide Run, Step, CommaSuper;
    if s == "" {
      assert st == State(st.pos + |s|, st.toks, st.super);
    } else {
      assert js[st.pos] == js[st.pos..st.pos + |s|][0] == s[0];
      assert js[st.pos + 1..st.pos + |s|] == s[1..];
      SeparatorStep(js, st, cap);
      CommaTwice(st.toks, st.super);
      var st' := Step(js, st, cap).st;
      RunStep(js, st, cap, st');
      RunSeparator(js, st', cap, s[1..]);
      assert s == [s[0]] + s[1..];
      assert ',' in s <==> s[0] == ',' || ',' in s[1..];
    }
  }

  ghost predicate EndsPrimitive(js: string, p: nat) {
    p >= |js| || js[p] == '\0' || IsDelimiter(js[p])
  }

  function SuperAfter(v: Value, st: State): int {
    if Scalar(v) then st.super else LastOpen(st.toks)
  }

  // The state once the text of v has been read from st.
  function After(v: Value, st: State): (r: State)
    requires st.Ok()
    ensures r.Ok()
  {
    State(st.pos + |Text(v)|, Bump(st.toks, st.super) + Tokens(v, st.pos), SuperAfter(v, st))
  }

  lemma {:induction false} StringStep(js: string, st: State, cap: nat, body: string)
    requires JsmnInvariant.IsBody(body) && st.Ok() && At(js, st.pos, Text(Str(body))) && |st.toks| < cap
    ensures !AtEnd(js, st) && Step(js, st, cap) == Next(After(Str(body), st))
  {
    hide LastOpen, Close, CommaSuper;
    assert Text(Str(body)) == "\"" + (body + "\"");
    AtSplit(js, st.pos, "\"", body + "\"");
    assert js[st.pos] == js[st.pos..st.pos + 1][0] == '"';
    ScanBody(js, st.pos + 1, body);
  }

  lemma {:induction false} PrimitiveStep(js: string, st: State, cap: nat, text: string)
    requires IsPrimitiveText(text) && st.Ok() && At(js, st.pos, text) && |st.toks| < cap
    requires EndsPrimitive(js, st.pos + |text|)
    ensures !AtEnd(js, st) && Step(js, st, cap) == Next(After(Prim(text), st))
  {
    hide LastOpen, Close, CommaSuper;
    assert forall i :: st.pos <= i < st.pos + |text| ==> js[i] == js[st.pos..st.pos + |text|][i - st.pos] == text[i - st.pos];
    ScanText(js, st.pos, st.pos + |text|);
  }

  lemma {:induction false} RunScalar(js: string, st: State, cap: nat, v: Value)
    requires Scalar(v) && Good(v) && st.Ok() && At(js, st.pos, Text(v)) && |st.toks| + Size(v) <= cap
    requires v.Prim? ==> EndsPrimitive(js, st.pos + |v.text|)
    ensures Run(js, st, cap) == Run(js, After(v, st), cap)
  {
    hide Run, Step;
    if v.Str? {
      StringStep(js, st, cap, v.body);
    } else {
      PrimitiveStep(js, st, cap, v.text);
    }
    RunStep(js, st, cap, After(v, st));
  }

  lemma {:induction false} CloseStep(st: State, base: seq<Token>, tok: Token, inner: seq<Token>)
    requires st.Ok() && st.toks == base + [tok] + inner && tok.IsOpen() && AllClosed(inner)
    ensures Close(st, tok.kind) == Next(State(st.pos + 1, base + [tok.(end := st.pos + 1)] + inner, LastOpen(base)))
  {
    LastOpenIgnoresClosed(base + [tok], inner);
    var done := tok.(end := st.pos + 1);
    assert LastOpen(base + [tok]) == |base|;
    assert st.toks[|base| := done] == base + [done] + inner;
    assert base + [done] + inner == base + ([done] + inner);
    LastOpenIgnoresClosed(base, [done] + inner);
  }

  lemma {:induction false} RunClose(js: string, st: State, cap: nat, base: seq<Token>, tok: Token, inner: seq<Token>)
    requires st.Ok() && st.toks == base + [tok] + inner && tok.IsOpen() && AllClosed(inner)
    requires (At(js, st.pos, "}") && tok.kind == Object) || (At(js, st.pos, "]") && tok.kind == Array)
    ensures Run(js, st, cap) == Run(js, State(st.pos + 1, base + [tok.(end := st.pos + 1)] + inner, LastOpen(base)), cap)
  {
    hide LastOpen, Close, CommaSuper, ScanString, ScanPrimitive, Alloc, Run;
    assert js[st.pos] == js[st.pos..st.pos + 1][0];
    CloseStep(st, base, tok, inner);
    RunStep(js, st, cap, State(st.pos + 1, base + [tok.(end := st.pos + 1)] + inner, LastOpen(base)));
  }

  lemma {:induction false} RunValue(js: string, st: State, cap: nat, v: Value)
    requires Good(v) && st.Ok() && At(js, st.pos, Text(v)) && |st.toks| + Size(v) <= cap
    requires v.Prim? ==> EndsPrimitive(js, st.pos + |v.text|)
    ensures Run(js, st, cap) == Run(js, After(v, st), cap)
    decreases v, 1
  {
    if Scalar(v) {
      RunScalar(js, st, cap, v);
    } else {
      RunContainer(js, st, cap, v);
    }
  }

  lemma {:induction false} OpenStep(js: string, st: State, cap: nat, tok: Token)
    requires st.Ok() && !AtEnd(js, st) && |st.toks| < cap
    requires (js[st.pos] == '{' && tok.kind == Object) || (js[st.pos] == '[' && tok.kind == Array)
    requires tok.start == st.pos && tok.end == -1 && tok.size == 0
    ensures Step(js, st, cap) == Next(State(st.pos + 1, Bump(st.toks, st.super) + [tok], |st.toks|))
  {
    hide LastOpen, Close, CommaSuper, ScanString, ScanPrimitive, Bump;
  }

  function Inside(v: Value): string
    requires !Scalar(v)
  {
    if v.Obj? then MembersText(v.members) + "}" else ItemsText(v.items) + "]"
  }

  lemma {:induction false} ContainerText(js: string, p: nat, v: Value)
    requires !Scalar(v) && At(js, p, Text(v))
    ensures |Text(v)| == 1 + |v.pad| + |Inside(v)|
    ensures p < |js| && js[p] == (if v.Obj? then '{' else '[') && At(js, p + 1, v.pad) && At(js, p + 1 + |v.pad|, Inside(v))
  {
    var open := if v.Obj? then "{" else "[";
    assert Text(v) == open + (v.pad + Inside(v));
    AtSplit(js, p, open, v.pad + Inside(v));
    AtSplit(js, p + 1, v.pad, Inside(v));
    assert js[p] == js[p..p + 1][0] == open[0];
  }

  lemma {:induction false} OpenContainer(js: string, st: State, cap: nat, v: Value)
    requires !Scalar(v) && Blank(v.pad) && st.Ok() && At(js, st.pos, Text(v)) && |st.toks| < cap
    ensures var tok := Token(if v.Obj? then Object else Array, st.pos, -1, 0);
      Run(js, st, cap) == Run(js, State(st.pos + 1 + |v.pad|, Bump(st.toks, st.super) + [tok] + [], |st.toks|), cap)
  {
    hide Run, Step, LastOpen, Bump, Text, CommaSuper;
    var base := Bump(st.toks, st.super);
    ContainerText(js, st.pos, v);
    var tok := Token(if v.Obj? then Object else Array, st.pos, -1, 0);
    var st1 := State(st.pos + 1, base + [tok], |base|);
    OpenStep(js, st, cap, tok);
    RunStep(js, st, cap, st1);
    RunSeparator(js, st1, cap, v.pad);
    assert ',' !in v.pad;
    assert base + [tok] == base + [tok] + [];
  }

  lemma {:induction false} RunContainer(js: string, st: State, cap: nat, v: Value)
    requires !Scalar(v) && Good(v) && st.Ok() && At(js, st.pos, Text(v)) && |st.toks| + Size(v) <= cap
    ensures Run(js, st, cap) == Run(js, After(v, st), cap)
    decreases v, 0
  {
    hide Run, LastOpen, Bump, Text, Tokens, After;
    var base := Bump(st.toks, st.super);
    ContainerText(js, st.pos, v);
    OpenContainer(js, st, cap, v);
    BumpKeepsLastOpen(st.toks, st.super);
    AfterContainer(v, st);
    var tok := Token(if v.Obj? then Object else Array, st.pos, -1, 0);
    var at := st.pos + 1 + |v.pad|;
    match v {
      case Arr(pad, items) => RunItems(js, cap, base, tok, [], at, items);
      case Obj(pad, members) => RunMembers(js, cap, base, tok, [], at, members, |base|);
    }
  }

  lemma {:induction false} AfterContainer(v: Value, st: State)
    requires !Scalar(v) && st.Ok()
    ensures var at := st.pos + 1 + |v.pad|;
      var end := at + |Inside(v)|;
      var count := if v.Obj? then MemberCount(v.members) else ItemCount(v.items);
      var more := if v.Obj? then MembersTokens(v.members, at) else ItemsTokens(v.items, at);
      After(v, st) == State(end,
        Bump(st.toks, st.super) + [Token(if v.Obj? then Object else Array, st.pos, end, count)] + [] + more, LastOpen(st.toks))
  {
    hide LastOpen, Bump, ItemsText, MembersText, ItemsTokens, MembersTokens;
    var at := st.pos + 1 + |v.pad|;
    var end := at + |Inside(v)|;
    match v {
      case Arr(pad, items) => ConsTokens(Bump(st.toks, st.super), Token(Array, st.pos, end, ItemCount(items)), ItemsTokens(items, at));
      case Obj(pad, members) => ConsTokens(Bump(st.toks, st.super), Token(Object, st.pos, end, MemberCount(members)), MembersTokens(members, at));
    }
  }

  lemma {:induction false} ConsTokens(base: seq<Token>, tok: Token, more: seq<Token>)
    ensures base + [tok] + [] + more == base + ([tok] + more)
  {
  }

  lemma {:induction false} SameOpen(a: seq<Token>, b: seq<Token>)
    requires |a| == |b| && forall i :: 0 <= i < |a| ==> a[i].IsOpen() == b[i].IsOpen()
    ensures LastOpen(a) == LastOpen(b)
  {
    if a != [] {
      SameOpen(a[..|a| - 1], b[..|b| - 1]);
    }
  }

  lemma {:induction false} BumpKeepsLastOpen(toks: seq<Token>, super: int)
    requires -1 <= super < |toks|
    ensures LastOpen(Bump(toks, super)) == LastOpen(toks)
  {
    SameOpen(Bump(toks, super), toks);
  }

  // Sequences of tokens are grouped differently at the two ends of an induction step.
  lemma {:induction false} Regroup(base: seq<Token>, tok: Token, inner: seq<Token>, x: seq<Token>, y: seq<Token>)
    ensures base + [tok] + (inner + x) + y == base + [tok] + inner + (x + y)
  {
  }

  lemma {:induction false} BumpMiddle(base: seq<Token>, tok: Token, inner: seq<Token>, x: seq<Token>)
    ensures Bump(base + [tok] + inner, |base|) + x == base + [tok.(size := tok.size + 1)] + (inner + x)
  {
  }

  // One item of an array with the separator behind it.
  lemma {:induction false} RunItem(js: string, cap: nat, base: seq<Token>, tok: Token, inner: seq<Token>, at: nat, val: Value, sep: string, tail: string)
    requires Good(val) && Separator(sep) && At(js, at, Text(val) + (sep + tail))
    requires val.Prim? ==> sep + tail != "" && (sep != "" || IsDelimiter(tail[0]))
    requires tok.kind == Array && tok.IsOpen() && AllClosed(inner) && |base| + 1 + |inner| + Size(val) <= cap
    ensures var at1 := at + |Text(val)| + |sep|;
      At(js, at1, tail) && AllClosed(inner + Tokens(val, at)) && |Tokens(val, at)| == Size(val) &&
      Run(js, State(at, base + [tok] + inner, |base|), cap) ==
      Run(js, State(at1, base + [tok.(size := tok.size + 1)] + (inner + Tokens(val, at)), |base|), cap)
    decreases val, 2
  {
    hide Run, LastOpen, Good, Text, Tokens, Bump;
    var st := State(at, base + [tok] + inner, |base|);
    AtSplit(js, at, Text(val), sep + tail);
    AtSplit(js, at + |Text(val)|, sep, tail);
    if val.Prim? {
      PrimText(val);
      var p := at + |Text(val)|;
      assert js[p] == js[p..p + |sep + tail|][0] == (sep + tail)[0];
    }
    RunValue(js, st, cap, val);
    LastOpenIgnoresClosed(base + [tok], inner);
    LastOpenEnd(base, tok);
    BumpMiddle(base, tok, inner, Tokens(val, at));
    var st1 := After(val, st);
    RunSeparator(js, st1, cap, sep);
    assert st1.toks[|base|] == tok.(size := tok.size + 1);
    TokensClosed(val, at);
    TokensSize(val, at);
  }

  lemma {:induction false} PrimText(v: Value)
    requires v.Prim?
    ensures Text(v) == v.text
  {
  }

  // From inside an open array to behind its closing bracket.
  lemma {:induction false} RunItems(js: string, cap: nat, base: seq<Token>, tok: Token, inner: seq<Token>, at: nat, items: Items)
    requires GoodItems(items) && At(js, at, ItemsText(items) + "]")
    requires tok.kind == Array && tok.IsOpen() && AllClosed(inner)
    requires |base| + 1 + |inner| + ItemsSize(items) <= cap
    ensures var end := at + |ItemsText(items)| + 1;
      Run(js, State(at, base + [tok] + inner, |base|), cap) ==
      Run(js, State(end, base + [tok.(end := end, size := tok.size + ItemCount(items))] + inner + ItemsTokens(items, at), LastOpen(base)), cap)
    decreases items, 0
  {
    hide Run, LastOpen, Good, Text, Tokens;
    match items
    case NoItem =>
      RunClose(js, State(at, base + [tok] + inner, |base|), cap, base, tok, inner);
      assert base + [tok.(end := at + 1)] + inner == base + [tok.(end := at + 1)] + inner + [];
    case Item(val, sep, rest) =>
      var tail := ItemsText(rest) + "]";
      assert ItemsText(items) + "]" == Text(val) + (sep + tail);
      RunItem(js, cap, base, tok, inner, at, val, sep, tail);
      var at1 := at + |Text(val)| + |sep|;
      var end := at + |ItemsText(items)| + 1;
      RunItems(js, cap, base, tok.(size := tok.size + 1), inner + Tokens(val, at), at1, rest);
      Regroup(base, tok.(end := end, size := tok.size + ItemCount(items)), inner, Tokens(val, at), ItemsTokens(rest, at1));
  }

  // A key and its value: the key is the superior token while the value is read.
  lemma {:induction false} RunKeyed(js: string, cap: nat, base: seq<Token>, tok: Token, inner: seq<Token>, at: nat, m: Members, tail: string)
    requires m.Member? && GoodMembers(m)
    requires At(js, at, MemberHead(m.key, m.before, m.after) + (Text(m.val) + tail))
    requires m.val.Prim? ==> tail != "" && IsDelimiter(tail[0])
    requires tok.IsOpen() && AllClosed(inner) && |base| + 1 + |inner| + 1 + Size(m.val) <= cap
    ensures var valAt := at + |MemberHead(m.key, m.before, m.after)|;
      At(js, valAt + |Text(m.val)|, tail) && |Tokens(m.val, valAt)| == Size(m.val) &&
      AllClosed(inner + ([Token(String, at + 1, at + 1 + |m.key|, 1)] + Tokens(m.val, valAt))) &&
      Run(js, State(at, base + [tok] + inner, |base|), cap) ==
      Run(js, State(valAt + |Text(m.val)|,
        base + [tok.(size := tok.size + 1)] + (inner + ([Token(String, at + 1, at + 1 + |m.key|, 1)] + Tokens(m.val, valAt))),
        if Scalar(m.val) then |base| + 1 + |inner| else |base|), cap)
    decreases m.val, 2
  {
    hide Run, LastOpen, Good, Text, Tokens, Bump, MemberHead;
    var head := MemberHead(m.key, m.before, m.after);
    var valAt := at + |head|;
    AtSplit(js, at, head, Text(m.val) + tail);
    AtSplit(js, valAt, Text(m.val), tail);
    var tok1 := tok.(size := tok.size + 1);
    var keyTok := Token(String, at + 1, at + 1 + |m.key|, 0);
    RunHead(js, cap, base, tok, inner, at, m.key, m.before, m.after);
    var front := base + [tok1] + inner;
    var st2 := State(valAt, front + [keyTok] + [], |front|);
    assert front + [keyTok] + [] == front + [keyTok];
    if m.val.Prim? {
      PrimText(m.val);
      var p := valAt + |Text(m.val)|;
      assert js[p] == js[p..p + |tail|][0] == tail[0];
    }
    RunValue(js, st2, cap, m.val);
    BumpMiddle(front, keyTok, [], Tokens(m.val, valAt));
    TokensClosed(m.val, valAt);
    TokensSize(m.val, valAt);
    KeyRegroup(base, tok1, inner, keyTok, Tokens(m.val, valAt));
    LastOpenIgnoresClosed(base + [tok1], inner + [keyTok]);
    LastOpenEnd(base, tok1);
  }

  lemma {:induction false} KeyRegroup(base: seq<Token>, tok: Token, inner: seq<Token>, key: Token, val: seq<Token>)
    ensures base + [tok] + inner + [key] + [] == base + [tok] + (inner + [key])
    ensures base + [tok] + inner + [key.(size := key.size + 1)] + ([] + val) ==
      base + [tok] + (inner + ([key.(size := key.size + 1)] + val))
  {
  }

  // The superior token behind a member: the object again, unless the member is a scalar without a comma.
  lemma {:induction false} MemberSeparator(js: string, cap: nat, base: seq<Token>, tok: Token, inner: seq<Token>, key: Token, val: seq<Token>, at: nat, scalar: bool, sep: string, tail: string)
    requires At(js, at, sep + tail) && Separator(sep)
    requires tok.kind == Object && tok.IsOpen() && key.kind == String && AllClosed(inner + ([key] + val))
    ensures At(js, at + |sep|, tail)
    ensures var toks := base + [tok] + (inner + ([key] + val));
      Run(js, State(at, toks, if scalar then |base| + 1 + |inner| else |base|), cap) ==
      Run(js, State(at + |sep|, toks, if scalar && ',' !in sep then |base| + 1 + |inner| else |base|), cap)
  {
    hide Run, LastOpen;
    AtSplit(js, at, sep, tail);
    var toks := base + [tok] + (inner + ([key] + val));
    LastOpenIgnoresClosed(base + [tok], inner + ([key] + val));
    LastOpenEnd(base, tok);
    assert toks[|base|] == tok;
    assert toks[|base| + 1 + |inner|] == key;
    RunSeparator(js, State(at, toks, if scalar then |base| + 1 + |inner| else |base|), cap, sep);
  }

  lemma {:induction false} MemberUnfold(m: Members, at: nat)
    requires m.Member?
    ensures var head := MemberHead(m.key, m.before, m.after);
      var valAt := at + |head|;
      MembersText(m) + "}" == head + (Text(m.val) + (m.sep + (MembersText(m.rest) + "}"))) &&
      |MembersText(m)| == |head| + |Text(m.val)| + |m.sep| + |MembersText(m.rest)| &&
      MembersTokens(m, at) == [Token(String, at + 1, at + 1 + |m.key|, 1)] + Tokens(m.val, valAt) +
        MembersTokens(m.rest, valAt + |Text(m.val)| + |m.sep|) &&
      (m.rest.NoMember? ==> MembersText(m.rest) == "") &&
      MembersSize(m) == 1 + Size(m.val) + MembersSize(m.rest) && MemberCount(m) == 1 + MemberCount(m.rest)
  {
    hide Text, MemberHead, Tokens;
    var head := MemberHead(m.key, m.before, m.after);
    assert MembersText(m) == head + Text(m.val) + m.sep + MembersText(m.rest);
  }

  // From inside an open object to behind its closing bracket.
  lemma {:induction false} RunMembers(js: string, cap: nat, base: seq<Token>, tok: Token, inner: seq<Token>, at: nat, members: Members, super: int)
    requires GoodMembers(members) && At(js, at, MembersText(members) + "}")
    requires tok.kind == Object && tok.IsOpen() && AllClosed(inner)
    requires |base| + 1 + |inner| + MembersSize(members) <= cap
    requires -1 <= super < |base| + 1 + |inner| && (members.Member? ==> super == |base|)
    ensures var end := at + |MembersText(members)| + 1;
      Run(js, State(at, base + [tok] + inner, super), cap) ==
      Run(js, State(end, base + [tok.(end := end, size := tok.size + MemberCount(members))] + inner + MembersTokens(members, at), LastOpen(base)), cap)
    decreases members, 1
  {
    hide *;
    if members.NoMember? {
      RunNoMember(js, cap, base, tok, inner, at, members, super);
    } else {
      RunMembersOn(js, cap, base, tok, inner, at, members);
    }
  }

  lemma {:induction false} RunNoMember(js: string, cap: nat, base: seq<Token>, tok: Token, inner: seq<Token>, at: nat, members: Members, super: int)
    requires members.NoMember? && At(js, at, MembersText(members) + "}")
    requires tok.kind == Object && tok.IsOpen() && AllClosed(inner)
    requires -1 <= super < |base| + 1 + |inner|
    ensures var end := at + |MembersText(members)| + 1;
      Run(js, State(at, base + [tok] + inner, super), cap) ==
      Run(js, State(end, base + [tok.(end := end, size := tok.size + MemberCount(members))] + inner + MembersTokens(members, at), LastOpen(base)), cap)
  {
    hide Run, LastOpen, AllClosed;
    assert MembersText(members) + "}" == "}";
    RunClose(js, State(at, base + [tok] + inner, super), cap, base, tok, inner);
    assert base + [tok.(end := at + 1)] + inner == base + [tok.(end := at + 1)] + inner + [];
  }

  lemma {:induction false} RunMembersOn(js: string, cap: nat, base: seq<Token>, tok: Token, inner: seq<Token>, at: nat, m: Members)
    requires m.Member? && GoodMembers(m) && At(js, at, MembersText(m) + "}")
    requires tok.kind == Object && tok.IsOpen() && AllClosed(inner)
    requires |base| + 1 + |inner| + MembersSize(m) <= cap
    ensures var end := at + |MembersText(m)| + 1;
      Run(js, State(at, base + [tok] + inner, |base|), cap) ==
      Run(js, State(end, base + [tok.(end := end, size := tok.size + MemberCount(m))] + inner + MembersTokens(m, at), LastOpen(base)), cap)
    decreases m, 0
  {
    hide Run, LastOpen, Good, Text, Tokens, MemberHead, Bump, CommaSuper, AllClosed, MembersText, MembersTokens, MembersSize, MemberCount;
    MemberUnfold(m, at);
    var tail := MembersText(m.rest) + "}";
    RunKeyed(js, cap, base, tok, inner, at, m, m.sep + tail);
    var valAt := at + |MemberHead(m.key, m.before, m.after)|;
    var at1 := valAt + |Text(m.val)| + |m.sep|;
    var end := at + |MembersText(m)| + 1;
    var keyTok := Token(String, at + 1, at + 1 + |m.key|, 1);
    var tok1 := tok.(size := tok.size + 1);
    var x := [keyTok] + Tokens(m.val, valAt);
    MemberSeparator(js, cap, base, tok1, inner, keyTok, Tokens(m.val, valAt), valAt + |Text(m.val)|, Scalar(m.val), m.sep, tail);
    var super1 := if Scalar(m.val) && ',' !in m.sep then |base| + 1 + |inner| else |base|;
    RunMembers(js, cap, base, tok1, inner + x, at1, m.rest, super1);
    Regroup(base, tok.(end := end, size := tok.size + MemberCount(m)), inner, x, MembersTokens(m.rest, at1));
  }

  lemma {:induction false} ColonStep(js: string, st: State, cap: nat)
    requires st.Ok() && At(js, st.pos, ":")
    ensures !AtEnd(js, st) && Step(js, st, cap) == Next(State(st.pos + 1, st.toks, |st.toks| - 1))
  {
    assert js[st.pos] == js[st.pos..st.pos + 1][0] == ':';
  }

  lemma {:induction false} HeadText(key: string, before: string, after: string)
    ensures MemberHead(key, before, after) == Text(Str(key)) + (before + (":" + after))
    ensures |Text(Str(key))| == |key| + 2
  {
  }

  // A key with its colon: the key becomes the superior token.
  lemma {:induction false} RunHead(js: string, cap: nat, base: seq<Token>, tok: Token, inner: seq<Token>, at: nat, key: string, before: string, after: string)
    requires JsmnInvariant.IsBody(key) && Blank(before) && Blank(after) && At(js, at, MemberHead(key, before, after))
    requires |base| + 1 + |inner| + 1 <= cap
    ensures Run(js, State(at, base + [tok] + inner, |base|), cap) ==
      Run(js, State(at + |MemberHead(key, before, after)|,
        base + [tok.(size := tok.size + 1)] + inner + [Token(String, at + 1, at + 1 + |key|, 0)], |base| + 1 + |inner|), cap)
  {
    hide Run, Step, LastOpen, CommaSuper;
    var quoted := Text(Str(key));
    HeadText(key, before, after);
    hide Text, MemberHead;
    AtSplit(js, at, quoted, before + (":" + after));
    AtSplit(js, at + |quoted|, before, ":" + after);
    AtSplit(js, at + |quoted| + |before|, ":", after);
    var st := State(at, base + [tok] + inner, |base|);
    RunScalar(js, st, cap, Str(key));
    var toks := base + [tok.(size := tok.size + 1)] + inner + [Token(String, at + 1, at + 1 + |key|, 0)];
    var st1 := After(Str(key), st);
    assert st1 == State(at + |quoted|, toks, |base|);
    RunSeparator(js, st1, cap, before);
    var p := at + |quoted| + |before|;
    ColonStep(js, State(p, toks, |base|), cap);
    RunStep(js, State(p, toks, |base|), cap, State(p + 1, toks, |toks| - 1));
    RunSeparator(js, State(p + 1, toks, |toks| - 1), cap, after);
  }

  /** Tokenizer correctness: the text of every value yields its nodes in pre-order with their exact spans and
      child counts, and the returned count is the number of nodes. */
  lemma {:induction false} TokenizeText(v: Value, cap: nat)
    requires Good(v) && Size(v) <= cap
    ensures Tokenize(Text(v), cap) == Result(Size(v), State(|Text(v)|, Tokens(v, 0), -1))
  {
    var js := Text(v);
    assert js[0..|js|] == js;
    RunValue(js, Start, cap, v);
    TokensClosed(v, 0);
    TokensSize(v, 0);
    LastOpenIgnoresClosed([], Tokens(v, 0));
    assert [] + Tokens(v, 0) == Tokens(v, 0);
  }
}
