/** What the tokenizer keeps on every text, well formed or not, and at every step. */
module JsmnInvariant {
  import opened Options
  import opened JsmnSpec

  // How often x occurs in s.
  function Count(s: seq<int>, x: int): (n: nat) {
    if s == [] then 0 else Count(s[..|s| - 1], x) + if s[|s| - 1] == x then 1 else 0
  }

  // The text of a string body as section 7 of RFC 8259 has it, control characters allowed.
  predicate IsBody(s: string) {
    if s == "" then true
    else if s[0] == '"' || s[0] == '\0' then false
    else if s[0] != '\\' then IsBody(s[1..])
    else if |s| == 1 then false
    else if IsSimpleEscape(s[1]) then IsBody(s[2..])
    else s[1] == 'u' && |s| >= 6 && IsHex(s[2]) && IsHex(s[3]) && IsHex(s[4]) && IsHex(s[5]) && IsBody(s[6..])
  }

  // What a token says about the text it was cut from.
  predicate Describes(js: string, t: Token) {
    match t.kind
    case Object => 0 <= t.start < |js| && js[t.start] == '{' && (t.end != -1 ==> 0 < t.end <= |js| && js[t.end - 1] == '}')
    case Array => 0 <= t.start < |js| && js[t.start] == '[' && (t.end != -1 ==> 0 < t.end <= |js| && js[t.end - 1] == ']')
    case String => 0 < t.start <= t.end < |js| && js[t.start - 1] == '"' && js[t.end] == '"' && IsBody(js[t.start..t.end])
    case Primitive => 0 <= t.start < t.end <= |js| && (forall i :: t.start <= i < t.end ==> IsPlain(js[i]) && !IsDelimiter(js[i]))
  }

  predicate TokenOk(js: string, t: Token, pos: nat) {
    Describes(js, t) && t.start < pos && (t.IsOpen() || t.start <= t.end <= pos) && (t.IsOpen() ==> t.IsContainer())
  }

  // Two tokens in array order: the second starts later and lies inside the first or after it.
  predicate NestedOrDisjoint(a: Token, b: Token) {
    a.start < b.start &&
    (a.IsOpen() || a.end <= b.start || (a.IsContainer() && !b.IsOpen() && b.end < a.end))
  }

  /** The parents that the variant with parent links would store: the superior token at allocation. */
  function ParentsAfter(js: string, st: State, par: seq<int>, cap: nat): (r: seq<int>)
    requires st.Ok()
    decreases |js| - st.pos
  {
    if AtEnd(js, st) then par
    else
      match Step(js, st, cap)
      case Fail(_) => par
      case Next(st') => ParentsAfter(js, st', if |st'.toks| > |st.toks| then par + [st.super] else par, cap)
  }

  predicate FirstChildNext(par: seq<int>, i: int) {
    i == |par| - 1 || (0 <= i < |par| - 1 && par[i + 1] == i)
  }

  ghost predicate Spans(js: string, st: State) {
    && (forall i :: 0 <= i < |st.toks| ==> TokenOk(js, st.toks[i], st.pos))
    && (forall i, j :: 0 <= i < j < |st.toks| ==> NestedOrDisjoint(st.toks[i], st.toks[j]))
  }

  ghost predicate Tree(st: State, par: seq<int>) {
    && |par| == |st.toks|
    && (forall i :: 0 <= i < |par| ==> -1 <= par[i] < i)
    && (forall i :: 0 <= i < |par| ==> st.toks[i].size == Count(par, i))
    && (forall i :: 0 <= i < |par| && st.toks[i].size >= 1 ==> i + 1 < |par| && par[i + 1] == i)
    && (forall i :: 0 <= i < |par| && st.toks[i].IsOpen() ==> FirstChildNext(par, i))
    && (st.super == -1 || FirstChildNext(par, st.super))
    && (|par| > 0 && st.toks[|par| - 1].IsOpen() ==> st.super == |par| - 1)
  }

  ghost predicate Forest(js: string, st: State, par: seq<int>) {
    st.Ok() && st.pos <= |js| && Spans(js, st) && Tree(st, par)
  }

  // The indices of the open tokens, outermost first.
  function Opens(toks: seq<Token>): seq<int> {
    if toks == [] then [] else Opens(toks[..|toks| - 1]) + if toks[|toks| - 1].IsOpen() then [|toks| - 1] else []
  }

  /** What a character does to a stack of brackets: n is the number a bracket that opens here gets. */
  function Pushed(c: char, n: nat, stack: seq<int>): seq<int> {
    if c == '{' || c == '[' then stack + [n]
    else if (c == '}' || c == ']') && stack != [] then stack[..|stack| - 1]
    else stack
  }

  /** The stack of brackets that a parser with an explicit stack would have after the run. */
  function StackAfter(js: string, st: State, stack: seq<int>, cap: nat): seq<int>
    requires st.Ok()
    decreases |js| - st.pos
  {
    if AtEnd(js, st) then stack
    else
      match Step(js, st, cap)
      case Fail(_) => stack
      case Next(st') => StackAfter(js, st', Pushed(js[st.pos], |st.toks|, stack), cap)
  }

  /** The whole invariant: spans, tree, and the open tokens are exactly the stack of brackets. */
  ghost predicate Inv(js: string, st: State, par: seq<int>, stack: seq<int>) {
    Forest(js, st, par) && Opens(st.toks) == stack
  }

  lemma {:induction false} ScanHexFinds(js: string, p: nat, n: nat)
    requires ScanHex(js, p, n).Some?
    ensures var q := ScanHex(js, p, n).value;
      (q == p + n || q >= |js| || js[q] == '\0') && forall i :: p <= i < q ==> i < |js| && IsHex(js[i])
    decreases n
  {
    if n != 0 && p < |js| && js[p] != '\0' {
      ScanHexFinds(js, p + 1, n - 1);
    }
  }

  lemma {:induction false} ScanStringBody(js: string, p: nat)
    requires ScanString(js, p).Closed?
    ensures IsBody(js[p..ScanString(js, p).at])
    decreases |js| - p
  {
    var at := ScanString(js, p).at;
    var body := js[p..at];
    if js[p] == '"' {
    } else if js[p] == '\\' && p + 1 < |js| {
      if IsSimpleEscape(js[p + 1]) {
        ScanStringBody(js, p + 2);
        assert body[2..] == js[p + 2..at];
      } else {
        ScanHexFinds(js, p + 2, 4);
        ScanStringBody(js, p + 6);
        assert body[6..] == js[p + 6..at];
      }
    } else {
      ScanStringBody(js, p + 1);
      assert body[1..] == js[p + 1..at];
    }
  }

  lemma ScanPrimitiveText(js: string, p: nat)
    requires ScanPrimitive(js, p).Some?
    ensures forall i :: p <= i < ScanPrimitive(js, p).value ==> i < |js| && IsPlain(js[i]) && !IsDelimiter(js[i])
    decreases |js| - p
  {
  }

  lemma {:induction false} CountNone(s: seq<int>, x: int)
    requires x !in s
    ensures Count(s, x) == 0
  {
    if s != [] {
      CountNone(s[..|s| - 1], x);
    }
  }

  lemma AllocKeepsSpans(js: string, st: State, tok: Token, pos: nat, cap: nat)
    requires st.Ok() && Spans(js, st) && Alloc(st, tok, pos, cap).Next?
    requires st.pos <= tok.start < pos && TokenOk(js, tok, pos)
    ensures Spans(js, Alloc(st, tok, pos, cap).st)
  {
    var toks := Alloc(st, tok, pos, cap).st.toks;
    forall i | 0 <= i < |toks|
      ensures TokenOk(js, toks[i], pos)
    {
      assert i < |st.toks| ==> TokenOk(js, st.toks[i], st.pos);
    }
    forall i, j | 0 <= i < j < |toks|
      ensures NestedOrDisjoint(toks[i], toks[j])
    {
      assert TokenOk(js, st.toks[i], st.pos);
      assert j < |st.toks| ==> NestedOrDisjoint(st.toks[i], st.toks[j]);
    }
  }

  lemma AllocKeepsTree(st: State, par: seq<int>, tok: Token, pos: nat, cap: nat)
    requires st.Ok() && Tree(st, par) && Alloc(st, tok, pos, cap).Next?
    requires tok.size == 0 && (tok.IsOpen() ==> tok.IsContainer())
    ensures Tree(Alloc(st, tok, pos, cap).st, par + [st.super])
  {
    var st' := Alloc(st, tok, pos, cap).st;
    var par' := par + [st.super];
    assert par'[..|par|] == par;
    CountNone(par, |par|);
    forall i | 0 <= i < |par'|
      ensures st'.toks[i].size == Count(par', i)
    {
    }
  }

  lemma CloseKeepsSpans(js: string, st: State, kind: Kind)
    requires st.Ok() && Spans(js, st) && Close(st, kind).Next?
    requires st.pos < |js| && js[st.pos] == (if kind == Object then '}' else ']') && (kind == Object || kind == Array)
    ensures Spans(js, Close(st, kind).st)
  {
  }

  lemma AllocKeepsForest(js: string, st: State, par: seq<int>, tok: Token, pos: nat, cap: nat)
    requires Forest(js, st, par) && Alloc(st, tok, pos, cap).Next?
    requires st.pos <= tok.start < pos <= |js| && TokenOk(js, tok, pos) && tok.size == 0
    ensures Forest(js, Alloc(st, tok, pos, cap).st, par + [st.super])
    ensures |Alloc(st, tok, pos, cap).st.toks| > |st.toks|
  {
    AllocKeepsSpans(js, st, tok, pos, cap);
    AllocKeepsTree(st, par, tok, pos, cap);
  }

  lemma CloseKeepsForest(js: string, st: State, par: seq<int>, kind: Kind)
    requires Forest(js, st, par) && Close(st, kind).Next?
    requires st.pos < |js| && js[st.pos] == (if kind == Object then '}' else ']') && (kind == Object || kind == Array)
    ensures Forest(js, Close(st, kind).st, par)
  {
    CloseKeepsSpans(js, st, kind);
  }

  lemma MoveKeepsSpans(js: string, st: State, super: int)
    requires Spans(js, st)
    ensures Spans(js, State(st.pos + 1, st.toks, super))
  {
    var st' := State(st.pos + 1, st.toks, super);
    assert st'.toks == st.toks;
    assert forall i :: 0 <= i < |st.toks| ==> TokenOk(js, st.toks[i], st.pos) ==> TokenOk(js, st.toks[i], st.pos + 1);
  }

  lemma MoveKeepsTree(st: State, par: seq<int>, super: int)
    requires st.Ok() && Tree(st, par) && (super == st.super || super == |st.toks| - 1)
    ensures Tree(State(st.pos + 1, st.toks, super), par)
  {
  }

  lemma CommaKeepsTree(js: string, st: State, par: seq<int>)
    requires st.Ok() && Tree(st, par) && Spans(js, st)
    ensures Tree(State(st.pos + 1, st.toks, CommaSuper(st.toks, st.super)), par)
  {
  }

  ghost predicate StepKeeps(js: string, st: State, par: seq<int>, cap: nat)
    requires st.Ok() && !AtEnd(js, st)
  {
    Step(js, st, cap).Next? ==>
      var st' := Step(js, st, cap).st;
      Forest(js, st', if |st'.toks| > |st.toks| then par + [st.super] else par)
  }

  lemma ScalarKeepsForest(js: string, st: State, par: seq<int>, cap: nat)
    requires Forest(js, st, par) && !AtEnd(js, st)
    requires var c := js[st.pos]; c == '"' || !(c == '{' || c == '[' || IsDelimiter(c))
    ensures StepKeeps(js, st, par, cap)
  {
    hide Spans;
    hide Tree;
    if Step(js, st, cap).Next? {
      if js[st.pos] == '"' {
        var q := ScanString(js, st.pos + 1).at;
        ScanStringBody(js, st.pos + 1);
        AllocKeepsForest(js, st, par, Token(String, st.pos + 1, q, 0), q + 1, cap);
      } else {
        var q := ScanPrimitive(js, st.pos).value;
        ScanPrimitiveText(js, st.pos);
        AllocKeepsForest(js, st, par, Token(Primitive, st.pos, q, 0), q, cap);
      }
    }
  }

  lemma BracketKeepsForest(js: string, st: State, par: seq<int>, cap: nat)
    requires Forest(js, st, par) && !AtEnd(js, st)
    requires var c := js[st.pos]; c == '{' || c == '[' || c == '}' || c == ']'
    ensures StepKeeps(js, st, par, cap)
  {
    hide Spans;
    hide Tree;
    var c := js[st.pos];
    if Step(js, st, cap).Next? {
      if c == '{' || c == '[' {
        AllocKeepsForest(js, st, par, Token(if c == '{' then Object else Array, st.pos, -1, 0), st.pos + 1, cap);
      } else {
        CloseKeepsForest(js, st, par, if c == '}' then Object else Array);
      }
    }
  }

  lemma PunctuationKeepsForest(js: string, st: State, par: seq<int>, cap: nat)
    requires Forest(js, st, par) && !AtEnd(js, st)
    requires var c := js[st.pos]; IsBlank(c) || c == ':' || c == ','
    ensures StepKeeps(js, st, par, cap)
  {
    hide Spans;
    hide Tree;
    var c := js[st.pos];
    if c == ',' {
      CommaKeepsTree(js, st, par);
      MoveKeepsSpans(js, st, CommaSuper(st.toks, st.super));
    } else {
      MoveKeepsSpans(js, st, if c == ':' then |st.toks| - 1 else st.super);
      MoveKeepsTree(st, par, if c == ':' then |st.toks| - 1 else st.super);
    }
  }

  lemma StepKeepsForest(js: string, st: State, par: seq<int>, cap: nat)
    requires Forest(js, st, par) && !AtEnd(js, st)
    ensures StepKeeps(js, st, par, cap)
  {
    hide Spans;
    hide Tree;
    var c := js[st.pos];
    if c == '{' || c == '[' || c == '}' || c == ']' {
      BracketKeepsForest(js, st, par, cap);
    } else if IsBlank(c) || c == ':' || c == ',' {
      PunctuationKeepsForest(js, st, par, cap);
    } else {
      ScalarKeepsForest(js, st, par, cap);
    }
  }

  // ---------------------------------------------------------------- the stack

  lemma {:induction false} OpensSame(a: seq<Token>, b: seq<Token>)
    requires |a| == |b| && forall i :: 0 <= i < |a| ==> a[i].IsOpen() == b[i].IsOpen()
    ensures Opens(a) == Opens(b)
  {
    if a != [] {
      OpensSame(a[..|a| - 1], b[..|b| - 1]);
    }
  }

  // The backward scan finds the top of the stack.
  lemma {:induction false} OpensTop(toks: seq<Token>)
    ensures LastOpen(toks) == if Opens(toks) == [] then -1 else Opens(toks)[|Opens(toks)| - 1]
  {
    if toks != [] && !toks[|toks| - 1].IsOpen() {
      OpensTop(toks[..|toks| - 1]);
    }
  }

  // Closing the innermost open token pops the stack.
  lemma {:induction false} OpensClose(toks: seq<Token>, tok: Token)
    requires LastOpen(toks) != -1 && !tok.IsOpen()
    ensures Opens(toks) != [] && Opens(toks[LastOpen(toks) := tok]) == Opens(toks)[..|Opens(toks)| - 1]
  {
    var n := |toks| - 1;
    var i := LastOpen(toks);
    var toks' := toks[i := tok];
    if i == n {
      assert toks'[..n] == toks[..n];
    } else {
      OpensClose(toks[..n], tok);
      assert toks'[..n] == toks[..n][i := tok];
    }
  }

  /** One step does to the open tokens what its character does to the stack of brackets. */
  lemma {:induction false} StepStacks(js: string, st: State, cap: nat)
    requires st.Ok() && !AtEnd(js, st) && Step(js, st, cap).Next?
    requires forall i :: 0 <= i < |st.toks| ==> st.toks[i].start >= 0
    ensures Opens(Step(js, st, cap).st.toks) == Pushed(js[st.pos], |st.toks|, Opens(st.toks))
  {
    hide ScanString, ScanPrimitive, Opens, LastOpen;
    var c := js[st.pos];
    var st' := Step(js, st, cap).st;
    if c == '}' || c == ']' {
      var i := LastOpen(st.toks);
      OpensClose(st.toks, st.toks[i].(end := st.pos + 1));
    } else if |st'.toks| > |st.toks| {
      assert st'.toks[..|st.toks|] == Bump(st.toks, st.super);
      OpensSame(st.toks, Bump(st.toks, st.super));
      OpensMore(st'.toks);
    }
  }

  lemma {:induction false} OpensMore(toks: seq<Token>)
    requires toks != []
    ensures Opens(toks) == Opens(toks[..|toks| - 1]) + if toks[|toks| - 1].IsOpen() then [|toks| - 1] else []
  {
  }

  lemma {:induction false} StepKeepsInv(js: string, st: State, par: seq<int>, stack: seq<int>, cap: nat)
    requires Inv(js, st, par, stack) && !AtEnd(js, st) && Step(js, st, cap).Next?
    ensures var st' := Step(js, st, cap).st;
      Inv(js, st', if |st'.toks| > |st.toks| then par + [st.super] else par, Pushed(js[st.pos], |st.toks|, stack))
  {
    StartsOk(js, st, par);
    hide Step, Forest, Opens;
    StepKeepsForest(js, st, par, cap);
    StepStacks(js, st, cap);
  }

  lemma {:induction false} StartsOk(js: string, st: State, par: seq<int>)
    requires Forest(js, st, par)
    ensures st.Ok() && forall i :: 0 <= i < |st.toks| ==> st.toks[i].start >= 0
  {
    assert forall i :: 0 <= i < |st.toks| ==> TokenOk(js, st.toks[i], st.pos);
  }

  /** Every run, from any state that meets the invariant, ends in one that meets it: spans are nested or
      disjoint, sizes count children, a first child is the next token, and the open tokens are the stack of brackets
      of the text read so far. */
  lemma {:induction false} RunKeepsInv(js: string, st: State, par: seq<int>, stack: seq<int>, cap: nat)
    requires Inv(js, st, par, stack)
    ensures Inv(js, Run(js, st, cap).st, ParentsAfter(js, st, par, cap), StackAfter(js, st, stack, cap))
    decreases |js| - st.pos
  {
    hide Opens;
    if !AtEnd(js, st) && Step(js, st, cap).Next? {
      var st' := Step(js, st, cap).st;
      StepKeepsInv(js, st, par, stack, cap);
      RunKeepsInv(js, st', if |st'.toks| > |st.toks| then par + [st.super] else par, Pushed(js[st.pos], |st.toks|, stack), cap);
    }
  }

  lemma StartInv(js: string)
    ensures Inv(js, Start, [], [])
  {
  }

  // The tokens cover stretches of the text and at least one follows each that counts a child.
  predicate Usable(js: string, toks: seq<Token>) {
    && (forall i :: 0 <= i < |toks| ==> 0 <= toks[i].start <= toks[i].end <= |js| && Describes(js, toks[i]))
    && (forall i :: 0 <= i < |toks| && toks[i].size >= 1 ==> i + 1 < |toks|)
  }

  /** The tokenizer accepts a text only with every container closed; it then returns the number of tokens. */
  lemma TokenizeUsable(js: string, cap: nat)
    requires Tokenize(js, cap).code >= 0
    ensures var r := Tokenize(js, cap); r.code == |r.st.toks| && Usable(js, r.st.toks)
  {
    StartInv(js);
    RunKeepsInv(js, Start, [], [], cap);
    RunAccepts(js, Start, cap);
  }

  lemma {:induction false} RunAccepts(js: string, st: State, cap: nat)
    requires st.Ok() && Run(js, st, cap).code >= 0
    ensures var r := Run(js, st, cap); r.code == |r.st.toks| && LastOpen(r.st.toks) == -1 && AtEnd(js, r.st)
    decreases |js| - st.pos
  {
    if !AtEnd(js, st) {
      RunAccepts(js, Step(js, st, cap).st, cap);
    }
  }
}
