/** Which texts the tokenizer accepts: those whose brackets, outside strings and primitives, are balanced and match. */
module JsmnBrackets {
  import opened Options
  import opened JsmnSpec
  import opened JsmnInvariant

  /** The brackets that are open behind a text whose first p characters left `stack` open; None when a bracket does not
      match, a string does not end, or a character belongs nowhere. */
  function Nesting(js: string, p: nat, stack: seq<char>): Option<seq<char>>
    decreases |js| - p
  {
    if p >= |js| || js[p] == '\0' then Some(stack)
    else
      var c := js[p];
      if c == '{' || c == '[' then Nesting(js, p + 1, stack + [c])
      else if c == '}' || c == ']' then
        if stack == [] || stack[|stack| - 1] != (if c == '}' then '{' else '[') then None
        else Nesting(js, p + 1, stack[..|stack| - 1])
      else if c == '"' then
        match ScanString(js, p + 1)
        case Closed(q) => Nesting(js, q + 1, stack)
        case _ => None
      else if IsBlank(c) || c == ':' || c == ',' then Nesting(js, p + 1, stack)
      else
        match ScanPrimitive(js, p)
        case None => None
        case Some(q) => if q > p then Nesting(js, q, stack) else None
  }

  // The brackets of the open tokens, outermost first.
  function Brackets(toks: seq<Token>): seq<char> {
    if toks == [] then []
    else
      var t := toks[|toks| - 1];
      Brackets(toks[..|toks| - 1]) + if t.IsOpen() then [if t.kind == Object then '{' else '['] else []
  }

  predicate OpenContainers(toks: seq<Token>) {
    forall i :: 0 <= i < |toks| && toks[i].IsOpen() ==> toks[i].IsContainer()
  }

  lemma {:induction false} BracketsSame(a: seq<Token>, b: seq<Token>)
    requires |a| == |b| && forall i :: 0 <= i < |a| ==> a[i].IsOpen() == b[i].IsOpen() && a[i].kind == b[i].kind
    ensures Brackets(a) == Brackets(b)
  {
    if a != [] {
      BracketsSame(a[..|a| - 1], b[..|b| - 1]);
    }
  }

  lemma {:induction false} BracketsTop(toks: seq<Token>)
    ensures LastOpen(toks) == -1 <==> Brackets(toks) == []
    ensures LastOpen(toks) != -1 ==> Brackets(toks)[|Brackets(toks)| - 1] == if toks[LastOpen(toks)].kind == Object then '{' else '['
  {
    if toks != [] && !toks[|toks| - 1].IsOpen() {
      BracketsTop(toks[..|toks| - 1]);
    }
  }

  lemma {:induction false} BracketsClose(toks: seq<Token>, tok: Token)
    requires LastOpen(toks) != -1 && !tok.IsOpen()
    ensures Brackets(toks) != [] && Brackets(toks[LastOpen(toks) := tok]) == Brackets(toks)[..|Brackets(toks)| - 1]
  {
    var n := |toks| - 1;
    var i := LastOpen(toks);
    var toks' := toks[i := tok];
    if i == n {
      assert toks'[..n] == toks[..n];
    } else {
      BracketsClose(toks[..n], tok);
      assert toks'[..n] == toks[..n][i := tok];
    }
  }

  lemma {:induction false} BracketsMore(toks: seq<Token>, tok: Token, super: int)
    requires -1 <= super < |toks|
    ensures Brackets(Bump(toks, super) + [tok]) ==
      Brackets(toks) + if tok.IsOpen() then [if tok.kind == Object then '{' else '['] else []
  {
    var toks' := Bump(toks, super) + [tok];
    assert toks'[..|toks|] == Bump(toks, super);
    BracketsSame(toks, Bump(toks, super));
  }

  // One step, and one step of the nesting.
  lemma {:induction false} StepNests(js: string, st: State, cap: nat)
    requires st.Ok() && !AtEnd(js, st) && OpenContainers(st.toks)
    ensures var r := Step(js, st, cap);
      match r
      case Next(st') => OpenContainers(st'.toks) && |st'.toks| <= |st.toks| + 1 &&
        Nesting(js, st.pos, Brackets(st.toks)) == Nesting(js, st'.pos, Brackets(st'.toks))
      case Fail(code) => Nesting(js, st.pos, Brackets(st.toks)) == None || |st.toks| >= cap
  {
    hide ScanString, ScanPrimitive, Brackets, LastOpen;
    var c := js[st.pos];
    var r := Step(js, st, cap);
    if c == '}' || c == ']' {
      BracketsTop(st.toks);
      if r.Next? {
        BracketsClose(st.toks, st.toks[LastOpen(st.toks)].(end := st.pos + 1));
      }
    } else if r.Next? && |r.st.toks| > |st.toks| {
      var tok := r.st.toks[|st.toks|];
      BracketsMore(st.toks, tok, st.super);
      assert r.st.toks == Bump(st.toks, st.super) + [tok];
      assert Brackets(st.toks) + [] == Brackets(st.toks);
    }
  }

  lemma {:induction false} RunNests(js: string, st: State, cap: nat)
    requires st.Ok() && OpenContainers(st.toks)
    ensures Run(js, st, cap).code >= 0 ==> Nesting(js, st.pos, Brackets(st.toks)) == Some([])
    ensures |st.toks| + (|js| - st.pos) <= cap && Nesting(js, st.pos, Brackets(st.toks)) == Some([]) ==> Run(js, st, cap).code >= 0
    decreases |js| - st.pos
  {
    hide Step, Brackets, LastOpen;
    if AtEnd(js, st) {
      BracketsTop(st.toks);
    } else {
      StepNests(js, st, cap);
      hide Nesting;
      match Step(js, st, cap)
      case Next(st') => RunNests(js, st', cap);
      case Fail(_) =>
    }
  }

  /** An accepted text has balanced and matching brackets; and with room for a token per character, every such text
      is accepted. */
  lemma {:induction false} AcceptsBalanced(js: string, cap: nat)
    ensures Tokenize(js, cap).code >= 0 ==> Nesting(js, 0, []) == Some([])
    ensures |js| <= cap ==> (Tokenize(js, cap).code >= 0 <==> Nesting(js, 0, []) == Some([]))
  {
    hide Run, Nesting;
    assert Brackets([]) == [];
    RunNests(js, Start, cap);
  }
}
