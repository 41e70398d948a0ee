/** The tokenizer in the form of src/util/jsmn.h: a parser object with three fields, a token array that is
    filled in place, and loops over the text. Every method is proved equal to the function in JsmnSpec. */
module JsmnParser {
  import opened Options
  import opened JsmnSpec

  lemma BumpAppend(toks: seq<Token>, tok: Token, super: int)
    requires -1 <= super < |toks|
    ensures Bump(toks + [tok], super) == Bump(toks, super) + [tok]
  {
  }

  class Parser {
    var pos: int
    var toknext: int
    var toksuper: int

    constructor ()
      ensures pos == 0 && toknext == 0 && toksuper == -1
    {
      pos, toknext, toksuper := 0, 0, -1;
    }

    predicate InRange(tokens: array<Token>)
      reads this
    {
      0 <= pos && 0 <= toknext <= tokens.Length && -1 <= toksuper < toknext
    }

    function Abs(tokens: array<Token>): (st: State)
      requires InRange(tokens)
      reads this, tokens
      ensures st.Ok()
    {
      State(pos, tokens[..toknext], toksuper)
    }

    // Only containers are ever open: what makes the two searches of the source agree.
    predicate Valid(tokens: array<Token>)
      reads this, tokens
    {
      InRange(tokens) &&
      forall i :: 0 <= i < toknext && tokens[i].IsOpen() ==> tokens[i].IsContainer()
    }

    // The index of a fresh token, or -1.
    method AllocToken(tokens: array<Token>) returns (tok: int)
      requires InRange(tokens)
      modifies this`toknext, tokens
      ensures old(toknext) >= tokens.Length ==> tok == -1 && toknext == old(toknext) && tokens[..] == old(tokens[..])
      ensures old(toknext) < tokens.Length ==>
        tok == old(toknext) && toknext == tok + 1 &&
        tokens[..] == old(tokens[..])[tok := old(tokens[tok]).(start := -1, end := -1, size := 0)]
    {
      if toknext >= tokens.Length {
        return -1;
      }
      tok := toknext;
      toknext := toknext + 1;
      tokens[tok] := tokens[tok].(start := -1, end := -1, size := 0);
    }

    method AddChild(tokens: array<Token>)
      requires InRange(tokens)
      modifies tokens
      ensures tokens[..toknext] == Bump(old(tokens[..toknext]), toksuper)
    {
      if toksuper != -1 {
        tokens[toksuper] := tokens[toksuper].(size := tokens[toksuper].size + 1);
      }
    }

    method ParsePrimitive(js: string, tokens: array<Token>) returns (code: int)
      requires Valid(tokens) && pos < |js| && js[pos] != '\0' && !IsDelimiter(js[pos])
      modifies this`pos, this`toknext, tokens
      ensures InRange(tokens)
      ensures var was := old(Abs(tokens));
        match ScanPrimitive(js, was.pos)
        case None => code == ERROR_INVAL && Abs(tokens) == was
        case Some(q) =>
          if |was.toks| >= tokens.Length then code == ERROR_NOMEM && Abs(tokens) == was
          else code == 0 && Abs(tokens) == State(q - 1, was.toks + [Token(Primitive, was.pos, q, 0)], was.super)
    {
      ghost var was := Abs(tokens);
      var start := pos;
      while pos < |js| && js[pos] != '\0'
        invariant start <= pos <= |js|
        invariant toknext == old(toknext) && tokens[..toknext] == was.toks
        invariant ScanPrimitive(js, start) == ScanPrimitive(js, pos)
        invariant pos == start ==> pos < |js| && js[pos] != '\0' && !IsDelimiter(js[pos])
      {
        if IsDelimiter(js[pos]) {
          break;
        }
        if !IsPlain(js[pos]) {
          pos := start;
          return ERROR_INVAL;
        }
        pos := pos + 1;
      }
      var tok := AllocToken(tokens);
      if tok == -1 {
        pos := start;
        assert Abs(tokens) == was;
        return ERROR_NOMEM;
      }
      tokens[tok] := Token(Primitive, start, pos, 0);
      pos := pos - 1;
      assert tokens[..toknext] == was.toks + [Token(Primitive, start, pos + 1, 0)];
      return 0;
    }

    // The digits of a \u escape, which start at pos: at most four.
    method SkipHex(js: string) returns (ok: bool)
      requires 0 <= pos
      modifies this`pos
      ensures match ScanHex(js, old(pos), 4)
        case None => !ok
        case Some(q) => ok && pos == q
    {
      var i := 0;
      while i < 4 && pos < |js| && js[pos] != '\0'
        invariant 0 <= i <= 4 && old(pos) <= pos
        invariant ScanHex(js, old(pos), 4) == ScanHex(js, pos, 4 - i)
      {
        if !IsHex(js[pos]) {
          return false;
        }
        pos := pos + 1;
        i := i + 1;
      }
      return true;
    }

    method ParseString(js: string, tokens: array<Token>) returns (code: int)
      requires Valid(tokens) && pos < |js|
      modifies this`pos, this`toknext, tokens
      ensures InRange(tokens)
      ensures var was := old(Abs(tokens));
        match ScanString(js, was.pos + 1)
        case Bad => code == ERROR_INVAL && Abs(tokens) == was
        case Cut => code == ERROR_PART && Abs(tokens) == was
        case Closed(q) =>
          if |was.toks| >= tokens.Length then code == ERROR_NOMEM && Abs(tokens) == was
          else code == 0 && Abs(tokens) == State(q, was.toks + [Token(String, was.pos + 1, q, 0)], was.super)
    {
      ghost var was := Abs(tokens);
      var start := pos;
      pos := pos + 1;
      while pos < |js| && js[pos] != '\0'
        invariant start < pos
        invariant toknext == old(toknext) && tokens[..toknext] == was.toks
        invariant ScanString(js, start + 1) == ScanString(js, pos)
      {
        var c := js[pos];
        if c == '"' {
          var tok := AllocToken(tokens);
          if tok == -1 {
            pos := start;
            assert Abs(tokens) == was;
            return ERROR_NOMEM;
          }
          tokens[tok] := Token(String, start + 1, pos, 0);
          assert tokens[..toknext] == was.toks + [Token(String, start + 1, pos, 0)];
          return 0;
        }
        if c == '\\' && pos + 1 < |js| {
          pos := pos + 1;
          if IsSimpleEscape(js[pos]) {
          } else if js[pos] == 'u' {
            pos := pos + 1;
            var ok := SkipHex(js);
            if !ok {
              pos := start;
              return ERROR_INVAL;
            }
            pos := pos - 1;
          } else {
            pos := start;
            return ERROR_INVAL;
          }
        }
        pos := pos + 1;
      }
      pos := start;
      return ERROR_PART;
    }

    // Reads the closing bracket at pos: false when no open container of that kind matches it.
    method CloseBracket(js: string, tokens: array<Token>) returns (ok: bool)
      requires Valid(tokens) && pos < |js| && (js[pos] == '}' || js[pos] == ']')
      modifies this`toksuper, tokens
      ensures Valid(tokens)
      ensures var was := old(Abs(tokens));
        match Close(was, if js[pos] == '}' then Object else Array)
        case Fail(_) => !ok && Abs(tokens) == was
        case Next(st) => ok && Abs(tokens) == st.(pos := pos)
    {
      var kind := if js[pos] == '}' then Object else Array;
      ghost var was := Abs(tokens);
      var i := toknext - 1;
      while i >= 0
        invariant -1 <= i < toknext
        invariant forall j :: i < j < toknext ==> !tokens[j].IsOpen()
      {
        if tokens[i].start != -1 && tokens[i].end == -1 {
          if tokens[i].kind != kind {
            return false;
          }
          toksuper := -1;
          tokens[i] := tokens[i].(end := pos + 1);
          break;
        }
        i := i - 1;
      }
      if i == -1 {
        return false;
      }
      ghost var toks := tokens[..toknext];
      assert toks == was.toks[i := was.toks[i].(end := pos + 1)];
      while i >= 0
        invariant -1 <= i < toknext
        invariant toksuper == -1
        invariant forall j :: i < j < toknext ==> !toks[j].IsOpen()
      {
        if tokens[i].start != -1 && tokens[i].end == -1 {
          toksuper := i;
          break;
        }
        i := i - 1;
      }
      return true;
    }

    method Comma(tokens: array<Token>)
      requires Valid(tokens)
      modifies this`toksuper
      ensures toksuper == CommaSuper(tokens[..toknext], old(toksuper))
    {
      if toksuper != -1 && tokens[toksuper].kind != Array && tokens[toksuper].kind != Object {
        var i := toknext - 1;
        while i >= 0
          invariant -1 <= i < toknext
          invariant toksuper == old(toksuper)
          invariant forall j :: i < j < toknext ==> !tokens[j].IsOpen()
        {
          if tokens[i].kind == Array || tokens[i].kind == Object {
            if tokens[i].start != -1 && tokens[i].end == -1 {
              toksuper := i;
              break;
            }
          }
          i := i - 1;
        }
      }
    }

    // Reads the opening bracket at pos.
    method OpenBracket(js: string, tokens: array<Token>) returns (code: int)
      requires Valid(tokens) && pos < |js| && (js[pos] == '{' || js[pos] == '[')
      modifies this`toknext, this`toksuper, tokens
      ensures Valid(tokens)
      ensures var was := old(Abs(tokens));
        match Alloc(was, Token(if js[pos] == '{' then Object else Array, pos, -1, 0), pos, tokens.Length)
        case Fail(c) => code == c && Abs(tokens) == was
        case Next(st) => code == 0 && Abs(tokens) == st
    {
      ghost var was := Abs(tokens);
      var tok := AllocToken(tokens);
      if tok == -1 {
        return ERROR_NOMEM;
      }
      ghost var blank := tokens[tok];
      assert tokens[..toknext] == was.toks + [blank];
      BumpAppend(was.toks, blank, toksuper);
      AddChild(tokens);
      ghost var bumped := Bump(was.toks, was.super);
      assert tokens[..toknext] == bumped + [blank];
      assert tokens[tok] == tokens[..toknext][tok] == blank;
      tokens[tok] := tokens[tok].(kind := if js[pos] == '{' then Object else Array, start := pos);
      toksuper := toknext - 1;
      assert tokens[..toknext] == bumped + [Token(if js[pos] == '{' then Object else Array, pos, -1, 0)];
      StillContainers(tokens, was.toks, was.super, tokens[tok]);
      return 0;
    }

    // The facts the token array needs to be Valid again after one token was added.
    lemma StillContainers(tokens: array<Token>, toks: seq<Token>, super: int, tok: Token)
      requires InRange(tokens)
      requires forall i :: 0 <= i < |toks| && toks[i].IsOpen() ==> toks[i].IsContainer()
      requires -1 <= super < |toks| && (tok.IsOpen() ==> tok.IsContainer())
      requires tokens[..toknext] == Bump(toks, super) + [tok]
      ensures Valid(tokens)
    {
      forall i | 0 <= i < toknext && tokens[i].IsOpen()
        ensures tokens[i].IsContainer()
      {
        assert tokens[i] == tokens[..toknext][i];
      }
    }

    // One turn of the main loop, the final increment of pos included.
    method Turn(js: string, tokens: array<Token>) returns (code: int)
      requires Valid(tokens) && pos < |js| && js[pos] != '\0'
      modifies this, tokens
      ensures Valid(tokens)
      ensures var was := old(Abs(tokens));
        match Step(js, was, tokens.Length)
        case Fail(c) => code == c && Abs(tokens) == was
        case Next(st) => code == 0 && Abs(tokens) == st
    {
      ghost var was := Abs(tokens);
      var c := js[pos];
      code := 0;
      if c == '{' || c == '[' {
        code := OpenBracket(js, tokens);
        if code < 0 {
          return;
        }
      } else if c == '}' || c == ']' {
        var ok := CloseBracket(js, tokens);
        if !ok {
          return ERROR_INVAL;
        }
      } else if c == '"' {
        code := ReadScalar(js, tokens);
        if code < 0 {
          return;
        }
      } else if IsBlank(c) {
      } else if c == ':' {
        toksuper := toknext - 1;
      } else if c == ',' {
        Comma(tokens);
      } else {
        code := ReadScalar(js, tokens);
        if code < 0 {
          return;
        }
      }
      pos := pos + 1;
    }

    // The string and default cases of the switch: a scalar token and one more child for the superior token.
    method ReadScalar(js: string, tokens: array<Token>) returns (code: int)
      requires Valid(tokens) && pos < |js| && js[pos] != '\0'
      requires js[pos] == '"' || (!IsDelimiter(js[pos]) && js[pos] != '{' && js[pos] != '[')
      modifies this`pos, this`toknext, tokens
      ensures Valid(tokens)
      ensures var was := old(Abs(tokens));
        match Step(js, was, tokens.Length)
        case Fail(c) => code == c && Abs(tokens) == was
        case Next(st) => code == 0 && pos + 1 == st.pos && Abs(tokens) == st.(pos := pos)
    {
      ghost var was := Abs(tokens);
      if js[pos] == '"' {
        code := ParseString(js, tokens);
      } else {
        code := ParsePrimitive(js, tokens);
      }
      if code == 0 {
        ghost var tok := tokens[toknext - 1];
        assert tokens[..toknext] == was.toks + [tok];
        BumpAppend(was.toks, tok, toksuper);
        AddChild(tokens);
        StillContainers(tokens, was.toks, was.super, tok);
      }
    }

    method Parse(js: string, tokens: array<Token>) returns (count: int)
      requires Valid(tokens)
      modifies this, tokens
      ensures Valid(tokens)
      ensures var r := old(Run(js, Abs(tokens), tokens.Length)); count == r.code && Abs(tokens) == r.st
    {
      count := toknext;
      while pos < |js| && js[pos] != '\0'
        invariant Valid(tokens) && count == toknext
        invariant old(Run(js, Abs(tokens), tokens.Length)) == Run(js, Abs(tokens), tokens.Length)
        decreases |js| - pos
      {
        ghost var was := Abs(tokens);
        var code := Turn(js, tokens);
        if code < 0 {
          return code;
        }
        count := toknext;
      }
      var i := toknext - 1;
      while i >= 0
        invariant -1 <= i < toknext
        invariant forall j :: i < j < toknext ==> !tokens[j].IsOpen()
      {
        if tokens[i].start != -1 && tokens[i].end == -1 {
          return ERROR_PART;
        }
        i := i - 1;
      }
    }
  }
}
