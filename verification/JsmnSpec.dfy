/** The tokenizer of src/util/jsmn.h as a function on values: one step per turn of the main loop.
    The build defines JSMN_STATIC only, so this is the non-strict variant without parent links.
    A text is a `string` whose characters stand for bytes; those from 127 up are all treated alike. */
module JsmnSpec {
  import opened Options

  const ERROR_NOMEM := -1
  const ERROR_INVAL := -2
  const ERROR_PART := -3

  datatype Kind = Object | Array | String | Primitive

  datatype Token = Token(kind: Kind, start: int, end: int, size: nat) {
    predicate IsContainer() {
      kind.Object? || kind.Array?
    }

    // An allocated token whose closing bracket has not been read yet.
    predicate IsOpen() {
      start != -1 && end == -1
    }
  }

  /** The parser fields `pos` and `toksuper` with the used part of the token array (`toknext` is its length). */
  datatype State = State(pos: nat, toks: seq<Token>, super: int) {
    predicate Ok() {
      -1 <= super < |toks|
    }
  }

  datatype StepResult = Next(st: State) | Fail(code: int)
  datatype Result = Result(code: int, st: State)

  const Start := State(0, [], -1)

  predicate IsBlank(c: char) {
    c == '\t' || c == '\r' || c == '\n' || c == ' '
  }

  // The characters that end a primitive.
  predicate IsDelimiter(c: char) {
    IsBlank(c) || c == ':' || c == ',' || c == ']' || c == '}'
  }

  predicate IsHex(c: char) {
    '0' <= c <= '9' || 'A' <= c <= 'F' || 'a' <= c <= 'f'
  }

  predicate IsSimpleEscape(c: char) {
    c == '"' || c == '/' || c == '\\' || c == 'b' || c == 'f' || c == 'r' || c == 'n' || c == 't'
  }

  // The characters a primitive may hold.
  predicate IsPlain(c: char) {
    ' ' <= c < 127 as char
  }

  // End of the run of at most n hexadecimal digits at p, or None at another character.
  function ScanHex(js: string, p: nat, n: nat): (q: Option<nat>)
    ensures q.Some? ==> p <= q.value && (p <= |js| ==> q.value <= |js|)
    decreases n
  {
    if n == 0 || p >= |js| || js[p] == '\0' then Some(p)
    else if !IsHex(js[p]) then None
    else ScanHex(js, p + 1, n - 1)
  }

  datatype Scan = Closed(at: nat) | Bad | Cut

  // Looks for the quote that closes a string whose body starts at p.
  function ScanString(js: string, p: nat): (r: Scan)
    ensures r.Closed? ==> p <= r.at < |js| && js[r.at] == '"'
    decreases |js| - p
  {
    if p >= |js| || js[p] == '\0' then Cut
    else if js[p] == '"' then Closed(p)
    else if js[p] == '\\' && p + 1 < |js| then
      if IsSimpleEscape(js[p + 1]) then ScanString(js, p + 2)
      else if js[p + 1] == 'u' then
        match ScanHex(js, p + 2, 4)
        case None => Bad
        case Some(q) => ScanString(js, q)
      else Bad
    else ScanString(js, p + 1)
  }

  // End of the primitive that has its next character at p, or None at a character it may not hold.
  function ScanPrimitive(js: string, p: nat): (q: Option<nat>)
    ensures q.Some? ==> p <= q.value && (p <= |js| ==> q.value <= |js|)
    decreases |js| - p
  {
    if p >= |js| || js[p] == '\0' || IsDelimiter(js[p]) then Some(p)
    else if !IsPlain(js[p]) then None
    else ScanPrimitive(js, p + 1)
  }

  // Index of the innermost open token, -1 when there is none.
  function LastOpen(toks: seq<Token>): (i: int)
    ensures -1 <= i < |toks|
    ensures i != -1 ==> toks[i].IsOpen()
    ensures forall j :: i < j < |toks| ==> !toks[j].IsOpen()
  {
    if |toks| == 0 then -1
    else if toks[|toks| - 1].IsOpen() then |toks| - 1
    else LastOpen(toks[..|toks| - 1])
  }

  // Counts one more child for the superior token, if any.
  function Bump(toks: seq<Token>, super: int): (r: seq<Token>)
    requires -1 <= super < |toks|
    ensures |r| == |toks|
    ensures forall i :: 0 <= i < |toks| ==>
      r[i] == if i == super then toks[i].(size := toks[i].size + 1) else toks[i]
  {
    if super == -1 then toks else toks[super := toks[super].(size := toks[super].size + 1)]
  }

  function Alloc(st: State, tok: Token, pos: nat, cap: nat): (r: StepResult)
    requires st.Ok()
    ensures r.Next? ==> r.st.Ok() && r.st.pos == pos
  {
    if |st.toks| >= cap then Fail(ERROR_NOMEM)
    else Next(State(pos, Bump(st.toks, st.super) + [tok], if tok.IsContainer() then |st.toks| else st.super))
  }

  function Close(st: State, kind: Kind): (r: StepResult)
    requires st.Ok()
    ensures r.Next? ==> r.st.Ok() && r.st.pos == st.pos + 1
  {
    var i := LastOpen(st.toks);
    if i == -1 || st.toks[i].kind != kind then Fail(ERROR_INVAL)
    else
      var toks := st.toks[i := st.toks[i].(end := st.pos + 1)];
      Next(State(st.pos + 1, toks, LastOpen(toks)))
  }

  // The superior token after a comma.
  function CommaSuper(toks: seq<Token>, super: int): (r: int)
    requires -1 <= super < |toks|
    ensures -1 <= r < |toks|
  {
    if super != -1 && !toks[super].IsContainer() && LastOpen(toks) != -1 then LastOpen(toks) else super
  }

  predicate AtEnd(js: string, st: State) {
    st.pos >= |js| || js[st.pos] == '\0'
  }

  function Step(js: string, st: State, cap: nat): (r: StepResult)
    requires st.Ok() && !AtEnd(js, st)
    ensures r.Next? ==> r.st.Ok() && st.pos < r.st.pos <= |js|
    ensures r.Fail? ==> r.code == ERROR_NOMEM || r.code == ERROR_INVAL || r.code == ERROR_PART
  {
    var c := js[st.pos];
    if c == '{' || c == '[' then
      Alloc(st, Token(if c == '{' then Object else Array, st.pos, -1, 0), st.pos + 1, cap)
    else if c == '}' || c == ']' then
      Close(st, if c == '}' then Object else Array)
    else if c == '"' then
      match ScanString(js, st.pos + 1)
      case Bad => Fail(ERROR_INVAL)
      case Cut => Fail(ERROR_PART)
      case Closed(q) => Alloc(st, Token(String, st.pos + 1, q, 0), q + 1, cap)
    else if IsBlank(c) then
      Next(st.(pos := st.pos + 1))
    else if c == ':' then
      Next(st.(pos := st.pos + 1, super := |st.toks| - 1))
    else if c == ',' then
      Next(st.(pos := st.pos + 1, super := CommaSuper(st.toks, st.super)))
    else
      match ScanPrimitive(js, st.pos)
      case None => Fail(ERROR_INVAL)
      case Some(q) => Alloc(st, Token(Primitive, st.pos, q, 0), q, cap)
  }

  function Run(js: string, st: State, cap: nat): (r: Result)
    requires st.Ok()
    ensures r.st.Ok()
    decreases |js| - st.pos
  {
    if AtEnd(js, st) then
      Result(if LastOpen(st.toks) != -1 then ERROR_PART else |st.toks|, st)
    else
      match Step(js, st, cap)
      case Fail(code) => Result(code, st)
      case Next(st') => Run(js, st', cap)
  }

  function Tokenize(js: string, cap: nat): Result {
    Run(js, Start, cap)
  }
}
