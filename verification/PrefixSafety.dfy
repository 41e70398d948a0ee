/** A message that is cut short is never taken for a whole one, nor for an error. */
module PrefixSafety {
  import opened Options
  import opened JsmnSpec
  import opened JsonText
  import JsonTokens

  // The first byte opens the container that closes at the last byte.
  predicate Encloses(js: string, toks: seq<Token>) {
    |toks| > 0 && toks[0].IsContainer() && toks[0].start == 0 && toks[0].end == |js|
  }

  lemma {:induction false} ScanHexPrefix(js: string, k: nat, p: nat, n: nat)
    requires k <= |js| && ScanHex(js, p, n).Some?
    ensures ScanHex(js[..k], p, n).Some?
    ensures var q := ScanHex(js, p, n).value; var r := ScanHex(js[..k], p, n).value;
      if q <= k then r == q else r >= k
    decreases n
  {
    if n != 0 && p < k && js[p] != '\0' {
      ScanHexPrefix(js, k, p + 1, n - 1);
    }
  }

  lemma {:induction false} ScanStringPrefix(js: string, k: nat, p: nat)
    requires k <= |js| && ScanString(js, p).Closed?
    ensures var at := ScanString(js, p).at; ScanString(js[..k], p) == if at < k then Closed(at) else Cut
    decreases |js| - p
  {
    if p < k && js[p] != '"' {
      if js[p] == '\\' && p + 1 < |js| {
        if IsSimpleEscape(js[p + 1]) {
          ScanStringPrefix(js, k, p + 2);
        } else {
          ScanHexPrefix(js, k, p + 2, 4);
          ScanStringPrefix(js, k, ScanHex(js, p + 2, 4).value);
        }
      } else {
        ScanStringPrefix(js, k, p + 1);
      }
    }
  }

  lemma {:induction false} ScanPrimitivePrefix(js: string, k: nat, p: nat)
    requires p <= k <= |js| && ScanPrimitive(js, p).Some?
    ensures var q := ScanPrimitive(js, p).value; ScanPrimitive(js[..k], p) == Some(if q <= k then q else k)
    decreases k - p
  {
    if p < k && js[p] != '\0' && !IsDelimiter(js[p]) {
      ScanPrimitivePrefix(js, k, p + 1);
    }
  }

  ghost predicate FirstOpen(st: State) {
    st.Ok() && |st.toks| > 0 && st.toks[0].IsContainer() && st.toks[0].IsOpen()
  }

  // A closed first token stays as it is.
  lemma {:induction false} FirstStays(js: string, st: State, cap: nat)
    requires st.Ok() && |st.toks| > 0 && st.toks[0].end != -1
    ensures var r := Run(js, st, cap).st; |r.toks| > 0 && r.toks[0].end == st.toks[0].end
    decreases |js| - st.pos
  {
    if !AtEnd(js, st) && Step(js, st, cap).Next? {
      FirstStepStays(js, st, cap);
      FirstStays(js, Step(js, st, cap).st, cap);
    }
  }

  lemma {:induction false} FirstStepStays(js: string, st: State, cap: nat)
    requires st.Ok() && |st.toks| > 0 && !AtEnd(js, st) && Step(js, st, cap).Next?
    ensures var r := Step(js, st, cap).st;
      |r.toks| > 0 && r.toks[0].kind == st.toks[0].kind && r.toks[0].start == st.toks[0].start &&
      (r.toks[0].end == st.toks[0].end || (st.toks[0].end == -1 && r.toks[0].end == r.pos))
  {
    hide ScanString, ScanPrimitive;
  }

  // What one step does on the first k characters, when it succeeds on the whole text.
  lemma {:induction false} StepOnPrefix(js: string, k: nat, st: State, cap: nat)
    requires k < |js| && st.Ok() && st.pos < k && !AtEnd(js, st) && Step(js, st, cap).Next?
    ensures var whole := Step(js, st, cap).st; var cut := Step(js[..k], st, cap);
      || cut == Next(whole)
      || cut == Fail(ERROR_PART)
      || (cut.Next? && cut.st.pos == k && |cut.st.toks| > |st.toks| && cut.st.toks[..|st.toks|] == Bump(st.toks, st.super))
    ensures Step(js, st, cap).st.pos > k ==> Step(js[..k], st, cap) != Next(Step(js, st, cap).st)
  {
    hide ScanString, ScanPrimitive, LastOpen, Bump, CommaSuper;
    var p := js[..k];
    if js[st.pos] == '"' {
      ScanStringPrefix(js, k, st.pos + 1);
    } else if js[st.pos] == '{' || js[st.pos] == '[' || js[st.pos] == '}' || js[st.pos] == ']' || IsDelimiter(js[st.pos]) {
      assert p[st.pos] == js[st.pos];
    } else {
      ScanPrimitivePrefix(js, k, st.pos);
    }
  }

  lemma {:induction false} EndsPart(js: string, st: State, cap: nat)
    requires FirstOpen(st) && AtEnd(js, st)
    ensures Run(js, st, cap).code == ERROR_PART
  {
  }

  // While the first container is open, running out of text is the only way to stop.
  lemma {:induction false} RunOnPrefix(js: string, k: nat, st: State, cap: nat)
    requires k < |js| && st.pos <= k && FirstOpen(st)
    requires var r := Run(js, st, cap); r.code >= 0 && |r.st.toks| > 0 && r.st.toks[0].end == |js|
    ensures Run(js[..k], st, cap).code == ERROR_PART
    decreases k - st.pos
  {
    hide Step, LastOpen;
    var p := js[..k];
    if st.pos == k {
      EndsPart(p, st, cap);
    } else {
      if AtEnd(js, st) {
        EndsPart(js, st, cap);
      }
      var next := Step(js, st, cap).st;
      FirstStepStays(js, st, cap);
      StepOnPrefix(js, k, st, cap);
      if Step(p, st, cap) == Next(next) {
        if next.toks[0].end != -1 {
          FirstStays(js, next, cap);
        }
        RunOnPrefix(js, k, next, cap);
      } else if Step(p, st, cap).Next? {
        var cut := Step(p, st, cap).st;
        assert cut.toks[0] == cut.toks[..|st.toks|][0];
        EndsPart(p, cut, cap);
      }
    }
  }

  /** Prefix safety: when a text tokenizes and its first byte opens the container that closes at its last byte, every
      non-empty proper prefix, wherever it is cut, is reported as partial. */
  lemma {:induction false} PrefixIsPart(js: string, k: nat, cap: nat)
    requires var r := Tokenize(js, cap); r.code >= 0 && Encloses(js, r.st.toks)
    requires 0 < k < |js|
    ensures Tokenize(js[..k], cap).code == ERROR_PART
  {
    assert !AtEnd(js, Start);
    var next := Step(js, Start, cap).st;
    FirstTokenStart(js, cap);
    assert js[..k][0] == js[0];
    RunOnPrefix(js, k, next, cap);
  }

  // The bracket that encloses the text is its first character.
  lemma {:induction false} FirstTokenStart(js: string, cap: nat)
    requires var r := Tokenize(js, cap); r.code >= 0 && Encloses(js, r.st.toks)
    ensures js != "" && (js[0] == '{' || js[0] == '[') && cap > 0
  {
    FirstTokenFrom(js, Start, cap);
  }

  lemma {:induction false} FirstTokenFrom(js: string, st: State, cap: nat)
    requires st.Ok() && st.toks == []
    requires var r := Run(js, st, cap); r.code >= 0 && Encloses(js, r.st.toks)
    ensures st.pos == 0 && js != "" && (js[0] == '{' || js[0] == '[') && cap > 0
    decreases |js| - st.pos
  {
    hide ScanString, ScanPrimitive;
    var next := Step(js, st, cap).st;
    if next.toks == [] {
      FirstTokenFrom(js, next, cap);
    } else {
      FirstKeepsKind(js, next, cap);
    }
  }

  lemma {:induction false} FirstKeepsKind(js: string, st: State, cap: nat)
    requires st.Ok() && |st.toks| > 0
    ensures var r := Run(js, st, cap).st;
      |r.toks| > 0 && r.toks[0].kind == st.toks[0].kind && r.toks[0].start == st.toks[0].start
    decreases |js| - st.pos
  {
    hide Step;
    if !AtEnd(js, st) && Step(js, st, cap).Next? {
      FirstStepStays(js, st, cap);
      FirstKeepsKind(js, Step(js, st, cap).st, cap);
    }
  }

  /** The text of every object or array, cut anywhere, is reported as partial. */
  lemma {:induction false} TextPrefixIsPart(v: Value, k: nat, cap: nat)
    requires Good(v) && !Scalar(v) && Size(v) <= cap && 0 < k < |Text(v)|
    ensures Tokenize(Text(v)[..k], cap).code == ERROR_PART
  {
    JsonTokens.TokenizeText(v, cap);
    PrefixIsPart(Text(v), k, cap);
  }

  /** Behind the complete text of a value, another opening brace leaves the whole incomplete. */
  lemma {:induction false} ThenOpen(v: Value, cap: nat)
    requires Good(v) && !Scalar(v) && Size(v) <= cap
    ensures Tokenize(Text(v) + "{", cap).code < 0
  {
    var js := Text(v) + "{";
    assert js[0..|Text(v)|] == Text(v);
    JsonTokens.RunValue(js, Start, cap, v);
    var st := JsonTokens.After(v, Start);
    assert js[st.pos] == '{' && !AtEnd(js, st);
    hide Text, Tokens, Size;
    if |st.toks| < cap {
      var tok := Token(Object, st.pos, -1, 0);
      JsonTokens.OpenStep(js, st, cap, tok);
      var st' := Step(js, st, cap).st;
      assert LastOpen(st'.toks) == |st.toks|;
      assert Run(js, st', cap).code == ERROR_PART;
    }
  }
}
