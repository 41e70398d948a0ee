/** ufa_util_resolvepath of src/util/misc.c: a path is normalised by appending its components to a buffer and cutting
    the buffer back for "..". */
module Path {
  import opened Strings

  const MAX_SIZE := 4096

  // ---------------------------------------------------------------- what it is meant to do

  /** Following components from a stack of directories. */
  function Resolve(stack: seq<string>, components: seq<string>): seq<string>
    decreases |components|
  {
    if components == [] then stack
    else
      var c := components[0];
      var stack' :=
        if c == "." then stack
        else if c == ".." then (if stack == [] then stack else stack[..|stack| - 1])
        else stack + [c];
      Resolve(stack', components[1..])
  }

  /** A directory name. */
  predicate Proper(c: string) {
    Component(c, '/') && c != "." && c != ".."
  }

  predicate AllComponents(cs: seq<string>) {
    forall c :: c in cs ==> Component(c, '/')
  }

  predicate AllProper(cs: seq<string>) {
    forall c :: c in cs ==> Proper(c)
  }

  // ---------------------------------------------------------------- what it does to the text

  function LastSlash(s: string): (n: nat)
    requires s != "" && s[0] == '/'
    ensures n < |s| && s[n] == '/' && forall i :: n < i < |s| ==> s[i] != '/'
    decreases |s|
  {
    if s[|s| - 1] == '/' then |s| - 1 else LastSlash(s[..|s| - 1])
  }

  predicate Rooted(s: string) {
    s == "" || s[0] == '/'
  }

  // Cut back to before the last component.
  function Up(text: string): (r: string)
    requires Rooted(text)
    ensures Rooted(r)
  {
    if text == "" then "" else text[..LastSlash(text)]
  }

  /** The text after the components; a component that does not fit ends the walk. */
  function Walk(text: string, components: seq<string>): (r: string)
    requires Rooted(text)
    ensures Rooted(r)
    decreases |components|
  {
    if components == [] then text
    else
      var c := components[0];
      if c == "." then Walk(text, components[1..])
      else if c == ".." then Walk(Up(text), components[1..])
      else if |text| + |c| >= MAX_SIZE then text
      else Walk(text + "/" + c, components[1..])
  }

  /** No component ends exactly at the end of the buffer, where its terminator would not fit. */
  predicate Safe(text: string, components: seq<string>)
    requires Rooted(text)
    decreases |components|
  {
    if components == [] then true
    else
      var c := components[0];
      if c == "." then Safe(text, components[1..])
      else if c == ".." then Safe(Up(text), components[1..])
      else if |text| + |c| >= MAX_SIZE then true
      else |text| + |c| + 1 < MAX_SIZE && Safe(text + "/" + c, components[1..])
  }

  // ---------------------------------------------------------------- the two agree

  lemma {:induction false} AbsoluteLast(cs: seq<string>, c: string)
    ensures Absolute(cs + [c], '/') == Absolute(cs, '/') + "/" + c
  {
    if cs == [] {
      assert [] + [c] == [c] && [c][1..] == [];
      assert Absolute([c], '/') == ['/'] + c + "";
    } else {
      assert (cs + [c])[1..] == cs[1..] + [c];
      AbsoluteLast(cs[1..], c);
    }
  }

  lemma {:induction false} LastSlashIs(a: string, c: string)
    requires '/' !in c && Rooted(a)
    ensures LastSlash(a + "/" + c) == |a|
  {
    var s := a + "/" + c;
    var n := LastSlash(s);
    assert s[|a|] == '/';
    assert forall i :: |a| < i < |s| ==> s[i] == c[i - |a| - 1];
  }

  lemma {:induction false} AbsoluteRooted(cs: seq<string>)
    ensures Rooted(Absolute(cs, '/')) && (cs != [] ==> Absolute(cs, '/') != "")
  {
  }

  // Cutting back drops the last component.
  lemma {:induction false} CutBack(cs: seq<string>)
    requires cs != [] && AllComponents(cs)
    ensures Rooted(Absolute(cs, '/')) && Absolute(cs, '/') != "" &&
      Absolute(cs, '/')[..LastSlash(Absolute(cs, '/'))] == Absolute(cs[..|cs| - 1], '/')
  {
    var front, c := cs[..|cs| - 1], cs[|cs| - 1];
    assert cs == front + [c] && c in cs;
    AbsoluteRooted(cs);
    AbsoluteRooted(front);
    AbsoluteLast(front, c);
    LastSlashIs(Absolute(front, '/'), c);
  }

  // The components never fill the buffer.
  predicate Fits(text: string, components: seq<string>)
    requires Rooted(text)
    decreases |components|
  {
    if components == [] then true
    else
      var c := components[0];
      if c == "." then Fits(text, components[1..])
      else if c == ".." then Fits(Up(text), components[1..])
      else |text| + |c| + 1 < MAX_SIZE && Fits(text + "/" + c, components[1..])
  }

  lemma {:induction false} FitsSafe(text: string, components: seq<string>)
    requires Rooted(text) && Fits(text, components)
    ensures Safe(text, components)
    decreases |components|
  {
    if components != [] {
      var c := components[0];
      if c == "." {
        FitsSafe(text, components[1..]);
      } else if c == ".." {
        FitsSafe(Up(text), components[1..]);
      } else {
        FitsSafe(text + "/" + c, components[1..]);
      }
    }
  }

  /** Walking over the text of a stack is following the components. */
  lemma {:induction false} WalkResolves(stack: seq<string>, components: seq<string>)
    requires AllComponents(stack) && AllComponents(components)
    requires Rooted(Absolute(stack, '/')) && Fits(Absolute(stack, '/'), components)
    ensures Walk(Absolute(stack, '/'), components) == Absolute(Resolve(stack, components), '/')
    decreases |components|
  {
    if components != [] {
      var c, rest := components[0], components[1..];
      assert c in components && forall x :: x in rest ==> x in components;
      if c == "." {
        WalkResolves(stack, rest);
      } else if c == ".." {
        if stack != [] {
          CutBack(stack);
          assert forall x :: x in stack[..|stack| - 1] ==> x in stack;
          WalkResolves(stack[..|stack| - 1], rest);
        } else {
          WalkResolves([], rest);
        }
      } else {
        AbsoluteLast(stack, c);
        AbsoluteRooted(stack + [c]);
        WalkResolves(stack + [c], rest);
      }
    }
  }

  // ---------------------------------------------------------------- a root working directory

  /** At some point the components go up from the top. */
  predicate GoesAbove(depth: nat, components: seq<string>)
    decreases |components|
  {
    components != [] &&
    var c := components[0];
    if c == "." then GoesAbove(depth, components[1..])
    else if c == ".." then depth == 0 || GoesAbove(depth - 1, components[1..])
    else GoesAbove(depth + 1, components[1..])
  }

  /** From the working directory "/", a relative path keeps that slash in front of the result, unless it goes above the
      top: the result is then what it is meant to be. */
  lemma {:induction false} WalkFromRoot(stack: seq<string>, components: seq<string>)
    requires AllComponents(stack) && AllComponents(components)
    requires Rooted(Absolute(stack, '/')) && Fits("/" + Absolute(stack, '/'), components)
    ensures Walk("/" + Absolute(stack, '/'), components) ==
      (if GoesAbove(|stack|, components) then "" else "/") + Absolute(Resolve(stack, components), '/')
    decreases |components|
  {
    if components != [] {
      var c, rest := components[0], components[1..];
      assert c in components && forall x :: x in rest ==> x in components;
      var text := "/" + Absolute(stack, '/');
      if c == "." {
        WalkFromRoot(stack, rest);
      } else if c == ".." {
        if stack != [] {
          CutBackBelow(stack);
          assert forall x :: x in stack[..|stack| - 1] ==> x in stack;
          AbsoluteRooted(stack[..|stack| - 1]);
          WalkFromRoot(stack[..|stack| - 1], rest);
        } else {
          assert text == "/" && text[..LastSlash(text)] == "";
          assert Absolute([], '/') == "";
          WalkResolves([], rest);
        }
      } else {
        AbsoluteLast(stack, c);
        AbsoluteRooted(stack + [c]);
        assert text + "/" + c == "/" + Absolute(stack + [c], '/');
        WalkFromRoot(stack + [c], rest);
      }
    }
  }

  lemma {:induction false} CutBackBelow(cs: seq<string>)
    requires cs != [] && AllComponents(cs)
    ensures var text := "/" + Absolute(cs, '/'); text[..LastSlash(text)] == "/" + Absolute(cs[..|cs| - 1], '/')
  {
    var front, c := cs[..|cs| - 1], cs[|cs| - 1];
    assert cs == front + [c] && c in cs;
    AbsoluteLast(front, c);
    LastSlashIs("/" + Absolute(front, '/'), c);
    assert "/" + Absolute(cs, '/') == "/" + Absolute(front, '/') + "/" + c;
  }

  // ---------------------------------------------------------------- normal results

  /** The result of following components from proper directories has only proper directories. */
  lemma {:induction false} ResolveProper(stack: seq<string>, components: seq<string>)
    requires AllProper(stack) && AllComponents(components)
    ensures AllProper(Resolve(stack, components))
    decreases |components|
  {
    if components != [] {
      var c := components[0];
      assert c in components && forall x :: x in components[1..] ==> x in components;
      if c == "." {
        ResolveProper(stack, components[1..]);
      } else if c == ".." {
        assert stack != [] ==> forall x :: x in stack[..|stack| - 1] ==> x in stack;
        ResolveProper(if stack == [] then stack else stack[..|stack| - 1], components[1..]);
      } else {
        ResolveProper(stack + [c], components[1..]);
      }
    }
  }

  lemma {:induction false} ResolveProperAppends(stack: seq<string>, components: seq<string>)
    requires AllProper(components)
    ensures Resolve(stack, components) == stack + components
    decreases |components|
  {
    if components == [] {
      assert stack + components == stack;
    } else {
      assert components[0] in components && forall x :: x in components[1..] ==> x in components;
      ResolveProperAppends(stack + [components[0]], components[1..]);
      assert stack + components == stack + [components[0]] + components[1..];
    }
  }

  /** Normalising is idempotent: the components of a normal path are its own. */
  lemma {:induction false} NormalFixed(stack: seq<string>)
    requires AllProper(stack)
    ensures Resolve([], Split(Absolute(stack, '/'), '/')) == stack
  {
    SplitAbsolute(stack, '/');
    ResolveProperAppends([], stack);
    assert [] + stack == stack;
  }

  // ---------------------------------------------------------------- the buffer

  // A terminated text in the buffer.
  predicate Contains(buf: array<char>, text: string)
    reads buf
  {
    |text| < buf.Length && buf[..|text|] == text && buf[|text|] == '\0' && '\0' !in text
  }

  method Strlen(buf: array<char>, ghost text: string) returns (n: nat)
    requires Contains(buf, text)
    ensures n == |text|
  {
    n := 0;
    while buf[n] != '\0'
      invariant 0 <= n <= |text|
      decreases |text| - n
    {
      n := n + 1;
    }
    TerminatorAt(buf, text, n);
  }

  lemma {:induction false} TerminatorAt(buf: array<char>, text: string, n: nat)
    requires Contains(buf, text) && n <= |text| && buf[n] == '\0'
    ensures n == |text|
  {
    assert forall i :: 0 <= i < |text| ==> buf[i] == buf[..|text|][i] == text[i];
  }

  // The scan backwards for '/', which stays in the buffer.
  method CutLast(buf: array<char>, len: nat, ghost text: string)
    requires Contains(buf, text) && text != "" && Rooted(text) && len == |text|
    modifies buf
    ensures Contains(buf, text[..LastSlash(text)])
  {
    var n := len - 1;
    assert buf[..|text|] == text;
    while buf[n] != '/'
      invariant LastSlash(text) <= n < |text|
      decreases n
    {
      assert buf[n] == text[n];
      n := n - 1;
    }
    assert buf[n] == text[n];
    ghost var was := buf[..n];
    buf[n] := '\0';
    assert buf[..n] == was == text[..n];
  }

  method GoUp(buf: array<char>, ghost text: string)
    requires Contains(buf, text) && Rooted(text)
    modifies buf
    ensures Contains(buf, Up(text))
  {
    var len := Strlen(buf, text);
    if len != 0 {
      CutLast(buf, len, text);
    }
  }

  // A slash and count characters of the path go behind the text.
  method PutComponent(buf: array<char>, len: nat, path: string, at: nat, count: nat, ghost text: string)
    requires Contains(buf, text) && len == |text| && at + count <= |path| && '\0' !in path && len + count + 1 < buf.Length
    modifies buf
    ensures Contains(buf, text + "/" + path[at..at + count])
  {
    buf[len] := '/';
    assert buf[..len] == text;
    assert buf[..len + 1] == text + "/";
    for i := 0 to count
      invariant buf[..len + 1 + i] == text + "/" + path[at..at + i]
    {
      ghost var was := buf[..len + 1 + i];
      buf[len + 1 + i] := path[at + i];
      assert buf[..len + 1 + i] == was;
      assert path[at..at + i + 1] == path[at..at + i] + [path[at + i]];
    }
    ghost var whole := buf[..len + 1 + count];
    buf[len + 1 + count] := '\0';
    assert buf[..len + 1 + count] == whole;
  }

  lemma {:induction false} SplitHead(s: string, n: nat)
    requires 0 < n <= |s| && '/' !in s[..n] && (n < |s| ==> s[n] == '/')
    ensures Split(s, '/') == [s[..n]] + Split(s[n..], '/')
  {
    UptoStops(s[..n], s[n..], '/');
    assert s == s[..n] + s[n..];
    assert s[0] == s[..n][0];
  }

  // The text the walk starts from: the working directory, for a path that is not absolute.
  function Start(filename: string, cwd: string): string {
    if filename != "" && filename[0] == '/' then "" else cwd
  }

  function CharAt(s: string, i: nat): char {
    if i < |s| then s[i] else '\0'
  }

  predicate Ends(ch: char) {
    ch == '\0' || ch == '/'
  }

  // The rest of the path still leads from the text to the goal, safely or not.
  predicate Ahead(text: string, rest: string, goal: string, safe: bool) {
    Rooted(text) && Walk(text, Split(rest, '/')) == goal && Safe(text, Split(rest, '/')) == safe
  }

  lemma {:induction false} AheadSlash(text: string, rest: string, goal: string, safe: bool)
    requires Ahead(text, rest, goal, safe) && rest != "" && rest[0] == '/'
    ensures Ahead(text, rest[1..], goal, safe)
  {
  }

  lemma {:induction false} AheadDots(text: string, rest: string, goal: string, safe: bool, n: nat)
    requires Ahead(text, rest, goal, safe) && 0 < n <= 2 && n <= |rest| && (n < |rest| ==> rest[n] == '/')
    requires rest[0] == '.' && rest[n - 1] == '.'
    ensures Rooted(text) && Ahead(if n == 1 then text else Up(text), rest[n..], goal, safe)
  {
    SplitHead(rest, n);
    assert rest[..n] == if n == 1 then "." else "..";
  }

  lemma {:induction false} AheadComponent(text: string, rest: string, goal: string, safe: bool, n: nat)
    requires Ahead(text, rest, goal, safe) && 0 < n <= |rest| && '/' !in rest[..n] && (n < |rest| ==> rest[n] == '/')
    requires rest[..n] != "." && rest[..n] != ".." && |text| + n < MAX_SIZE
    ensures if |text| + n + 1 < MAX_SIZE then Ahead(text + "/" + rest[..n], rest[n..], goal, safe) else !safe
  {
    SplitHead(rest, n);
    assert (text + "/" + rest[..n]) != "";
  }

  lemma {:induction false} AheadStop(text: string, rest: string, goal: string, safe: bool, n: nat)
    requires Ahead(text, rest, goal, safe) && n < |rest| && '/' !in rest[..n] && rest[n] != '/' && |text| + n >= MAX_SIZE - 1
    requires !(rest[0] == '.' && (|rest| == 1 || rest[1] == '/')) && !(|rest| >= 2 && rest[..2] == ".." && (|rest| == 2 || rest[2] == '/'))
    ensures text == goal && safe
  {
    var u := Upto(rest, '/');
    assert forall k :: 0 <= k < n ==> rest[k] == rest[..n][k];
    assert u > n && rest[0] != '/';
    assert u == 1 ==> rest[..1] == [rest[0]];
    assert u == 2 ==> |rest[..2]| == 2;
    assert Split(rest, '/')[0] == rest[..u];
  }

  // The same at a position of the path.
  lemma {:induction false} AtSlash(text: string, path: string, p: nat, goal: string, safe: bool)
    requires p < |path| && path[p] == '/' && Ahead(text, path[p..], goal, safe)
    ensures Ahead(text, path[p + 1..], goal, safe)
  {
    AheadSlash(text, path[p..], goal, safe);
    assert path[p..][1..] == path[p + 1..];
  }

  lemma {:induction false} AtDots(text: string, path: string, p: nat, goal: string, safe: bool, n: nat)
    requires p < |path| && Ahead(text, path[p..], goal, safe) && 0 < n <= 2 && '\0' !in path
    requires path[p] == '.' && CharAt(path, p + n - 1) == '.' && Ends(CharAt(path, p + n))
    ensures p + n <= |path| && Rooted(text)
    ensures Ahead(if n == 1 then text else Up(text), path[p + n..], goal, safe)
  {
    AheadDots(text, path[p..], goal, safe, n);
    assert path[p..][n..] == path[p + n..];
  }

  lemma {:induction false} AtComponent(text: string, path: string, p: nat, goal: string, safe: bool, n: nat)
    requires p < |path| && Ahead(text, path[p..], goal, safe) && 0 < n && p + n <= |path| && '/' !in path[p..p + n]
    requires p + n < |path| ==> path[p + n] == '/'
    requires !(path[p] == '.' && Ends(CharAt(path, p + 1)))
    requires !(path[p] == '.' && CharAt(path, p + 1) == '.' && Ends(CharAt(path, p + 2)))
    requires |text| + n < MAX_SIZE
    ensures if |text| + n + 1 < MAX_SIZE then Ahead(text + "/" + path[p..p + n], path[p + n..], goal, safe) else !safe
  {
    assert path[p..][..n] == path[p..p + n] && path[p..][n..] == path[p + n..];
    assert path[p..p + n][0] == path[p];
    assert n == 2 ==> path[p..p + n][1] == path[p + 1];
    AheadComponent(text, path[p..], goal, safe, n);
  }

  lemma {:induction false} AtStop(text: string, path: string, p: nat, goal: string, safe: bool, n: nat)
    requires p < |path| && Ahead(text, path[p..], goal, safe) && p + n < |path| && '/' !in path[p..p + n] && path[p + n] != '/'
    requires !(path[p] == '.' && Ends(CharAt(path, p + 1)))
    requires !(path[p] == '.' && CharAt(path, p + 1) == '.' && Ends(CharAt(path, p + 2)))
    requires |text| + n >= MAX_SIZE - 1
    ensures text == goal && safe
  {
    assert path[p..][..n] == path[p..p + n];
    AheadStop(text, path[p..], goal, safe, n);
  }

  // A component goes behind the text, ends the walk, or would end behind the buffer.
  method TakeComponent(buf: array<char>, path: string, p: nat, ghost text: string, ghost goal: string, ghost safe: bool)
    returns (outside: bool, stop: bool, count: nat)
    requires Contains(buf, text) && buf.Length == MAX_SIZE && '\0' !in path && p < |path| && path[p] != '/' && Ahead(text, path[p..], goal, safe)
    requires !(path[p] == '.' && Ends(CharAt(path, p + 1)))
    requires !(path[p] == '.' && CharAt(path, p + 1) == '.' && Ends(CharAt(path, p + 2)))
    modifies buf
    ensures outside ==> !safe
    ensures !outside && stop ==> text == goal && safe && Contains(buf, text)
    ensures !outside && !stop ==> count > 0 && p + count <= |path|
    ensures !outside && !stop ==>
      Contains(buf, text + "/" + path[p..p + count]) && Ahead(text + "/" + path[p..p + count], path[p + count..], goal, safe)
  {
    hide Ahead, Walk, Safe, Split, Contains, Up, Rooted;
    outside := false;
    var len := Strlen(buf, text);
    TextFits(buf, text);
    count, stop := CountChars(path, p, len);
    if !stop {
      AtComponent(text, path, p, goal, safe, count);
      outside := len + count + 1 >= MAX_SIZE;
      if !outside {
        PutComponent(buf, len, path, p, count, text);
      }
    } else {
      AtStop(text, path, p, goal, safe, count);
    }
  }

  /** The buffer loop writes outside the buffer exactly when a component ends at its end; otherwise it leaves the text of
      the walk. */
  method ResolvePath(filename: string, cwd: string) returns (outside: bool, buf: array<char>)
    requires '\0' !in filename && '\0' !in cwd && Rooted(cwd) && |cwd| < MAX_SIZE
    ensures outside <==> !Safe(Start(filename, cwd), Split(filename, '/'))
    ensures !outside ==> Contains(buf, Walk(Start(filename, cwd), Split(filename, '/')))
  {
    outside, buf := false, new char[MAX_SIZE];
    ghost var safe := Safe(Start(filename, cwd), Split(filename, '/'));
    ghost var goal := Walk(Start(filename, cwd), Split(filename, '/'));
    ghost var text := Start(filename, cwd);
    Begin(buf, filename, cwd);
    var p := 0;
    var stop := false;
    assert filename[0..] == filename;
    NoneAhead(goal, safe);
    while !stop && p < |filename|
      invariant p <= |filename| && Contains(buf, text)
      invariant buf.Length == MAX_SIZE && fresh(buf)
      invariant if stop then text == goal && safe else Ahead(text, filename[p..], goal, safe)
      decreases |filename| - p, !stop
    {
      hide Ahead, Walk, Safe, Split, Contains, Up, Rooted;
      if filename[p] == '/' {
        AtSlash(text, filename, p, goal, safe);
        p := p + 1;
        continue;
      }
      if filename[p] == '.' && Ends(CharAt(filename, p + 1)) {
        AtDots(text, filename, p, goal, safe, 1);
        p := p + 1;
        continue;
      }
      if filename[p] == '.' && CharAt(filename, p + 1) == '.' && Ends(CharAt(filename, p + 2)) {
        AtDots(text, filename, p, goal, safe, 2);
        p := p + 2;
        GoUp(buf, text);
        text := Up(text);
        continue;
      }
      var count;
      outside, stop, count := TakeComponent(buf, filename, p, text, goal, safe);
      if outside {
        return;
      }
      if !stop {
        text := text + "/" + filename[p..p + count];
        p := p + count;
      }
    }
    assert filename[|filename|..] == "";
  }

  lemma {:induction false} TextFits(buf: array<char>, text: string)
    requires Contains(buf, text)
    ensures |text| < buf.Length
  {
  }

  lemma {:induction false} NoneAhead(goal: string, safe: bool)
    ensures forall text :: Ahead(text, "", goal, safe) ==> text == goal && safe
  {
  }

  method Begin(buf: array<char>, filename: string, cwd: string)
    requires buf.Length == MAX_SIZE && |cwd| < MAX_SIZE && '\0' !in cwd
    modifies buf
    ensures Contains(buf, Start(filename, cwd))
  {
    if CharAt(filename, 0) != '/' {
      for i := 0 to |cwd|
        invariant buf[..i] == cwd[..i]
      {
        ghost var was := buf[..i];
        buf[i] := cwd[i];
        assert buf[..i] == was;
      }
      assert cwd[..|cwd|] == cwd;
      buf[|cwd|] := '\0';
      assert buf[..|cwd|] == cwd;
    } else {
      buf[0] := '\0';
    }
  }

  // The loop that measures a component.
  method CountChars(path: string, at: nat, len: nat) returns (count: nat, stop: bool)
    requires at < |path| && path[at] != '/' && '\0' !in path && len < MAX_SIZE
    ensures at + count <= |path| && '/' !in path[at..at + count]
    ensures !stop ==> count > 0 && (at + count < |path| ==> path[at + count] == '/') && len + count < MAX_SIZE
    ensures stop ==> len + count >= MAX_SIZE - 1 && at + count < |path| && path[at + count] != '/'
  {
    count, stop := 0, false;
    while CharAt(path, at + count) != '\0' && CharAt(path, at + count) != '/'
      invariant at + count <= |path| && '/' !in path[at..at + count] && !stop && (count > 0 ==> len + count < MAX_SIZE)
      decreases |path| - at - count
    {
      stop := len + count >= MAX_SIZE - 1;
      if stop {
        break;
      }
      count := count + 1;
    }
  }

  // ---------------------------------------------------------------- what callers get

  // A slash in front of a path pays for the one in front of its first component.
  lemma {:induction false} ShortFits(text: string, path: string)
    requires Rooted(text)
    requires |text| + |path| + (if path != "" && path[0] != '/' then 1 else 0) < MAX_SIZE
    ensures Fits(text, Split(path, '/'))
    decreases |path|
  {
    if path != "" {
      if path[0] == '/' {
        ShortFits(text, path[1..]);
      } else {
        var n := Upto(path, '/');
        var c, rest := path[..n], path[n..];
        ShortFits(if c == "." then text else if c == ".." then Up(text) else text + "/" + c, rest);
      }
    }
  }

  /** An absolute path that fits is resolved from the top, to a normal path. */
  lemma {:induction false} AbsolutePath(path: string, cwd: string)
    requires path != "" && path[0] == '/' && |path| < MAX_SIZE
    ensures var start, cs := Start(path, cwd), Split(path, '/');
      start == "" && Safe(start, cs) && Walk(start, cs) == Absolute(Resolve([], cs), '/') && AllProper(Resolve([], cs))
  {
    var cs := Split(path, '/');
    ShortFits("", path);
    FitsSafe("", cs);
    WalkResolves([], cs);
    ResolveProper([], cs);
  }

  /** A relative path is resolved from the working directory, when that is a normal path below the root. */
  lemma {:induction false} RelativePath(path: string, dirs: seq<string>)
    requires (path == "" || path[0] != '/') && AllProper(dirs) && dirs != [] && |Absolute(dirs, '/')| + |path| + 1 < MAX_SIZE
    ensures Rooted(Absolute(dirs, '/'))
    ensures var cwd := Absolute(dirs, '/'); var start, cs := Start(path, cwd), Split(path, '/');
      start == cwd && Safe(start, cs) && Walk(start, cs) == Absolute(Resolve(dirs, cs), '/') && AllProper(Resolve(dirs, cs))
  {
    var cwd, cs := Absolute(dirs, '/'), Split(path, '/');
    AbsoluteRooted(dirs);
    ShortFits(cwd, path);
    FitsSafe(cwd, cs);
    WalkResolves(dirs, cs);
    ResolveProper(dirs, cs);
  }

  /** In the root directory, a relative path is resolved as it is meant to be exactly when it goes above the root
      somewhere; otherwise the result has a second slash in front, or is that slash alone. */
  lemma {:induction false} RelativeInRoot(path: string)
    requires (path == "" || path[0] != '/') && |path| + 2 < MAX_SIZE
    ensures var cs := Split(path, '/'); var meant := Absolute(Resolve([], cs), '/');
      Start(path, "/") == "/" && Safe("/", cs) &&
      (Walk("/", cs) == meant <==> GoesAbove(0, cs)) &&
      (!GoesAbove(0, cs) ==> Walk("/", cs) == "/" + meant)
  {
    var cs := Split(path, '/');
    ShortFits("/", path);
    FitsSafe("/", cs);
    assert Absolute([], '/') == "" && "/" + "" == "/";
    WalkFromRoot([], cs);
    assert |"/" + Absolute(Resolve([], cs), '/')| == 1 + |Absolute(Resolve([], cs), '/')|;
  }

  /** A normal path that is not empty is a fixed point. */
  lemma {:induction false} ResolvedAgain(dirs: seq<string>, cwd: string)
    requires AllProper(dirs) && dirs != [] && |Absolute(dirs, '/')| < MAX_SIZE
    ensures var path := Absolute(dirs, '/'); Start(path, cwd) == "" && Walk("", Split(path, '/')) == path
  {
    var path := Absolute(dirs, '/');
    assert path[0] == '/';
    AbsolutePath(path, cwd);
    NormalFixed(dirs);
  }

  // ---------------------------------------------------------------- a component that ends at the end of the buffer

  lemma {:induction false} OneComponent(c: string)
    requires c != "" && '/' !in c
    ensures Split("/" + c, '/') == [c]
  {
    assert ("/" + c)[0] == '/' && ("/" + c)[1..] == c;
    SplitHead(c, |c|);
    assert c[..|c|] == c && c[|c|..] == "";
  }

  /** A path that is one name below the root is resolved inside the buffer exactly when it has not 4096 characters: a
      shorter one fits, and a longer one is left out. */
  lemma {:induction false} FullBuffer(c: string, cwd: string)
    requires Proper(c)
    ensures Start("/" + c, cwd) == "" && (Safe("", Split("/" + c, '/')) <==> |"/" + c| != MAX_SIZE)
  {
    OneComponent(c);
  }

  /** There is such a name. */
  lemma {:induction false} FullName()
    ensures Proper(seq(MAX_SIZE - 1, _ => 'a')) && |"/" + seq(MAX_SIZE - 1, _ => 'a')| == MAX_SIZE
  {
    var name := seq(MAX_SIZE - 1, _ => 'a');
    assert |name| == MAX_SIZE - 1 && forall i :: 0 <= i < |name| ==> name[i] == 'a';
  }
}
