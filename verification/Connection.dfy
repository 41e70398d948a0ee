/** The receive loop of src/json/jsonrpc_server.c: requests arrive in chunks, a growing buffer is parsed again after
    each chunk, and every request is processed once, when it is complete. */
module Connection {
  import opened JsmnSpec
  import opened JsonText
  import opened JsonMessage
  import JsonRpcParser
  import R = JsonRpcSpec

  // read() takes at most this many bytes; the terminator the loop writes behind them must fit, too.
  const CHUNK_SIZE := 1024

  // The C string at the start of s.
  function CString(s: string): (r: string)
    ensures '\0' !in r && r <= s
  {
    if s == "" || s[0] == '\0' then "" else [s[0]] + CString(s[1..])
  }

  /** What is left in the buffer and what has been processed; `Lost` when nothing can be said any more. */
  datatype Conn = Conn(pending: string, processed: seq<R.Msg>) | Lost

  // What one chunk does. A request without a method is looked up with a null pointer.
  function Receive(conn: Conn, chunk: string): Conn {
    var part := CString(chunk);
    if conn.Lost? || part == "" then conn
    else
      var text := conn.pending + part;
      match R.ParseRpc(text)
      case Ok(msg) => if msg.methodName.Some? then Conn("", conn.processed + [msg]) else Lost
      case Error(code) => if code == ERROR_PART then conn.(pending := text) else conn.(pending := "")
      case Unspecified => Lost
  }

  function ReceiveAll(conn: Conn, chunks: seq<string>): Conn
    decreases |chunks|
  {
    if chunks == [] then conn else ReceiveAll(Receive(conn, chunks[0]), chunks[1..])
  }

  // ---------------------------------------------------------------- the buffer

  predicate Holds(buf: array<char>, text: string)
    reads buf
  {
    |text| < buf.Length && buf[..|text|] == text && forall i :: |text| <= i < buf.Length ==> buf[i] == '\0'
  }

  lemma {:induction false} TerminatorAt(buf: array<char>, text: string, n: nat)
    requires Holds(buf, text) && '\0' !in text && n <= |text| && buf[n] == '\0'
    ensures n == |text|
  {
    assert forall i :: 0 <= i < |text| ==> buf[i] == buf[..|text|][i] == text[i];
  }

  // strcat: the text and its terminator must fit.
  method Append(buf: array<char>, ghost text: string, part: string)
    requires Holds(buf, text) && '\0' !in text && |text| + |part| < buf.Length
    modifies buf
    ensures Holds(buf, text + part)
  {
    var n := 0;
    while buf[n] != '\0'
      invariant 0 <= n <= |text|
      decreases |text| - n
    {
      n := n + 1;
    }
    TerminatorAt(buf, text, n);
    for i := 0 to |part|
      invariant Holds(buf, text + part[..i])
    {
      ghost var was := buf[..n + i];
      buf[n + i] := part[i];
      assert buf[..n + i] == was;
      assert text + part[..i + 1] == (text + part[..i]) + [part[i]];
    }
    assert part[..|part|] == part;
  }

  // realloc and memset: a longer buffer with the old contents, zero behind them.
  method Grow(old_buf: array<char>, size: nat, ghost text: string) returns (buf: array<char>)
    requires Holds(old_buf, text) && old_buf.Length <= size
    ensures fresh(buf) && buf.Length == size && Holds(buf, text)
  {
    buf := new char[size](_ => '\0');
    forall i | 0 <= i < old_buf.Length {
      buf[i] := old_buf[i];
    }
    assert buf[..|text|] == old_buf[..|text|];
  }

  // The text of a terminated buffer.
  method Contents(buf: array<char>, ghost text: string) returns (s: string)
    requires Holds(buf, text) && '\0' !in text
    ensures s == text
  {
    var n := 0;
    while buf[n] != '\0'
      invariant 0 <= n <= |text|
      decreases |text| - n
    {
      n := n + 1;
    }
    TerminatorAt(buf, text, n);
    s := buf[..n];
  }

  // The array `part` after a read: the chunk and a terminator behind it.
  predicate Terminated(part: array<char>, chunk: string)
    reads part
  {
    |chunk| < part.Length && part[..|chunk|] == chunk && part[|chunk|] == '\0'
  }

  // read() puts the chunk at the start of the array.
  method Fill(part: array<char>, chunk: string)
    requires |chunk| <= part.Length
    modifies part
    ensures part[..|chunk|] == chunk
  {
    for i := 0 to |chunk|
      invariant part[..i] == chunk[..i]
    {
      ghost var was := part[..i];
      part[i] := chunk[i];
      assert part[..i] == was && chunk[..i + 1] == chunk[..i] + [chunk[i]];
    }
    assert chunk[..|chunk|] == chunk;
  }

  lemma {:induction false} CStringAt(s: string, n: nat)
    requires n <= |s| && '\0' !in s[..n] && (n < |s| ==> s[n] == '\0')
    ensures CString(s) == s[..n]
  {
    if n > 0 {
      assert s[..n][0] == s[0] && s[1..][..n - 1] == s[..n][1..];
      CStringAt(s[1..], n - 1);
    }
  }

  // The C string in the array.
  method PartText(part: array<char>, ghost chunk: string) returns (s: string)
    requires Terminated(part, chunk)
    ensures s == CString(chunk)
  {
    var n := 0;
    while part[n] != '\0'
      invariant n <= |chunk| && '\0' !in part[..n]
      decreases |chunk| - n
    {
      assert part[..n + 1] == part[..n] + [part[n]];
      n := n + 1;
    }
    s := part[..n];
    assert chunk[..n] == part[..|chunk|][..n] == part[..n];
    assert n < |chunk| ==> chunk[n] == part[..|chunk|][n];
    CStringAt(chunk, n);
  }

  // One read into the array: unless the chunk fills it, what has arrived is the C string of the chunk.
  method ReadPart(part: array<char>, chunk: string) returns (inside: bool, received: string)
    requires part.Length == CHUNK_SIZE && |chunk| <= CHUNK_SIZE
    modifies part
    ensures inside <==> |chunk| < CHUNK_SIZE
    ensures inside ==> received == CString(chunk)
  {
    Fill(part, chunk);
    var ret := |chunk|;
    if ret >= part.Length {
      return false, "";
    }
    part[ret] := '\0';
    assert part[..ret] == chunk;
    received := PartText(part, chunk);
    inside := true;
  }

  /** How a connection ends: with everything processed, with a write outside the array `part`, or undefined. */
  datatype End = Ended(processed: seq<R.Msg>) | Outside | Undefined

  predicate Small(chunks: seq<string>) {
    forall chunk :: chunk in chunks ==> |chunk| < CHUNK_SIZE
  }

  /** The chunks one after the other, up to one that does not leave room for the terminator. */
  function Serve(conn: Conn, chunks: seq<string>): End
    decreases |chunks|
  {
    if conn.Lost? then End.Undefined
    else if chunks == [] then Ended(conn.processed)
    else if |chunks[0]| >= CHUNK_SIZE then Outside
    else Serve(Receive(conn, chunks[0]), chunks[1..])
  }

  /** While ReceiveAll knows what happens, a connection ends exactly when all chunks are shorter than the array, and writes
      outside it otherwise. */
  lemma {:induction false} ServeExact(conn: Conn, chunks: seq<string>)
    ensures Serve(conn, chunks).Ended? <==> Small(chunks) && ReceiveAll(conn, chunks).Conn?
    ensures Serve(conn, chunks).Ended? ==> Serve(conn, chunks).processed == ReceiveAll(conn, chunks).processed
    ensures ReceiveAll(conn, chunks).Conn? ==> (Serve(conn, chunks).Outside? <==> !Small(chunks))
    decreases |chunks|
  {
    if conn.Lost? {
      StaysLost(chunks);
    } else if chunks != [] {
      assert chunks[0] in chunks;
      assert Small(chunks) <==> |chunks[0]| < CHUNK_SIZE && Small(chunks[1..]) by {
        assert forall chunk :: chunk in chunks <==> chunk == chunks[0] || chunk in chunks[1..];
      }
      ServeExact(Receive(conn, chunks[0]), chunks[1..]);
    }
  }

  lemma {:induction false} StaysLost(chunks: seq<string>)
    ensures ReceiveAll(Lost, chunks) == Lost
    decreases |chunks|
  {
    if chunks != [] {
      StaysLost(chunks[1..]);
    }
  }

  lemma {:induction false} ServeNext(conn: Conn, chunks: seq<string>, k: nat)
    requires k < |chunks| && conn.Conn?
    ensures Serve(conn, chunks[k..]) == if |chunks[k]| >= CHUNK_SIZE then Outside else Serve(Receive(conn, chunks[k]), chunks[k + 1..])
    ensures Serve(Lost, chunks[k + 1..]) == End.Undefined
  {
    hide Receive;
    assert chunks[k..][0] == chunks[k] && chunks[k..][1..] == chunks[k + 1..];
  }

  /** handle_connection over a given run of reads: as long as what happens is known, it stays inside the array `part`
      exactly when every chunk is shorter than the array, keeps a buffer that is always large enough, and processes what
      ReceiveAll says. */
  method HandleConnection(chunks: seq<string>) returns (end: End)
    requires forall chunk :: chunk in chunks ==> 0 < |chunk| <= CHUNK_SIZE
    ensures end == Serve(Conn("", []), chunks)
    ensures end.Ended? <==> Small(chunks) && ReceiveAll(Conn("", []), chunks).Conn?
    ensures end.Ended? ==> end.processed == ReceiveAll(Conn("", []), chunks).processed
    ensures ReceiveAll(Conn("", []), chunks).Conn? ==> (end.Outside? <==> !Small(chunks))
  {
    ServeExact(Conn("", []), chunks);
    hide ReceiveAll, Serve, R.ParseRpc, CString, Small;
    var processed := [];
    var part := new char[CHUNK_SIZE](_ => '\0');
    var buf := new char[1](_ => '\0');
    var last_size := 0;
    ghost var text := "";
    for k := 0 to |chunks|
      invariant Serve(Conn("", []), chunks) == Serve(Conn(text, processed), chunks[k..])
      invariant '\0' !in text && Holds(buf, text) && part.Length == CHUNK_SIZE && fresh(part) && fresh(buf) && part != buf
      invariant if last_size == 0 then text == "" && buf.Length == 1 else buf.Length == last_size
    {
      assert chunks[k] in chunks;
      ServeNext(Conn(text, processed), chunks, k);
      var inside, received := ReadPart(part, chunks[k]);
      if !inside {
        return Outside;
      }
      if |received| == 0 {
        continue;
      }
      last_size := last_size + |received| + 1;
      buf := Grow(buf, last_size, text);
      Append(buf, text, received);
      text := text + received;
      var json := Contents(buf, text);
      var r := JsonRpcParser.Parse(json);
      if r.Unspecified? || (r.Ok? && !r.msg.methodName.Some?) {
        return End.Undefined;
      }
      if r.Ok? {
        processed := processed + [r.msg];
      }
      if r != R.Error(ERROR_PART) {
        buf := new char[1](_ => '\0');
        last_size := 0;
        text := "";
      }
    }
    ServeNone(Conn(text, processed), chunks);
    end := Ended(processed);
  }

  lemma {:induction false} ServeNone(conn: Conn, chunks: seq<string>)
    requires conn.Conn?
    ensures Serve(conn, chunks[|chunks|..]) == Ended(conn.processed)
  {
  }

  lemma {:induction false} ReceiveNone(conn: Conn, chunks: seq<string>)
    ensures ReceiveAll(conn, chunks[|chunks|..]) == conn
  {
  }

  /** What read() returns for a stream whose bytes are all there. */
  function Reads(stream: string): (chunks: seq<string>)
    ensures forall chunk :: chunk in chunks ==> 0 < |chunk| <= CHUNK_SIZE
  {
    if stream == "" then []
    else if |stream| <= CHUNK_SIZE then [stream]
    else [stream[..CHUNK_SIZE]] + Reads(stream[CHUNK_SIZE..])
  }

  /** So a request that is there at once is received inside the array exactly when it and its terminator are shorter
      than the array. */
  lemma {:induction false} ShortRequestsInside(text: string)
    ensures (forall chunk :: chunk in Reads(text + "\0") ==> |chunk| < CHUNK_SIZE) <==> |text| + 1 < CHUNK_SIZE
  {
    var stream := text + "\0";
    if |stream| > CHUNK_SIZE {
      assert stream[..CHUNK_SIZE] in Reads(stream);
    } else {
      assert stream in Reads(stream);
    }
  }

  // ---------------------------------------------------------------- runs of requests

  function Flatten(chunks: seq<string>): string {
    if chunks == [] then "" else chunks[0] + Flatten(chunks[1..])
  }

  /** A request: a framed text that names a method. */
  ghost predicate Servable(text: string, msg: R.Msg) {
    Framed(text, msg) && msg.methodName.Some?
  }

  /** A framed text that is there at once is served exactly when it names a method. */
  lemma {:induction false} ServedExactly(text: string, msg: R.Msg, conn: Conn)
    requires Framed(text, msg) && conn.Conn? && conn.pending == ""
    ensures Receive(conn, text + "\0") == if msg.methodName.Some? then Conn("", conn.processed + [msg]) else Lost
  {
    FramedAt(text, msg, |text|);
    hide R.ParseRpc, Framed;
    CStringStops(text, "\0");
    assert "" + text == text;
  }

  /** The chunks of one request: its text with the terminating NUL, cut anywhere into non-empty pieces that leave room
      for the terminator behind them. */
  ghost predicate Carries(chunks: seq<string>, text: string) {
    Flatten(chunks) == text + "\0" && forall chunk :: chunk in chunks ==> 0 < |chunk| < CHUNK_SIZE
  }

  lemma {:induction false} CStringPrefix(s: string, text: string, rest: string)
    requires s + rest == text + "\0" && '\0' !in text
    ensures if |s| <= |text| then CString(s) == s == text[..|s|] else CString(s) == text && s == text + "\0"
  {
    if |s| <= |text| {
      assert s == (s + rest)[..|s|] == text[..|s|];
      CStringAll(s);
    } else {
      assert s == (s + rest)[..|s|] == text + "\0";
      CStringStops(text, "\0");
    }
  }

  lemma {:induction false} CStringAll(s: string)
    requires '\0' !in s
    ensures CString(s) == s
  {
    if s != "" {
      CStringAll(s[1..]);
    }
  }

  lemma {:induction false} CStringStops(s: string, rest: string)
    requires '\0' !in s && rest != "" && rest[0] == '\0'
    ensures CString(s + rest) == s
  {
    if s == "" {
      assert s + rest == rest;
    } else {
      assert (s + rest)[1..] == s[1..] + rest;
      CStringStops(s[1..], rest);
    }
  }

  // The chunks that are left of a request of which `done` characters have arrived.
  lemma {:induction false} ReceiveRest(chunks: seq<string>, text: string, msg: R.Msg, done: nat, conn: Conn)
    requires Servable(text, msg) && done < |text| && conn.Conn? && conn.pending == text[..done]
    requires Carries(chunks, text[done..])
    ensures ReceiveAll(conn, chunks) == Conn("", conn.processed + [msg])
    decreases |chunks|
  {
    hide *;
    CarriesSome(chunks, text[done..]);
    ServableAt(text, msg, |text|);
    var chunk, rest := chunks[0], chunks[1..];
    assert chunks == [chunk] + rest;
    ReceiveFirst(conn, chunk, rest);
    if |chunk| <= |text| - done {
      var now := done + |chunk|;
      CarriesRest(chunks, text, done);
      ReceivePart(conn, chunk, text, msg, done);
      if now < |text| {
        ReceiveRest(rest, text, msg, now, conn.(pending := text[..now]));
      } else {
        ReceiveTerminator(rest, Conn("", conn.processed + [msg]));
      }
    } else {
      CarriesLast(chunks, text[done..]);
      ReceiveWhole(conn, chunk, text, msg, done);
      ReceiveNone(Conn("", conn.processed + [msg]), []);
    }
  }

  lemma {:induction false} CarriesSome(chunks: seq<string>, text: string)
    requires Carries(chunks, text)
    ensures chunks != [] && chunks[0] != ""
  {
    assert chunks != [] ==> chunks[0] in chunks;
  }

  // What the other chunks carry when the first one ends within the text, and when it ends behind it.
  lemma {:induction false} CarriesRest(chunks: seq<string>, text: string, done: nat)
    requires chunks != [] && '\0' !in text && done + |chunks[0]| <= |text| && Carries(chunks, text[done..])
    ensures var chunk, now := chunks[0], done + |chunks[0]|;
      CString(chunk) == chunk && text[..done] + chunk == text[..now] && Carries(chunks[1..], text[now..]) &&
      (now == |text| ==> Flatten(chunks[1..]) == "" + "\0" && forall c :: c in chunks[1..] ==> c != "")
  {
    var chunk, rest := chunks[0], chunks[1..];
    assert forall c :: c in rest ==> c in chunks;
    CStringPrefix(chunk, text[done..], Flatten(rest));
    RestLeft(chunk, rest, text, done);
    hide CString, Flatten;
  }

  lemma {:induction false} CarriesLast(chunks: seq<string>, text: string)
    requires chunks != [] && '\0' !in text && |chunks[0]| > |text| && Carries(chunks, text)
    ensures CString(chunks[0]) == text && chunks[1..] == []
  {
    var chunk, rest := chunks[0], chunks[1..];
    assert forall c :: c in rest ==> c in chunks;
    CStringPrefix(chunk, text, Flatten(rest));
    assert |chunk| + |Flatten(rest)| == |text| + 1;
    NothingLeft(rest);
  }

  // A chunk of the text itself.
  lemma {:induction false} ReceivePart(conn: Conn, chunk: string, text: string, msg: R.Msg, done: nat)
    requires Servable(text, msg) && done < |text| && conn.Conn? && conn.pending == text[..done] && chunk != ""
    requires done + |chunk| <= |text| && CString(chunk) == chunk && text[..done] + chunk == text[..done + |chunk|]
    ensures Receive(conn, chunk) ==
      if done + |chunk| < |text| then conn.(pending := text[..done + |chunk|]) else Conn("", conn.processed + [msg])
  {
    hide R.ParseRpc, Framed, Servable;
    ServableAt(text, msg, done + |chunk|);
  }

  // The rest of the text with its terminator.
  lemma {:induction false} ReceiveWhole(conn: Conn, chunk: string, text: string, msg: R.Msg, done: nat)
    requires Servable(text, msg) && done < |text| && conn.Conn? && conn.pending == text[..done] && CString(chunk) == text[done..]
    ensures Receive(conn, chunk) == Conn("", conn.processed + [msg])
  {
    hide R.ParseRpc, Framed, Servable;
    ServableAt(text, msg, |text|);
    assert text[..done] + text[done..] == text;
  }

  lemma {:induction false} FramedAt(text: string, msg: R.Msg, n: nat)
    requires Framed(text, msg) && 0 < n <= |text|
    ensures R.ParseRpc(text[..n]) == (if n < |text| then R.Error(ERROR_PART) else R.Ok(msg)) && '\0' !in text
    ensures text[..|text|] == text
  {
    assert text[..|text|] == text;
  }

  lemma {:induction false} ServableAt(text: string, msg: R.Msg, n: nat)
    requires Servable(text, msg) && 0 < n <= |text|
    ensures R.ParseRpc(text[..n]) == (if n < |text| then R.Error(ERROR_PART) else R.Ok(msg)) && '\0' !in text
    ensures text[..|text|] == text && msg.methodName.Some? && text != ""
  {
    hide R.ParseRpc, Framed;
    FramedAt(text, msg, n);
  }

  // What the other chunks carry after a chunk of the text itself.
  lemma {:induction false} RestLeft(chunk: string, rest: seq<string>, text: string, done: nat)
    requires done + |chunk| <= |text| && chunk + Flatten(rest) == text[done..] + "\0"
    ensures text[..done] + chunk == text[..done + |chunk|] && Flatten(rest) == text[done + |chunk|..] + "\0"
  {
    hide Flatten;
    var now := done + |chunk|;
    assert text[done..] + "\0" == text[done..now] + (text[now..] + "\0");
    assert chunk == (chunk + Flatten(rest))[..|chunk|] == text[done..now];
    assert Flatten(rest) == (chunk + Flatten(rest))[|chunk|..];
  }

  lemma {:induction false} NothingLeft(chunks: seq<string>)
    requires forall c :: c in chunks ==> c != ""
    ensures Flatten(chunks) == "" ==> chunks == []
  {
    if chunks != [] {
      assert chunks[0] in chunks;
    }
  }

  // The terminator may arrive alone; it changes nothing.
  lemma {:induction false} ReceiveTerminator(chunks: seq<string>, conn: Conn)
    requires Flatten(chunks) == "" + "\0" && forall c :: c in chunks ==> c != ""
    ensures ReceiveAll(conn, chunks) == conn
  {
    hide R.ParseRpc;
    var chunk := chunks[0];
    assert chunk in chunks && forall c :: c in chunks[1..] ==> c in chunks;
    assert |chunk| + |Flatten(chunks[1..])| == 1;
    assert chunk == (chunk + Flatten(chunks[1..]))[..1] == "\0";
    assert CString("\0") == "";
    NothingLeft(chunks[1..]);
    assert ReceiveAll(conn, chunks) == ReceiveAll(conn, chunks[1..]);
  }

  lemma {:induction false} ReceiveAppend(conn: Conn, a: seq<string>, b: seq<string>)
    ensures ReceiveAll(conn, a + b) == ReceiveAll(ReceiveAll(conn, a), b)
    decreases |a|
  {
    hide R.ParseRpc;
    if a == [] {
      assert a + b == b;
    } else {
      assert (a + b)[1..] == a[1..] + b;
      ReceiveAppend(Receive(conn, a[0]), a[1..], b);
    }
  }

  function Concat(runs: seq<seq<string>>): seq<string> {
    if runs == [] then [] else runs[0] + Concat(runs[1..])
  }

  /** Stream reassembly: however the requests of a run are cut into chunks, each request is processed exactly once, in
      order, from its full text, and the buffer is empty when the run ends. */
  lemma {:induction false} Reassembly(runs: seq<seq<string>>, texts: seq<string>, msgs: seq<R.Msg>, conn: Conn)
    requires |runs| == |texts| == |msgs| && conn.Conn? && conn.pending == ""
    requires forall i :: 0 <= i < |runs| ==> Carries(runs[i], texts[i]) && Servable(texts[i], msgs[i])
    ensures ReceiveAll(conn, Concat(runs)) == Conn("", conn.processed + msgs)
  {
    hide R.ParseRpc, Framed, Servable, Carries;
    if runs == [] {
      assert conn.processed + msgs == conn.processed;
    } else {
      var next := Conn("", conn.processed + [msgs[0]]);
      ReceiveOne(runs[0], texts[0], msgs[0], conn);
      ReceiveAppend(conn, runs[0], Concat(runs[1..]));
      assert forall i :: 0 <= i < |runs[1..]| ==> runs[1..][i] == runs[i + 1] && texts[1..][i] == texts[i + 1] && msgs[1..][i] == msgs[i + 1];
      Reassembly(runs[1..], texts[1..], msgs[1..], next);
      assert conn.processed + [msgs[0]] + msgs[1..] == conn.processed + msgs;
    }
  }

  /** Such a run stays inside the array. */
  lemma {:induction false} RunsInside(runs: seq<seq<string>>, texts: seq<string>)
    requires |runs| == |texts| && forall i :: 0 <= i < |runs| ==> Carries(runs[i], texts[i])
    ensures forall chunk :: chunk in Concat(runs) ==> 0 < |chunk| < CHUNK_SIZE
  {
    if runs != [] {
      assert Carries(runs[0], texts[0]);
      hide Carries;
      assert forall i :: 0 <= i < |runs[1..]| ==> runs[1..][i] == runs[i + 1] && texts[1..][i] == texts[i + 1];
      RunsInside(runs[1..], texts[1..]);
    }
  }

  lemma {:induction false} ReceiveOne(chunks: seq<string>, text: string, msg: R.Msg, conn: Conn)
    requires Servable(text, msg) && Carries(chunks, text) && conn.Conn? && conn.pending == ""
    ensures ReceiveAll(conn, chunks) == Conn("", conn.processed + [msg])
  {
    assert text[0..] == text && text[..0] == "";
    ReceiveRest(chunks, text, msg, 0, conn);
  }

  // ---------------------------------------------------------------- several requests in one chunk

  // Requests with their terminators, one behind the other.
  function Stream(texts: seq<string>): string {
    if texts == [] then "" else texts[0] + "\0" + Stream(texts[1..])
  }

  // A terminator is only at the end of a chunk, if anywhere.
  predicate EndsThere(chunk: string) {
    0 < |chunk| < CHUNK_SIZE && '\0' !in chunk[..|chunk| - 1]
  }

  // The first chunks, up to a terminator.
  function FirstRun(chunks: seq<string>): (k: nat)
    requires '\0' in Flatten(chunks) && forall c :: c in chunks ==> EndsThere(c)
    ensures 0 < k <= |chunks|
  {
    assert EndsThere(chunks[0]) && forall c :: c in chunks[1..] ==> c in chunks;
    if chunks[0][|chunks[0]| - 1] == '\0' || '\0' !in Flatten(chunks[1..]) then 1 else 1 + FirstRun(chunks[1..])
  }

  lemma {:induction false} FirstRunEnds(chunks: seq<string>)
    requires '\0' in Flatten(chunks) && forall c :: c in chunks ==> EndsThere(c)
    ensures var front := Flatten(chunks[..FirstRun(chunks)]);
      front != "" && front[|front| - 1] == '\0' && '\0' !in front[..|front| - 1]
    ensures Flatten(chunks) == Flatten(chunks[..FirstRun(chunks)]) + Flatten(chunks[FirstRun(chunks)..])
  {
    var chunk, rest := chunks[0], chunks[1..];
    var n := |chunk| - 1;
    assert chunk in chunks && EndsThere(chunk) && forall c :: c in rest ==> c in chunks;
    assert chunk == chunk[..n] + [chunk[n]];
    if chunk[n] == '\0' || '\0' !in Flatten(rest) {
      assert chunks[..1] == [chunk] && [chunk][1..] == [] && chunk + "" == chunk;
    } else {
      FirstRunEnds(rest);
      var k := FirstRun(rest);
      assert FirstRun(chunks) == k + 1 && chunks[..k + 1] == [chunk] + rest[..k] && chunks[k + 1..] == rest[k..];
      FlattenCons(chunk, rest[..k]);
      hide Flatten, FirstRun, EndsThere;
      Behind(chunk, Flatten(rest[..k]), Flatten(rest[k..]));
    }
  }

  lemma {:induction false} Behind(chunk: string, front: string, rest: string)
    requires front != "" && front[|front| - 1] == '\0' && '\0' !in front[..|front| - 1] && '\0' !in chunk
    ensures var s := chunk + front; s != "" && s[|s| - 1] == '\0' && '\0' !in s[..|s| - 1]
    ensures chunk + (front + rest) == (chunk + front) + rest
  {
    var s := chunk + front;
    assert s[..|s| - 1] == chunk + front[..|front| - 1];
  }

  lemma {:induction false} FlattenCons(chunk: string, rest: seq<string>)
    ensures Flatten([chunk] + rest) == chunk + Flatten(rest)
  {
    assert ([chunk] + rest)[1..] == rest;
  }

  // What stands before the first terminator.
  lemma {:induction false} SameHead(a: string, x: string, b: string, y: string)
    requires '\0' !in a && '\0' !in b && a + "\0" + x == b + "\0" + y
    ensures a == b && x == y
  {
    var s := a + "\0" + x;
    assert s[|a|] == '\0' && s[|b|] == '\0';
    assert forall i :: 0 <= i < |a| ==> s[i] == a[i];
    assert forall i :: 0 <= i < |b| ==> s[i] == b[i];
    assert a == s[..|a|] && b == s[..|b|] && x == s[|a| + 1..] && y == s[|b| + 1..];
  }

  /** However a stream of requests is cut into chunks below CHUNK_SIZE, as long as each terminator ends a chunk, every
      request is processed exactly once, in order, and nothing is left. */
  lemma {:induction false} StreamArrives(chunks: seq<string>, texts: seq<string>, msgs: seq<R.Msg>, conn: Conn)
    requires |texts| == |msgs| && conn.Conn? && conn.pending == "" && Flatten(chunks) == Stream(texts)
    requires forall i :: 0 <= i < |texts| ==> Servable(texts[i], msgs[i])
    requires forall c :: c in chunks ==> EndsThere(c)
    ensures ReceiveAll(conn, chunks) == Conn("", conn.processed + msgs)
    decreases |texts|
  {
    hide *;
    if texts == [] {
      NoStream(chunks);
      ReceiveNone(conn, []);
      assert conn.processed + msgs == conn.processed;
    } else {
      StreamHead(chunks, texts, msgs[0]);
      var k := FirstRun(chunks);
      var front, rest := chunks[..k], chunks[k..];
      assert chunks == front + rest && forall c :: c in rest ==> c in chunks;
      ReceiveOne(front, texts[0], msgs[0], conn);
      ReceiveAppend(conn, front, rest);
      StreamArrives(rest, texts[1..], msgs[1..], Conn("", conn.processed + [msgs[0]]));
      assert conn.processed + [msgs[0]] + msgs[1..] == conn.processed + msgs;
    }
  }

  lemma {:induction false} NoStream(chunks: seq<string>)
    requires Flatten(chunks) == Stream([]) && forall c :: c in chunks ==> EndsThere(c)
    ensures chunks == []
  {
    NothingLeft(chunks);
  }

  // The chunks of the first request, and those of the others.
  lemma {:induction false} StreamHead(chunks: seq<string>, texts: seq<string>, msg: R.Msg)
    requires texts != [] && Servable(texts[0], msg) && Flatten(chunks) == Stream(texts) && forall c :: c in chunks ==> EndsThere(c)
    ensures '\0' in Flatten(chunks)
    ensures var k := FirstRun(chunks); Carries(chunks[..k], texts[0]) && Flatten(chunks[k..]) == Stream(texts[1..])
  {
    ServableAt(texts[0], msg, |texts[0]|);
    hide Framed, Servable, R.ParseRpc;
    assert Stream(texts)[|texts[0]|] == '\0';
    FirstRunEnds(chunks);
    var k := FirstRun(chunks);
    var front := Flatten(chunks[..k]);
    var n := |front| - 1;
    assert front == front[..n] + "\0";
    SameHead(texts[0], Stream(texts[1..]), front[..n], Flatten(chunks[k..]));
    assert forall c :: c in chunks[..k] ==> c in chunks;
  }

  // Whole requests in one chunk: only the first is received.
  lemma {:induction false} FirstOfGroup(texts: seq<string>, msg: R.Msg, conn: Conn)
    requires texts != [] && Servable(texts[0], msg) && conn.Conn? && conn.pending == ""
    ensures Receive(conn, Stream(texts)) == Conn("", conn.processed + [msg])
  {
    ServableAt(texts[0], msg, |texts[0]|);
    FirstOfStream(texts);
    hide *;
    assert texts[0][0..] == texts[0] && texts[0][..0] == "";
    ReceiveWhole(conn, Stream(texts), texts[0], msg, 0);
  }

  lemma {:induction false} FirstOfStream(texts: seq<string>)
    requires texts != [] && '\0' !in texts[0]
    ensures CString(Stream(texts)) == texts[0]
  {
    assert Stream(texts) == texts[0] + ("\0" + Stream(texts[1..]));
    CStringStops(texts[0], "\0" + Stream(texts[1..]));
  }

  /** A chunk that ends one request and begins the next one: the first is processed, nothing is left in the buffer, and the
      next one is read without its beginning. */
  lemma {:induction false} StraddlingChunk(conn: Conn, text: string, msg: R.Msg, done: nat, start: string, rest: seq<string>)
    requires Servable(text, msg) && done < |text| && conn.Conn? && conn.pending == text[..done]
    ensures Receive(conn, text[done..] + "\0" + start) == Conn("", conn.processed + [msg])
    ensures ReceiveAll(conn, [text[done..] + "\0" + start] + rest) == ReceiveAll(Conn("", conn.processed + [msg]), rest)
  {
    hide *;
    ServableAt(text, msg, |text|);
    var chunk := text[done..] + "\0" + start;
    assert chunk == text[done..] + ("\0" + start);
    CStringStops(text[done..], "\0" + start);
    ReceiveWhole(conn, chunk, text, msg, done);
    ReceiveFirst(conn, chunk, rest);
  }

  function Streams(groups: seq<seq<string>>): seq<string> {
    if groups == [] then [] else [Stream(groups[0])] + Streams(groups[1..])
  }

  function Firsts(msgs: seq<seq<R.Msg>>): (r: seq<R.Msg>)
    requires forall i :: 0 <= i < |msgs| ==> msgs[i] != []
    ensures |r| == |msgs|
  {
    if msgs == [] then [] else [msgs[0][0]] + Firsts(msgs[1..])
  }

  function All(msgs: seq<seq<R.Msg>>): seq<R.Msg> {
    if msgs == [] then [] else msgs[0] + All(msgs[1..])
  }

  lemma {:induction false} GroupsReceive(groups: seq<seq<string>>, msgs: seq<seq<R.Msg>>, conn: Conn)
    requires |groups| == |msgs| && conn.Conn? && conn.pending == ""
    requires forall i :: 0 <= i < |groups| ==> groups[i] != [] && msgs[i] != [] && Servable(groups[i][0], msgs[i][0])
    ensures ReceiveAll(conn, Streams(groups)) == Conn("", conn.processed + Firsts(msgs))
    decreases |groups|
  {
    hide Framed, Servable, Receive, Stream, ReceiveAll;
    if groups == [] {
      ReceiveNone(conn, []);
      assert [][0..] == Streams(groups) && conn.processed + [] == conn.processed;
    } else {
      FirstOfGroup(groups[0], msgs[0][0], conn);
      var next := Conn("", conn.processed + [msgs[0][0]]);
      assert forall i :: 0 <= i < |groups[1..]| ==> groups[1..][i] == groups[i + 1] && msgs[1..][i] == msgs[i + 1];
      GroupsReceive(groups[1..], msgs[1..], next);
      ReceiveFirst(conn, Stream(groups[0]), Streams(groups[1..]));
      assert conn.processed + [msgs[0][0]] + Firsts(msgs[1..]) == conn.processed + Firsts(msgs);
    }
  }

  lemma {:induction false} ReceiveFirst(conn: Conn, chunk: string, rest: seq<string>)
    ensures ReceiveAll(conn, [chunk] + rest) == ReceiveAll(Receive(conn, chunk), rest)
  {
    hide Receive;
    assert ([chunk] + rest)[1..] == rest;
  }

  lemma {:induction false} GroupSizes(msgs: seq<seq<R.Msg>>)
    requires forall i :: 0 <= i < |msgs| ==> msgs[i] != []
    ensures |All(msgs)| >= |msgs|
    ensures Firsts(msgs) == All(msgs) <==> forall i :: 0 <= i < |msgs| ==> |msgs[i]| == 1
  {
    if msgs != [] {
      var rest := msgs[1..];
      assert forall i :: 0 <= i < |rest| ==> rest[i] == msgs[i + 1];
      GroupSizes(rest);
      if |msgs[0]| == 1 {
        assert msgs[0] == [msgs[0][0]];
        assert Firsts(msgs)[1..] == Firsts(rest) && All(msgs)[1..] == All(rest);
        assert Firsts(msgs)[0] == All(msgs)[0];
        if Firsts(rest) == All(rest) {
          assert Firsts(msgs) == All(msgs);
        }
        assert (forall i :: 0 <= i < |msgs| ==> |msgs[i]| == 1) <==> forall i :: 0 <= i < |rest| ==> |rest[i]| == 1;
      } else {
        assert |All(msgs)| > |Firsts(msgs)|;
      }
    }
  }

  /** When each chunk holds whole requests, every request is processed exactly when no chunk holds two: what follows the
      first terminator in a chunk is dropped. */
  lemma {:induction false} OneRequestPerChunk(groups: seq<seq<string>>, msgs: seq<seq<R.Msg>>)
    requires |groups| == |msgs|
    requires forall i :: 0 <= i < |groups| ==> |groups[i]| == |msgs[i]| > 0 && Servable(groups[i][0], msgs[i][0])
    ensures ReceiveAll(Conn("", []), Streams(groups)) == Conn("", All(msgs)) <==> forall i :: 0 <= i < |msgs| ==> |msgs[i]| == 1
  {
    hide R.ParseRpc, Framed, Servable, Receive;
    GroupsReceive(groups, msgs, Conn("", []));
    GroupSizes(msgs);
    assert [] + Firsts(msgs) == Firsts(msgs);
  }
}
