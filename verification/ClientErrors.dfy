/** The error a client of src/json/jsonrpc_api.c reports for an error response: the message of the server is used as a
    format. */
module ClientErrors {
  import opened Options
  import opened Wire
  import opened WireLists
  import opened WireReplies
  import opened ClientReplies
  import opened Strings
  import R = JsonRpcSpec

  const UFA_ERROR_INTERNAL := 5
  const UNREADABLE := "Error parsing JSONRPC response: "

  datatype ClientError = ClientError(code: int, message: string)

  // ---------------------------------------------------------------- formatting

  /** What vsprintf makes of a format with these integer arguments; None when a conversion has no argument, or is none of
      %d, %i and %%. */
  function Formatted(format: string, args: seq<int>): Option<string>
    decreases |format|
  {
    if format == "" then Some("")
    else if format[0] != '%' then
      match Formatted(format[1..], args)
      case None => None
      case Some(text) => Some([format[0]] + text)
    else if |format| > 1 && format[1] == '%' then
      match Formatted(format[2..], args)
      case None => None
      case Some(text) => Some("%" + text)
    else if |format| > 1 && (format[1] == 'd' || format[1] == 'i') && args != [] then
      match Formatted(format[2..], args[1..])
      case None => None
      case Some(text) => Some(Decimal(args[0]) + text)
    else None
  }

  lemma {:induction false} DecimalStarts(n: int)
    ensures Decimal(n) != "" && Decimal(n)[0] != '%'
  {
    DigitsStart(if n < 0 then -n else n);
  }

  lemma {:induction false} DigitsStart(n: nat)
    ensures DecimalNat(n) != "" && DecimalNat(n)[0] != '%'
  {
    if n >= 10 {
      DigitsStart(n / 10);
    }
  }

  function Percents(n: nat): string {
    if n == 0 then "" else "%" + Percents(n - 1)
  }

  // Formatting never lengthens a text by percent signs in front.
  lemma {:induction false} NotLonger(format: string, args: seq<int>, n: nat)
    requires n > 0
    ensures Formatted(format, args) != Some(Percents(n) + format)
    decreases |format|
  {
    var longer := Percents(n) + format;
    assert longer[0] == '%';
    if format != "" && format[0] == '%' && |format| > 1 && format[1] == '%' {
      var rest := format[2..];
      NotLonger(rest, args, n + 1);
      PercentsMore(n, format, rest);
      assert longer == "%" + (Percents(n + 1) + rest);
      assert longer[1..] == Percents(n + 1) + rest;
      if Formatted(rest, args).Some? {
        assert ("%" + Formatted(rest, args).value)[1..] == Formatted(rest, args).value;
      }
    } else if format != "" && format[0] == '%' && args != [] {
      DecimalStarts(args[0]);
    }
  }

  lemma {:induction false} PercentsMore(n: nat, format: string, rest: string)
    requires |format| > 1 && format[0] == '%' && format[1] == '%' && rest == format[2..]
    ensures Percents(n) + format == "%" + (Percents(n + 1) + rest)
  {
    PercentsTwo(n);
    hide Percents;
    assert format == "%%" + rest;
    assert Percents(n) + ("%%" + rest) == (Percents(n) + "%%") + rest;
    assert "%" + Percents(n + 1) + rest == "%" + (Percents(n + 1) + rest);
  }

  lemma {:induction false} PercentsTwo(n: nat)
    ensures Percents(n) + "%%" == "%" + Percents(n + 1)
  {
    if n == 0 {
      assert Percents(1) == "%" + Percents(0);
    } else {
      PercentsTwo(n - 1);
      assert Percents(n) + "%%" == "%" + (Percents(n - 1) + "%%");
    }
  }

  /** A text formats to itself exactly when it holds no percent sign. */
  lemma {:induction false} FormattedExact(format: string, args: seq<int>)
    ensures Formatted(format, args) == Some(format) <==> '%' !in format
    decreases |format|
  {
    if format != "" {
      assert format == [format[0]] + format[1..];
      if format[0] != '%' {
        FormattedExact(format[1..], args);
      } else if |format| > 1 && format[1] == '%' {
        var rest := format[2..];
        NotLonger(rest, args, 1);
        assert Percents(1) == "%" + Percents(0) == "%";
        assert format[1..] == Percents(1) + rest;
        assert Formatted(rest, args).Some? ==> ("%" + Formatted(rest, args).value)[1..] == Formatted(rest, args).value;
      } else if args != [] {
        DecimalStarts(args[0]);
      }
    }
  }

  // ---------------------------------------------------------------- what a client reports

  // The error of a message with one, as request_jsonrpc puts it together; None when formatting it is undefined.
  function Told(error: R.Map): Option<ClientError> {
    if "code" in error && "message" in error then
      if error["code"].Long? && error["message"].Text? then
        match Formatted(error["message"].s, [error["code"].n])
        case None => None
        case Some(message) => Some(ClientError(error["code"].n, message))
      else None
    else Some(ClientError(UFA_ERROR_INTERNAL, UNREADABLE + Decimal(UFA_ERROR_INTERNAL)))
  }

  // request_jsonrpc: the error that a client is left with.
  function ErrorOf(reply: string, beyond: string): Option<ClientError> {
    match R.ParseRpc(Received(reply, beyond))
    case Ok(msg) => if msg.error == map[] then None else Told(msg.error)
    case Error(code) => Some(ClientError(UFA_ERROR_INTERNAL, UNREADABLE + Decimal(code)))
    case Unspecified => None
  }

  // Every error response fits the buffer of a client.
  lemma {:induction false} ErrorReplyShort(id: string, code: int, message: string)
    requires WireString(id) && WireString(message) && INT_MIN <= code <= INT_MAX
    ensures |ErrorReply(id, code, message)| < MAX_RESPONSE_SIZE
  {
    IntLength(code);
    var body := "{" + (" " + (TightKey("code") + (Decimal(code) + (", " + (TightKey("message") + (Quoted(message) + (" " + "}")))))));
    assert |body| <= 64 + |message|;
    hide Decimal, Quoted, TightKey;
    assert |Reply(id, "error", body)| <= 64 + |id| + |body|;
  }

  /** A client reports the server's error code and message exactly when the message holds no percent sign. */
  lemma {:induction false} ErrorReported(id: string, code: int, message: string, beyond: string)
    requires WireString(id) && WireString(message) && INT_MIN <= code <= INT_MAX
    ensures ErrorOf(ErrorReply(id, code, message), beyond) == Some(ClientError(code, message)) <==> '%' !in message
  {
    var error := map["code" := R.Long(code), "message" := R.JVal.Text(message)];
    ErrorReplyShort(id, code, message);
    ErrorReplyRoundTrip(id, code, message);
    FormattedExact(message, [code]);
    hide R.ParseRpc, ErrorReply, WireString, Formatted;
    assert "code" in error && error != map[] && "code" != "message";
    assert error["code"] == R.Long(code) && error["message"] == R.JVal.Text(message);
  }

  /** Two messages with a percent sign: the first is reported with the error code in it, the second is not defined. */
  lemma {:induction false} PercentNames(id: string, beyond: string)
    requires WireString(id)
    ensures ErrorOf(ErrorReply(id, 3, "a%d"), beyond) == Some(ClientError(3, "a3"))
    ensures ErrorOf(ErrorReply(id, 3, "a%"), beyond) == None
  {
    PlainIsBody("a%d");
    PlainIsBody("a%");
    NamesFormat();
    hide Formatted, R.ParseRpc, ErrorReply;
    NameTold(id, "a%d", beyond);
    NameTold(id, "a%", beyond);
  }

  lemma {:induction false} NamesFormat()
    ensures Formatted("a%d", [3]) == Some("a3") && Formatted("a%", [3]) == None
  {
    assert "a%d"[1..] == "%d" && "%d"[2..] == "" && "a%"[1..] == "%";
    assert Formatted("", []) == Some("") && Decimal(3) == "3" && [3][1..] == [];
    assert Formatted("%d", [3]) == Some("3" + "") && "3" + "" == "3";
    assert Formatted("%", [3]) == None && "a%d"[0] == "a%"[0] == 'a' && ['a'] + "3" == "a3";
    assert Formatted("a%d", [3]) == Some(['a'] + "3");
    assert Formatted("a%", [3]) == None;
  }

  lemma {:induction false} NameTold(id: string, message: string, beyond: string)
    requires WireString(id) && WireString(message)
    ensures ErrorOf(ErrorReply(id, 3, message), beyond) ==
      match Formatted(message, [3])
      case None => None
      case Some(text) => Some(ClientError(3, text))
  {
    var error := map["code" := R.Long(3), "message" := R.JVal.Text(message)];
    ErrorReplyShort(id, 3, message);
    ErrorReplyRoundTrip(id, 3, message);
    hide R.ParseRpc, ErrorReply, WireString, Formatted;
    assert "code" in error && error != map[] && "code" != "message";
    assert error["code"] == R.Long(3) && error["message"] == R.JVal.Text(message);
  }
}
