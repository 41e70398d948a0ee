/** The client and the server over one connection: whatever requests the client prints, and however the transport
    cuts them, the server processes each of them once and with the values the client gave. */
module Endpoint {
  import opened Options
  import opened JsmnSpec
  import opened JsonMessage
  import opened Connection
  import opened Wire
  import opened WireLists
  import opened Filters
  import WireRequests
  import StoreSpec
  import StoreLaws
  import JsmnInvariant
  import Search
  import SqlText
  import Queries
  import R = JsonRpcSpec

  /** The calls of the client interface. */
  datatype Call =
    | SetTag(filepath: string, tag: string)
    | ListTags(repodir: string)
    | GetTags(filepath: string)
    | GetAttr(filepath: string)
    | UnsetAttr(filepath: string, attribute: string)
    | InsertTag(repodir: string, tag: string)
    | ClearTags(filepath: string)
    | UnsetTag(filepath: string, tag: string)
    | SetAttr(filepath: string, attribute: string, value: string)
    | Search(repos: seq<string>, filters: seq<Filter>, tags: seq<string>, withConfig: bool)

  function Print(call: Call): string {
    match call
    case SetTag(filepath, tag) => WireRequests.SetTag(filepath, tag)
    case ListTags(repodir) => WireRequests.ListTags(repodir)
    case GetTags(filepath) => WireRequests.GetTags(filepath)
    case GetAttr(filepath) => WireRequests.GetAttr(filepath)
    case UnsetAttr(filepath, attribute) => WireRequests.UnsetAttr(filepath, attribute)
    case InsertTag(repodir, tag) => WireRequests.InsertTag(repodir, tag)
    case ClearTags(filepath) => WireRequests.ClearTags(filepath)
    case UnsetTag(filepath, tag) => WireRequests.UnsetTag(filepath, tag)
    case SetAttr(filepath, attribute, value) => WireRequests.SetAttr(filepath, attribute, value)
    case Search(repos, filters, tags, withConfig) => WireLists.Search(repos, filters, tags, withConfig)
  }

  function Texts2(key1: string, value1: string, key2: string, value2: string): R.Map {
    map[key1 := R.JVal.Text(value1), key2 := R.JVal.Text(value2)]
  }

  // The message the server is to get for a call.
  function Meant(call: Call): R.Msg {
    match call
    case SetTag(filepath, tag) => WireRequests.Request("settag", Texts2("filepath", filepath, "tag", tag))
    case ListTags(repodir) => WireRequests.Request("listtags", map["repodir" := R.JVal.Text(repodir)])
    case GetTags(filepath) => WireRequests.Request("gettags", map["filepath" := R.JVal.Text(filepath)])
    case GetAttr(filepath) => WireRequests.Request("getattr", map["filepath" := R.JVal.Text(filepath)])
    case UnsetAttr(filepath, attribute) => WireRequests.Request("unsetattr", Texts2("filepath", filepath, "attribute", attribute))
    case InsertTag(repodir, tag) => WireRequests.Request("inserttag", Texts2("repodir", repodir, "tag", tag))
    case ClearTags(filepath) => WireRequests.Request("cleartags", map["filepath" := R.JVal.Text(filepath)])
    case UnsetTag(filepath, tag) => WireRequests.Request("unsettag", Texts2("filepath", filepath, "tag", tag))
    case SetAttr(filepath, attribute, value) =>
      WireRequests.Request("setattr", Texts2("filepath", filepath, "attribute", attribute)["value" := R.JVal.Text(value)])
    case Search(repos, filters, tags, withConfig) => WireRequests.Request("search", SearchTable(repos, filters, tags, withConfig))
  }

  /** What a client can check before it sends a call. */
  ghost predicate OnWire(call: Call) {
    match call
    case SetTag(filepath, tag) => WireString(filepath) && WireString(tag)
    case ListTags(repodir) => WireString(repodir)
    case GetTags(filepath) => WireString(filepath)
    case GetAttr(filepath) => WireString(filepath)
    case UnsetAttr(filepath, attribute) => WireString(filepath) && WireString(attribute)
    case InsertTag(repodir, tag) => WireString(repodir) && WireString(tag)
    case ClearTags(filepath) => WireString(filepath)
    case UnsetTag(filepath, tag) => WireString(filepath) && WireString(tag)
    case SetAttr(filepath, attribute, value) => WireString(filepath) && WireString(attribute) && WireString(value)
    case Search(repos, filters, tags, withConfig) =>
      WireStrings(repos) && WireStrings(tags) && FiltersOnWire(filters) && 9 + |repos| + 7 * |filters| + |tags| <= ROOM
  }

  /** Every call on the wire is framed: partial until its last character, then read as what the client meant. */
  lemma {:induction false} CallFramed(call: Call)
    requires OnWire(call)
    ensures Framed(Print(call), Meant(call))
  {
    hide Framed, WireString, WireStrings, FiltersOnWire, WireRequests.Request, SearchTable;
    hide WireRequests.SetTag, WireRequests.ListTags, WireRequests.GetTags, WireRequests.GetAttr, WireRequests.UnsetAttr;
    hide WireRequests.InsertTag, WireRequests.ClearTags, WireRequests.UnsetTag, WireRequests.SetAttr, WireLists.Search;
    match call
    case SetTag(filepath, tag) => WireRequests.SetTagRoundTrip(filepath, tag);
    case ListTags(repodir) => WireRequests.ListTagsRoundTrip(repodir);
    case GetTags(filepath) => WireRequests.GetTagsRoundTrip(filepath);
    case GetAttr(filepath) => WireRequests.GetAttrRoundTrip(filepath);
    case UnsetAttr(filepath, attribute) => WireRequests.UnsetAttrRoundTrip(filepath, attribute);
    case InsertTag(repodir, tag) => WireRequests.InsertTagRoundTrip(repodir, tag);
    case ClearTags(filepath) => WireRequests.ClearTagsRoundTrip(filepath);
    case UnsetTag(filepath, tag) => WireRequests.UnsetTagRoundTrip(filepath, tag);
    case SetAttr(filepath, attribute, value) => WireRequests.SetAttrRoundTrip(filepath, attribute, value);
    case Search(repos, filters, tags, withConfig) => SearchRoundTrip(repos, filters, tags, withConfig);
  }

  lemma {:induction false} CallServable(call: Call)
    requires OnWire(call)
    ensures Servable(Print(call), Meant(call))
  {
    CallFramed(call);
    hide Framed, OnWire, Print;
  }

  function Prints(calls: seq<Call>): (r: seq<string>)
    ensures |r| == |calls| && forall i :: 0 <= i < |calls| ==> r[i] == Print(calls[i])
  {
    if calls == [] then [] else [Print(calls[0])] + Prints(calls[1..])
  }

  function Meants(calls: seq<Call>): (r: seq<R.Msg>)
    ensures |r| == |calls| && forall i :: 0 <= i < |calls| ==> r[i] == Meant(calls[i])
  {
    if calls == [] then [] else [Meant(calls[0])] + Meants(calls[1..])
  }

  /** End to end: for any run of calls on the wire, each printed and cut into any chunks below CHUNK_SIZE, the server
      stays inside its array and processes exactly these calls, each once and in order, and nothing is left in its buffer. */
  lemma {:induction false} CallsArrive(calls: seq<Call>, runs: seq<seq<string>>)
    requires |calls| == |runs| && forall i :: 0 <= i < |calls| ==> OnWire(calls[i]) && Carries(runs[i], Print(calls[i]))
    ensures ReceiveAll(Conn("", []), Concat(runs)) == Conn("", Meants(calls))
    ensures forall chunk :: chunk in Concat(runs) ==> 0 < |chunk| < CHUNK_SIZE
  {
    hide Framed, OnWire, Carries, Print, Meant, Servable;
    forall i | 0 <= i < |calls|
      ensures Servable(Prints(calls)[i], Meants(calls)[i])
    {
      CallServable(calls[i]);
    }
    RunsInside(runs, Prints(calls));
    Reassembly(runs, Prints(calls), Meants(calls), Conn("", []));
    assert [] + Meants(calls) == Meants(calls);
  }

  // ---------------------------------------------------------------- a call that is too long for the array

  function LongPath(): (s: string)
    ensures |s| == CHUNK_SIZE - 1 && forall i :: 0 <= i < |s| ==> s[i] == 'a'
  {
    seq(CHUNK_SIZE - 1, _ => 'a')
  }

  lemma {:induction false} PathInside(filepath: string)
    ensures |WireRequests.GetTags(filepath)| > |filepath|
  {
    var fields := [Field("filepath", filepath, " ")];
    assert |FieldsText(fields)| >= |FieldText("filepath", filepath)| > |filepath|;
    assert |ObjectText(" ", fields)| > |FieldsText(fields)|;
    hide ObjectText, FieldsText, FieldText;
  }

  /** Asking for the tags of a path of 1023 letters is a call on the wire; sent at once, it leaves the array. */
  lemma {:induction false} LongCallOutside()
    ensures OnWire(GetTags(LongPath()))
    ensures exists chunk :: chunk in Reads(Print(GetTags(LongPath())) + "\0") && |chunk| == CHUNK_SIZE
  {
    var path := LongPath();
    PlainIsBody(path);
    PathInside(path);
    hide JsmnInvariant.IsBody, WireRequests.GetTags, Reads;
    ShortRequestsInside(Print(GetTags(path)));
  }

  // ---------------------------------------------------------------- a search, from the client to the tables

  function TextsIn(v: R.JVal): seq<string>
    requires forall x :: x in ItemsIn(v) ==> x.Text?
  {
    seq(|ItemsIn(v)|, i requires 0 <= i < |ItemsIn(v)| => ItemsIn(v)[i].s)
  }

  datatype Arguments = Arguments(filters: seq<Filter>, tags: seq<string>)

  predicate AllParameters(params: R.Map) {
    "filter_attrs" in params && "tags" in params && "repo_dirs" in params && "include_repo_from_config" in params
  }

  // What handle_search takes out of the parameters.
  function ServerArguments(params: R.Map): Option<Arguments> {
    if AllParameters(params) && (forall x :: x in ItemsIn(params["tags"]) ==> x.Text?) &&
      (forall x :: x in ItemsIn(params["filter_attrs"]) ==> IsFilterTable(x))
    then Some(Arguments(FiltersFrom(ItemsIn(params["filter_attrs"])), TextsIn(params["tags"])))
    else None
  }

  /** The filters as they arrive: one on the presence of an attribute has become one for the value "(null)". */
  function Arrived(filters: seq<Filter>): (r: seq<Filter>)
    ensures |r| == |filters| && (r == filters <==> forall i :: 0 <= i < |filters| ==> filters[i].value.Some?)
  {
    var r := seq(|filters|, i requires 0 <= i < |filters| => filters[i].(value := Some(Shown(filters[i].value))));
    assert (forall i :: 0 <= i < |filters| ==> r[i] == filters[i]) ==> r == filters;
    assert forall i :: 0 <= i < |filters| ==> (r[i] == filters[i] <==> filters[i].value.Some?);
    r
  }

  lemma {:induction false} ServerGets(params: R.Map, filters: seq<Filter>, tags: seq<string>)
    requires AllParameters(params)
    requires params["tags"] == R.ListOf(TextList(tags)) && params["filter_attrs"] == R.ListOf(FilterTables(filters))
    ensures ServerArguments(params) == Some(Arguments(Arrived(filters), tags))
  {
    hide IsFilterTable, FilterFrom, FilterTable, FiltersFrom, Shown;
    FiltersArrive(filters);
    assert ItemsIn(R.ListOf(TextList(tags))) == TextList(tags);
    assert TextsIn(params["tags"]) == tags;
    assert FiltersFrom(ItemsIn(params["filter_attrs"])) == Arrived(filters);
  }

  lemma {:induction false} SearchArguments(call: Call)
    requires call.Search?
    ensures ServerArguments(Meant(call).params) == Some(Arguments(Arrived(call.filters), call.tags))
  {
    hide SearchTable, ServerArguments;
    SearchEntries(call.repos, call.filters, call.tags, call.withConfig);
    ServerGets(SearchTable(call.repos, call.filters, call.tags, call.withConfig), call.filters, call.tags);
  }

  /** What a repository answers to the parameters of a search; None when they are not those of a search. */
  function AnswerTo(db: StoreSpec.Db, like: (string, string) -> bool, params: R.Map): Option<Queries.Found>
    requires StoreSpec.ForeignKeys(db)
  {
    match ServerArguments(params)
    case None => None
    case Some(args) => Some(Queries.Outcome(db, like, args.filters, args.tags))
  }

  // What a search on the wire finds, given its filters as they arrive.
  ghost function Promised(db: StoreSpec.Db, like: (string, string) -> bool, filters: seq<Filter>, tags: seq<string>): Queries.Found
    requires SqlText.Known(filters) && StoreSpec.ForeignKeys(db)
  {
    if filters == [] && tags == [] then Queries.NoCriterion
    else if SqlText.Fits(filters) then
      Queries.Files(if Queries.DistinctCriteria(filters, tags) then Search.SearchMeant(StoreLaws.View(db), like, filters, tags) else {})
    else if Queries.CutBetween(filters) then Queries.Files({})
    else Queries.SyntaxError
  }

  lemma {:induction false} ArrivedKnown(call: Call)
    requires call.Search? && OnWire(call)
    ensures SqlText.Known(Arrived(call.filters))
  {
    hide WireString, WireStrings;
    forall i | 0 <= i < |call.filters|
      ensures SqlText.KnownMode(Arrived(call.filters)[i])
    {
      assert FilterOnWire(call.filters[i]);
    }
  }

  /** A search on the wire reaches every repository of the server as the client meant it, and finds exactly the files the
      client asked for, as long as all its filters have values, its clause fits the buffer of the server, and its tags and
      the names of its filters are pairwise distinct. */
  lemma {:induction false} SearchServed(call: Call, db: StoreSpec.Db, like: (string, string) -> bool)
    requires call.Search? && OnWire(call) && StoreSpec.Valid(db)
    ensures R.ParseRpc(Print(call)) == R.Ok(Meant(call))
    ensures SqlText.Known(Arrived(call.filters))
    ensures AnswerTo(db, like, Meant(call).params) == Some(Promised(db, like, Arrived(call.filters), call.tags))
  {
    ArrivedKnown(call);
    SearchArguments(call);
    SearchReadBack(call);
    hide OnWire, Print, Meant, ServerArguments, Search.SearchMeant, StoreSpec.Valid, StoreLaws.View, R.ParseRpc;
    hide SqlText.Fits, SqlText.Known, Queries.CutBetween, Queries.DistinctCriteria, Arrived;
    OutcomeKept(db, like, Arrived(call.filters), call.tags);
  }

  lemma {:induction false} OutcomeKept(db: StoreSpec.Db, like: (string, string) -> bool, filters: seq<Filter>, tags: seq<string>)
    requires StoreSpec.Valid(db) && SqlText.Known(filters)
    ensures Queries.Outcome(db, like, filters, tags) == Promised(db, like, filters, tags)
  {
    hide Search.SearchMeant, StoreLaws.View, SqlText.Fits, Queries.CutBetween, Queries.DistinctCriteria, Queries.Answer;
    if filters != [] || tags != [] {
      Queries.OutcomeExact(db, like, filters, tags);
    }
  }

  lemma {:induction false} SearchReadBack(call: Call)
    requires OnWire(call)
    ensures R.ParseRpc(Print(call)) == R.Ok(Meant(call))
  {
    CallFramed(call);
    hide OnWire, Print, Meant, R.ParseRpc;
  }

  // ---------------------------------------------------------------- a search that fails

  // Filters for the value "v" of the attributes "a", "aa", ...
  function LetterFilters(n: nat): (r: seq<Filter>)
    ensures |r| == n && forall i :: 0 <= i < n ==> r[i] == Filter(seq(i + 1, _ => 'a'), Some("v"), 0)
  {
    seq(n, (i: nat) => Filter(seq(i + 1, _ => 'a'), Some("v"), 0))
  }

  function LetterSearch(n: nat): Call {
    Call.Search([], LetterFilters(n), [], true)
  }

  /** A search with 129 filters, distinct and all on the wire, is a syntax error in every repository; with 128 it is not. */
  lemma {:induction false} LongSearchFails(n: nat, db: StoreSpec.Db, like: (string, string) -> bool)
    requires 0 < n <= 129 && StoreSpec.Valid(db)
    ensures OnWire(LetterSearch(n)) && Search.DistinctNames(LetterFilters(n))
    ensures R.ParseRpc(Print(LetterSearch(n))) == R.Ok(Meant(LetterSearch(n)))
    ensures AnswerTo(db, like, Meant(LetterSearch(n)).params) == Some(Queries.SyntaxError) <==> n == 129
  {
    LettersOnWire(n);
    LettersDistinct(n);
    hide OnWire, Print, Meant, R.ParseRpc, LetterFilters, Search.DistinctNames, LetterSearch;
    SearchReadBack(LetterSearch(n));
    LetterAnswer(n, db, like);
  }

  lemma {:induction false} LetterAnswer(n: nat, db: StoreSpec.Db, like: (string, string) -> bool)
    requires 0 < n <= 129 && StoreSpec.Valid(db)
    ensures AnswerTo(db, like, Meant(LetterSearch(n)).params) == Some(Queries.SyntaxError) <==> n == 129
  {
    assert StoreSpec.ForeignKeys(db) && LetterFilters(n) != [] && |LetterFilters(n)| == n && Queries.Most(Queries.HasEqual) == 128;
    hide *;
    LettersAlike(n);
    LetterOutcome(n, db, like);
    Queries.TooManyFilters(db, like, LetterFilters(n), [], Queries.HasEqual);
  }

  lemma {:induction false} LetterOutcome(n: nat, db: StoreSpec.Db, like: (string, string) -> bool)
    requires StoreSpec.ForeignKeys(db)
    ensures AnswerTo(db, like, Meant(LetterSearch(n)).params) == Some(Queries.Outcome(db, like, LetterFilters(n), []))
  {
    LettersAlike(n);
    SearchArguments(LetterSearch(n));
    hide Meant, ServerArguments, Queries.Outcome, LetterFilters, Queries.Alike;
  }

  lemma {:induction false} LettersAlike(n: nat)
    ensures Queries.Alike(LetterFilters(n), Queries.HasEqual) && Arrived(LetterFilters(n)) == LetterFilters(n)
  {
  }

  lemma {:induction false} LettersDistinct(n: nat)
    ensures Search.DistinctNames(LetterFilters(n))
  {
    var filters := LetterFilters(n);
    assert forall i :: 0 <= i < n ==> |filters[i].attribute| == i + 1;
  }

  lemma {:induction false} LettersOnWire(n: nat)
    requires n <= 129
    ensures OnWire(Call.Search([], LetterFilters(n), [], true))
  {
    PlainIsBody("v");
    hide JsmnInvariant.IsBody;
    forall f | f in LetterFilters(n)
      ensures FilterOnWire(f)
    {
      PlainIsBody(f.attribute);
    }
  }
}
