/** The SQL texts that src/core/repo_sqlite.c generates with placeholders, and the values it binds to them in separate
    loops. */
module SqlText {
  import opened Options
  import opened Filters
  import opened Strings
  import opened Search

  datatype Bind = Text(s: string) | Int(n: int)

  /** A statement as it is meant: literal text, and places with the value that belongs there. */
  datatype Piece = Lit(text: string) | Hole(value: Bind)

  function PieceText(p: Piece): string {
    if p.Lit? then p.text else "?"
  }

  function PieceValues(p: Piece): seq<Bind> {
    if p.Lit? then [] else [p.value]
  }

  function Render(pieces: seq<Piece>): string {
    if pieces == [] then "" else PieceText(pieces[0]) + Render(pieces[1..])
  }

  function Values(pieces: seq<Piece>): seq<Bind> {
    if pieces == [] then [] else PieceValues(pieces[0]) + Values(pieces[1..])
  }

  function Count(s: string, c: char): nat {
    if s == "" then 0 else (if s[0] == c then 1 else 0) + Count(s[1..], c)
  }

  predicate Plain(pieces: seq<Piece>) {
    forall i :: 0 <= i < |pieces| && pieces[i].Lit? ==> '?' !in pieces[i].text
  }

  lemma {:induction false} CountAppend(a: string, b: string, c: char)
    ensures Count(a + b, c) == Count(a, c) + Count(b, c)
  {
    if a == "" {
      assert a + b == b;
    } else {
      assert (a + b)[1..] == a[1..] + b;
      CountAppend(a[1..], b, c);
    }
  }

  lemma {:induction false} CountNone(s: string, c: char)
    requires c !in s
    ensures Count(s, c) == 0
  {
    if s != "" {
      CountNone(s[1..], c);
    }
  }

  /** A rendered statement has one placeholder for each value. */
  lemma {:induction false} PlaceholdersMatch(pieces: seq<Piece>)
    requires Plain(pieces)
    ensures Count(Render(pieces), '?') == |Values(pieces)|
  {
    if pieces != [] {
      PlaceholdersMatch(pieces[1..]);
      CountAppend(PieceText(pieces[0]), Render(pieces[1..]), '?');
      if pieces[0].Lit? {
        CountNone(pieces[0].text, '?');
      } else {
        assert Count("?"[1..], '?') == 0;
      }
    }
  }

  lemma {:induction false} RenderAppend(a: seq<Piece>, b: seq<Piece>)
    ensures Render(a + b) == Render(a) + Render(b)
  {
    hide PieceText;
    if a == [] {
      assert a + b == b;
    } else {
      assert (a + b)[1..] == a[1..] + b;
      RenderAppend(a[1..], b);
    }
  }

  lemma {:induction false} ValuesAppend(a: seq<Piece>, b: seq<Piece>)
    ensures Values(a + b) == Values(a) + Values(b)
  {
    hide PieceValues;
    if a == [] {
      assert a + b == b;
    } else {
      assert (a + b)[1..] == a[1..] + b;
      ValuesAppend(a[1..], b);
    }
  }

  // A piece in front.
  lemma {:induction false} RenderCons(p: Piece, rest: seq<Piece>)
    ensures Render([p] + rest) == PieceText(p) + Render(rest) && Values([p] + rest) == PieceValues(p) + Values(rest)
  {
    assert ([p] + rest)[1..] == rest;
  }

  lemma {:induction false} RenderOne(p: Piece)
    ensures Render([p]) == PieceText(p) && Values([p]) == PieceValues(p)
  {
    assert [p][1..] == [];
  }

  // ---------------------------------------------------------------- argument lists

  // The values of a list, with commas between their places.
  function ListPieces(values: seq<Bind>): (r: seq<Piece>)
    ensures Plain(r)
  {
    if values == [] then []
    else if |values| == 1 then [Hole(values[0])]
    else [Hole(values[0]), Lit(",")] + ListPieces(values[1..])
  }

  lemma {:induction false} ListCons(value: Bind, rest: seq<Piece>)
    ensures Render([Hole(value), Lit(",")] + rest) == "?," + Render(rest) && Values([Hole(value), Lit(",")] + rest) == [value] + Values(rest)
  {
    RenderCons(Hole(value), [Lit(",")] + rest);
    RenderCons(Lit(","), rest);
    assert [Hole(value), Lit(",")] + rest == [Hole(value)] + ([Lit(",")] + rest);
  }

  lemma {:induction false} ListRenders(values: seq<Bind>)
    ensures Values(ListPieces(values)) == values
    ensures values != [] ==> Render(ListPieces(values)) + "," == Repeat("?,", |values|)
  {
    hide Render, Values, Repeat;
    if values == [] {
      NoPieces();
    } else if |values| == 1 {
      RenderOne(Hole(values[0]));
      NoPieces();
      RepeatFront("?,", 0);
    } else {
      ListRenders(values[1..]);
      ListCons(values[0], ListPieces(values[1..]));
      RepeatFront("?,", |values| - 1);
    }
  }

  lemma {:induction false} NoPieces()
    ensures Render([]) == "" && Values([]) == [] && Repeat("?,", 0) == ""
  {
  }

  lemma {:induction false} RepeatFront(s: string, n: nat)
    ensures Repeat(s, n + 1) == s + Repeat(s, n)
  {
    if n > 0 {
      RepeatFront(s, n - 1);
    }
  }

  /** sql_arg_list: a placeholder for each value of the list. */
  method ArgList(values: seq<Bind>) returns (r: string)
    ensures r == Render(ListPieces(values))
  {
    if |values| == 0 {
      return "";
    }
    ListRenders(values);
    var sql_args := Multiply("?,", |values|);
    assert sql_args == Render(ListPieces(values)) + ",";
    r := sql_args[..|sql_args| - 1];
  }

  // ---------------------------------------------------------------- search by tags

  const TAGS_HEAD := "f.id IN (SELECT id_file " + "FROM file_tag ft,tag t " + "WHERE id_tag = t.id " + "AND t.name IN ("
  const TAGS_TAIL := ") GROUP BY id_file " + "HAVING COUNT(id_file) = "
  const TAGS_END := ") "

  function TextsOf(list: seq<string>): (r: seq<Bind>)
    ensures |r| == |list| && forall i :: 0 <= i < |list| ==> r[i] == Text(list[i])
  {
    seq(|list|, i requires 0 <= i < |list| => Text(list[i]))
  }

  /** The condition on tags: one of the tags, as often as there are tags. */
  function TagPieces(tags: seq<string>): seq<Piece> {
    if tags == [] then []
    else [Lit(TAGS_HEAD)] + (ListPieces(TextsOf(tags)) + ([Lit(TAGS_TAIL)] + ([Hole(Int(|tags|))] + [Lit(TAGS_END)])))
  }

  // generate_sql_search_tags
  method GenerateTags(tags: seq<string>) returns (r: string)
    ensures r == Render(TagPieces(tags))
  {
    var sql_args_tags := ArgList(TextsOf(tags));
    if |tags| > 0 {
      TagTexts(tags);
      r := TAGS_HEAD + (sql_args_tags + (TAGS_TAIL + ("?" + TAGS_END)));
    } else {
      r := "";
    }
  }

  lemma {:induction false} TagTexts(tags: seq<string>)
    requires tags != []
    ensures Render(TagPieces(tags)) == TAGS_HEAD + (Render(ListPieces(TextsOf(tags))) + (TAGS_TAIL + ("?" + TAGS_END)))
    ensures Values(TagPieces(tags)) == TextsOf(tags) + [Int(|tags|)]
  {
    hide Render, Values, ListPieces;
    var list := ListPieces(TextsOf(tags));
    var count := [Hole(Int(|tags|))] + [Lit(TAGS_END)];
    ListRenders(TextsOf(tags));
    RenderCons(Lit(TAGS_HEAD), list + ([Lit(TAGS_TAIL)] + count));
    RenderAppend(list, [Lit(TAGS_TAIL)] + count);
    ValuesAppend(list, [Lit(TAGS_TAIL)] + count);
    RenderCons(Lit(TAGS_TAIL), count);
    RenderCons(Hole(Int(|tags|)), [Lit(TAGS_END)]);
    RenderOne(Lit(TAGS_END));
    NoPieces();
  }

  // ---------------------------------------------------------------- search by attributes

  const MAX_LEN := 4096
  const OR := " OR "
  const NAME_HEAD := "(a.name = "
  const VALUE_HEAD := " AND a.value "

  // ufa_repo_matchmode_sql
  function Operator(matchmode: int): string
    requires matchmode == 0 || matchmode == 1
  {
    if matchmode == WILDCARD then "LIKE" else "="
  }

  // The operator is looked up only for a filter with a value.
  predicate KnownMode(f: Filter) {
    f.value.None? || f.matchmode == 0 || f.matchmode == 1
  }

  predicate Known(filters: seq<Filter>) {
    forall i :: 0 <= i < |filters| ==> KnownMode(filters[i])
  }

  function Wanted(filter: Filter): string
    requires filter.value.Some?
  {
    if filter.matchmode == WILDCARD then Pattern(filter.value.value) else filter.value.value
  }

  /** The condition of one filter. */
  function FilterPieces(f: Filter): seq<Piece>
    requires KnownMode(f)
  {
    match f.value
    case None => [Lit(NAME_HEAD), Hole(Text(f.attribute)), Lit(")")]
    case Some(_) => [Lit(NAME_HEAD), Hole(Text(f.attribute)), Lit(VALUE_HEAD), Lit(Operator(f.matchmode)), Lit(" "), Hole(Text(Wanted(f))), Lit(")")]
  }

  function FilterSql(f: Filter): string
    requires KnownMode(f)
  {
    match f.value
    case None => NAME_HEAD + ("?" + ")")
    case Some(_) => NAME_HEAD + ("?" + (VALUE_HEAD + (Operator(f.matchmode) + (" " + ("?" + ")")))))
  }

  function FilterBinds(f: Filter): seq<Bind> {
    match f.value
    case None => [Text(f.attribute)]
    case Some(_) => [Text(f.attribute), Text(Wanted(f))]
  }

  lemma {:induction false} FilterRenders(f: Filter)
    requires KnownMode(f)
    ensures Render(FilterPieces(f)) == FilterSql(f) && Values(FilterPieces(f)) == FilterBinds(f)
  {
    hide Render, Values, Operator;
    NoPieces();
    RenderOne(Lit(")"));
    var p2 := [Lit(")")];
    match f.value
    case None =>
      RenderCons(Hole(Text(f.attribute)), p2);
      RenderCons(Lit(NAME_HEAD), [Hole(Text(f.attribute))] + p2);
      assert FilterPieces(f) == [Lit(NAME_HEAD)] + ([Hole(Text(f.attribute))] + p2);
    case Some(_) =>
      var p3 := [Hole(Text(Wanted(f)))] + p2;
      var p4 := [Lit(" ")] + p3;
      var p5 := [Lit(Operator(f.matchmode))] + p4;
      var p6 := [Lit(VALUE_HEAD)] + p5;
      var p7 := [Hole(Text(f.attribute))] + p6;
      RenderCons(Hole(Text(Wanted(f))), p2);
      RenderCons(Lit(" "), p3);
      RenderCons(Lit(Operator(f.matchmode)), p4);
      RenderCons(Lit(VALUE_HEAD), p5);
      RenderCons(Hole(Text(f.attribute)), p6);
      RenderCons(Lit(NAME_HEAD), p7);
      assert FilterPieces(f) == [Lit(NAME_HEAD)] + p7;
  }

  // The conditions of all filters.
  function ClausePieces(filters: seq<Filter>): seq<Piece>
    requires Known(filters)
  {
    if filters == [] then []
    else if |filters| == 1 then FilterPieces(filters[0])
    else FilterPieces(filters[0]) + ([Lit(OR)] + ClausePieces(filters[1..]))
  }

  function ClauseSql(filters: seq<Filter>): string
    requires Known(filters)
  {
    if filters == [] then ""
    else if |filters| == 1 then FilterSql(filters[0])
    else FilterSql(filters[0]) + (OR + ClauseSql(filters[1..]))
  }

  function ClauseBinds(filters: seq<Filter>): seq<Bind> {
    if filters == [] then [] else FilterBinds(filters[0]) + ClauseBinds(filters[1..])
  }

  lemma {:induction false} ClauseRenders(filters: seq<Filter>)
    requires Known(filters)
    ensures Render(ClausePieces(filters)) == ClauseSql(filters) && Values(ClausePieces(filters)) == ClauseBinds(filters)
  {
    hide Render, Values, FilterPieces, FilterSql, FilterBinds;
    if filters == [] {
      NoPieces();
    } else {
      FilterRenders(filters[0]);
      ClauseRenders(filters[1..]);
      if |filters| > 1 {
        OrRenders(FilterPieces(filters[0]), ClausePieces(filters[1..]));
      } else {
        assert FilterBinds(filters[0]) + [] == FilterBinds(filters[0]);
      }
    }
  }

  lemma {:induction false} OrRenders(a: seq<Piece>, b: seq<Piece>)
    ensures Render(a + ([Lit(OR)] + b)) == Render(a) + (OR + Render(b)) && Values(a + ([Lit(OR)] + b)) == Values(a) + Values(b)
  {
    hide Render, Values;
    RenderAppend(a, [Lit(OR)] + b);
    ValuesAppend(a, [Lit(OR)] + b);
    RenderCons(Lit(OR), b);
  }

  const ATTRS_HEAD := " AND ("
  const ATTRS_TAIL := ") GROUP BY f.id HAVING COUNT(f.id) = "

  /** The condition on attributes: one of the filters, as often as there are filters. */
  function AttrPieces(filters: seq<Filter>): seq<Piece>
    requires Known(filters)
  {
    if filters == [] then []
    else [Lit(ATTRS_HEAD)] + (ClausePieces(filters) + ([Lit(ATTRS_TAIL)] + [Hole(Int(|filters|))]))
  }

  function AttrSql(clause: string): string {
    ATTRS_HEAD + (clause + (ATTRS_TAIL + "?"))
  }

  lemma {:induction false} AttrRenders(filters: seq<Filter>)
    requires Known(filters) && filters != []
    ensures Render(AttrPieces(filters)) == AttrSql(ClauseSql(filters))
    ensures Values(AttrPieces(filters)) == ClauseBinds(filters) + [Int(|filters|)]
  {
    hide Render, Values;
    var tail := [Lit(ATTRS_TAIL)] + [Hole(Int(|filters|))];
    ClauseRenders(filters);
    RenderCons(Lit(ATTRS_HEAD), ClausePieces(filters) + tail);
    RenderAppend(ClausePieces(filters), tail);
    ValuesAppend(ClausePieces(filters), tail);
    RenderCons(Lit(ATTRS_TAIL), [Hole(Int(|filters|))]);
    RenderOne(Hole(Int(|filters|)));
  }

  // What fits the buffer.
  function Cut(s: string): string {
    if |s| < MAX_LEN then s else s[..MAX_LEN - 1]
  }

  // strncat(buffer, s, MAX_LEN - strlen(buffer) - 1)
  function Strncat(buffer: string, s: string): string
    requires |buffer| < MAX_LEN
  {
    var n := MAX_LEN - |buffer| - 1;
    buffer + if |s| <= n then s else s[..n]
  }

  lemma {:induction false} StrncatCuts(a: string, b: string)
    ensures Strncat(Cut(a), b) == Cut(a + b)
  {
  }

  // The text of one filter, as it is formatted.
  method FormatFilter(f: Filter) returns (str: string)
    requires KnownMode(f)
    ensures str == FilterSql(f)
  {
    if f.value == None {
      str := NAME_HEAD + ("?" + ")");
    } else {
      str := NAME_HEAD + ("?" + (VALUE_HEAD + (Operator(f.matchmode) + (" " + ("?" + ")")))));
    }
  }

  // The text after i turns of the loop.
  function ClauseUpto(filters: seq<Filter>, i: nat): string
    requires Known(filters) && i <= |filters|
  {
    if i == 0 then "" else ClauseUpto(filters, i - 1) + FilterSql(filters[i - 1]) + if i < |filters| then OR else ""
  }

  lemma {:induction false} ClauseRest(filters: seq<Filter>, i: nat)
    requires Known(filters) && i <= |filters|
    ensures ClauseUpto(filters, i) + ClauseSql(filters[i..]) == ClauseSql(filters)
  {
    hide FilterSql;
    if i == 0 {
      assert filters[0..] == filters;
    } else {
      ClauseRest(filters, i - 1);
      var rest := filters[i - 1..];
      assert rest[0] == filters[i - 1] && rest[1..] == filters[i..];
    }
  }

  // generate_sql_search_attrs
  method GenerateAttrs(filters: seq<Filter>) returns (r: string)
    requires Known(filters)
    ensures r == if filters == [] then "" else AttrSql(Cut(ClauseSql(filters)))
  {
    var count_list := |filters|;
    if count_list == 0 {
      return "";
    }
    var new_str := JoinFilters(filters);
    r := ATTRS_HEAD + (new_str + (ATTRS_TAIL + "?"));
  }

  // Its loop.
  method JoinFilters(filters: seq<Filter>) returns (new_str: string)
    requires Known(filters)
    ensures new_str == Cut(ClauseSql(filters))
  {
    new_str := "";
    var count_list := |filters|;
    NoClause();
    hide Cut, FilterSql, ClauseSql, ClauseUpto;
    UptoNone(filters);
    for i := 0 to count_list
      invariant |new_str| < MAX_LEN && new_str == Cut(ClauseUpto(filters, i))
    {
      var str := FormatFilter(filters[i]);
      UptoNext(filters, i);
      new_str := Append(new_str, str, ClauseUpto(filters, i));
      if i + 1 < count_list {
        new_str := Append(new_str, OR, ClauseUpto(filters, i) + str);
      }
    }
    UptoAll(filters);
  }

  lemma {:induction false} UptoNone(filters: seq<Filter>)
    requires Known(filters)
    ensures ClauseUpto(filters, 0) == ""
  {
  }

  lemma {:induction false} UptoNext(filters: seq<Filter>, i: nat)
    requires Known(filters) && i < |filters|
    ensures ClauseUpto(filters, i + 1) ==
      if i + 1 < |filters| then ClauseUpto(filters, i) + FilterSql(filters[i]) + OR else ClauseUpto(filters, i) + FilterSql(filters[i])
  {
    hide FilterSql;
  }

  lemma {:induction false} UptoAll(filters: seq<Filter>)
    requires Known(filters)
    ensures ClauseUpto(filters, |filters|) == ClauseSql(filters)
  {
    ClauseRest(filters, |filters|);
    assert filters[|filters|..] == [];
  }

  method Append(buffer: string, s: string, ghost whole: string) returns (r: string)
    requires |buffer| < MAX_LEN && buffer == Cut(whole)
    ensures |r| < MAX_LEN && r == Cut(whole + s)
  {
    StrncatCuts(whole, s);
    r := Strncat(buffer, s);
  }

  lemma {:induction false} NoClause()
    ensures ClauseSql([]) == "" && Cut("") == ""
  {
  }

  // ---------------------------------------------------------------- the search statement

  const FROM_FILES := "SELECT f.id,f.name FROM file f WHERE "
  const FROM_ATTRS := "SELECT f.id,f.name FROM file f,attribute a " + "WHERE a.id_file=f.id "
  const FROM_BOTH := "SELECT f.id,f.name FROM file f,attribute a " + "WHERE  "
  const JOIN := "  AND a.id_file=f.id "

  /** The search statement as it is meant. */
  function SearchPieces(filters: seq<Filter>, tags: seq<string>): seq<Piece>
    requires Known(filters)
  {
    if filters == [] then [Lit(FROM_FILES)] + TagPieces(tags)
    else if tags == [] then [Lit(FROM_ATTRS)] + AttrPieces(filters)
    else [Lit(FROM_BOTH)] + (TagPieces(tags) + ([Lit(JOIN)] + AttrPieces(filters)))
  }

  function SearchSql(clause: string, tags: seq<string>, some: bool): string {
    if !some then FROM_FILES + Render(TagPieces(tags))
    else if tags == [] then FROM_ATTRS + AttrSql(clause)
    else FROM_BOTH + (Render(TagPieces(tags)) + (JOIN + AttrSql(clause)))
  }

  function TagBinds(tags: seq<string>): seq<Bind> {
    if tags == [] then [] else TextsOf(tags) + [Int(|tags|)]
  }

  function AttrBinds(filters: seq<Filter>): seq<Bind> {
    if filters == [] then [] else ClauseBinds(filters) + [Int(|filters|)]
  }

  lemma {:induction false} SearchRenders(filters: seq<Filter>, tags: seq<string>)
    requires Known(filters) && (filters != [] || tags != [])
    ensures Render(SearchPieces(filters, tags)) == SearchSql(ClauseSql(filters), tags, filters != [])
    ensures Values(SearchPieces(filters, tags)) == TagBinds(tags) + AttrBinds(filters)
  {
    if filters == [] {
      TagTexts(tags);
      hide Render, Values, TagPieces;
      RenderCons(Lit(FROM_FILES), TagPieces(tags));
    } else if tags == [] {
      AttrRenders(filters);
      hide Render, Values, AttrPieces, AttrSql;
      RenderCons(Lit(FROM_ATTRS), AttrPieces(filters));
    } else {
      SearchRendersBoth(filters, tags);
    }
  }

  lemma {:induction false} SearchRendersBoth(filters: seq<Filter>, tags: seq<string>)
    requires Known(filters) && filters != [] && tags != []
    ensures Render(SearchPieces(filters, tags)) == FROM_BOTH + (Render(TagPieces(tags)) + (JOIN + AttrSql(ClauseSql(filters))))
    ensures Values(SearchPieces(filters, tags)) == TagBinds(tags) + AttrBinds(filters)
  {
    TagTexts(tags);
    AttrRenders(filters);
    hide TagPieces, AttrPieces, AttrSql, ListPieces;
    BothRender(TagPieces(tags), AttrPieces(filters));
    BothBind(TagPieces(tags), AttrPieces(filters));
  }

  lemma {:induction false} BothRender(a: seq<Piece>, b: seq<Piece>)
    ensures Render([Lit(FROM_BOTH)] + (a + ([Lit(JOIN)] + b))) == FROM_BOTH + (Render(a) + (JOIN + Render(b)))
  {
    hide Render, Values;
    RenderCons(Lit(FROM_BOTH), a + ([Lit(JOIN)] + b));
    RenderAppend(a, [Lit(JOIN)] + b);
    RenderCons(Lit(JOIN), b);
  }

  lemma {:induction false} BothBind(a: seq<Piece>, b: seq<Piece>)
    ensures Values([Lit(FROM_BOTH)] + (a + ([Lit(JOIN)] + b))) == Values(a) + Values(b)
  {
    hide Render, Values;
    RenderCons(Lit(FROM_BOTH), a + ([Lit(JOIN)] + b));
    ValuesAppend(a, [Lit(JOIN)] + b);
    RenderCons(Lit(JOIN), b);
  }

  /** The attribute clause fits its buffer. */
  predicate Fits(filters: seq<Filter>)
    requires Known(filters)
  {
    |ClauseSql(filters)| < MAX_LEN
  }

  // The statement ufa_repo_search prepares.
  method SearchText(filters: seq<Filter>, tags: seq<string>) returns (sql: string)
    requires Known(filters) && (filters != [] || tags != [])
    ensures sql == SearchSql(Cut(ClauseSql(filters)), tags, filters != [])
    ensures sql == Render(SearchPieces(filters, tags)) <==> Fits(filters)
  {
    SearchRenders(filters, tags);
    hide Render, TagPieces, AttrPieces, SearchPieces, Values, ClauseSql;
    var sql_search_tags := GenerateTags(tags);
    var sql_search_attrs := GenerateAttrs(filters);
    var count_tags, count_attrs := |tags|, |filters|;
    if count_attrs == 0 {
      sql := FROM_FILES + sql_search_tags;
    } else if count_tags == 0 {
      sql := FROM_ATTRS + sql_search_attrs;
    } else {
      sql := FROM_BOTH + (sql_search_tags + (JOIN + sql_search_attrs));
    }
    assert sql == SearchSql(Cut(ClauseSql(filters)), tags, filters != []);
    NoClause();
  }

  method BindTags(tags: seq<string>) returns (binds: seq<Bind>)
    ensures binds == TagBinds(tags)
  {
    binds := [];
    if |tags| != 0 {
      for i := 0 to |tags|
        invariant binds == TextsOf(tags)[..i]
      {
        binds := binds + [Text(tags[i])];
      }
      binds := binds + [Int(|tags|)];
    }
  }

  lemma {:induction false} BindsLast(filters: seq<Filter>, i: nat)
    requires i < |filters|
    ensures ClauseBinds(filters[..i + 1]) == ClauseBinds(filters[..i]) + FilterBinds(filters[i])
  {
    hide FilterBinds;
    if i > 0 {
      BindsLast(filters[1..], i - 1);
      assert filters[..i + 1][1..] == filters[1..][..i] && filters[..i][1..] == filters[1..][..i - 1];
    }
  }

  method BindAttrs(filters: seq<Filter>) returns (binds: seq<Bind>)
    ensures binds == AttrBinds(filters)
  {
    binds := [];
    if |filters| != 0 {
      for i := 0 to |filters|
        invariant binds == ClauseBinds(filters[..i])
      {
        hide ClauseBinds;
        var attr := filters[i];
        BindsLast(filters, i);
        binds := binds + [Text(attr.attribute)];
        if attr.value.Some? {
          var value := attr.value.value;
          if attr.matchmode == WILDCARD {
            value := Pattern(value);
          }
          binds := binds + [Text(value)];
        }
      }
      assert filters[..|filters|] == filters;
      binds := binds + [Int(|filters|)];
    }
  }

  // The loops of ufa_repo_search that bind the values.
  method SearchBinds(filters: seq<Filter>, tags: seq<string>) returns (binds: seq<Bind>)
    requires Known(filters) && (filters != [] || tags != [])
    ensures binds == Values(SearchPieces(filters, tags))
  {
    SearchRenders(filters, tags);
    var of_tags := BindTags(tags);
    var of_attrs := BindAttrs(filters);
    binds := of_tags + of_attrs;
  }

  // ---------------------------------------------------------------- one placeholder per value

  lemma {:induction false} PlainLit(text: string)
    requires '?' !in text
    ensures Plain([Lit(text)])
  {
  }

  lemma {:induction false} PlainHole(value: Bind)
    ensures Plain([Hole(value)])
  {
  }

  lemma {:induction false} NoneIn(a: string, b: string)
    requires '?' !in a && '?' !in b
    ensures '?' !in a + b
  {
  }

  lemma {:induction false} TagHeadLit()
    ensures '?' !in TAGS_HEAD
  {
    assert '?' !in "f.id IN (SELECT id_file ";
    assert '?' !in "FROM file_tag ft,tag t ";
    assert '?' !in "WHERE id_tag = t.id ";
  }

  lemma {:induction false} TagTailLits()
    ensures '?' !in TAGS_TAIL && '?' !in TAGS_END
  {
  }

  lemma {:induction false} PlainTags(tags: seq<string>)
    ensures Plain(TagPieces(tags))
  {
    TagHeadLit();
    TagTailLits();
    hide ListPieces, Plain;
    PlainLit(TAGS_HEAD);
    PlainLit(TAGS_TAIL);
    PlainLit(TAGS_END);
    PlainHole(Int(|tags|));
    var list := ListPieces(TextsOf(tags));
    var count := [Hole(Int(|tags|))] + [Lit(TAGS_END)];
    PlainAppend([Hole(Int(|tags|))], [Lit(TAGS_END)]);
    PlainAppend([Lit(TAGS_TAIL)], count);
    PlainAppend(list, [Lit(TAGS_TAIL)] + count);
    PlainAppend([Lit(TAGS_HEAD)], list + ([Lit(TAGS_TAIL)] + count));
    PlainNone();
  }

  lemma {:induction false} PlainNone()
    ensures Plain([])
  {
  }

  lemma {:induction false} PlainFilter(f: Filter)
    requires KnownMode(f)
    ensures Plain(FilterPieces(f))
  {
  }

  lemma {:induction false} PlainAppend(a: seq<Piece>, b: seq<Piece>)
    requires Plain(a) && Plain(b)
    ensures Plain(a + b)
  {
  }

  lemma {:induction false} PlainClause(filters: seq<Filter>)
    requires Known(filters)
    ensures Plain(ClausePieces(filters))
  {
    hide FilterPieces;
    if filters != [] {
      PlainFilter(filters[0]);
      PlainClause(filters[1..]);
    }
  }

  lemma {:induction false} AttrLits()
    ensures '?' !in ATTRS_HEAD && '?' !in ATTRS_TAIL
  {
  }

  lemma {:induction false} PlainAttrs(filters: seq<Filter>)
    requires Known(filters)
    ensures Plain(AttrPieces(filters))
  {
    AttrLits();
    hide ClausePieces, Plain;
    PlainClause(filters);
    PlainLit(ATTRS_HEAD);
    PlainLit(ATTRS_TAIL);
    PlainHole(Int(|filters|));
    var tail := [Lit(ATTRS_TAIL)] + [Hole(Int(|filters|))];
    PlainAppend([Lit(ATTRS_TAIL)], [Hole(Int(|filters|))]);
    PlainAppend(ClausePieces(filters), tail);
    PlainAppend([Lit(ATTRS_HEAD)], ClausePieces(filters) + tail);
    PlainNone();
  }

  /** The search statement has exactly as many placeholders as values are bound. */
  lemma {:induction false} SearchAligned(filters: seq<Filter>, tags: seq<string>)
    requires Known(filters)
    ensures Count(Render(SearchPieces(filters, tags)), '?') == |Values(SearchPieces(filters, tags))|
  {
    hide Render, Values, Count, TagPieces, AttrPieces;
    PlainTags(tags);
    PlainAttrs(filters);
    PlainLits();
    hide Plain;
    if filters == [] {
      PlainAppend([Lit(FROM_FILES)], TagPieces(tags));
    } else if tags == [] {
      PlainAppend([Lit(FROM_ATTRS)], AttrPieces(filters));
    } else {
      PlainAppend([Lit(JOIN)], AttrPieces(filters));
      PlainAppend(TagPieces(tags), [Lit(JOIN)] + AttrPieces(filters));
      PlainAppend([Lit(FROM_BOTH)], TagPieces(tags) + ([Lit(JOIN)] + AttrPieces(filters)));
    }
    PlaceholdersMatch(SearchPieces(filters, tags));
  }

  lemma {:induction false} PlainLits()
    ensures Plain([Lit(FROM_FILES)]) && Plain([Lit(FROM_ATTRS)]) && Plain([Lit(FROM_BOTH)]) && Plain([Lit(JOIN)])
  {
    FromLits();
    JoinLits();
    hide Plain;
    PlainLit(FROM_FILES);
    PlainLit(FROM_ATTRS);
    PlainLit(FROM_BOTH);
    PlainLit(JOIN);
  }

  lemma {:induction false} FromLits()
    ensures '?' !in FROM_ATTRS && '?' !in FROM_BOTH
  {
    assert '?' !in "SELECT f.id,f.name FROM file f,attribute a ";
    assert '?' !in "WHERE a.id_file=f.id ";
    assert '?' !in "WHERE  ";
    NoneIn("SELECT f.id,f.name FROM file f,attribute a ", "WHERE a.id_file=f.id ");
    NoneIn("SELECT f.id,f.name FROM file f,attribute a ", "WHERE  ");
  }

  lemma {:induction false} JoinLits()
    ensures '?' !in FROM_FILES && '?' !in JOIN
  {
  }

  /** Up to 117 filters always fit. */
  lemma {:induction false} FewFit(filters: seq<Filter>)
    requires Known(filters) && |filters| <= 117
    ensures Fits(filters)
  {
    ClauseLength(filters);
  }

  lemma {:induction false} ClauseLength(filters: seq<Filter>)
    requires Known(filters)
    ensures |ClauseSql(filters)| <= 35 * |filters|
  {
    if filters != [] {
      FilterLength(filters[0]);
      ClauseLength(filters[1..]);
      hide FilterSql;
    }
  }

  lemma {:induction false} FilterLength(f: Filter)
    requires KnownMode(f)
    ensures |FilterSql(f)| <= 31
  {
  }

  // ---------------------------------------------------------------- listing

  const FILES_HEAD := "SELECT id_file,(SELECT name FROM file " + "WHERE id=id_file) FROM file_tag ft,tag t " + "WHERE t.name IN ("
  const FILES_TAIL := ") AND id_tag = t.id GROUP BY id_file " + "HAVING COUNT(id_file) = "
  const OTHERS_FRONT := "SELECT DISTINCT t.name FROM tag t, " + "file_tag ft, file f WHERE ft.id_tag "
  const OTHERS_HEAD := OTHERS_FRONT + " = t.id AND f.id = ft.id_file " + "AND f.id IN ("
  const OTHERS_MID := ") AND t.name NOT IN ("
  const OTHERS_END := ")"

  /** The statement for the files of a virtual directory, and the one for their other tags. */
  function FilesPieces(tags: seq<string>): seq<Piece> {
    [Lit(FILES_HEAD)] + (ListPieces(TextsOf(tags)) + ([Lit(FILES_TAIL)] + [Hole(Int(|tags|))]))
  }

  function IntsOf(ids: seq<int>): (r: seq<Bind>)
    ensures |r| == |ids| && forall i :: 0 <= i < |ids| ==> r[i] == Int(ids[i])
  {
    seq(|ids|, i requires 0 <= i < |ids| => Int(ids[i]))
  }

  function OthersPieces(ids: seq<int>, tags: seq<string>): seq<Piece> {
    [Lit(OTHERS_HEAD)] + (ListPieces(IntsOf(ids)) + ([Lit(OTHERS_MID)] + (ListPieces(TextsOf(tags)) + [Lit(OTHERS_END)])))
  }

  // get_files_with_tags
  method FilesStatement(tags: seq<string>) returns (sql: string, binds: seq<Bind>)
    requires tags != []
    ensures sql == Render(FilesPieces(tags)) && binds == Values(FilesPieces(tags))
  {
    FilesRender(tags);
    var sql_args := ArgList(TextsOf(tags));
    sql := FILES_HEAD + (sql_args + (FILES_TAIL + "?"));
    binds := [];
    for i := 0 to |tags|
      invariant binds == TextsOf(tags)[..i]
    {
      binds := binds + [Text(tags[i])];
    }
    binds := binds + [Int(|tags|)];
  }

  lemma {:induction false} FilesRender(tags: seq<string>)
    ensures Render(FilesPieces(tags)) == FILES_HEAD + (Render(ListPieces(TextsOf(tags))) + (FILES_TAIL + "?"))
    ensures Values(FilesPieces(tags)) == TextsOf(tags) + [Int(|tags|)]
  {
    hide Render, Values, ListPieces;
    var list := ListPieces(TextsOf(tags));
    var tail := [Lit(FILES_TAIL)] + [Hole(Int(|tags|))];
    ListRenders(TextsOf(tags));
    RenderCons(Lit(FILES_HEAD), list + tail);
    RenderAppend(list, tail);
    ValuesAppend(list, tail);
    RenderCons(Lit(FILES_TAIL), [Hole(Int(|tags|))]);
    RenderOne(Hole(Int(|tags|)));
  }

  // get_tags_for_files_excluding
  method OthersStatement(ids: seq<int>, tags: seq<string>) returns (sql: string, binds: seq<Bind>)
    requires ids != []
    ensures sql == Render(OthersPieces(ids, tags)) && binds == Values(OthersPieces(ids, tags))
  {
    OthersRender(ids, tags);
    var sql_file_args := ArgList(IntsOf(ids));
    var sql_tags_args := ArgList(TextsOf(tags));
    sql := OTHERS_HEAD + (sql_file_args + (OTHERS_MID + (sql_tags_args + OTHERS_END)));
    binds := [];
    for i := 0 to |ids|
      invariant binds == IntsOf(ids)[..i]
    {
      binds := binds + [Int(ids[i])];
    }
    for i := 0 to |tags|
      invariant binds == IntsOf(ids) + TextsOf(tags)[..i]
    {
      binds := binds + [Text(tags[i])];
    }
  }

  lemma {:induction false} OthersRender(ids: seq<int>, tags: seq<string>)
    ensures Render(OthersPieces(ids, tags)) ==
      OTHERS_HEAD + (Render(ListPieces(IntsOf(ids))) + (OTHERS_MID + (Render(ListPieces(TextsOf(tags))) + OTHERS_END)))
    ensures Values(OthersPieces(ids, tags)) == IntsOf(ids) + TextsOf(tags)
  {
    hide Render, Values, ListPieces;
    var list, list' := ListPieces(IntsOf(ids)), ListPieces(TextsOf(tags));
    var tail' := list' + [Lit(OTHERS_END)];
    var tail := [Lit(OTHERS_MID)] + tail';
    ListRenders(IntsOf(ids));
    ListRenders(TextsOf(tags));
    RenderCons(Lit(OTHERS_HEAD), list + tail);
    RenderAppend(list, tail);
    ValuesAppend(list, tail);
    RenderCons(Lit(OTHERS_MID), tail');
    RenderAppend(list', [Lit(OTHERS_END)]);
    ValuesAppend(list', [Lit(OTHERS_END)]);
    RenderOne(Lit(OTHERS_END));
  }

  lemma {:induction false} FilesHeadLit()
    ensures '?' !in FILES_HEAD
  {
    assert '?' !in "SELECT id_file,(SELECT name FROM file ";
    assert '?' !in "WHERE id=id_file) FROM file_tag ft,tag t ";
  }

  lemma {:induction false} FilesTailLit()
    ensures '?' !in FILES_TAIL
  {
    assert '?' !in ") AND id_tag = t.id GROUP BY id_file ";
  }

  lemma {:induction false} OthersHeadLit()
    ensures '?' !in OTHERS_HEAD
  {
    OthersFrontLit();
    assert '?' !in " = t.id AND f.id = ft.id_file ";
    assert '?' !in "AND f.id IN (";
    NoneIn(OTHERS_FRONT, " = t.id AND f.id = ft.id_file ");
    NoneIn(OTHERS_FRONT + " = t.id AND f.id = ft.id_file ", "AND f.id IN (");
  }

  lemma {:induction false} OthersFrontLit()
    ensures '?' !in OTHERS_FRONT
  {
    assert '?' !in "SELECT DISTINCT t.name FROM tag t, ";
    assert '?' !in "file_tag ft, file f WHERE ft.id_tag ";
  }

  lemma {:induction false} OthersTailLits()
    ensures '?' !in OTHERS_MID && '?' !in OTHERS_END
  {
  }

  /** Both have exactly as many placeholders as values are bound. */
  lemma {:induction false} FilesAligned(tags: seq<string>)
    ensures Count(Render(FilesPieces(tags)), '?') == |tags| + 1
  {
    FilesRender(tags);
    FilesHeadLit();
    FilesTailLit();
    hide Render, Values, ListPieces, Count, Plain;
    PlainLit(FILES_HEAD);
    PlainLit(FILES_TAIL);
    PlainHole(Int(|tags|));
    var list := ListPieces(TextsOf(tags));
    var tail := [Lit(FILES_TAIL)] + [Hole(Int(|tags|))];
    PlainAppend([Lit(FILES_TAIL)], [Hole(Int(|tags|))]);
    PlainAppend(list, tail);
    PlainAppend([Lit(FILES_HEAD)], list + tail);
    PlaceholdersMatch(FilesPieces(tags));
  }

  lemma {:induction false} OthersAligned(ids: seq<int>, tags: seq<string>)
    ensures Count(Render(OthersPieces(ids, tags)), '?') == |ids| + |tags|
  {
    OthersRender(ids, tags);
    OthersHeadLit();
    OthersTailLits();
    hide Render, Values, ListPieces, Count, Plain;
    PlainLit(OTHERS_HEAD);
    PlainLit(OTHERS_MID);
    PlainLit(OTHERS_END);
    var list, list' := ListPieces(IntsOf(ids)), ListPieces(TextsOf(tags));
    var tail' := list' + [Lit(OTHERS_END)];
    PlainAppend(list', [Lit(OTHERS_END)]);
    PlainAppend([Lit(OTHERS_MID)], tail');
    PlainAppend(list, [Lit(OTHERS_MID)] + tail');
    PlainAppend([Lit(OTHERS_HEAD)], list + ([Lit(OTHERS_MID)] + tail'));
    PlaceholdersMatch(OthersPieces(ids, tags));
  }
}
