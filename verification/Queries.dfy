/** What a search statement means: the statements ufa_repo_search can give to SQLite, read back from their text and
    executed on the values that are bound by position. */
module Queries {
  import opened Options
  import opened Filters
  import opened StoreSpec
  import opened StoreLaws
  import opened Repo
  import opened Search
  import opened SqlText

  // ---------------------------------------------------------------- statements

  /** A condition on one attribute. */
  datatype Condition = HasName | HasEqual | HasLike

  function ConditionText(c: Condition): string {
    match c
    case HasName => NAME_HEAD + ("?" + ")")
    case HasEqual => NAME_HEAD + ("?" + (VALUE_HEAD + ("=" + (" " + ("?" + ")")))))
    case HasLike => NAME_HEAD + ("?" + (VALUE_HEAD + ("LIKE" + (" " + ("?" + ")")))))
  }

  /** A search statement: the number of tags, the conditions on attributes, and whether a blank follows them. */
  datatype Query = Query(tags: nat, conditions: seq<Condition>, blank: bool)

  function Places(n: nat): string {
    if n == 0 then "" else if n == 1 then "?" else "?," + Places(n - 1)
  }

  function TagText(n: nat): string {
    if n == 0 then "" else TAGS_HEAD + (Places(n) + (TAGS_TAIL + ("?" + TAGS_END)))
  }

  function ClauseText(conditions: seq<Condition>): string {
    if conditions == [] then ""
    else if |conditions| == 1 then ConditionText(conditions[0])
    else ConditionText(conditions[0]) + (OR + ClauseText(conditions[1..]))
  }

  function Padded(conditions: seq<Condition>, blank: bool): string {
    ClauseText(conditions) + if blank then " " else ""
  }

  /** The text of a statement. */
  function TextOf(q: Query): string {
    if q.conditions == [] then FROM_FILES + TagText(q.tags)
    else if q.tags == 0 then FROM_ATTRS + AttrSql(Padded(q.conditions, q.blank))
    else FROM_BOTH + (TagText(q.tags) + (JOIN + AttrSql(Padded(q.conditions, q.blank))))
  }

  predicate Proper(q: Query) {
    (q.tags > 0 || q.conditions != []) && (q.conditions == [] ==> !q.blank)
  }

  // ---------------------------------------------------------------- reading a statement

  function Strip(s: string, lit: string): (r: Option<string>)
    ensures r.Some? ==> s == lit + r.value
  {
    if lit <= s then Some(s[|lit|..]) else None
  }

  datatype Read<+T> = Read(value: T, rest: string)

  function ReadPlaces(s: string): (r: Option<Read<nat>>)
    ensures r.Some? ==> r.value.value > 0 && s == Places(r.value.value) + r.value.rest
    decreases |s|
  {
    if "?," <= s then
      match ReadPlaces(s[2..])
      case None => None
      case Some(more) => Some(Read(more.value + 1, more.rest))
    else if "?" <= s then Some(Read(1, s[1..]))
    else None
  }

  const TAGS_REST := TAGS_TAIL + ("?" + TAGS_END)

  // The condition on tags.
  function ReadTags(s: string): Option<Read<nat>> {
    match Strip(s, TAGS_HEAD)
    case None => None
    case Some(list) =>
      match ReadPlaces(list)
      case None => None
      case Some(places) =>
        match Strip(places.rest, TAGS_REST)
        case None => None
        case Some(rest) => Some(Read(places.value, rest))
  }

  function ReadCondition(s: string): (r: Option<Read<Condition>>)
    ensures r.Some? ==> s == ConditionText(r.value.value) + r.value.rest
  {
    match (Strip(s, ConditionText(HasName)), Strip(s, ConditionText(HasEqual)), Strip(s, ConditionText(HasLike)))
    case (Some(rest), _, _) => Some(Read(HasName, rest))
    case (_, Some(rest), _) => Some(Read(HasEqual, rest))
    case (_, _, Some(rest)) => Some(Read(HasLike, rest))
    case _ => None
  }

  function ReadClause(s: string): Option<Read<seq<Condition>>>
    decreases |s|
  {
    match ReadCondition(s)
    case None => None
    case Some(first) =>
      match Strip(first.rest, OR)
      case None => Some(Read([first.value], first.rest))
      case Some(behind) =>
        match ReadClause(behind)
        case None => None
        case Some(more) => Some(Read([first.value] + more.value, more.rest))
  }

  const ATTRS_END := ATTRS_TAIL + "?"

  // What follows the conditions: their end, perhaps behind a blank.
  function ReadEnd(s: string): Option<bool> {
    if s == ATTRS_END then Some(false) else if s == " " + ATTRS_END then Some(true) else None
  }

  // The condition on attributes, up to the end of the statement.
  function ReadAttrs(s: string): Option<(seq<Condition>, bool)> {
    match Strip(s, ATTRS_HEAD)
    case None => None
    case Some(list) =>
      match ReadClause(list)
      case None => None
      case Some(clause) =>
        match ReadEnd(clause.rest)
        case None => None
        case Some(blank) => Some((clause.value, blank))
  }

  function ReadBoth(s: string): Option<Query> {
    match ReadTags(s)
    case None => None
    case Some(tags) =>
      match Strip(tags.rest, JOIN)
      case None => None
      case Some(list) =>
        match ReadAttrs(list)
        case None => None
        case Some(attrs) => Some(Query(tags.value, attrs.0, attrs.1))
  }

  /** Preparing a statement: None is a syntax error. */
  function Prepare(sql: string): Option<Query> {
    match (Strip(sql, FROM_FILES), Strip(sql, FROM_ATTRS), Strip(sql, FROM_BOTH))
    case (Some(list), _, _) =>
      (match ReadTags(list)
       case Some(tags) => if tags.rest == "" then Some(Query(tags.value, [], false)) else None
       case None => None)
    case (_, Some(list), _) =>
      (match ReadAttrs(list)
       case Some(attrs) => Some(Query(0, attrs.0, attrs.1))
       case None => None)
    case (_, _, Some(list)) => ReadBoth(list)
    case _ => None
  }

  // ---------------------------------------------------------------- what is read was written

  lemma {:induction false} Shift(a: string, b: string, c: string, d: string)
    ensures a + (b + (c + d)) == (a + (b + c)) + d
    ensures a + (b + c) == (a + b) + c
  {
  }

  lemma {:induction false} TagsWritten(s: string)
    ensures match ReadTags(s)
      case None => true
      case Some(tags) => tags.value > 0 && s == TagText(tags.value) + tags.rest
  {
    hide ReadPlaces, Places;
    var tags := ReadTags(s);
    if tags.Some? {
      Shift(TAGS_HEAD, Places(tags.value.value), TAGS_REST, tags.value.rest);
    }
  }

  lemma {:induction false} ClauseWritten(s: string)
    ensures match ReadClause(s)
      case None => true
      case Some(clause) => clause.value != [] && s == ClauseText(clause.value) + clause.rest
    decreases |s|
  {
    hide ReadCondition, ConditionText;
    var first := ReadCondition(s);
    if first.Some? {
      var behind := Strip(first.value.rest, OR);
      if behind.Some? {
        ClauseWritten(behind.value);
        var more := ReadClause(behind.value);
        if more.Some? {
          Shift(ConditionText(first.value.value), OR, ClauseText(more.value.value), more.value.rest);
          ClauseCons(first.value.value, more.value.value);
        }
      } else {
        assert ClauseText([first.value.value]) == ConditionText(first.value.value);
      }
    }
  }

  lemma {:induction false} ClauseCons(first: Condition, more: seq<Condition>)
    requires more != []
    ensures ClauseText([first] + more) == ConditionText(first) + (OR + ClauseText(more))
  {
    hide ConditionText;
    assert ([first] + more)[1..] == more;
  }

  lemma {:induction false} AttrsWritten(s: string)
    ensures match ReadAttrs(s)
      case None => true
      case Some(attrs) => attrs.0 != [] && s == AttrSql(Padded(attrs.0, attrs.1))
  {
    hide ReadClause, ClauseText;
    var list := Strip(s, ATTRS_HEAD);
    if list.Some? {
      ClauseWritten(list.value);
      var clause := ReadClause(list.value);
      if clause.Some? {
        PadShift(clause.value.value, ATTRS_END);
      }
    }
  }

  lemma {:induction false} PadShift(conditions: seq<Condition>, end: string)
    ensures ClauseText(conditions) + end == Padded(conditions, false) + end
    ensures ClauseText(conditions) + (" " + end) == Padded(conditions, true) + end
  {
    hide ClauseText;
  }

  lemma {:induction false} BothWritten(s: string)
    ensures match ReadBoth(s)
      case None => true
      case Some(q) => q.tags > 0 && q.conditions != [] && s == TagText(q.tags) + (JOIN + AttrSql(Padded(q.conditions, q.blank)))
  {
    hide ReadTags, ReadAttrs, TagText, AttrSql, Padded;
    TagsWritten(s);
    var tags := ReadTags(s);
    if tags.Some? {
      var list := Strip(tags.value.rest, JOIN);
      if list.Some? {
        AttrsWritten(list.value);
      }
    }
  }

  /** A prepared statement has this text. */
  lemma {:induction false} PreparedWritten(sql: string)
    ensures match Prepare(sql)
      case None => true
      case Some(q) => Proper(q) && TextOf(q) == sql
  {
    hide ReadTags, ReadAttrs, ReadBoth, TagText, AttrSql, Padded;
    var files, attrs, both := Strip(sql, FROM_FILES), Strip(sql, FROM_ATTRS), Strip(sql, FROM_BOTH);
    if files.Some? {
      TagsWritten(files.value);
    } else if attrs.Some? {
      AttrsWritten(attrs.value);
    } else if both.Some? {
      BothWritten(both.value);
    }
  }

  // ---------------------------------------------------------------- what is written is read

  lemma {:induction false} Stripped(lit: string, rest: string)
    ensures Strip(lit + rest, lit) == Some(rest)
  {
    assert (lit + rest)[..|lit|] == lit && (lit + rest)[|lit|..] == rest;
  }

  // A literal that differs somewhere is not found.
  lemma {:induction false} NotStripped(other: string, lit: string, rest: string, i: nat)
    requires i < |lit| && i < |other| && lit[i] != other[i]
    ensures Strip(lit + rest, other) == None
  {
    assert (lit + rest)[i] == lit[i];
  }

  lemma {:induction false} PlacesRead(n: nat, rest: string)
    requires n > 0 && (rest == "" || rest[0] != ',')
    ensures ReadPlaces(Places(n) + rest) == Some(Read(n, rest))
  {
    var s := Places(n) + rest;
    if n == 1 {
      assert s[1..] == rest;
      assert rest != "" ==> s[1] == rest[0];
    } else {
      assert s == "?," + (Places(n - 1) + rest);
      PlacesFound(s, Places(n - 1) + rest);
      PlacesRead(n - 1, rest);
    }
  }

  lemma {:induction false} PlacesFound(s: string, more: string)
    requires s == "?," + more
    ensures "?," <= s && s[2..] == more
  {
  }

  lemma {:induction false} TagsRead(n: nat, rest: string)
    requires n > 0
    ensures ReadTags(TagText(n) + rest) == Some(Read(n, rest))
  {
    EndOfList(rest);
    Shift(TAGS_HEAD, Places(n), TAGS_REST, rest);
    PlacesRead(n, TAGS_REST + rest);
    hide ReadPlaces, Places, Strip;
    Stripped(TAGS_HEAD, Places(n) + (TAGS_REST + rest));
    Stripped(TAGS_REST, rest);
  }

  lemma {:induction false} EndOfList(rest: string)
    ensures (TAGS_REST + rest)[0] != ','
  {
  }

  lemma {:induction false} ConditionRead(c: Condition, rest: string)
    ensures ReadCondition(ConditionText(c) + rest) == Some(Read(c, rest))
  {
    ConditionsDiffer();
    hide ConditionText, Strip;
    Stripped(ConditionText(c), rest);
    match c
    case HasName =>
    case HasEqual => NotStripped(ConditionText(HasName), ConditionText(HasEqual), rest, 11);
    case HasLike =>
      NotStripped(ConditionText(HasName), ConditionText(HasLike), rest, 11);
      NotStripped(ConditionText(HasEqual), ConditionText(HasLike), rest, 24);
  }

  lemma {:induction false} ConditionsDiffer()
    ensures |ConditionText(HasName)| == 12 && |ConditionText(HasEqual)| == 28 && |ConditionText(HasLike)| == 31
    ensures ConditionText(HasName)[11] != ConditionText(HasEqual)[11]
    ensures ConditionText(HasName)[11] != ConditionText(HasLike)[11]
    ensures ConditionText(HasEqual)[24] != ConditionText(HasLike)[24]
  {
  }

  lemma {:induction false} ClauseRead(conditions: seq<Condition>, rest: string)
    requires conditions != [] && !(OR <= rest)
    ensures ReadClause(ClauseText(conditions) + rest) == Some(Read(conditions, rest))
  {
    hide ConditionText, ReadCondition;
    var first, more := conditions[0], conditions[1..];
    if |conditions| == 1 {
      ConditionRead(first, rest);
      assert [first] == conditions;
    } else {
      Shift(ConditionText(first), OR, ClauseText(more), rest);
      ConditionRead(first, OR + (ClauseText(more) + rest));
      Stripped(OR, ClauseText(more) + rest);
      ClauseRead(more, rest);
      assert [first] + more == conditions;
    }
  }

  lemma {:induction false} EndsRead()
    ensures ReadEnd(ATTRS_END) == Some(false) && ReadEnd(" " + ATTRS_END) == Some(true)
    ensures !(OR <= ATTRS_END) && !(OR <= " " + ATTRS_END)
  {
    assert ATTRS_END[0] == ')' && (" " + ATTRS_END)[1] == ')';
  }

  lemma {:induction false} AttrsRead(conditions: seq<Condition>, blank: bool)
    requires conditions != []
    ensures ReadAttrs(AttrSql(Padded(conditions, blank))) == Some((conditions, blank))
  {
    EndsRead();
    hide ReadClause, ClauseText, Strip, ReadEnd;
    var end := (if blank then " " else "") + ATTRS_END;
    Stripped(ATTRS_HEAD, Padded(conditions, blank) + ATTRS_END);
    PadShift(conditions, ATTRS_END);
    ClauseRead(conditions, if blank then " " + ATTRS_END else ATTRS_END);
  }

  lemma {:induction false} HeadsDiffer()
    ensures |FROM_FILES| > 30 && |FROM_ATTRS| > 49 && |FROM_BOTH| > 49
    ensures FROM_FILES[30] != FROM_ATTRS[30] && FROM_FILES[30] != FROM_BOTH[30] && FROM_ATTRS[49] != FROM_BOTH[49]
  {
  }

  // Which of the three statements is read.
  lemma {:induction false} HeadsRead(rest: string)
    ensures Strip(FROM_FILES + rest, FROM_FILES) == Some(rest)
    ensures Strip(FROM_ATTRS + rest, FROM_FILES) == None && Strip(FROM_ATTRS + rest, FROM_ATTRS) == Some(rest)
    ensures Strip(FROM_BOTH + rest, FROM_FILES) == None && Strip(FROM_BOTH + rest, FROM_ATTRS) == None
    ensures Strip(FROM_BOTH + rest, FROM_BOTH) == Some(rest)
  {
    HeadsDiffer();
    hide Strip;
    Stripped(FROM_FILES, rest);
    Stripped(FROM_ATTRS, rest);
    Stripped(FROM_BOTH, rest);
    NotStripped(FROM_FILES, FROM_ATTRS, rest, 30);
    NotStripped(FROM_FILES, FROM_BOTH, rest, 30);
    NotStripped(FROM_ATTRS, FROM_BOTH, rest, 49);
  }

  // Whatever stands behind the tags is read as the conditions.
  lemma {:induction false} PrepareAttrs(n: nat, s: string)
    ensures Prepare(if n == 0 then FROM_ATTRS + s else FROM_BOTH + (TagText(n) + (JOIN + s))) ==
      match ReadAttrs(s)
      case None => None
      case Some(attrs) => Some(Query(n, attrs.0, attrs.1))
  {
    if n == 0 {
      HeadsRead(s);
    } else {
      HeadsRead(TagText(n) + (JOIN + s));
      TagsRead(n, JOIN + s);
      hide ReadTags, ReadAttrs, TagText, Strip;
      Stripped(JOIN, s);
    }
  }

  /** The text of a statement prepares that statement and no other. */
  lemma {:induction false} WrittenPrepares(q: Query)
    requires Proper(q)
    ensures Prepare(TextOf(q)) == Some(q)
  {
    if q.conditions == [] {
      HeadsRead(TagText(q.tags));
      assert TagText(q.tags) + "" == TagText(q.tags);
      TagsRead(q.tags, "");
    } else {
      AttrsRead(q.conditions, q.blank);
      hide ReadAttrs, AttrSql, Padded, Prepare, TagText;
      PrepareAttrs(q.tags, AttrSql(Padded(q.conditions, q.blank)));
    }
  }

  // ---------------------------------------------------------------- executing a statement

  // A parameter that is not bound is NULL, which equals nothing; a value nobody asks for is refused by the binding.
  predicate BoundText(binds: seq<Bind>, i: nat, s: string) {
    i < |binds| && binds[i] == Text(s)
  }

  predicate BoundLike(like: (string, string) -> bool, binds: seq<Bind>, i: nat, s: string) {
    i < |binds| && binds[i].Text? && like(s, binds[i].s)
  }

  predicate BoundInt(binds: seq<Bind>, i: nat, n: int) {
    i < |binds| && binds[i] == Int(n)
  }

  function TagRows(db: Db, n: nat, binds: seq<Bind>, file: int): set<int>
    requires ForeignKeys(db)
  {
    set l | l in db.links && db.links[l].file == file && exists i | 0 <= i < n :: BoundText(binds, i, db.tags[db.links[l].tag])
  }

  // f.id IN (SELECT id_file ... AND t.name IN (?, ...) GROUP BY id_file HAVING COUNT(id_file) = ?)
  function Tagged(db: Db, n: nat, binds: seq<Bind>): set<int>
    requires ForeignKeys(db)
  {
    set f | f in db.files && TagRows(db, n, binds, f) != {} && BoundInt(binds, n, |TagRows(db, n, binds, f)|)
  }

  function Holes(c: Condition): nat {
    if c == HasName then 1 else 2
  }

  function AllHoles(conditions: seq<Condition>): nat {
    if conditions == [] then 0 else Holes(conditions[0]) + AllHoles(conditions[1..])
  }

  predicate Holds(like: (string, string) -> bool, c: Condition, binds: seq<Bind>, at: nat, row: Attribute) {
    && BoundText(binds, at, row.name)
    && match c
       case HasName => true
       case HasEqual => BoundText(binds, at + 1, row.value)
       case HasLike => BoundLike(like, binds, at + 1, row.value)
  }

  predicate SomeHolds(like: (string, string) -> bool, conditions: seq<Condition>, binds: seq<Bind>, at: nat, row: Attribute) {
    conditions != [] &&
    (Holds(like, conditions[0], binds, at, row) || SomeHolds(like, conditions[1..], binds, at + Holes(conditions[0]), row))
  }

  function AttrRows(db: Db, like: (string, string) -> bool, conditions: seq<Condition>, binds: seq<Bind>, at: nat, file: int): set<int> {
    set a | a in db.attrs && db.attrs[a].file == file && SomeHolds(like, conditions, binds, at, db.attrs[a])
  }

  // ... AND (... OR ...) GROUP BY f.id HAVING COUNT(f.id) = ?
  function Attributed(db: Db, like: (string, string) -> bool, conditions: seq<Condition>, binds: seq<Bind>, at: nat): set<int> {
    set f | f in db.files && AttrRows(db, like, conditions, binds, at, f) != {} &&
      BoundInt(binds, at + AllHoles(conditions), |AttrRows(db, like, conditions, binds, at, f)|)
  }

  /** The ids a statement selects, with its parameters numbered from the left. */
  function Eval(db: Db, like: (string, string) -> bool, q: Query, binds: seq<Bind>): set<int>
    requires ForeignKeys(db)
  {
    if q.conditions == [] then Tagged(db, q.tags, binds)
    else if q.tags == 0 then Attributed(db, like, q.conditions, binds, 0)
    else set f | f in Tagged(db, q.tags, binds) && f in Attributed(db, like, q.conditions, binds, q.tags + 1)
  }

  /** sqlite3_prepare, the bindings and the steps: None when the text is no statement. */
  function Run(db: Db, like: (string, string) -> bool, sql: string, binds: seq<Bind>): Option<set<int>>
    requires ForeignKeys(db)
  {
    match Prepare(sql)
    case None => None
    case Some(q) => Some(Eval(db, like, q, binds))
  }

  // ---------------------------------------------------------------- the query of a search

  function ConditionOf(f: Filter): Condition {
    if f.value.None? then HasName else if f.matchmode == WILDCARD then HasLike else HasEqual
  }

  function Conditions(filters: seq<Filter>): (r: seq<Condition>)
    ensures |r| == |filters|
  {
    if filters == [] then [] else [ConditionOf(filters[0])] + Conditions(filters[1..])
  }

  lemma {:induction false} ClauseIs(filters: seq<Filter>)
    requires Known(filters)
    ensures ClauseSql(filters) == ClauseText(Conditions(filters))
  {
    hide FilterSql, ConditionText;
    if filters != [] {
      FilterIs(filters[0]);
      ClauseIs(filters[1..]);
      assert Conditions(filters)[1..] == Conditions(filters[1..]);
    }
  }

  lemma {:induction false} FilterIs(f: Filter)
    requires KnownMode(f)
    ensures FilterSql(f) == ConditionText(ConditionOf(f)) && |FilterBinds(f)| == Holes(ConditionOf(f))
  {
  }

  lemma {:induction false} ListIs(values: seq<Bind>)
    ensures Render(ListPieces(values)) == Places(|values|)
  {
    hide Render;
    if values == [] {
      NoPieces();
    } else if |values| == 1 {
      RenderOne(Hole(values[0]));
    } else {
      ListIs(values[1..]);
      ListCons(values[0], ListPieces(values[1..]));
    }
  }

  lemma {:induction false} TagsAre(tags: seq<string>)
    ensures Render(TagPieces(tags)) == TagText(|tags|)
  {
    if tags != [] {
      TagTexts(tags);
      ListIs(TextsOf(tags));
    }
  }

  /** The text of a search with a given clause is read as that clause, whatever the clause is. */
  lemma {:induction false} SearchReads(clause: string, tags: seq<string>)
    ensures Prepare(SearchSql(clause, tags, true)) ==
      match ReadAttrs(AttrSql(clause))
      case None => None
      case Some(attrs) => Some(Query(|tags|, attrs.0, attrs.1))
  {
    hide Prepare, ReadAttrs, TagText, AttrSql, TagPieces, Render;
    TagsAre(tags);
    PrepareAttrs(|tags|, AttrSql(clause));
  }

  lemma {:induction false} TagSearchReads(tags: seq<string>)
    requires tags != []
    ensures Prepare(SearchSql("", tags, false)) == Some(Query(|tags|, [], false))
  {
    hide Prepare, TagText, AttrSql, TagPieces, Render;
    TagsAre(tags);
    WrittenPrepares(Query(|tags|, [], false));
  }

  // ---------------------------------------------------------------- its meaning

  // The conditions of the filters on their own values, wherever these start.
  lemma {:induction false} FiltersHold(like: (string, string) -> bool, filters: seq<Filter>, front: seq<Bind>, back: seq<Bind>, row: Attribute)
    requires Known(filters)
    ensures SomeHolds(like, Conditions(filters), front + (ClauseBinds(filters) + back), |front|, row) <==> SomeMatches(like, row, filters)
  {
    if filters != [] {
      var f, rest := filters[0], filters[1..];
      var binds := front + (ClauseBinds(filters) + back);
      FirstHolds(like, f, front, ClauseBinds(rest) + back, row);
      FilterIs(f);
      hide FilterBinds, Holds, ConditionOf, Matches;
      FiltersHold(like, rest, front + FilterBinds(f), back, row);
      assert binds == front + (FilterBinds(f) + (ClauseBinds(rest) + back));
      assert binds == (front + FilterBinds(f)) + (ClauseBinds(rest) + back);
      assert Conditions(filters)[1..] == Conditions(rest);
      SomeCons(like, row, filters);
    }
  }

  lemma {:induction false} SomeCons(like: (string, string) -> bool, row: Attribute, filters: seq<Filter>)
    requires filters != []
    ensures SomeMatches(like, row, filters) <==>
      Matches(like, row.name, row.value, filters[0]) || SomeMatches(like, row, filters[1..])
  {
    hide Matches;
    if SomeMatches(like, row, filters) {
      var i :| 0 <= i < |filters| && Matches(like, row.name, row.value, filters[i]);
      assert i > 0 ==> filters[1..][i - 1] == filters[i];
    }
    if SomeMatches(like, row, filters[1..]) {
      var i :| 0 <= i < |filters[1..]| && Matches(like, row.name, row.value, filters[1..][i]);
      assert filters[i + 1] == filters[1..][i];
    }
  }

  lemma {:induction false} FirstHolds(like: (string, string) -> bool, f: Filter, front: seq<Bind>, back: seq<Bind>, row: Attribute)
    requires KnownMode(f)
    ensures Holds(like, ConditionOf(f), front + (FilterBinds(f) + back), |front|, row) <==> Matches(like, row.name, row.value, f)
  {
    var binds := front + (FilterBinds(f) + back);
    assert binds[|front|] == FilterBinds(f)[0];
    assert f.value.Some? ==> binds[|front| + 1] == FilterBinds(f)[1];
  }

  lemma {:induction false} BindsCounted(filters: seq<Filter>)
    requires Known(filters)
    ensures |ClauseBinds(filters)| == AllHoles(Conditions(filters))
  {
    hide FilterBinds;
    if filters != [] {
      FilterIs(filters[0]);
      BindsCounted(filters[1..]);
      assert Conditions(filters)[1..] == Conditions(filters[1..]);
    }
  }

  lemma {:induction false} AttributedMeans(db: Db, like: (string, string) -> bool, filters: seq<Filter>, front: seq<Bind>)
    requires Known(filters)
    ensures Attributed(db, like, Conditions(filters), front + (ClauseBinds(filters) + [Int(|filters|)]), |front|) == FilesWithAttrs(db, like, filters)
  {
    var binds := front + (ClauseBinds(filters) + [Int(|filters|)]);
    BindsCounted(filters);
    assert binds[|front| + |ClauseBinds(filters)|] == Int(|filters|);
    hide SomeHolds, SomeMatches, ClauseBinds, Conditions;
    forall f | f in db.files
      ensures AttrRows(db, like, Conditions(filters), binds, |front|, f) == AttrGroup(db, like, filters, f)
    {
      forall a | a in db.attrs
        ensures SomeHolds(like, Conditions(filters), binds, |front|, db.attrs[a]) <==> SomeMatches(like, db.attrs[a], filters)
      {
        FiltersHold(like, filters, front, [Int(|filters|)], db.attrs[a]);
      }
    }
  }

  lemma {:induction false} TaggedMeans(db: Db, tags: seq<string>, back: seq<Bind>)
    requires ForeignKeys(db)
    ensures Tagged(db, |tags|, (TextsOf(tags) + [Int(|tags|)]) + back) == FilesWithTags(db, tags)
  {
    var binds := (TextsOf(tags) + [Int(|tags|)]) + back;
    assert forall i :: 0 <= i < |tags| ==> binds[i] == Text(tags[i]);
    assert binds[|tags|] == Int(|tags|);
    forall f | f in db.files
      ensures TagRows(db, |tags|, binds, f) == TagGroup(db, tags, f)
    {
      forall l | l in db.links
        ensures db.tags[db.links[l].tag] in tags <==> exists i | 0 <= i < |tags| :: BoundText(binds, i, db.tags[db.links[l].tag])
      {
        var t := db.tags[db.links[l].tag];
        if t in tags {
          var i :| 0 <= i < |tags| && tags[i] == t;
          assert BoundText(binds, i, t);
        }
      }
    }
  }

  /** The query of a search, executed on the values that are bound for it, selects what the search is meant to. */
  lemma {:induction false} QueryMeans(db: Db, like: (string, string) -> bool, filters: seq<Filter>, tags: seq<string>)
    requires ForeignKeys(db) && Known(filters) && (filters != [] || tags != [])
    ensures Eval(db, like, Query(|tags|, Conditions(filters), false), Values(SearchPieces(filters, tags))) == Selected(db, like, filters, tags)
  {
    SearchRenders(filters, tags);
    hide *;
    EvalMeans(db, like, filters, tags);
  }

  lemma {:induction false} EvalMeans(db: Db, like: (string, string) -> bool, filters: seq<Filter>, tags: seq<string>)
    requires ForeignKeys(db) && Known(filters) && (filters != [] || tags != [])
    ensures Eval(db, like, Query(|tags|, Conditions(filters), false), TagBinds(tags) + AttrBinds(filters)) == Selected(db, like, filters, tags)
  {
    hide Tagged, Attributed, FilesWithTags, FilesWithAttrs, ClauseBinds, TextsOf;
    if tags != [] {
      TaggedMeans(db, tags, AttrBinds(filters));
    }
    if filters != [] {
      AttributedMeans(db, like, filters, TagBinds(tags));
    }
  }

  // ---------------------------------------------------------------- the cut clause

  // A clause in front of another one consists of its first conditions.
  lemma {:induction false} ClauseFront(a: seq<Condition>, b: seq<Condition>, tail: string)
    requires ClauseText(b) == ClauseText(a) + tail
    ensures a <= b
  {
    hide ConditionText, ReadCondition;
    if a == [] {
    } else if b == [] {
      ConditionLength(a[0]);
    } else {
      var behind_a := if |a| == 1 then tail else OR + (ClauseText(a[1..]) + tail);
      var behind_b := if |b| == 1 then "" else OR + ClauseText(b[1..]);
      Shift(ConditionText(a[0]), OR, ClauseText(a[1..]), tail);
      assert ConditionText(b[0]) + behind_b == ConditionText(a[0]) + behind_a;
      ConditionRead(a[0], behind_a);
      ConditionRead(b[0], behind_b);
      if |a| > 1 {
        assert behind_b == behind_a && OR[..] == OR;
        BehindOr(ClauseText(b[1..]), ClauseText(a[1..]) + tail);
        ClauseFront(a[1..], b[1..], tail);
      }
      FrontCons(a, b);
    }
  }

  lemma {:induction false} BehindOr(s: string, s': string)
    ensures OR + s == OR + s' ==> s == s'
    ensures OR + s != ""
  {
    assert (OR + s)[|OR|..] == s && (OR + s')[|OR|..] == s';
  }

  lemma {:induction false} FrontCons(a: seq<Condition>, b: seq<Condition>)
    requires a != [] && b != [] && a[0] == b[0] && a[1..] <= b[1..]
    ensures a <= b
  {
    assert forall i :: 0 < i < |a| ==> a[i] == a[1..][i - 1] && b[i] == b[1..][i - 1];
  }

  lemma {:induction false} ConditionLength(c: Condition)
    ensures 12 <= |ConditionText(c)| <= 31
  {
  }

  lemma {:induction false} ConditionsFront(filters: seq<Filter>, k: nat)
    requires k <= |filters|
    ensures Conditions(filters[..k]) == Conditions(filters)[..k]
  {
    hide ConditionOf;
    if k > 0 {
      ConditionsFront(filters[1..], k - 1);
      assert filters[..k][1..] == filters[1..][..k - 1];
    }
  }

  // Where the clause can be cut between two conditions.
  lemma {:induction false} ClauseSplit(conditions: seq<Condition>, k: nat)
    requires 0 < k < |conditions|
    ensures ClauseText(conditions) == ClauseText(conditions[..k]) + (OR + ClauseText(conditions[k..]))
  {
    hide ConditionText;
    if k == 1 {
      assert conditions[..1] == [conditions[0]];
    } else {
      var more := conditions[1..];
      ClauseSplit(more, k - 1);
      assert conditions[..k][1..] == more[..k - 1] && conditions[k..] == more[k - 1..];
      Shift(ConditionText(conditions[0]), OR, ClauseText(more[..k - 1]), OR + ClauseText(more[k - 1..]));
    }
  }

  lemma {:induction false} HolesFront(conditions: seq<Condition>, k: nat)
    requires k < |conditions|
    ensures AllHoles(conditions[..k]) < AllHoles(conditions)
  {
    if k > 0 {
      HolesFront(conditions[1..], k - 1);
      assert conditions[..k][1..] == conditions[1..][..k - 1];
    }
  }

  lemma {:induction false} ClauseBindsText(filters: seq<Filter>)
    ensures forall b :: b in ClauseBinds(filters) ==> b.Text?
  {
    if filters != [] {
      ClauseBindsText(filters[1..]);
    }
  }

  /** The cut falls behind a condition that is not the last one, or behind the blank after it. */
  ghost predicate CutBehind(filters: seq<Filter>, k: nat)
    requires Known(filters)
  {
    0 < k < |filters| && MAX_LEN - 2 <= |ClauseSql(filters[..k])| <= MAX_LEN - 1
  }

  ghost predicate CutBetween(filters: seq<Filter>)
    requires Known(filters)
  {
    exists k: nat :: CutBehind(filters, k)
  }

  lemma {:induction false} AttrSqlSame(clause: string, clause': string)
    requires AttrSql(clause) == AttrSql(clause')
    ensures clause == clause'
  {
    var end := ATTRS_TAIL + "?";
    assert |AttrSql(clause)| == |ATTRS_HEAD| + |clause| + |end| && |AttrSql(clause')| == |ATTRS_HEAD| + |clause'| + |end|;
    Between(ATTRS_HEAD, clause, end);
    Between(ATTRS_HEAD, clause', end);
  }

  lemma {:induction false} Between(head: string, s: string, end: string)
    ensures (head + (s + end))[|head|..|head| + |s|] == s
  {
  }

  // A cut clause that can be read has lost conditions.
  lemma {:induction false} CutFront(filters: seq<Filter>, conditions: seq<Condition>, blank: bool)
    requires Known(filters) && !Fits(filters) && conditions != [] && Padded(conditions, blank) == Cut(ClauseSql(filters))
    ensures CutBehind(filters, |conditions|) && conditions == Conditions(filters)[..|conditions|]
  {
    var clause := ClauseSql(filters);
    var rest := clause[MAX_LEN - 1..];
    ClauseIs(filters);
    assert clause == Padded(conditions, blank) + rest;
    hide ClauseSql, ClauseText, Conditions, Cut;
    PadBehind(conditions, blank, rest);
    ClauseFront(conditions, Conditions(filters), (if blank then " " else "") + rest);
    assert conditions == Conditions(filters)[..|conditions|];
    if |conditions| == |filters| {
      assert conditions == Conditions(filters);
    }
    ConditionsFront(filters, |conditions|);
    ClauseIs(filters[..|conditions|]);
  }

  lemma {:induction false} PadBehind(conditions: seq<Condition>, blank: bool, rest: string)
    ensures Padded(conditions, blank) + rest == ClauseText(conditions) + ((if blank then " " else "") + rest)
  {
    hide ClauseText;
  }

  lemma {:induction false} CutRead(filters: seq<Filter>)
    requires Known(filters) && !Fits(filters)
    ensures match ReadAttrs(AttrSql(Cut(ClauseSql(filters))))
      case None => true
      case Some(attrs) => attrs.0 != [] && CutBehind(filters, |attrs.0|) && attrs.0 == Conditions(filters)[..|attrs.0|]
  {
    var clause := Cut(ClauseSql(filters));
    AttrsWritten(AttrSql(clause));
    hide ReadAttrs, ClauseSql, AttrSql, Padded, Conditions, CutBehind, Cut, Fits;
    match ReadAttrs(AttrSql(clause))
    case None =>
    case Some(attrs) =>
      AttrSqlSame(clause, Padded(attrs.0, attrs.1));
      CutFront(filters, attrs.0, attrs.1);
  }

  // A clause that is cut behind a condition can be read.
  lemma {:induction false} CutReadable(filters: seq<Filter>, k: nat)
    requires Known(filters) && !Fits(filters) && CutBehind(filters, k)
    ensures ReadAttrs(AttrSql(Cut(ClauseSql(filters)))).Some?
  {
    var clause := ClauseSql(filters);
    var conditions := Conditions(filters);
    ClauseIs(filters);
    ClauseIs(filters[..k]);
    ConditionsFront(filters, k);
    ClauseSplit(conditions, k);
    hide ReadAttrs, ClauseSql, AttrSql, ClauseText, Conditions;
    var blank := |ClauseText(conditions[..k])| == MAX_LEN - 2;
    assert OR[0] == ' ';
    OrFollows(ClauseText(conditions[..k]), ClauseText(conditions[k..]));
    assert Cut(clause) == Padded(conditions[..k], blank);
    AttrsRead(conditions[..k], blank);
  }

  lemma {:induction false} OrFollows(a: string, b: string)
    ensures (a + (OR + b))[..|a|] == a && (a + (OR + b))[..|a| + 1] == a + " "
  {
  }

  // The count of a cut clause is compared with a text.
  lemma {:induction false} CutFindsNothing(db: Db, like: (string, string) -> bool, filters: seq<Filter>, front: seq<Bind>, k: nat)
    requires Known(filters) && k < |filters|
    ensures Attributed(db, like, Conditions(filters)[..k], front + (ClauseBinds(filters) + [Int(|filters|)]), |front|) == {}
  {
    BindsCounted(filters);
    HolesFront(Conditions(filters), k);
    ClauseBindsText(filters);
    hide ClauseBinds, Conditions, AllHoles, AttrRows;
    var binds := front + (ClauseBinds(filters) + [Int(|filters|)]);
    var at := AllHoles(Conditions(filters)[..k]);
    assert binds[|front| + at] == ClauseBinds(filters)[at];
    assert binds[|front| + at].Text?;
  }

  /** What ufa_repo_search gets for the text it prepares and the values it binds. */
  function Answer(db: Db, like: (string, string) -> bool, filters: seq<Filter>, tags: seq<string>): Option<set<int>>
    requires ForeignKeys(db) && Known(filters) && (filters != [] || tags != [])
  {
    Run(db, like, SearchSql(Cut(ClauseSql(filters)), tags, filters != []), Values(SearchPieces(filters, tags)))
  }

  /** Query compilation: the generated text with the bound values selects what the search is meant to select exactly as
      long as the attribute clause fits its buffer. A clause that is cut between two conditions selects nothing, and one
      that is cut elsewhere is a syntax error. */
  lemma {:induction false} AnswerExact(db: Db, like: (string, string) -> bool, filters: seq<Filter>, tags: seq<string>)
    requires ForeignKeys(db) && Known(filters) && (filters != [] || tags != [])
    ensures Answer(db, like, filters, tags) ==
      if Fits(filters) then Some(Selected(db, like, filters, tags)) else if CutBetween(filters) then Some({}) else None
  {
    if filters == [] {
      NoClause();
      hide Prepare, Eval, Values, SearchPieces, SearchSql, Selected;
      TagSearchReads(tags);
      QueryMeans(db, like, filters, tags);
    } else if Fits(filters) {
      ClauseIs(filters);
      PadNone(Conditions(filters));
      hide Prepare, Eval, Values, SearchPieces, SearchSql, Selected, ClauseSql, ReadAttrs, AttrSql, Conditions, ClauseText;
      SearchReads(ClauseSql(filters), tags);
      AttrsRead(Conditions(filters), false);
      QueryMeans(db, like, filters, tags);
    } else {
      CutAnswer(db, like, filters, tags);
    }
  }

  lemma {:induction false} PadNone(conditions: seq<Condition>)
    ensures Padded(conditions, false) == ClauseText(conditions)
  {
    hide ClauseText;
  }

  lemma {:induction false} CutAnswer(db: Db, like: (string, string) -> bool, filters: seq<Filter>, tags: seq<string>)
    requires ForeignKeys(db) && Known(filters) && !Fits(filters)
    ensures Answer(db, like, filters, tags) == if CutBetween(filters) then Some({}) else None
  {
    NoClause();
    SearchRenders(filters, tags);
    var clause := Cut(ClauseSql(filters));
    hide Prepare, Values, SearchPieces, SearchSql, ReadAttrs, AttrSql, Conditions, Fits, Cut, CutBehind, ClauseSql, Eval;
    SearchReads(clause, tags);
    CutRead(filters);
    match ReadAttrs(AttrSql(clause))
    case None =>
      if k: nat :| CutBehind(filters, k) {
        CutReadable(filters, k);
      }
    case Some(attrs) =>
      CutEvaluates(db, like, filters, tags, |attrs.0|, attrs.1);
  }

  lemma {:induction false} CutEvaluates(db: Db, like: (string, string) -> bool, filters: seq<Filter>, tags: seq<string>, k: nat, blank: bool)
    requires ForeignKeys(db) && Known(filters) && filters != [] && CutBehind(filters, k)
    ensures Eval(db, like, Query(|tags|, Conditions(filters)[..k], blank), Values(SearchPieces(filters, tags))) == {}
  {
    SearchRenders(filters, tags);
    hide *;
    CutEvalNone(db, like, filters, tags, k, blank);
  }

  lemma {:induction false} CutEvalNone(db: Db, like: (string, string) -> bool, filters: seq<Filter>, tags: seq<string>, k: nat, blank: bool)
    requires ForeignKeys(db) && Known(filters) && 0 < k < |filters|
    ensures Eval(db, like, Query(|tags|, Conditions(filters)[..k], blank), TagBinds(tags) + AttrBinds(filters)) == {}
  {
    hide Tagged, Attributed, ClauseBinds, TextsOf, Conditions;
    CutFindsNothing(db, like, filters, TagBinds(tags), k);
  }

  // ---------------------------------------------------------------- ufa_repo_search

  /** How a search ends: without a criterion, with a match mode that has no operator, with a statement that cannot be
      prepared, or with the names of files. */
  datatype Found = NoCriterion | NoOperator | SyntaxError | Files(names: set<string>)

  function Outcome(db: Db, like: (string, string) -> bool, filters: seq<Filter>, tags: seq<string>): Found
    requires ForeignKeys(db)
  {
    if filters == [] && tags == [] then NoCriterion
    else if !Known(filters) then NoOperator
    else
      match Answer(db, like, filters, tags)
      case None => SyntaxError
      case Some(ids) => Named(db, ids)
  }

  function Named(db: Db, ids: set<int>): Found {
    Files(set f | f in ids && f in db.files :: db.files[f])
  }

  ghost predicate DistinctCriteria(filters: seq<Filter>, tags: seq<string>) {
    DistinctTags(tags) && DistinctNames(filters)
  }

  /** A search finds exactly the files that carry every tag and satisfy every filter, as long as its clause fits the
      buffer, its tags are pairwise distinct and so are the names of its filters. Otherwise it finds nothing, and it is an
      error when the clause is cut anywhere but between two conditions. */
  lemma {:induction false} OutcomeExact(db: Db, like: (string, string) -> bool, filters: seq<Filter>, tags: seq<string>)
    requires Valid(db) && Known(filters) && (filters != [] || tags != [])
    ensures Outcome(db, like, filters, tags) ==
      if Fits(filters) then Files(if DistinctCriteria(filters, tags) then SearchMeant(View(db), like, filters, tags) else {})
      else if CutBetween(filters) then Files({}) else SyntaxError
  {
    assert ForeignKeys(db) && forall f :: f in Selected(db, like, filters, tags) ==> f in db.files;
    hide Answer, Selected, SearchMeant, View, Fits, CutBetween, DistinctTags, DistinctNames, Valid, Named, Known;
    AnswerExact(db, like, filters, tags);
    if Fits(filters) {
      SearchExact(db, like, filters, tags);
      AllNamed(db, Selected(db, like, filters, tags));
    } else {
      AllNamed(db, {});
    }
  }

  lemma {:induction false} AllNamed(db: Db, ids: set<int>)
    requires forall f :: f in ids ==> f in db.files
    ensures Named(db, ids) == Files(NamesOfFiles(db, ids)) && (ids == {} ==> Named(db, ids) == Files({}))
  {
  }

  /** ufa_repo_search: the statement is put together, prepared, given its values and stepped through. */
  method SearchFiles(repo: Repository, like: (string, string) -> bool, filters: seq<Filter>, tags: seq<string>)
    returns (found: Found, names: seq<string>)
    requires repo.Sound()
    ensures found.NoCriterion? <==> filters == [] && tags == []
    ensures found.NoOperator? <==> !Known(filters)
    ensures (filters != [] || tags != []) && Known(filters) ==>
      found == if Fits(filters) then Files(if DistinctCriteria(filters, tags) then SearchMeant(repo.Meaning(), like, filters, tags) else {})
        else if CutBetween(filters) then Files({}) else SyntaxError
    ensures Elems(names) == (if found.Files? then found.names else {})
    ensures forall i, j :: 0 <= i < j < |names| ==> names[i] != names[j]
  {
    names := [];
    var count_tags, count_attrs := |tags|, |filters|;
    if count_tags == 0 && count_attrs == 0 {
      return NoCriterion, [];
    }
    if !Known(filters) {
      return NoOperator, [];
    }
    OutcomeExact(repo.db, like, filters, tags);
    var sql := SearchText(filters, tags);
    var binds := SearchBinds(filters, tags);
    hide Run, SearchSql, Values, SearchPieces, Fits, CutBetween, DistinctCriteria, SearchMeant;
    var rows := Run(repo.db, like, sql, binds);
    if rows == None {
      return SyntaxError, [];
    }
    found := Named(repo.db, rows.value);
    names := Listed(found.names);
  }

  // ---------------------------------------------------------------- filters of one kind

  predicate Alike(filters: seq<Filter>, c: Condition) {
    forall i :: 0 <= i < |filters| ==> KnownMode(filters[i]) && ConditionOf(filters[i]) == c
  }

  lemma {:induction false} AlikeLength(filters: seq<Filter>, c: Condition)
    requires filters != [] && Alike(filters, c)
    ensures |ClauseSql(filters)| == (|ConditionText(c)| + 4) * |filters| - 4
  {
    hide FilterSql, ConditionText, ConditionOf, KnownMode;
    FilterIs(filters[0]);
    if |filters| > 1 {
      AlikeLength(filters[1..], c);
    }
  }

  // How many conditions of a kind the buffer takes.
  function Most(c: Condition): nat {
    match c
    case HasName => 256
    case HasEqual => 128
    case HasLike => 117
  }

  lemma {:induction false} KindLength(c: Condition, n: nat)
    ensures (|ConditionText(c)| + 4) * n - 4 < MAX_LEN <==> n <= Most(c)
    ensures !(MAX_LEN - 2 <= (|ConditionText(c)| + 4) * n - 4 <= MAX_LEN - 1)
  {
    ConditionsDiffer();
    hide ConditionText;
  }

  lemma {:induction false} AlikeFits(filters: seq<Filter>, c: Condition)
    requires filters != [] && Alike(filters, c)
    ensures Fits(filters) <==> |filters| <= Most(c)
    ensures !CutBetween(filters)
  {
    hide ClauseSql, ConditionText, ConditionOf, Most;
    AlikeLength(filters, c);
    KindLength(c, |filters|);
    if k: nat :| CutBehind(filters, k) {
      AlikeLength(filters[..k], c);
      KindLength(c, k);
    }
  }

  /** A search whose filters are all of one kind fails from one filter more than the buffer takes. */
  lemma {:induction false} TooManyFilters(db: Db, like: (string, string) -> bool, filters: seq<Filter>, tags: seq<string>, c: Condition)
    requires Valid(db) && filters != [] && Alike(filters, c)
    ensures Outcome(db, like, filters, tags).SyntaxError? <==> |filters| > Most(c)
  {
    AlikeFits(filters, c);
    hide ConditionOf, SearchMeant, DistinctCriteria, Outcome, Fits, CutBetween, Most, Valid;
    OutcomeExact(db, like, filters, tags);
  }
}
