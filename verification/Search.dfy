/** Searching and listing: the GROUP BY / HAVING COUNT queries of src/core/repo_sqlite.c and what they select. */
module Search {
  import opened Sets
  import opened Options
  import opened Filters
  import opened StoreSpec
  import opened StoreLaws
  import opened Repo

  const WILDCARD := 1

  // ufa_str_replace(value, '*', '%')
  function Pattern(value: string): (r: string)
    ensures |r| == |value| && forall i :: 0 <= i < |value| ==> r[i] == if value[i] == '*' then '%' else value[i]
  {
    if value == "" then "" else [if value[0] == '*' then '%' else value[0]] + Pattern(value[1..])
  }

  /** The condition on the value of an attribute. The SQL operator LIKE is a parameter. */
  predicate ValueMatches(like: (string, string) -> bool, value: string, filter: Filter) {
    match filter.value
    case None => true
    case Some(wanted) => if filter.matchmode == WILDCARD then like(value, Pattern(wanted)) else value == wanted
  }

  predicate Matches(like: (string, string) -> bool, name: string, value: string, filter: Filter) {
    name == filter.attribute && ValueMatches(like, value, filter)
  }

  // ---------------------------------------------------------------- the queries

  // The rows of file_tag that a file contributes to its group.
  function TagGroup(db: Db, tags: seq<string>, file: int): set<int>
    requires ForeignKeys(db)
  {
    set l | l in db.links && db.links[l].file == file && db.tags[db.links[l].tag] in tags
  }

  // SELECT id_file ... WHERE t.name IN (...) GROUP BY id_file HAVING COUNT(id_file) = ?
  function FilesWithTags(db: Db, tags: seq<string>): set<int>
    requires ForeignKeys(db)
  {
    set f | f in db.files && TagGroup(db, tags, f) != {} && |TagGroup(db, tags, f)| == |tags|
  }

  predicate SomeMatches(like: (string, string) -> bool, row: Attribute, filters: seq<Filter>) {
    exists i :: 0 <= i < |filters| && Matches(like, row.name, row.value, filters[i])
  }

  // The rows of the join with attribute that a file contributes to its group.
  function AttrGroup(db: Db, like: (string, string) -> bool, filters: seq<Filter>, file: int): set<int> {
    set a | a in db.attrs && db.attrs[a].file == file && SomeMatches(like, db.attrs[a], filters)
  }

  // ... AND (... OR ...) GROUP BY f.id HAVING COUNT(f.id) = ?
  function FilesWithAttrs(db: Db, like: (string, string) -> bool, filters: seq<Filter>): set<int> {
    set f | f in db.files && AttrGroup(db, like, filters, f) != {} && |AttrGroup(db, like, filters, f)| == |filters|
  }

  /** The statement ufa_repo_search assembles, depending on which of the lists are given. */
  function Selected(db: Db, like: (string, string) -> bool, filters: seq<Filter>, tags: seq<string>): set<int>
    requires ForeignKeys(db)
  {
    if filters == [] then FilesWithTags(db, tags)
    else if tags == [] then FilesWithAttrs(db, like, filters)
    else set f | f in FilesWithTags(db, tags) && f in FilesWithAttrs(db, like, filters)
  }

  // ---------------------------------------------------------------- what they are meant to select

  ghost predicate DistinctTags(tags: seq<string>) {
    forall i, j :: 0 <= i < j < |tags| ==> tags[i] != tags[j]
  }

  ghost predicate DistinctNames(filters: seq<Filter>) {
    forall i, j :: 0 <= i < j < |filters| ==> filters[i].attribute != filters[j].attribute
  }

  ghost predicate HasAll(m: Meta, file: string, tags: seq<string>) {
    forall t :: t in tags ==> (file, t) in m.tags
  }

  ghost predicate Satisfies(m: Meta, like: (string, string) -> bool, file: string, filter: Filter) {
    exists x :: x in m.attrs && x.0 == file && Matches(like, x.1, x.2, filter)
  }

  ghost predicate SatisfiesAll(m: Meta, like: (string, string) -> bool, file: string, filters: seq<Filter>) {
    forall q :: q in filters ==> Satisfies(m, like, file, q)
  }

  // ---------------------------------------------------------------- counting

  lemma {:induction false} SubsetSize<T>(a: set<T>, b: set<T>)
    requires a <= b
    ensures |a| <= |b| && (|a| == |b| <==> a == b)
  {
    assert |b| == |a| + |b - a| by { assert b == a + (b - a); }
    assert |b - a| == 0 <==> b - a == {};
  }

  lemma {:induction false} ElemsSize<T>(list: seq<T>)
    ensures |Elems(list)| <= |list|
    ensures |Elems(list)| == |list| <==> forall i, j :: 0 <= i < j < |list| ==> list[i] != list[j]
  {
    if list == [] {
      assert Elems(list) == {};
    } else {
      var n := |list| - 1;
      ElemsSize(list[..n]);
      assert Elems(list) == Elems(list[..n]) + {list[n]};
      assert list[n] in Elems(list[..n]) <==> exists i :: 0 <= i < n && list[i] == list[n];
    }
  }

  // The image of rows under a column that distinguishes them has as many elements as there are rows.
  lemma {:induction false} ColumnSize(rows: set<int>, column: map<int, string>)
    requires forall r :: r in rows ==> r in column
    requires forall r, s :: r in rows && s in rows && column[r] == column[s] ==> r == s
    ensures |set r | r in rows :: column[r]| == |rows|
  {
    if rows != {} {
      var r := AnyOf(rows);
      var rest := rows - {r};
      ColumnSize(rest, column);
      assert (set s | s in rows :: column[s]) == (set s | s in rest :: column[s]) + {column[r]};
      assert column[r] !in set s | s in rest :: column[s];
    }
  }

  // ---------------------------------------------------------------- tags

  function TagColumn(db: Db): map<int, string>
    requires ForeignKeys(db)
  {
    map l | l in db.links :: db.tags[db.links[l].tag]
  }

  // A file contributes one row per query tag that it has.
  lemma {:induction false} TagRowsAreTags(db: Db, tags: seq<string>, file: int)
    requires Valid(db) && file in db.files
    ensures |TagGroup(db, tags, file)| == |set t | t in tags && (db.files[file], t) in View(db).tags|
  {
    var rows := TagGroup(db, tags, file);
    var column := TagColumn(db);
    var image := set l | l in rows :: column[l];
    var have := set t | t in tags && (db.files[file], t) in View(db).tags;
    forall t | t in image
      ensures t in have
    {
      var l :| l in rows && t == column[l];
      assert Pair(db, l) == (db.files[file], t) && Pair(db, l) in View(db).tags;
    }
    forall t | t in have
      ensures t in image
    {
      var l :| l in db.links && Pair(db, l) == (db.files[file], t);
      assert db.files[db.links[l].file] == db.files[file];
      assert l in rows && t == column[l];
    }
    forall r, s | r in rows && s in rows && column[r] == column[s]
      ensures r == s
    {
      assert db.links[r] == db.links[s];
    }
    ColumnSize(rows, column);
    assert image == have;
  }

  /** The tag query selects the files that have every tag, when the tags are pairwise distinct, and nothing otherwise. */
  lemma {:induction false} TagQueryExact(db: Db, tags: seq<string>, file: int)
    requires Valid(db) && file in db.files && tags != []
    ensures file in FilesWithTags(db, tags) <==> DistinctTags(tags) && HasAll(View(db), db.files[file], tags)
  {
    var have := set t | t in tags && (db.files[file], t) in View(db).tags;
    TagRowsAreTags(db, tags, file);
    ElemsSize(tags);
    SubsetSize(have, Elems(tags));
    if HasAll(View(db), db.files[file], tags) {
      assert forall t :: t in tags ==> t in have;
    } else {
      var t :| t in tags && (db.files[file], t) !in View(db).tags;
      assert t in Elems(tags) && t !in have;
    }
    if |have| == |tags| {
      assert have != {};
    }
  }

  // ---------------------------------------------------------------- attributes

  function NameColumn(db: Db): map<int, string> {
    map a | a in db.attrs :: db.attrs[a].name
  }

  function FilterNames(filters: seq<Filter>): (r: seq<string>)
    ensures |r| == |filters| && forall i :: 0 <= i < |filters| ==> r[i] == filters[i].attribute
  {
    seq(|filters|, i requires 0 <= i < |filters| => filters[i].attribute)
  }

  // A file contributes one row per attribute that matches a filter.
  lemma {:induction false} AttrRowsAreNames(db: Db, like: (string, string) -> bool, filters: seq<Filter>, file: int)
    requires Valid(db) && file in db.files
    ensures var names := set a | a in AttrGroup(db, like, filters, file) :: NameColumn(db)[a];
      |AttrGroup(db, like, filters, file)| == |names| && names <= Elems(FilterNames(filters))
  {
    var rows := AttrGroup(db, like, filters, file);
    var column := NameColumn(db);
    ColumnSize(rows, column);
    forall a | a in rows
      ensures column[a] in Elems(FilterNames(filters))
    {
      var i :| 0 <= i < |filters| && Matches(like, db.attrs[a].name, db.attrs[a].value, filters[i]);
      assert FilterNames(filters)[i] == column[a];
    }
  }

  // With distinct names, a row for the name of a filter matches that filter.
  lemma {:induction false} RowForFilter(db: Db, like: (string, string) -> bool, filters: seq<Filter>, file: int, i: nat)
    requires Valid(db) && file in db.files && DistinctNames(filters) && i < |filters|
    ensures Satisfies(View(db), like, db.files[file], filters[i]) <==>
      exists a :: a in AttrGroup(db, like, filters, file) && NameColumn(db)[a] == filters[i].attribute
  {
    var name, q := db.files[file], filters[i];
    if Satisfies(View(db), like, name, q) {
      var x :| x in View(db).attrs && x.0 == name && Matches(like, x.1, x.2, q);
      var a :| a in db.attrs && Triple(db, a) == x;
      assert db.files[db.attrs[a].file] == db.files[file];
      assert SomeMatches(like, db.attrs[a], filters);
      assert a in AttrGroup(db, like, filters, file);
    }
    if a :| a in AttrGroup(db, like, filters, file) && NameColumn(db)[a] == q.attribute {
      var j :| 0 <= j < |filters| && Matches(like, db.attrs[a].name, db.attrs[a].value, filters[j]);
      assert j == i;
      assert Triple(db, a) in View(db).attrs;
    }
  }

  /** The attribute query selects the files that satisfy every filter, when the filters name pairwise distinct
      attributes, and nothing otherwise. */
  lemma {:induction false} AttrQueryExact(db: Db, like: (string, string) -> bool, filters: seq<Filter>, file: int)
    requires Valid(db) && file in db.files && filters != []
    ensures file in FilesWithAttrs(db, like, filters) <==>
      DistinctNames(filters) && SatisfiesAll(View(db), like, db.files[file], filters)
  {
    var rows := AttrGroup(db, like, filters, file);
    var names := set a | a in rows :: NameColumn(db)[a];
    var wanted := FilterNames(filters);
    AttrRowsAreNames(db, like, filters, file);
    ElemsSize(wanted);
    SubsetSize(names, Elems(wanted));
    assert DistinctNames(filters) <==> forall i, j :: 0 <= i < j < |wanted| ==> wanted[i] != wanted[j];
    if DistinctNames(filters) {
      forall i | 0 <= i < |filters|
        ensures Satisfies(View(db), like, db.files[file], filters[i]) <==> wanted[i] in names
      {
        RowForFilter(db, like, filters, file, i);
      }
      assert SatisfiesAll(View(db), like, db.files[file], filters) <==> forall i :: 0 <= i < |filters| ==> wanted[i] in names;
      assert names == Elems(wanted) <==> forall i :: 0 <= i < |wanted| ==> wanted[i] in names;
    }
  }

  // ---------------------------------------------------------------- search

  ghost function SearchMeant(m: Meta, like: (string, string) -> bool, filters: seq<Filter>, tags: seq<string>): set<string> {
    set f | f in m.files && HasAll(m, f, tags) && SatisfiesAll(m, like, f, filters)
  }

  // The names of files given by id.
  function NamesOfFiles(db: Db, ids: set<int>): set<string>
    requires forall f :: f in ids ==> f in db.files
  {
    set f | f in ids :: db.files[f]
  }

  /** A search finds exactly the files that carry every tag and satisfy every filter, provided the tags are pairwise
      distinct and so are the names of the filters; otherwise it finds nothing. */
  lemma {:induction false} SearchExact(db: Db, like: (string, string) -> bool, filters: seq<Filter>, tags: seq<string>)
    requires Valid(db) && (filters != [] || tags != [])
    ensures NamesOfFiles(db, Selected(db, like, filters, tags)) ==
      if DistinctTags(tags) && DistinctNames(filters) then SearchMeant(View(db), like, filters, tags) else {}
  {
    var ids := Selected(db, like, filters, tags);
    forall f | f in db.files
      ensures f in ids <==>
        DistinctTags(tags) && DistinctNames(filters) && HasAll(View(db), db.files[f], tags) && SatisfiesAll(View(db), like, db.files[f], filters)
    {
      if tags != [] {
        TagQueryExact(db, tags, f);
      }
      if filters != [] {
        AttrQueryExact(db, like, filters, f);
      }
    }
    assert forall name :: name in View(db).files ==> exists f :: f in db.files && db.files[f] == name;
  }
}
