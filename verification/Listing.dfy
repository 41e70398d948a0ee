/** The virtual directories of a repository: a path of tags shows the files with all these tags and the tags by which
    they can be narrowed down. */
module Listing {
  import opened Strings
  import opened StoreSpec
  import opened StoreLaws
  import opened Repo
  import opened Search

  const INDICATOR := ".ufarepo"

  // ---------------------------------------------------------------- what a directory shows

  /** The files of a directory; a path that repeats a tag has none. */
  ghost function FilesAt(m: Meta, path: seq<string>): set<string> {
    if path != [] && DistinctTags(path) then set f | f in m.files && HasAll(m, f, path) else {}
  }

  /** The tags, other than those of the path, of the files of a directory. */
  ghost function TagsAt(m: Meta, path: seq<string>): set<string> {
    set x | x in m.tags && x.0 in FilesAt(m, path) && x.1 !in path :: x.1
  }

  /** Navigation: below a path of distinct tags, going down into a tag keeps exactly the files that have it; the
      directory offers a tag exactly when going down into it leaves a file; and a tag of the path leaves none. */
  lemma {:induction false} Descend(m: Meta, path: seq<string>, tag: string)
    requires Consistent(m) && path != [] && DistinctTags(path)
    ensures tag !in path ==> FilesAt(m, path + [tag]) == set f | f in FilesAt(m, path) && (f, tag) in m.tags
    ensures FilesAt(m, path + [tag]) <= FilesAt(m, path)
    ensures tag in TagsAt(m, path) <==> FilesAt(m, path + [tag]) != {}
    ensures tag in path ==> FilesAt(m, path + [tag]) == {}
  {
    var below := path + [tag];
    if tag in path {
      var i :| 0 <= i < |path| && path[i] == tag;
      assert below[i] == below[|path|];
    } else {
      assert DistinctTags(below);
      forall f | f in m.files
        ensures HasAll(m, f, below) <==> HasAll(m, f, path) && (f, tag) in m.tags
      {
        HasAllMore(m, f, path, tag);
      }
      if tag in TagsAt(m, path) {
        var x :| x in m.tags && x.0 in FilesAt(m, path) && x.1 == tag;
        assert x.0 in FilesAt(m, below);
      }
      if f :| f in FilesAt(m, below) {
        assert (f, tag) in m.tags;
      }
    }
  }

  lemma {:induction false} HasAllMore(m: Meta, file: string, path: seq<string>, tag: string)
    ensures HasAll(m, file, path + [tag]) <==> HasAll(m, file, path) && (file, tag) in m.tags
  {
    assert tag in path + [tag] && forall t :: t in path ==> t in path + [tag];
  }

  /** The root offers every tag, used or not: going down into one shows its files. */
  lemma {:induction false} DescendFromRoot(m: Meta, tag: string)
    requires Consistent(m)
    ensures FilesAt(m, [tag]) == set f | f in m.files && (f, tag) in m.tags
    ensures FilesAt(m, [tag]) != {} ==> tag in m.vocabulary
  {
    forall f | f in m.files
      ensures HasAll(m, f, [tag]) <==> (f, tag) in m.tags
    {
      assert tag in [tag];
    }
  }

  // ---------------------------------------------------------------- the queries

  // SELECT DISTINCT t.name ... WHERE f.id IN (...) AND t.name NOT IN (...)
  function TagsExcluding(db: Db, ids: set<int>, tags: seq<string>): set<string>
    requires ForeignKeys(db)
  {
    set l | l in db.links && db.links[l].file in ids && db.tags[db.links[l].tag] !in tags :: db.tags[db.links[l].tag]
  }

  lemma {:induction false} FilesLaw(db: Db, tags: seq<string>)
    requires Valid(db) && tags != []
    ensures NamesOfFiles(db, FilesWithTags(db, tags)) == FilesAt(View(db), tags)
  {
    forall f | f in db.files
      ensures f in FilesWithTags(db, tags) <==> db.files[f] in FilesAt(View(db), tags)
    {
      TagQueryExact(db, tags, f);
    }
    assert forall name :: name in View(db).files ==> exists f :: f in db.files && db.files[f] == name;
  }

  lemma {:induction false} TagsLaw(db: Db, tags: seq<string>)
    requires Valid(db) && tags != []
    ensures TagsExcluding(db, FilesWithTags(db, tags), tags) == TagsAt(View(db), tags)
  {
    var ids := FilesWithTags(db, tags);
    var names := FilesAt(View(db), tags);
    FilesLaw(db, tags);
    forall t | t in TagsExcluding(db, ids, tags)
      ensures t in TagsAt(View(db), tags)
    {
      var l :| l in db.links && db.links[l].file in ids && t !in tags && t == db.tags[db.links[l].tag];
      assert Pair(db, l) in View(db).tags && db.files[db.links[l].file] in NamesOfFiles(db, ids);
    }
    forall t | t in TagsAt(View(db), tags)
      ensures t in TagsExcluding(db, ids, tags)
    {
      var x :| x in View(db).tags && x.0 in names && x.1 == t && t !in tags;
      var l :| l in db.links && Pair(db, l) == x;
      var f :| f in ids && db.files[f] == x.0;
      assert db.links[l].file == f;
    }
  }

  // The files and the tags of a directory, each once.
  ghost predicate Shows(m: Meta, path: seq<string>, files: seq<string>, others: seq<string>) {
    Elems(files) == FilesAt(m, path) && Elems(others) == TagsAt(m, path) && DistinctTags(files) && DistinctTags(others)
  }

  // get_files_with_tags
  method FilesWithTagsList(repo: Repository, tags: seq<string>) returns (files: seq<string>, others: seq<string>)
    requires repo.Sound()
    ensures Shows(repo.Meaning(), tags, files, others)
  {
    files, others := [], [];
    if |tags| == 0 {
      return;
    }
    FilesLaw(repo.db, tags);
    TagsLaw(repo.db, tags);
    var ids := FilesWithTags(repo.db, tags);
    files := Listed(NamesOfFiles(repo.db, ids));
    if ids != {} {
      others := Listed(TagsExcluding(repo.db, ids, tags));
    }
  }

  /** ufa_repo_listfiles: the root shows all tags, another directory its files and then its tags; the indicator comes
      last. */
  method ListFiles(repo: Repository, dirpath: string) returns (list: seq<string>)
    requires repo.Sound()
    ensures list != [] && list[|list| - 1] == INDICATOR
    ensures dirpath == "/" ==> Elems(list[..|list| - 1]) == repo.Meaning().vocabulary && DistinctTags(list[..|list| - 1])
    ensures dirpath != "/" ==> exists files, others :: list == files + others + [INDICATOR] && Shows(repo.Meaning(), Split(dirpath, '/'), files, others)
  {
    if dirpath == "/" {
      list := Listed(RowsOf(repo.db.tags));
      ghost var tags := list;
      list := list + [INDICATOR];
      assert list[..|list| - 1] == tags;
    } else {
      var files, others := FilesWithTagsList(repo, Split(dirpath, '/'));
      list := files + others + [INDICATOR];
    }
  }
}
