/** The repository operations of src/core/repo_sqlite.c, statement by statement, on the database behind a connection. */
module Repo {
  import opened StoreSpec
  import opened StoreLaws
  import opened RenameSpec
  import opened Moves
  import opened Strings

  // ---------------------------------------------------------------- result rows

  // Stepping through a result set: each row once, in some order.
  method Listed<T(==)>(rows: set<T>) returns (list: seq<T>)
    ensures Elems(list) == rows && forall i, j :: 0 <= i < j < |list| ==> list[i] != list[j]
  {
    list := [];
    var rest := rows;
    while rest != {}
      invariant forall i, j :: 0 <= i < j < |list| ==> list[i] != list[j]
      invariant forall x :: x in rows <==> x in list || x in rest
      invariant forall x :: x in list ==> x !in rest
      decreases |rest|
    {
      var x :| x in rest;
      list, rest := list + [x], rest - {x};
    }
  }

  method Least(rows: set<string>) returns (x: string)
    requires rows != {}
    ensures x in rows && forall y :: y in rows ==> AtMost(x, y)
  {
    x :| x in rows;
    var rest := rows - {x};
    AtMostTotal(x, x);
    while rest != {}
      invariant x in rows && rest <= rows && forall y :: y in rows && y !in rest ==> AtMost(x, y)
      decreases |rest|
    {
      var y :| y in rest;
      AtMostTotal(x, y);
      ghost var was := x;
      if !AtMost(x, y) {
        x := y;
        AtMostTotal(y, y);
      }
      rest := rest - {y};
      forall z | z in rows && z !in rest
        ensures AtMost(x, z)
      {
        if z != y && x == y {
          AtMostTrans(x, was, z);
        }
      }
    }
  }

  // ORDER BY: each row once, in order.
  method Sorted(rows: set<string>) returns (list: seq<string>)
    ensures Elems(list) == rows && InOrder(list)
  {
    list := [];
    var rest := rows;
    while rest != {}
      invariant InOrder(list)
      invariant forall x :: x in rows <==> x in list || x in rest
      invariant forall x, y :: x in list && y in rest ==> AtMost(x, y) && x != y
      decreases |rest|
    {
      var x := Least(rest);
      list, rest := list + [x], rest - {x};
    }
  }

  // ---------------------------------------------------------------- connections

  class Repository {
    var db: Db

    ghost predicate Sound()
      reads this
    {
      Valid(db)
    }

    ghost function Meaning(): Meta
      reads this
      requires Sound()
    {
      View(db)
    }

    constructor ()
      ensures Sound() && Meaning() == Meta({}, {}, {}, {})
    {
      db := EmptyDb;
    }

    // get_file_id
    method GetFile(disk: set<string>, file: string) returns (id: int)
      requires Sound()
      modifies this
      ensures Sound() && WithId(db, id) == GetFileId(old(db), disk, file)
    {
      GetFileIdLaw(db, disk, file);
      id := IdOf(db.files, file);
      if id == 0 && file in disk {
        db := InsertFile(db, file);
        id := db.lastFile;
      }
    }

    /** ufa_repo_inserttag */
    method CreateTag(tag: string) returns (id: int)
      requires Sound()
      modifies this
      ensures Sound() && WithId(db, id) == GetTagId(old(db), tag)
      ensures Meaning() == Meant(old(Meaning()), {}, Op.CreateTag(tag))
    {
      GetTagIdLaw(db, tag);
      id := IdOf(db.tags, tag);
      if id == 0 {
        db := InsertTag(db, tag);
        id := db.lastTag;
      }
    }

    /** ufa_repo_settag */
    method SetTag(disk: set<string>, file: string, tag: string) returns (status: bool)
      requires Sound()
      modifies this
      ensures Sound() && Reply(db, status) == Execute(old(db), disk, Op.SetTag(file, tag))
      ensures Meaning() == Meant(old(Meaning()), disk, Op.SetTag(file, tag)) && status == Knows(old(Meaning()), disk, file)
    {
      ExecuteLaw(db, disk, Op.SetTag(file, tag));
      hide Valid, View, Knows, Meant, InsertLink, GetFileId, GetTagId;
      var tag_id := CreateTag(tag);
      var file_id := GetFile(disk, file);
      if file_id == 0 {
        return false;
      }
      db := InsertLink(db, Link(file_id, tag_id));
      status := true;
    }

    /** ufa_repo_unsettag */
    method UnsetTag(disk: set<string>, file: string, tag: string) returns (status: bool)
      requires Sound()
      modifies this
      ensures Sound() && Reply(db, status) == Execute(old(db), disk, Op.UnsetTag(file, tag))
      ensures Meaning() == Meant(old(Meaning()), disk, Op.UnsetTag(file, tag)) && status == Knows(old(Meaning()), disk, file)
    {
      ExecuteLaw(db, disk, Op.UnsetTag(file, tag));
      hide View, Knows, Meant, DeleteLink, GetFileId;
      var file_id := GetFile(disk, file);
      if file_id == 0 {
        return false;
      }
      var tag_id := IdOf(db.tags, tag);
      if tag_id != 0 {
        db := DeleteLink(db, Link(file_id, tag_id));
      }
      status := true;
    }

    /** ufa_repo_cleartags */
    method ClearTags(disk: set<string>, file: string) returns (status: bool)
      requires Sound()
      modifies this
      ensures Sound() && Reply(db, status) == Execute(old(db), disk, Op.ClearTags(file))
      ensures Meaning() == Meant(old(Meaning()), disk, Op.ClearTags(file)) && status == Knows(old(Meaning()), disk, file)
    {
      ExecuteLaw(db, disk, Op.ClearTags(file));
      hide View, Knows, Meant, DeleteLinksOf, GetFileId;
      var file_id := GetFile(disk, file);
      if file_id == 0 {
        return false;
      }
      db := DeleteLinksOf(db, file_id);
      status := true;
    }

    /** ufa_repo_setattr */
    method SetAttr(disk: set<string>, file: string, attribute: string, value: string) returns (status: bool)
      requires Sound()
      modifies this
      ensures Sound() && Reply(db, status) == Execute(old(db), disk, Op.SetAttr(file, attribute, value))
      ensures Meaning() == Meant(old(Meaning()), disk, Op.SetAttr(file, attribute, value)) && status == Knows(old(Meaning()), disk, file)
    {
      ExecuteLaw(db, disk, Op.SetAttr(file, attribute, value));
      hide View, Knows, Meant, ReplaceAttr, GetFileId;
      var file_id := GetFile(disk, file);
      if file_id == 0 {
        return false;
      }
      db := ReplaceAttr(db, Attribute(file_id, attribute, value));
      status := true;
    }

    /** ufa_repo_unsetattr */
    method UnsetAttr(disk: set<string>, file: string, attribute: string) returns (status: bool)
      requires Sound()
      modifies this
      ensures Sound() && Reply(db, status) == Execute(old(db), disk, Op.UnsetAttr(file, attribute))
      ensures Meaning() == Meant(old(Meaning()), disk, Op.UnsetAttr(file, attribute)) && status == Knows(old(Meaning()), disk, file)
    {
      ExecuteLaw(db, disk, Op.UnsetAttr(file, attribute));
      hide View, Knows, Meant, DeleteAttr, GetFileId;
      var file_id := GetFile(disk, file);
      if file_id == 0 {
        return false;
      }
      db := DeleteAttr(db, file_id, attribute);
      status := true;
    }

    /** ufa_repo_removefile */
    method RemoveFile(disk: set<string>, file: string) returns (status: bool)
      requires Sound()
      modifies this
      ensures Sound() && Reply(db, status) == Execute(old(db), disk, Op.RemoveFile(file))
      ensures Meaning() == Meant(old(Meaning()), disk, Op.RemoveFile(file)) && status == Knows(old(Meaning()), disk, file)
    {
      ExecuteLaw(db, disk, Op.RemoveFile(file));
      hide View, Knows, Meant, DeleteFile, GetFileId;
      var file_id := GetFile(disk, file);
      if file_id == 0 {
        return false;
      }
      db := DeleteFile(db, file_id);
      status := true;
    }

    // The first part of ufa_repo_renamefile.
    method UpdateFileName(disk: set<string>, old_name: string, new_name: string) returns (status: bool)
      requires Sound()
      modifies this
      ensures Sound() && status == CanRename(old(Meaning()), disk, old_name, new_name)
      ensures Execute(old(db), disk, Op.Rename(old_name, new_name)) == if status then Reply(db, true) else Reply.Undefined
    {
      ExecuteLaw(db, disk, Op.Rename(old_name, new_name));
      GetFileIdLaw(db, disk, old_name);
      hide Valid, View, Knows, Meant, UpdateName, GetFileId;
      var file_id := GetFile(disk, old_name);
      if file_id == 0 {
        return false;
      }
      var r := UpdateName(db, file_id, new_name);
      if r.ok {
        db := r.db;
      }
      status := r.ok;
    }

    /** ufa_repo_gettags: each tag of the file once, by name; like every operation, it makes a file on disk known. */
    method GetTags(disk: set<string>, file: string) returns (found: bool, tags: seq<string>)
      requires Sound()
      modifies this
      ensures Sound() && found == Knows(old(Meaning()), disk, file)
      ensures Meaning() == if found then old(Meaning()).(files := old(Meaning()).files + {file}) else old(Meaning())
      ensures db == GetFileId(old(db), disk, file).db
      ensures InOrder(tags) && Lists(tags, TagsOf(old(Meaning()), file))
    {
      GetFileIdLaw(db, disk, file);
      ViewConsistent(db);
      hide Valid, View;
      var file_id := GetFile(disk, file);
      tags := [];
      if file_id == 0 {
        return false, [];
      }
      found := true;
      var rows := set l | l in db.links && db.links[l].file == file_id :: db.tags[db.links[l].tag];
      TagRows(db, file_id);
      tags := Sorted(rows);
    }

    /** ufa_repo_getattr: each attribute of the file once, with its value. */
    method GetAttrs(disk: set<string>, file: string) returns (found: bool, attrs: seq<(string, string)>)
      requires Sound()
      modifies this
      ensures Sound() && found == Knows(old(Meaning()), disk, file)
      ensures Meaning() == if found then old(Meaning()).(files := old(Meaning()).files + {file}) else old(Meaning())
      ensures db == GetFileId(old(db), disk, file).db
      ensures forall i, j :: 0 <= i < j < |attrs| ==> attrs[i].0 != attrs[j].0
      ensures Lists(attrs, AttrsOf(old(Meaning()), file))
    {
      GetFileIdLaw(db, disk, file);
      ViewConsistent(db);
      ghost var m := Meaning();
      hide Valid, View;
      var file_id := GetFile(disk, file);
      attrs := [];
      if file_id == 0 {
        return false, [];
      }
      found := true;
      var rows := set a | a in db.attrs && db.attrs[a].file == file_id :: (db.attrs[a].name, db.attrs[a].value);
      AttrRows(db, file_id);
      attrs := Listed(rows);
      forall i, j | 0 <= i < j < |attrs|
        ensures attrs[i].0 != attrs[j].0
      {
        assert attrs[i] in AttrsOf(m, file) && attrs[j] in AttrsOf(m, file);
      }
    }

    // The loops of ufa_repo_renamefile.
    method CopyTags(disk: set<string>, file: string, tags: seq<string>)
      requires Sound()
      modifies this
      ensures Sound() && db == SetTags(old(db), disk, file, tags)
    {
      for i := 0 to |tags|
        invariant Sound() && db == SetTags(old(db), disk, file, tags[..i])
      {
        hide Valid, Execute;
        assert tags[..i + 1][..i] == tags[..i];
        var _ := SetTag(disk, file, tags[i]);
      }
      assert tags[..|tags|] == tags;
    }

    method CopyAttrs(disk: set<string>, file: string, attrs: seq<(string, string)>)
      requires Sound()
      modifies this
      ensures Sound() && db == SetAttrs(old(db), disk, file, attrs)
    {
      for i := 0 to |attrs|
        invariant Sound() && db == SetAttrs(old(db), disk, file, attrs[..i])
      {
        hide Valid, Execute;
        assert attrs[..i + 1][..i] == attrs[..i];
        var _ := SetAttr(disk, file, attrs[i].0, attrs[i].1);
      }
      assert attrs[..|attrs|] == attrs;
    }
  }

  lemma {:induction false} TagRows(db: Db, id: int)
    requires Valid(db) && id in db.files
    ensures (set l | l in db.links && db.links[l].file == id :: db.tags[db.links[l].tag]) == TagsOf(View(db), db.files[id])
  {
    var rows := set l | l in db.links && db.links[l].file == id :: db.tags[db.links[l].tag];
    forall t | t in rows
      ensures t in TagsOf(View(db), db.files[id])
    {
      var l :| l in db.links && db.links[l].file == id && t == db.tags[db.links[l].tag];
      assert Pair(db, l) == (db.files[id], t) && Pair(db, l) in View(db).tags;
    }
    forall t | t in TagsOf(View(db), db.files[id])
      ensures t in rows
    {
      var l :| l in db.links && Pair(db, l) == (db.files[id], t);
    }
  }

  lemma {:induction false} AttrRows(db: Db, id: int)
    requires Valid(db) && id in db.files
    ensures (set a | a in db.attrs && db.attrs[a].file == id :: (db.attrs[a].name, db.attrs[a].value)) == AttrsOf(View(db), db.files[id])
  {
    var rows := set a | a in db.attrs && db.attrs[a].file == id :: (db.attrs[a].name, db.attrs[a].value);
    forall x | x in rows
      ensures x in AttrsOf(View(db), db.files[id])
    {
      var a :| a in db.attrs && db.attrs[a].file == id && x == (db.attrs[a].name, db.attrs[a].value);
      assert Triple(db, a) == (db.files[id], x.0, x.1) && Triple(db, a) in View(db).attrs;
    }
    forall x | x in AttrsOf(View(db), db.files[id])
      ensures x in rows
    {
      var a :| a in db.attrs && Triple(db, a) == (db.files[id], x.0, x.1);
    }
  }

  // ---------------------------------------------------------------- renaming and moving

  // The repositories of a move as a state: one or two.
  ghost function Both(source: Repository, target: Repository): State
    reads source, target
  {
    if source == target then [target.db] else [source.db, target.db]
  }

  ghost function MoveOf(source: Repository, target: Repository, disk_old: set<string>, disk_new: set<string>, old_name: string, new_name: string,
      tags: seq<string>, attrs: seq<(string, string)>): Request
  {
    Move(0, if source == target then 0 else 1, disk_old, disk_new, old_name, new_name, tags, attrs)
  }

  /** ufa_repo_renamefile. Files on disk are those of the old and of the new repository's directory; two directories may
      belong to one repository. The call returns exactly when the file is known there under its old name, and no other
      file has the new one; otherwise the pointers that are released at the end have not been set, and nothing is promised. */
  method RenameFile(repo_old: Repository, repo_new: Repository, disk_old: set<string>, disk_new: set<string>,
      old_name: string, new_name: string, same_dir: bool)
    returns (returned: bool, status: bool, ghost tags: seq<string>, ghost attrs: seq<(string, string)>)
    requires repo_old.Sound() && repo_new.Sound()
    modifies repo_old, repo_new
    ensures returned <==> CanRename(old(repo_new.Meaning()), disk_new, old_name, new_name)
    ensures returned ==> status && repo_old.Sound() && repo_new.Sound()
    ensures returned && same_dir ==> Execute(old(repo_new.db), disk_new, Op.Rename(old_name, new_name)) == Reply(repo_new.db, status)
    ensures returned && same_dir && repo_old != repo_new ==> repo_old.db == old(repo_old.db)
    ensures returned && !same_dir ==>
      var e := MoveOf(repo_old, repo_new, disk_old, disk_new, old_name, new_name, tags, attrs);
      RowsRead(old(Both(repo_old, repo_new)), e) && Step(old(Both(repo_old, repo_new)), e) == Stepped(Both(repo_old, repo_new), status)
    ensures returned && (same_dir || repo_old != repo_new) ==>
      RenameMeant(old(repo_old.Meaning()), old(repo_new.Meaning()), disk_old, disk_new, old_name, new_name, same_dir) ==
        Outcome(if same_dir then old(repo_old.Meaning()) else repo_old.Meaning(), repo_new.Meaning())
  {
    ghost var m, from, before := repo_new.Meaning(), repo_old.Meaning(), Both(repo_old, repo_new);
    tags, attrs := [], [];
    ExecuteLaw(repo_new.db, disk_new, Op.Rename(old_name, new_name));
    hide Valid, View, Execute, Carry, CanRename;
    status := repo_new.UpdateFileName(disk_new, old_name, new_name);
    returned := status;
    if !returned {
      return;
    }
    if !same_dir {
      RenamedThere(m, disk_new, old_name, new_name);
      tags, attrs := CopyMetadata(repo_old, repo_new, disk_old, disk_new, old_name, new_name);
    }
    if same_dir {
      RenameIsMeant(from, m, disk_old, disk_new, old_name, new_name);
    } else if repo_old != repo_new {
      MoveMeans(before, Both(repo_old, repo_new), MoveOf(repo_old, repo_new, disk_old, disk_new, old_name, new_name, tags, attrs), status);
    }
  }

  lemma {:induction false} MoveMeans(before: State, after: State, e: Request, ok: bool)
    requires Moves.Sound(before) && e.Move? && Within(|before|, e) && e.source != e.target && RowsRead(before, e)
    requires Step(before, e) == Stepped(after, ok)
    ensures RenameMeant(View(before[e.source]), View(before[e.target]), e.disk_old, e.disk_new, e.old_name, e.new_name, false) ==
      Outcome(View(after[e.source]), View(after[e.target]))
  {
    hide Step, MeantStep, RowsRead, StepReturns, View;
    StepLaw(before, e);
    MoveBetween(Views(before), e);
    assert Views(after)[e.source] == View(after[e.source]) && Views(after)[e.target] == View(after[e.target]);
  }

  // The second part, between directories.
  method CopyMetadata(repo_old: Repository, repo_new: Repository, disk_old: set<string>, disk_new: set<string>, old_name: string, new_name: string)
    returns (ghost tags: seq<string>, ghost attrs: seq<(string, string)>)
    requires repo_old.Sound() && repo_new.Sound() && new_name in repo_new.Meaning().files
    modifies repo_old, repo_new
    ensures repo_old.Sound() && repo_new.Sound()
    ensures Lists(tags, TagsOf(old(repo_old.Meaning()), old_name)) && Lists(attrs, AttrsOf(old(repo_old.Meaning()), old_name))
    ensures Both(repo_old, repo_new) ==
      Carry(old(Both(repo_old, repo_new)), MoveOf(repo_old, repo_new, disk_old, disk_new, old_name, new_name, tags, attrs))
  {
    ghost var m := repo_old.Meaning();
    GetFileIdLaw(repo_old.db, disk_old, old_name);
    ViewConsistent(repo_old.db);
    hide Valid, View, Execute, SetTags, SetAttrs;
    var found, list := repo_old.GetTags(disk_old, old_name);
    tags, attrs := list, [];
    if !found {
      NoMetadata(m, old_name);
      return;
    }
    SetTagsLaw(repo_new.db, disk_new, new_name, tags);
    repo_new.CopyTags(disk_new, new_name, list);
    KnownStays(repo_old.db, disk_old, old_name);
    var found', list' := repo_old.GetAttrs(disk_old, old_name);
    attrs := list';
    repo_new.CopyAttrs(disk_new, new_name, list');
    var _ := repo_old.RemoveFile(disk_old, old_name);
  }

  lemma {:induction false} NoMetadata(m: Meta, file: string)
    requires Consistent(m) && file !in m.files
    ensures TagsOf(m, file) == {} && AttrsOf(m, file) == {}
  {
  }

  // A known file is looked up without a change.
  lemma {:induction false} KnownStays(db: Db, disk: set<string>, file: string)
    requires Valid(db) && file in View(db).files
    ensures GetFileId(db, disk, file).db == db
  {
  }
}
