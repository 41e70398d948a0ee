/** What a repository means: which files there are, which tags and attributes they have, and which tags exist; and the
    proof that the operations on the tables do to that meaning what they are meant to. */
module StoreLaws {
  import opened Options
  import opened StoreSpec

  /** The metadata: the tag vocabulary, the files, their tags, and their attributes with values. */
  datatype Meta = Meta(vocabulary: set<string>, files: set<string>, tags: set<(string, string)>, attrs: set<(string, string, string)>)

  function View(db: Db): Meta
    requires ForeignKeys(db)
  {
    Meta(RowsOf(db.tags), RowsOf(db.files), set l | l in db.links :: Pair(db, l), set a | a in db.attrs :: Triple(db, a))
  }

  // What a row of file_tag and a row of attribute say.
  function Pair(db: Db, l: int): (string, string)
    requires ForeignKeys(db) && l in db.links
  {
    (db.files[db.links[l].file], db.tags[db.links[l].tag])
  }

  function Triple(db: Db, a: int): (string, string, string)
    requires ForeignKeys(db) && a in db.attrs
  {
    (db.files[db.attrs[a].file], db.attrs[a].name, db.attrs[a].value)
  }

  /** Metadata is consistent: only known files have tags and attributes, only known tags are used, and an attribute of
      a file has one value. */
  ghost predicate Consistent(m: Meta) {
    && (forall x :: x in m.tags ==> x.0 in m.files && x.1 in m.vocabulary)
    && (forall x :: x in m.attrs ==> x.0 in m.files)
    && (forall x, y :: x in m.attrs && y in m.attrs && x.0 == y.0 && x.1 == y.1 ==> x == y)
  }

  lemma {:induction false} ViewConsistent(db: Db)
    requires Valid(db)
    ensures Consistent(View(db))
  {
    var m := View(db);
    forall x, y | x in m.attrs && y in m.attrs && x.0 == y.0 && x.1 == y.1
      ensures x == y
    {
      var a :| a in db.attrs && x == Triple(db, a);
      var b :| b in db.attrs && y == Triple(db, b);
      assert db.attrs[a].file == db.attrs[b].file;
    }
  }

  predicate Knows(m: Meta, disk: set<string>, file: string) {
    file in m.files || file in disk
  }

  // The tags, the attributes and one attribute, without those of a file.
  function OtherTags(m: Meta, file: string): set<(string, string)> {
    set x | x in m.tags && x.0 != file
  }

  function OtherAttrs(m: Meta, file: string): set<(string, string, string)> {
    set x | x in m.attrs && x.0 != file
  }

  function AttrsBut(m: Meta, file: string, attribute: string): set<(string, string, string)> {
    set x | x in m.attrs && !(x.0 == file && x.1 == attribute)
  }

  function NewName(x: string, old_name: string, new_name: string): string {
    if x == old_name then new_name else x
  }

  // UPDATE file SET name: the row keeps its id, so tags and attributes follow the name.
  function Renamed(m: Meta, old_name: string, new_name: string): Meta {
    Meta(m.vocabulary, (m.files - {old_name}) + {new_name},
      set x | x in m.tags :: (NewName(x.0, old_name, new_name), x.1),
      set x | x in m.attrs :: (NewName(x.0, old_name, new_name), x.1, x.2))
  }

  /** What a caller of a rename must see to: the file is known, and no other file has the new name. */
  predicate CanRename(m: Meta, disk: set<string>, old_name: string, new_name: string) {
    Knows(m, disk, old_name) && (new_name == old_name || new_name !in m.files)
  }

  /** A call returns. */
  predicate Returns(m: Meta, disk: set<string>, op: Op) {
    op.Rename? ==> CanRename(m, disk, op.file, op.new_name)
  }

  /** What an operation is meant to do. Asking about a file that is on disk makes it known; tagging an unknown file
      still creates the tag. */
  function Meant(m: Meta, disk: set<string>, op: Op): Meta {
    match op
    case CreateTag(tag) => m.(vocabulary := m.vocabulary + {tag})
    case SetTag(file, tag) =>
      var m' := m.(vocabulary := m.vocabulary + {tag});
      if Knows(m, disk, file) then m'.(files := m.files + {file}, tags := m.tags + {(file, tag)}) else m'
    case UnsetTag(file, tag) =>
      if Knows(m, disk, file) then m.(files := m.files + {file}, tags := m.tags - {(file, tag)}) else m
    case ClearTags(file) =>
      if Knows(m, disk, file) then m.(files := m.files + {file}, tags := OtherTags(m, file)) else m
    case SetAttr(file, attribute, value) =>
      if Knows(m, disk, file) then
        m.(files := m.files + {file}, attrs := AttrsBut(m, file, attribute) + {(file, attribute, value)})
      else m
    case UnsetAttr(file, attribute) =>
      if Knows(m, disk, file) then
        m.(files := m.files + {file}, attrs := AttrsBut(m, file, attribute))
      else m
    case RemoveFile(file) =>
      if Knows(m, disk, file) then
        m.(files := m.files - {file}, tags := OtherTags(m, file), attrs := OtherAttrs(m, file))
      else m
    case Rename(file, new_name) => Renamed(m.(files := m.files + {file}), file, new_name)
  }

  predicate Succeeds(m: Meta, disk: set<string>, op: Op) {
    op.CreateTag? || Knows(m, disk, op.file)
  }

  // A reply that keeps the constraints and does what the operation is meant to do, when there is one.
  ghost predicate Does(r: Reply, m: Meta, disk: set<string>, op: Op) {
    && (r.Reply? <==> Returns(m, disk, op))
    && (r.Reply? ==> Valid(r.db) && View(r.db) == Meant(m, disk, op) && r.ok == Succeeds(m, disk, op))
  }

  // ---------------------------------------------------------------- statements

  // Deleting the rows of file_tag that do not satisfy `keep`.
  lemma {:induction false} KeepLinks(db: Db, db': Db, keep: ((string, string)) -> bool)
    requires ForeignKeys(db) && ForeignKeys(db')
    requires forall l :: l in db'.links <==> l in db.links && keep(Pair(db, l))
    requires forall l :: l in db'.links ==> Pair(db', l) == Pair(db, l)
    ensures View(db').tags == set x | x in View(db).tags && keep(x)
  {
    forall x | x in View(db).tags && keep(x)
      ensures x in View(db').tags
    {
      var l :| l in db.links && x == Pair(db, l);
      assert l in db'.links;
    }
  }

  lemma {:induction false} KeepAttrs(db: Db, db': Db, keep: ((string, string, string)) -> bool)
    requires ForeignKeys(db) && ForeignKeys(db')
    requires forall a :: a in db'.attrs <==> a in db.attrs && keep(Triple(db, a))
    requires forall a :: a in db'.attrs ==> Triple(db', a) == Triple(db, a)
    ensures View(db').attrs == set x | x in View(db).attrs && keep(x)
  {
    forall x | x in View(db).attrs && keep(x)
      ensures x in View(db').attrs
    {
      var a :| a in db.attrs && x == Triple(db, a);
      assert a in db'.attrs;
    }
  }

  lemma {:induction false} InsertFileLaw(db: Db, name: string)
    requires Valid(db) && name !in RowsOf(db.files)
    ensures var db' := InsertFile(db, name);
      Valid(db') && View(db') == View(db).(files := View(db).files + {name}) && db'.files[db.lastFile + 1] == name
  {
    var db' := InsertFile(db, name);
    assert RowsOf(db'.files) == RowsOf(db.files) + {name} by {
      assert forall i :: i in db.files ==> db'.files[i] == db.files[i];
      assert db'.files[db.lastFile + 1] == name;
    }
    assert View(db').tags == View(db).tags;
    assert View(db').attrs == View(db).attrs;
  }

  lemma {:induction false} InsertTagLaw(db: Db, tag: string)
    requires Valid(db) && tag !in RowsOf(db.tags)
    ensures var db' := InsertTag(db, tag);
      Valid(db') && View(db') == View(db).(vocabulary := View(db).vocabulary + {tag}) && db'.tags[db.lastTag + 1] == tag
  {
    var db' := InsertTag(db, tag);
    assert RowsOf(db'.tags) == RowsOf(db.tags) + {tag} by {
      assert forall i :: i in db.tags ==> db'.tags[i] == db.tags[i];
      assert db'.tags[db.lastTag + 1] == tag;
    }
    assert View(db').tags == View(db).tags;
  }

  lemma {:induction false} InsertLinkLaw(db: Db, link: Link)
    requires Valid(db) && link.file in db.files && link.tag in db.tags
    ensures var db' := InsertLink(db, link);
      Valid(db') && View(db') == View(db).(tags := View(db).tags + {(db.files[link.file], db.tags[link.tag])})
  {
    var db' := InsertLink(db, link);
    var x := (db.files[link.file], db.tags[link.tag]);
    if link in RowsOf(db.links) {
      var l :| l in db.links && db.links[l] == link;
      assert x == Pair(db, l) && View(db).tags + {x} == View(db).tags;
    } else {
      assert forall l :: l in db.links ==> db'.links[l] == db.links[l];
      assert db'.links[db'.lastLink] == link;
      assert View(db').tags == View(db).tags + {x};
    }
  }

  lemma {:induction false} DeleteLinksOfLaw(db: Db, file: int)
    requires Valid(db) && file in db.files
    ensures var db' := DeleteLinksOf(db, file);
      Valid(db') && View(db') == View(db).(tags := OtherTags(View(db), db.files[file]))
  {
    var db' := DeleteLinksOf(db, file);
    KeepLinks(db, db', (x: (string, string)) => x.0 != db.files[file]);
  }

  lemma {:induction false} DeleteLinkLaw(db: Db, link: Link)
    requires Valid(db) && link.file in db.files && link.tag in db.tags
    ensures var db' := DeleteLink(db, link);
      Valid(db') && View(db') == View(db).(tags := View(db).tags - {(db.files[link.file], db.tags[link.tag])})
  {
    var db' := DeleteLink(db, link);
    var x := (db.files[link.file], db.tags[link.tag]);
    forall l | l in db.links && Pair(db, l) == x
      ensures db.links[l] == link
    {
    }
    KeepLinks(db, db', (y: (string, string)) => y != x);
  }

  lemma {:induction false} ReplaceAttrLaw(db: Db, row: Attribute)
    requires Valid(db) && row.file in db.files
    ensures var db' := ReplaceAttr(db, row);
      var name := db.files[row.file];
      Valid(db') && View(db') == View(db).(attrs :=
        AttrsBut(View(db), name, row.name) + {(name, row.name, row.value)})
  {
    var db' := ReplaceAttr(db, row);
    var id := AttrId(db, row.file, row.name);
    var at := if id > 0 then id else db.lastAttr + 1;
    assert db'.attrs == db.attrs[at := row];
    AttrReplaced(db, db', row, at);
  }

  // One row in place of those with its file and name.
  lemma {:induction false} AttrReplaced(db: Db, db': Db, row: Attribute, at: int)
    requires Valid(db) && row.file in db.files && db'.attrs == db.attrs[at := row] && db' == db.(attrs := db'.attrs, lastAttr := db'.lastAttr)
    requires forall a :: a in db.attrs ==> (a == at <==> db.attrs[a].file == row.file && db.attrs[a].name == row.name)
    ensures var name := db.files[row.file];
      View(db') == View(db).(attrs := AttrsBut(View(db), name, row.name) + {(name, row.name, row.value)})
  {
    var name := db.files[row.file];
    var kept := AttrsBut(View(db), name, row.name);
    forall x | x in kept
      ensures x in View(db').attrs
    {
      var a :| a in db.attrs && x == Triple(db, a);
      assert a != at && a in db'.attrs;
    }
    assert at in db'.attrs && db'.attrs[at] == row;
    forall x | x in View(db').attrs
      ensures x in kept + {(name, row.name, row.value)}
    {
      var a :| a in db'.attrs && x == Triple(db', a);
      if a != at {
        assert db.attrs[a] == db'.attrs[a];
      }
    }
    assert View(db').attrs == kept + {(name, row.name, row.value)};
  }

  lemma {:induction false} DeleteAttrLaw(db: Db, file: int, attribute: string)
    requires Valid(db) && file in db.files
    ensures var db' := DeleteAttr(db, file, attribute);
      Valid(db') && View(db') == View(db).(attrs := AttrsBut(View(db), db.files[file], attribute))
  {
    var db' := DeleteAttr(db, file, attribute);
    KeepAttrs(db, db', (x: (string, string, string)) => !(x.0 == db.files[file] && x.1 == attribute));
  }

  lemma {:induction false} DeleteFileLaw(db: Db, file: int)
    requires Valid(db) && file in db.files
    ensures var db' := DeleteFile(db, file);
      var m, name := View(db), db.files[file];
      Valid(db') && View(db') == Meta(m.vocabulary, m.files - {name}, OtherTags(m, name), OtherAttrs(m, name))
  {
    var db' := DeleteFile(db, file);
    var m, name := View(db), db.files[file];
    assert RowsOf(db'.files) == m.files - {name} by {
      forall x | x in m.files - {name}
        ensures x in RowsOf(db'.files)
      {
        var i :| i in db.files && db.files[i] == x;
        assert db'.files[i] == x;
      }
    }
    KeepLinks(db, db', (x: (string, string)) => x.0 != name);
    KeepAttrs(db, db', (x: (string, string, string)) => x.0 != name);
  }

  lemma {:induction false} UpdateNameLaw(db: Db, id: int, name: string)
    requires Valid(db) && id in db.files
    ensures var r := UpdateName(db, id, name);
      r.ok == (name == db.files[id] || name !in View(db).files) && Valid(r.db) &&
      View(r.db) == if r.ok then Renamed(View(db), db.files[id], name) else View(db)
  {
    var r := UpdateName(db, id, name);
    var was := db.files[id];
    if exists i :: i in db.files && i != id && db.files[i] == name {
      var i :| i in db.files && i != id && db.files[i] == name;
      assert name in View(db).files;
    } else {
      assert r.db.files == db.files[id := name];
      RenamedFiles(db, id, name);
      forall l | l in db.links
        ensures Pair(r.db, l) == (NewName(Pair(db, l).0, was, name), Pair(db, l).1)
      {
      }
      forall a | a in db.attrs
        ensures Triple(r.db, a) == (NewName(Triple(db, a).0, was, name), Triple(db, a).1, Triple(db, a).2)
      {
      }
      RenamedLinks(db, r.db, was, name);
      RenamedAttrs(db, r.db, was, name);
    }
  }

  lemma {:induction false} RenamedFiles(db: Db, id: int, name: string)
    requires Valid(db) && id in db.files && forall i :: i in db.files && i != id ==> db.files[i] != name
    ensures RowsOf(db.files[id := name]) == (RowsOf(db.files) - {db.files[id]}) + {name}
  {
    var files := db.files[id := name];
    forall x | x in (RowsOf(db.files) - {db.files[id]}) + {name}
      ensures x in RowsOf(files)
    {
      if x == name {
        assert files[id] == x;
      } else {
        var i :| i in db.files && db.files[i] == x;
        assert files[i] == x;
      }
    }
  }

  lemma {:induction false} RenamedLinks(db: Db, db': Db, was: string, name: string)
    requires ForeignKeys(db) && ForeignKeys(db') && db'.links == db.links
    requires forall l :: l in db.links ==> Pair(db', l) == (NewName(Pair(db, l).0, was, name), Pair(db, l).1)
    ensures View(db').tags == set x | x in View(db).tags :: (NewName(x.0, was, name), x.1)
  {
    var renamed := set x | x in View(db).tags :: (NewName(x.0, was, name), x.1);
    forall y | y in View(db').tags
      ensures y in renamed
    {
      var l :| l in db'.links && y == Pair(db', l);
      assert Pair(db, l) in View(db).tags;
    }
    forall y | y in renamed
      ensures y in View(db').tags
    {
      var x :| x in View(db).tags && y == (NewName(x.0, was, name), x.1);
      var l :| l in db.links && x == Pair(db, l);
      assert l in db'.links;
    }
  }

  lemma {:induction false} RenamedAttrs(db: Db, db': Db, was: string, name: string)
    requires ForeignKeys(db) && ForeignKeys(db') && db'.attrs == db.attrs
    requires forall a :: a in db.attrs ==> Triple(db', a) == (NewName(Triple(db, a).0, was, name), Triple(db, a).1, Triple(db, a).2)
    ensures View(db').attrs == set x | x in View(db).attrs :: (NewName(x.0, was, name), x.1, x.2)
  {
    var renamed := set x | x in View(db).attrs :: (NewName(x.0, was, name), x.1, x.2);
    forall y | y in View(db').attrs
      ensures y in renamed
    {
      var a :| a in db'.attrs && y == Triple(db', a);
      assert Triple(db, a) in View(db).attrs;
    }
    forall y | y in renamed
      ensures y in View(db').attrs
    {
      var x :| x in View(db).attrs && y == (NewName(x.0, was, name), x.1, x.2);
      var a :| a in db.attrs && x == Triple(db, a);
      assert a in db'.attrs;
    }
  }

  lemma {:induction false} GetFileIdLaw(db: Db, disk: set<string>, name: string)
    requires Valid(db)
    ensures var r := GetFileId(db, disk, name);
      Valid(r.db) && r.db.tags == db.tags &&
      (r.id != 0 <==> Knows(View(db), disk, name)) &&
      View(r.db) == (if r.id != 0 then View(db).(files := View(db).files + {name}) else View(db)) &&
      (r.id != 0 ==> r.id in r.db.files && r.db.files[r.id] == name)
  {
    var m := View(db);
    if name !in RowsOf(db.files) {
      if name in disk {
        InsertFileLaw(db, name);
      }
    } else {
      assert m.files + {name} == m.files;
      assert IdOf(db.files, name) != 0;
    }
  }

  lemma {:induction false} GetTagIdLaw(db: Db, tag: string)
    requires Valid(db)
    ensures var r := GetTagId(db, tag);
      Valid(r.db) && View(r.db) == View(db).(vocabulary := View(db).vocabulary + {tag}) && r.id in r.db.tags && r.db.tags[r.id] == tag
  {
    var m := View(db);
    if tag !in RowsOf(db.tags) {
      InsertTagLaw(db, tag);
    } else {
      assert m.vocabulary + {tag} == m.vocabulary;
      assert IdOf(db.tags, tag) != 0;
    }
  }

  // ---------------------------------------------------------------- operations

  /** Every operation that returns keeps the declared constraints and does to the metadata what it is meant to; all
      return but a rename of an unknown file or to a name that another file has. */
  lemma {:induction false} ExecuteLaw(db: Db, disk: set<string>, op: Op)
    requires Valid(db)
    ensures Does(Execute(db, disk, op), View(db), disk, op)
  {
    assert Unique(db.files) && Unique(db.tags);
    hide Valid, View, Knows, InsertFile, InsertTag, InsertLink, DeleteLinksOf, DeleteLink, ReplaceAttr, DeleteAttr, DeleteFile, UpdateName, Renamed, GetFileId, GetTagId;
    if op.CreateTag? {
      GetTagIdLaw(db, op.tag);
    } else if op.SetTag? {
      SetTagLaw(db, disk, op.file, op.tag);
    } else if op.UnsetTag? {
      UnsetTagLaw(db, disk, op.file, op.tag);
    } else {
      GetFileIdLaw(db, disk, op.file);
      var f := GetFileId(db, disk, op.file);
      if f.id != 0 {
        match op
        case ClearTags(_) => DeleteLinksOfLaw(f.db, f.id);
        case SetAttr(_, attribute, value) => ReplaceAttrLaw(f.db, Attribute(f.id, attribute, value));
        case UnsetAttr(_, attribute) => DeleteAttrLaw(f.db, f.id, attribute);
        case RemoveFile(_) => DeleteFileLaw(f.db, f.id);
        case Rename(_, new_name) => UpdateNameLaw(f.db, f.id, new_name);
      }
    }
  }

  lemma {:induction false} SetTagLaw(db: Db, disk: set<string>, file: string, tag: string)
    requires Valid(db)
    ensures Does(Execute(db, disk, SetTag(file, tag)), View(db), disk, SetTag(file, tag))
  {
    var t := GetTagId(db, tag);
    GetTagIdLaw(db, tag);
    GetFileIdLaw(t.db, disk, file);
    var f := GetFileId(t.db, disk, file);
    if f.id != 0 {
      InsertLinkLaw(f.db, Link(f.id, t.id));
    }
  }

  lemma {:induction false} UnsetTagLaw(db: Db, disk: set<string>, file: string, tag: string)
    requires Valid(db)
    ensures Does(Execute(db, disk, UnsetTag(file, tag)), View(db), disk, UnsetTag(file, tag))
  {
    GetFileIdLaw(db, disk, file);
    var f := GetFileId(db, disk, file);
    if f.id != 0 {
      var t := IdOf(f.db.tags, tag);
      if tag in RowsOf(f.db.tags) {
        DeleteLinkLaw(f.db, Link(f.id, t));
      } else {
        ViewConsistent(f.db);
        assert View(f.db).tags - {(file, tag)} == View(f.db).tags;
      }
    }
  }

  // ---------------------------------------------------------------- runs

  /** An operation and the files that are on disk when it runs. */
  datatype Event = Event(disk: set<string>, op: Op)

  /** The database after a run; None when a call in it does not return. */
  function ExecuteAll(db: Db, events: seq<Event>): Option<Db>
    requires Valid(db)
    decreases |events|
  {
    if events == [] then Some(db)
    else
      ExecuteLaw(db, events[0].disk, events[0].op);
      match Execute(db, events[0].disk, events[0].op)
      case Undefined => None
      case Reply(db', _) => ExecuteAll(db', events[1..])
  }

  function MeantAll(m: Meta, events: seq<Event>): Meta
    decreases |events|
  {
    if events == [] then m else MeantAll(Meant(m, events[0].disk, events[0].op), events[1..])
  }

  /** Every rename of the run meets its guard in the state it is called in. */
  ghost predicate AllReturn(m: Meta, events: seq<Event>) {
    forall k: nat :: k < |events| ==> Returns(MeantAll(m, events[..k]), events[k].disk, events[k].op)
  }

  lemma {:induction false} AllReturnCons(m: Meta, events: seq<Event>)
    requires events != []
    ensures AllReturn(m, events) <==>
      Returns(m, events[0].disk, events[0].op) && AllReturn(Meant(m, events[0].disk, events[0].op), events[1..])
  {
    hide Returns, Meant;
    var m', rest := Meant(m, events[0].disk, events[0].op), events[1..];
    assert MeantAll(m, events[..0]) == m;
    forall k: nat | k < |rest|
      ensures MeantAll(m, events[..k + 1]) == MeantAll(m', rest[..k]) && rest[k] == events[k + 1]
    {
      assert events[..k + 1][1..] == rest[..k];
    }
    if AllReturn(m, events) {
      forall k: nat | k < |rest|
        ensures Returns(MeantAll(m', rest[..k]), rest[k].disk, rest[k].op)
      {
        assert Returns(MeantAll(m, events[..k + 1]), events[k + 1].disk, events[k + 1].op);
      }
      assert Returns(MeantAll(m, events[..0]), events[0].disk, events[0].op);
    }
    if Returns(m, events[0].disk, events[0].op) && AllReturn(m', rest) {
      forall k: nat | k < |events|
        ensures Returns(MeantAll(m, events[..k]), events[k].disk, events[k].op)
      {
        if k > 0 {
          assert Returns(MeantAll(m', rest[..k - 1]), rest[k - 1].disk, rest[k - 1].op);
        }
      }
    }
  }

  /** Refinement over any run: it comes to its end exactly when every rename in it meets its guard in its state; then the
      tables keep every declared constraint, and mean what the operations say. */
  lemma {:induction false} RunLaw(db: Db, events: seq<Event>)
    requires Valid(db)
    ensures ExecuteAll(db, events).Some? <==> AllReturn(View(db), events)
    ensures match ExecuteAll(db, events)
      case None => true
      case Some(db') => Valid(db') && View(db') == MeantAll(View(db), events) && Consistent(View(db'))
    decreases |events|
  {
    hide View, Execute, Meant, Consistent, AllReturn, Returns;
    if events != [] {
      AllReturnCons(View(db), events);
      ExecuteLaw(db, events[0].disk, events[0].op);
      match Execute(db, events[0].disk, events[0].op)
      case Undefined =>
      case Reply(db', _) => RunLaw(db', events[1..]);
    } else {
      NoneReturn(View(db));
      ViewConsistent(db);
    }
  }

  lemma {:induction false} NoneReturn(m: Meta)
    ensures AllReturn(m, [])
  {
  }
}
