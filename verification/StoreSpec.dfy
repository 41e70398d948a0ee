/** The tables of src/core/repo_sqlite.c, the SQL statements that change them, and the repository operations. */
module StoreSpec {

  datatype Link = Link(file: int, tag: int)

  datatype Attribute = Attribute(file: int, name: string, value: string)

  /** The rows by id, and the AUTOINCREMENT counters. */
  datatype Db = Db(files: map<int, string>, tags: map<int, string>, links: map<int, Link>, attrs: map<int, Attribute>,
    lastFile: int, lastTag: int, lastLink: int, lastAttr: int)

  const EmptyDb := Db(map[], map[], map[], map[], 0, 0, 0, 0)

  // A unique index on the whole row.
  ghost predicate Unique<T(!new)>(rows: map<int, T>) {
    forall i, j :: i in rows && j in rows && rows[i] == rows[j] ==> i == j
  }

  // The unique index "uniq_attr" on file and name.
  ghost predicate UniqueAttrs(rows: map<int, Attribute>) {
    forall i, j :: i in rows && j in rows && rows[i].file == rows[j].file && rows[i].name == rows[j].name ==> i == j
  }

  // Ids are positive and have been given out by the counter.
  ghost predicate Counted<T(!new)>(rows: map<int, T>, last: int) {
    last >= 0 && forall i :: i in rows ==> 0 < i <= last
  }

  ghost predicate ForeignKeys(db: Db) {
    && (forall l :: l in db.links ==> db.links[l].file in db.files && db.links[l].tag in db.tags)
    && (forall a :: a in db.attrs ==> db.attrs[a].file in db.files)
  }

  /** What the schema declares. */
  ghost predicate Valid(db: Db) {
    && Unique(db.files) && Unique(db.tags) && Unique(db.links) && UniqueAttrs(db.attrs)
    && Counted(db.files, db.lastFile) && Counted(db.tags, db.lastTag)
    && Counted(db.links, db.lastLink) && Counted(db.attrs, db.lastAttr)
    && ForeignKeys(db)
  }

  // ---------------------------------------------------------------- statements

  // The rows without their ids.
  function RowsOf<T>(rows: map<int, T>): set<T> {
    set i | i in rows :: rows[i]
  }

  function Elems<T(==)>(list: seq<T>): set<T> {
    set x | x in list
  }

  // SELECT id ... WHERE name = ?: the id, or 0.
  function IdOf(rows: map<int, string>, name: string): (id: int)
    requires Unique(rows)
    ensures if name in RowsOf(rows) then id in rows && rows[id] == name else id == 0
  {
    var ids := set i | i in rows && rows[i] == name;
    assert forall i :: i in rows && rows[i] == name ==> i in ids;
    if ids == {} then 0
    else
      assert (exists i :: i in ids) && forall i, j :: i in ids && j in ids ==> i == j;
      var i :| i in ids;
      i
  }

  function InsertFile(db: Db, name: string): Db {
    db.(files := db.files[db.lastFile + 1 := name], lastFile := db.lastFile + 1)
  }

  function InsertTag(db: Db, tag: string): Db {
    db.(tags := db.tags[db.lastTag + 1 := tag], lastTag := db.lastTag + 1)
  }

  // INSERT INTO file_tag: the unique index refuses a second link, which counts as success.
  function InsertLink(db: Db, link: Link): Db {
    if link in RowsOf(db.links) then db
    else db.(links := db.links[db.lastLink + 1 := link], lastLink := db.lastLink + 1)
  }

  function DeleteLinksOf(db: Db, file: int): Db {
    db.(links := map l | l in db.links && db.links[l].file != file :: db.links[l])
  }

  function DeleteLink(db: Db, link: Link): Db {
    db.(links := map l | l in db.links && db.links[l] != link :: db.links[l])
  }

  // SELECT id FROM attribute WHERE id_file=? AND name=?
  function AttrId(db: Db, file: int, name: string): (id: int)
    requires UniqueAttrs(db.attrs)
    ensures (id in db.attrs && db.attrs[id].file == file && db.attrs[id].name == name) ||
      (id == 0 && forall a :: a in db.attrs ==> !(db.attrs[a].file == file && db.attrs[a].name == name))
  {
    var ids := set a | a in db.attrs && db.attrs[a].file == file && db.attrs[a].name == name;
    assert forall a :: a in db.attrs && db.attrs[a].file == file && db.attrs[a].name == name ==> a in ids;
    if ids == {} then 0
    else
      assert (exists i :: i in ids) && forall i, j :: i in ids && j in ids ==> i == j;
      var i :| i in ids;
      i
  }

  // INSERT OR REPLACE INTO attribute: an attribute of that name keeps its id.
  function ReplaceAttr(db: Db, row: Attribute): Db
    requires UniqueAttrs(db.attrs) && Counted(db.attrs, db.lastAttr)
  {
    var id := AttrId(db, row.file, row.name);
    if id > 0 then db.(attrs := db.attrs[id := row])
    else db.(attrs := db.attrs[db.lastAttr + 1 := row], lastAttr := db.lastAttr + 1)
  }

  function DeleteAttr(db: Db, file: int, name: string): Db {
    db.(attrs := map a | a in db.attrs && !(db.attrs[a].file == file && db.attrs[a].name == name) :: db.attrs[a])
  }

  // DELETE FROM file WHERE id=?: links and attributes go with it (ON DELETE CASCADE).
  function DeleteFile(db: Db, file: int): Db {
    db.(files := map f | f in db.files && f != file :: db.files[f],
      links := map l | l in db.links && db.links[l].file != file :: db.links[l],
      attrs := map a | a in db.attrs && db.attrs[a].file != file :: db.attrs[a])
  }

  // UPDATE file SET name=? WHERE id=?: the unique index refuses a name that another row has.
  function UpdateName(db: Db, id: int, name: string): (r: Reply)
    ensures r.Reply?
  {
    if exists i :: i in db.files && i != id && db.files[i] == name then Reply(db, false)
    else Reply(if id in db.files then db.(files := db.files[id := name]) else db, id in db.files)
  }

  // ---------------------------------------------------------------- operations

  /** A changed database, and an id or a success. */
  datatype WithId = WithId(db: Db, id: int)
  /** What a call leaves and returns. When the look-up or the UPDATE of a rename is refused, the code releases pointers
      that it has not set, and nothing more can be said. */
  datatype Reply = Reply(db: Db, ok: bool) | Undefined

  // get_file_id: a file that is in the repository's directory but not in the table is inserted; 0 when there is none.
  function GetFileId(db: Db, disk: set<string>, name: string): WithId
    requires Unique(db.files)
  {
    var id := IdOf(db.files, name);
    if id != 0 then WithId(db, id)
    else if name in disk then WithId(InsertFile(db, name), db.lastFile + 1)
    else WithId(db, 0)
  }

  function GetTagId(db: Db, tag: string): WithId
    requires Unique(db.tags)
  {
    var id := IdOf(db.tags, tag);
    if id == 0 then WithId(InsertTag(db, tag), db.lastTag + 1) else WithId(db, id)
  }

  /** The operations of a repository; paths are given by their last component. */
  datatype Op =
    | CreateTag(tag: string)
    | SetTag(file: string, tag: string)
    | UnsetTag(file: string, tag: string)
    | ClearTags(file: string)
    | SetAttr(file: string, attribute: string, value: string)
    | UnsetAttr(file: string, attribute: string)
    | RemoveFile(file: string)
    | Rename(file: string, new_name: string)

  function Execute(db: Db, disk: set<string>, op: Op): Reply
    requires Valid(db)
  {
    match op
    case CreateTag(tag) => Reply(GetTagId(db, tag).db, true)
    case SetTag(file, tag) =>
      var t := GetTagId(db, tag);
      var f := GetFileId(t.db, disk, file);
      if f.id == 0 then Reply(f.db, false) else Reply(InsertLink(f.db, Link(f.id, t.id)), true)
    case UnsetTag(file, tag) =>
      var f := GetFileId(db, disk, file);
      if f.id == 0 then Reply(f.db, false)
      else
        var t := IdOf(f.db.tags, tag);
        Reply(if t == 0 then f.db else DeleteLink(f.db, Link(f.id, t)), true)
    case ClearTags(file) =>
      var f := GetFileId(db, disk, file);
      if f.id == 0 then Reply(f.db, false) else Reply(DeleteLinksOf(f.db, f.id), true)
    case SetAttr(file, attribute, value) =>
      var f := GetFileId(db, disk, file);
      if f.id == 0 then Reply(f.db, false) else Reply(ReplaceAttr(f.db, Attribute(f.id, attribute, value)), true)
    case UnsetAttr(file, attribute) =>
      var f := GetFileId(db, disk, file);
      if f.id == 0 then Reply(f.db, false) else Reply(DeleteAttr(f.db, f.id, attribute), true)
    case RemoveFile(file) =>
      var f := GetFileId(db, disk, file);
      if f.id == 0 then Reply(f.db, false) else Reply(DeleteFile(f.db, f.id), true)
    case Rename(file, new_name) =>
      var f := GetFileId(db, disk, file);
      if f.id == 0 then Undefined
      else
        var r := UpdateName(f.db, f.id, new_name);
        if r.ok then r else Undefined
  }
}
