/** Renaming a file within a repository, and moving it to another one: what ufa_repo_renamefile does to the metadata,
    and exactly when that is what a move is meant to do. */
module RenameSpec {
  import opened StoreSpec
  import opened StoreLaws

  // ---------------------------------------------------------------- what happens

  function TagsOf(m: Meta, file: string): set<string> {
    set x | x in m.tags && x.0 == file :: x.1
  }

  function AttrsOf(m: Meta, file: string): set<(string, string)> {
    set x | x in m.attrs && x.0 == file :: (x.1, x.2)
  }

  function NamesOf(attrs: set<(string, string)>): set<string> {
    set a | a in attrs :: a.0
  }

  // Tags are added; attributes override those of the same name.
  function WithTags(m: Meta, file: string, tags: set<string>): Meta {
    m.(vocabulary := m.vocabulary + tags, tags := m.tags + set t | t in tags :: (file, t))
  }

  function WithAttrs(m: Meta, file: string, attrs: set<(string, string)>): Meta {
    m.(attrs := (set x | x in m.attrs && !(x.0 == file && x.1 in NamesOf(attrs))) + set a | a in attrs :: (file, a.0, a.1))
  }

  function Without(m: Meta, file: string): Meta {
    m.(files := m.files - {file}, tags := OtherTags(m, file), attrs := OtherAttrs(m, file))
  }

  /** Both repositories after the call, when it returns. */
  datatype Outcome = Outcome(from: Meta, to: Meta) | Undefined

  /** The old base name is looked up in the new repository and renamed there; between directories, the tags and
      attributes the old repository has for it are copied, and it is removed there. When it is not found, or cannot have
      the new name, the call does not return. */
  function RenameMeant(from: Meta, to: Meta, fromDisk: set<string>, toDisk: set<string>, old_name: string, new_name: string, same_dir: bool): Outcome {
    if !Knows(to, toDisk, old_name) then Outcome.Undefined
    else
      var found := to.(files := to.files + {old_name});
      if new_name != old_name && new_name in found.files then Outcome.Undefined
      else
        var renamed := Renamed(found, old_name, new_name);
        if same_dir || !Knows(from, fromDisk, old_name) then Outcome(from, renamed)
        else
          Outcome(Without(from, old_name),
            WithAttrs(WithTags(renamed, new_name, TagsOf(from, old_name)), new_name, AttrsOf(from, old_name)))
  }

  /** Within a directory this is the operation of the repository. */
  lemma {:induction false} RenameIsMeant(from: Meta, to: Meta, fromDisk: set<string>, toDisk: set<string>, old_name: string, new_name: string)
    ensures RenameMeant(from, to, fromDisk, toDisk, old_name, new_name, true) ==
      if Returns(to, toDisk, Rename(old_name, new_name)) then Outcome(from, Meant(to, toDisk, Rename(old_name, new_name)))
      else Outcome.Undefined
  {
  }

  /** A call returns if and only if the new repository knows the file under its old name, and no other file there has the
      new one. */
  lemma {:induction false} RenameReturns(from: Meta, to: Meta, fromDisk: set<string>, toDisk: set<string>, old_name: string, new_name: string, same_dir: bool)
    ensures RenameMeant(from, to, fromDisk, toDisk, old_name, new_name, same_dir).Outcome? <==> CanRename(to, toDisk, old_name, new_name)
  {
  }

  // ---------------------------------------------------------------- within a repository

  // All other files are left alone.
  ghost predicate SameBut(m: Meta, m': Meta, gone: string, came: string) {
    && m'.vocabulary == m.vocabulary
    && (forall f :: f != gone && f != came ==> (f in m'.files <==> f in m.files) && TagsOf(m', f) == TagsOf(m, f) && AttrsOf(m', f) == AttrsOf(m, f))
  }

  lemma {:induction false} RenamedKeeps(m: Meta, old_name: string, new_name: string)
    requires Consistent(m) && old_name in m.files && (new_name == old_name || new_name !in m.files)
    ensures var m' := Renamed(m, old_name, new_name);
      TagsOf(m', new_name) == TagsOf(m, old_name) && AttrsOf(m', new_name) == AttrsOf(m, old_name) &&
      SameBut(m, m', old_name, new_name) && Consistent(m')
  {
    var m' := Renamed(m, old_name, new_name);
    forall t | t in TagsOf(m, old_name)
      ensures t in TagsOf(m', new_name)
    {
      assert (old_name, t) in m.tags && (new_name, t) in m'.tags;
    }
    forall a | a in AttrsOf(m, old_name)
      ensures a in AttrsOf(m', new_name)
    {
      assert (old_name, a.0, a.1) in m.attrs && (new_name, a.0, a.1) in m'.attrs;
    }
    forall f | f != old_name && f != new_name
      ensures TagsOf(m', f) == TagsOf(m, f) && AttrsOf(m', f) == AttrsOf(m, f)
    {
      assert forall t :: t in TagsOf(m, f) ==> (f, t) in m.tags && (f, t) in m'.tags;
      assert forall a :: a in AttrsOf(m, f) ==> (f, a.0, a.1) in m.attrs && (f, a.0, a.1) in m'.attrs;
    }
  }

  /** A rename within a directory returns exactly when the file is known and the new name is free; then the new name
      has all tags and attributes of the old one, the old name is gone, and no other file has changed. */
  lemma {:induction false} RenameConserves(m: Meta, disk: set<string>, old_name: string, new_name: string)
    requires Consistent(m)
    ensures var r := RenameMeant(m, m, disk, disk, old_name, new_name, true);
      (r.Outcome? <==> Knows(m, disk, old_name) && (new_name == old_name || new_name !in m.files)) &&
      (r.Outcome? ==>
        TagsOf(r.to, new_name) == TagsOf(m, old_name) && AttrsOf(r.to, new_name) == AttrsOf(m, old_name) &&
        new_name in r.to.files && (old_name != new_name ==> old_name !in r.to.files) &&
        SameBut(m, r.to, old_name, new_name) && Consistent(r.to))
  {
    var r := RenameMeant(m, m, disk, disk, old_name, new_name, true);
    if r.Outcome? {
      RenamedKeeps(m.(files := m.files + {old_name}), old_name, new_name);
    }
  }

  // ---------------------------------------------------------------- between repositories

  /** What a move between repositories is meant to do: the new name has the tags it had and those of the old one, the
      attributes of the old one and, where it has none, its own; nothing else changes in the new repository, and the
      file is gone from the old one. */
  ghost predicate Carried(from: Meta, to: Meta, from': Meta, to': Meta, old_name: string, new_name: string) {
    && TagsOf(to', new_name) == TagsOf(to, new_name) + TagsOf(from, old_name)
    && AttrsOf(to', new_name) == AttrsOf(from, old_name) + (set a | a in AttrsOf(to, new_name) && a.0 !in NamesOf(AttrsOf(from, old_name)))
    && new_name in to'.files
    && (forall f :: f != new_name ==> (f in to'.files <==> f in to.files) && TagsOf(to', f) == TagsOf(to, f) && AttrsOf(to', f) == AttrsOf(to, f))
    && from' == Without(from, old_name)
  }

  lemma {:induction false} CarriedParts(from: Meta, to: Meta, from': Meta, to': Meta, old_name: string, new_name: string)
    ensures Carried(from, to, from', to', old_name, new_name) ==>
      old_name !in from'.files && (old_name != new_name ==> (old_name in to'.files <==> old_name in to.files))
  {
  }

  /** For a file that the old repository has, a move does what it is meant to do exactly when the new repository finds
      the old base name, and that is also the new one or neither is in its table. */
  lemma {:induction false} MoveCarries(from: Meta, to: Meta, fromDisk: set<string>, toDisk: set<string>, old_name: string, new_name: string)
    requires Consistent(from) && Consistent(to) && old_name in from.files
    ensures var r := RenameMeant(from, to, fromDisk, toDisk, old_name, new_name, false);
      r.Outcome? && Carried(from, to, r.from, r.to, old_name, new_name) <==>
        Knows(to, toDisk, old_name) && (new_name == old_name || (old_name !in to.files && new_name !in to.files))
  {
    var r := RenameMeant(from, to, fromDisk, toDisk, old_name, new_name, false);
    var found := to.(files := to.files + {old_name});
    if r.Outcome? {
      var renamed := Renamed(found, old_name, new_name);
      RenamedKeeps(found, old_name, new_name);
      CopyLaw(renamed, new_name, TagsOf(from, old_name), AttrsOf(from, old_name));
      assert r.to == WithAttrs(WithTags(renamed, new_name, TagsOf(from, old_name)), new_name, AttrsOf(from, old_name));
      if new_name == old_name || old_name !in to.files {
        assert forall f :: f !in to.files ==> TagsOf(to, f) == {} && AttrsOf(to, f) == {};
        assert TagsOf(found, old_name) == TagsOf(to, new_name);
        assert AttrsOf(found, old_name) == AttrsOf(to, new_name);
        forall f
          ensures TagsOf(found, f) == TagsOf(to, f) && AttrsOf(found, f) == AttrsOf(to, f)
        {
        }
      } else {
        CarriedParts(from, to, r.from, r.to, old_name, new_name);
        assert old_name !in r.to.files;
      }
    }
  }

  lemma {:induction false} CopyLaw(m: Meta, file: string, tags: set<string>, attrs: set<(string, string)>)
    ensures var m' := WithAttrs(WithTags(m, file, tags), file, attrs);
      TagsOf(m', file) == TagsOf(m, file) + tags &&
      AttrsOf(m', file) == attrs + (set a | a in AttrsOf(m, file) && a.0 !in NamesOf(attrs)) &&
      m'.files == m.files &&
      forall f :: f != file ==> TagsOf(m', f) == TagsOf(m, f) && AttrsOf(m', f) == AttrsOf(m, f)
  {
    var m' := WithAttrs(WithTags(m, file, tags), file, attrs);
    forall t | t in TagsOf(m, file) + tags
      ensures t in TagsOf(m', file)
    {
      assert (file, t) in m'.tags;
    }
    forall a | a in attrs + (set b | b in AttrsOf(m, file) && b.0 !in NamesOf(attrs))
      ensures a in AttrsOf(m', file)
    {
      assert (file, a.0, a.1) in m'.attrs;
    }
    forall f | f != file
      ensures TagsOf(m', f) == TagsOf(m, f) && AttrsOf(m', f) == AttrsOf(m, f)
    {
      assert forall t :: t in TagsOf(m, f) ==> (f, t) in m'.tags;
      assert forall a :: a in AttrsOf(m, f) ==> (f, a.0, a.1) in m'.attrs;
    }
  }

  /** Moving a file under a new base name, as `mv a/x b/y` does, finds nothing to rename in the new repository: the call
      does not return. */
  lemma {:induction false} MoveUnderNewName(from: Meta, to: Meta, fromDisk: set<string>, toDisk: set<string>, old_name: string, new_name: string)
    requires old_name !in to.files && old_name !in toDisk
    ensures RenameMeant(from, to, fromDisk, toDisk, old_name, new_name, false) == Outcome.Undefined
  {
    RenameReturns(from, to, fromDisk, toDisk, old_name, new_name, false);
  }
}
