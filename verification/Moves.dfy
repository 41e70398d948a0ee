/** Several repositories: the operations of each of them, and moves from one to another, over whole runs. */
module Moves {
  import opened Options
  import opened StoreSpec
  import opened StoreLaws
  import opened RenameSpec

  // ---------------------------------------------------------------- copying metadata

  // Each row once, in some order.
  ghost predicate Lists<T(!new)>(list: seq<T>, rows: set<T>) {
    Elems(list) == rows && forall i, j :: 0 <= i < j < |list| ==> list[i] != list[j]
  }

  // The loops of ufa_repo_renamefile over tags and attributes.
  function SetTags(db: Db, disk: set<string>, file: string, tags: seq<string>): (r: Db)
    requires Valid(db)
    ensures Valid(r)
  {
    if tags == [] then db
    else
      var n := |tags| - 1;
      var front := SetTags(db, disk, file, tags[..n]);
      ExecuteLaw(front, disk, SetTag(file, tags[n]));
      Execute(front, disk, SetTag(file, tags[n])).db
  }

  function SetAttrs(db: Db, disk: set<string>, file: string, attrs: seq<(string, string)>): (r: Db)
    requires Valid(db)
    ensures Valid(r)
  {
    if attrs == [] then db
    else
      var n := |attrs| - 1;
      var front := SetAttrs(db, disk, file, attrs[..n]);
      ExecuteLaw(front, disk, SetAttr(file, attrs[n].0, attrs[n].1));
      Execute(front, disk, SetAttr(file, attrs[n].0, attrs[n].1)).db
  }

  lemma {:induction false} WithTag(m: Meta, disk: set<string>, file: string, tags: seq<string>, i: nat)
    requires i < |tags| && file in m.files
    ensures WithTags(m, file, Elems(tags[..i + 1])) ==
      Meant(WithTags(m, file, Elems(tags[..i])), disk, Op.SetTag(file, tags[i]))
  {
    assert Elems(tags[..i + 1]) == Elems(tags[..i]) + {tags[i]};
    assert m.files + {file} == m.files;
    assert WithTags(m, file, Elems(tags[..i + 1])).tags == WithTags(m, file, Elems(tags[..i])).tags + {(file, tags[i])};
  }

  lemma {:induction false} WithAttr(m: Meta, disk: set<string>, file: string, attrs: seq<(string, string)>, i: nat)
    requires i < |attrs| && file in m.files && forall i, j :: 0 <= i < j < |attrs| ==> attrs[i].0 != attrs[j].0
    ensures WithAttrs(m, file, Elems(attrs[..i + 1])) ==
      Meant(WithAttrs(m, file, Elems(attrs[..i])), disk, Op.SetAttr(file, attrs[i].0, attrs[i].1))
  {
    var done, more := Elems(attrs[..i]), Elems(attrs[..i + 1]);
    assert more == done + {attrs[i]};
    assert NamesOf(more) == NamesOf(done) + {attrs[i].0};
    assert m.files + {file} == m.files;
    forall a | a in done
      ensures a.0 != attrs[i].0
    {
      var j :| 0 <= j < i && attrs[j] == a;
    }
    var m1 := WithAttrs(m, file, done);
    forall x | x in WithAttrs(m, file, more).attrs
      ensures x in AttrsBut(m1, file, attrs[i].0) + {(file, attrs[i].0, attrs[i].1)}
    {
    }
    forall x | x in AttrsBut(m1, file, attrs[i].0) + {(file, attrs[i].0, attrs[i].1)}
      ensures x in WithAttrs(m, file, more).attrs
    {
      if x == (file, attrs[i].0, attrs[i].1) {
        assert attrs[i] in more;
      }
    }
  }

  lemma {:induction false} SetTagsLaw(db: Db, disk: set<string>, file: string, tags: seq<string>)
    requires Valid(db) && file in View(db).files
    ensures View(SetTags(db, disk, file, tags)) == WithTags(View(db), file, Elems(tags))
  {
    if tags == [] {
      assert Elems(tags) == {};
      assert WithTags(View(db), file, {}) == View(db);
    } else {
      var n := |tags| - 1;
      SetTagsLaw(db, disk, file, tags[..n]);
      ExecuteLaw(SetTags(db, disk, file, tags[..n]), disk, SetTag(file, tags[n]));
      hide View, Valid, Execute, Meant, WithTags;
      WithTag(View(db), disk, file, tags, n);
      assert tags[..n + 1] == tags;
    }
  }

  lemma {:induction false} SetAttrsLaw(db: Db, disk: set<string>, file: string, attrs: seq<(string, string)>)
    requires Valid(db) && file in View(db).files
    requires forall i, j :: 0 <= i < j < |attrs| ==> attrs[i].0 != attrs[j].0
    ensures View(SetAttrs(db, disk, file, attrs)) == WithAttrs(View(db), file, Elems(attrs))
  {
    if attrs == [] {
      assert Elems(attrs) == {};
      assert WithAttrs(View(db), file, {}) == View(db);
    } else {
      var n := |attrs| - 1;
      SetAttrsLaw(db, disk, file, attrs[..n]);
      ExecuteLaw(SetAttrs(db, disk, file, attrs[..n]), disk, SetAttr(file, attrs[n].0, attrs[n].1));
      hide View, Valid, Execute, Meant, WithAttrs;
      WithAttr(View(db), disk, file, attrs, n);
      assert attrs[..n + 1] == attrs;
    }
  }

  // ---------------------------------------------------------------- several repositories

  type State = seq<Db>

  ghost predicate Sound(state: State) {
    forall i :: 0 <= i < |state| ==> Valid(state[i])
  }

  function Views(state: State): (r: seq<Meta>)
    requires Sound(state)
    ensures |r| == |state| && forall i :: 0 <= i < |state| ==> r[i] == View(state[i])
  {
    seq(|state|, i requires 0 <= i < |state| => View(state[i]))
  }

  /** An operation of one repository, or a move between two directories, which may belong to the same repository. The
      rows for tags and attributes come in the order given. */
  datatype Request =
    | On(repo: nat, disk: set<string>, op: Op)
    | Move(source: nat, target: nat, disk_old: set<string>, disk_new: set<string>, old_name: string, new_name: string,
        tags: seq<string>, attrs: seq<(string, string)>)

  predicate Within(n: nat, e: Request) {
    if e.On? then e.repo < n else e.source < n && e.target < n
  }

  /** The state after a request, when its call returns. */
  datatype Stepped = Stepped(state: State, ok: bool) | Undefined

  lemma {:induction false} OneChanged(state: State, i: nat, db: Db)
    requires Sound(state) && i < |state| && Valid(db)
    ensures Sound(state[i := db]) && Views(state[i := db]) == Views(state)[i := View(db)]
  {
  }

  // An operation of one of the repositories.
  function Operate(state: State, i: nat, disk: set<string>, op: Op): (r: Stepped)
    requires Sound(state) && i < |state|
    ensures r.Stepped? ==> Sound(r.state) && |r.state| == |state|
  {
    ExecuteLaw(state[i], disk, op);
    match Execute(state[i], disk, op)
    case Undefined => Stepped.Undefined
    case Reply(db, ok) => Stepped(state[i := db], ok)
  }

  // What a move does when the new repository has renamed the file.
  function Carry(state: State, e: Request): (r: State)
    requires Sound(state) && e.Move? && Within(|state|, e)
    ensures Sound(r) && |r| == |state|
  {
    var found := GetFileId(state[e.source], e.disk_old, e.old_name);
    GetFileIdLaw(state[e.source], e.disk_old, e.old_name);
    var s := state[e.source := found.db];
    if found.id == 0 then s
    else
      var tagged := s[e.target := SetTags(s[e.target], e.disk_new, e.new_name, e.tags)];
      var copied := tagged[e.target := SetAttrs(tagged[e.target], e.disk_new, e.new_name, e.attrs)];
      ExecuteLaw(copied[e.source], e.disk_old, RemoveFile(e.old_name));
      Operate(copied, e.source, e.disk_old, RemoveFile(e.old_name)).state
  }

  function Step(state: State, e: Request): (r: Stepped)
    requires Sound(state) && Within(|state|, e)
    ensures r.Stepped? ==> Sound(r.state) && |r.state| == |state|
  {
    match e
    case On(i, disk, op) => Operate(state, i, disk, op)
    case Move(_, target, _, disk_new, old_name, new_name, _, _) =>
      var renamed := Operate(state, target, disk_new, Rename(old_name, new_name));
      if renamed.Stepped? then Stepped(Carry(renamed.state, e), true) else Stepped.Undefined
  }

  /** The rows of a move are the tags and the attributes that the old repository has when they are read. */
  ghost predicate RowsRead(state: State, e: Request)
    requires Sound(state) && Within(|state|, e)
  {
    e.Move? ==>
      var renamed := Operate(state, e.target, e.disk_new, Rename(e.old_name, e.new_name));
      renamed.Stepped? ==>
        Lists(e.tags, TagsOf(View(renamed.state[e.source]), e.old_name)) &&
        Lists(e.attrs, AttrsOf(View(renamed.state[e.source]), e.old_name))
  }

  // ---------------------------------------------------------------- what it means

  // The metadata of the old name is copied to the new one and removed; both may be in one repository.
  function MeantCarry(ms: seq<Meta>, e: Request): (r: seq<Meta>)
    requires e.Move? && Within(|ms|, e)
    ensures |r| == |ms|
  {
    var from := ms[e.source];
    if !Knows(from, e.disk_old, e.old_name) then ms
    else
      var known := ms[e.source := from.(files := from.files + {e.old_name})];
      var copied := known[e.target := WithAttrs(WithTags(known[e.target], e.new_name, TagsOf(from, e.old_name)), e.new_name, AttrsOf(from, e.old_name))];
      copied[e.source := Without(copied[e.source], e.old_name)]
  }

  function MeantStep(ms: seq<Meta>, e: Request): (r: seq<Meta>)
    requires Within(|ms|, e)
    ensures |r| == |ms|
  {
    match e
    case On(i, disk, op) => ms[i := Meant(ms[i], disk, op)]
    case Move(_, target, _, disk_new, old_name, new_name, _, _) =>
      MeantCarry(ms[target := Meant(ms[target], disk_new, Rename(old_name, new_name))], e)
  }

  /** The call of a request returns: a rename or a move meets its guard in the repository that it renames in. */
  predicate StepReturns(ms: seq<Meta>, e: Request)
    requires Within(|ms|, e)
  {
    match e
    case On(i, disk, op) => Returns(ms[i], disk, op)
    case Move(_, target, _, disk_new, old_name, new_name, _, _) => CanRename(ms[target], disk_new, old_name, new_name)
  }

  predicate StepSucceeds(ms: seq<Meta>, e: Request)
    requires Within(|ms|, e)
  {
    e.On? ==> Succeeds(ms[e.repo], e.disk, e.op)
  }

  lemma {:induction false} OperateLaw(state: State, i: nat, disk: set<string>, op: Op)
    requires Sound(state) && i < |state|
    ensures var r := Operate(state, i, disk, op);
      (r.Stepped? <==> Returns(View(state[i]), disk, op)) &&
      (r.Stepped? ==>
        Views(r.state) == Views(state)[i := Meant(View(state[i]), disk, op)] && r.ok == Succeeds(View(state[i]), disk, op))
  {
    ExecuteLaw(state[i], disk, op);
    var r := Execute(state[i], disk, op);
    if r.Reply? {
      OneChanged(state, i, r.db);
    }
  }

  lemma {:induction false} OneValue(m: Meta, file: string, attrs: seq<(string, string)>)
    requires Consistent(m) && Lists(attrs, AttrsOf(m, file))
    ensures forall i, j :: 0 <= i < j < |attrs| ==> attrs[i].0 != attrs[j].0
  {
    forall i, j | 0 <= i < j < |attrs|
      ensures attrs[i].0 != attrs[j].0
    {
      assert attrs[i] in AttrsOf(m, file) && attrs[j] in AttrsOf(m, file);
      assert (file, attrs[i].0, attrs[i].1) in m.attrs && (file, attrs[j].0, attrs[j].1) in m.attrs;
    }
  }

  lemma {:induction false} CopyMeans(db: Db, disk: set<string>, file: string, tags: seq<string>, attrs: seq<(string, string)>)
    requires Valid(db) && file in View(db).files
    requires forall i, j :: 0 <= i < j < |attrs| ==> attrs[i].0 != attrs[j].0
    ensures View(SetAttrs(SetTags(db, disk, file, tags), disk, file, attrs)) ==
      WithAttrs(WithTags(View(db), file, Elems(tags)), file, Elems(attrs))
  {
    SetTagsLaw(db, disk, file, tags);
    SetAttrsLaw(SetTags(db, disk, file, tags), disk, file, attrs);
  }

  lemma {:induction false} CarryLaw(state: State, e: Request)
    requires Sound(state) && e.Move? && Within(|state|, e) && e.new_name in View(state[e.target]).files
    requires Lists(e.tags, TagsOf(View(state[e.source]), e.old_name)) && Lists(e.attrs, AttrsOf(View(state[e.source]), e.old_name))
    ensures Views(Carry(state, e)) == MeantCarry(Views(state), e)
  {
    var found := GetFileId(state[e.source], e.disk_old, e.old_name);
    GetFileIdLaw(state[e.source], e.disk_old, e.old_name);
    OneChanged(state, e.source, found.db);
    ViewConsistent(state[e.source]);
    OneValue(View(state[e.source]), e.old_name, e.attrs);
    var s := state[e.source := found.db];
    if found.id == 0 {
      assert Views(s) == Views(state);
    } else {
      CopyMeans(s[e.target], e.disk_new, e.new_name, e.tags, e.attrs);
      hide View, Valid, GetFileId, SetTags, SetAttrs, WithTags, WithAttrs, TagsOf, AttrsOf, Lists, Execute, Knows;
      var copied := s[e.target := SetAttrs(SetTags(s[e.target], e.disk_new, e.new_name, e.tags), e.disk_new, e.new_name, e.attrs)];
      OneChanged(s, e.target, copied[e.target]);
      OperateLaw(copied, e.source, e.disk_old, RemoveFile(e.old_name));
      RemoveMeans(View(copied[e.source]), e.disk_old, e.old_name);
    }
  }

  lemma {:induction false} RemoveMeans(m: Meta, disk: set<string>, file: string)
    ensures Knows(m, disk, file) ==> Meant(m, disk, RemoveFile(file)) == Without(m, file)
  {
  }

  /** Every request whose call returns keeps the constraints of every repository, and does to their metadata what it is
      meant to; all return but the renames and moves that do not meet their guard. */
  lemma {:induction false} StepLaw(state: State, e: Request)
    requires Sound(state) && Within(|state|, e) && RowsRead(state, e)
    ensures Step(state, e).Stepped? <==> StepReturns(Views(state), e)
    ensures match Step(state, e)
      case Undefined => true
      case Stepped(state', ok) => Views(state') == MeantStep(Views(state), e) && ok == StepSucceeds(Views(state), e)
  {
    hide Carry, MeantCarry, View, Valid, Meant, Lists;
    match e
    case On(i, disk, op) => OperateLaw(state, i, disk, op);
    case Move(_, target, _, disk_new, old_name, new_name, _, _) =>
      OperateLaw(state, target, disk_new, Rename(old_name, new_name));
      var renamed := Operate(state, target, disk_new, Rename(old_name, new_name));
      if renamed.Stepped? {
        RenamedThere(Views(state)[target], disk_new, old_name, new_name);
        CarryLaw(renamed.state, e);
      }
  }

  lemma {:induction false} RenamedThere(m: Meta, disk: set<string>, old_name: string, new_name: string)
    ensures new_name in Meant(m, disk, Rename(old_name, new_name)).files
  {
  }

  // ---------------------------------------------------------------- runs

  predicate AllWithin(n: nat, events: seq<Request>) {
    forall i :: 0 <= i < |events| ==> Within(n, events[i])
  }

  lemma {:induction false} WithinRest(n: nat, events: seq<Request>)
    requires events != [] && AllWithin(n, events)
    ensures Within(n, events[0]) && AllWithin(n, events[1..])
  {
    assert forall i :: 0 <= i < |events[1..]| ==> events[1..][i] == events[i + 1];
  }

  /** A run of requests, in which each move reads the rows that are there when it comes. */
  ghost predicate Possible(state: State, events: seq<Request>)
    requires Sound(state) && AllWithin(|state|, events)
    decreases |events|
  {
    events != [] ==>
      RowsRead(state, events[0]) &&
      match Step(state, events[0])
      case Undefined => true
      case Stepped(state', _) => Possible(state', events[1..])
  }

  /** The state after a run; None when a call in it does not return. */
  function RunAll(state: State, events: seq<Request>): Option<State>
    requires Sound(state) && AllWithin(|state|, events)
    decreases |events|
  {
    if events == [] then Some(state)
    else
      match Step(state, events[0])
      case Undefined => None
      case Stepped(state', _) => RunAll(state', events[1..])
  }

  function MeantRun(ms: seq<Meta>, events: seq<Request>): (r: seq<Meta>)
    requires AllWithin(|ms|, events)
    ensures |r| == |ms|
    decreases |events|
  {
    if events == [] then ms else MeantRun(MeantStep(ms, events[0]), events[1..])
  }

  /** Every rename and every move of the run meets its guard in the state it is called in. */
  ghost predicate AllStepsReturn(ms: seq<Meta>, events: seq<Request>)
    requires AllWithin(|ms|, events)
  {
    forall k: nat :: k < |events| ==> StepReturns(MeantRun(ms, events[..k]), events[k])
  }

  lemma {:induction false} AllStepsCons(ms: seq<Meta>, events: seq<Request>)
    requires events != [] && AllWithin(|ms|, events)
    ensures AllStepsReturn(ms, events) <==>
      StepReturns(ms, events[0]) && AllStepsReturn(MeantStep(ms, events[0]), events[1..])
  {
    hide StepReturns, MeantStep;
    var ms', rest := MeantStep(ms, events[0]), events[1..];
    forall k: nat | k < |rest|
      ensures MeantRun(ms, events[..k + 1]) == MeantRun(ms', rest[..k]) && rest[k] == events[k + 1]
    {
      assert events[..k + 1][1..] == rest[..k];
    }
    assert MeantRun(ms, events[..0]) == ms;
    if AllStepsReturn(ms, events) {
      forall k: nat | k < |rest|
        ensures StepReturns(MeantRun(ms', rest[..k]), rest[k])
      {
        assert StepReturns(MeantRun(ms, events[..k + 1]), events[k + 1]);
      }
      assert StepReturns(MeantRun(ms, events[..0]), events[0]);
    }
    if StepReturns(ms, events[0]) && AllStepsReturn(ms', rest) {
      forall k: nat | k < |events|
        ensures StepReturns(MeantRun(ms, events[..k]), events[k])
      {
        if k > 0 {
          assert StepReturns(MeantRun(ms', rest[..k - 1]), rest[k - 1]);
        }
      }
    }
  }

  /** Refinement over any run of operations, renames and moves on any repositories: it comes to its end exactly when every
      rename and move meets its guard in its state; then the tables of each repository keep every declared constraint, and
      mean what the requests say. */
  lemma {:induction false} RunLaw(state: State, events: seq<Request>)
    requires Sound(state) && AllWithin(|state|, events) && Possible(state, events)
    ensures RunAll(state, events).Some? <==> AllStepsReturn(Views(state), events)
    ensures match RunAll(state, events)
      case None => true
      case Some(state') => Sound(state') && Views(state') == MeantRun(Views(state), events) && AllConsistent(Views(state'))
    decreases |events|
  {
    if events != [] {
      WithinRest(|state|, events);
      hide Step, MeantStep, RowsRead, Views, Sound, Within, AllWithin, AllStepsReturn, StepReturns, AllConsistent;
      AllStepsCons(Views(state), events);
      StepLaw(state, events[0]);
      match Step(state, events[0])
      case Undefined =>
      case Stepped(state', _) => RunLaw(state', events[1..]);
    } else {
      forall i | 0 <= i < |state|
        ensures Consistent(Views(state)[i])
      {
        ViewConsistent(state[i]);
      }
    }
  }

  ghost predicate AllConsistent(ms: seq<Meta>) {
    forall i :: 0 <= i < |ms| ==> Consistent(ms[i])
  }

  // ---------------------------------------------------------------- moves by themselves

  /** Between two repositories a move does what RenameSpec says. */
  lemma {:induction false} MoveBetween(ms: seq<Meta>, e: Request)
    requires e.Move? && Within(|ms|, e) && e.source != e.target
    ensures var r := RenameMeant(ms[e.source], ms[e.target], e.disk_old, e.disk_new, e.old_name, e.new_name, false);
      (r.Outcome? <==> StepReturns(ms, e)) &&
      (r.Outcome? ==> MeantStep(ms, e) == ms[e.source := r.from][e.target := r.to])
  {
    var from, to := ms[e.source], ms[e.target];
    var r := RenameMeant(from, to, e.disk_old, e.disk_new, e.old_name, e.new_name, false);
    var known := from.(files := from.files + {e.old_name});
    assert Without(known, e.old_name) == Without(from, e.old_name) by {
      assert known.files - {e.old_name} == from.files - {e.old_name};
    }
    hide Renamed, WithTags, WithAttrs, Without;
    RenameReturns(from, to, e.disk_old, e.disk_new, e.old_name, e.new_name, false);
    if r.Outcome? {
      assert MeantStep(ms, e)[e.source] == r.from;
      assert MeantStep(ms, e)[e.target] == r.to;
      forall i | 0 <= i < |ms|
        ensures MeantStep(ms, e)[i] == ms[e.source := r.from][e.target := r.to][i]
      {
      }
    }
  }

  /** Between two directories of one repository it is a rename, when the base name changes; otherwise the file loses all
      its metadata: it is copied onto itself and then removed. */
  lemma {:induction false} MoveInside(ms: seq<Meta>, e: Request)
    requires e.Move? && Within(|ms|, e) && e.source == e.target && StepReturns(ms, e) && Consistent(ms[e.target])
    ensures MeantStep(ms, e)[e.target] ==
      if e.new_name == e.old_name then Without(ms[e.target], e.old_name)
      else RenameMeant(ms[e.target], ms[e.target], e.disk_new, e.disk_new, e.old_name, e.new_name, true).to
  {
    var m := ms[e.target];
    var found := m.(files := m.files + {e.old_name});
    var renamed := Renamed(found, e.old_name, e.new_name);
    assert Meant(m, e.disk_new, Rename(e.old_name, e.new_name)) == renamed;
    var once := ms[e.target := renamed];
    assert MeantStep(ms, e) == MeantCarry(once, e) && once[e.source] == renamed;
    if e.new_name == e.old_name {
      SameName(found, e.old_name);
      CopyOnto(found, e.old_name);
      assert renamed.(files := renamed.files + {e.old_name}) == renamed;
      assert MeantCarry(once, e)[e.target] == Without(renamed, e.old_name);
      assert Without(found, e.old_name) == Without(m, e.old_name);
    } else {
      OldNameGone(found, e.old_name, e.new_name);
      var again := renamed.(files := renamed.files + {e.old_name});
      NoneToCopy(again, e.new_name);
      assert Knows(renamed, e.disk_old, e.old_name) ==> MeantCarry(once, e)[e.target] == Without(again, e.old_name);
      assert OtherTags(renamed, e.old_name) == renamed.tags && OtherAttrs(renamed, e.old_name) == renamed.attrs;
      assert Without(again, e.old_name) == renamed;
    }
  }

  lemma {:induction false} SameName(m: Meta, name: string)
    requires name in m.files
    ensures Renamed(m, name, name) == m
  {
    assert forall x :: x in m.tags ==> (NewName(x.0, name, name), x.1) == x;
    assert forall x :: x in m.attrs ==> (NewName(x.0, name, name), x.1, x.2) == x;
  }

  lemma {:induction false} CopyOnto(m: Meta, name: string)
    requires Consistent(m)
    ensures WithAttrs(WithTags(m, name, TagsOf(m, name)), name, AttrsOf(m, name)) == m
  {
    var tags := set t | t in TagsOf(m, name) :: (name, t);
    var attrs := set a | a in AttrsOf(m, name) :: (name, a.0, a.1);
    assert m.vocabulary + TagsOf(m, name) == m.vocabulary;
    assert m.tags + tags == m.tags;
    forall x | x in m.attrs
      ensures x in WithAttrs(m, name, AttrsOf(m, name)).attrs
    {
      if x.0 == name {
        assert (x.1, x.2) in AttrsOf(m, name);
      }
    }
    assert WithTags(m, name, TagsOf(m, name)) == m;
    assert WithAttrs(m, name, AttrsOf(m, name)).attrs == m.attrs;
  }

  lemma {:induction false} OldNameGone(m: Meta, old_name: string, new_name: string)
    requires old_name != new_name
    ensures var m' := Renamed(m, old_name, new_name);
      old_name !in m'.files && TagsOf(m', old_name) == {} && AttrsOf(m', old_name) == {}
  {
  }

  lemma {:induction false} NoneToCopy(m: Meta, file: string)
    ensures WithAttrs(WithTags(m, file, {}), file, {}) == m
  {
    assert m.vocabulary + {} == m.vocabulary;
  }

  // ---------------------------------------------------------------- calls that do not return

  lemma {:induction false} EmptyStore()
    ensures Valid(EmptyDb) && View(EmptyDb) == Meta({}, {}, {}, {})
  {
  }

  /** A file that was never tagged is renamed: its old name has no row and is not on disk any more. */
  lemma {:induction false} UntaggedRename(db: Db, disk: set<string>, old_name: string, new_name: string)
    requires Valid(db) && old_name !in View(db).files && old_name !in disk
    ensures Execute(db, disk, Rename(old_name, new_name)) == Reply.Undefined
  {
    ExecuteLaw(db, disk, Rename(old_name, new_name));
    hide Execute, Valid, View;
  }

  /** `mv a b` in a new repository. */
  lemma {:induction false} FirstRename()
    ensures ExecuteAll(EmptyDb, [Event({"b"}, Rename("a", "b"))]) == None
  {
    EmptyStore();
    UntaggedRename(EmptyDb, {"b"}, "a", "b");
    hide Execute;
  }

  /** A file is renamed to the name of another one that has a row. */
  lemma {:induction false} RenameOver(db: Db, disk: set<string>, old_name: string, new_name: string)
    requires Valid(db) && new_name in View(db).files && new_name != old_name
    ensures Execute(db, disk, Rename(old_name, new_name)) == Reply.Undefined
  {
    ExecuteLaw(db, disk, Rename(old_name, new_name));
    hide Execute, Valid, View;
  }

  /** `mv a b` when both files are tagged: the tags are set, and the rename does not return. */
  lemma {:induction false} TaggedOver()
    ensures var tag_a, tag_b := Event({"a", "b"}, SetTag("a", "t")), Event({"a", "b"}, SetTag("b", "t"));
      ExecuteAll(EmptyDb, [tag_a, tag_b]).Some? && ExecuteAll(EmptyDb, [tag_a, tag_b, Event({"b"}, Rename("a", "b"))]) == None
  {
    var tag_a, tag_b := Event({"a", "b"}, SetTag("a", "t")), Event({"a", "b"}, SetTag("b", "t"));
    var rename := Event({"b"}, Rename("a", "b"));
    var m := Meta({}, {}, {}, {});
    EmptyStore();
    RunFromEmpty([tag_a, tag_b]);
    RunFromEmpty([tag_a, tag_b, rename]);
    NoRename(m, [tag_a, tag_b]);
    var events := [tag_a, tag_b, rename];
    assert events[..2] == [tag_a, tag_b];
    var m2 := MeantAll(m, events[..2]);
    MeantTwo(m, tag_a, tag_b);
    assert "b" in m2.files && !Returns(m2, events[2].disk, events[2].op);
  }

  lemma {:induction false} NoRename(m: Meta, events: seq<Event>)
    requires forall e :: e in events ==> !e.op.Rename?
    ensures AllReturn(m, events)
  {
    assert forall k: nat :: k < |events| ==> events[k] in events;
  }

  lemma {:induction false} MeantTwo(m: Meta, a: Event, b: Event)
    ensures MeantAll(m, [a, b]) == Meant(Meant(m, a.disk, a.op), b.disk, b.op)
  {
    hide Meant;
    var m1 := Meant(m, a.disk, a.op);
    assert [a, b][1..] == [b] && [b][1..] == [];
    assert MeantAll(m1, [b]) == MeantAll(Meant(m1, b.disk, b.op), []);
  }

  // The law of a run in a new repository.
  lemma {:induction false} RunFromEmpty(events: seq<Event>)
    ensures Valid(EmptyDb) && (ExecuteAll(EmptyDb, events).Some? <==> AllReturn(Meta({}, {}, {}, {}), events))
  {
    EmptyStore();
    StoreLaws.RunLaw(EmptyDb, events);
  }

  /** `mv a/x b/y` between two repositories, after x was tagged. */
  lemma {:induction false} MoveAway()
    ensures var tag := On(0, {"x"}, SetTag("x", "t"));
      var move := Move(0, 1, {}, {"y"}, "x", "y", ["t"], []);
      Sound([EmptyDb, EmptyDb]) && RunAll([EmptyDb, EmptyDb], [tag, move]) == None
  {
    EmptyStore();
    var tag := On(0, {"x"}, SetTag("x", "t"));
    var move := Move(0, 1, {}, {"y"}, "x", "y", ["t"], []);
    var before := [EmptyDb, EmptyDb];
    OperateLaw(before, 0, {"x"}, SetTag("x", "t"));
    var after := Operate(before, 0, {"x"}, SetTag("x", "t")).state;
    assert after[1] == EmptyDb;
    UntaggedRename(EmptyDb, {"y"}, "x", "y");
    hide Execute, Views;
    assert Operate(after, 1, {"y"}, Rename("x", "y")) == Stepped.Undefined;
    assert [tag, move][1..] == [move];
  }
}
