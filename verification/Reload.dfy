/** Reloading the configuration, as src/core/ufad.c does it: the watched directories are changed to those that are
    configured now, without touching the ones that stay. */
module Reload {
  import opened Options
  import opened Watchers
  import opened Monitor

  /** The directories being served, with their descriptors; null when the watch failed at start-up. */
  type Dirs = map<string, Option<int>>

  // ---------------------------------------------------------------- watching a list of directories

  // The descriptor the monitor returns for a directory.
  function Got(t: Tables, d: string, watch: string -> int): int {
    if d in t.by_path then t.by_path[d] else watch(d)
  }

  function AddAll(t: Tables, added: seq<string>, watch: string -> int): Tables {
    if added == [] then t
    else
      var d := added[|added| - 1];
      Add(AddAll(t, added[..|added| - 1], watch), d, OnRepoEvent, watch(d))
  }

  // A directory that comes to be watched.
  predicate Fresh(t: Tables, added: seq<string>, watch: string -> int, d: string) {
    d in added && d !in t.by_path && watch(d) >= 0
  }

  /** No new directory gets a descriptor that another path has, as the second spelling of a directory would. */
  ghost predicate Apart(t: Tables, added: seq<string>, watch: string -> int) {
    && (forall d :: Fresh(t, added, watch, d) ==> watch(d) !in t.by_wd)
    && (forall d, e :: Fresh(t, added, watch, d) && Fresh(t, added, watch, e) && d != e ==> watch(d) != watch(e))
  }

  lemma {:induction false} AddAllPaths(t: Tables, added: seq<string>, watch: string -> int)
    ensures forall p :: p in AddAll(t, added, watch).by_path <==> p in t.by_path || Fresh(t, added, watch, p)
    ensures forall p :: p in AddAll(t, added, watch).by_path ==> AddAll(t, added, watch).by_path[p] == Got(t, p, watch)
  {
    if added != [] {
      AddAllPaths(t, added[..|added| - 1], watch);
      assert added == added[..|added| - 1] + [added[|added| - 1]];
    }
  }

  // The answer for a directory does not change on the way.
  lemma {:induction false} GotStays(t: Tables, added: seq<string>, watch: string -> int, d: string)
    ensures Got(AddAll(t, added, watch), d, watch) == Got(t, d, watch)
  {
    AddAllPaths(t, added, watch);
  }

  lemma {:induction false} ApartFront(t: Tables, added: seq<string>, watch: string -> int)
    requires added != [] && Apart(t, added, watch)
    ensures Apart(t, added[..|added| - 1], watch)
  {
    var front := added[..|added| - 1];
    assert forall d :: Fresh(t, front, watch, d) ==> Fresh(t, added, watch, d);
  }

  lemma {:induction false} ApartInverse(t: Tables, added: seq<string>, watch: string -> int)
    requires Inverse(t) && Apart(t, added, watch)
    ensures Inverse(AddAll(t, added, watch))
  {
    if added != [] {
      var front, d := added[..|added| - 1], added[|added| - 1];
      ApartFront(t, added, watch);
      ApartInverse(t, front, watch);
      AddAllPaths(t, front, watch);
      var m := AddAll(t, front, watch);
      AddKeeps(m, d, OnRepoEvent, watch(d));
      if d !in m.by_path && watch(d) >= 0 {
        assert Fresh(t, added, watch, d);
        forall p | p in m.by_path
          ensures m.by_path[p] != watch(d)
        {
          assert p in t.by_path || Fresh(t, added, watch, p);
        }
      }
    }
  }

  /** Watching more directories keeps the tables inverse exactly when no new one has the descriptor of another path. */
  lemma {:induction false} AddAllKeeps(t: Tables, added: seq<string>, watch: string -> int)
    requires Inverse(t)
    ensures Inverse(AddAll(t, added, watch)) <==> Apart(t, added, watch)
  {
    if Apart(t, added, watch) {
      ApartInverse(t, added, watch);
    }
    if Inverse(AddAll(t, added, watch)) {
      InverseApart(t, added, watch);
    }
  }

  lemma {:induction false} InverseApart(t: Tables, added: seq<string>, watch: string -> int)
    requires Inverse(t) && Inverse(AddAll(t, added, watch))
    ensures Apart(t, added, watch)
  {
    var t' := AddAll(t, added, watch);
    AddAllPaths(t, added, watch);
    hide AddAll;
    forall d | Fresh(t, added, watch, d)
      ensures watch(d) !in t.by_wd
    {
      assert t'.by_path[d] == watch(d);
      forall p | p in t.by_path
        ensures t.by_path[p] != watch(d)
      {
        assert t'.by_path[p] == t.by_path[p];
      }
    }
    forall d, e | Fresh(t, added, watch, d) && Fresh(t, added, watch, e) && d != e
      ensures watch(d) != watch(e)
    {
      assert t'.by_path[d] == watch(d) && t'.by_path[e] == watch(e);
    }
  }

  // Descriptors that are in use keep their callback unless another path gets them.
  lemma {:induction false} AddAllCallbacks(t: Tables, added: seq<string>, watch: string -> int)
    requires Inverse(t) && Apart(t, added, watch)
    ensures forall w :: w in t.callbacks ==> w in AddAll(t, added, watch).callbacks && AddAll(t, added, watch).callbacks[w] == t.callbacks[w]
  {
    if added != [] {
      var d := added[|added| - 1];
      ApartFront(t, added, watch);
      AddAllCallbacks(t, added[..|added| - 1], watch);
      AddAllPaths(t, added[..|added| - 1], watch);
      assert d in added;
    }
  }

  // ---------------------------------------------------------------- what a reload does

  /** The end of a reload: the new table and the new watches, or an assertion that fails. */
  datatype Outcome = Done(dirs: Dirs, tables: Tables) | Failed

  /** Every directory has a descriptor. */
  predicate AllWatched(dirs: Dirs) {
    forall d :: d in dirs ==> dirs[d].Some?
  }

  function NewTable(config: seq<string>, current: Dirs): Dirs {
    map d | d in config :: if d in current then current[d] else None
  }

  function NewOnes(config: seq<string>, current: Dirs): seq<string> {
    if config == [] then []
    else NewOnes(config[..|config| - 1], current) + if config[|config| - 1] !in current then [config[|config| - 1]] else []
  }

  // The descriptors that are not wanted any more and can be given up.
  function Unwanted(config: seq<string>, current: Dirs, unwatch: int -> bool): set<int> {
    set d | d in current && d !in config && current[d].Some? && unwatch(current[d].value) :: current[d].value
  }

  function Names(t: Tables, gone: set<int>): set<string> {
    set w | w in gone && w in t.by_wd :: t.by_wd[w]
  }

  function Without(t: Tables, gone: set<int>): Tables {
    Tables(t.by_wd - gone, t.by_path - Names(t, gone), t.callbacks - (gone * t.by_wd.Keys))
  }

  // Watching the new directories; the two assertions ask that each of them is in the new table.
  function TakeUp(t: Tables, dirs: Dirs, added: seq<string>, watch: string -> int): Outcome {
    if added == [] then Done(dirs, t)
    else
      var d := added[|added| - 1];
      match TakeUp(t, dirs, added[..|added| - 1], watch)
      case Failed => Failed
      case Done(dirs', t') =>
        if d !in dirs' then Failed
        else
          var wd := Got(t', d, watch);
          Done(if wd < 0 then dirs' - {d} else dirs'[d := Some(wd)], Add(t', d, OnRepoEvent, watch(d)))
  }

  // The tables when the unwanted watches have been given up.
  function Kept(config: seq<string>, current: Dirs, t: Tables, unwatch: int -> bool): Tables {
    Without(t, Unwanted(config, current, unwatch))
  }

  /** reload_config as a function of the configured directories and the answers of the operating system. A directory that
      could not be watched is asked for a second time only after an assertion has failed, so an answer for each path is
      enough. */
  function ReloadOf(config: seq<string>, current: Dirs, t: Tables, watch: string -> int, unwatch: int -> bool): Outcome {
    if !AllWatched(current) then Failed
    else TakeUp(Kept(config, current, t, unwatch), NewTable(config, current), NewOnes(config, current), watch)
  }

  // ---------------------------------------------------------------- when it fails

  // A directory is listed twice and cannot be watched.
  predicate TwinAt(added: seq<string>, t: Tables, watch: string -> int, i: nat, j: nat) {
    i < j < |added| && added[i] == added[j] && Got(t, added[i], watch) < 0
  }

  ghost predicate Twins(added: seq<string>, t: Tables, watch: string -> int) {
    exists i: nat, j: nat :: TwinAt(added, t, watch, i, j)
  }

  // The new table after the directories in `added` have been tried.
  ghost predicate Taken(dirs: Dirs, dirs': Dirs, added: seq<string>, t: Tables, watch: string -> int) {
    && (forall d :: d in dirs' <==> d in dirs && (d in added ==> Got(t, d, watch) >= 0))
    && (forall d :: d in dirs' ==> dirs'[d] == if d in added then Some(Got(t, d, watch)) else dirs[d])
  }

  lemma {:induction false} TakeUpIs(t: Tables, dirs: Dirs, added: seq<string>, watch: string -> int)
    requires forall d :: d in added ==> d in dirs
    ensures match TakeUp(t, dirs, added, watch)
      case Failed => Twins(added, t, watch)
      case Done(dirs', t') => !Twins(added, t, watch) && Taken(dirs, dirs', added, t, watch) && t' == AddAll(t, added, watch)
  {
    if added != [] {
      var front, d := added[..|added| - 1], added[|added| - 1];
      assert added == front + [d];
      TakeUpIs(t, dirs, front, watch);
      TwinsNext(t, front, d, watch);
      GotStays(t, front, watch, d);
      hide Got, Add, Twins;
      match TakeUp(t, dirs, front, watch)
      case Failed =>
      case Done(dirs', t') =>
        TakenNext(dirs, dirs', front, d, t, watch);
        hide Taken;
    }
  }

  lemma {:induction false} TakenNext(dirs: Dirs, dirs': Dirs, front: seq<string>, d: string, t: Tables, watch: string -> int)
    requires Taken(dirs, dirs', front, t, watch) && d in dirs
    ensures d in dirs' <==> !(d in front && Got(t, d, watch) < 0)
    ensures d in dirs' ==>
      Taken(dirs, if Got(t, d, watch) < 0 then dirs' - {d} else dirs'[d := Some(Got(t, d, watch))], front + [d], t, watch)
  {
    hide Got;
  }

  lemma {:induction false} TwinsNext(t: Tables, front: seq<string>, d: string, watch: string -> int)
    ensures Twins(front + [d], t, watch) <==> Twins(front, t, watch) || (d in front && Got(t, d, watch) < 0)
  {
    hide Got;
    var added := front + [d];
    if i: nat, j: nat :| TwinAt(added, t, watch, i, j) {
      assert j < |front| ==> TwinAt(front, t, watch, i, j);
      assert j == |front| ==> d == front[i];
    }
    if i: nat, j: nat :| TwinAt(front, t, watch, i, j) {
      assert TwinAt(added, t, watch, i, j);
    }
    if d in front && Got(t, d, watch) < 0 {
      var i: nat :| i < |front| && front[i] == d;
      assert TwinAt(added, t, watch, i, |front|);
    }
  }

  /** Two equal lines of the configuration for a new directory that cannot be watched. */
  predicate ConfiguredTwice(config: seq<string>, current: Dirs, t: Tables, watch: string -> int, i: nat, j: nat) {
    i < j < |config| && config[i] == config[j] && config[i] !in current && Got(t, config[i], watch) < 0
  }

  lemma {:induction false} NewOnesAre(config: seq<string>, current: Dirs)
    ensures forall d :: d in NewOnes(config, current) <==> d in config && d !in current
  {
    if config != [] {
      NewOnesAre(config[..|config| - 1], current);
      assert config == config[..|config| - 1] + [config[|config| - 1]];
    }
  }

  lemma {:induction false} NewTwins(config: seq<string>, current: Dirs, t: Tables, watch: string -> int)
    ensures Twins(NewOnes(config, current), t, watch) <==> exists i: nat, j: nat :: ConfiguredTwice(config, current, t, watch, i, j)
  {
    hide Got;
    if config != [] {
      var n := |config| - 1;
      var front, d := config[..n], config[n];
      NewTwins(front, current, t, watch);
      NewOnesAre(front, current);
      assert NewOnes(front, current) + [] == NewOnes(front, current);
      TwinsNext(t, NewOnes(front, current), d, watch);
      if i: nat, j: nat :| ConfiguredTwice(front, current, t, watch, i, j) {
        assert ConfiguredTwice(config, current, t, watch, i, j);
      }
      if i: nat, j: nat :| ConfiguredTwice(config, current, t, watch, i, j) {
        assert j < n ==> ConfiguredTwice(front, current, t, watch, i, j);
        assert front[i] in front;
      }
      if d !in current && d in front && Got(t, d, watch) < 0 {
        var i: nat :| i < n && front[i] == d;
        assert ConfiguredTwice(config, current, t, watch, i, n);
      }
    }
  }

  /** A reload fails exactly when a directory of the current table has no descriptor, or a new directory is configured
      twice and cannot be watched. */
  lemma {:induction false} FailsExactly(config: seq<string>, current: Dirs, t: Tables, watch: string -> int, unwatch: int -> bool)
    ensures ReloadOf(config, current, t, watch, unwatch).Failed? <==>
      !AllWatched(current) || exists i: nat, j: nat :: ConfiguredTwice(config, current, Kept(config, current, t, unwatch), watch, i, j)
  {
    NewOnesAre(config, current);
    hide Twins, ConfiguredTwice, NewOnes;
    TakeUpIs(Kept(config, current, t, unwatch), NewTable(config, current), NewOnes(config, current), watch);
    NewTwins(config, current, Kept(config, current, t, unwatch), watch);
  }

  /** Such a configuration: one directory, twice. */
  lemma {:induction false} TwinFails(d: string, watch: string -> int, unwatch: int -> bool)
    requires watch(d) < 0
    ensures ReloadOf([d, d], map[], Tables(map[], map[], map[]), watch, unwatch).Failed?
    ensures ReloadOf([d], map[], Tables(map[], map[], map[]), watch, unwatch) == Done(map[], Tables(map[], map[], map[]))
  {
    var t := Tables(map[], map[], map[]);
    assert Kept([d, d], map[], t, unwatch) == t && Kept([d], map[], t, unwatch) == t;
    assert ConfiguredTwice([d, d], map[], t, watch, 0, 1);
    FailsExactly([d, d], map[], t, watch, unwatch);
    assert [d][..0] == [];
    assert NewOnes([d], map[]) == NewOnes([], map[]) + [d] == [d];
    var dirs: Dirs := map[d := None];
    assert NewTable([d], map[]) == dirs;
    assert TakeUp(t, dirs, [d], watch) == Done(dirs - {d}, Add(t, d, OnRepoEvent, watch(d)));
    assert dirs - {d} == map[];
  }

  // ---------------------------------------------------------------- what it leaves

  /** Every directory has a descriptor, the one under which the monitor watches it. */
  ghost predicate Served(dirs: Dirs, t: Tables) {
    forall d :: d in dirs ==> dirs[d].Some? && d in t.by_path && t.by_path[d] == dirs[d].value
  }

  // The directories whose watch is given up.
  ghost predicate GivenUp(d: string, config: seq<string>, current: Dirs, unwatch: int -> bool) {
    d in current && d !in config && current[d].Some? && unwatch(current[d].value)
  }

  /** The outcome: the configured directories that were served or can be watched; each one that was served before keeps
      its descriptor; and the monitor watches what it watched, less what was given up, and what is new. */
  ghost predicate Reloaded(config: seq<string>, current: Dirs, t: Tables, watch: string -> int, unwatch: int -> bool, current': Dirs, t': Tables) {
    && (forall d :: d in current' <==> d in config && (d in current || d in t.by_path || watch(d) >= 0))
    && (forall d :: d in current' && d in current ==> current'[d] == current[d])
    && (forall p :: p in t'.by_path <==> (p in t.by_path && !GivenUp(p, config, current, unwatch)) || p in current')
    && (forall p :: p in t'.by_path && p in t.by_path ==> t'.by_path[p] == t.by_path[p])
    && Served(current', t')
  }

  // The callbacks of the paths that stay.
  ghost predicate SameCallbacks(t: Tables, t': Tables) {
    forall p :: p in t'.by_path && p in t.by_path ==>
      t.by_path[p] in t.callbacks && t.by_path[p] in t'.callbacks && t'.callbacks[t.by_path[p]] == t.callbacks[t.by_path[p]]
  }

  lemma {:induction false} WithoutKeeps(t: Tables, gone: set<int>)
    requires Inverse(t)
    ensures Inverse(Without(t, gone))
    ensures forall p :: p in Without(t, gone).by_path <==> p in t.by_path && t.by_path[p] !in gone
    ensures forall p :: p in Without(t, gone).by_path ==> Without(t, gone).by_path[p] == t.by_path[p]
    ensures forall w :: w in Without(t, gone).callbacks ==> w in t.callbacks && Without(t, gone).callbacks[w] == t.callbacks[w]
  {
    forall p | p in t.by_path
      ensures p in Names(t, gone) <==> t.by_path[p] in gone
    {
      NameIs(t, gone, p);
    }
    hide Names;
  }

  lemma {:induction false} NameIs(t: Tables, gone: set<int>, p: string)
    requires Inverse(t) && p in t.by_path
    ensures p in Names(t, gone) <==> t.by_path[p] in gone
  {
    var w := t.by_path[p];
    assert w in t.by_wd && t.by_wd[w] == p;
    if p in Names(t, gone) {
      var v :| v in gone && v in t.by_wd && t.by_wd[v] == p;
      assert v == w;
    }
  }

  lemma {:induction false} KeptPaths(config: seq<string>, current: Dirs, t: Tables, unwatch: int -> bool)
    requires Inverse(t) && Served(current, t)
    ensures var t1 := Kept(config, current, t, unwatch);
      Inverse(t1) && (forall p :: p in t1.by_path <==> p in t.by_path && !GivenUp(p, config, current, unwatch)) &&
      (forall p :: p in t1.by_path ==> t1.by_path[p] == t.by_path[p]) &&
      forall w :: w in t1.callbacks ==> w in t.callbacks && t1.callbacks[w] == t.callbacks[w]
  {
    var gone := Unwanted(config, current, unwatch);
    WithoutKeeps(t, gone);
    hide Without;
    forall p | p in t.by_path
      ensures t.by_path[p] in gone <==> GivenUp(p, config, current, unwatch)
    {
      UnwantedIs(config, current, t, unwatch, p);
    }
    hide Inverse, Unwanted, GivenUp, Served;
  }

  lemma {:induction false} UnwantedIs(config: seq<string>, current: Dirs, t: Tables, unwatch: int -> bool, p: string)
    requires Inverse(t) && Served(current, t) && p in t.by_path
    ensures t.by_path[p] in Unwanted(config, current, unwatch) <==> GivenUp(p, config, current, unwatch)
  {
    if t.by_path[p] in Unwanted(config, current, unwatch) {
      var d :| d in current && d !in config && current[d].Some? && unwatch(current[d].value) && current[d].value == t.by_path[p];
      assert t.by_wd[t.by_path[p]] == p && t.by_wd[t.by_path[d]] == d;
    }
  }

  /** A reload that does not fail leaves what it should. Its tables are inverse exactly when no new directory gets the
      descriptor of another path; then the paths that stay keep their callbacks. */
  lemma {:induction false} ReloadKeeps(config: seq<string>, current: Dirs, t: Tables, watch: string -> int, unwatch: int -> bool)
    requires Inverse(t) && Served(current, t) && ReloadOf(config, current, t, watch, unwatch).Done?
    ensures var out, t1 := ReloadOf(config, current, t, watch, unwatch), Kept(config, current, t, unwatch);
      Reloaded(config, current, t, watch, unwatch, out.dirs, out.tables) &&
      (Inverse(out.tables) <==> Apart(t1, NewOnes(config, current), watch)) &&
      (Inverse(out.tables) ==> SameCallbacks(t, out.tables))
  {
    var t1, added := Kept(config, current, t, unwatch), NewOnes(config, current);
    var out := ReloadOf(config, current, t, watch, unwatch);
    ReloadParts(config, current, t, watch, unwatch);
    KeptPaths(config, current, t, unwatch);
    hide *;
    ReloadedParts(config, current, t, t1, watch, unwatch, out.dirs);
    AddAllKeeps(t1, added, watch);
    if Inverse(out.tables) {
      AddAllCallbacks(t1, added, watch);
      ReloadedCallbacks(config, current, t, t1, watch, unwatch);
    }
  }

  // The tables and the new table of a reload that does not fail.
  lemma {:induction false} ReloadParts(config: seq<string>, current: Dirs, t: Tables, watch: string -> int, unwatch: int -> bool)
    requires ReloadOf(config, current, t, watch, unwatch).Done?
    ensures var out, t1, added := ReloadOf(config, current, t, watch, unwatch), Kept(config, current, t, unwatch), NewOnes(config, current);
      out.tables == AddAll(t1, added, watch) && Taken(NewTable(config, current), out.dirs, added, t1, watch)
  {
    NewOnesAre(config, current);
    hide Kept, Twins, NewOnes, Taken;
    TakeUpIs(Kept(config, current, t, unwatch), NewTable(config, current), NewOnes(config, current), watch);
  }

  lemma {:induction false} ReloadedParts(config: seq<string>, current: Dirs, t: Tables, t1: Tables, watch: string -> int, unwatch: int -> bool, dirs: Dirs)
    requires Served(current, t) && Inverse(t1) && Taken(NewTable(config, current), dirs, NewOnes(config, current), t1, watch)
    requires forall p :: p in t1.by_path <==> p in t.by_path && !GivenUp(p, config, current, unwatch)
    requires forall p :: p in t1.by_path ==> t1.by_path[p] == t.by_path[p]
    ensures Reloaded(config, current, t, watch, unwatch, dirs, AddAll(t1, NewOnes(config, current), watch))
  {
    NewOnesAre(config, current);
    AddAllPaths(t1, NewOnes(config, current), watch);
    hide *;
    PutTogether(config, current, t, t1, watch, unwatch, NewOnes(config, current), dirs, AddAll(t1, NewOnes(config, current), watch));
  }

  lemma {:induction false} ReloadedCallbacks(config: seq<string>, current: Dirs, t: Tables, t1: Tables, watch: string -> int, unwatch: int -> bool)
    requires Inverse(t1) && Inverse(AddAll(t1, NewOnes(config, current), watch))
    requires forall p :: p in t1.by_path <==> p in t.by_path && !GivenUp(p, config, current, unwatch)
    requires forall p :: p in t1.by_path ==> t1.by_path[p] == t.by_path[p]
    requires forall w :: w in t1.callbacks ==> w in t.callbacks && t1.callbacks[w] == t.callbacks[w]
    requires var t' := AddAll(t1, NewOnes(config, current), watch);
      forall w :: w in t1.callbacks ==> w in t'.callbacks && t'.callbacks[w] == t1.callbacks[w]
    ensures SameCallbacks(t, AddAll(t1, NewOnes(config, current), watch))
  {
    var t' := AddAll(t1, NewOnes(config, current), watch);
    NewOnesAre(config, current);
    AddAllPaths(t1, NewOnes(config, current), watch);
    hide AddAll, NewOnes;
    CallbacksStay(t, t1, t');
  }

  lemma {:induction false} CallbacksStay(t: Tables, t1: Tables, t': Tables)
    requires Inverse(t1) && Inverse(t')
    requires forall p :: p in t1.by_path ==> p in t.by_path && t1.by_path[p] == t.by_path[p]
    requires forall p :: p in t1.by_path ==> p in t'.by_path && t'.by_path[p] == t1.by_path[p]
    requires forall w :: w in t1.callbacks ==> w in t.callbacks && t1.callbacks[w] == t.callbacks[w]
    requires forall w :: w in t1.callbacks ==> w in t'.callbacks && t'.callbacks[w] == t1.callbacks[w]
    ensures forall p :: p in t1.by_path ==>
      t.by_path[p] in t.callbacks && t.by_path[p] in t'.callbacks && t'.callbacks[t.by_path[p]] == t.callbacks[t.by_path[p]]
  {
  }

  // The outcome from the three steps.
  lemma {:induction false} PutTogether(config: seq<string>, current: Dirs, t: Tables, t1: Tables, watch: string -> int, unwatch: int -> bool,
      added: seq<string>, current': Dirs, t': Tables)
    requires Served(current, t) && Inverse(t1)
    requires forall p :: p in t1.by_path <==> p in t.by_path && !GivenUp(p, config, current, unwatch)
    requires forall p :: p in t1.by_path ==> t1.by_path[p] == t.by_path[p]
    requires forall d :: d in added <==> d in config && d !in current
    requires forall p :: p in t'.by_path <==> p in t1.by_path || Fresh(t1, added, watch, p)
    requires forall p :: p in t'.by_path ==> t'.by_path[p] == Got(t1, p, watch)
    requires Taken(NewTable(config, current), current', added, t1, watch)
    ensures Reloaded(config, current, t, watch, unwatch, current', t')
  {
    forall p | p in t1.by_path
      ensures Got(t1, p, watch) >= 0
    {
      assert t1.by_path[p] in t1.by_wd;
    }
    hide Inverse;
    TakenServed(config, current, t, t1, watch, added, current', t');
    hide Served;
  }

  lemma {:induction false} TakenServed(config: seq<string>, current: Dirs, t: Tables, t1: Tables, watch: string -> int, added: seq<string>, current': Dirs, t': Tables)
    requires Served(current, t) && Taken(NewTable(config, current), current', added, t1, watch)
    requires forall d :: d in current && d in config ==> d in t1.by_path && t1.by_path[d] == t.by_path[d]
    requires forall d :: d in added <==> d in config && d !in current
    requires forall p :: p in t'.by_path <==> p in t1.by_path || Fresh(t1, added, watch, p)
    requires forall p :: p in t'.by_path ==> t'.by_path[p] == Got(t1, p, watch)
    ensures Served(current', t')
  {
    forall d | d in current'
      ensures current'[d].Some? && d in t'.by_path && t'.by_path[d] == current'[d].value
    {
      assert d in config;
    }
  }

  /** When every watch that is no longer wanted can be given up, the monitor watches the served directories and the
      configuration directory, before and after. */
  lemma {:induction false} WatchesMatch(config: seq<string>, current: Dirs, t: Tables, watch: string -> int, unwatch: int -> bool, config_dir: string)
    requires Inverse(t) && Served(current, t) && ReloadOf(config, current, t, watch, unwatch).Done?
    requires t.by_path.Keys == current.Keys + {config_dir} && config_dir !in current && config_dir !in config
    requires forall d :: d in current ==> unwatch(current[d].value)
    ensures var out := ReloadOf(config, current, t, watch, unwatch);
      out.tables.by_path.Keys == out.dirs.Keys + {config_dir} && config_dir !in out.dirs &&
      var wd := t.by_path[config_dir];
      out.tables.by_path[config_dir] == wd &&
      (Inverse(out.tables) ==> out.tables.callbacks[wd] == t.callbacks[wd])
  {
    var out := ReloadOf(config, current, t, watch, unwatch);
    ReloadKeeps(config, current, t, watch, unwatch);
    hide ReloadOf;
    assert !GivenUp(config_dir, config, current, unwatch);
    forall p
      ensures p in out.tables.by_path <==> p in out.dirs || p == config_dir
    {
      if p in current && p !in config {
        assert GivenUp(p, config, current, unwatch);
      }
    }
  }

  lemma {:induction false} SomeOrNone(list: seq<string>)
    ensures list == [] || exists d :: d in list
  {
    if list != [] {
      assert list[0] in list;
    }
  }

  /** Reloading the same configuration when everything in it is served changes nothing. */
  lemma {:induction false} ReloadAgain(config: seq<string>, current: Dirs, t: Tables, watch: string -> int, unwatch: int -> bool)
    requires Inverse(t) && Served(current, t) && forall d :: d in config <==> d in current
    ensures ReloadOf(config, current, t, watch, unwatch) == Done(current, t)
  {
    NewOnesAre(config, current);
    SomeOrNone(NewOnes(config, current));
    assert Unwanted(config, current, unwatch) == {};
    assert Kept(config, current, t, unwatch) == t;
    assert NewTable(config, current) == current;
  }

  // ---------------------------------------------------------------- the steps

  class Daemon {
    var table_current_dirs: Dirs
    const monitor: EventLoop

    constructor (monitor: EventLoop)
      ensures this.monitor == monitor && table_current_dirs == map[]
    {
      this.monitor, table_current_dirs := monitor, map[];
    }

    /** The watches of start_ufad: the configuration directory first, then every configured directory; one that cannot be
        watched stays in the table without a descriptor. The table is what a reload needs exactly when there is none, and
        the tables of the monitor are inverse exactly when no two of the paths are one directory. */
    method Start(config_dir: string, config: seq<string>, watch: string -> int)
      requires monitor.Watched() == Tables(map[], map[], map[])
      modifies this, monitor`table, monitor`table_filename, monitor`callbacks
      ensures forall p :: p in monitor.table_filename <==> (p == config_dir || p in config) && watch(p) >= 0
      ensures forall p :: p in monitor.table_filename ==> monitor.table_filename[p] == watch(p)
      ensures forall d :: d in table_current_dirs <==> d in config
      ensures forall d :: d in config ==> table_current_dirs[d] == if watch(d) >= 0 then Some(watch(d)) else None
      ensures Served(table_current_dirs, monitor.Watched()) <==> AllWatched(table_current_dirs)
      ensures Inverse(monitor.Watched()) <==>
        forall p, q :: p in monitor.table_filename && q in monitor.table_filename && p != q ==> watch(p) != watch(q)
    {
      var wd := monitor.AddWatcher(config_dir, OnConfigEvent, watch(config_dir));
      ghost var t := monitor.Watched();
      var dirs := WatchAll(config, watch);
      table_current_dirs := dirs;
      AddAllPaths(t, config, watch);
      AddAllKeeps(t, config, watch);
    }

    // The loop over the configured directories.
    method WatchAll(config: seq<string>, watch: string -> int) returns (dirs: Dirs)
      requires forall p :: p in monitor.table_filename ==> monitor.table_filename[p] == watch(p)
      modifies monitor`table, monitor`table_filename, monitor`callbacks
      ensures monitor.Watched() == AddAll(old(monitor.Watched()), config, watch)
      ensures forall d :: d in dirs <==> d in config
      ensures forall d :: d in dirs ==> dirs[d] == if watch(d) >= 0 then Some(watch(d)) else None
    {
      ghost var t := monitor.Watched();
      dirs := map[];
      assert config[..0] == [];
      for i := 0 to |config|
        invariant monitor.Watched() == AddAll(t, config[..i], watch)
        invariant forall d :: d in dirs <==> d in config[..i]
        invariant forall d :: d in dirs ==> dirs[d] == if watch(d) >= 0 then Some(watch(d)) else None
      {
        var d := config[i];
        assert config[..i + 1][..i] == config[..i] && config[..i + 1] == config[..i] + [d];
        GotStays(t, config[..i], watch, d);
        dirs := dirs[d := None];
        var wd := monitor.AddWatcher(d, OnRepoEvent, watch(d));
        if wd >= 0 {
          var r := d !in dirs;
          dirs := dirs[d := Some(wd)];
          assert r == false;
        }
      }
      assert config[..|config|] == config;
    }

    // The configured directories, with the descriptors of those that are served already; the others are to be added.
    method Compare(config: seq<string>) returns (ok: bool, new_dirs: Dirs, list_add: seq<string>)
      ensures ok <==> forall d :: d in config && d in table_current_dirs ==> table_current_dirs[d].Some?
      ensures ok ==> new_dirs == NewTable(config, table_current_dirs) && list_add == NewOnes(config, table_current_dirs)
    {
      ok, new_dirs, list_add := true, map[], [];
      assert config[..0] == [];
      for i := 0 to |config|
        invariant forall d :: d in config[..i] && d in table_current_dirs ==> table_current_dirs[d].Some?
        invariant new_dirs == NewTable(config[..i], table_current_dirs)
        invariant list_add == NewOnes(config[..i], table_current_dirs)
      {
        var dir := config[i];
        assert config[..i + 1][..i] == config[..i] && config[..i + 1] == config[..i] + [dir];
        var wd := None;
        if dir !in table_current_dirs {
          list_add := list_add + [dir];
        } else {
          wd := table_current_dirs[dir];
          if wd == None {
            return false, map[], [];
          }
        }
        new_dirs := new_dirs[dir := wd];
      }
      assert config[..|config|] == config;
    }

    // The served directories that are not configured any more.
    method Obsolete(new_dirs: Dirs) returns (list_remove: seq<string>)
      ensures forall d :: d in list_remove <==> d in table_current_dirs && d !in new_dirs
      ensures forall i, j :: 0 <= i < j < |list_remove| ==> list_remove[i] != list_remove[j]
    {
      list_remove := [];
      var keys := table_current_dirs.Keys;
      while keys != {}
        invariant keys <= table_current_dirs.Keys
        invariant forall d :: d in list_remove <==> d in table_current_dirs && d !in keys && d !in new_dirs
        invariant forall i, j :: 0 <= i < j < |list_remove| ==> list_remove[i] != list_remove[j]
        decreases |keys|
      {
        var d :| d in keys;
        keys := keys - {d};
        if d !in new_dirs {
          list_remove := list_remove + [d];
        }
      }
    }

    // Giving up the watches of those.
    method GiveUp(list_remove: seq<string>, unwatch: int -> bool) returns (ok: bool)
      requires forall d :: d in list_remove ==> d in table_current_dirs
      modifies monitor`table, monitor`table_filename, monitor`callbacks, monitor`buffered_events
      ensures ok <==> forall d :: d in list_remove ==> table_current_dirs[d].Some?
      ensures ok ==> monitor.Watched() == Without(old(monitor.Watched()), Freed(table_current_dirs, list_remove, unwatch))
    {
      ghost var t := monitor.Watched();
      WithoutNone(t, table_current_dirs, unwatch);
      for i := 0 to |list_remove|
        invariant forall d :: d in list_remove[..i] ==> table_current_dirs[d].Some?
        invariant monitor.Watched() == Without(t, Freed(table_current_dirs, list_remove[..i], unwatch))
      {
        var wd := table_current_dirs[list_remove[i]];
        assert list_remove[i] in list_remove;
        if wd == None {
          return false;
        }
        FreedNext(t, table_current_dirs, list_remove, i, unwatch);
        hide Without, Freed;
        var is_ok := monitor.RemoveWatcher(wd.value, unwatch(wd.value));
      }
      assert list_remove[..|list_remove|] == list_remove;
      ok := true;
    }

    // Watching the new ones.
    method Take(new_dirs: Dirs, list_add: seq<string>, watch: string -> int) returns (ok: bool, dirs: Dirs)
      modifies monitor`table, monitor`table_filename, monitor`callbacks
      ensures var out := TakeUp(old(monitor.Watched()), new_dirs, list_add, watch);
        (ok <==> out.Done?) && (ok ==> out == Done(dirs, monitor.Watched()))
    {
      ok, dirs := true, new_dirs;
      ghost var t := monitor.Watched();
      assert list_add[..0] == [];
      for i := 0 to |list_add|
        invariant TakeUp(t, new_dirs, list_add[..i], watch) == Done(dirs, monitor.Watched())
      {
        var d := list_add[i];
        TakeUpNext(t, new_dirs, list_add, i, watch);
        hide TakeUp;
        var wd := monitor.AddWatcher(d, OnRepoEvent, watch(d));
        if wd < 0 {
          var r := d in dirs;
          dirs := dirs - {d};
          if r == false {
            return false, dirs;
          }
        } else {
          var r := d !in dirs;
          dirs := dirs[d := Some(wd)];
          if r == true {
            return false, dirs;
          }
        }
      }
      assert list_add[..|list_add|] == list_add;
    }

    /** reload_config; it is not ok when an assertion fails. */
    method ReloadConfig(config: seq<string>, watch: string -> int, unwatch: int -> bool) returns (ok: bool)
      modifies this, monitor`table, monitor`table_filename, monitor`callbacks, monitor`buffered_events
      ensures var out := ReloadOf(config, old(table_current_dirs), old(monitor.Watched()), watch, unwatch);
        (ok <==> out.Done?) && (ok ==> out == Done(table_current_dirs, monitor.Watched()))
      ensures !ok ==> table_current_dirs == old(table_current_dirs)
    {
      ghost var current := table_current_dirs;
      var new_dirs, list_add;
      ok, new_dirs, list_add := Compare(config);
      if !ok {
        return;
      }
      var list_remove := Obsolete(new_dirs);
      ok := GiveUp(list_remove, unwatch);
      assert ok <==> AllWatched(current);
      if !ok {
        return;
      }
      FreedIsUnwanted(config, current, list_remove, unwatch);
      var dirs;
      ok, dirs := Take(new_dirs, list_add, watch);
      if ok {
        table_current_dirs := dirs;
      }
    }
  }

  // The descriptors of the listed directories that can be given up.
  function Freed(current: Dirs, gone: seq<string>, unwatch: int -> bool): set<int> {
    set d | d in gone && d in current && current[d].Some? && unwatch(current[d].value) :: current[d].value
  }

  lemma {:induction false} FreedIsUnwanted(config: seq<string>, current: Dirs, gone: seq<string>, unwatch: int -> bool)
    requires forall d :: d in gone <==> d in current && d !in NewTable(config, current)
    ensures Freed(current, gone, unwatch) == Unwanted(config, current, unwatch)
  {
    forall d
      ensures d in gone <==> d in current && d !in config
    {
    }
  }

  lemma {:induction false} WithoutNone(t: Tables, current: Dirs, unwatch: int -> bool)
    ensures Without(t, Freed(current, [], unwatch)) == t
  {
    assert Freed(current, [], unwatch) == {};
  }

  lemma {:induction false} WithoutOne(t: Tables, gone: set<int>, wd: int)
    ensures Without(t, gone + {wd}) == if wd in t.by_wd && wd !in gone then Remove(Without(t, gone), wd) else Without(t, gone)
  {
    assert Names(t, gone + {wd}) == Names(t, gone) + if wd in t.by_wd then {t.by_wd[wd]} else {};
    assert (gone + {wd}) * t.by_wd.Keys == (gone * t.by_wd.Keys) + if wd in t.by_wd then {wd} else {};
  }

  lemma {:induction false} FreedNext(t: Tables, current: Dirs, gone: seq<string>, i: nat, unwatch: int -> bool)
    requires i < |gone| && gone[i] in current && current[gone[i]].Some?
    ensures Without(t, Freed(current, gone[..i + 1], unwatch)) ==
      Act(Without(t, Freed(current, gone[..i], unwatch)), Unwatch(current[gone[i]].value, unwatch(current[gone[i]].value)))
  {
    var wd := current[gone[i]].value;
    var before := Freed(current, gone[..i], unwatch);
    assert gone[..i + 1] == gone[..i] + [gone[i]];
    assert Freed(current, gone[..i + 1], unwatch) == before + if unwatch(wd) then {wd} else {};
    WithoutOne(t, before, wd);
    assert wd in Without(t, before).by_wd <==> wd in t.by_wd && wd !in before;
    assert before + {} == before;
  }

  lemma {:induction false} TakeUpNext(t: Tables, dirs: Dirs, added: seq<string>, i: nat, watch: string -> int)
    requires i < |added| && TakeUp(t, dirs, added[..i], watch).Done?
    ensures TakeUp(t, dirs, added[..i + 1], watch) ==
      var done, d := TakeUp(t, dirs, added[..i], watch), added[i];
      if d !in done.dirs then Failed
      else
        var wd := Got(done.tables, d, watch);
        Done(if wd < 0 then done.dirs - {d} else done.dirs[d := Some(wd)], Add(done.tables, d, OnRepoEvent, watch(d)))
    ensures TakeUp(t, dirs, added[..i + 1], watch).Failed? ==> TakeUp(t, dirs, added, watch).Failed?
  {
    assert added[..i + 1][..i] == added[..i];
    if TakeUp(t, dirs, added[..i + 1], watch).Failed? {
      StaysFailed(t, dirs, added, i + 1, watch);
    }
  }

  lemma {:induction false} StaysFailed(t: Tables, dirs: Dirs, added: seq<string>, k: nat, watch: string -> int)
    requires k <= |added| && TakeUp(t, dirs, added[..k], watch).Failed?
    ensures TakeUp(t, dirs, added, watch).Failed?
  {
    if k == |added| {
      assert added[..k] == added;
    } else {
      assert added[..|added| - 1][..k] == added[..k];
      StaysFailed(t, dirs, added[..|added| - 1], k, watch);
    }
  }
}
