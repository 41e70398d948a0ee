/** The watched directories of src/core/monitor_inotify.c: two tables between paths and descriptors, and the callbacks
    by descriptor. */
module Watchers {
  import opened Options

  datatype Callback = OnRepoEvent | OnConfigEvent

  datatype Tables = Tables(by_wd: map<int, string>, by_path: map<string, int>, callbacks: map<int, Callback>)

  /** The tables are mutual inverses, with a callback for each descriptor; descriptors are not negative. */
  ghost predicate Inverse(t: Tables) {
    && (forall p :: p in t.by_path ==> t.by_path[p] in t.by_wd && t.by_wd[t.by_path[p]] == p)
    && (forall w :: w in t.by_wd ==> t.by_wd[w] in t.by_path && t.by_path[t.by_wd[w]] == w)
    && t.callbacks.Keys == t.by_wd.Keys
    && (forall w :: w in t.by_wd ==> w >= 0)
  }

  /** A path that is watched already keeps its descriptor; otherwise the operating system gives a descriptor, or a
      negative number. */
  function Add(t: Tables, path: string, callback: Callback, answer: int): Tables {
    if path in t.by_path || answer < 0 then t
    else Tables(t.by_wd[answer := path], t.by_path[path := answer], t.callbacks[answer := callback])
  }

  function Remove(t: Tables, wd: int): Tables
    requires wd in t.by_wd
  {
    Tables(t.by_wd - {wd}, t.by_path - {t.by_wd[wd]}, t.callbacks - {wd})
  }

  /** Adding keeps the tables inverse exactly when the descriptor is not in use for another path, as it would be for a
      second path to the same directory. */
  lemma {:induction false} AddKeeps(t: Tables, path: string, callback: Callback, answer: int)
    requires Inverse(t)
    ensures Inverse(Add(t, path, callback, answer)) <==> path in t.by_path || answer < 0 || answer !in t.by_wd
  {
    if path !in t.by_path && answer >= 0 && answer in t.by_wd {
      var other := t.by_wd[answer];
      var t' := Add(t, path, callback, answer);
      assert other in t'.by_path && t'.by_path[other] == answer && t'.by_wd[answer] == path != other;
    }
  }

  /** Removing always keeps them inverse, and forgets one path with its descriptor. */
  lemma {:induction false} RemoveKeeps(t: Tables, wd: int)
    requires Inverse(t) && wd in t.by_wd
    ensures var t' := Remove(t, wd);
      Inverse(t') && t'.by_wd == t.by_wd - {wd} && forall p :: p in t'.by_path <==> p in t.by_path && t.by_path[p] != wd
  {
  }

  // ---------------------------------------------------------------- what a callback does to them

  /** A request of the daemon with the answer of the operating system: the descriptor that inotify_add_watch returns, or
      whether inotify_rm_watch is successful, which it can only be for a descriptor that is watched. */
  datatype Action = Watch(path: string, callback: Callback, answer: int) | Unwatch(wd: int, ok: bool)

  function Act(t: Tables, a: Action): Tables {
    match a
    case Watch(path, callback, answer) => Add(t, path, callback, answer)
    case Unwatch(wd, ok) => if ok && wd in t.by_wd then Remove(t, wd) else t
  }

  function Acts(t: Tables, actions: seq<Action>): Tables {
    if actions == [] then t else Act(Acts(t, actions[..|actions| - 1]), actions[|actions| - 1])
  }

  // The descriptor an action gives up.
  function GivenBy(t: Tables, a: Action): set<int> {
    if a.Unwatch? && a.ok && a.wd in t.by_wd then {a.wd} else {}
  }

  function Given(t: Tables, actions: seq<Action>): set<int> {
    if actions == [] then {}
    else Given(t, actions[..|actions| - 1]) + GivenBy(Acts(t, actions[..|actions| - 1]), actions[|actions| - 1])
  }

  // The descriptors that a list of actions would give up if they were watched.
  function Asked(actions: seq<Action>): set<int> {
    set a | a in actions && a.Unwatch? && a.ok :: a.wd
  }

  /** Actions that only give up descriptors give up those that are watched. */
  lemma {:induction false} OnlyUnwatch(t: Tables, actions: seq<Action>)
    requires forall a :: a in actions ==> a.Unwatch?
    ensures Acts(t, actions).by_wd.Keys == t.by_wd.Keys - Asked(actions) && Given(t, actions) == Asked(actions) * t.by_wd.Keys
  {
    if actions != [] {
      var front, last := actions[..|actions| - 1], actions[|actions| - 1];
      AskedLast(front, last);
      assert actions == front + [last];
      OnlyUnwatch(t, front);
      hide Asked;
      UnwatchOne(Acts(t, front), last);
      hide Act, GivenBy;
      var asked := if last.ok then {last.wd} else {};
      assert t.by_wd.Keys - Asked(front) - asked == t.by_wd.Keys - (Asked(front) + asked);
    }
  }

  lemma {:induction false} UnwatchOne(t: Tables, a: Action)
    requires a.Unwatch?
    ensures Act(t, a).by_wd.Keys == t.by_wd.Keys - if a.ok then {a.wd} else {}
    ensures GivenBy(t, a) == (if a.ok then {a.wd} else {}) * t.by_wd.Keys
  {
  }

  lemma {:induction false} AskedLast(front: seq<Action>, last: Action)
    requires last.Unwatch?
    ensures Asked(front + [last]) == Asked(front) + if last.ok then {last.wd} else {}
  {
    assert forall a :: a in front + [last] <==> a in front || a == last;
  }

  /** Actions that only ask for descriptors give up none. */
  lemma {:induction false} OnlyWatch(t: Tables, actions: seq<Action>)
    requires forall a :: a in actions ==> a.Watch?
    ensures t.by_wd.Keys <= Acts(t, actions).by_wd.Keys && Given(t, actions) == {}
  {
    if actions != [] {
      OnlyWatch(t, actions[..|actions| - 1]);
    }
  }
}
