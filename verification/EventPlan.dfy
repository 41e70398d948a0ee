/** When a turn of the event loop delivers every move exactly once: what a batch alone would have delivered, and the
    callbacks that come in its way. */
module EventPlan {
  import opened Sets
  import opened Watchers
  import opened Events

  /** The deliveries a batch asks for, the cookies that wait behind each of them, and what is pending in the end. It does
      not depend on any callback. */
  datatype Plan = Plan(pending: map<int, Event>, deliveries: seq<Delivery>, waiting: seq<set<int>>)

  function Planned(p: Plan, d: Delivery, pending: map<int, Event>): Plan {
    Plan(pending, p.deliveries + [d], p.waiting + [pending.Keys])
  }

  function PlanStep(p: Plan, e: Event): Plan {
    if IsMove(e) then
      if e.cookie !in p.pending then p.(pending := p.pending[e.cookie := e])
      else Planned(p, Moved(p.pending[e.cookie], e), p.pending - {e.cookie})
    else if e.deleted then Planned(p, Deleted(e), p.pending)
    else if e.close_write then Planned(p, Written(e), p.pending)
    else p
  }

  function PlanRead(batch: seq<Event>): (p: Plan)
    ensures |p.waiting| == |p.deliveries|
  {
    if batch == [] then Plan(map[], [], []) else PlanStep(PlanRead(batch[..|batch| - 1]), batch[|batch| - 1])
  }

  function PlanFlush(p: Plan, rest: seq<Event>): (p': Plan)
    ensures |p.waiting| == |p.deliveries| ==> |p'.waiting| == |p'.deliveries|
  {
    if rest == [] then p
    else
      var p', e := PlanFlush(p, rest[..|rest| - 1]), rest[|rest| - 1];
      Planned(p', Single(e), p'.pending - {e.cookie})
  }

  function PlanOf(batch: seq<Event>, rest: seq<Event>): (p: Plan)
    ensures |p.waiting| == |p.deliveries|
  {
    PlanFlush(PlanRead(batch), rest)
  }

  /** The watched directories after these deliveries. */
  function WatchedAfter(watched: Tables, before: seq<Delivery>, ds: seq<Delivery>, cb: Callbacks): Tables {
    if ds == [] then watched else Acts(WatchedAfter(watched, before, ds[..|ds| - 1], cb), cb(before + ds))
  }

  /** The directories of a delivery are still watched, and its callback gives up no watched descriptor whose number is a
      cookie that waits. */
  predicate QuietAt(watched: Tables, before: seq<Delivery>, p: Plan, cb: Callbacks, i: nat)
    requires i < |p.deliveries| == |p.waiting|
  {
    var now := WatchedAfter(watched, before, p.deliveries[..i], cb);
    Directories(p.deliveries[i]) <= now.by_wd.Keys && Given(now, cb(before + p.deliveries[..i + 1])) !! p.waiting[i]
  }

  ghost predicate Quiet(watched: Tables, before: seq<Delivery>, p: Plan, cb: Callbacks)
    requires |p.deliveries| == |p.waiting|
  {
    forall i: nat :: i < |p.deliveries| ==> QuietAt(watched, before, p, cb, i)
  }

  // ---------------------------------------------------------------- the run follows the plan as long as it is quiet

  ghost predicate Spoiled(s: Loop, m: Loop) {
    m.crashed || |m.lost| > |s.lost|
  }

  ghost predicate Follows(s: Loop, m: Loop, p: Plan, cb: Callbacks) {
    && |p.deliveries| == |p.waiting|
    && (Quiet(s.watched, s.delivered, p, cb) ==>
        m == Loop(p.pending, WatchedAfter(s.watched, s.delivered, p.deliveries, cb), s.delivered + p.deliveries, s.lost, false))
    && (!Quiet(s.watched, s.delivered, p, cb) ==> Spoiled(s, m))
  }

  lemma {:induction false} QuietNext(watched: Tables, before: seq<Delivery>, p: Plan, d: Delivery, pending: map<int, Event>, cb: Callbacks)
    requires |p.deliveries| == |p.waiting|
    ensures var p', n := Planned(p, d, pending), |p.deliveries|;
      (Quiet(watched, before, p', cb) <==> Quiet(watched, before, p, cb) && QuietAt(watched, before, p', cb, n)) &&
      p'.deliveries[..n] == p.deliveries && p'.deliveries[..n + 1] == p'.deliveries && p'.deliveries[n] == d && p'.waiting[n] == pending.Keys
  {
    var p', n := Planned(p, d, pending), |p.deliveries|;
    forall i: nat | i < n
      ensures QuietAt(watched, before, p', cb, i) <==> QuietAt(watched, before, p, cb, i)
    {
      assert p'.deliveries[..i] == p.deliveries[..i] && p'.deliveries[..i + 1] == p.deliveries[..i + 1];
    }
    assert Quiet(watched, before, p', cb) ==> QuietAt(watched, before, p', cb, n);
    if Quiet(watched, before, p', cb) {
      forall i: nat | i < n
        ensures QuietAt(watched, before, p, cb, i)
      {
        assert QuietAt(watched, before, p', cb, i);
      }
    }
  }

  // A delivery loses nothing exactly when the callback leaves alone what waits.
  lemma {:induction false} DeliverLoses(m: Loop, d: Delivery, own: set<int>, cb: Callbacks)
    requires Directories(d) <= m.watched.by_wd.Keys
    ensures var m' := Deliver(m, d, own, cb);
      |m'.lost| >= |m.lost| && (m'.lost == m.lost <==> |m'.lost| == |m.lost|) &&
      (m'.lost == m.lost <==> GivenUp(m, d, cb) !! (m.pending - own).Keys)
  {
    DroppedNone(m.pending, GivenUp(m, d, cb), own);
    MoreLost(m.lost, Values(m.pending, GivenUp(m, d, cb) - own));
    hide Values, GivenUp;
  }

  lemma {:induction false} DroppedNone(pending: map<int, Event>, gone: set<int>, own: set<int>)
    ensures Values(pending, gone - own) == {} <==> gone !! (pending - own).Keys
  {
    var both := gone * (pending - own).Keys;
    if both == {} {
      forall c | c in pending
        ensures c !in gone - own
      {
        assert c !in both;
      }
    } else {
      var c := AnyOf(both);
      assert pending[c] in Values(pending, gone - own);
    }
  }

  lemma {:induction false} MoreLost(lost: multiset<Event>, dropped: set<Event>)
    ensures |lost + multiset(dropped)| == |lost| + |dropped|
    ensures lost + multiset(dropped) == lost <==> dropped == {}
  {
    if dropped == {} {
      assert lost + multiset(dropped) == lost;
    }
  }

  lemma {:induction false} DeliverFollows(s: Loop, m: Loop, p: Plan, d: Delivery, own: set<int>, cb: Callbacks)
    requires Follows(s, m, p, cb) && Quiet(s.watched, s.delivered, p, cb)
    ensures Follows(s, Deliver(m, d, own, cb), Planned(p, d, p.pending - own), cb)
  {
    var m', p' := Deliver(m, d, own, cb), Planned(p, d, p.pending - own);
    QuietNext(s.watched, s.delivered, p, d, p.pending - own, cb);
    hide Quiet;
    HistoryNext(s.delivered, p.deliveries, d);
    assert GivenUp(m, d, cb) == Given(m.watched, cb(s.delivered + p'.deliveries));
    if Directories(d) <= m.watched.by_wd.Keys {
      DeliverLoses(m, d, own, cb);
      if m'.lost == m.lost {
        SameLeft(m.pending, GivenUp(m, d, cb), own);
        assert m'.watched == WatchedAfter(s.watched, s.delivered, p'.deliveries, cb);
      }
    }
  }

  lemma {:induction false} HistoryNext(before: seq<Delivery>, ds: seq<Delivery>, d: Delivery)
    ensures before + ds + [d] == before + (ds + [d])
  {
  }

  lemma {:induction false} SameLeft(pending: map<int, Event>, gone: set<int>, own: set<int>)
    requires gone !! (pending - own).Keys
    ensures pending - gone - own == pending - own
  {
    assert forall c :: c in pending - own <==> c in pending && c !in own;
    assert forall c :: c in pending - gone - own <==> c in pending && c !in gone && c !in own;
  }

  // What has been lost stays lost.
  lemma {:induction false} StaysSpoiled(s: Loop, m: Loop, e: Event, cb: Callbacks)
    requires Spoiled(s, m)
    ensures Spoiled(s, Step(m, e, cb)) && Spoiled(s, FlushOne(m, e, cb))
  {
  }

  lemma {:induction false} NotQuietNext(s: Loop, m: Loop, p: Plan, d: Delivery, pending: map<int, Event>, cb: Callbacks)
    requires |p.deliveries| == |p.waiting| && !Quiet(s.watched, s.delivered, p, cb) && Spoiled(s, m)
    ensures Follows(s, m, Planned(p, d, pending), cb)
  {
    QuietNext(s.watched, s.delivered, p, d, pending, cb);
  }

  lemma {:induction false} StepFollows(s: Loop, m: Loop, p: Plan, e: Event, cb: Callbacks)
    requires Follows(s, m, p, cb)
    ensures Follows(s, Step(m, e, cb), PlanStep(p, e), cb)
  {
    if Quiet(s.watched, s.delivered, p, cb) {
      StepFollowsQuiet(s, m, p, e, cb);
    } else {
      StaysSpoiled(s, m, e, cb);
      hide Quiet, Step, Spoiled, IsMove;
      var m' := Step(m, e, cb);
      if IsMove(e) && e.cookie in p.pending {
        NotQuietNext(s, m', p, Moved(p.pending[e.cookie], e), p.pending - {e.cookie}, cb);
      } else if IsMove(e) {
        QuietSame(s, p, p.pending[e.cookie := e], cb);
      } else if e.deleted {
        NotQuietNext(s, m', p, Deleted(e), p.pending, cb);
      } else if e.close_write {
        NotQuietNext(s, m', p, Written(e), p.pending, cb);
      }
    }
  }

  lemma {:induction false} QuietSame(s: Loop, p: Plan, pending: map<int, Event>, cb: Callbacks)
    requires |p.deliveries| == |p.waiting|
    ensures Quiet(s.watched, s.delivered, p.(pending := pending), cb) <==> Quiet(s.watched, s.delivered, p, cb)
  {
    var p' := p.(pending := pending);
    assert forall i: nat :: i < |p.deliveries| ==> (QuietAt(s.watched, s.delivered, p', cb, i) <==> QuietAt(s.watched, s.delivered, p, cb, i));
  }

  lemma {:induction false} StepFollowsQuiet(s: Loop, m: Loop, p: Plan, e: Event, cb: Callbacks)
    requires Follows(s, m, p, cb) && Quiet(s.watched, s.delivered, p, cb)
    ensures Follows(s, Step(m, e, cb), PlanStep(p, e), cb)
  {
    hide Quiet, Deliver, IsMove, Spoiled, WatchedAfter;
    assert p.pending - {} == p.pending;
    if IsMove(e) && e.cookie in p.pending {
      DeliverFollows(s, m, p, Moved(p.pending[e.cookie], e), {e.cookie}, cb);
    } else if IsMove(e) {
      QuietSame(s, p, p.pending[e.cookie := e], cb);
    } else if e.deleted {
      DeliverFollows(s, m, p, Deleted(e), {}, cb);
    } else if e.close_write {
      DeliverFollows(s, m, p, Written(e), {}, cb);
    }
  }

  lemma {:induction false} ReadFollows(s: Loop, batch: seq<Event>, cb: Callbacks)
    requires s.pending == map[] && !s.crashed
    ensures Follows(s, Read(s, batch, cb), PlanRead(batch), cb)
  {
    if batch == [] {
      assert s.delivered + [] == s.delivered;
    } else {
      hide Follows, Step, PlanStep;
      ReadFollows(s, batch[..|batch| - 1], cb);
      StepFollows(s, Read(s, batch[..|batch| - 1], cb), PlanRead(batch[..|batch| - 1]), batch[|batch| - 1], cb);
    }
  }

  // ---------------------------------------------------------------- what is left over

  // The events that are still to be delivered are there, each under a cookie of its own.
  predicate Ready(p: Plan, rest: seq<Event>) {
    (forall i :: 0 <= i < |rest| ==> rest[i].cookie in p.pending && p.pending[rest[i].cookie] == rest[i]) &&
    forall i, j :: 0 <= i < j < |rest| ==> rest[i].cookie != rest[j].cookie
  }

  lemma {:induction false} PlanLeaves(p: Plan, rest: seq<Event>, k: nat)
    requires Ready(p, rest) && k < |rest|
    ensures var p' := PlanFlush(p, rest[..k]); rest[k].cookie in p'.pending && p'.pending[rest[k].cookie] == rest[k]
  {
    PlanKeeps(p, rest[..k], rest[k]);
  }

  lemma {:induction false} PlanKeeps(p: Plan, rest: seq<Event>, e: Event)
    requires e.cookie in p.pending && p.pending[e.cookie] == e && forall i :: 0 <= i < |rest| ==> rest[i].cookie != e.cookie
    ensures var p' := PlanFlush(p, rest); e.cookie in p'.pending && p'.pending[e.cookie] == e
  {
    if rest != [] {
      PlanKeeps(p, rest[..|rest| - 1], e);
    }
  }

  lemma {:induction false} FlushFollows(s: Loop, m: Loop, p: Plan, rest: seq<Event>, cb: Callbacks)
    requires Follows(s, m, p, cb) && (Quiet(s.watched, s.delivered, p, cb) ==> Ready(p, rest))
    ensures Follows(s, Flush(m, rest, cb), PlanFlush(p, rest), cb)
    ensures Quiet(s.watched, s.delivered, PlanFlush(p, rest), cb) ==> Quiet(s.watched, s.delivered, p, cb)
  {
    hide Quiet;
    if rest != [] {
      var n := |rest| - 1;
      var m', p', e := Flush(m, rest[..n], cb), PlanFlush(p, rest[..n]), rest[n];
      FlushFollows(s, m, p, rest[..n], cb);
      QuietNext(s.watched, s.delivered, p', Single(e), p'.pending - {e.cookie}, cb);
      hide Spoiled;
      if Quiet(s.watched, s.delivered, p', cb) {
        PlanLeaves(p, rest, n);
        DeliverFollows(s, m', p', Single(e), {e.cookie}, cb);
        hide Deliver, WatchedAfter;
      } else {
        StaysSpoiled(s, m', e, cb);
        NotQuietNext(s, FlushOne(m', e, cb), p', Single(e), p'.pending - {e.cookie}, cb);
      }
    }
  }

  lemma {:induction false} Twice(es: seq<Event>, i: nat, j: nat)
    requires i < j < |es| && es[i] == es[j]
    ensures multiset(es)[es[i]] >= 2
  {
    assert es == es[..i] + [es[i]] + es[i + 1..j] + [es[j]] + es[j + 1..];
  }

  lemma {:induction false} ListedReady(p: Plan, rest: seq<Event>)
    requires Keyed(p.pending) && Lists(rest, p.pending)
    ensures Ready(p, rest)
  {
    ListsMoves(rest, p.pending);
    assert forall e :: Waiting(p.pending)[e] <= 1;
    assert forall i :: 0 <= i < |rest| ==> rest[i] in rest;
    hide Waiting;
    forall i, j | 0 <= i < j < |rest|
      ensures rest[i].cookie != rest[j].cookie
    {
      if rest[i].cookie == rest[j].cookie {
        Twice(rest, i, j);
      }
    }
  }

  // ---------------------------------------------------------------- a turn

  lemma {:induction false} TurnFollows(s: Loop, batch: seq<Event>, rest: seq<Event>, cb: Callbacks)
    requires s.pending == map[] && !s.crashed && Lists(rest, Read(s, batch, cb).pending)
    ensures Follows(s, Flush(Read(s, batch, cb), rest, cb), PlanOf(batch, rest), cb)
  {
    var p := PlanRead(batch);
    ReadFollows(s, batch, cb);
    hide Quiet, Read, Flush, PlanRead, PlanFlush, WatchedAfter, Lists, Spoiled, Keyed;
    if Quiet(s.watched, s.delivered, p, cb) {
      NoneWaiting();
      ReadAccounts(s, batch, cb);
      ListedReady(p, rest);
    }
    FlushFollows(s, Read(s, batch, cb), p, rest, cb);
  }

  /** A turn delivers what the batch asks for, in that order, exactly when it is quiet: every directory is still watched
      when an event of it is delivered, and no callback gives up a descriptor that is the number of a waiting cookie.
      Exactly then every move of the batch is delivered once. */
  lemma {:induction false} TurnExact(s: Loop, batch: seq<Event>, rest: seq<Event>, cb: Callbacks)
    requires s.pending == map[] && !s.crashed && Lists(rest, Read(s, batch, cb).pending)
    ensures var s', p := Turn(s, batch, rest, cb), PlanOf(batch, rest);
      (Quiet(s.watched, s.delivered, p, cb) ==>
        s' == Loop(map[], WatchedAfter(s.watched, s.delivered, p.deliveries, cb), s.delivered + p.deliveries, s.lost, false)) &&
      (Quiet(s.watched, s.delivered, p, cb) <==>
        !s'.crashed && multiset(AllHalves(s'.delivered)) == multiset(AllHalves(s.delivered)) + multiset(Moves(batch)))
  {
    TurnFollows(s, batch, rest, cb);
    hide Quiet, Read, Flush, PlanOf, WatchedAfter, AllHalves, Moves, Lists;
    var s' := Turn(s, batch, rest, cb);
    if !s'.crashed {
      TurnConserves(s, batch, rest, cb);
      SameLoss(multiset(AllHalves(s'.delivered)), s'.lost, multiset(AllHalves(s.delivered)), s.lost, multiset(Moves(batch)));
    }
  }

  lemma {:induction false} SameLoss(a: multiset<Event>, lost: multiset<Event>, a0: multiset<Event>, lost0: multiset<Event>, moves: multiset<Event>)
    requires a + lost == a0 + lost0 + moves
    ensures lost == lost0 ==> a == a0 + moves
    ensures |lost| > |lost0| ==> a != a0 + moves
  {
    assert (a + lost) - lost == a;
    assert (a0 + moves + lost0) - lost0 == a0 + moves;
    assert (a0 + moves + lost0) - (a0 + moves) == lost0 && (a + lost) - a == lost;
    assert a0 + lost0 + moves == a0 + moves + lost0;
  }

  /** Callbacks that give up nothing, in a batch whose directories are all watched, are quiet. */
  lemma {:induction false} CalmBatch(s: Loop, p: Plan, cb: Callbacks)
    requires |p.deliveries| == |p.waiting| && forall ds, a :: a in cb(ds) ==> a.Watch?
    requires forall i :: 0 <= i < |p.deliveries| ==> Directories(p.deliveries[i]) <= s.watched.by_wd.Keys
    ensures Quiet(s.watched, s.delivered, p, cb)
  {
    forall i: nat | i < |p.deliveries|
      ensures QuietAt(s.watched, s.delivered, p, cb, i)
    {
      WatchedGrows(s.watched, s.delivered, p.deliveries[..i], cb);
      OnlyWatch(WatchedAfter(s.watched, s.delivered, p.deliveries[..i], cb), cb(s.delivered + p.deliveries[..i + 1]));
    }
  }

  lemma {:induction false} WatchedGrows(watched: Tables, before: seq<Delivery>, ds: seq<Delivery>, cb: Callbacks)
    requires forall ds, a :: a in cb(ds) ==> a.Watch?
    ensures watched.by_wd.Keys <= WatchedAfter(watched, before, ds, cb).by_wd.Keys
  {
    if ds != [] {
      WatchedGrows(watched, before, ds[..|ds| - 1], cb);
      OnlyWatch(WatchedAfter(watched, before, ds[..|ds| - 1], cb), cb(before + ds));
    }
  }

  // What the callback of the k-th delivery gives up.
  function RemovedAt(before: seq<Delivery>, ds: seq<Delivery>, cb: Callbacks, k: nat): set<int>
    requires k < |ds|
  {
    Asked(cb(before + ds[..k + 1]))
  }

  lemma {:induction false} StillWatched(watched: Tables, before: seq<Delivery>, ds: seq<Delivery>, cb: Callbacks, w: int)
    requires forall ds, a :: a in cb(ds) ==> a.Unwatch?
    ensures w in WatchedAfter(watched, before, ds, cb).by_wd <==>
      w in watched.by_wd && forall k: nat :: k < |ds| ==> w !in RemovedAt(before, ds, cb, k)
  {
    if ds != [] {
      var n := |ds| - 1;
      StillWatched(watched, before, ds[..n], cb, w);
      assert ds[..n + 1] == ds;
      OnlyUnwatch(WatchedAfter(watched, before, ds[..n], cb), cb(before + ds));
      assert w in RemovedAt(before, ds, cb, n) <==> w in Asked(cb(before + ds));
      forall k: nat | k < n
        ensures RemovedAt(before, ds, cb, k) == RemovedAt(before, ds[..n], cb, k)
      {
        assert ds[..n][..k + 1] == ds[..k + 1];
      }
    }
  }

  // No earlier callback has given up a directory of this delivery.
  ghost predicate KeepsDirectories(before: seq<Delivery>, ds: seq<Delivery>, cb: Callbacks, i: nat)
    requires i < |ds|
  {
    forall j: nat :: j < i ==> RemovedAt(before, ds, cb, j) !! Directories(ds[i])
  }

  // Its callback does not give up, as the first one to do so, a descriptor with the number of a waiting cookie.
  ghost predicate KeepsWaiting(watched: Tables, before: seq<Delivery>, p: Plan, cb: Callbacks, i: nat)
    requires i < |p.deliveries| == |p.waiting|
  {
    forall c :: c in p.waiting[i] && c in watched.by_wd && c in RemovedAt(before, p.deliveries, cb, i) ==>
      GivenUpBefore(before, p.deliveries, cb, i, c)
  }

  /** The same, delivery by delivery, for callbacks that get no new descriptors and a batch whose directories are all
      watched when it is read. */
  lemma {:induction false} QuietPairs(watched: Tables, before: seq<Delivery>, p: Plan, cb: Callbacks)
    requires |p.deliveries| == |p.waiting| && forall ds, a :: a in cb(ds) ==> a.Unwatch?
    requires forall i :: 0 <= i < |p.deliveries| ==> Directories(p.deliveries[i]) <= watched.by_wd.Keys
    ensures Quiet(watched, before, p, cb) <==>
      forall i: nat :: i < |p.deliveries| ==> KeepsDirectories(before, p.deliveries, cb, i) && KeepsWaiting(watched, before, p, cb, i)
  {
    forall i: nat | i < |p.deliveries|
      ensures QuietAt(watched, before, p, cb, i) <==> KeepsDirectories(before, p.deliveries, cb, i) && KeepsWaiting(watched, before, p, cb, i)
    {
      QuietAtPairs(watched, before, p, cb, i);
    }
    hide QuietAt, KeepsDirectories, KeepsWaiting;
    if Quiet(watched, before, p, cb) {
      forall i: nat | i < |p.deliveries|
        ensures KeepsDirectories(before, p.deliveries, cb, i) && KeepsWaiting(watched, before, p, cb, i)
      {
        assert QuietAt(watched, before, p, cb, i);
      }
    }
  }

  lemma {:induction false} QuietAtPairs(watched: Tables, before: seq<Delivery>, p: Plan, cb: Callbacks, i: nat)
    requires i < |p.deliveries| == |p.waiting| && (forall ds, a :: a in cb(ds) ==> a.Unwatch?) && Directories(p.deliveries[i]) <= watched.by_wd.Keys
    ensures QuietAt(watched, before, p, cb, i) <==> KeepsDirectories(before, p.deliveries, cb, i) && KeepsWaiting(watched, before, p, cb, i)
  {
    var ds := p.deliveries;
    var now := WatchedAfter(watched, before, ds[..i], cb);
    forall w
      ensures w in now.by_wd <==> w in watched.by_wd && !GivenUpBefore(before, ds, cb, i, w)
    {
      StillWatchedAt(watched, before, ds, cb, i, w);
    }
    hide WatchedAfter, Directories;
    if KeepsDirectories(before, ds, cb, i) {
      assert forall w :: w in Directories(ds[i]) ==> !GivenUpBefore(before, ds, cb, i, w);
    } else {
      var j: nat :| j < i && !(RemovedAt(before, ds, cb, j) !! Directories(ds[i]));
      var w :| w in RemovedAt(before, ds, cb, j) && w in Directories(ds[i]);
      assert GivenUpBefore(before, ds, cb, i, w);
    }
    OnlyUnwatch(now, cb(before + ds[..i + 1]));
    assert Asked(cb(before + ds[..i + 1])) == RemovedAt(before, ds, cb, i);
    hide RemovedAt, GivenUpBefore;
    assert Directories(ds[i]) <= now.by_wd.Keys <==> KeepsDirectories(before, ds, cb, i);
    var gone := Given(now, cb(before + ds[..i + 1]));
    if gone !! p.waiting[i] {
      forall c | c in p.waiting[i] && c in watched.by_wd && c in RemovedAt(before, ds, cb, i)
        ensures GivenUpBefore(before, ds, cb, i, c)
      {
        assert c !in gone;
      }
    } else {
      var c :| c in gone && c in p.waiting[i];
      assert c in watched.by_wd && c in RemovedAt(before, ds, cb, i) && !GivenUpBefore(before, ds, cb, i, c);
    }
    assert gone !! p.waiting[i] <==> KeepsWaiting(watched, before, p, cb, i);
  }

  ghost predicate GivenUpBefore(before: seq<Delivery>, ds: seq<Delivery>, cb: Callbacks, i: nat, w: int)
    requires i <= |ds|
  {
    exists k: nat :: k < i && w in RemovedAt(before, ds, cb, k)
  }

  lemma {:induction false} StillWatchedAt(watched: Tables, before: seq<Delivery>, ds: seq<Delivery>, cb: Callbacks, i: nat, w: int)
    requires i <= |ds| && forall ds, a :: a in cb(ds) ==> a.Unwatch?
    ensures w in WatchedAfter(watched, before, ds[..i], cb).by_wd <==> w in watched.by_wd && !GivenUpBefore(before, ds, cb, i, w)
  {
    StillWatched(watched, before, ds[..i], cb, w);
    forall k: nat | k < i
      ensures RemovedAt(before, ds, cb, k) == RemovedAt(before, ds[..i], cb, k)
    {
      assert ds[..i][..k + 1] == ds[..k + 1];
    }
  }

  // ---------------------------------------------------------------- the two ways to fail

  lemma {:induction false} ReadThree(s: Loop, a: Event, b: Event, c: Event, cb: Callbacks)
    ensures Read(s, [a, b], cb) == Step(Step(s, a, cb), b, cb)
    ensures Read(s, [a, b, c], cb) == Step(Step(Step(s, a, cb), b, cb), c, cb)
  {
    assert [a, b, c][..2] == [a, b] && [a, b][..1] == [a] && [a][..0] == [];
    assert Read(s, [a], cb) == Step(Read(s, [], cb), a, cb);
    assert Read(s, [a, b], cb) == Step(Read(s, [a], cb), b, cb);
  }

  lemma {:induction false} OneLeft(m: Loop, e: Event, cb: Callbacks)
    requires m.pending == map[e.cookie := e]
    ensures Lists([e], m.pending) && Flush(m, [e], cb) == FlushOne(m, e, cb)
  {
    assert e.cookie in m.pending && m.pending[e.cookie] == e;
    assert Values(m.pending, m.pending.Keys) == {e};
    assert multiset([e]) == multiset{e} && [e][..0] == [];
    assert Flush(m, [e], cb) == FlushOne(Flush(m, [], cb), e, cb);
  }

  // The first delivery is one of the configuration file.
  lemma {:induction false} ConfigWritten(m: Loop, e: Event, gone: int, cb: Callbacks)
    requires !m.crashed && m.delivered == [] && !IsMove(e) && !e.deleted && e.close_write && e.wd in m.watched.by_wd
    requires cb([Written(e)]) == [Unwatch(gone, true)] && gone in m.watched.by_wd
    ensures var m' := Step(m, e, cb);
      m'.pending == m.pending - {gone} && m'.watched.by_wd.Keys == m.watched.by_wd.Keys - {gone} && m'.delivered == [Written(e)] && !m'.crashed &&
      m'.lost == m.lost + if gone in m.pending then multiset{m.pending[gone]} else multiset{}
  {
    assert [] + [Written(e)] == [Written(e)];
    OnlyUnwatch(m.watched, [Unwatch(gone, true)]);
    assert GivenUp(m, Written(e), cb) == {gone};
    assert m.pending - {gone} - {} == m.pending - {gone};
    assert {gone} - {} == {gone};
    assert Values(m.pending, {gone}) == if gone in m.pending then {m.pending[gone]} else {};
  }

  /** A callback between the halves of a move gives up the descriptor that has the number of their cookie: the first half
      is lost, and the second comes alone. */
  lemma {:induction false} DroppedHalf(first: Event, other: Event, second: Event, watched: Tables, cb: Callbacks)
    requires IsMove(first) && IsMove(second) && first.cookie == second.cookie && !IsMove(other) && !other.deleted && other.close_write
    requires {other.wd, second.wd, first.cookie} <= watched.by_wd.Keys && second.wd != first.cookie
    requires cb([Written(other)]) == [Unwatch(first.cookie, true)]
    ensures var s := Loop(map[], watched, [], multiset{}, false);
      var s' := Turn(s, [first, other, second], [second], cb);
      Lists([second], Read(s, [first, other, second], cb).pending) &&
      !s'.crashed && s'.delivered == [Written(other), Single(second)] && s'.lost == multiset{first}
  {
    var s0 := Loop(map[], watched, [], multiset{}, false);
    var s1 := Step(s0, first, cb);
    ReadThree(s0, first, other, second, cb);
    assert s1 == s0.(pending := map[first.cookie := first]);
    ConfigWritten(s1, other, first.cookie, cb);
    var s2 := Step(s1, other, cb);
    assert s2.pending == map[] && s2.lost == multiset{first};
    hide Step, Flush, Read, Lists;
    Alone(s2, second, cb);
    assert [Written(other)] + [Single(second)] == [Written(other), Single(second)];
  }

  // A half whose other half is not there.
  lemma {:induction false} Alone(m: Loop, e: Event, cb: Callbacks)
    requires !m.crashed && m.pending == map[] && IsMove(e) && e.wd in m.watched.by_wd
    ensures var m' := Flush(Step(m, e, cb), [e], cb);
      Lists([e], Step(m, e, cb).pending) && !m'.crashed && m'.delivered == m.delivered + [Single(e)] && m'.lost == m.lost
  {
    var m1 := m.(pending := map[e.cookie := e]);
    assert Step(m, e, cb) == m1;
    OneLeft(m1, e, cb);
    assert Values(m1.pending, GivenUp(m1, Single(e), cb) - {e.cookie}) == {};
  }

  /** The configuration file is written, the directory of a move behind it in the batch is not served any more, and the
      path of the move is built from a directory that is not there. */
  lemma {:induction false} LostDirectory(config: Event, move: Event, watched: Tables, cb: Callbacks)
    requires !IsMove(config) && !config.deleted && config.close_write && IsMove(move)
    requires {config.wd, move.wd} <= watched.by_wd.Keys && cb([Written(config)]) == [Unwatch(move.wd, true)]
    ensures var s := Loop(map[], watched, [], multiset{}, false);
      Lists([move], Read(s, [config, move], cb).pending) && Turn(s, [config, move], [move], cb).crashed
  {
    var s := Loop(map[], watched, [], multiset{}, false);
    ReadThree(s, config, move, move, cb);
    ConfigWritten(s, config, move.wd, cb);
    var s1 := Step(s, config, cb);
    assert s1.pending == map[] && move.wd !in s1.watched.by_wd;
    hide Step, Flush, Read, Lists;
    AloneCrashes(s1, move, cb);
  }

  lemma {:induction false} AloneCrashes(m: Loop, e: Event, cb: Callbacks)
    requires !m.crashed && m.pending == map[] && IsMove(e) && e.wd !in m.watched.by_wd
    ensures Lists([e], Step(m, e, cb).pending) && Flush(Step(m, e, cb), [e], cb).crashed
  {
    var m1 := m.(pending := map[e.cookie := e]);
    assert Step(m, e, cb) == m1;
    OneLeft(m1, e, cb);
  }
}
