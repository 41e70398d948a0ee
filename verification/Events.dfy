/** The event loop of src/core/monitor_inotify.c: the two halves of a move are paired by their cookie, and what is left
    over at the end of a batch is delivered alone. */
module Events {
  import opened Watchers

  /** An inotify event; the mask bits that matter are spelled out. */
  datatype Event = Event(wd: int, moved_from: bool, moved_to: bool, deleted: bool, close_write: bool, cookie: int, name: string)

  predicate IsMove(e: Event) {
    (e.moved_from || e.moved_to) && e.cookie != 0
  }

  /** What a callback is invoked with. */
  datatype Delivery =
    | Moved(from: Event, to: Event)
    | MovedAway(event: Event)
    | MovedHere(event: Event)
    | Deleted(event: Event)
    | Written(event: Event)

  // The move events a delivery reports.
  function Halves(d: Delivery): seq<Event> {
    match d
    case Moved(from, to) => [from, to]
    case MovedAway(e) => [e]
    case MovedHere(e) => [e]
    case _ => []
  }

  // The directories whose paths it is built from.
  function Directories(d: Delivery): set<int> {
    if d.Moved? then {d.from.wd, d.to.wd} else {d.event.wd}
  }

  function AllHalves(ds: seq<Delivery>): seq<Event> {
    if ds == [] then [] else AllHalves(ds[..|ds| - 1]) + Halves(ds[|ds| - 1])
  }

  // ---------------------------------------------------------------- a batch

  /** What a callback does may depend on everything that has been delivered; what is delivered to it comes last. */
  type Callbacks = seq<Delivery> -> seq<Action>

  /** The events waiting for their other half, by cookie; the watched directories; what has been delivered; and what has
      been dropped unseen. Giving up a descriptor drops the entry under that number. A run has crashed when it has looked
      up the directory of a descriptor that is not watched, or an event that was dropped. */
  datatype Loop = Loop(pending: map<int, Event>, watched: Tables, delivered: seq<Delivery>, lost: multiset<Event>, crashed: bool)

  // The values of the pending events with these cookies.
  function Values(pending: map<int, Event>, cookies: set<int>): set<Event> {
    set c | c in pending && c in cookies :: pending[c]
  }

  // The descriptors that a callback gives up.
  function GivenUp(s: Loop, d: Delivery, cb: Callbacks): set<int> {
    Given(s.watched, cb(s.delivered + [d]))
  }

  // Building the paths, invoking the callback, and taking out the event that has been delivered.
  function Deliver(s: Loop, d: Delivery, own: set<int>, cb: Callbacks): Loop {
    if !(Directories(d) <= s.watched.by_wd.Keys) then s.(crashed := true)
    else
      var gone := GivenUp(s, d, cb);
      Loop(s.pending - gone - own, Acts(s.watched, cb(s.delivered + [d])), s.delivered + [d],
        s.lost + multiset(Values(s.pending, gone - own)), false)
  }

  /** One event of a batch. */
  function Step(s: Loop, e: Event, cb: Callbacks): Loop {
    if s.crashed then s
    else if IsMove(e) then
      if e.cookie !in s.pending then s.(pending := s.pending[e.cookie := e])
      else Deliver(s, Moved(s.pending[e.cookie], e), {e.cookie}, cb)
    else if e.deleted then Deliver(s, Deleted(e), {}, cb)
    else if e.close_write then Deliver(s, Written(e), {}, cb)
    else s
  }

  function Read(s: Loop, batch: seq<Event>, cb: Callbacks): Loop {
    if batch == [] then s else Step(Read(s, batch[..|batch| - 1], cb), batch[|batch| - 1], cb)
  }

  // An event without its other half.
  function Single(e: Event): Delivery {
    if e.moved_from then MovedAway(e) else MovedHere(e)
  }

  /** One of the events that are left over; they were listed before the first of them was delivered. */
  function FlushOne(s: Loop, e: Event, cb: Callbacks): Loop {
    if s.crashed then s
    else if e.cookie !in s.pending || s.pending[e.cookie] != e then s.(crashed := true)
    else Deliver(s, Single(e), {e.cookie}, cb)
  }

  function Flush(s: Loop, rest: seq<Event>, cb: Callbacks): Loop {
    if rest == [] then s else FlushOne(Flush(s, rest[..|rest| - 1], cb), rest[|rest| - 1], cb)
  }

  /** A turn of the loop: reading a batch, delivering what is left over in the order of `rest`, and emptying the buffer. */
  function Turn(s: Loop, batch: seq<Event>, rest: seq<Event>, cb: Callbacks): Loop {
    Flush(Read(s, batch, cb), rest, cb).(pending := map[])
  }

  /** `rest` lists the pending events, each once. */
  predicate Lists(rest: seq<Event>, pending: map<int, Event>) {
    multiset(rest) == Waiting(pending)
  }

  lemma {:induction false} ListsMoves(rest: seq<Event>, pending: map<int, Event>)
    requires Lists(rest, pending) && Keyed(pending)
    ensures forall e :: e in rest <==> e.cookie in pending && pending[e.cookie] == e
    ensures forall e :: e in rest ==> IsMove(e)
  {
    forall e
      ensures e in rest <==> e.cookie in pending && pending[e.cookie] == e
    {
      assert e in rest <==> e in multiset(rest);
      assert e in Waiting(pending) <==> e in Values(pending, pending.Keys);
    }
  }

  // ---------------------------------------------------------------- conservation

  function Moves(batch: seq<Event>): seq<Event> {
    if batch == [] then []
    else Moves(batch[..|batch| - 1]) + if IsMove(batch[|batch| - 1]) then [batch[|batch| - 1]] else []
  }

  // Every pending event is a move and under its own cookie.
  predicate Keyed(pending: map<int, Event>) {
    forall c :: c in pending ==> pending[c].cookie == c && IsMove(pending[c])
  }

  function Waiting(pending: map<int, Event>): multiset<Event> {
    multiset(Values(pending, pending.Keys))
  }

  lemma {:induction false} WaitingInsert(pending: map<int, Event>, e: Event)
    requires Keyed(pending) && IsMove(e) && e.cookie !in pending
    ensures Keyed(pending[e.cookie := e]) && Waiting(pending[e.cookie := e]) == Waiting(pending) + multiset{e}
  {
    var pending' := pending[e.cookie := e];
    assert Values(pending', pending'.Keys) == Values(pending, pending.Keys) + {e} by {
      assert forall c :: c in pending ==> pending'[c] == pending[c];
      assert pending'[e.cookie] == e;
    }
    assert e !in Values(pending, pending.Keys);
  }

  lemma {:induction false} WaitingRemove(pending: map<int, Event>, gone: set<int>)
    requires Keyed(pending)
    ensures Keyed(pending - gone) && Waiting(pending) == Waiting(pending - gone) + multiset(Values(pending, gone))
  {
    var kept, dropped := Values(pending - gone, (pending - gone).Keys), Values(pending, gone);
    forall e | e in Values(pending, pending.Keys)
      ensures e in kept + dropped
    {
      var c :| c in pending && pending[c] == e;
      assert c !in gone ==> c in pending - gone && (pending - gone)[c] == e;
    }
    forall e | e in kept
      ensures e !in dropped
    {
      assert e.cookie in pending - gone;
    }
    assert Values(pending, pending.Keys) == kept + dropped;
  }

  // Everything that has come in: delivered, waiting or lost.
  function Account(s: Loop): multiset<Event> {
    multiset(AllHalves(s.delivered)) + Waiting(s.pending) + s.lost
  }

  lemma {:induction false} HalvesLast(ds: seq<Delivery>, d: Delivery)
    ensures AllHalves(ds + [d]) == AllHalves(ds) + Halves(d)
  {
    assert (ds + [d])[..|ds|] == ds;
  }

  // The pending half goes into a pair; the callback may drop others.
  lemma {:induction false} WaitingPaired(pending: map<int, Event>, cookie: int, gone: set<int>)
    requires Keyed(pending) && cookie in pending
    ensures var pending' := pending - gone - {cookie};
      Keyed(pending') && Waiting(pending) == Waiting(pending') + multiset{pending[cookie]} + multiset(Values(pending, gone - {cookie}))
  {
    var half := pending[cookie];
    WaitingRemove(pending, gone + {cookie});
    assert pending - gone - {cookie} == pending - (gone + {cookie});
    var all, some := Values(pending, gone + {cookie}), Values(pending, gone - {cookie});
    assert half !in some;
    assert all == some + {half};
    assert multiset(all) == multiset{half} + multiset(some);
  }

  // A delivery of a pending event, with or without the other half.
  lemma {:induction false} OwnAccounts(s: Loop, d: Delivery, cookie: int, cb: Callbacks)
    requires Keyed(s.pending) && cookie in s.pending && Halves(d) != [] && Halves(d)[0] == s.pending[cookie]
    requires !Deliver(s, d, {cookie}, cb).crashed
    ensures var s' := Deliver(s, d, {cookie}, cb);
      Keyed(s'.pending) && Account(s') == Account(s) + multiset(Halves(d)[1..])
  {
    hide Keyed, Waiting, Values, AllHalves, GivenUp, Halves;
    WaitingPaired(s.pending, cookie, GivenUp(s, d, cb));
    HalvesLast(s.delivered, d);
    FirstAndRest(AllHalves(s.delivered), Halves(d), s.pending[cookie]);
  }

  lemma {:induction false} FirstAndRest(es: seq<Event>, halves: seq<Event>, e: Event)
    requires halves != [] && halves[0] == e
    ensures multiset(es + halves) == multiset(es) + multiset{e} + multiset(halves[1..])
  {
    assert halves == [e] + halves[1..];
  }

  lemma {:induction false} OtherAccounts(s: Loop, d: Delivery, cb: Callbacks)
    requires Keyed(s.pending) && Halves(d) == [] && !Deliver(s, d, {}, cb).crashed
    ensures var s' := Deliver(s, d, {}, cb); Keyed(s'.pending) && Account(s') == Account(s)
  {
    var gone := GivenUp(s, d, cb);
    assert s.pending - gone - {} == s.pending - gone && gone - {} == gone;
    HalvesLast(s.delivered, d);
    WaitingRemove(s.pending, gone);
    hide Keyed, Waiting, Values, AllHalves, GivenUp;
    assert AllHalves(s.delivered) + [] == AllHalves(s.delivered);
  }

  /** A step keeps everything accounted for, unless it crashes. */
  lemma {:induction false} StepAccounts(s: Loop, e: Event, cb: Callbacks)
    requires Keyed(s.pending) && !Step(s, e, cb).crashed
    ensures var s' := Step(s, e, cb);
      !s.crashed && Keyed(s'.pending) && Account(s') == Account(s) + if IsMove(e) then multiset{e} else multiset{}
  {
    hide Keyed, Waiting, Values, AllHalves, Deliver;
    if IsMove(e) {
      if e.cookie in s.pending {
        OwnAccounts(s, Moved(s.pending[e.cookie], e), e.cookie, cb);
        assert multiset([e]) == multiset{e};
      } else {
        WaitingInsert(s.pending, e);
      }
    } else if e.deleted {
      OtherAccounts(s, Deleted(e), cb);
    } else if e.close_write {
      OtherAccounts(s, Written(e), cb);
    }
  }

  lemma {:induction false} ReadAccounts(s: Loop, batch: seq<Event>, cb: Callbacks)
    requires Keyed(s.pending) && !Read(s, batch, cb).crashed
    ensures var s' := Read(s, batch, cb);
      !s.crashed && Keyed(s'.pending) && Account(s') == Account(s) + multiset(Moves(batch))
  {
    hide Keyed, Account;
    if batch != [] {
      var front, e := batch[..|batch| - 1], batch[|batch| - 1];
      StepCrashes(Read(s, front, cb), e, cb);
      hide Step;
      ReadAccounts(s, front, cb);
      StepAccounts(Read(s, front, cb), e, cb);
    }
  }

  lemma {:induction false} StepCrashes(s: Loop, e: Event, cb: Callbacks)
    ensures s.crashed ==> Step(s, e, cb).crashed && FlushOne(s, e, cb).crashed
  {
  }

  lemma {:induction false} FlushAccounts(s: Loop, rest: seq<Event>, cb: Callbacks)
    requires Keyed(s.pending) && !Flush(s, rest, cb).crashed
    ensures var s' := Flush(s, rest, cb);
      !s.crashed && Keyed(s'.pending) && Account(s') == Account(s) &&
      s'.pending.Keys <= s.pending.Keys && forall e :: e in rest ==> e.cookie !in s'.pending
  {
    hide Keyed, Account;
    if rest != [] {
      var front, e := rest[..|rest| - 1], rest[|rest| - 1];
      StepCrashes(Flush(s, front, cb), e, cb);
      FlushAccounts(s, front, cb);
      OwnAccounts(Flush(s, front, cb), Single(e), e.cookie, cb);
      FlushTakes(Flush(s, front, cb), e, cb);
      hide FlushOne, Deliver;
      forall x | x in rest
        ensures x.cookie !in Flush(s, rest, cb).pending
      {
        assert x in front || x == e;
      }
    }
  }

  lemma {:induction false} FlushTakes(s: Loop, e: Event, cb: Callbacks)
    requires !FlushOne(s, e, cb).crashed
    ensures var s' := FlushOne(s, e, cb);
      s'.pending.Keys <= s.pending.Keys - {e.cookie} && s'.delivered == s.delivered + [Single(e)]
  {
  }

  /** Every move event of a batch is delivered once, alone or as a half, unless a callback drops it or the run crashes; and
      nothing else is delivered as a move. */
  lemma {:induction false} TurnConserves(s: Loop, batch: seq<Event>, rest: seq<Event>, cb: Callbacks)
    requires s.pending == map[] && Lists(rest, Read(s, batch, cb).pending) && !Turn(s, batch, rest, cb).crashed
    ensures var s' := Turn(s, batch, rest, cb);
      s'.pending == map[] &&
      multiset(AllHalves(s'.delivered)) + s'.lost == multiset(AllHalves(s.delivered)) + s.lost + multiset(Moves(batch))
  {
    var m := Read(s, batch, cb);
    FlushCrashes(m, rest, cb);
    ReadAccounts(s, batch, cb);
    hide Waiting, AllHalves, Read, Flush, Moves, Lists;
    FlushAccounts(m, rest, cb);
    Drained(m, rest, cb);
    NoneWaiting();
    assert multiset(AllHalves(s.delivered)) + multiset{} + s.lost == multiset(AllHalves(s.delivered)) + s.lost;
  }

  lemma {:induction false} NoneWaiting()
    ensures Waiting(map[]) == multiset{} && Keyed(map[])
  {
  }

  lemma {:induction false} FlushCrashes(s: Loop, rest: seq<Event>, cb: Callbacks)
    ensures s.crashed ==> Flush(s, rest, cb).crashed
  {
    if rest != [] {
      FlushCrashes(s, rest[..|rest| - 1], cb);
    }
  }

  // At the end nothing is left over.
  lemma {:induction false} Drained(m: Loop, rest: seq<Event>, cb: Callbacks)
    requires Keyed(m.pending) && Lists(rest, m.pending) && !Flush(m, rest, cb).crashed
    ensures Flush(m, rest, cb).pending == map[]
  {
    ListsMoves(rest, m.pending);
    FlushAccounts(m, rest, cb);
    forall c | c in m.pending
      ensures c !in Flush(m, rest, cb).pending
    {
      assert m.pending[c] in rest;
    }
  }

  // ---------------------------------------------------------------- pairing

  function OfCookie(es: seq<Event>, cookie: int): seq<Event> {
    if es == [] then []
    else OfCookie(es[..|es| - 1], cookie) + if es[|es| - 1].cookie == cookie then [es[|es| - 1]] else []
  }

  function PairsOf(ds: seq<Delivery>, cookie: int): nat {
    if ds == [] then 0
    else PairsOf(ds[..|ds| - 1], cookie) + if ds[|ds| - 1].Moved? && ds[|ds| - 1].from.cookie == cookie then 1 else 0
  }

  function SinglesOf(ds: seq<Delivery>, cookie: int): nat {
    if ds == [] then 0
    else
      var d := ds[|ds| - 1];
      SinglesOf(ds[..|ds| - 1], cookie) + if (d.MovedAway? || d.MovedHere?) && d.event.cookie == cookie then 1 else 0
  }

  /** No callback gives up a descriptor of this number. */
  ghost predicate Untouched(cb: Callbacks, cookie: int) {
    forall t, ds :: cookie !in Given(t, cb(ds))
  }

  predicate SameCookies(ds: seq<Delivery>) {
    forall i :: 0 <= i < |ds| && ds[i].Moved? ==> ds[i].from.cookie == ds[i].to.cookie
  }

  function Pending(s: Loop, cookie: int): seq<Event> {
    if cookie in s.pending then [s.pending[cookie]] else []
  }

  lemma {:induction false} OfCookieAppend(a: seq<Event>, b: seq<Event>, cookie: int)
    ensures OfCookie(a + b, cookie) == OfCookie(a, cookie) + OfCookie(b, cookie)
  {
    if b == [] {
      assert a + b == a;
    } else {
      var n := |b| - 1;
      assert (a + b)[..|a + b| - 1] == a + b[..n] && (a + b)[|a + b| - 1] == b[n];
      OfCookieAppend(a, b[..n], cookie);
    }
  }

  lemma {:induction false} OfCookieFew(e: Event, e2: Event, cookie: int)
    ensures OfCookie([], cookie) == []
    ensures OfCookie([e], cookie) == if e.cookie == cookie then [e] else []
    ensures OfCookie([e, e2], cookie) == OfCookie([e], cookie) + OfCookie([e2], cookie)
  {
    assert [e, e2] == [e] + [e2] && [e][..0] == [];
    OfCookieAppend([e], [e2], cookie);
  }

  lemma {:induction false} CountsLast(ds: seq<Delivery>, d: Delivery, cookie: int)
    ensures PairsOf(ds + [d], cookie) == PairsOf(ds, cookie) + if d.Moved? && d.from.cookie == cookie then 1 else 0
    ensures SinglesOf(ds + [d], cookie) == SinglesOf(ds, cookie) + if (d.MovedAway? || d.MovedHere?) && d.event.cookie == cookie then 1 else 0
  {
    assert (ds + [d])[..|ds|] == ds;
  }

  // What has come in under a cookie: in order, and in halves that make pairs.
  ghost predicate Tally(s: Loop, s': Loop, es: seq<Event>, cookie: int) {
    && OfCookie(AllHalves(s'.delivered), cookie) + Pending(s', cookie) == OfCookie(AllHalves(s.delivered), cookie) + es
    && (cookie in s'.pending <==> |es| % 2 == 1)
    && PairsOf(s'.delivered, cookie) == PairsOf(s.delivered, cookie) + |es| / 2
    && SinglesOf(s'.delivered, cookie) == SinglesOf(s.delivered, cookie)
  }

  // A delivery that is not about this cookie.
  lemma {:induction false} TallyOther(s: Loop, m: Loop, m': Loop, d: Delivery, es: seq<Event>, cookie: int)
    requires Tally(s, m, es, cookie) && Pending(m', cookie) == Pending(m, cookie) && m'.delivered == m.delivered + [d]
    requires forall e :: e in Halves(d) ==> e.cookie != cookie
    ensures Tally(s, m', es, cookie)
  {
    HalvesLast(m.delivered, d);
    OfCookieAppend(AllHalves(m.delivered), Halves(d), cookie);
    CountsLast(m.delivered, d, cookie);
    OfNone(Halves(d), cookie);
    assert cookie in m.pending <==> Pending(m, cookie) != [];
    assert OfCookie(AllHalves(m.delivered), cookie) + [] == OfCookie(AllHalves(m.delivered), cookie);
    assert (d.MovedAway? || d.MovedHere?) ==> d.event in Halves(d);
    assert d.Moved? ==> d.from in Halves(d);
  }

  lemma {:induction false} OfNone(es: seq<Event>, cookie: int)
    requires forall e :: e in es ==> e.cookie != cookie
    ensures OfCookie(es, cookie) == []
  {
    if es != [] {
      OfNone(es[..|es| - 1], cookie);
    }
  }

  lemma {:induction false} TallyFirst(s: Loop, m: Loop, e: Event, es: seq<Event>, cookie: int)
    requires Tally(s, m, es, cookie) && e.cookie == cookie && cookie !in m.pending
    ensures Tally(s, m.(pending := m.pending[cookie := e]), es + [e], cookie)
  {
    var done := OfCookie(AllHalves(m.delivered), cookie);
    assert done + [] == done;
    assert done + [e] == OfCookie(AllHalves(s.delivered), cookie) + (es + [e]);
  }

  lemma {:induction false} TallySecond(s: Loop, m: Loop, m': Loop, e: Event, es: seq<Event>, cookie: int)
    requires Tally(s, m, es, cookie) && Keyed(m.pending) && e.cookie == cookie && cookie in m.pending && cookie !in m'.pending
    requires m'.delivered == m.delivered + [Moved(m.pending[cookie], e)]
    ensures Tally(s, m', es + [e], cookie)
  {
    var from := m.pending[cookie];
    assert from.cookie == cookie && Pending(m, cookie) == [from] && Pending(m', cookie) == [];
    hide *;
    TallyPair(s, m, m', from, e, es, cookie);
  }

  lemma {:induction false} TallyPair(s: Loop, m: Loop, m': Loop, from: Event, e: Event, es: seq<Event>, cookie: int)
    requires Tally(s, m, es, cookie) && from.cookie == e.cookie == cookie
    requires Pending(m, cookie) == [from] && Pending(m', cookie) == [] && m'.delivered == m.delivered + [Moved(from, e)]
    ensures Tally(s, m', es + [e], cookie)
  {
    PendingSome(m, cookie);
    PendingSome(m', cookie);
    hide OfCookie, AllHalves, PairsOf, SinglesOf, Pending, Halves;
    PairCounts(m.delivered, from, e, cookie);
    PairUp(OfCookie(AllHalves(m.delivered), cookie), OfCookie(AllHalves(s.delivered), cookie), es, from, e);
  }

  lemma {:induction false} PendingSome(s: Loop, cookie: int)
    ensures cookie in s.pending <==> Pending(s, cookie) != []
  {
  }

  lemma {:induction false} PairCounts(ds: seq<Delivery>, from: Event, to: Event, cookie: int)
    requires from.cookie == to.cookie == cookie
    ensures var ds' := ds + [Moved(from, to)];
      OfCookie(AllHalves(ds'), cookie) == OfCookie(AllHalves(ds), cookie) + ([from] + [to]) &&
      PairsOf(ds', cookie) == PairsOf(ds, cookie) + 1 && SinglesOf(ds', cookie) == SinglesOf(ds, cookie)
  {
    var d := Moved(from, to);
    hide OfCookie, AllHalves, PairsOf, SinglesOf;
    HalvesLast(ds, d);
    OfCookieAppend(AllHalves(ds), Halves(d), cookie);
    OfCookieFew(from, to, cookie);
    OfCookieFew(to, to, cookie);
    CountsLast(ds, d, cookie);
  }

  lemma {:induction false} PairUp(a: seq<Event>, b: seq<Event>, es: seq<Event>, x: Event, y: Event)
    requires a + [x] == b + es
    ensures a + ([x] + [y]) + [] == b + (es + [y])
  {
    assert a + ([x] + [y]) + [] == (a + [x]) + [y];
    assert b + (es + [y]) == (b + es) + [y];
  }

  lemma {:induction false} StepTallies(s: Loop, m: Loop, e: Event, cb: Callbacks, es: seq<Event>, cookie: int)
    requires Tally(s, m, es, cookie) && Keyed(m.pending) && Untouched(cb, cookie) && !Step(m, e, cb).crashed
    ensures Tally(s, Step(m, e, cb), if IsMove(e) && e.cookie == cookie then es + [e] else es, cookie)
  {
    hide Tally;
    var m' := Step(m, e, cb);
    if IsMove(e) && e.cookie == cookie {
      if cookie in m.pending {
        TallySecond(s, m, m', e, es, cookie);
      } else {
        TallyFirst(s, m, e, es, cookie);
      }
    } else if IsMove(e) {
      if e.cookie in m.pending {
        TallyOther(s, m, m', Moved(m.pending[e.cookie], e), es, cookie);
      } else {
        TallySame(s, m, m', es, cookie);
      }
    } else if e.deleted {
      TallyOther(s, m, m', Deleted(e), es, cookie);
    } else if e.close_write {
      TallyOther(s, m, m', Written(e), es, cookie);
    }
  }

  lemma {:induction false} TallySame(s: Loop, m: Loop, m': Loop, es: seq<Event>, cookie: int)
    requires Tally(s, m, es, cookie) && Pending(m', cookie) == Pending(m, cookie) && m'.delivered == m.delivered
    ensures Tally(s, m', es, cookie)
  {
  }

  lemma {:induction false} ReadTallies(s: Loop, batch: seq<Event>, cb: Callbacks, cookie: int)
    requires Keyed(s.pending) && cookie !in s.pending && Untouched(cb, cookie) && !Read(s, batch, cb).crashed
    ensures Tally(s, Read(s, batch, cb), OfCookie(Moves(batch), cookie), cookie)
  {
    hide Tally, Keyed, OfCookie, AllHalves, Untouched;
    if batch == [] {
      OfCookieFew(Event(0, false, false, false, false, 0, ""), Event(0, false, false, false, false, 0, ""), cookie);
      TallyNone(s, cookie);
    } else {
      var front, e := batch[..|batch| - 1], batch[|batch| - 1];
      StepCrashes(Read(s, front, cb), e, cb);
      hide Step;
      ReadTallies(s, front, cb, cookie);
      ReadAccounts(s, front, cb);
      StepTallies(s, Read(s, front, cb), e, cb, OfCookie(Moves(front), cookie), cookie);
      MovesLast(front, e, cookie);
      assert batch == front + [e];
    }
  }

  lemma {:induction false} TallyNone(s: Loop, cookie: int)
    requires cookie !in s.pending
    ensures Tally(s, s, [], cookie)
  {
    assert OfCookie(AllHalves(s.delivered), cookie) + [] == OfCookie(AllHalves(s.delivered), cookie);
  }

  lemma {:induction false} MovesLast(batch: seq<Event>, e: Event, cookie: int)
    ensures OfCookie(Moves(batch + [e]), cookie) ==
      if IsMove(e) && e.cookie == cookie then OfCookie(Moves(batch), cookie) + [e] else OfCookie(Moves(batch), cookie)
  {
    assert (batch + [e])[..|batch|] == batch;
    OfCookieAppend(Moves(batch), [e], cookie);
    OfCookieFew(e, e, cookie);
    assert Moves(batch) + [] == Moves(batch);
    assert OfCookie(Moves(batch), cookie) + [] == OfCookie(Moves(batch), cookie);
  }

  // What is left over under a cookie is delivered alone.
  ghost predicate Settles(m: Loop, m': Loop, cookie: int) {
    && OfCookie(AllHalves(m'.delivered), cookie) + Pending(m', cookie) == OfCookie(AllHalves(m.delivered), cookie) + Pending(m, cookie)
    && SinglesOf(m'.delivered, cookie) + |Pending(m', cookie)| == SinglesOf(m.delivered, cookie) + |Pending(m, cookie)|
    && PairsOf(m'.delivered, cookie) == PairsOf(m.delivered, cookie)
  }

  lemma {:induction false} FlushOneSettles(m: Loop, e: Event, cb: Callbacks, cookie: int)
    requires Keyed(m.pending) && Untouched(cb, cookie) && !FlushOne(m, e, cb).crashed
    ensures Settles(m, FlushOne(m, e, cb), cookie)
  {
    var m' := FlushOne(m, e, cb);
    assert m'.delivered == m.delivered + [Single(e)];
    assert Pending(m', cookie) == if e.cookie == cookie then [] else Pending(m, cookie);
    assert e.cookie == cookie ==> Pending(m, cookie) == [e];
    hide *;
    SettlesOne(m, m', e, cookie);
  }

  lemma {:induction false} SettlesOne(m: Loop, m': Loop, e: Event, cookie: int)
    requires m'.delivered == m.delivered + [Single(e)]
    requires Pending(m', cookie) == if e.cookie == cookie then [] else Pending(m, cookie)
    requires e.cookie == cookie ==> Pending(m, cookie) == [e]
    ensures Settles(m, m', cookie)
  {
    hide OfCookie, AllHalves, PairsOf, SinglesOf, Pending;
    HalvesLast(m.delivered, Single(e));
    CountsLast(m.delivered, Single(e), cookie);
    OfCookieAppend(AllHalves(m.delivered), [e], cookie);
    OfCookieFew(e, e, cookie);
    NothingBehind(OfCookie(AllHalves(m.delivered), cookie), [e]);
  }

  lemma {:induction false} NothingBehind(a: seq<Event>, b: seq<Event>)
    ensures a + [] == a && a + b + [] == a + b
  {
  }

  lemma {:induction false} FlushSettles(m: Loop, rest: seq<Event>, cb: Callbacks, cookie: int)
    requires Keyed(m.pending) && Untouched(cb, cookie) && !Flush(m, rest, cb).crashed
    ensures Settles(m, Flush(m, rest, cb), cookie)
  {
    if rest != [] {
      var front, e := rest[..|rest| - 1], rest[|rest| - 1];
      StepCrashes(Flush(m, front, cb), e, cb);
      FlushAccounts(m, front, cb);
      hide FlushOne, Keyed, Untouched;
      FlushSettles(m, front, cb, cookie);
      FlushOneSettles(Flush(m, front, cb), e, cb, cookie);
    }
  }

  /** Under a cookie that no callback touches, the events of a batch are delivered in their order, unless the run crashes:
      those seen k times make k / 2 pairs, and the last one comes alone when k is odd. */
  lemma {:induction false} TurnPairs(s: Loop, batch: seq<Event>, rest: seq<Event>, cb: Callbacks, cookie: int)
    requires s.pending == map[] && Untouched(cb, cookie) && Lists(rest, Read(s, batch, cb).pending)
    requires !Turn(s, batch, rest, cb).crashed
    ensures var s', es := Turn(s, batch, rest, cb), OfCookie(Moves(batch), cookie);
      OfCookie(AllHalves(s'.delivered), cookie) == OfCookie(AllHalves(s.delivered), cookie) + es &&
      PairsOf(s'.delivered, cookie) == PairsOf(s.delivered, cookie) + |es| / 2 &&
      SinglesOf(s'.delivered, cookie) == SinglesOf(s.delivered, cookie) + |es| % 2
  {
    var m := Read(s, batch, cb);
    FlushCrashes(m, rest, cb);
    ReadAccounts(s, batch, cb);
    hide Untouched, OfCookie, AllHalves, Moves, Read, Flush;
    ReadTallies(s, batch, cb, cookie);
    FlushSettles(m, rest, cb, cookie);
    Drained(m, rest, cb);
    var done := OfCookie(AllHalves(Flush(m, rest, cb).delivered), cookie);
    assert done + [] == done;
  }

  /** Both halves of every pair carry the same cookie. */
  lemma {:induction false} TurnMatches(s: Loop, batch: seq<Event>, rest: seq<Event>, cb: Callbacks)
    requires s.pending == map[] && SameCookies(s.delivered)
    ensures SameCookies(Turn(s, batch, rest, cb).delivered)
  {
    ReadMatches(s, batch, cb);
    FlushMatches(Read(s, batch, cb), rest, cb);
  }

  lemma {:induction false} ReadMatches(s: Loop, batch: seq<Event>, cb: Callbacks)
    requires Keyed(s.pending) && SameCookies(s.delivered)
    ensures Keyed(Read(s, batch, cb).pending) && SameCookies(Read(s, batch, cb).delivered)
  {
    if batch != [] {
      var n := |batch| - 1;
      ReadMatches(s, batch[..n], cb);
      hide Deliver;
      StepMatches(Read(s, batch[..n], cb), batch[n], cb);
    }
  }

  lemma {:induction false} StepMatches(s: Loop, e: Event, cb: Callbacks)
    requires Keyed(s.pending) && SameCookies(s.delivered)
    ensures Keyed(Step(s, e, cb).pending) && SameCookies(Step(s, e, cb).delivered)
  {
    hide GivenUp, Values;
  }

  lemma {:induction false} FlushMatches(s: Loop, rest: seq<Event>, cb: Callbacks)
    requires SameCookies(s.delivered)
    ensures SameCookies(Flush(s, rest, cb).delivered)
  {
    if rest != [] {
      FlushMatches(s, rest[..|rest| - 1], cb);
    }
  }
}
