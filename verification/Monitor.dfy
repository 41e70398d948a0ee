/** The file monitor of src/core/monitor_inotify.c: its tables of watched directories and its event buffer. */
module Monitor {
  import opened Watchers
  import opened Events
  import opened EventPlan

  /** What the operating system answers is a parameter: read() gives batches of events, inotify_add_watch descriptors, and
      a callback the actions it takes. */
  class EventLoop {
    var table: map<int, string>
    var table_filename: map<string, int>
    var callbacks: map<int, Callback>
    var buffered_events: map<int, Event>
    var delivered: seq<Delivery>
    var crashed: bool
    ghost var lost: multiset<Event>

    function Watched(): Tables
      reads this
    {
      Tables(table, table_filename, callbacks)
    }

    ghost function State(): Loop
      reads this
    {
      Loop(buffered_events, Watched(), delivered, lost, crashed)
    }

    constructor ()
      ensures State() == Loop(map[], Tables(map[], map[], map[]), [], multiset{}, false) && Inverse(Watched())
    {
      table, table_filename, callbacks := map[], map[], map[];
      buffered_events, delivered, lost, crashed := map[], [], multiset{}, false;
    }

    /** ufa_monitor_add_watcher; `answer` is what inotify_add_watch returns. */
    method AddWatcher(path: string, callback: Callback, answer: int) returns (wd: int)
      modifies this`table, this`table_filename, this`callbacks
      ensures Watched() == Add(old(Watched()), path, callback, answer)
      ensures wd == if path in old(table_filename) then old(table_filename)[path] else answer
    {
      if path in table_filename {
        return table_filename[path];
      }
      wd := answer;
      if wd < 0 {
        return;
      }
      table := table[wd := path];
      callbacks := callbacks[wd := callback];
      table_filename := table_filename[path := wd];
    }

    /** ufa_monitor_remove_watcher: inotify_rm_watch succeeds only for a descriptor that is watched. The event buffer loses
        its entry under the same number. */
    method RemoveWatcher(wd: int, ok: bool) returns (is_ok: bool)
      modifies this`table, this`table_filename, this`callbacks, this`buffered_events
      ensures is_ok <==> ok && wd in old(table)
      ensures Watched() == Act(old(Watched()), Unwatch(wd, ok))
      ensures buffered_events == old(buffered_events) - GivenBy(old(Watched()), Unwatch(wd, ok))
    {
      is_ok := ok && wd in table;
      if is_ok {
        var filename := table[wd];
        table_filename := table_filename - {filename};
        table := table - {wd};
        buffered_events := buffered_events - {wd};
        callbacks := callbacks - {wd};
      }
    }

    // What a callback does.
    method Invoke(actions: seq<Action>)
      modifies this`table, this`table_filename, this`callbacks, this`buffered_events
      ensures Watched() == Acts(old(Watched()), actions)
      ensures buffered_events == old(buffered_events) - Given(old(Watched()), actions)
    {
      assert actions[..0] == [];
      for i := 0 to |actions|
        invariant Watched() == Acts(old(Watched()), actions[..i])
        invariant buffered_events == old(buffered_events) - Given(old(Watched()), actions[..i])
      {
        assert actions[..i + 1][..i] == actions[..i];
        ghost var gone := Given(old(Watched()), actions[..i]);
        match actions[i]
        case Watch(path, callback, answer) =>
          var wd := AddWatcher(path, callback, answer);
          assert Given(old(Watched()), actions[..i + 1]) == gone + {};
        case Unwatch(wd, ok) =>
          var is_ok := RemoveWatcher(wd, ok);
      }
      assert actions[..|actions|] == actions;
    }

    /** process_ufa_event behind the look-up of the directories; the event `own` has in the buffer is not dropped. */
    method Process(d: Delivery, ghost own: set<int>, cb: Callbacks)
      requires !crashed
      modifies this
      ensures var s, s' := old(State()), Deliver(old(State()), d, own, cb);
        if s'.crashed then State() == s' else State() == s'.(pending := s.pending - GivenUp(s, d, cb))
    {
      var here := if d.Moved? then d.from.wd in table && d.to.wd in table else d.event.wd in table;
      if !here {
        crashed := true;
        return;
      }
      ghost var gone := GivenUp(State(), d, cb);
      delivered := delivered + [d];
      lost := lost + multiset(Values(buffered_events, gone - own));
      Invoke(cb(delivered));
    }

    // A move event of a batch.
    method ReadMove(event: Event, cb: Callbacks)
      requires !crashed && IsMove(event)
      modifies this
      ensures State() == Step(old(State()), event, cb)
    {
      if event.cookie !in buffered_events {
        buffered_events := buffered_events[event.cookie := event];
      } else {
        Process(Moved(buffered_events[event.cookie], event), {event.cookie}, cb);
        if !crashed {
          buffered_events := buffered_events - {event.cookie};
        }
      }
    }

    // Another event of a batch.
    method ReadOther(d: Delivery, cb: Callbacks)
      requires !crashed
      modifies this
      ensures State() == Deliver(old(State()), d, {}, cb)
    {
      ghost var gone := GivenUp(State(), d, cb);
      assert buffered_events - gone - {} == buffered_events - gone;
      Process(d, {}, cb);
    }

    // read_inotify_events
    method ReadEvents(batch: seq<Event>, cb: Callbacks)
      modifies this
      ensures State() == Read(old(State()), batch, cb)
    {
      assert batch[..0] == [];
      for i := 0 to |batch|
        invariant State() == Read(old(State()), batch[..i], cb)
      {
        hide Deliver;
        var event := batch[i];
        assert batch[..i + 1][..i] == batch[..i];
        if crashed {
        } else if (event.moved_from || event.moved_to) && event.cookie != 0 {
          ReadMove(event, cb);
        } else if event.deleted {
          ReadOther(Deleted(event), cb);
        } else if event.close_write {
          ReadOther(Written(event), cb);
        }
      }
      assert batch[..|batch|] == batch;
    }

    // The values of the buffer, in the order of its rows.
    method Unpaired() returns (values: seq<Event>)
      ensures Lists(values, buffered_events)
    {
      values := [];
      var rest := Values(buffered_events, buffered_events.Keys);
      while rest != {}
        invariant multiset(values) + multiset(rest) == Waiting(buffered_events)
        decreases |rest|
      {
        var e :| e in rest;
        assert multiset(rest) == multiset(rest - {e}) + multiset{e};
        values, rest := values + [e], rest - {e};
      }
    }

    // One event that is left over; it is taken out of the buffer here, although the code empties the buffer at the end.
    method HandleOne(element: Event, cb: Callbacks)
      requires !crashed && IsMove(element)
      modifies this
      ensures State() == FlushOne(old(State()), element, cb)
    {
      if element.cookie !in buffered_events || buffered_events[element.cookie] != element {
        crashed := true;
      } else {
        if element.moved_from {
          Process(MovedAway(element), {element.cookie}, cb);
        } else if element.moved_to {
          Process(MovedHere(element), {element.cookie}, cb);
        }
        if !crashed {
          buffered_events := buffered_events - {element.cookie};
        }
      }
    }

    method HandleUnpaired(values: seq<Event>, cb: Callbacks)
      requires forall e :: e in values ==> IsMove(e)
      modifies this
      ensures State() == Flush(old(State()), values, cb)
    {
      assert values[..0] == [];
      for i := 0 to |values|
        invariant State() == Flush(old(State()), values[..i], cb)
      {
        hide FlushOne;
        var element := values[i];
        assert element in values && values[..i + 1][..i] == values[..i];
        StepCrashes(State(), element, cb);
        if !crashed {
          HandleOne(element, cb);
        } else {
          CrashedStays(State(), element, cb);
        }
      }
      assert values[..|values|] == values;
    }

    lemma {:induction false} CrashedStays(s: Loop, e: Event, cb: Callbacks)
      requires s.crashed
      ensures FlushOne(s, e, cb) == s
    {
    }

    /** One turn of loop_read_events: a batch, the events that are left over, and an empty buffer. Every move is delivered
        once, in the order the batch asks for, exactly when the turn is quiet. */
    method Turns(batch: seq<Event>, cb: Callbacks) returns (ghost rest: seq<Event>)
      requires buffered_events == map[] && !crashed && SameCookies(delivered)
      modifies this
      ensures buffered_events == map[] && SameCookies(delivered)
      ensures !crashed ==>
        multiset(AllHalves(delivered)) + lost == multiset(AllHalves(old(delivered))) + old(lost) + multiset(Moves(batch))
      ensures Quiet(old(Watched()), old(delivered), PlanOf(batch, rest), cb) <==>
        !crashed && multiset(AllHalves(delivered)) == multiset(AllHalves(old(delivered))) + multiset(Moves(batch))
      ensures Quiet(old(Watched()), old(delivered), PlanOf(batch, rest), cb) ==>
        delivered == old(delivered) + PlanOf(batch, rest).deliveries &&
        Watched() == WatchedAfter(old(Watched()), old(delivered), PlanOf(batch, rest).deliveries, cb)
      ensures !crashed ==> forall cookie :: Untouched(cb, cookie) ==>
        PairsOf(delivered, cookie) == PairsOf(old(delivered), cookie) + |OfCookie(Moves(batch), cookie)| / 2 &&
        SinglesOf(delivered, cookie) == SinglesOf(old(delivered), cookie) + |OfCookie(Moves(batch), cookie)| % 2
    {
      ghost var s := State();
      hide AllHalves, PairsOf, SinglesOf, OfCookie, Moves, Read, Flush, Lists, SameCookies, Untouched, Quiet, PlanOf, WatchedAfter;
      ReadEvents(batch, cb);
      ReadMatches(s, batch, cb);
      var values := Unpaired();
      rest := values;
      ListsMoves(values, buffered_events);
      HandleUnpaired(values, cb);
      buffered_events := map[];
      assert State() == Turn(s, batch, values, cb);
      TurnMatches(s, batch, values, cb);
      TurnExact(s, batch, values, cb);
      if !crashed {
        TurnConserves(s, batch, values, cb);
        forall cookie | Untouched(cb, cookie)
          ensures PairsOf(delivered, cookie) == PairsOf(s.delivered, cookie) + |OfCookie(Moves(batch), cookie)| / 2
          ensures SinglesOf(delivered, cookie) == SinglesOf(s.delivered, cookie) + |OfCookie(Moves(batch), cookie)| % 2
        {
          TurnPairs(s, batch, values, cb, cookie);
        }
      }
    }
  }
}
