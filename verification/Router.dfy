/** The body of the health-check loop, as a legal run of the gateway state machine. */
module Router {
  import opened Lists
  import opened Octets
  import opened RouteTable
  import opened GatewayHealth

  /** The devices that the Remove steps of a run report, in order. */
  function Reported(s: State, events: seq<Event>): seq<string> {
    if events == [] then []
    else
      var init, before := events[..|events| - 1], After(s, events[..|events| - 1]);
      Reported(s, init) +
        if events[|events| - 1].Remove? && before.phase.Judged? && before.phase.offline != []
        then Removed(before.table, before.phase.offline[0]) else []
  }

  /** What the steps taken so far amount to. */
  ghost predicate Taken(c: Timeouts, s: State, events: seq<Event>, t: State, removed: seq<string>, alive: set<string>) {
    && Legal(c, s, events)
    && After(s, events) == t
    && Reported(s, events) == removed
    && (forall id :: id in alive ==> Answers(s, events, id))
    && (forall id :: id !in alive ==> Unanswered(s, events, id))
    && forall e :: e in events ==> !e.Discover?
  }

  /** One more step. */
  lemma {:induction false} Take(c: Timeouts, s: State, events: seq<Event>, t: State, removed: seq<string>,
        alive: set<string>, e: Event)
    requires Taken(c, s, events, t, removed, alive) && Enabled(c, t, e)
    requires !e.Discover?
    requires e.Probe? && t.phase.Probing? && t.phase.rest != [] ==> (t.phase.rest[0] in alive <==> e.answer.Some?)
    ensures var more := if e.Remove? then Removed(t.table, t.phase.offline[0]) else [];
      Taken(c, s, events + [e], Next(t, e), removed + more, alive)
  {
    assert (events + [e])[..|events|] == events;
  }

  class Router {
    const table: RouteTable
    const timeouts: Timeouts
    var clock: int

    constructor (table: RouteTable, timeouts: Timeouts, clock: int)
      ensures this.table == table && this.timeouts == timeouts && this.clock == clock
    {
      this.table, this.timeouts, this.clock := table, timeouts, clock;
    }

    /** Time passes. */
    method Now() returns (now: int)
      modifies this`clock
      ensures now == clock >= old(clock)
    {
      now :| now >= clock;
      clock := now;
    }

    /**
      One tick, undisturbed. `alive` are the gateways that answer their probe; `removed` are
      the devices passed to the removal callback. The steps form a legal run of the machine.
     */
    method Tick(alive: set<string>, ghost s: State) returns (removed: seq<string>, ghost events: seq<Event>)
      requires table.Valid() && s.table == table.View() && s.phase.Idle? && s.clock == clock
      modifies this, table, table.Owned()
      ensures table.Valid() && table.Owned() <= old(table.Owned())
      ensures var t := After(s, events);
        && Legal(timeouts, s, events)
        && t.table == table.View() && t.phase.Idle? && t.clock == clock && t.previous == s.tick
        && removed == Reported(s, events)
        && (forall id :: id in alive ==> Answers(s, events, id))
        && (forall id :: id !in alive ==> Unanswered(s, events, id))
        && (forall id :: id !in alive && id in t.table.gateways ==>
              && id in s.table.gateways
              && t.table.gateways[id].lastHeartbeat == s.table.gateways[id].lastHeartbeat)
    {
      hide Enabled, Next, Taken, Reported, After, Legal, Answers, Unanswered;
      var maintenance, offline;
      ghost var t;
      maintenance, offline, events, t := FindStale(alive, s);
      events, t := MarkAll(maintenance, offline, alive, s, events, t);
      removed, events, t := RemoveAll(offline, alive, s, events, t);
      var ids := table.Gateways();
      SnapshotStep(s, events, t, removed, alive, ids);
      events, t := events + [Snapshot(ids)], t.(phase := Probing(ids));
      events, t := ProbeAll(ids, alive, s, events, t, removed);
      FinishStep(s, events, t, removed, alive);
      events := events + [Finish];
      TakenMeans(s, events, t.(phase := Idle), removed, alive);
    }

    lemma {:induction false} TakenMeans(s: State, events: seq<Event>, t: State, removed: seq<string>,
          alive: set<string>)
      requires Taken(timeouts, s, events, t, removed, alive)
      ensures Legal(timeouts, s, events) && After(s, events) == t && removed == Reported(s, events)
      ensures forall id :: id in alive ==> Answers(s, events, id)
      ensures forall id :: id !in alive ==> Unanswered(s, events, id)
      ensures forall id :: id !in alive && id in t.table.gateways ==>
        && id in s.table.gateways
        && t.table.gateways[id].lastHeartbeat == s.table.gateways[id].lastHeartbeat
    {
      hide Legal, After, Reported, Answers, Unanswered;
      forall id | id !in alive && id in t.table.gateways
        ensures id in s.table.gateways && t.table.gateways[id].lastHeartbeat == s.table.gateways[id].lastHeartbeat
      {
        SilentKeepsHeartbeat(s, events, id);
      }
    }

    /** The beginning of the tick. */
    method FindStale(alive: set<string>, ghost s: State)
      returns (maintenance: seq<string>, offline: seq<string>, ghost taken: seq<Event>, ghost t: State)
      requires table.Valid() && s.table == table.View() && s.phase.Idle? && s.clock == clock
      modifies this`clock
      ensures table.Valid() && table.View() == s.table
      ensures t == State(s.table, clock, clock, s.tick, Judged(maintenance, offline))
      ensures Taken(timeouts, s, taken, t, [], alive)
    {
      hide Taken, Overdue;
      var now := Now();
      maintenance, offline := table.StaleGateways(timeouts.maintenance, timeouts.offline, now);
      assert table.View() == s.table;
      t := Judging(s, now, maintenance, offline, alive);
      taken := [Judge(now, maintenance, offline)];
    }

    lemma {:induction false} Judging(s: State, now: int, maintenance: seq<string>, offline: seq<string>,
          alive: set<string>) returns (t: State)
      requires s.phase.Idle? && now >= s.clock && Judgement(timeouts, s.table, now, maintenance, offline)
      ensures t == State(s.table, now, now, s.tick, Judged(maintenance, offline))
      ensures Taken(timeouts, s, [Judge(now, maintenance, offline)], t, [], alive)
    {
      var e := Judge(now, maintenance, offline);
      t := Next(s, e);
      Take(timeouts, s, [], s, [], alive, e);
      assert [] + [e] == [e];
    }

    lemma {:induction false} SnapshotStep(s: State, events: seq<Event>, t: State, removed: seq<string>,
          alive: set<string>, ids: seq<string>)
      requires Taken(timeouts, s, events, t, removed, alive)
      requires t.phase == Judged([], []) && IsOrder(ids, t.table.gateways.Keys)
      ensures Taken(timeouts, s, events + [Snapshot(ids)], t.(phase := Probing(ids)), removed, alive)
    {
      hide Taken;
      Take(timeouts, s, events, t, removed, alive, Snapshot(ids));
      assert removed + [] == removed;
    }

    lemma {:induction false} FinishStep(s: State, events: seq<Event>, t: State, removed: seq<string>,
          alive: set<string>)
      requires Taken(timeouts, s, events, t, removed, alive) && t.phase == Probing([])
      ensures Taken(timeouts, s, events + [Finish], t.(phase := Idle), removed, alive)
    {
      hide Taken;
      Take(timeouts, s, events, t, removed, alive, Finish);
      assert removed + [] == removed;
    }

    /** The first loop of the tick. */
    method MarkAll(maintenance: seq<string>, offline: seq<string>, alive: set<string>, ghost s: State,
                   ghost events: seq<Event>, ghost before: State)
      returns (ghost taken: seq<Event>, ghost t: State)
      requires table.Valid() && before.table == table.View() && before.phase == Judged(maintenance, offline)
      requires Taken(timeouts, s, events, before, [], alive)
      modifies table`notices, table.Owned()
      ensures table.Valid()
      ensures t == before.(table := table.View(), phase := Judged([], offline))
      ensures Taken(timeouts, s, taken, t, [], alive)
    {
      hide Taken;
      ghost var none: seq<string> := [];
      t, taken := before, events;
      for i := 0 to |maintenance|
        invariant table.Valid()
        invariant t == before.(table := table.View(), phase := Judged(maintenance[i..], offline))
        invariant Taken(timeouts, s, taken, t, [], alive)
      {
        var known := table.SetGatewayStatus(maintenance[i], MAINTENANCE);
        assert maintenance[i..][1..] == maintenance[i + 1..];
        Take(timeouts, s, taken, t, [], alive, Mark);
        assert none + none == none;
        t, taken := Next(t, Mark), taken + [Mark];
      }
    }

    /** The second loop. */
    method RemoveAll(offline: seq<string>, alive: set<string>, ghost s: State, ghost events: seq<Event>,
          ghost before: State)
      returns (removed: seq<string>, ghost taken: seq<Event>, ghost t: State)
      requires table.Valid() && before.table == table.View() && before.phase == Judged([], offline)
      requires Taken(timeouts, s, events, before, [], alive)
      modifies table`gateways, table`devices
      ensures table.Valid() && table.Owned() <= old(table.Owned())
      ensures t == before.(table := table.View(), phase := Judged([], []))
      ensures Taken(timeouts, s, taken, t, removed, alive)
    {
      hide Taken;
      t, taken, removed := before, events, [];
      for i := 0 to |offline|
        invariant table.Valid() && table.Owned() <= old(table.Owned())
        invariant t == before.(table := table.View(), phase := Judged([], offline[i..]))
        invariant Taken(timeouts, s, taken, t, removed, alive)
      {
        var devices := table.Unregister(offline[i]);
        assert offline[i..][1..] == offline[i + 1..];
        Take(timeouts, s, taken, t, removed, alive, Remove);
        t, taken := Next(t, Remove), taken + [Remove];
        removed := removed + devices;
      }
    }

    /** The third loop. */
    method ProbeAll(ids: seq<string>, alive: set<string>, ghost s: State, ghost events: seq<Event>,
          ghost before: State, ghost removed: seq<string>)
      returns (ghost taken: seq<Event>, ghost t: State)
      requires table.Valid() && before.table == table.View() && before.phase == Probing(ids) && before.clock == clock
      requires Taken(timeouts, s, events, before, removed, alive)
      modifies this`clock, table`notices, table.Owned()
      ensures table.Valid()
      ensures t == before.(table := table.View(), phase := Probing([]), clock := clock)
      ensures Taken(timeouts, s, taken, t, removed, alive)
    {
      hide Taken;
      t, taken := before, events;
      for i := 0 to |ids|
        invariant table.Valid()
        invariant t == before.(table := table.View(), phase := Probing(ids[i..]), clock := clock)
        invariant Taken(timeouts, s, taken, t, removed, alive)
      {
        assert ids[i..][1..] == ids[i + 1..];
        assert removed + [] == removed;
        if ids[i] in alive {
          var now := Now();
          table.UpdateHeartbeat(ids[i], now);
          Take(timeouts, s, taken, t, removed, alive, Probe(Some(now)));
          t, taken := Next(t, Probe(Some(now))), taken + [Probe(Some(now))];
        } else {
          Take(timeouts, s, taken, t, removed, alive, Probe(None));
          t, taken := Next(t, Probe(None)), taken + [Probe(None)];
        }
      }
    }

    /**
      Any number of ticks of the loop. A gateway that answers in none of them keeps its heartbeat, and is gone after the
      first of them that comes later than that heartbeat plus the offline timeout.
     */
    method Ticks(rounds: seq<set<string>>, ghost s: State) returns (ghost t: State, ghost events: seq<Event>)
      requires table.Valid() && s.table == table.View() && s.phase.Idle? && s.clock == clock
      requires 0 <= timeouts.maintenance && 0 <= timeouts.offline && Ok(timeouts, s)
      modifies this, table, table.Owned()
      ensures table.Valid() && t.table == table.View() && t.phase.Idle? && t.clock == clock && Ok(timeouts, t)
      ensures Legal(timeouts, s, events) && t == After(s, events)
      ensures forall id :: NeverIn(rounds, id) && id in t.table.gateways ==>
        && id in s.table.gateways
        && t.table.gateways[id].lastHeartbeat == s.table.gateways[id].lastHeartbeat
        && t.tick <= t.table.gateways[id].lastHeartbeat + timeouts.offline
    {
      hide Enabled, Next, Ok, After, Legal, Answers, Unanswered, Reported;
      t, events := s, [];
      NothingYet(timeouts, s);
      for i := 0 to |rounds|
        invariant table.Valid() && table.Owned() <= old(table.Owned())
        invariant t.table == table.View() && t.phase.Idle? && t.clock == clock && Ok(timeouts, t)
        invariant Legal(timeouts, s, events) && t == After(s, events)
        invariant forall id :: NeverIn(rounds, id) && id in t.table.gateways ==>
          && id in s.table.gateways
          && t.table.gateways[id].lastHeartbeat == s.table.gateways[id].lastHeartbeat
      {
        ghost var more;
        var removed;
        removed, more := Tick(rounds[i], t);
        RunOk(timeouts, t, more);
        RunsInARow(timeouts, s, events, more);
        NotIn(rounds, i);
        events, t := events + more, After(t, more);
      }
      AllRecent(timeouts, t);
    }
  }

  /** The gateway answers in none of these ticks. */
  predicate NeverIn(rounds: seq<set<string>>, id: string) {
    forall i :: 0 <= i < |rounds| ==> id !in rounds[i]
  }

  lemma {:induction false} NotIn(rounds: seq<set<string>>, i: nat)
    requires i < |rounds|
    ensures forall id :: NeverIn(rounds, id) ==> id !in rounds[i]
  {
  }

  lemma {:induction false} NothingYet(c: Timeouts, s: State)
    ensures Legal(c, s, []) && After(s, []) == s
  {
  }

  lemma {:induction false} AllRecent(c: Timeouts, s: State)
    requires Ok(c, s) && s.phase.Idle?
    ensures forall id :: id in s.table.gateways ==> s.tick <= s.table.gateways[id].lastHeartbeat + c.offline
  {
    hide Ok;
    forall id | id in s.table.gateways
      ensures s.tick <= s.table.gateways[id].lastHeartbeat + c.offline
    {
      IdleIsRecent(c, s, id);
    }
  }
}
