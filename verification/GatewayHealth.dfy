/**
  The gateway health check as a state machine: ticks that judge, mark, remove and probe
  gateways one at a time, while discovery may register gateways and devices in between.
 */
module GatewayHealth {
  import opened Lists
  import opened Octets
  import opened RouteTable

  /** Both timeouts in whole seconds. */
  datatype Timeouts = Timeouts(maintenance: int, offline: int)

  /**
    Where the health-check loop stands: between ticks, with lists left to mark and remove, or with
    gateways left to probe.
   */
  datatype Phase = Idle | Judged(maintenance: seq<string>, offline: seq<string>) | Probing(rest: seq<string>)

  /** `tick` and `previous` are the times of the last two ticks, the start of the loop counting as one. */
  datatype State = State(table: Table, clock: int, tick: int, previous: int, phase: Phase)

  datatype Event =
    | Discover(op: Op)
    | Judge(now: int, maintenance: seq<string>, offline: seq<string>)
    | Mark
    | Remove
    | Snapshot(ids: seq<string>)
    | Probe(answer: Option<int>)
    | Finish

  function Initial(start: int): State {
    State(EMPTY, start, start, start, Idle)
  }

  /** The lists are what StaleGateways may return at time now. */
  ghost predicate Judgement(c: Timeouts, t: Table, now: int, maintenance: seq<string>, offline: seq<string>) {
    && (forall id :: id in offline <==> id in Overdue(t, now, c.offline))
    && (forall id :: id in maintenance <==> id in Overdue(t, now, c.maintenance) && id !in Overdue(t, now, c.offline))
    && Distinct(offline)
  }

  function OpTime(op: Op): int {
    match op
    case Register(_, _, _, now) => now
    case AddDevice(_, _, now) => now
    case Unregister(_) => 0
    case UpdateHeartbeat(_, now) => now
    case SetGatewayStatus(_, _) => 0
  }

  ghost predicate Enabled(c: Timeouts, s: State, e: Event) {
    match e
    case Discover(op) => (op.Register? || op.AddDevice?) && OpTime(op) >= s.clock
    case Judge(now, maintenance, offline) =>
      s.phase.Idle? && now >= s.clock && Judgement(c, s.table, now, maintenance, offline)
    case Mark => s.phase.Judged? && s.phase.maintenance != []
    case Remove => s.phase.Judged? && s.phase.maintenance == [] && s.phase.offline != []
    case Snapshot(ids) => s.phase == Judged([], []) && forall id :: id in ids <==> id in s.table.gateways
    case Probe(answer) => s.phase.Probing? && s.phase.rest != [] && (answer.Some? ==> answer.value >= s.clock)
    case Finish => s.phase == Probing([])
  }

  function Next(s: State, e: Event): State {
    match e
    case Discover(op) => s.(table := Do(s.table, op), clock := OpTime(op))
    case Judge(now, maintenance, offline) =>
      s.(clock := now, tick := now, previous := s.tick, phase := Judged(maintenance, offline))
    case Mark =>
      if s.phase.Judged? && s.phase.maintenance != [] then
        s.(table := StatusSet(s.table, s.phase.maintenance[0], MAINTENANCE),
           phase := Judged(s.phase.maintenance[1..], s.phase.offline))
      else s
    case Remove =>
      if s.phase.Judged? && s.phase.offline != [] then
        s.(table := Unregistered(s.table, s.phase.offline[0]),
           phase := Judged(s.phase.maintenance, s.phase.offline[1..]))
      else s
    case Snapshot(ids) => s.(phase := Probing(ids))
    case Probe(answer) =>
      if s.phase.Probing? && s.phase.rest != [] then
        var t := s.(phase := Probing(s.phase.rest[1..]));
        if answer.Some? then t.(table := Beat(s.table, s.phase.rest[0], answer.value), clock := answer.value) else t
      else s
    case Finish => s.(phase := Idle)
  }

  function After(s: State, events: seq<Event>): State {
    if events == [] then s else Next(After(s, events[..|events| - 1]), events[|events| - 1])
  }

  ghost predicate Legal(c: Timeouts, s: State, events: seq<Event>) {
    events == [] ||
    (Legal(c, s, events[..|events| - 1]) && Enabled(c, After(s, events[..|events| - 1]), events[|events| - 1]))
  }

  // ---- the status of a gateway is the age its heartbeat had at the last tick ---------------------

  function StatusFor(c: Timeouts, age: int): string {
    if age > c.maintenance then MAINTENANCE else ONLINE
  }

  predicate GatewayOk(c: Timeouts, s: State, id: string)
    requires id in s.table.gateways
  {
    var g := s.table.gateways[id];
    var age := s.tick - g.lastHeartbeat;
    && g.lastHeartbeat <= s.clock
    && match s.phase
       case Judged(maintenance, offline) =>
         && (id in offline <==> age > c.offline)
         && (id in maintenance ==> c.maintenance < age <= c.offline)
         && s.previous - g.lastHeartbeat <= c.offline
         && (if age > c.offline then g.status == StatusFor(c, s.previous - g.lastHeartbeat)
             else if id in maintenance then
               g.status == StatusFor(c, s.previous - g.lastHeartbeat) || g.status == MAINTENANCE
             else g.status == StatusFor(c, age))
       case _ => age <= c.offline && g.status == StatusFor(c, age)
  }

  ghost predicate Ok(c: Timeouts, s: State) {
    && s.previous <= s.tick <= s.clock
    && (s.phase.Judged? ==>
         && Distinct(s.phase.offline)
         && (forall id :: id in s.phase.offline || id in s.phase.maintenance ==> id in s.table.gateways))
    && forall id :: id in s.table.gateways ==> GatewayOk(c, s, id)
  }

  lemma {:induction false} DiscoverKeeps(t: Table, op: Op)
    requires op.Register? || op.AddDevice?
    ensures var u := Do(t, op);
      && u.gateways.Keys == t.gateways.Keys + {op.id}
      && u.notices == t.notices
      && forall id :: id in u.gateways ==>
           if id in t.gateways then
             && u.gateways[id].lastHeartbeat == t.gateways[id].lastHeartbeat
             && u.gateways[id].status == t.gateways[id].status
           else
             u.gateways[id].lastHeartbeat == OpTime(op) && u.gateways[id].status == ONLINE
  {
    hide Merged, MergedRoutes, AllRoutes;
  }

  lemma {:induction false} DiscoverOk(c: Timeouts, s: State, op: Op)
    requires 0 <= c.maintenance && 0 <= c.offline && Ok(c, s) && Enabled(c, s, Discover(op))
    ensures Ok(c, Next(s, Discover(op)))
  {
    DiscoverKeeps(s.table, op);
    var u := Next(s, Discover(op));
    hide Do;
    forall id | id in u.table.gateways
      ensures GatewayOk(c, u, id)
    {
      if id in s.table.gateways {
        assert GatewayOk(c, s, id);
      }
    }
  }

  lemma {:induction false} JudgeOk(c: Timeouts, s: State, e: Event)
    requires 0 <= c.maintenance && 0 <= c.offline && Ok(c, s) && e.Judge? && Enabled(c, s, e)
    ensures Ok(c, Next(s, e))
  {
    var u := Next(s, e);
    forall id | id in u.table.gateways
      ensures GatewayOk(c, u, id)
    {
      assert GatewayOk(c, s, id);
    }
  }

  lemma {:induction false} MarkOk(c: Timeouts, s: State)
    requires 0 <= c.maintenance && 0 <= c.offline && Ok(c, s) && Enabled(c, s, Mark)
    ensures Ok(c, Next(s, Mark))
  {
    var u := Next(s, Mark);
    forall id | id in u.table.gateways
      ensures GatewayOk(c, u, id)
    {
      assert GatewayOk(c, s, id);
      assert id in s.phase.maintenance <==> id == s.phase.maintenance[0] || id in u.phase.maintenance;
    }
  }

  lemma {:induction false} RemoveOk(c: Timeouts, s: State)
    requires 0 <= c.maintenance && 0 <= c.offline && Ok(c, s) && Enabled(c, s, Remove)
    ensures Ok(c, Next(s, Remove))
  {
    var u := Next(s, Remove);
    var list, rest := s.phase.offline, u.phase.offline;
    assert forall i, j :: 0 <= i < j < |rest| ==> rest[i] == list[i + 1] && rest[j] == list[j + 1];
    forall id | id in rest
      ensures id in u.table.gateways
    {
      assert id != list[0];
    }
    forall id | id in u.table.gateways
      ensures GatewayOk(c, u, id)
    {
      assert GatewayOk(c, s, id);
      assert id in list <==> id == list[0] || id in rest;
    }
  }

  lemma {:induction false} ProbeOk(c: Timeouts, s: State, e: Event)
    requires 0 <= c.maintenance && 0 <= c.offline && Ok(c, s) && Enabled(c, s, e)
    requires e.Snapshot? || e.Probe? || e.Finish?
    ensures Ok(c, Next(s, e))
  {
    var u := Next(s, e);
    forall id | id in u.table.gateways
      ensures GatewayOk(c, u, id)
    {
      assert GatewayOk(c, s, id);
    }
  }

  lemma {:induction false} RunOk(c: Timeouts, s: State, events: seq<Event>)
    requires 0 <= c.maintenance && 0 <= c.offline && Ok(c, s) && Legal(c, s, events)
    ensures Ok(c, After(s, events))
  {
    hide Enabled, Next, Ok;
    if events != [] {
      var t, e := After(s, events[..|events| - 1]), events[|events| - 1];
      RunOk(c, s, events[..|events| - 1]);
      match e
      case Discover(op) => DiscoverOk(c, t, op);
      case Judge(_, _, _) => JudgeOk(c, t, e);
      case Mark => MarkOk(c, t);
      case Remove => RemoveOk(c, t);
      case _ => ProbeOk(c, t, e);
    }
  }

  lemma {:induction false} InitialOk(c: Timeouts, start: int)
    ensures Ok(c, Initial(start))
  {
  }

  /** In every reachable state each gateway's status is the one its heartbeat's age calls for. */
  lemma {:induction false} AlwaysOk(c: Timeouts, start: int, events: seq<Event>)
    requires 0 <= c.maintenance && 0 <= c.offline && Legal(c, Initial(start), events)
    ensures Ok(c, After(Initial(start), events))
  {
    hide *;
    InitialOk(c, start);
    RunOk(c, Initial(start), events);
  }

  /** Between ticks no gateway is left that had been silent for longer than the offline timeout at the last tick. */
  lemma {:induction false} SilentGatewaysAreGone(c: Timeouts, start: int, events: seq<Event>, id: string)
    requires 0 <= c.maintenance && 0 <= c.offline && Legal(c, Initial(start), events)
    ensures var s := After(Initial(start), events);
      s.phase.Idle? && id in s.table.gateways ==>
        && s.tick - s.table.gateways[id].lastHeartbeat <= c.offline
        && s.table.gateways[id].status ==
             if s.tick - s.table.gateways[id].lastHeartbeat > c.maintenance then "maintenance" else "online"
  {
    AlwaysOk(c, start, events);
    hide After, Legal;
    var s := After(Initial(start), events);
    if s.phase.Idle? && id in s.table.gateways {
      assert GatewayOk(c, s, id);
    }
  }

  lemma {:induction false} RemovalOk(c: Timeouts, s: State)
    requires Ok(c, s) && Enabled(c, s, Remove)
    ensures var id := s.phase.offline[0];
      && id in s.table.gateways
      && s.tick - s.table.gateways[id].lastHeartbeat > c.offline
      && s.table.gateways[id].status == StatusFor(c, s.previous - s.table.gateways[id].lastHeartbeat)
  {
    assert s.phase.offline[0] in s.phase.offline;
    assert GatewayOk(c, s, s.phase.offline[0]);
  }

  /**
    A gateway is only ever removed for a silence longer than the offline timeout, and its status then
    tells whether the tick before saw it stale.
   */
  lemma {:induction false} RemovedOnlyWhenSilent(c: Timeouts, start: int, events: seq<Event>)
    requires 0 <= c.maintenance && 0 <= c.offline && Legal(c, Initial(start), events)
    requires After(Initial(start), events).phase.Judged? && After(Initial(start), events).phase.offline != []
    requires Enabled(c, After(Initial(start), events), Remove)
    ensures var s := After(Initial(start), events);
      var id := s.phase.offline[0];
      && id in s.table.gateways
      && s.tick - s.table.gateways[id].lastHeartbeat > c.offline
      && s.table.gateways[id].status == StatusFor(c, s.previous - s.table.gateways[id].lastHeartbeat)
  {
    hide *;
    AlwaysOk(c, start, events);
    RemovalOk(c, After(Initial(start), events));
  }

  lemma {:induction false} NothingToMark(c: Timeouts, s: State, id: string)
    requires Ok(c, s) && c.offline <= c.maintenance
    ensures s.phase.Judged? ==> id !in s.phase.maintenance
    ensures id in s.table.gateways ==> s.table.gateways[id].status == ONLINE
  {
    if id in s.table.gateways {
      assert GatewayOk(c, s, id);
    }
  }

  /** If the offline timeout is not the longer one, no gateway is ever put into maintenance. */
  lemma {:induction false} NoMaintenanceAtAll(c: Timeouts, start: int, events: seq<Event>, id: string)
    requires 0 <= c.offline <= c.maintenance && Legal(c, Initial(start), events)
    ensures var s := After(Initial(start), events);
      && (s.phase.Judged? ==> id !in s.phase.maintenance)
      && (id in s.table.gateways ==> s.table.gateways[id].status == ONLINE)
  {
    hide *;
    AlwaysOk(c, start, events);
    NothingToMark(c, After(Initial(start), events), id);
  }

  // ---- maintenance before removal -----------------------------------------------------------------

  /** Consecutive ticks are at most `gap` seconds apart, the first one that far from the start. */
  predicate Paced(s: State, events: seq<Event>, gap: int) {
    events != [] ==>
      var init, e := events[..|events| - 1], events[|events| - 1];
      Paced(s, init, gap) && (e.Judge? ==> e.now - After(s, init).tick <= gap)
  }

  lemma {:induction false} GapBounds(c: Timeouts, s: State, events: seq<Event>, gap: int)
    requires Legal(c, s, events) && Paced(s, events, gap) && s.phase.Idle?
    ensures After(s, events).phase.Judged? ==> After(s, events).tick - After(s, events).previous <= gap
  {
    if events != [] {
      GapBounds(c, s, events[..|events| - 1], gap);
    }
  }

  /** Every gateway that a run with this pace removes is in maintenance when that happens. */
  ghost predicate AlwaysMarkedFirst(c: Timeouts, gap: int) {
    forall start: int, events: seq<Event> ::
      Legal(c, Initial(start), events) && Paced(Initial(start), events, gap)
      && Enabled(c, After(Initial(start), events), Remove)
      ==> RemovalStatus(After(Initial(start), events)) == MAINTENANCE
  }

  /** The status of the gateway about to be removed. */
  function RemovalStatus(s: State): string {
    if s.phase.Judged? && s.phase.offline != [] && s.phase.offline[0] in s.table.gateways
    then s.table.gateways[s.phase.offline[0]].status
    else ""
  }

  lemma {:induction false} MarkedFirst(c: Timeouts, gap: int, start: int, events: seq<Event>)
    requires 0 <= c.maintenance && 0 <= c.offline && gap <= c.offline - c.maintenance
    requires Legal(c, Initial(start), events) && Paced(Initial(start), events, gap)
    requires Enabled(c, After(Initial(start), events), Remove)
    ensures RemovalStatus(After(Initial(start), events)) == MAINTENANCE
  {
    GapBounds(c, Initial(start), events, gap);
    AlwaysOk(c, start, events);
    hide After, Legal, Paced;
    RemovalOk(c, After(Initial(start), events));
  }

  // ---- a run that skips maintenance, for every slower pace -------------------------------------------

  const LONE := Gateway("url", [], 0, ONLINE)

  /** The state with one gateway heard of at time 0 and a last tick at time n. */
  function LoneState(n: nat, previous: int): State {
    State(Table(map["gw" := LONE], map[], []), n, n, previous, Idle)
  }

  lemma {:induction false} AfterSnoc(c: Timeouts, s: State, events: seq<Event>, e: Event, gap: int)
    ensures After(s, events + [e]) == Next(After(s, events), e)
    ensures Legal(c, s, events + [e]) <==> Legal(c, s, events) && Enabled(c, After(s, events), e)
    ensures Paced(s, events + [e], gap) <==>
      Paced(s, events, gap) && (e.Judge? ==> e.now - After(s, events).tick <= gap)
  {
    assert (events + [e])[..|events|] == events;
  }

  /** events lead legally and in pace from the start to state t. */
  ghost predicate Leads(c: Timeouts, gap: int, events: seq<Event>, t: State) {
    Legal(c, Initial(0), events) && Paced(Initial(0), events, gap) && After(Initial(0), events) == t
  }

  lemma {:induction false} LeadsOn(c: Timeouts, gap: int, events: seq<Event>, t: State, e: Event)
    requires Leads(c, gap, events, t) && Enabled(c, t, e) && (e.Judge? ==> e.now - t.tick <= gap)
    ensures Leads(c, gap, events + [e], Next(t, e))
  {
    AfterSnoc(c, Initial(0), events, e, gap);
  }

  lemma {:induction false} QuietTickLeads(c: Timeouts, gap: int, events: seq<Event>, n: nat, previous: int)
    requires gap >= 1 && n < c.maintenance && n < c.offline
    requires Leads(c, gap, events, LoneState(n, previous))
    ensures Leads(c, gap, events + [Judge(n + 1, [], [])] + [Snapshot(["gw"])] + [Probe(None)] + [Finish],
                  LoneState(n + 1, n))
  {
    hide Leads;
    var s0 := LoneState(n, previous);
    var e1, e2, e3 := Judge(n + 1, [], []), Snapshot(["gw"]), Probe(None);
    var s1 := Next(s0, e1);
    var s2 := Next(s1, e2);
    var s3 := Next(s2, e3);
    LeadsOn(c, gap, events, s0, e1);
    LeadsOn(c, gap, events + [e1], s1, e2);
    LeadsOn(c, gap, events + [e1] + [e2], s2, e3);
    assert ["gw"][1..] == [];
    LeadsOn(c, gap, events + [e1] + [e2] + [e3], s3, Finish);
  }

  /** A gateway that answers no probe, for n ticks one second apart. */
  lemma {:induction false} QuietTicks(c: Timeouts, gap: int, n: nat) returns (events: seq<Event>, previous: int)
    requires gap >= 1 && n <= c.maintenance && n <= c.offline
    ensures Leads(c, gap, events, LoneState(n, previous))
  {
    if n == 0 {
      var e := Discover(Register("gw", "url", [], 0));
      LeadsStart(c, gap);
      LeadsOn(c, gap, [], Initial(0), e);
      assert Next(Initial(0), e) == LoneState(0, 0);
      events, previous := [] + [e], 0;
    } else {
      var before, p := QuietTicks(c, gap, n - 1);
      QuietTickLeads(c, gap, before, n - 1, p);
      events, previous := before + [Judge(n, [], [])] + [Snapshot(["gw"])] + [Probe(None)] + [Finish], n - 1;
    }
  }

  lemma {:induction false} LeadsStart(c: Timeouts, gap: int)
    ensures Leads(c, gap, [], Initial(0))
  {
  }

  /**
    If ticks may be further apart than the difference of the timeouts, some run removes a gateway that is
    still online.
   */
  lemma {:induction false} SkippingRun(c: Timeouts, gap: int) returns (events: seq<Event>)
    requires 0 <= c.maintenance && 0 <= c.offline && gap >= 1 && gap > c.offline - c.maintenance
    ensures Legal(c, Initial(0), events) && Paced(Initial(0), events, gap)
    ensures Enabled(c, After(Initial(0), events), Remove)
    ensures RemovalStatus(After(Initial(0), events)) == ONLINE
  {
    var m := if c.maintenance < c.offline then c.maintenance else c.offline;
    var before, previous := QuietTicks(c, gap, m);
    var e := Judge(c.offline + 1, [], ["gw"]);
    var s := LoneState(m, previous);
    LeadsOn(c, gap, before, s, e);
    events := before + [e];
    hide Legal, After, Paced;
    assert Leads(c, gap, events, Next(s, e));
  }

  /** Exactly how slowly the health check may tick so that no gateway disappears without having been in maintenance. */
  lemma {:induction false} AlwaysMarkedFirstIff(c: Timeouts, gap: int)
    requires 0 <= c.maintenance && 0 <= c.offline && gap >= 1
    ensures AlwaysMarkedFirst(c, gap) <==> gap <= c.offline - c.maintenance
  {
    hide RemovalStatus, Enabled, Legal, Paced, After;
    if gap <= c.offline - c.maintenance {
      forall start: int, events: seq<Event> |
        Legal(c, Initial(start), events) && Paced(Initial(start), events, gap)
        && Enabled(c, After(Initial(start), events), Remove)
        ensures RemovalStatus(After(Initial(start), events)) == MAINTENANCE
      {
        MarkedFirst(c, gap, start, events);
      }
    } else {
      var events := SkippingRun(c, gap);
      assert ONLINE[0] != MAINTENANCE[0];
    }
  }

  // ---- a gateway that answers --------------------------------------------------------------------

  /** Every probe of this gateway is answered. */
  predicate Answers(s: State, events: seq<Event>, id: string) {
    events != [] ==>
      var init, e := events[..|events| - 1], events[|events| - 1];
      var phase := After(s, init).phase;
      && Answers(s, init, id)
      && (e.Probe? && phase.Probing? && phase.rest != [] && phase.rest[0] == id ==> e.answer.Some?)
  }

  /**
    The gateway has been heard of since the last tick, or is about to be probed, or was heard of recently
    enough before it.
   */
  predicate Fresh(s: State, id: string, gap: int)
    requires id in s.table.gateways
  {
    var age := s.tick - s.table.gateways[id].lastHeartbeat;
    match s.phase
    case Idle => age <= 0
    case Probing(rest) => age <= gap && (id in rest || age <= 0)
    case Judged(maintenance, offline) => age <= gap && id !in maintenance && id !in offline
  }

  lemma {:induction false} FreshStep(c: Timeouts, s: State, e: Event, id: string, gap: int)
    requires 0 <= gap <= c.maintenance && gap <= c.offline
    requires Ok(c, s) && Enabled(c, s, e)
    requires id in s.table.gateways ==> Fresh(s, id, gap)
    requires e.Judge? ==> e.now - s.tick <= gap
    requires e.Probe? && s.phase.rest[0] == id ==> e.answer.Some?
    ensures id in s.table.gateways ==> id in Next(s, e).table.gateways
    ensures id in Next(s, e).table.gateways ==> Fresh(Next(s, e), id, gap)
  {
    match e
    case Discover(op) =>
      DiscoverKeeps(s.table, op);
      hide Do;
    case Mark =>
      assert s.phase.maintenance[0] in s.phase.maintenance;
    case Remove =>
      assert s.phase.offline[0] in s.phase.offline;
    case Probe(answer) =>
      assert forall x :: x in s.phase.rest <==> x == s.phase.rest[0] || x in s.phase.rest[1..];
    case _ =>
  }

  lemma {:induction false} AlwaysFresh(c: Timeouts, start: int, events: seq<Event>, id: string, gap: int)
    requires 0 <= gap <= c.maintenance && gap <= c.offline
    requires Legal(c, Initial(start), events) && Paced(Initial(start), events, gap)
    requires Answers(Initial(start), events, id)
    ensures id in After(Initial(start), events).table.gateways ==> Fresh(After(Initial(start), events), id, gap)
  {
    hide Enabled, Next, Fresh, Ok;
    if events != [] {
      var init, e := events[..|events| - 1], events[|events| - 1];
      AlwaysFresh(c, start, init, id, gap);
      AlwaysOk(c, start, init);
      if e.Probe? {
        ProbeTarget(c, After(Initial(start), init), e);
      }
      FreshStep(c, After(Initial(start), init), e, id, gap);
    }
  }

  lemma {:induction false} ProbeTarget(c: Timeouts, s: State, e: Event)
    requires Enabled(c, s, e) && e.Probe?
    ensures s.phase.Probing? && s.phase.rest != []
  {
  }

  /** This tick found the gateway silent for too long. */
  predicate FoundStale(s: State, id: string) {
    s.phase.Judged? && (id in s.phase.maintenance || id in s.phase.offline)
  }

  /** A gateway that answers every probe stays registered and online, at this pace. */
  lemma {:induction false} AnsweringStaysOnline(c: Timeouts, start: int, events: seq<Event>, e: Event, id: string,
        gap: int)
    requires 0 <= gap <= c.maintenance && gap <= c.offline
    requires Legal(c, Initial(start), events + [e]) && Paced(Initial(start), events + [e], gap)
    requires Answers(Initial(start), events + [e], id)
    ensures var s, t := After(Initial(start), events), After(Initial(start), events + [e]);
      && (id in s.table.gateways ==> id in t.table.gateways)
      && (id in t.table.gateways ==> t.table.gateways[id].status == ONLINE && !FoundStale(t, id))
  {
    var s, t := After(Initial(start), events), After(Initial(start), events + [e]);
    assert (events + [e])[..|events|] == events;
    AlwaysFresh(c, start, events, id, gap);
    AlwaysFresh(c, start, events + [e], id, gap);
    AlwaysOk(c, start, events);
    AlwaysOk(c, start, events + [e]);
    if e.Probe? {
      ProbeTarget(c, s, e);
    }
    FreshStep(c, s, e, id, gap);
    hide Legal, Paced, Answers, After, Next, Enabled;
    if id in t.table.gateways {
      assert GatewayOk(c, t, id);
    }
  }

  ghost predicate AnsweringNeverStale(c: Timeouts, gap: int) {
    forall start: int, events: seq<Event>, id: string ::
      Legal(c, Initial(start), events) && Paced(Initial(start), events, gap) && Answers(Initial(start), events, id)
      && id in After(Initial(start), events).table.gateways
      ==> !FoundStale(After(Initial(start), events), id)
  }

  /** One registration and one tick that comes `gap` seconds later. */
  lemma {:induction false} LateTickRun(c: Timeouts, gap: int) returns (events: seq<Event>)
    requires 0 <= c.maintenance && 0 <= c.offline && (gap > c.maintenance || gap > c.offline)
    ensures Legal(c, Initial(0), events) && Paced(Initial(0), events, gap) && Answers(Initial(0), events, "gw")
    ensures "gw" in After(Initial(0), events).table.gateways && FoundStale(After(Initial(0), events), "gw")
  {
    var register := Discover(Register("gw", "url", [], 0));
    var judge := if gap > c.offline then Judge(gap, [], ["gw"]) else Judge(gap, ["gw"], []);
    LeadsStart(c, gap);
    LeadsOn(c, gap, [], Initial(0), register);
    assert Next(Initial(0), register) == LoneState(0, 0);
    LeadsOn(c, gap, [] + [register], LoneState(0, 0), judge);
    events := [] + [register] + [judge];
    AnswersUnprobed(register, judge);
  }

  lemma {:induction false} AnswersUnprobed(a: Event, b: Event)
    requires !a.Probe? && !b.Probe?
    ensures Answers(Initial(0), [] + [a] + [b], "gw")
  {
    assert ([] + [a] + [b])[..1] == [a];
    assert [a][..0] == [];
  }

  /** Exactly how slowly the health check may tick without finding an answering gateway stale. */
  lemma {:induction false} AnsweringNeverStaleIff(c: Timeouts, gap: int)
    requires 0 <= c.maintenance && 0 <= c.offline && 0 <= gap
    ensures AnsweringNeverStale(c, gap) <==> gap <= c.maintenance && gap <= c.offline
  {
    hide FoundStale, Legal, Paced, After, Answers;
    if gap <= c.maintenance && gap <= c.offline {
      forall start: int, events: seq<Event>, id: string |
        Legal(c, Initial(start), events) && Paced(Initial(start), events, gap) && Answers(Initial(start), events, id)
        && id in After(Initial(start), events).table.gateways
        ensures !FoundStale(After(Initial(start), events), id)
      {
        AlwaysFresh(c, start, events, id, gap);
        FreshNotStale(After(Initial(start), events), id, gap);
      }
    } else {
      var events := LateTickRun(c, gap);
    }
  }

  lemma {:induction false} FreshNotStale(s: State, id: string, gap: int)
    requires id in s.table.gateways && Fresh(s, id, gap)
    ensures !FoundStale(s, id)
  {
  }

  // ---- a gateway that does not answer ------------------------------------------------------------

  /** No probe of this gateway is answered. */
  predicate Unanswered(s: State, events: seq<Event>, id: string) {
    events != [] ==>
      var init, e := events[..|events| - 1], events[|events| - 1];
      var phase := After(s, init).phase;
      && Unanswered(s, init, id)
      && (e.Probe? && phase.Probing? && phase.rest != [] && phase.rest[0] == id ==> e.answer.None?)
  }

  /** Discovery does not come across this gateway. */
  predicate Undiscovered(events: seq<Event>, id: string) {
    forall e :: e in events && e.Discover? ==> (e.op.Register? || e.op.AddDevice?) && e.op.id != id
  }

  lemma {:induction false} SilentStep(s: State, e: Event, id: string)
    requires e.Discover? ==> (e.op.Register? || e.op.AddDevice?) && e.op.id != id
    requires e.Probe? && s.phase.Probing? && s.phase.rest != [] && s.phase.rest[0] == id ==> e.answer.None?
    ensures id in Next(s, e).table.gateways ==>
      id in s.table.gateways && Next(s, e).table.gateways[id].lastHeartbeat == s.table.gateways[id].lastHeartbeat
  {
    if e.Discover? {
      DiscoverKeeps(s.table, e.op);
    }
  }

  /** Such a gateway keeps its heartbeat as long as it is registered, and once removed it does not come back. */
  lemma {:induction false} SilentKeepsHeartbeat(s: State, events: seq<Event>, id: string)
    requires Unanswered(s, events, id) && Undiscovered(events, id)
    ensures var t := After(s, events);
      id in t.table.gateways ==>
        id in s.table.gateways && t.table.gateways[id].lastHeartbeat == s.table.gateways[id].lastHeartbeat
  {
    hide Next;
    if events != [] {
      var init, e := events[..|events| - 1], events[|events| - 1];
      assert e in events && forall x :: x in init ==> x in events;
      SilentKeepsHeartbeat(s, init, id);
      SilentStep(After(s, init), e, id);
    }
  }

  lemma {:induction false} IdleIsRecent(c: Timeouts, s: State, id: string)
    requires Ok(c, s) && s.phase.Idle? && id in s.table.gateways
    ensures s.tick - s.table.gateways[id].lastHeartbeat <= c.offline
  {
    assert GatewayOk(c, s, id);
  }

  /**
    A gateway that is never heard of again, neither by a probe nor by discovery, is gone after the first tick later than
    its last heartbeat plus the offline timeout, and stays away.
   */
  lemma {:induction false} DeadIsGone(c: Timeouts, s: State, events: seq<Event>, id: string)
    requires 0 <= c.maintenance && 0 <= c.offline && Ok(c, s) && Legal(c, s, events)
    requires Unanswered(s, events, id) && Undiscovered(events, id) && id in s.table.gateways
    requires var t := After(s, events); t.phase.Idle? && t.tick > s.table.gateways[id].lastHeartbeat + c.offline
    ensures id !in After(s, events).table.gateways
  {
    hide *;
    RunOk(c, s, events);
    SilentKeepsHeartbeat(s, events, id);
    if id in After(s, events).table.gateways {
      IdleIsRecent(c, After(s, events), id);
    }
  }

  /** Runs one after the other. */
  lemma {:induction false} RunsInARow(c: Timeouts, s: State, a: seq<Event>, b: seq<Event>)
    ensures After(s, a + b) == After(After(s, a), b)
    ensures Legal(c, s, a) && Legal(c, After(s, a), b) ==> Legal(c, s, a + b)
  {
    hide Next, Enabled;
    if b == [] {
      assert a + b == a;
    } else {
      assert (a + b)[..|a + b| - 1] == a + b[..|b| - 1];
      RunsInARow(c, s, a, b[..|b| - 1]);
    }
  }

  // ---- notifications ----------------------------------------------------------------------------

  /** The notices about one gateway. */
  function About(notices: seq<Notice>, id: string): seq<Notice> {
    if notices == [] then []
    else
      var n := notices[|notices| - 1];
      About(notices[..|notices| - 1], id) + if n.gateway == id then [n] else []
  }

  /** The notices lead from one status to another, each one a real change from where the one before left off. */
  predicate Chain(from: string, notices: seq<Notice>, to: string) {
    if notices == [] then from == to
    else
      var n := notices[|notices| - 1];
      n.after == to && n.before != n.after && Chain(from, notices[..|notices| - 1], n.before)
  }

  lemma {:induction false} AboutConcat(a: seq<Notice>, b: seq<Notice>, id: string)
    ensures About(a + b, id) == About(a, id) + About(b, id)
  {
    if b == [] {
      assert a + b == a;
    } else {
      assert (a + b)[..|a + b| - 1] == a + b[..|b| - 1];
      AboutConcat(a, b[..|b| - 1], id);
    }
  }

  /** What one operation adds to the notices, and what that means for a gateway it does not remove. */
  lemma {:induction false} DoNotices(t: Table, op: Op, id: string) returns (more: seq<Notice>)
    requires id in t.gateways && op != Unregister(id)
    ensures id in Do(t, op).gateways && Do(t, op).notices == t.notices + more
    ensures var a, b := t.gateways[id].status, Do(t, op).gateways[id].status;
      About(more, id) == if a == b then [] else [Notice(id, a, b)]
  {
    var u := Do(t, op);
    if op.Register? || op.AddDevice? {
      DiscoverKeeps(t, op);
      more := [];
    } else {
      more := u.notices[|t.notices|..];
      if more != [] {
        assert |more| == 1 && more[..0] == [];
        assert About(more, id) == About([], id) + if more[0].gateway == id then more else [];
      }
    }
  }

  lemma {:induction false} RunLast(t: Table, ops: seq<Op>)
    ensures Run(t, ops) == if ops == [] then t else Do(Run(t, ops[..|ops| - 1]), ops[|ops| - 1])
  {
    hide Do;
  }

  lemma {:induction false} ChainNone(status: string, id: string)
    ensures Chain(status, About([], id), status)
  {
  }

  /**
    Over every run of operations in which a gateway is not unregistered, its notices form a
    chain from its status at the beginning to its status at the end. A life begins online.
   */
  lemma {:induction false} NoticesChain(t: Table, ops: seq<Op>, id: string) returns (more: seq<Notice>)
    requires id in t.gateways && Unregister(id) !in ops
    ensures id in Run(t, ops).gateways && Run(t, ops).notices == t.notices + more
    ensures Chain(t.gateways[id].status, About(more, id), Run(t, ops).gateways[id].status)
  {
    RunLast(t, ops);
    hide *;
    if ops == [] {
      more := [];
      assert t.notices + more == t.notices;
      ChainNone(t.gateways[id].status, id);
    } else {
      var init, op := ops[..|ops| - 1], ops[|ops| - 1];
      assert op in ops && forall o :: o in init ==> o in ops;
      var before := NoticesChain(t, init, id);
      var last := DoNotices(Run(t, init), op, id);
      more := before + last;
      assert t.notices + before + last == t.notices + more;
      AboutConcat(before, last, id);
      ChainExtends(t.gateways[id].status, About(before, id), Run(t, init).gateways[id].status, About(last, id),
                   Run(t, ops).gateways[id].status, id);
    }
  }

  lemma {:induction false} ChainExtends(from: string, notices: seq<Notice>, mid: string, more: seq<Notice>,
        to: string, id: string)
    requires Chain(from, notices, mid) && more == if mid == to then [] else [Notice(id, mid, to)]
    ensures Chain(from, notices + more, to)
  {
    if mid != to {
      assert (notices + more)[..|notices|] == notices;
    } else {
      assert notices + more == notices;
    }
  }

  lemma {:induction false} RunConcat(t: Table, a: seq<Op>, b: seq<Op>)
    ensures Run(t, a + b) == Run(Run(t, a), b)
  {
    hide Do;
    if b == [] {
      assert a + b == a;
    } else {
      assert (a + b)[..|a + b| - 1] == a + b[..|b| - 1];
      RunConcat(t, a, b[..|b| - 1]);
    }
  }

  /** Which operations bring a gateway into the table, and with which status. */
  lemma {:induction false} DoGateways(t: Table, op: Op, id: string)
    ensures id in t.gateways ==> (id in Do(t, op).gateways <==> op != Unregister(id))
    ensures id !in t.gateways && id in Do(t, op).gateways ==> Do(t, op).gateways[id].status == ONLINE
  {
    if op.Register? || op.AddDevice? {
      DiscoverKeeps(t, op);
    }
  }

  /** The operation after which a gateway has been registered without interruption. */
  lemma {:induction false} LifeBegins(ops: seq<Op>, id: string) returns (k: nat)
    requires id in Run(EMPTY, ops).gateways
    ensures k < |ops| && id !in Run(EMPTY, ops[..k]).gateways
    ensures var born := Run(EMPTY, ops[..k + 1]); id in born.gateways && born.gateways[id].status == ONLINE
    ensures Unregister(id) !in ops[k + 1..]
  {
    hide Do;
    assert ops != [];
    var n := |ops| - 1;
    var init, op := ops[..n], ops[n];
    DoGateways(Run(EMPTY, init), op, id);
    if id in Run(EMPTY, init).gateways {
      k := LifeBegins(init, id);
      assert init[..k] == ops[..k] && init[..k + 1] == ops[..k + 1];
      assert ops[k + 1..] == init[k + 1..] + [op];
    } else {
      k := n;
      assert ops[..n + 1] == ops;
    }
  }

  /**
    Over every run from the empty table: the notices that a registered gateway's present life has given form a chain
    from `ONLINE`, which it was created with, to its present status.
   */
  lemma {:induction false} LifeIsChain(ops: seq<Op>, id: string) returns (k: nat, more: seq<Notice>)
    requires id in Run(EMPTY, ops).gateways
    ensures k < |ops| && id !in Run(EMPTY, ops[..k]).gateways && id in Run(EMPTY, ops[..k + 1]).gateways
    ensures Run(EMPTY, ops).notices == Run(EMPTY, ops[..k + 1]).notices + more
    ensures Chain(ONLINE, About(more, id), Run(EMPTY, ops).gateways[id].status)
  {
    hide *;
    k := LifeBegins(ops, id);
    more := NoticesChain(Run(EMPTY, ops[..k + 1]), ops[k + 1..], id);
    RunConcat(EMPTY, ops[..k + 1], ops[k + 1..]);
    assert ops[..k + 1] + ops[k + 1..] == ops;
  }

  /** The table operation that an event performs in a state, if any. */
  function OpsOf(s: State, e: Event): seq<Op> {
    match e
    case Discover(op) => [op]
    case Mark =>
      if s.phase.Judged? && s.phase.maintenance != []
      then [SetGatewayStatus(s.phase.maintenance[0], MAINTENANCE)] else []
    case Remove =>
      if s.phase.Judged? && s.phase.offline != [] then [Unregister(s.phase.offline[0])] else []
    case Probe(answer) =>
      if s.phase.Probing? && s.phase.rest != [] && answer.Some?
      then [UpdateHeartbeat(s.phase.rest[0], answer.value)] else []
    case _ => []
  }

  function AllOps(s: State, events: seq<Event>): seq<Op> {
    if events == [] then []
    else AllOps(s, events[..|events| - 1]) + OpsOf(After(s, events[..|events| - 1]), events[|events| - 1])
  }

  lemma {:induction false} NextTable(s: State, e: Event)
    ensures Next(s, e).table == Run(s.table, OpsOf(s, e))
  {
    hide Registered, Added, Unregistered, Beat, StatusSet;
    var ops := OpsOf(s, e);
    if ops != [] {
      assert ops[..0] == [];
      assert Run(s.table, ops) == Do(Run(s.table, []), ops[0]);
    }
  }

  lemma {:induction false} TableIsRun(s: State, events: seq<Event>)
    ensures After(s, events).table == Run(s.table, AllOps(s, events))
  {
    hide Next, OpsOf, Do;
    if events != [] {
      var init, e := events[..|events| - 1], events[|events| - 1];
      TableIsRun(s, init);
      NextTable(After(s, init), e);
      RunConcat(s.table, AllOps(s, init), OpsOf(After(s, init), e));
    }
  }

  /** The same over the health check with discovery interleaved: every life's notices are a chain that starts online. */
  lemma {:induction false} LifeOnMachine(start: int, events: seq<Event>, id: string)
    returns (k: nat, more: seq<Notice>)
    requires id in After(Initial(start), events).table.gateways
    ensures var ops, t := AllOps(Initial(start), events), After(Initial(start), events).table;
      && k < |ops| && id !in Run(EMPTY, ops[..k]).gateways && id in Run(EMPTY, ops[..k + 1]).gateways
      && t.notices == Run(EMPTY, ops[..k + 1]).notices + more
      && Chain(ONLINE, About(more, id), t.gateways[id].status)
  {
    InitialTable(start);
    hide *;
    TableIsRun(Initial(start), events);
    k, more := LifeIsChain(AllOps(Initial(start), events), id);
  }

  lemma {:induction false} InitialTable(start: int)
    ensures Initial(start).table == EMPTY
  {
  }
}
