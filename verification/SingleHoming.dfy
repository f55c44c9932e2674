/** When the two maps of the route table are inverses of each other, and what happens when they are not. */
module SingleHoming {
  import opened Lists
  import opened Octets
  import opened RouteTable

  /** A device is routed to a gateway exactly if that gateway lists it, and no list has it twice. */
  ghost predicate Mutual(t: Table) {
    && Integrity(t)
    && (forall g, d :: g in t.gateways && d in t.gateways[g].devices ==> d in t.devices && t.devices[d] == g)
    && forall g :: g in t.gateways ==> Distinct(t.gateways[g].devices)
  }

  /** The device is not at home with another gateway. */
  predicate AtHome(t: Table, id: string, device: string) {
    device in t.devices ==> t.devices[device] == id
  }

  /** What an operation must not do for the maps to stay inverses. */
  predicate SingleHomed(t: Table, op: Op) {
    match op
    case Register(id, _, devices, _) =>
      (forall d :: d in devices ==> AtHome(t, id, d)) && (id in t.gateways || Distinct(devices))
    case AddDevice(id, device, _) => AtHome(t, id, device)
    case _ => true
  }

  lemma {:induction false} MergedDistinct(list: seq<string>, extra: seq<string>)
    requires Distinct(list)
    ensures Distinct(Merged(list, extra))
  {
    if extra != [] {
      MergedDistinct(list, extra[..|extra| - 1]);
    }
  }

  lemma {:induction false} AddKeepsIff(t: Table, id: string, device: string, now: int)
    requires Mutual(t)
    ensures Mutual(Added(t, id, device, now)) <==> AtHome(t, id, device)
  {
    hide Integrity;
    var u := Added(t, id, device, now);
    DoKeepsIntegrity(t, AddDevice(id, device, now));
    IntegrityOf(t);
    if !AtHome(t, id, device) {
      var h := t.devices[device];
      assert h in u.gateways && device in u.gateways[h].devices && u.devices[device] == id;
    } else {
      forall h, d | h in u.gateways && d in u.gateways[h].devices
        ensures d in u.devices && u.devices[d] == h
      {
        if d != device && h in t.gateways {
          assert d in t.gateways[h].devices;
        }
      }
    }
  }

  lemma {:induction false} RegisterKnownIff(t: Table, id: string, url: string, devices: seq<string>, now: int)
    requires Mutual(t) && id in t.gateways
    ensures Mutual(Registered(t, id, url, devices, now)) <==> forall d :: d in devices ==> AtHome(t, id, d)
  {
    hide Merged, MergedRoutes, Integrity;
    var u, g := Registered(t, id, url, devices, now), t.gateways[id];
    RegisterKeepsIntegrity(t, id, url, devices, now);
    IntegrityOf(t);
    MergedHas(g.devices, devices);
    MergedRoutesAre(t.devices, g.devices, devices, id);
    MergedDistinct(g.devices, devices);
    if d :| d in devices && !AtHome(t, id, d) {
      var h := t.devices[d];
      assert h in u.gateways && d in u.gateways[h].devices && u.devices[d] == id;
    } else {
      forall h, d | h in u.gateways && d in u.gateways[h].devices
        ensures d in u.devices && u.devices[d] == h
      {
        if h == id && d !in g.devices {
          assert d in devices && AtHome(t, id, d);
        } else {
          assert d in t.gateways[h].devices;
        }
      }
    }
  }

  lemma {:induction false} IntegrityOf(t: Table)
    requires Integrity(t)
    ensures forall d :: d in t.devices ==> t.devices[d] in t.gateways && d in t.gateways[t.devices[d]].devices
  {
  }

  lemma {:induction false} RegisterNewIff(t: Table, id: string, url: string, devices: seq<string>, now: int)
    requires Mutual(t) && id !in t.gateways
    ensures Mutual(Registered(t, id, url, devices, now)) <==>
      (forall d :: d in devices ==> AtHome(t, id, d)) && Distinct(devices)
  {
    hide AllRoutes, Integrity;
    var u := Registered(t, id, url, devices, now);
    RegisterKeepsIntegrity(t, id, url, devices, now);
    IntegrityOf(t);
    AllRoutesAre(t.devices, devices, id);
    if d :| d in devices && !AtHome(t, id, d) {
      var h := t.devices[d];
      assert h in u.gateways && d in u.gateways[h].devices && u.devices[d] == id;
    } else {
      assert u.gateways[id].devices == devices;
      forall h, d | h in u.gateways && d in u.gateways[h].devices
        ensures d in u.devices && u.devices[d] == h
      {
        if h == id {
          assert d in devices;
        } else {
          assert d in t.gateways[h].devices && t.devices[d] == h;
          assert d !in devices by { assert h != id; }
        }
      }
    }
  }

  /** Starting from inverse maps, an operation leaves them inverse if and only if it is single-homed. */
  lemma {:induction false} StaysMutualIff(t: Table, op: Op)
    requires Mutual(t)
    ensures Mutual(Do(t, op)) <==> SingleHomed(t, op)
  {
    match op
    case Register(id, url, devices, now) =>
      hide Registered;
      if id in t.gateways {
        RegisterKnownIff(t, id, url, devices, now);
      } else {
        RegisterNewIff(t, id, url, devices, now);
      }
    case AddDevice(id, device, now) => AddKeepsIff(t, id, device, now);
    case Unregister(id) => DoKeepsIntegrity(t, op);
    case UpdateHeartbeat(id, now) => DoKeepsIntegrity(t, op);
    case SetGatewayStatus(id, status) => DoKeepsIntegrity(t, op);
  }

  /** Over every run of single-homed operations the maps are inverses. */
  lemma {:induction false} RunIsMutual(ops: seq<Op>)
    requires forall i :: 0 <= i < |ops| ==> SingleHomed(Run(EMPTY, ops[..i]), ops[i])
    ensures Mutual(Run(EMPTY, ops))
  {
    hide SingleHomed, Do;
    if ops != [] {
      var init := ops[..|ops| - 1];
      forall i | 0 <= i < |init|
        ensures SingleHomed(Run(EMPTY, init[..i]), init[i])
      {
        assert init[..i] == ops[..i] && init[i] == ops[i];
      }
      RunIsMutual(init);
      StaysMutualIff(Run(EMPTY, init), ops[|ops| - 1]);
    }
  }

  // ---- what Unregister reports -----------------------------------------------------------------

  /** The devices that resolve now and no longer once the gateway is gone. */
  function Lost(t: Table, id: string): set<string> {
    set d | d in t.devices && Lookup(t, d).Some? && Lookup(Unregistered(t, id), d).None?
  }

  /** What Unregister reports, as a set. */
  function Reported(t: Table, id: string): set<string> {
    set d | d in Removed(t, id)
  }

  /** The devices routed to the gateway. */
  function Routed(t: Table, id: string): set<string> {
    set d | d in t.devices && t.devices[d] == id
  }

  lemma {:induction false} LostIs(t: Table, id: string)
    requires Integrity(t)
    ensures forall d :: d in Lost(t, id) <==> d in Removed(t, id) && d in t.devices
  {
  }

  /** Unregister reports exactly the devices that stop resolving if and only if all the gateway lists were routed. */
  lemma {:induction false} ReportIsExactIff(t: Table, id: string)
    requires Integrity(t)
    ensures Reported(t, id) == Lost(t, id) <==> forall d :: d in Removed(t, id) ==> d in t.devices
  {
    LostIs(t, id);
    hide Lost;
    if Reported(t, id) == Lost(t, id) {
      forall d | d in Removed(t, id)
        ensures d in t.devices
      {
        assert d in Reported(t, id);
        assert d in Lost(t, id);
      }
    }
  }

  /** It takes no other gateway's devices down if and only if no listed device is routed elsewhere. */
  lemma {:induction false} NoCollateralIff(t: Table, id: string)
    requires Integrity(t)
    ensures Lost(t, id) == Routed(t, id) <==> forall d :: d in Removed(t, id) ==> AtHome(t, id, d)
  {
    LostIs(t, id);
    hide Lost;
    if Lost(t, id) == Routed(t, id) {
      forall d | d in Removed(t, id) && d in t.devices
        ensures t.devices[d] == id
      {
        assert d in Lost(t, id);
        assert d in Routed(t, id);
      }
    }
  }

  lemma {:induction false} MutualReport(t: Table, id: string)
    requires Mutual(t)
    ensures Reported(t, id) == Lost(t, id) == Routed(t, id)
  {
    ReportIsExactIff(t, id);
    NoCollateralIff(t, id);
  }

  /**
    A device that a second gateway adds and takes away again is stranded: its first gateway
    still lists it, yet it does not resolve, and announcing it there once more does not help.
   */
  lemma {:induction false} SecondHomeStrands(t: Table, g: string, h: string, device: string, now: int, later: int,
        url: string)
    requires Mutual(t) && device in t.devices && t.devices[device] == g && h != g
    ensures var u := Unregistered(Added(t, h, device, now), h);
      && g in u.gateways && device in u.gateways[g].devices
      && Lookup(u, device) == None
      && Lookup(Added(u, g, device, later), device) == None
      && Lookup(Registered(u, g, url, [device], later), device) == None
  {
    var u := Unregistered(Added(t, h, device, now), h);
    assert device !in u.devices;
    MergedRoutesAre(u.devices, u.gateways[g].devices, [device], g);
  }

  // ---- the listing -----------------------------------------------------------------------------

  function CountDevice(entries: seq<Entry>, device: string): nat {
    if entries == [] then 0
    else CountDevice(entries[..|entries| - 1], device) + if entries[|entries| - 1].device == device then 1 else 0
  }

  lemma {:induction false} CountConcat(a: seq<Entry>, b: seq<Entry>, device: string)
    ensures CountDevice(a + b, device) == CountDevice(a, device) + CountDevice(b, device)
  {
    if b == [] {
      assert a + b == a;
    } else {
      assert (a + b)[..|a + b| - 1] == a + b[..|b| - 1];
      CountConcat(a, b[..|b| - 1], device);
    }
  }

  lemma {:induction false} CountInGateway(id: string, g: Gateway, device: string)
    requires Distinct(g.devices)
    ensures CountDevice(EntriesOf(id, g), device) == if device in g.devices then 1 else 0
    decreases |g.devices|
  {
    if g.devices != [] {
      var n := |g.devices| - 1;
      var f := g.(devices := g.devices[..n]);
      assert EntriesOf(id, g)[..n] == EntriesOf(id, f);
      assert g.devices == f.devices + [g.devices[n]];
      CountInGateway(id, f, device);
    }
  }

  lemma {:induction false} MutualListed(t: Table, id: string, device: string)
    requires Mutual(t) && id in t.gateways
    ensures device in t.gateways[id].devices <==> device in t.devices && t.devices[device] == id
    ensures Distinct(t.gateways[id].devices)
  {
  }

  lemma {:induction false} CountInListing(t: Table, order: seq<string>, device: string)
    requires Mutual(t)
    requires Distinct(order) && forall k :: k in order ==> k in t.gateways
    ensures CountDevice(Listing(t.gateways, order), device) ==
      if device in t.devices && t.devices[device] in order then 1 else 0
  {
    hide Mutual, EntriesOf;
    if order != [] {
      var init, id := order[..|order| - 1], order[|order| - 1];
      CountInListing(t, init, device);
      MutualListed(t, id, device);
      CountConcat(Listing(t.gateways, init), EntriesOf(id, t.gateways[id]), device);
      CountInGateway(id, t.gateways[id], device);
      assert order == init + [id];
    }
  }

  lemma {:induction false} ListingEntries(t: Table, order: seq<string>, e: Entry)
    requires forall k :: k in order ==> k in t.gateways
    requires e in Listing(t.gateways, order)
    ensures e.gateway in t.gateways && e.device in t.gateways[e.gateway].devices && e.url == t.gateways[e.gateway].url
  {
    if e !in Listing(t.gateways, order[..|order| - 1]) {
      var id := order[|order| - 1];
      assert e in EntriesOf(id, t.gateways[id]);
    } else {
      ListingEntries(t, order[..|order| - 1], e);
    }
  }

  /**
    With inverse maps, the listing in any order has a device exactly once if it resolves and never
    otherwise, under the same URL.
   */
  lemma {:induction false} ListingAgreesWithLookup(t: Table, order: seq<string>, device: string)
    requires Mutual(t) && IsOrder(order, t.gateways.Keys)
    ensures CountDevice(Listing(t.gateways, order), device) == if Lookup(t, device).Some? then 1 else 0
    ensures forall e :: e in Listing(t.gateways, order) && e.device == device ==> Lookup(t, device) == Some(e.url)
  {
    CountInListing(t, order, device);
    forall e | e in Listing(t.gateways, order) && e.device == device
      ensures Lookup(t, device) == Some(e.url)
    {
      ListingEntries(t, order, e);
    }
  }
}
