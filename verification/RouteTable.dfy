/** The sidecar's route table: two maps that have to agree. */
module RouteTable {
  import opened Lists
  import opened Octets

  const ONLINE := "online"
  const MAINTENANCE := "maintenance"

  /** A gateway's record, as a value. */
  datatype Gateway = Gateway(url: string, devices: seq<string>, lastHeartbeat: int, status: string)

  /** One call of the status callback. */
  datatype Notice = Notice(gateway: string, before: string, after: string)

  datatype Table = Table(gateways: map<string, Gateway>, devices: map<string, string>, notices: seq<Notice>)

  datatype Entry = Entry(device: string, gateway: string, url: string, status: string, lastHeartbeat: int)

  const EMPTY := Table(map[], map[], [])

  // ---- the operations on values ---------------------------------------------------------------

  /** `list` with those of `extra` it does not have yet. */
  function Merged(list: seq<string>, extra: seq<string>): seq<string> {
    if extra == [] then list
    else
      var before, d := Merged(list, extra[..|extra| - 1]), extra[|extra| - 1];
      if d in before then before else before + [d]
  }

  /** Routes to `id` for those of `extra` that are new to the list. */
  function MergedRoutes(routes: map<string, string>, list: seq<string>, extra: seq<string>,
        id: string): map<string, string> {
    if extra == [] then routes
    else
      var init, d := extra[..|extra| - 1], extra[|extra| - 1];
      var before := MergedRoutes(routes, list, init, id);
      if d in Merged(list, init) then before else before[d := id]
  }

  function AllRoutes(routes: map<string, string>, extra: seq<string>, id: string): map<string, string> {
    if extra == [] then routes else AllRoutes(routes, extra[..|extra| - 1], id)[extra[|extra| - 1] := id]
  }

  function Registered(t: Table, id: string, url: string, devices: seq<string>, now: int): Table {
    if id in t.gateways then
      var g := t.gateways[id];
      t.(gateways := t.gateways[id := g.(url := url, devices := Merged(g.devices, devices))],
         devices := MergedRoutes(t.devices, g.devices, devices, id))
    else
      t.(gateways := t.gateways[id := Gateway(url, devices, now, ONLINE)], devices := AllRoutes(t.devices, devices, id))
  }

  function Added(t: Table, id: string, device: string, now: int): Table {
    var g := if id in t.gateways then t.gateways[id] else Gateway("", [], now, ONLINE);
    if device in g.devices then t
    else t.(gateways := t.gateways[id := g.(devices := g.devices + [device])], devices := t.devices[device := id])
  }

  /** Adding to a new gateway is adding to its empty record. */
  lemma {:induction false} AddedFresh(t: Table, id: string, device: string, now: int)
    requires id !in t.gateways
    ensures Added(t.(gateways := t.gateways[id := Gateway("", [], now, ONLINE)]), id, device, now)
      == Added(t, id, device, now)
  {
    var g := Gateway("", [], now, ONLINE);
    var h := g.(devices := g.devices + [device]);
    assert t.gateways[id := g][id := h] == t.gateways[id := h];
  }

  function Without<V>(m: map<string, V>, keys: seq<string>): map<string, V> {
    map k | k in m && k !in keys :: m[k]
  }

  lemma {:induction false} WithoutNone<V>(m: map<string, V>)
    ensures Without(m, []) == m
  {
  }

  lemma {:induction false} WithoutNext<V>(m: map<string, V>, keys: seq<string>, i: nat)
    requires i < |keys|
    ensures Without(m, keys[..i + 1]) == map k | k in Without(m, keys[..i]) && k != keys[i] :: Without(m, keys[..i])[k]
  {
    assert keys[..i + 1] == keys[..i] + [keys[i]];
  }

  function Unregistered(t: Table, id: string): Table {
    if id !in t.gateways then t
    else t.(gateways := Without(t.gateways, [id]), devices := Without(t.devices, t.gateways[id].devices))
  }

  /** The devices Unregister reports. */
  function Removed(t: Table, id: string): seq<string> {
    if id in t.gateways then t.gateways[id].devices else []
  }

  function Beat(t: Table, id: string, now: int): Table {
    if id !in t.gateways then t
    else
      var g := t.gateways[id];
      t.(gateways := t.gateways[id := g.(lastHeartbeat := now, status := ONLINE)],
         notices := t.notices + if g.status != ONLINE then [Notice(id, g.status, ONLINE)] else [])
  }

  function StatusSet(t: Table, id: string, status: string): Table {
    if id !in t.gateways || t.gateways[id].status == status then t
    else
      t.(gateways := t.gateways[id := t.gateways[id].(status := status)],
         notices := t.notices + [Notice(id, t.gateways[id].status, status)])
  }

  function Lookup(t: Table, device: string): Option<string> {
    if device !in t.devices then None
    else if t.devices[device] !in t.gateways then None
    else Some(t.gateways[t.devices[device]].url)
  }

  // ---- the table in place -----------------------------------------------------------------------

  class GatewayMeta {
    var id: string
    var url: string
    var devices: seq<string>
    var lastHeartbeat: int
    var status: string

    constructor (id: string, url: string, devices: seq<string>, lastHeartbeat: int, status: string)
      ensures this.id == id && View() == Gateway(url, devices, lastHeartbeat, status)
    {
      this.id, this.url, this.devices, this.lastHeartbeat, this.status := id, url, devices, lastHeartbeat, status;
    }

    ghost function View(): Gateway
      reads this
    {
      Gateway(url, devices, lastHeartbeat, status)
    }
  }

  method Contains(list: seq<string>, s: string) returns (found: bool)
    ensures found <==> s in list
  {
    for i := 0 to |list|
      invariant s !in list[..i]
    {
      if list[i] == s {
        return true;
      }
    }
    return false;
  }

  class RouteTable {
    var gateways: map<string, GatewayMeta>
    var devices: map<string, string>
    var notices: seq<Notice>  // calls of onStatusChange, oldest first

    constructor ()
      ensures Valid() && View() == EMPTY
    {
      gateways, devices, notices := map[], map[], [];
    }

    ghost function Owned(): set<GatewayMeta>
      reads this`gateways
    {
      set k | k in gateways :: gateways[k]
    }

    /** Every gateway has its own record, filed under its own name. */
    ghost predicate Valid()
      reads this`gateways, Owned()
    {
      && (forall k :: k in gateways ==> gateways[k].id == k)
      && forall j, k :: j in gateways && k in gateways && j != k ==> gateways[j] != gateways[k]
    }

    ghost function Records(): map<string, Gateway>
      reads this`gateways, Owned()
    {
      map k | k in gateways :: gateways[k].View()
    }

    ghost function View(): Table
      reads this, Owned()
    {
      Table(Records(), devices, notices)
    }

    /** Writing to one record or filing a new one changes that entry of the view and no other. */
    twostate lemma OneRecord(id: string)
      requires old(Valid()) && id in gateways && gateways == old(gateways)[id := gateways[id]]
      requires gateways[id].id == id && forall k :: k in gateways && k != id ==> unchanged(gateways[k])
      ensures Valid() && Records() == old(Records())[id := gateways[id].View()]
    {
    }

    method Register(id: string, url: string, newDevices: seq<string>, now: int)
      requires Valid()
      modifies this`gateways, this`devices, Owned()
      ensures Valid() && fresh(Owned() - old(Owned()))
      ensures View() == Registered(old(View()), id, url, newDevices, now)
    {
      hide Merged, MergedRoutes, AllRoutes;
      if id in gateways {
        RegisterKnown(id, url, newDevices);
      } else {
        var meta := new GatewayMeta(id, url, newDevices, now, ONLINE);
        File(meta);
        RouteAll(newDevices, id);
      }
    }

    /** Puts a new gateway's record into the map. */
    method File(meta: GatewayMeta)
      requires Valid() && meta.id !in gateways
      modifies this`gateways
      ensures Valid() && Owned() <= old(Owned()) + {meta}
      ensures gateways == old(gateways)[meta.id := meta]
      ensures Records() == old(Records())[meta.id := meta.View()]
    {
      gateways := gateways[meta.id := meta];
      OneRecord(meta.id);
    }

    /** The loop of Register for a new gateway. */
    method RouteAll(newDevices: seq<string>, id: string)
      modifies this`devices
      ensures devices == AllRoutes(old(devices), newDevices, id)
    {
      for i := 0 to |newDevices|
        invariant devices == AllRoutes(old(devices), newDevices[..i], id)
      {
        devices := devices[newDevices[i] := id];
        assert newDevices[..i + 1][..i] == newDevices[..i];
      }
      assert newDevices[..|newDevices|] == newDevices;
    }

    /** The branch of Register for a gateway that is already there. */
    method RegisterKnown(id: string, url: string, newDevices: seq<string>)
      requires Valid() && id in gateways
      modifies this`devices, gateways[id]
      ensures Valid() && View() == Registered(old(View()), id, url, newDevices, 0)
    {
      hide Merged, MergedRoutes;
      var existing: GatewayMeta := gateways[id];
      existing.url := url;
      MergeDevices(existing, newDevices, id);
      OneRecord(id);
    }

    /** The loop of Register for a known gateway. */
    method MergeDevices(existing: GatewayMeta, newDevices: seq<string>, id: string)
      modifies this`devices, existing`devices
      ensures existing.devices == Merged(old(existing.devices), newDevices)
      ensures devices == MergedRoutes(old(devices), old(existing.devices), newDevices, id)
    {
      ghost var list := existing.devices;
      for i := 0 to |newDevices|
        invariant existing.devices == Merged(list, newDevices[..i])
        invariant devices == MergedRoutes(old(devices), list, newDevices[..i], id)
      {
        assert newDevices[..i + 1][..i] == newDevices[..i];
        var found := Contains(existing.devices, newDevices[i]);
        if !found {
          existing.devices := existing.devices + [newDevices[i]];
          devices := devices[newDevices[i] := id];
        }
      }
      assert newDevices[..|newDevices|] == newDevices;
    }

    method AddDevice(id: string, device: string, now: int)
      requires Valid()
      modifies this`gateways, this`devices, Owned()
      ensures Valid() && fresh(Owned() - old(Owned()))
      ensures View() == Added(old(View()), id, device, now)
    {
      hide Added;
      if id !in gateways {
        AddedFresh(View(), id, device, now);
        var gw := new GatewayMeta(id, "", [], now, ONLINE);
        File(gw);
      }
      ListDevice(id, device, now);
    }

    /** AddDevice once the gateway is there. */
    method ListDevice(id: string, device: string, ghost now: int)
      requires Valid() && id in gateways
      modifies this`devices, gateways[id]
      ensures Valid() && View() == Added(old(View()), id, device, now)
    {
      var gw: GatewayMeta := gateways[id];
      var found := Contains(gw.devices, device);
      if !found {
        gw.devices := gw.devices + [device];
        devices := devices[device := id];
        OneRecord(id);
      }
    }

    method Unregister(id: string) returns (removed: seq<string>)
      requires Valid()
      modifies this`gateways, this`devices
      ensures Valid() && Owned() <= old(Owned())
      ensures View() == Unregistered(old(View()), id) && removed == Removed(old(View()), id)
    {
      removed := [];
      if id !in gateways {
        return;
      }
      removed := DropRoutes(gateways[id].devices);
      DropRecord(id);
    }

    method DropRecord(id: string)
      requires Valid() && id in gateways
      modifies this`gateways
      ensures Valid() && Owned() <= old(Owned()) && Records() == Without(old(Records()), [id])
    {
      gateways := map k | k in gateways && k != id :: gateways[k];
    }

    /** The loop of Unregister. */
    method DropRoutes(listed: seq<string>) returns (removed: seq<string>)
      modifies this`devices
      ensures devices == Without(old(devices), listed) && removed == listed
    {
      removed := [];
      ghost var routes := devices;
      WithoutNone(devices);
      for i := 0 to |listed|
        invariant removed == listed[..i]
        invariant devices == Without(routes, listed[..i])
      {
        WithoutNext(routes, listed, i);
        devices := map k | k in devices && k != listed[i] :: devices[k];
        removed := removed + [listed[i]];
      }
      assert listed[..|listed|] == listed;
    }

    method LookUp(device: string) returns (url: Option<string>)
      requires Valid()
      ensures url == Lookup(View(), device)
    {
      if device !in devices {
        return None;
      }
      var id := devices[device];
      if id !in gateways {
        return None;
      }
      return Some(gateways[id].url);
    }

    method UpdateHeartbeat(id: string, now: int)
      requires Valid()
      modifies this`notices, Owned()
      ensures Valid() && View() == Beat(old(View()), id, now)
    {
      if id in gateways {
        var gw := gateways[id];
        var before := gw.status;
        gw.lastHeartbeat := now;
        gw.status := ONLINE;
        if before != ONLINE {
          notices := notices + [Notice(id, before, ONLINE)];
        }
        OneRecord(id);
      }
    }

    method SetGatewayStatus(id: string, status: string) returns (known: bool)
      requires Valid()
      modifies this`notices, Owned()
      ensures Valid() && View() == StatusSet(old(View()), id, status)
      ensures known <==> id in gateways
    {
      if id !in gateways {
        return false;
      }
      var gw := gateways[id];
      var before := gw.status;
      if before == status {
        return true;
      }
      gw.status := status;
      notices := notices + [Notice(id, before, status)];
      OneRecord(id);
      return true;
    }

    /** The entries of all gateways, in the map's order. */
    method AllDevices() returns (result: seq<Entry>)
      requires Valid()
      ensures exists order :: IsOrder(order, View().gateways.Keys) && result == Listing(View().gateways, order)
    {
      result := [];
      ghost var order: seq<string> := [];
      ghost var records := Records();
      var rest := gateways.Keys;
      while rest != {}
        invariant rest <= gateways.Keys == records.Keys && IsOrder(order, gateways.Keys - rest)
        invariant result == Listing(records, order)
        decreases rest
      {
        hide Listing, IsOrder;
        var k :| k in rest;
        result := AppendEntries(gateways[k], result);
        VisitNext(order, gateways.Keys, rest, k);
        ListingAppend(records, order, k);
        order, rest := order + [k], rest - {k};
      }
      assert records == View().gateways;
      assert IsOrder(order, records.Keys) && result == Listing(records, order);
    }

    /** The inner loop of AllDevices. */
    method AppendEntries(gw: GatewayMeta, sofar: seq<Entry>) returns (result: seq<Entry>)
      ensures result == sofar + EntriesOf(gw.id, gw.View())
    {
      result := sofar;
      for i := 0 to |gw.devices|
        invariant result == sofar + EntriesOf(gw.id, gw.View())[..i]
      {
        result := result + [Entry(gw.devices[i], gw.id, gw.url, gw.status, gw.lastHeartbeat)];
      }
    }

    /** The names in the copies that Gateways hands out. */
    method Gateways() returns (ids: seq<string>)
      requires Valid()
      ensures IsOrder(ids, View().gateways.Keys)
    {
      ids := [];
      var rest := gateways.Keys;
      while rest != {}
        invariant rest <= gateways.Keys && IsOrder(ids, gateways.Keys - rest)
        decreases rest
      {
        var k :| k in rest;
        VisitNext(ids, gateways.Keys, rest, k);
        ids, rest := ids + [k], rest - {k};
      }
    }

    method StaleGateways(maintenanceTimeout: int, offlineTimeout: int, now: int)
      returns (maintenance: seq<string>, offline: seq<string>)
      requires Valid()
      ensures forall k :: k in offline <==> k in Overdue(View(), now, offlineTimeout)
      ensures forall k :: k in maintenance <==>
        k in Overdue(View(), now, maintenanceTimeout) && k !in Overdue(View(), now, offlineTimeout)
      ensures Distinct(maintenance) && Distinct(offline)
    {
      maintenance, offline := [], [];
      var rest := gateways.Keys;
      while rest != {}
        invariant rest <= gateways.Keys
        invariant forall k :: k in offline <==>
          k !in rest && k in gateways && now - gateways[k].lastHeartbeat > offlineTimeout
        invariant forall k :: k in maintenance <==>
          k !in rest && k in gateways && maintenanceTimeout < now - gateways[k].lastHeartbeat <= offlineTimeout
        invariant Distinct(maintenance) && Distinct(offline)
        decreases rest
      {
        var k :| k in rest;
        var elapsed := now - gateways[k].lastHeartbeat;
        if elapsed > offlineTimeout {
          offline := offline + [k];
        } else if elapsed > maintenanceTimeout {
          maintenance := maintenance + [k];
        }
        rest := rest - {k};
      }
    }
  }

  function EntriesOf(id: string, g: Gateway): seq<Entry> {
    seq(|g.devices|, i requires 0 <= i < |g.devices| => Entry(g.devices[i], id, g.url, g.status, g.lastHeartbeat))
  }

  function Listing(gateways: map<string, Gateway>, order: seq<string>): seq<Entry>
    requires forall k :: k in order ==> k in gateways
  {
    if order == [] then []
    else Listing(gateways, order[..|order| - 1]) + EntriesOf(order[|order| - 1], gateways[order[|order| - 1]])
  }

  lemma {:induction false} ListingAppend(gateways: map<string, Gateway>, order: seq<string>, k: string)
    requires k in gateways && forall x :: x in order ==> x in gateways
    ensures Listing(gateways, order + [k]) == Listing(gateways, order) + EntriesOf(k, gateways[k])
  {
    assert (order + [k])[..|order|] == order;
  }

  /** The gateways whose last heartbeat is more than `limit` seconds old. */
  function Overdue(t: Table, now: int, limit: int): set<string> {
    set k | k in t.gateways && now - t.gateways[k].lastHeartbeat > limit
  }

  // ---- referential integrity ------------------------------------------------------------------

  /** Every route leads to a registered gateway that lists the device. */
  ghost predicate Integrity(t: Table) {
    forall d :: d in t.devices ==> t.devices[d] in t.gateways && d in t.gateways[t.devices[d]].devices
  }

  datatype Op =
    | Register(id: string, url: string, devices: seq<string>, now: int)
    | AddDevice(id: string, device: string, now: int)
    | Unregister(id: string)
    | UpdateHeartbeat(id: string, now: int)
    | SetGatewayStatus(id: string, status: string)

  function Do(t: Table, op: Op): Table {
    match op
    case Register(id, url, devices, now) => Registered(t, id, url, devices, now)
    case AddDevice(id, device, now) => Added(t, id, device, now)
    case Unregister(id) => Unregistered(t, id)
    case UpdateHeartbeat(id, now) => Beat(t, id, now)
    case SetGatewayStatus(id, status) => StatusSet(t, id, status)
  }

  function Run(t: Table, ops: seq<Op>): Table {
    if ops == [] then t else Do(Run(t, ops[..|ops| - 1]), ops[|ops| - 1])
  }

  lemma {:induction false} MergedHas(list: seq<string>, extra: seq<string>)
    ensures forall d :: d in Merged(list, extra) <==> d in list || d in extra
  {
    if extra != [] {
      MergedHas(list, extra[..|extra| - 1]);
      assert extra == extra[..|extra| - 1] + [extra[|extra| - 1]];
    }
  }

  lemma {:induction false} MergedRoutesAre(routes: map<string, string>, list: seq<string>, extra: seq<string>,
        id: string)
    ensures var r := MergedRoutes(routes, list, extra, id);
      forall d :: (d in r <==> d in routes || (d in extra && d !in list)) &&
        (d in r ==> r[d] == if d in extra && d !in list then id else routes[d])
  {
    if extra != [] {
      var init, d := extra[..|extra| - 1], extra[|extra| - 1];
      MergedRoutesAre(routes, list, init, id);
      MergedHas(list, init);
      assert extra == init + [d];
    }
  }

  lemma {:induction false} AllRoutesAre(routes: map<string, string>, extra: seq<string>, id: string)
    ensures var r := AllRoutes(routes, extra, id);
      forall d :: (d in r <==> d in routes || d in extra) && (d in r ==> r[d] == if d in extra then id else routes[d])
  {
    if extra != [] {
      AllRoutesAre(routes, extra[..|extra| - 1], id);
      assert extra == extra[..|extra| - 1] + [extra[|extra| - 1]];
    }
  }

  lemma {:induction false} RegisterKeepsIntegrity(t: Table, id: string, url: string, devices: seq<string>, now: int)
    requires Integrity(t)
    ensures Integrity(Registered(t, id, url, devices, now))
  {
    hide Merged, MergedRoutes, AllRoutes;
    var u := Registered(t, id, url, devices, now);
    if id in t.gateways {
      MergedHas(t.gateways[id].devices, devices);
      MergedRoutesAre(t.devices, t.gateways[id].devices, devices, id);
    } else {
      AllRoutesAre(t.devices, devices, id);
    }
    forall d | d in u.devices
      ensures u.devices[d] in u.gateways && d in u.gateways[u.devices[d]].devices
    {
      if u.devices[d] != id {
        assert d in t.devices && t.devices[d] == u.devices[d];
      }
    }
  }

  lemma {:induction false} DoKeepsIntegrity(t: Table, op: Op)
    requires Integrity(t)
    ensures Integrity(Do(t, op))
  {
    hide Registered;
    if op.Register? {
      RegisterKeepsIntegrity(t, op.id, op.url, op.devices, op.now);
    }
  }

  /** In every reachable state all routes resolve. */
  lemma {:induction false} RunKeepsIntegrity(ops: seq<Op>)
    ensures Integrity(Run(EMPTY, ops))
  {
    hide Do;
    if ops != [] {
      RunKeepsIntegrity(ops[..|ops| - 1]);
      DoKeepsIntegrity(Run(EMPTY, ops[..|ops| - 1]), ops[|ops| - 1]);
    }
  }

  /** So the second branch of Lookup is never taken, and after Unregister nothing leads to the gateway. */
  lemma {:induction false} LookupNeverDangles(ops: seq<Op>, device: string, id: string)
    ensures var t := Run(EMPTY, ops);
      && (Lookup(t, device).Some? <==> device in t.devices)
      && (device in Unregistered(t, id).devices ==> Unregistered(t, id).devices[device] != id)
  {
    hide Run;
    RunKeepsIntegrity(ops);
  }

  // ---- what the operations leave alone ---------------------------------------------------------

  /** No operation touches another gateway's record. */
  lemma {:induction false} OthersUntouched(t: Table, op: Op, id: string)
    requires id != op.id
    ensures id in Do(t, op).gateways <==> id in t.gateways
    ensures id in t.gateways ==> Do(t, op).gateways[id] == t.gateways[id]
  {
    hide Merged, MergedRoutes, AllRoutes;
  }

  /** What becomes of the gateway itself, field by field. */
  lemma {:induction false} OwnRecord(t: Table, op: Op)
    ensures var u := Do(t, op);
      match op
      case Register(id, url, devices, now) =>
        && id in u.gateways && u.gateways[id].url == url
        && (forall d :: d in devices ==> d in u.gateways[id].devices)
        && (id in t.gateways ==>
              && t.gateways[id].devices <= u.gateways[id].devices
              && u.gateways[id].lastHeartbeat == t.gateways[id].lastHeartbeat
              && u.gateways[id].status == t.gateways[id].status)
        && (id !in t.gateways ==> u.gateways[id] == Gateway(url, devices, now, "online"))
      case AddDevice(id, device, now) =>
        && id in u.gateways && device in u.gateways[id].devices
        && (id in t.gateways ==>
              && t.gateways[id].devices <= u.gateways[id].devices
              && u.gateways[id].(devices := []) == t.gateways[id].(devices := []))
        && (id !in t.gateways ==> u.gateways[id] == Gateway("", [device], now, "online"))
      case Unregister(id) => id !in u.gateways
      case UpdateHeartbeat(id, now) =>
        id in t.gateways ==>
          id in u.gateways && u.gateways[id] == t.gateways[id].(lastHeartbeat := now, status := "online")
      case SetGatewayStatus(id, status) =>
        id in t.gateways ==> id in u.gateways && u.gateways[id] == t.gateways[id].(status := status)
  {
    hide Merged, MergedRoutes, AllRoutes;
    if op.Register? && op.id in t.gateways {
      MergedHas(t.gateways[op.id].devices, op.devices);
      assert op.devices[..0] == [];
      MergedGrows(t.gateways[op.id].devices, op.devices, 0);
      MergedNone(t.gateways[op.id].devices);
    }
  }

  lemma {:induction false} MergedNone(list: seq<string>)
    ensures Merged(list, []) == list
  {
  }

  /** The list keeps its order, and new devices come behind it in the order in which they are announced. */
  lemma {:induction false} MergedGrows(list: seq<string>, extra: seq<string>, i: nat)
    requires i <= |extra|
    ensures Merged(list, extra[..i]) <= Merged(list, extra)
    decreases |extra|
  {
    if i < |extra| {
      MergedGrows(list, extra[..|extra| - 1], i);
      assert extra[..|extra| - 1][..i] == extra[..i];
    } else {
      assert extra[..i] == extra;
    }
  }

  /** After Register every device routed to the gateway is found under the URL announced, old or new. */
  lemma {:induction false} RegisteredUrl(t: Table, id: string, url: string, devices: seq<string>, now: int, d: string)
    ensures var u := Registered(t, id, url, devices, now);
      d in u.devices && u.devices[d] == id ==> Lookup(u, d) == Some(url)
    ensures d in t.devices && t.devices[d] == id ==> Lookup(Registered(t, id, url, devices, now), d) == Some(url)
    ensures id !in t.gateways && d in devices ==> Lookup(Registered(t, id, url, devices, now), d) == Some(url)
  {
    hide Merged, MergedRoutes, AllRoutes;
    if id in t.gateways {
      MergedRoutesAre(t.devices, t.gateways[id].devices, devices, id);
    } else {
      AllRoutesAre(t.devices, devices, id);
    }
  }

  /** The listing has exactly the listed devices of the gateways, each with its gateway's URL, status and heartbeat. */
  lemma {:induction false} ListingIff(gateways: map<string, Gateway>, order: seq<string>, e: Entry)
    requires forall k :: k in order ==> k in gateways
    ensures e in Listing(gateways, order) <==>
      && e.gateway in order
      && var g := gateways[e.gateway];
      e.device in g.devices && e.url == g.url && e.status == g.status && e.lastHeartbeat == g.lastHeartbeat
  {
    if order != [] {
      var init, id := order[..|order| - 1], order[|order| - 1];
      assert order == init + [id];
      ListingIff(gateways, init, e);
      EntriesIff(id, gateways[id], e);
      assert e in Listing(gateways, order) <==> e in Listing(gateways, init) || e in EntriesOf(id, gateways[id]);
    }
  }

  lemma {:induction false} EntriesIff(id: string, g: Gateway, e: Entry)
    ensures e in EntriesOf(id, g) <==>
      e.gateway == id && e.device in g.devices
      && e.url == g.url && e.status == g.status && e.lastHeartbeat == g.lastHeartbeat
  {
    if e.gateway == id && e.device in g.devices && e.url == g.url && e.status == g.status
       && e.lastHeartbeat == g.lastHeartbeat {
      var i :| 0 <= i < |g.devices| && g.devices[i] == e.device;
      assert EntriesOf(id, g)[i] == e;
    }
  }
}
