/** The decision logic of the master client (master.go): choosing a replica by
    datacenter, deciding the outcome of a volume lookup, flattening the cluster
    topology into the url -> datacenter cache and replacing that cache on each
    refresh, and building the query arguments of the assign and grow calls. */
module MasterOps {
  import opened GoBase
  import opened Strconv

  /** One replica of a volume as the directory reports it. */
  datatype Location = Location(url: GoString, publicUrl: GoString)

  /** The decoded body of a `/dir/lookup` reply. */
  datatype LookupResp = LookupResp(locations: seq<Location>, volumeId: GoString, error: GoString)

  /** The cluster topology reported by `/dir/status`: datacenters hold racks, racks
      hold data nodes. */
  datatype DataNode = DataNode(free: int, max: int, publicUrl: GoString, url: GoString, volumes: int)
  datatype Rack = Rack(dataNodes: seq<DataNode>, free: int, max: int, id: GoString)
  datatype DataCenter = DataCenter(free: int, max: int, id: GoString, racks: seq<Rack>)
  datatype Layout = Layout(collection: GoString, replication: GoString, ttl: GoString, writables: seq<nat>)
  datatype Topology = Topology(dataCenters: seq<DataCenter>, free: int, max: int, layouts: seq<Layout>)
  datatype SystemStatus = SystemStatus(topology: Topology, version: GoString)

  /** The volume-server url -> datacenter id cache (`volDcMap`). */
  type Cache = map<GoString, GoString>

  /** The client-side state of a master: its address and the current cache. The
      background refresh loop, its ticker, the done channel and the mutex are not
      part of this state: the refresh is modelled as one sequential step. */
  datatype Master = Master(url: GoString, volDcMap: Cache)

  /** A volume handle bound to the chosen replica (`NewVolume(location)`). */
  datatype Volume = Volume(location: Location)

  /** What a call that talks to the directory produced, with the requests it sent
      in the order it sent them. */
  datatype Outcome<+T> = Outcome(result: Result<T, Error>, sent: seq<Request>)

  /** `NewMaster`: the cache starts out empty (a nil map in Go, read like an empty one). */
  function NewMaster(addr: GoString): (m: Master)
    ensures m.url == addr && |m.volDcMap| == 0
  {
    Master(addr, map[])
  }

  /** Reading the cache as Go reads a map: a missing key gives the zero value `""`. */
  function CacheGet(cache: Cache, key: GoString): (r: GoString)
    ensures key in cache ==> r == cache[key]
    ensures r != "" ==> key in cache
  {
    if key in cache then cache[key] else ""
  }

  /** A location is near `dc` when its url's cached datacenter equals `dc`. */
  predicate Near(l: Location, cache: Cache, dc: GoString)
  {
    CacheGet(cache, l.url) == dc
  }

  /** Index of the first location near `dc`, or `|locs|` when there is none. */
  function FirstNear(locs: seq<Location>, cache: Cache, dc: GoString): (k: nat)
    ensures k <= |locs|
    ensures forall j :: 0 <= j < k ==> !Near(locs[j], cache, dc)
    ensures k < |locs| ==> Near(locs[k], cache, dc)
  {
    if |locs| == 0 then 0
    else if Near(locs[0], cache, dc) then 0
    else 1 + FirstNear(locs[1..], cache, dc)
  }

  /** `lookupNearestNode`: the first location, in reply order, whose cached
      datacenter is `dc`; the first location when none is. The caller guarantees
      that the list is not empty. */
  function LookupNearestNode(locs: seq<Location>, cache: Cache, dc: GoString): (l: Location)
    requires |locs| > 0
    ensures l in locs
    ensures (exists i :: 0 <= i < |locs| && Near(locs[i], cache, dc)) ==>
              Near(l, cache, dc) &&
              exists i :: 0 <= i < |locs| && locs[i] == l &&
                forall j :: 0 <= j < i ==> !Near(locs[j], cache, dc)
    ensures (forall i :: 0 <= i < |locs| ==> !Near(locs[i], cache, dc)) ==> l == locs[0]
  {
    var k := FirstNear(locs, cache, dc);
    if k < |locs| then locs[k] else locs[0]
  }

  /** The loop of `lookupNearestNode` as written: scan in order, return on the
      first match, fall back to the first location. */
  method LookupNearestNodeLoop(locs: seq<Location>, cache: Cache, dc: GoString) returns (l: Location)
    requires |locs| > 0
    ensures l == LookupNearestNode(locs, cache, dc)
  {
    var i := 0;
    while i < |locs|
      invariant i <= |locs|
      invariant forall j :: 0 <= j < i ==> !Near(locs[j], cache, dc)
    {
      if CacheGet(cache, locs[i].url) == dc {
        NoEarlierNear(locs, cache, dc, i);
        return locs[i];
      }
      i := i + 1;
    }
    NoEarlierNear(locs, cache, dc, |locs|);
    l := locs[0];
  }

  /** FirstNear is the first match: if none of the first `i` locations is near
      and location `i` is (or `i` is the end), FirstNear is `i`. */
  lemma {:induction false} NoEarlierNear(locs: seq<Location>, cache: Cache, dc: GoString, i: nat)
    requires i <= |locs|
    requires forall j :: 0 <= j < i ==> !Near(locs[j], cache, dc)
    requires i < |locs| ==> Near(locs[i], cache, dc)
    ensures FirstNear(locs, cache, dc) == i
  {
    if |locs| > 0 && i > 0 {
      assert !Near(locs[0], cache, dc);
      NoEarlierNear(locs[1..], cache, dc, i - 1);
    }
  }

  /** Every caller of the client asks with `dc == ""`. A location whose url is not
      in the cache reads as `""` and therefore matches: the choice is the first
      location that is uncached or cached with an empty id, and the first location
      only when no such location exists or it is itself such a location. */
  lemma EmptyDcPicksUncached(locs: seq<Location>, cache: Cache)
    requires |locs| > 0
    ensures var l := LookupNearestNode(locs, cache, "");
      && ((exists i :: 0 <= i < |locs| && (locs[i].url !in cache || cache[locs[i].url] == "")) ==>
            (l.url !in cache || cache[l.url] == ""))
      && (l != locs[0] ==> locs[0].url in cache && cache[locs[0].url] != "")
  {
    var l := LookupNearestNode(locs, cache, "");
    if exists i :: 0 <= i < |locs| && (locs[i].url !in cache || cache[locs[i].url] == "") {
      var i :| 0 <= i < |locs| && (locs[i].url !in cache || cache[locs[i].url] == "");
      assert Near(locs[i], cache, "");
    }
    if l != locs[0] {
      var k := FirstNear(locs, cache, "");
      assert k > 0;
      assert !Near(locs[0], cache, "");
    }
  }

  /** With two replicas, the first cached under another datacenter and the second
      not cached at all, an empty `dc` chooses the second. */
  lemma EmptyDcSkipsFirst()
    ensures var a := Location("10.0.0.1:8080", "a.example:8080");
      var b := Location("10.0.0.2:8080", "b.example:8080");
      LookupNearestNode([a, b], map["10.0.0.1:8080" := "dc1"], "") == b
  {
    var a := Location("10.0.0.1:8080", "a.example:8080");
    var b := Location("10.0.0.2:8080", "b.example:8080");
    var cache: Cache := map["10.0.0.1:8080" := "dc1"];
    assert a.url != b.url by { assert a.url[7] != b.url[7]; }
    assert !Near(a, cache, "");
    assert Near(b, cache, "");
    assert FirstNear([a, b], cache, "") == 1 by {
      NoEarlierNear([a, b], cache, "", 1);
    }
  }

  /** The query of a `/dir/lookup` call: both arguments are always set. */
  function LookupArgs(volumeId: GoString, collection: GoString): (q: Query)
    ensures q.Keys == {"volumeId", "collection"}
    ensures q["volumeId"] == volumeId && q["collection"] == collection
  {
    map["volumeId" := volumeId, "collection" := collection]
  }

  /** The outcome of a decoded lookup reply (master.go, after decoding): the
      directory's own error first, then an empty replica list, then the nearest
      replica. */
  function DecideLookup(resp: LookupResp, cache: Cache, dc: GoString): (r: Result<Volume, Error>)
    ensures r.Success? ==> r.value.location in resp.locations
    ensures r.Success? ==> r.value.location == LookupNearestNode(resp.locations, cache, dc)
  {
    if |resp.error| != 0 then Failure(Text(resp.error))
    else if |resp.locations| == 0 then Failure(LocationNotFound)
    else Success(Volume(LookupNearestNode(resp.locations, cache, dc)))
  }

  /** The three outcomes of a decoded reply, each characterised in both directions:
      a non-empty directory error wins whatever the replicas are; "location not
      found" means exactly no error and no replica; success means exactly no error
      and at least one replica. */
  lemma LookupOutcomeOrder(resp: LookupResp, cache: Cache, dc: GoString)
    ensures |resp.error| > 0 ==> DecideLookup(resp, cache, dc) == Failure(Text(resp.error))
    ensures DecideLookup(resp, cache, dc) == Failure(LocationNotFound) <==>
              |resp.error| == 0 && |resp.locations| == 0
    ensures DecideLookup(resp, cache, dc).Success? <==>
              |resp.error| == 0 && |resp.locations| > 0
    ensures DecideLookup(resp, cache, dc).Failure? && DecideLookup(resp, cache, dc).error.Text? ==>
              DecideLookup(resp, cache, dc).error.msg == resp.error && |resp.error| > 0
  {
  }

  /** `Master.Lookup`: one GET of `/dir/lookup`; a transport or decoding failure is
      returned as it is, a decoded reply is decided by DecideLookup against the
      current cache. */
  function Lookup(m: Master, volumeId: GoString, collection: GoString, dc: GoString,
                  dir: Request -> Result<LookupResp, GoString>): (o: Outcome<Volume>)
    ensures o.sent == [Get(m.url, "/dir/lookup", LookupArgs(volumeId, collection))]
    ensures dir(o.sent[0]).Failure? ==> o.result == Failure(Transport(dir(o.sent[0]).error))
    ensures dir(o.sent[0]).Success? ==>
              o.result == DecideLookup(dir(o.sent[0]).value, m.volDcMap, dc)
  {
    var req := Get(m.url, "/dir/lookup", LookupArgs(volumeId, collection));
    match dir(req)
    case Failure(msg) => Outcome(Failure(Transport(msg)), [req])
    case Success(resp) => Outcome(DecideLookup(resp, m.volDcMap, dc), [req])
  }

  // Topology flattening

  /** `u` is the url of one of `nodes`. */
  predicate NodeListed(nodes: seq<DataNode>, u: GoString)
  {
    exists k :: 0 <= k < |nodes| && nodes[k].url == u
  }

  /** One of `racks` has a data node with url `u`. */
  predicate RacksHost(racks: seq<Rack>, u: GoString)
  {
    exists j :: 0 <= j < |racks| && NodeListed(racks[j].dataNodes, u)
  }

  /** Datacenter `d` has a data node with url `u` in one of its racks. */
  predicate Hosts(d: DataCenter, u: GoString)
  {
    RacksHost(d.racks, u)
  }

  /** `u` is the url of some data node anywhere in the topology. */
  predicate Listed(dcs: seq<DataCenter>, u: GoString)
  {
    exists i :: 0 <= i < |dcs| && Hosts(dcs[i], u)
  }

  /** The innermost loop: every node of a rack is written with the datacenter id.
      The prefix is written first, so later nodes overwrite earlier ones. */
  function PutNodes(c: Cache, nodes: seq<DataNode>, id: GoString): (r: Cache)
    ensures c.Keys <= r.Keys
  {
    if |nodes| == 0 then c
    else PutNodes(c, nodes[..|nodes| - 1], id)[nodes[|nodes| - 1].url := id]
  }

  /** The rack loop of one datacenter. */
  function PutRacks(c: Cache, racks: seq<Rack>, id: GoString): (r: Cache)
    ensures c.Keys <= r.Keys
  {
    if |racks| == 0 then c
    else PutNodes(PutRacks(c, racks[..|racks| - 1], id), racks[|racks| - 1].dataNodes, id)
  }

  /** The datacenter loop. */
  function PutDataCenters(c: Cache, dcs: seq<DataCenter>): (r: Cache)
    ensures c.Keys <= r.Keys
  {
    if |dcs| == 0 then c
    else
      var d := dcs[|dcs| - 1];
      PutRacks(PutDataCenters(c, dcs[..|dcs| - 1]), d.racks, d.id)
  }

  /** The url -> datacenter map built from a fresh topology, starting empty. */
  function Flatten(t: Topology): Cache
  {
    PutDataCenters(map[], t.dataCenters)
  }

  lemma {:induction false} PutNodesSpec(c: Cache, nodes: seq<DataNode>, id: GoString)
    ensures forall u :: u in PutNodes(c, nodes, id) <==> u in c || NodeListed(nodes, u)
    ensures forall u :: u in PutNodes(c, nodes, id) ==>
              PutNodes(c, nodes, id)[u] == if NodeListed(nodes, u) then id else c[u]
  {
    if |nodes| > 0 {
      var p := nodes[..|nodes| - 1];
      PutNodesSpec(c, p, id);
      forall u ensures NodeListed(nodes, u) <==> NodeListed(p, u) || nodes[|nodes| - 1].url == u {
        if NodeListed(nodes, u) {
          var k :| 0 <= k < |nodes| && nodes[k].url == u;
          if k < |p| { assert p[k] == nodes[k]; }
        }
        if NodeListed(p, u) {
          var k :| 0 <= k < |p| && p[k].url == u;
          assert nodes[k] == p[k];
        }
      }
    }
  }

  lemma {:induction false} PutRacksSpec(c: Cache, racks: seq<Rack>, id: GoString)
    ensures forall u :: u in PutRacks(c, racks, id) <==> u in c || RacksHost(racks, u)
    ensures forall u :: u in PutRacks(c, racks, id) ==>
              PutRacks(c, racks, id)[u] == if RacksHost(racks, u) then id else c[u]
  {
    if |racks| > 0 {
      var p := racks[..|racks| - 1];
      var last := racks[|racks| - 1];
      PutRacksSpec(c, p, id);
      PutNodesSpec(PutRacks(c, p, id), last.dataNodes, id);
      forall u ensures RacksHost(racks, u) <==>
                         RacksHost(p, u) || NodeListed(last.dataNodes, u) {
        if RacksHost(racks, u) {
          var j :| 0 <= j < |racks| && NodeListed(racks[j].dataNodes, u);
          if j < |p| { assert p[j] == racks[j]; }
        }
        if RacksHost(p, u) {
          var j :| 0 <= j < |p| && NodeListed(p[j].dataNodes, u);
          assert racks[j] == p[j];
        }
        if NodeListed(last.dataNodes, u) {
          assert NodeListed(racks[|racks| - 1].dataNodes, u);
        }
      }
    }
  }

  /** A url is listed in a run of datacenters when it is listed in all but the
      last or hosted by the last. */
  lemma ListedSnoc(dcs: seq<DataCenter>)
    requires |dcs| > 0
    ensures forall u :: Listed(dcs, u) <==> Listed(dcs[..|dcs| - 1], u) || Hosts(dcs[|dcs| - 1], u)
  {
    var p := dcs[..|dcs| - 1];
    forall u ensures Listed(dcs, u) <==> Listed(p, u) || Hosts(dcs[|dcs| - 1], u) {
      if Listed(dcs, u) {
        var i :| 0 <= i < |dcs| && Hosts(dcs[i], u);
        if i < |p| { assert p[i] == dcs[i]; }
      }
      if Listed(p, u) {
        var i :| 0 <= i < |p| && Hosts(p[i], u);
        assert dcs[i] == p[i];
      }
    }
  }

  /** The datacenter loop adds exactly the listed urls to the starting map, and a
      listed url ends up with the id of the last datacenter that hosts it. */
  lemma {:induction false} PutDataCentersSpec(c: Cache, dcs: seq<DataCenter>)
    ensures forall u :: u in PutDataCenters(c, dcs) <==> u in c || Listed(dcs, u)
    ensures forall u :: u in PutDataCenters(c, dcs) && !Listed(dcs, u) ==>
              PutDataCenters(c, dcs)[u] == c[u]
    ensures forall u :: Listed(dcs, u) ==>
              exists i :: 0 <= i < |dcs| && Hosts(dcs[i], u) &&
                PutDataCenters(c, dcs)[u] == dcs[i].id &&
                forall j :: i < j < |dcs| ==> !Hosts(dcs[j], u)
  {
    if |dcs| > 0 {
      var p := dcs[..|dcs| - 1];
      var d := dcs[|dcs| - 1];
      var before := PutDataCenters(c, p);
      var after := PutDataCenters(c, dcs);
      assert after == PutRacks(before, d.racks, d.id);
      PutDataCentersSpec(c, p);
      PutRacksSpec(before, d.racks, d.id);
      ListedSnoc(dcs);
      forall u | Listed(dcs, u)
        ensures exists i :: 0 <= i < |dcs| && Hosts(dcs[i], u) &&
                  after[u] == dcs[i].id &&
                  forall j :: i < j < |dcs| ==> !Hosts(dcs[j], u)
      {
        if Hosts(d, u) {
          assert Hosts(dcs[|dcs| - 1], u) && after[u] == d.id;
        } else {
          var i :| 0 <= i < |p| && Hosts(p[i], u) && before[u] == p[i].id &&
                   forall j :: i < j < |p| ==> !Hosts(p[j], u);
          assert dcs[i] == p[i];
          forall j | i < j < |dcs| ensures !Hosts(dcs[j], u) {
            if j < |p| { assert dcs[j] == p[j]; }
          }
        }
      }
    }
  }

  /** Flattening: the keys are exactly the data-node urls of the topology, and each
      url maps to the id of the last datacenter, in reply order, that lists it. */
  lemma FlattenSpec(t: Topology)
    ensures forall u :: u in Flatten(t) <==> Listed(t.dataCenters, u)
    ensures forall u :: u in Flatten(t) ==>
              exists i :: 0 <= i < |t.dataCenters| && Hosts(t.dataCenters[i], u) &&
                Flatten(t)[u] == t.dataCenters[i].id &&
                forall j :: i < j < |t.dataCenters| ==> !Hosts(t.dataCenters[j], u)
  {
    PutDataCentersSpec(map[], t.dataCenters);
  }

  /** A node listed under two datacenters, first under `id1` and then under `id2`,
      maps to `id2`, and nothing else is in the map. */
  lemma FlattenLastWins(n: DataNode, r1: Rack, r2: Rack, id1: GoString, id2: GoString, t: Topology)
    requires r1.dataNodes == [n] && r2.dataNodes == [n]
    requires t.dataCenters == [DataCenter(0, 0, id1, [r1]), DataCenter(0, 0, id2, [r2])]
    ensures Flatten(t) == map[n.url := id2]
  {
    var dcs := t.dataCenters;
    assert dcs[..1] == [dcs[0]] && dcs[..1][..0] == [];
    assert [r1][..0] == [] && [r2][..0] == [] && [n][..0] == [];
    var c0: Cache := map[];
    var c1 := map[n.url := id1];
    assert PutNodes(c0, [n], id1) == c1;
    assert PutRacks(c0, [r1], id1) == PutNodes(PutRacks(c0, [], id1), r1.dataNodes, id1);
    assert PutRacks(c0, [r1], id1) == c1;
    assert PutDataCenters(c0, dcs[..1]) == PutRacks(PutDataCenters(c0, []), [r1], id1);
    assert PutDataCenters(c0, dcs[..1]) == c1;
    assert PutNodes(c1, [n], id2) == map[n.url := id2];
    assert PutRacks(c1, [r2], id2) == PutNodes(PutRacks(c1, [], id2), r2.dataNodes, id2);
  }

  // The refresh step

  /** One tick of the refresh loop, given what the status request produced: a
      failure leaves the master as it was; a decoded status replaces the cache
      wholesale with the flattened topology. */
  function Refresh(m: Master, status: Result<SystemStatus, GoString>): (m': Master)
    ensures m'.url == m.url
    ensures status.Failure? ==> m' == m
    ensures status.Success? ==> m'.volDcMap == Flatten(status.value.topology)
  {
    match status
    case Failure(_) => m
    case Success(s) => m.(volDcMap := Flatten(s.topology))
  }

  /** After a successful refresh no entry of the old cache survives unless the new
      topology lists its url, and the new cache does not depend on the old one. */
  lemma RefreshReplaces(m: Master, m2: Master, s: SystemStatus)
    requires m.url == m2.url
    ensures Refresh(m, Success(s)) == Refresh(m2, Success(s))
    ensures forall u :: u in m.volDcMap && u in Refresh(m, Success(s)).volDcMap ==>
              Listed(s.topology.dataCenters, u)
  {
    FlattenSpec(s.topology);
    assert Refresh(m, Success(s)).volDcMap == Flatten(s.topology);
  }

  /** A run of ticks, in order. */
  function RunTicks(m: Master, ticks: seq<Result<SystemStatus, GoString>>): (m': Master)
    ensures m'.url == m.url
    ensures (forall i :: 0 <= i < |ticks| ==> ticks[i].Failure?) ==> m' == m
  {
    if |ticks| == 0 then m else Refresh(RunTicks(m, ticks[..|ticks| - 1]), ticks[|ticks| - 1])
  }

  /** No tick after index `i` succeeded. */
  predicate NoSuccessAfter(ticks: seq<Result<SystemStatus, GoString>>, i: nat)
  {
    forall j :: i < j < |ticks| ==> ticks[j].Failure?
  }

  /** After any run of ticks the cache is the flattening of the last successful
      status, or the starting cache if no tick succeeded. */
  lemma {:induction false} RunTicksLastSuccess(m: Master, ticks: seq<Result<SystemStatus, GoString>>)
    ensures RunTicks(m, ticks).url == m.url
    ensures (forall i :: 0 <= i < |ticks| ==> ticks[i].Failure?) ==> RunTicks(m, ticks) == m
    ensures forall i :: 0 <= i < |ticks| && ticks[i].Success? && NoSuccessAfter(ticks, i) ==>
              RunTicks(m, ticks).volDcMap == Flatten(ticks[i].value.topology)
  {
    if |ticks| > 0 {
      var p := ticks[..|ticks| - 1];
      RunTicksLastSuccess(m, p);
      forall i | 0 <= i < |p| ensures p[i] == ticks[i] { }
    }
  }

  // Query arguments

  /** `AssignN`'s arguments: `count` only when it is positive, rendered as decimal
      (`strconv.Itoa`). */
  function AssignNArgs(count: int): (q: Query)
    ensures "count" in q <==> count > 0
    ensures q.Keys <= {"count"}
    ensures count > 0 ==> q["count"] == FormatUint(count, 10)
  {
    if count > 0 then map["count" := FormatUint(count, 10)] else map[]
  }

  /** The rendered count reads back as the same number: the directory receives
      the count the caller asked for. */
  lemma AssignCountRoundTrip(count: int)
    ensures 0 < count < Two64 ==> ParseUint(AssignNArgs(count)["count"], 10, 64) == Success(count)
  {
    Pow2Constants();
  }

  /** `Grow`'s arguments: `count` under the same rule as AssignN, and the three
      placement arguments always, even when empty. */
  function GrowArgs(count: int, collection: GoString, replication: GoString, dataCenter: GoString): (q: Query)
    ensures q.Keys == AssignNArgs(count).Keys + {"collection", "replication", "dataCenter"}
    ensures q["collection"] == collection && q["replication"] == replication
    ensures q["dataCenter"] == dataCenter
    ensures count > 0 ==> q["count"] == AssignNArgs(count)["count"]
  {
    AssignNArgs(count)["collection" := collection]["replication" := replication]["dataCenter" := dataCenter]
  }

  /** The request `AssignN` sends: a GET of `/dir/assign` on this master, carrying
      a count exactly when one was asked for, which the directory reads back as the
      number requested. */
  function AssignNRequest(m: Master, count: int): (r: Request)
    ensures r.host == m.url && r.path == "/dir/assign"
    ensures "count" in r.query <==> count > 0
    ensures r.query.Keys <= {"count"}
    ensures 0 < count < Two64 ==> ParseUint(r.query["count"], 10, 64) == Success(count)
  {
    AssignCountRoundTrip(count);
    Get(m.url, "/dir/assign", AssignNArgs(count))
  }

  /** The request `Grow` sends: a GET of `/vol/grow` on this master, with the count
      under AssignN's rule and the three placement arguments always present. */
  function GrowRequest(m: Master, count: int, collection: GoString, replication: GoString,
                       dataCenter: GoString): (r: Request)
    ensures r.host == m.url && r.path == "/vol/grow"
    ensures "count" in r.query <==> count > 0
    ensures r.query.Keys - {"count"} == {"collection", "replication", "dataCenter"}
    ensures r.query["collection"] == collection && r.query["replication"] == replication
    ensures r.query["dataCenter"] == dataCenter
    ensures 0 < count < Two64 ==> ParseUint(r.query["count"], 10, 64) == Success(count)
  {
    AssignCountRoundTrip(count);
    Get(m.url, "/vol/grow", GrowArgs(count, collection, replication, dataCenter))
  }
}
