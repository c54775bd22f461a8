/** ir.cc: what holds of the routing tables after every run of beacons and packets. */
module MeshRuns {
  import opened MeshRouting
  import opened Options

  datatype Event =
    | Heard(now: int, beacon: Beacon)
    | Routed(self: Gps, clock: Clock, packet: Packet, predict: Predictor)

  ghost function Step(st: State, geo: Geometry, e: Event): State {
    match e
    case Heard(now, b) => AfterBeacon(st, geo, now, b)
    case Routed(self, c, k, p) => Forwarded(st, geo, self, c, k, p).0
  }

  /** What becomes of the packet, if it is one. */
  ghost function Fate(st: State, geo: Geometry, e: Event): Action {
    match e
    case Heard(_, _) => Drop
    case Routed(self, c, k, p) => Forwarded(st, geo, self, c, k, p).1
  }

  ghost function After(geo: Geometry, run: seq<Event>): State
    decreases |run|
  {
    if run == [] then State(map[], map[]) else Step(After(geo, run[..|run| - 1]), geo, run[|run| - 1])
  }

  // ----- the clock

  function Start(e: Event): int {
    match e
    case Heard(now, _) => now
    case Routed(_, c, _, _) => c.enter
  }

  function End(e: Event): int {
    match e
    case Heard(now, _) => now
    case Routed(_, c, _, _) => c.route
  }

  function EndTime(run: seq<Event>): int {
    if run == [] then 0 else End(run[|run| - 1])
  }

  /** The clock never goes back, between calls or inside one. */
  predicate InOrder(run: seq<Event>)
    decreases |run|
  {
    run == [] ||
    (var before, e := run[..|run| - 1], run[|run| - 1];
     && InOrder(before)
     && (before == [] || EndTime(before) <= Start(e))
     && (e.Routed? ==> e.clock.enter <= e.clock.check <= e.clock.route))
  }

  // ----- what the beacons alone say about a neighbour

  /** The latest unbroken series of beacons from one node, no two neighbouring ones over 5 ms apart:
      when the last came, the physical address in the first, the last position and speed, all points. */
  datatype Trail = Trail(last: int, phy: nat, gps: Gps, speed: Speed, points: seq<Gps>)

  function Trace(geo: Geometry, run: seq<Event>, k: nat): Option<Trail>
    decreases |run|
  {
    if run == [] then None
    else
      var before, e := Trace(geo, run[..|run| - 1], k), run[|run| - 1];
      if e.Heard? && e.beacon.vir == k then
        var b, p := e.beacon, geo.miller(e.beacon.gps);
        if before.Some? && e.now - before.value.last <= 5
        then Some(Trail(e.now, before.value.phy, b.gps, b.speed, before.value.points + [p]))
        else Some(Trail(e.now, b.phy, b.gps, b.speed, [p]))
      else before
  }

  function Recent(points: seq<Gps>): seq<Gps> {
    if |points| <= 10 then points else points[|points| - 10..]
  }

  lemma PushRecent(points: seq<Gps>, g: Gps)
    ensures Push(Recent(points), g) == Recent(points + [g])
  {
  }

  function AsNeighbor(t: Trail): Neighbor {
    Neighbor(t.gps, t.last, t.speed, t.phy, Recent(t.points))
  }

  // ----- the invariant

  ghost predicate Tracks(geo: Geometry, run: seq<Event>, st: State, k: nat) {
    var t := Trace(geo, run, k);
    && (k in st.neighbors ==> t.Some? && st.neighbors[k] == AsNeighbor(t.value))
    && (t.Some? ==> t.value.last <= EndTime(run) && t.value.points != [])
    && (t.Some? && EndTime(run) - t.value.last <= 5 ==> k in st.neighbors)
  }

  ghost predicate Backed(st: State, k: nat) {
    k in st.neighbors ==> k in st.routes && st.neighbors[k].stamp <= st.routes[k].stamp
  }

  predicate Past(st: State, now: int) {
    && (forall k :: k in st.neighbors ==> st.neighbors[k].stamp <= now)
    && (forall k :: k in st.routes ==> st.routes[k].stamp <= now)
  }

  lemma RoutedNeighbors(st: State, geo: Geometry, e: Event, k: nat)
    requires e.Routed? && e.clock.enter <= e.clock.check <= e.clock.route
    ensures var after := Step(st, geo, e);
            && (k in after.neighbors ==> k in st.neighbors && after.neighbors[k] == st.neighbors[k])
            && (k in st.neighbors && e.clock.route - st.neighbors[k].stamp <= NEIGHBOR_TTL ==> k in after.neighbors)
  {
  }

  lemma RoutedRoutes(st: State, geo: Geometry, e: Event, k: nat)
    requires e.Routed? && (k in st.routes ==> st.routes[k].stamp <= e.clock.enter)
    ensures var after := Step(st, geo, e);
            && (k in st.routes ==> k in after.routes && st.routes[k].stamp <= after.routes[k].stamp)
            && (k in after.routes ==> after.routes[k].stamp <= e.clock.enter)
  {
  }

  lemma RoutedPast(st: State, geo: Geometry, e: Event)
    requires e.Routed? && e.clock.enter <= e.clock.check <= e.clock.route && Past(st, e.clock.enter)
    ensures Past(Step(st, geo, e), e.clock.route)
  {
    var after := Step(st, geo, e);
    forall k | k in after.neighbors
      ensures after.neighbors[k].stamp <= e.clock.route
    {
      RoutedNeighbors(st, geo, e, k);
    }
    forall k | k in after.routes
      ensures after.routes[k].stamp <= e.clock.route
    {
      RoutedRoutes(st, geo, e, k);
    }
  }

  /** A packet only removes neighbours that expired, and only renews routes. */
  lemma RoutedKeeps(st: State, geo: Geometry, e: Event, k: nat)
    requires e.Routed? && e.clock.enter <= e.clock.check <= e.clock.route
    requires Past(st, e.clock.enter)
    ensures var after := Step(st, geo, e);
            && Past(after, e.clock.route)
            && (k in after.neighbors ==> k in st.neighbors && after.neighbors[k] == st.neighbors[k])
            && (k in st.neighbors && e.clock.route - st.neighbors[k].stamp <= NEIGHBOR_TTL ==> k in after.neighbors)
            && (k in st.routes ==> k in after.routes && st.routes[k].stamp <= after.routes[k].stamp)
  {
    RoutedNeighbors(st, geo, e, k);
    RoutedRoutes(st, geo, e, k);
    RoutedPast(st, geo, e);
  }

  lemma TraceSnoc(geo: Geometry, run: seq<Event>, e: Event, k: nat)
    ensures Trace(geo, run + [e], k) ==
            var before := Trace(geo, run, k);
            if e.Heard? && e.beacon.vir == k then
              var b, p := e.beacon, geo.miller(e.beacon.gps);
              if before.Some? && e.now - before.value.last <= 5
              then Some(Trail(e.now, before.value.phy, b.gps, b.speed, before.value.points + [p]))
              else Some(Trail(e.now, b.phy, b.gps, b.speed, [p]))
            else before
  {
    assert (run + [e])[..|run|] == run;
  }

  /** A beacon from k extends k's entry by one point, or makes a new one. */
  lemma OwnBeacon(st: State, geo: Geometry, e: Event)
    requires e.Heard?
    ensures var (b, p, after) := (e.beacon, geo.miller(e.beacon.gps), Step(st, geo, e).neighbors);
            && b.vir in after
            && after[b.vir] ==
               if b.vir in st.neighbors && e.now - st.neighbors[b.vir].stamp <= 5
               then Neighbor(b.gps, e.now, b.speed, st.neighbors[b.vir].phy, Push(st.neighbors[b.vir].history, p))
               else Neighbor(b.gps, e.now, b.speed, b.phy, [p])
  {
  }

  lemma OwnTracks(geo: Geometry, run: seq<Event>, st: State, e: Event)
    requires e.Heard? && Tracks(geo, run, st, e.beacon.vir) && (run == [] || EndTime(run) <= e.now)
    ensures Tracks(geo, run + [e], Step(st, geo, e), e.beacon.vir)
  {
    var t := Trace(geo, run, e.beacon.vir);
    TraceSnoc(geo, run, e, e.beacon.vir);
    OwnBeacon(st, geo, e);
    if t.Some? {
      PushRecent(t.value.points, geo.miller(e.beacon.gps));
    }
  }

  lemma OtherTracks(geo: Geometry, run: seq<Event>, st: State, e: Event, k: nat)
    requires e.Heard? && e.beacon.vir != k && Tracks(geo, run, st, k) && (run == [] || EndTime(run) <= e.now)
    ensures Tracks(geo, run + [e], Step(st, geo, e), k)
  {
    TraceSnoc(geo, run, e, k);
  }

  lemma HeardTracks(geo: Geometry, run: seq<Event>, st: State, e: Event, k: nat)
    requires e.Heard? && Tracks(geo, run, st, k) && (run == [] || EndTime(run) <= e.now)
    ensures Tracks(geo, run + [e], Step(st, geo, e), k)
  {
    if e.beacon.vir == k {
      OwnTracks(geo, run, st, e);
    } else {
      OtherTracks(geo, run, st, e, k);
    }
  }

  lemma RoutedTracks(geo: Geometry, run: seq<Event>, st: State, e: Event, k: nat)
    requires e.Routed? && e.clock.enter <= e.clock.check <= e.clock.route && Past(st, e.clock.enter)
    requires Tracks(geo, run, st, k) && (run == [] || EndTime(run) <= e.clock.enter)
    ensures Tracks(geo, run + [e], Step(st, geo, e), k)
  {
    assert (run + [e])[..|run|] == run;
    RoutedKeeps(st, geo, e, k);
  }

  /** The routing tables after every run, read off the beacons of the run. */
  lemma {:induction false} TablesFollowBeacons(geo: Geometry, run: seq<Event>, k: nat)
    requires InOrder(run)
    ensures Tracks(geo, run, After(geo, run), k)
    ensures run != [] ==> Past(After(geo, run), EndTime(run))
    decreases |run|
  {
    if run != [] {
      var before, e := run[..|run| - 1], run[|run| - 1];
      assert run == before + [e];
      TablesFollowBeacons(geo, before, k);
      var st := After(geo, before);
      match e
      case Heard(now, b) =>
        HeardTracks(geo, before, st, e, k);
      case Routed(_, c, _, _) =>
        RoutedKeeps(st, geo, e, k);
        RoutedTracks(geo, before, st, e, k);
    }
  }

  /** Every neighbour is backed by a route at least as fresh. */
  lemma {:induction false} NeighborsAreRoutable(geo: Geometry, run: seq<Event>, k: nat)
    requires InOrder(run)
    ensures Backed(After(geo, run), k)
    decreases |run|
  {
    if run != [] {
      var before, e := run[..|run| - 1], run[|run| - 1];
      NeighborsAreRoutable(geo, before, k);
      TablesFollowBeacons(geo, before, k);
      if e.Routed? {
        RoutedKeeps(After(geo, before), geo, e, k);
      }
    }
  }

  /** The predictor always has between one and ten points: the last ten of the series, or all of it. */
  lemma HistoryIsRecent(geo: Geometry, run: seq<Event>, k: nat)
    requires InOrder(run) && k in After(geo, run).neighbors
    ensures Trace(geo, run, k).Some?
    ensures var h, points := After(geo, run).neighbors[k].history, Trace(geo, run, k).value.points;
            && 1 <= |h| <= 10 && |h| == (if |points| < 10 then |points| else 10)
            && h == points[|points| - |h|..]
  {
    TablesFollowBeacons(geo, run, k);
  }

  /** After a beacon nothing in either table is older than 5 ms, and every node heard since then is there. */
  lemma FreshAfterBeacon(geo: Geometry, run: seq<Event>, k: nat)
    requires InOrder(run) && run != [] && run[|run| - 1].Heard?
    ensures var st, now := After(geo, run), EndTime(run);
            && (k in st.routes ==> now - st.routes[k].stamp <= 5)
            && (k in st.neighbors <==>
                 Trace(geo, run, k).Some? && now - Trace(geo, run, k).value.last <= 5)
  {
    TablesFollowBeacons(geo, run, k);
  }

  /** Nodes that beacon more than 5 ms apart never have a history of more than one point. */
  predicate Sparse(geo: Geometry, run: seq<Event>, k: nat)
    decreases |run|
  {
    run == [] ||
    (var before, e := run[..|run| - 1], run[|run| - 1];
     && Sparse(geo, before, k)
     && (e.Heard? && e.beacon.vir == k && Trace(geo, before, k).Some? ==>
           e.now - Trace(geo, before, k).value.last > 5))
  }

  lemma {:induction false} SlowBeaconsHaveNoHistory(geo: Geometry, run: seq<Event>, k: nat)
    requires InOrder(run)
    ensures Sparse(geo, run, k) && Trace(geo, run, k).Some? ==> |Trace(geo, run, k).value.points| == 1
    ensures Sparse(geo, run, k) && k in After(geo, run).neighbors ==> |After(geo, run).neighbors[k].history| == 1
    decreases |run|
  {
    TablesFollowBeacons(geo, run, k);
    if run != [] {
      SlowBeaconsHaveNoHistory(geo, run[..|run| - 1], k);
    }
  }

  // ----- where packets go

  lemma HopIsSomeone(a: Aim, t: map<nat, Neighbor>, pos: map<nat, Gps>)
    requires pos.Keys == t.Keys
    ensures Hop(a, t, pos) != BROADCAST ==> exists k :: k in t && t[k].phy == Hop(a, t, pos)
  {
  }

  /** Whatever a packet is sent to was heard within the last 3000 ms. */
  lemma SentToTheLiving(geo: Geometry, run: seq<Event>, e: Event)
    requires InOrder(run + [e]) && e.Routed?
    ensures var sent := Fate(After(geo, run), geo, e);
            sent.Send? ==>
              exists k :: k in After(geo, run + [e]).neighbors &&
                (k == sent.hop || After(geo, run + [e]).neighbors[k].phy == sent.hop) &&
                Trace(geo, run, k).Some? && e.clock.check - Trace(geo, run, k).value.last <= 3000
  {
    var st, c := After(geo, run), e.clock;
    var whole := run + [e];
    assert whole[..|run|] == run;
    var (after, sent) := Forwarded(st, geo, e.self, c, e.packet, e.predict);
    if sent.Send? {
      var k := SentTo(st, geo, e);
      TablesFollowBeacons(geo, run, k);
    }
  }

  lemma SentTo(st: State, geo: Geometry, e: Event) returns (k: nat)
    requires e.Routed? && e.clock.enter <= e.clock.check <= e.clock.route
    requires Forwarded(st, geo, e.self, e.clock, e.packet, e.predict).1.Send?
    ensures var (after, sent) := Forwarded(st, geo, e.self, e.clock, e.packet, e.predict);
            && k in after.neighbors && k in st.neighbors && after.neighbors[k] == st.neighbors[k]
            && (k == sent.hop || st.neighbors[k].phy == sent.hop)
            && e.clock.check - st.neighbors[k].stamp <= NEIGHBOR_TTL
  {
    var c, a := e.clock, Aim(geo, e.self, e.packet.dstGps);
    var (after, sent) := Forwarded(st, geo, e.self, c, e.packet, e.predict);
    if e.packet.dst in st.routes && c.enter - st.routes[e.packet.dst].stamp <= NEIGHBOR_TTL &&
       Legal(st.neighbors, a, c.check, st.routes[e.packet.dst].nextHop).0 {
      k := st.routes[e.packet.dst].nextHop;
    } else {
      HopIsSomeone(a, after.neighbors, Predicted(after.neighbors, c.route, e.predict));
      k :| k in after.neighbors && after.neighbors[k].phy == sent.hop;
    }
  }

  /** After every run a packet is forwarded as it should be: to the neighbour that leads among those alive at
      their predicted positions, unless a legal route is stored or it is flooded to the pole. */
  lemma PacketsAreForwarded(geo: Geometry, run: seq<Event>, e: Event)
    requires e.Routed?
    ensures IsForwarding(After(geo, run), geo, e.self, e.clock, e.packet, e.predict, After(geo, run + [e]),
                         Fate(After(geo, run), geo, e))
  {
    assert (run + [e])[..|run|] == run;
    ForwardedMeans(After(geo, run), geo, e.self, e.clock, e.packet, e.predict);
  }

  /** Without a stored route, and away from the pole, a packet is dropped exactly when no neighbour heard within
      3000 ms is predicted to be in reach of its destination; else it goes to one that is, and the route to it
      is stored. */
  lemma DroppedIffNoneInReach(geo: Geometry, run: seq<Event>, e: Event)
    requires e.Routed? && e.packet.dst !in After(geo, run).routes && e.packet.dstGps.y < 89.0
    requires forall j :: j in After(geo, run).neighbors ==> After(geo, run).neighbors[j].phy != 0xFFFF_FFFF
    ensures var (st, after, c, k) := (After(geo, run), After(geo, run + [e]), e.clock, e.packet);
            var live := map j | j in st.neighbors && c.route - st.neighbors[j].stamp <= 3000 :: st.neighbors[j];
            var pos := map j | j in live :: e.predict(j, live[j].history, c.route - live[j].stamp, live[j].speed);
            var sent := Fate(st, geo, e);
            && after.neighbors == live
            && (sent == Drop <==> forall j :: j in pos ==> geo.distance(pos[j], k.dstGps) >= 200.0 - 0.00000001)
            && (sent == Drop ==> after.routes == st.routes)
            && (sent != Drop ==>
                  exists j :: j in live && Leads(geo, e.self, k.dstGps, pos, j) && sent == Send(live[j].phy) &&
                    after.routes == st.routes[k.dst := Route(live[j].phy, c.enter, k.stale)])
  {
    PacketsAreForwarded(geo, run, e);
    var (st, after, c, k) := (After(geo, run), After(geo, run + [e]), e.clock, e.packet);
    var live := map j | j in st.neighbors && c.route - st.neighbors[j].stamp <= 3000 :: st.neighbors[j];
    assert after.neighbors == live;
    var pos := map j | j in live :: e.predict(j, live[j].history, c.route - live[j].stamp, live[j].speed);
    var hop: nat :|
      && IsNextHop(geo, e.self, k.dstGps, live, pos, hop)
      && Fate(st, geo, e) == (if hop == 0xFFFF_FFFF then Drop else Send(hop))
      && after.routes == if hop == 0xFFFF_FFFF then st.routes else st.routes[k.dst := Route(hop, c.enter, k.stale)];
  }

  // ----- what the forward table holds

  /** A beacon makes its sender's route, whatever stood there. */
  lemma BeaconMakesRoute(geo: Geometry, run: seq<Event>, now: int, b: Beacon)
    ensures var st := After(geo, run + [Heard(now, b)]);
            b.vir in st.routes && st.routes[b.vir] == Route(b.phy, now, b.gps)
  {
    assert (run + [Heard(now, b)])[..|run|] == run;
  }

  /** Event n is the last beacon from k. */
  ghost predicate LastBeacon(run: seq<Event>, n: nat, k: nat) {
    && n < |run| && run[n].Heard? && run[n].beacon.vir == k
    && forall m :: n < m < |run| && run[m].Heard? ==> run[m].beacon.vir != k
  }

  /** No beacon heard after event n comes over 5 ms after it. */
  ghost predicate NonePurges(run: seq<Event>, n: nat)
    requires n < |run| && run[n].Heard?
  {
    forall m :: n < m < |run| && run[m].Heard? ==> run[m].now - run[n].now <= 5
  }

  /** Until a packet for it is sent, a node's route is what its last beacon said, for as long as no beacon of
      any node comes over 5 ms later. */
  lemma {:induction false} RouteIsLastBeacons(geo: Geometry, run: seq<Event>, n: nat, k: nat)
    requires LastBeacon(run, n, k)
    requires forall m :: n < m < |run| && run[m].Routed? ==> run[m].packet.dst != k
    ensures k in After(geo, run).routes <==> NonePurges(run, n)
    ensures k in After(geo, run).routes ==>
              After(geo, run).routes[k] == Route(run[n].beacon.phy, run[n].now, run[n].beacon.gps)
    decreases |run|
  {
    var before, e := run[..|run| - 1], run[|run| - 1];
    if n < |run| - 1 {
      RouteIsLastBeacons(geo, before, n, k);
      OtherEvent(After(geo, before), geo, e, k);
      assert forall m :: n < m < |before| ==> before[m] == run[m];
      assert NonePurges(run, n) <==> NonePurges(before, n) && (e.Heard? ==> e.now - run[n].now <= 5);
    }
  }

  /** An event that is neither a beacon from k nor a packet for k leaves k's route alone, or purges it. */
  lemma OtherEvent(st: State, geo: Geometry, e: Event, k: nat)
    requires e.Heard? ==> e.beacon.vir != k
    requires e.Routed? ==> e.packet.dst != k
    ensures var after := Step(st, geo, e);
            && (k in after.routes <==> k in st.routes && (e.Heard? ==> e.now - st.routes[k].stamp <= 5))
            && (k in after.routes ==> after.routes[k] == st.routes[k])
  {
  }

  /** A packet for k renews k's route or makes one, at the position it brought or had. */
  lemma PacketFor(st: State, geo: Geometry, e: Event, k: nat)
    requires e.Routed? && e.packet.dst == k
    ensures var after := Step(st, geo, e);
            && (k in st.routes ==>
                  && k in after.routes && after.routes[k].gps == st.routes[k].gps
                  && (after.routes[k].stamp == st.routes[k].stamp || after.routes[k].stamp == e.clock.enter))
            && (k in after.routes && k !in st.routes ==> after.routes[k].gps == e.packet.stale)
  {
  }

  /** Whatever packets come, a node's route keeps the position of its last beacon while no beacon comes over
      5 ms after that one. */
  lemma {:induction false} PositionIsLastBeacons(geo: Geometry, run: seq<Event>, n: nat, k: nat)
    requires InOrder(run) && LastBeacon(run, n, k) && NonePurges(run, n)
    ensures run[n].now <= EndTime(run)
    ensures k in After(geo, run).routes && run[n].now <= After(geo, run).routes[k].stamp
    ensures After(geo, run).routes[k].gps == run[n].beacon.gps
    decreases |run|
  {
    var before, e := run[..|run| - 1], run[|run| - 1];
    if n < |run| - 1 {
      assert forall m :: n < m < |before| ==> before[m] == run[m];
      PositionIsLastBeacons(geo, before, n, k);
      if e.Routed? && e.packet.dst == k {
        PacketFor(After(geo, before), geo, e, k);
      } else {
        OtherEvent(After(geo, before), geo, e, k);
      }
    }
  }

  /** Event n gave k's route its position: a beacon from k, or a packet for k; and no beacon from k came since. */
  ghost predicate Placed(run: seq<Event>, n: nat, k: nat, gps: Gps) {
    && n < |run|
    && (match run[n]
        case Heard(_, b) => b.vir == k && gps == b.gps
        case Routed(_, _, q, _) => q.dst == k && gps == q.stale)
    && forall m :: n < m < |run| && run[m].Heard? ==> run[m].beacon.vir != k
  }

  lemma PlacedBefore(run: seq<Event>, n: nat, k: nat, gps: Gps, e: Event)
    requires Placed(run, n, k, gps) && (e.Heard? ==> e.beacon.vir != k)
    ensures Placed(run + [e], n, k, gps)
  {
    var longer := run + [e];
    assert forall m :: 0 <= m < |run| ==> longer[m] == run[m];
  }

  /** What an event leaves as k's position. */
  lemma StepPlaces(st: State, geo: Geometry, e: Event, k: nat)
    requires k in Step(st, geo, e).routes
    ensures var gps := Step(st, geo, e).routes[k].gps;
            || (e.Heard? && e.beacon.vir == k && gps == e.beacon.gps)
            || (e.Routed? && e.packet.dst == k && gps == e.packet.stale)
            || ((e.Heard? ==> e.beacon.vir != k) && k in st.routes && gps == st.routes[k].gps)
  {
    if e.Routed? && e.packet.dst == k {
      PacketFor(st, geo, e, k);
    } else if !(e.Heard? && e.beacon.vir == k) {
      OtherEvent(st, geo, e, k);
    }
  }

  /** In every run each route's position is that of its node's last beacon, or was brought by a packet for the
      node since. */
  lemma {:induction false} RouteOrigin(geo: Geometry, run: seq<Event>, k: nat) returns (n: nat)
    requires k in After(geo, run).routes
    ensures Placed(run, n, k, After(geo, run).routes[k].gps)
    decreases |run|
  {
    var before, e := run[..|run| - 1], run[|run| - 1];
    var st, gps := After(geo, before), After(geo, run).routes[k].gps;
    StepPlaces(st, geo, e, k);
    n := |run| - 1;
    if (e.Heard? ==> e.beacon.vir != k) && k in st.routes && gps == st.routes[k].gps {
      n := RouteOrigin(geo, before, k);
      assert before + [e] == run;
      PlacedBefore(before, n, k, gps, e);
    }
  }

  /** The legality check looks up a physical address among virtual ones. */
  ghost predicate Apart(virtual: set<nat>, st: State) {
    && BROADCAST !in virtual
    && (forall k :: k in st.neighbors ==> k in virtual && st.neighbors[k].phy !in virtual)
    && (forall k :: k in st.routes ==> st.routes[k].nextHop !in virtual)
  }

  ghost predicate Addressed(virtual: set<nat>, run: seq<Event>) {
    && BROADCAST !in virtual
    && forall e :: e in run && e.Heard? ==> e.beacon.vir in virtual && e.beacon.phy !in virtual
  }

  lemma StepApart(virtual: set<nat>, st: State, geo: Geometry, e: Event)
    requires Apart(virtual, st) && (e.Heard? ==> e.beacon.vir in virtual && e.beacon.phy !in virtual)
    ensures Apart(virtual, Step(st, geo, e))
  {
  }

  /** If no node's virtual address is any node's physical one, no stored route is ever judged legal:
      every packet for a fresh destination chooses its next hop anew. */
  lemma {:induction false} StoredRoutesAreNeverLegal(geo: Geometry, virtual: set<nat>, run: seq<Event>)
    requires Addressed(virtual, run)
    ensures Apart(virtual, After(geo, run))
    ensures forall k, a, now :: k in After(geo, run).routes ==>
              !Legal(After(geo, run).neighbors, a, now, After(geo, run).routes[k].nextHop).0
    decreases |run|
  {
    if run != [] {
      StoredRoutesAreNeverLegal(geo, virtual, run[..|run| - 1]);
      StepApart(virtual, After(geo, run[..|run| - 1]), geo, run[|run| - 1]);
    }
  }

  // ----- when a stored route is used again

  /** A stored route is used again exactly when its hop is also the virtual address of a neighbour not yet
      dropped, heard at most 3000 ms ago, whose last position lies in the cone. */
  lemma ReuseMeans(geo: Geometry, run: seq<Event>, k: nat, self: Gps, dst: Gps, now: int)
    requires InOrder(run) && k in After(geo, run).routes
    ensures var st, h := After(geo, run), After(geo, run).routes[k].nextHop;
            Legal(st.neighbors, Aim(geo, self, dst), now, h).0 <==>
              h in st.neighbors && Trace(geo, run, h).Some? && now - Trace(geo, run, h).value.last <= 3000 &&
              geo.theta(self, dst, Trace(geo, run, h).value.gps) < 3.14159 / 3.0
  {
    TablesFollowBeacons(geo, run, After(geo, run).routes[k].nextHop);
  }

  lemma OneBeacon(geo: Geometry, now: int, b: Beacon)
    ensures InOrder([Heard(now, b)]) && EndTime([Heard(now, b)]) == now
    ensures var st := After(geo, [Heard(now, b)]);
            st.neighbors == map[b.vir := Neighbor(b.gps, now, b.speed, b.phy, [geo.miller(b.gps)])] &&
            st.routes == map[b.vir := Route(b.phy, now, b.gps)]
  {
    assert [Heard(now, b)][..0] == [];
  }

  /** One beacon is enough to see it: the sender is a live neighbour in the cone, reached by its own physical
      address, and that very route is used again exactly when the two addresses are the same number. */
  lemma OneBeaconDecides(geo: Geometry, b: Beacon, now: int, self: Gps, dst: Gps, later: int)
    requires now <= later <= now + 3000 && geo.theta(self, dst, b.gps) < 3.14159 / 3.0
    ensures var st := After(geo, [Heard(now, b)]);
            && b.vir in st.neighbors && st.neighbors[b.vir].phy == b.phy && later - st.neighbors[b.vir].stamp <= 3000
            && b.vir in st.routes && st.routes[b.vir].nextHop == b.phy
            && (Legal(st.neighbors, Aim(geo, self, dst), later, st.routes[b.vir].nextHop).0 <==> b.phy == b.vir)
  {
    OneBeacon(geo, now, b);
  }

  /** The addresses a run's beacons are sent from. */
  ghost predicate Uses(virtual: set<nat>, physical: set<nat>, run: seq<Event>) {
    forall e :: e in run && e.Heard? ==> e.beacon.vir in virtual && e.beacon.phy in physical
  }

  ghost predicate Reused(geo: Geometry, run: seq<Event>, k: nat, self: Gps, dst: Gps, now: int) {
    var st := After(geo, run);
    k in st.routes && Legal(st.neighbors, Aim(geo, self, dst), now, st.routes[k].nextHop).0
  }

  /** Some run with these addresses ends with a stored route that is legal for some packet. */
  ghost predicate SomeReuse(virtual: set<nat>, physical: set<nat>) {
    exists geo, run, k: nat, self, dst, now ::
      Uses(virtual, physical, run) && InOrder(run) && EndTime(run) <= now && Reused(geo, run, k, self, dst, now)
  }

  /** Everything lies straight ahead, and out of reach. */
  const FAR := Geometry((a, b, c) => 0.0, (a, b, c) => 0.0, (a, b) => 1000.0, g => g)

  const ORIGIN := Gps(0.0, 0.0)

  lemma SharedIsReused(virtual: set<nat>, physical: set<nat>, v: nat)
    requires v in virtual && v in physical
    ensures SomeReuse(virtual, physical)
  {
    var b := Beacon(v, v, ORIGIN, Speed(0.0, 0.0));
    var run := [Heard(0, b)];
    OneBeaconDecides(FAR, b, 0, ORIGIN, ORIGIN, 0);
    OneBeacon(FAR, 0, b);
    assert Uses(virtual, physical, run);
    assert Reused(FAR, run, v, ORIGIN, ORIGIN, 0);
  }

  lemma NoneInReach(t: map<nat, Neighbor>, pos: map<nat, Gps>)
    requires pos.Keys == t.Keys
    ensures Hop(Aim(FAR, ORIGIN, ORIGIN), t, pos) == BROADCAST
  {
    HopMeans(FAR, ORIGIN, ORIGIN, t, pos);
  }

  /** The beacon of a node whose virtual address is the broadcast address, and a packet for it that finds
      nobody in reach: its route now leads to that address. */
  lemma BroadcastIsReused(virtual: set<nat>, physical: set<nat>, p: nat)
    requires BROADCAST in virtual && p in physical && p != BROADCAST
    ensures SomeReuse(virtual, physical)
  {
    var b := Beacon(BROADCAST, p, ORIGIN, Speed(0.0, 0.0));
    var e := Routed(ORIGIN, Clock(0, 0, 0), Packet(BROADCAST, ORIGIN, ORIGIN), (k, h, t, s) => ORIGIN);
    var run := [Heard(0, b), e];
    OneBeacon(FAR, 0, b);
    assert run[..1] == [Heard(0, b)];
    var st := After(FAR, run[..1]);
    var live := LiveNeighbors(st.neighbors, 0, NEIGHBOR_TTL);
    NoneInReach(live, Predicted(live, 0, e.predict));
    assert live == st.neighbors;
    var after := After(FAR, run);
    assert after == Step(st, FAR, e);
    assert BROADCAST in after.routes && after.routes[BROADCAST].nextHop == BROADCAST;
    assert BROADCAST in after.neighbors;
    assert Uses(virtual, physical, run);
    assert InOrder(run);
    assert Reused(FAR, run, BROADCAST, ORIGIN, ORIGIN, 0);
  }

  lemma {:induction false} NoBeacons(geo: Geometry, virtual: set<nat>, run: seq<Event>)
    requires Uses(virtual, {}, run)
    ensures After(geo, run).neighbors == map[]
    decreases |run|
  {
    if run != [] {
      NoBeacons(geo, virtual, run[..|run| - 1]);
      assert run[|run| - 1] in run;
    }
  }

  lemma DisjointIsNotReused(virtual: set<nat>, physical: set<nat>, geo: Geometry, run: seq<Event>, k: nat, self: Gps,
                            dst: Gps, now: int)
    requires physical == {} || (BROADCAST !in virtual && virtual !! physical)
    requires Uses(virtual, physical, run)
    ensures !Reused(geo, run, k, self, dst, now)
  {
    if physical == {} {
      NoBeacons(geo, virtual, run);
    } else {
      StoredRoutesAreNeverLegal(geo, virtual, run);
    }
  }

  /** Which networks never use a stored route again: those without a beacon, and those in which no virtual
      address is a physical one or the broadcast address. */
  lemma ReuseNeedsSharedAddress(virtual: set<nat>, physical: set<nat>)
    ensures SomeReuse(virtual, physical) <==> physical != {} && (BROADCAST in virtual || !(virtual !! physical))
  {
    if physical != {} && !(virtual !! physical) {
      var v :| v in virtual && v in physical;
      SharedIsReused(virtual, physical, v);
    } else if physical != {} && BROADCAST in virtual {
      var p :| p in physical;
      BroadcastIsReused(virtual, physical, p);
    } else if SomeReuse(virtual, physical) {
      var geo, run, k: nat, self, dst, now :|
        Uses(virtual, physical, run) && InOrder(run) && EndTime(run) <= now && Reused(geo, run, k, self, dst, now);
      DisjointIsNotReused(virtual, physical, geo, run, k, self, dst, now);
      assert false;
    }
  }
}
