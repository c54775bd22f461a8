/** ir.cc: the neighbour and forward tables, and the choice of the next hop. */
module MeshRouting {
  import opened Options

  datatype Gps = Gps(x: real, y: real)

  datatype Speed = Speed(x: real, y: real)

  datatype Neighbor = Neighbor(gps: Gps, stamp: int, speed: Speed, phy: nat, history: seq<Gps>)

  datatype Route = Route(nextHop: nat, stamp: int, gps: Gps)

  /** GPSVec: CalTheate, CalTheata (of the two vectors from self), CalModule, MillierConvertion. */
  datatype Geometry = Geometry(angle: (Gps, Gps, Gps) -> real, theta: (Gps, Gps, Gps) -> real,
                               distance: (Gps, Gps) -> real, miller: Gps -> Gps)

  /** AdvancedPredict draws random numbers: the first argument says for which neighbour it is called. */
  type Predictor = (nat, seq<Gps>, int, Speed) -> Gps

  datatype Beacon = Beacon(vir: nat, phy: nat, gps: Gps, speed: Speed)

  /** The clock readings of one Forwarding call: its own, IsLegal's and RouteMakeup's. */
  datatype Clock = Clock(enter: int, check: int, route: int)

  datatype Packet = Packet(dst: nat, dstGps: Gps, stale: Gps)

  datatype Action = Flood | Send(hop: nat) | Drop

  datatype State = State(neighbors: map<nat, Neighbor>, routes: map<nat, Route>)

  const NEIGHBOR_TTL := 3000
  const BEACON_TTL := 5
  const HISTORY := 10
  const CONE := 3.14159 / 3.0
  const MAX_DISTANCE := 200.0
  const EPSILON := 0.00000001
  const BROADCAST := 0xFFFF_FFFF

  // ----- purging

  function LiveNeighbors(t: map<nat, Neighbor>, now: int, ttl: int): map<nat, Neighbor> {
    map k | k in t && now - t[k].stamp <= ttl :: t[k]
  }

  function LiveRoutes(t: map<nat, Route>, now: int, ttl: int): map<nat, Route> {
    map k | k in t && now - t[k].stamp <= ttl :: t[k]
  }

  /** A table halfway through a purge: the keys still to visit are all there. */
  function HalfPurged(t: map<nat, Neighbor>, todo: set<nat>, now: int, ttl: int): map<nat, Neighbor> {
    map k | k in t && (k in todo || now - t[k].stamp <= ttl) :: t[k]
  }

  lemma HalfPurgedStep(t: map<nat, Neighbor>, todo: set<nat>, now: int, ttl: int, k: nat)
    requires k in todo && k in t
    ensures HalfPurged(t, todo - {k}, now, ttl) ==
            if now - t[k].stamp > ttl then HalfPurged(t, todo, now, ttl) - {k} else HalfPurged(t, todo, now, ttl)
    ensures k in HalfPurged(t, todo, now, ttl) && HalfPurged(t, todo, now, ttl)[k] == t[k]
    ensures k in LiveNeighbors(t, now, ttl) <==> now - t[k].stamp <= ttl
  {
  }

  lemma AllPurged(t: map<nat, Neighbor>, now: int, ttl: int)
    ensures HalfPurged(t, {}, now, ttl) == LiveNeighbors(t, now, ttl)
  {
  }

  predicate IsLeast(k: nat, s: set<nat>) {
    k in s && forall j :: j in s ==> k <= j
  }

  lemma {:induction false} LeastExists(s: set<nat>)
    requires s != {}
    ensures exists k :: IsLeast(k, s)
    decreases |s|
  {
    var k :| k in s;
    if s == {k} {
      assert IsLeast(k, s);
    } else {
      var rest := s - {k};
      assert s == rest + {k};
      LeastExists(rest);
      var j :| IsLeast(j, rest);
      assert IsLeast(if j < k then j else k, s);
    }
  }

  /** std::map iterates in key order. */
  method NextKey(todo: set<nat>) returns (k: nat)
    requires todo != {}
    ensures IsLeast(k, todo)
  {
    LeastExists(todo);
    k :| k in todo && IsLeast(k, todo);
  }

  // ----- the nearest candidate

  datatype Aim = Aim(geo: Geometry, self: Gps, dst: Gps)

  function Reach(a: Aim, g: Gps): real {
    a.geo.distance(g, a.dst)
  }

  predicate Ahead(a: Aim, g: Gps) {
    a.geo.angle(a.self, g, a.dst) < CONE
  }

  function Positions(t: map<nat, Neighbor>): map<nat, Gps> {
    map k | k in t :: t[k].gps
  }

  function Predicted(t: map<nat, Neighbor>, now: int, p: Predictor): map<nat, Gps> {
    map k | k in t :: p(k, t[k].history, now - t[k].stamp, t[k].speed)
  }

  function AheadKeys(a: Aim, pos: map<nat, Gps>): set<nat> {
    set k | k in pos && Ahead(a, pos[k])
  }

  /** k is the nearest of keys to the destination, the lowest such key among equals. */
  predicate IsNearest(a: Aim, pos: map<nat, Gps>, keys: set<nat>, k: nat) {
    && k in keys && keys <= pos.Keys
    && forall j :: j in keys ==>
         Reach(a, pos[k]) < Reach(a, pos[j]) || (Reach(a, pos[k]) == Reach(a, pos[j]) && k <= j)
  }

  predicate SomeBelow(a: Aim, pos: map<nat, Gps>, keys: set<nat>, bound: real) {
    exists k :: k in keys && k in pos && Reach(a, pos[k]) < bound
  }

  const NEAR := MAX_DISTANCE - EPSILON

  /** What a next hop should be: none when every candidate is out of reach; else the nearest ahead
      if one ahead is within reach; else the nearest of all. */
  ghost predicate IsChoice(a: Aim, pos: map<nat, Gps>, h: Option<nat>) {
    match h
    case None => !SomeBelow(a, pos, pos.Keys, NEAR)
    case Some(k) =>
      && SomeBelow(a, pos, pos.Keys, NEAR)
      && if SomeBelow(a, pos, AheadKeys(a, pos), NEAR) then IsNearest(a, pos, AheadKeys(a, pos), k)
         else IsNearest(a, pos, pos.Keys, k)
  }

  lemma {:induction false} NearestExists(a: Aim, pos: map<nat, Gps>, keys: set<nat>)
    requires keys != {} && keys <= pos.Keys
    ensures exists k :: IsNearest(a, pos, keys, k)
    decreases |keys|
  {
    var k :| k in keys;
    if keys == {k} {
      assert IsNearest(a, pos, keys, k);
    } else {
      var rest := keys - {k};
      assert keys == rest + {k};
      NearestExists(a, pos, rest);
      var j :| IsNearest(a, pos, rest, j);
      var x, y := Reach(a, pos[k]), Reach(a, pos[j]);
      assert IsNearest(a, pos, keys, if x < y || (x == y && k < j) then k else j);
    }
  }

  lemma ChoiceExists(a: Aim, pos: map<nat, Gps>)
    ensures exists h :: IsChoice(a, pos, h)
  {
    if !SomeBelow(a, pos, pos.Keys, NEAR) {
      assert IsChoice(a, pos, None);
    } else {
      var keys := if SomeBelow(a, pos, AheadKeys(a, pos), NEAR) then AheadKeys(a, pos) else pos.Keys;
      NearestExists(a, pos, keys);
      var k :| IsNearest(a, pos, keys, k);
      assert IsChoice(a, pos, Some(k));
    }
  }

  lemma ChoiceIsUnique(a: Aim, pos: map<nat, Gps>, g: Option<nat>, h: Option<nat>)
    requires IsChoice(a, pos, g) && IsChoice(a, pos, h)
    ensures g == h
  {
  }

  ghost function Choice(a: Aim, pos: map<nat, Gps>): (h: Option<nat>)
    ensures IsChoice(a, pos, h)
    ensures h.Some? ==> h.value in pos
  {
    ChoiceExists(a, pos);
    var h :| IsChoice(a, pos, h);
    h
  }

  /** The address handed back: the chosen neighbour's, or broadcast when there is none. */
  ghost function Hop(a: Aim, t: map<nat, Neighbor>, pos: map<nat, Gps>): nat
    requires pos.Keys == t.Keys
  {
    var h := Choice(a, pos);
    if h.Some? then t[h.value].phy else BROADCAST
  }

  /** Neighbour k is the one to send to: in reach of the destination, ahead if one ahead is in reach, and of
      those ahead, or else of all, the nearest to the destination, with the lowest key among equals. */
  ghost predicate Leads(geo: Geometry, self: Gps, dst: Gps, pos: map<nat, Gps>, k: nat) {
    var reach, cone := 200.0 - 0.00000001, 3.14159 / 3.0;
    && k in pos && geo.distance(pos[k], dst) < reach
    && (forall j :: j in pos && geo.angle(self, pos[j], dst) < cone && geo.distance(pos[j], dst) < reach ==>
          geo.angle(self, pos[k], dst) < cone)
    && (forall j :: j in pos && (geo.angle(self, pos[k], dst) < cone ==> geo.angle(self, pos[j], dst) < cone) ==>
          geo.distance(pos[k], dst) < geo.distance(pos[j], dst) ||
          (geo.distance(pos[k], dst) == geo.distance(pos[j], dst) && k <= j))
  }

  /** The address handed back is broadcast when nobody is in reach, and otherwise belongs to who leads. */
  ghost predicate IsNextHop(geo: Geometry, self: Gps, dst: Gps, t: map<nat, Neighbor>, pos: map<nat, Gps>, hop: nat)
    requires pos.Keys == t.Keys
  {
    if forall j :: j in pos ==> geo.distance(pos[j], dst) >= 200.0 - 0.00000001 then hop == 0xFFFF_FFFF
    else exists k :: k in t && Leads(geo, self, dst, pos, k) && hop == t[k].phy
  }

  lemma ChosenLeads(geo: Geometry, self: Gps, dst: Gps, pos: map<nat, Gps>, k: nat)
    requires IsChoice(Aim(geo, self, dst), pos, Some(k))
    ensures Leads(geo, self, dst, pos, k)
  {
    var a := Aim(geo, self, dst);
    var keys := if SomeBelow(a, pos, AheadKeys(a, pos), NEAR) then AheadKeys(a, pos) else pos.Keys;
    assert SomeBelow(a, pos, keys, NEAR) && IsNearest(a, pos, keys, k);
  }

  /** The law of the next hop, spelled out in distances and angles. */
  lemma HopMeans(geo: Geometry, self: Gps, dst: Gps, t: map<nat, Neighbor>, pos: map<nat, Gps>)
    requires pos.Keys == t.Keys
    ensures IsNextHop(geo, self, dst, t, pos, Hop(Aim(geo, self, dst), t, pos))
  {
    var a := Aim(geo, self, dst);
    var h := Choice(a, pos);
    assert IsChoice(a, pos, h);
    if j :| j in pos && geo.distance(pos[j], dst) < 200.0 - 0.00000001 {
      assert j in pos.Keys && Reach(a, pos[j]) < NEAR;
      ChosenLeads(geo, self, dst, pos, h.value);
    }
  }

  lemma BroadcastIffNoneInReach(geo: Geometry, self: Gps, dst: Gps, t: map<nat, Neighbor>, pos: map<nat, Gps>)
    requires pos.Keys == t.Keys
    requires forall k :: k in t ==> t[k].phy != 0xFFFF_FFFF
    ensures Hop(Aim(geo, self, dst), t, pos) == 0xFFFF_FFFF <==>
            forall k :: k in t ==> geo.distance(pos[k], dst) >= 200.0 - 0.00000001
  {
    HopMeans(geo, self, dst, t, pos);
  }

  /** With a predictor that leaves everyone in place, RouteMakeup answers as CalNexHop does. */
  lemma IdentityPredictor(a: Aim, t: map<nat, Neighbor>, now: int, p: Predictor)
    requires forall k :: k in t ==> p(k, t[k].history, now - t[k].stamp, t[k].speed) == t[k].gps
    ensures Hop(a, t, Predicted(t, now, p)) == Hop(a, t, Positions(t))
  {
    assert Predicted(t, now, p) == Positions(t);
  }

  /** best is what one pass of a loop has found among the keys it has seen, d its distance. */
  ghost predicate Scanned(a: Aim, pos: map<nat, Gps>, seen: set<nat>, bound: real, best: Option<nat>, d: real) {
    && seen <= pos.Keys
    && match best
       case None => d == bound && !SomeBelow(a, pos, seen, bound)
       case Some(k) => IsNearest(a, pos, seen, k) && d == Reach(a, pos[k]) < bound
  }

  lemma ScanStep(a: Aim, pos: map<nat, Gps>, seen: set<nat>, bound: real, best: Option<nat>, d: real, k: nat)
    requires Scanned(a, pos, seen, bound, best, d) && k in pos
    requires forall j :: j in seen ==> j < k
    ensures if Reach(a, pos[k]) < d then Scanned(a, pos, seen + {k}, bound, Some(k), Reach(a, pos[k]))
            else Scanned(a, pos, seen + {k}, bound, best, d)
  {
    if Reach(a, pos[k]) < d {
      forall j | j in seen + {k}
        ensures Reach(a, pos[k]) < Reach(a, pos[j]) || (Reach(a, pos[k]) == Reach(a, pos[j]) && k <= j)
      {
        if best.None? && j != k {
          assert !SomeBelow(a, pos, seen, bound);
        }
      }
    }
  }

  /** The first pass settles the choice when it ends below the limit. */
  lemma AheadSettles(a: Aim, pos: map<nat, Gps>, best: Option<nat>, d: real)
    requires Scanned(a, pos, AheadKeys(a, pos), MAX_DISTANCE, best, d) && d < NEAR
    ensures best.Some? && Choice(a, pos) == best
  {
    var k := best.value;
    assert k in AheadKeys(a, pos) && k in pos.Keys && Reach(a, pos[k]) < NEAR;
    assert SomeBelow(a, pos, AheadKeys(a, pos), NEAR) && SomeBelow(a, pos, pos.Keys, NEAR);
    ChoiceIsUnique(a, pos, best, Choice(a, pos));
  }

  /** Otherwise the second pass, run over everyone from the first one's distance, settles it. */
  lemma AllSettle(a: Aim, pos: map<nat, Gps>, best1: Option<nat>, d1: real, best2: Option<nat>, d2: real)
    requires Scanned(a, pos, AheadKeys(a, pos), MAX_DISTANCE, best1, d1) && NEAR <= d1
    requires Scanned(a, pos, pos.Keys, d1, best2, d2)
    ensures Choice(a, pos) == if d2 < NEAR then best2 else None
    ensures d2 < NEAR ==> best2.Some?
    ensures d1 <= MAX_DISTANCE && d2 <= MAX_DISTANCE
  {
    if d2 < NEAR {
      var k := best2.value;
      assert k in pos.Keys && Reach(a, pos[k]) < NEAR;
      assert SomeBelow(a, pos, pos.Keys, NEAR);
      assert !SomeBelow(a, pos, AheadKeys(a, pos), NEAR);
      ChoiceIsUnique(a, pos, best2, Choice(a, pos));
    } else {
      assert !SomeBelow(a, pos, pos.Keys, NEAR);
      ChoiceIsUnique(a, pos, None, Choice(a, pos));
    }
  }

  predicate NoNearer(d: real) {
    -EPSILON <= d - MAX_DISTANCE <= EPSILON
  }

  // ----- one event

  function Push(h: seq<Gps>, g: Gps): seq<Gps> {
    (if |h| == HISTORY then h[1..] else h) + [g]
  }

  function AfterBeacon(st: State, geo: Geometry, now: int, b: Beacon): State {
    var nb := LiveNeighbors(st.neighbors, now, BEACON_TTL);
    var rt := LiveRoutes(st.routes, now, BEACON_TTL);
    var p := geo.miller(b.gps);
    State(nb[b.vir := if b.vir in nb then Neighbor(b.gps, now, b.speed, nb[b.vir].phy, Push(nb[b.vir].history, p))
                      else Neighbor(b.gps, now, b.speed, b.phy, [p])],
          rt[b.vir := Route(b.phy, now, b.gps)])
  }

  predicate IsPole(g: Gps) {
    -EPSILON <= g.x <= EPSILON && -EPSILON <= g.y - 90.0 <= EPSILON
  }

  /** IsLegal's answer, and the neighbour table it leaves. */
  function Legal(t: map<nat, Neighbor>, a: Aim, now: int, hop: nat): (bool, map<nat, Neighbor>) {
    if hop !in t then (false, t)
    else if now - t[hop].stamp > NEIGHBOR_TTL then (false, t - {hop})
    else (a.geo.theta(a.self, a.dst, t[hop].gps) < CONE, t)
  }

  function Sending(hop: nat): Action {
    if hop != BROADCAST then Send(hop) else Drop
  }

  /** The tables and the packet's fate after one call of Forwarding. */
  ghost function Forwarded(st: State, geo: Geometry, self: Gps, c: Clock, k: Packet, p: Predictor): (State, Action) {
    var a := Aim(geo, self, k.dstGps);
    var live := LiveNeighbors(st.neighbors, c.route, NEIGHBOR_TTL);
    var hop := Hop(a, live, Predicted(live, c.route, p));
    if k.dst !in st.routes then
      if IsPole(k.dstGps) then (st, Flood)
      else if hop == BROADCAST then (State(live, st.routes), Drop)
      else (State(live, st.routes[k.dst := Route(hop, c.enter, k.stale)]), Send(hop))
    else
      var r := st.routes[k.dst];
      if c.enter - r.stamp > NEIGHBOR_TTL then
        if IsPole(k.dstGps) then (st, Flood)
        else if hop == BROADCAST then (State(live, st.routes), Drop)
        else (State(live, st.routes[k.dst := Route(hop, c.enter, r.gps)]), Send(hop))
      else
        var (legal, nb) := Legal(st.neighbors, a, c.check, r.nextHop);
        if legal then (State(nb, st.routes), Sending(r.nextHop))
        else
          var left := LiveNeighbors(nb, c.route, NEIGHBOR_TTL);
          var again := Hop(a, left, Predicted(left, c.route, p));
          (State(left, st.routes[k.dst := Route(again, c.enter, r.gps)]), Sending(again))
  }

  /** The next hop is chosen over the predicted positions of the neighbours left, taken, and stored. */
  ghost predicate ChosenAnew(routes: map<nat, Route>, geo: Geometry, self: Gps, c: Clock, k: Packet, p: Predictor,
                             known: bool, after: State, sent: Action)
  {
    var t := after.neighbors;
    var pos := map j | j in t :: p(j, t[j].history, c.route - t[j].stamp, t[j].speed);
    exists hop: nat ::
      && IsNextHop(geo, self, k.dstGps, t, pos, hop)
      && sent == (if hop == 0xFFFF_FFFF then Drop else Send(hop))
      && after.routes ==
         if hop == 0xFFFF_FFFF && !known then routes
         else routes[k.dst := Route(hop, c.enter, if k.dst in routes then routes[k.dst].gps else k.stale)]
  }

  /** What one call of Forwarding does, in clock readings, distances and angles: a legal stored route is used
      as it is; otherwise, unless the destination is unknown or expired and lies at the pole, whoever has expired
      goes and the next hop is chosen anew. */
  ghost predicate IsForwarding(st: State, geo: Geometry, self: Gps, c: Clock, k: Packet, p: Predictor,
                               after: State, sent: Action)
  {
    var known := k.dst in st.routes && c.enter - st.routes[k.dst].stamp <= 3000;
    var h := if known then st.routes[k.dst].nextHop else 0;
    var alive := known && h in st.neighbors && c.check - st.neighbors[h].stamp <= 3000;
    if alive && geo.theta(self, k.dstGps, st.neighbors[h].gps) < 3.14159 / 3.0 then
      after == st && sent == if h == 0xFFFF_FFFF then Drop else Send(h)
    else if !known && -0.00000001 <= k.dstGps.x <= 0.00000001 && -0.00000001 <= k.dstGps.y - 90.0 <= 0.00000001 then
      after == st && sent == Flood
    else
      && after.neighbors == (map j | j in st.neighbors && c.route - st.neighbors[j].stamp <= 3000 &&
                                     (known && j == h ==> alive) :: st.neighbors[j])
      && ChosenAnew(st.routes, geo, self, c, k, p, known, after, sent)
  }

  /** The tables and the action once hop is chosen among the neighbours left. */
  lemma ChoiceMeans(routes: map<nat, Route>, geo: Geometry, self: Gps, c: Clock, k: Packet, p: Predictor, known: bool,
                    left: map<nat, Neighbor>, after: State, sent: Action)
    requires var hop := Hop(Aim(geo, self, k.dstGps), left, Predicted(left, c.route, p));
             && after.neighbors == left && sent == Sending(hop)
             && after.routes ==
                if hop == BROADCAST && !known then routes
                else routes[k.dst := Route(hop, c.enter, if k.dst in routes then routes[k.dst].gps else k.stale)]
    ensures ChosenAnew(routes, geo, self, c, k, p, known, after, sent)
  {
    HopMeans(geo, self, k.dstGps, left, Predicted(left, c.route, p));
    assert Predicted(left, c.route, p) ==
           map j | j in left :: p(j, left[j].history, c.route - left[j].stamp, left[j].speed);
  }

  lemma UnknownMeans(st: State, geo: Geometry, self: Gps, c: Clock, k: Packet, p: Predictor)
    requires k.dst in st.routes ==> c.enter - st.routes[k.dst].stamp > 3000
    ensures var (after, sent) := Forwarded(st, geo, self, c, k, p);
            IsForwarding(st, geo, self, c, k, p, after, sent)
  {
    var (after, sent) := Forwarded(st, geo, self, c, k, p);
    if !IsPole(k.dstGps) {
      ChoiceMeans(st.routes, geo, self, c, k, p, false, LiveNeighbors(st.neighbors, c.route, NEIGHBOR_TTL), after, sent);
    }
  }

  lemma KnownMeans(st: State, geo: Geometry, self: Gps, c: Clock, k: Packet, p: Predictor)
    requires k.dst in st.routes && c.enter - st.routes[k.dst].stamp <= 3000
    ensures var (after, sent) := Forwarded(st, geo, self, c, k, p);
            IsForwarding(st, geo, self, c, k, p, after, sent)
  {
    var (after, sent) := Forwarded(st, geo, self, c, k, p);
    var (legal, nb) := Legal(st.neighbors, Aim(geo, self, k.dstGps), c.check, st.routes[k.dst].nextHop);
    if !legal {
      ChoiceMeans(st.routes, geo, self, c, k, p, true, LiveNeighbors(nb, c.route, NEIGHBOR_TTL), after, sent);
    }
  }

  /** The specification of Forwarding says what it should. */
  lemma ForwardedMeans(st: State, geo: Geometry, self: Gps, c: Clock, k: Packet, p: Predictor)
    ensures var (after, sent) := Forwarded(st, geo, self, c, k, p);
            IsForwarding(st, geo, self, c, k, p, after, sent)
  {
    if k.dst in st.routes && c.enter - st.routes[k.dst].stamp <= 3000 {
      KnownMeans(st, geo, self, c, k, p);
    } else {
      UnknownMeans(st, geo, self, c, k, p);
    }
  }

  /** RouteMakeup's localNeighborTable: the predicted positions in key order. */
  predicate Lists(local: seq<(nat, Gps)>, pos: map<nat, Gps>) {
    && (forall i :: 0 <= i < |local| ==> local[i].0 in pos && local[i].1 == pos[local[i].0])
    && (forall i, j :: 0 <= i < j < |local| ==> local[i].0 < local[j].0)
  }

  function KeysOf(local: seq<(nat, Gps)>): set<nat> {
    set i | 0 <= i < |local| :: local[i].0
  }

  lemma KeysOfLonger(local: seq<(nat, Gps)>, n: nat)
    requires n < |local|
    ensures KeysOf(local[..n + 1]) == KeysOf(local[..n]) + {local[n].0}
  {
    var a, b := local[..n + 1], local[..n];
    assert a[n] == local[n];
    assert forall i :: 0 <= i < n ==> a[i] == b[i];
    assert KeysOf(b) <= KeysOf(a) && a[n].0 in KeysOf(a);
  }

  lemma NextInOrder(a: Aim, local: seq<(nat, Gps)>, pos: map<nat, Gps>, n: nat)
    requires Lists(local, pos) && n < |local|
    ensures var k, seen := local[n].0, AheadKeys(a, pos) * KeysOf(local[..n]);
            && (forall j :: j in KeysOf(local[..n]) ==> j < k)
            && AheadKeys(a, pos) * KeysOf(local[..n + 1]) == if Ahead(a, local[n].1) then seen + {k} else seen
    ensures local[n].0 in KeysOf(local)
  {
    KeysOfLonger(local, n);
    assert forall i :: 0 <= i < n ==> local[..n][i] == local[i];
  }

  /** local covers the keys of pos outside todo, and these all come before the ones in todo. */
  predicate ListsDone(local: seq<(nat, Gps)>, pos: map<nat, Gps>, todo: set<nat>) {
    && Lists(local, pos) && KeysOf(local) == pos.Keys - todo
    && forall j, k :: j in pos && j !in todo && k in todo ==> j < k
  }

  lemma AllListed(local: seq<(nat, Gps)>, pos: map<nat, Gps>)
    requires ListsDone(local, pos, {})
    ensures Lists(local, pos) && KeysOf(local) == pos.Keys
  {
  }

  lemma ListOneMore(local: seq<(nat, Gps)>, pos: map<nat, Gps>, todo: set<nat>, k: nat)
    requires ListsDone(local, pos, todo) && IsLeast(k, todo)
    ensures k in pos ==> ListsDone(local + [(k, pos[k])], pos, todo - {k})
    ensures k !in pos ==> ListsDone(local, pos, todo - {k})
  {
    if k !in pos {
      return;
    }
    assert forall j :: j in KeysOf(local) ==> j < k;
    var longer := local + [(k, pos[k])];
    assert longer[..|local|] == local && longer[..|local| + 1] == longer;
    KeysOfLonger(longer, |local|);
    forall i | 0 <= i < |local|
      ensures longer[i].0 < k
    {
      assert longer[i].0 in KeysOf(local);
    }
  }

  lemma PredictedAt(t: map<nat, Neighbor>, now: int, p: Predictor, k: nat)
    requires k in t
    ensures var pos, n := Predicted(LiveNeighbors(t, now, NEIGHBOR_TTL), now, p), t[k];
            && (k in pos <==> now - n.stamp <= NEIGHBOR_TTL)
            && (k in pos ==> pos[k] == p(k, n.history, now - n.stamp, n.speed))
  {
  }

  class Router {
    const geo: Geometry
    var self: Gps
    var neighbors: map<nat, Neighbor>
    var routes: map<nat, Route>

    ghost function Abstract(): State
      reads this
    {
      State(neighbors, routes)
    }

    constructor (geo: Geometry, self: Gps)
      ensures this.geo == geo && this.self == self && Abstract() == State(map[], map[])
    {
      this.geo, this.self := geo, self;
      neighbors, routes := map[], map[];
    }

    /** What a sender learns about a destination; entries are not checked for age here. */
    method GpsByIp(dst: nat) returns (found: bool, hop: nat, gps: Gps)
      ensures found == (dst in routes)
      ensures found ==> hop == routes[dst].nextHop && gps == routes[dst].gps
    {
      found, hop, gps := dst in routes, 0, self;
      if found {
        hop, gps := routes[dst].nextHop, routes[dst].gps;
      }
    }

    method IsLegal(hop: nat, dstGps: Gps, now: int) returns (ok: bool)
      modifies this`neighbors
      ensures (ok, neighbors) == Legal(old(neighbors), Aim(geo, self, dstGps), now, hop)
      ensures ok <==> hop in old(neighbors) && now - old(neighbors)[hop].stamp <= 3000 &&
                      geo.theta(self, dstGps, old(neighbors)[hop].gps) < 3.14159 / 3.0
    {
      if hop !in neighbors {
        return false;
      }
      if now - neighbors[hop].stamp > NEIGHBOR_TTL {
        neighbors := neighbors - {hop};
        return false;
      }
      var angle := geo.theta(self, dstGps, neighbors[hop].gps);
      ok := angle < CONE;
    }

    /** The second pass of CalNexHop: everyone, whatever the direction. */
    method NearestOfAll(dstGps: Gps, first: nat, start: real) returns (hop: nat, best: Option<nat>, disMax: real)
      ensures Scanned(Aim(geo, self, dstGps), Positions(neighbors), neighbors.Keys, start, best, disMax)
      ensures hop == if best.Some? then neighbors[best.value].phy else first
    {
      var a := Aim(geo, self, dstGps);
      ghost var pos := Positions(neighbors);
      hop, best, disMax := first, None, start;
      var todo := neighbors.Keys;
      ghost var seen := {};
      while todo != {}
        invariant todo <= neighbors.Keys && seen == neighbors.Keys - todo
        invariant forall i, j :: i in seen && j in todo ==> i < j
        invariant Scanned(a, pos, seen, start, best, disMax)
        invariant hop == if best.Some? then neighbors[best.value].phy else first
        decreases todo
      {
        var k := NextKey(todo);
        ScanStep(a, pos, seen, start, best, disMax, k);
        var dis := geo.distance(neighbors[k].gps, dstGps);
        if dis < disMax {
          disMax, best, hop := dis, Some(k), neighbors[k].phy;
        }
        todo, seen := todo - {k}, seen + {k};
      }
    }

    /** The first pass of CalNexHop: drop what has expired, and look ahead among the rest. */
    method PurgeAndLookAhead(dstGps: Gps, now: int) returns (hop: nat, best: Option<nat>, disMax: real)
      modifies this`neighbors
      ensures neighbors == LiveNeighbors(old(neighbors), now, NEIGHBOR_TTL)
      ensures var a, pos := Aim(geo, self, dstGps), Positions(neighbors);
              Scanned(a, pos, AheadKeys(a, pos), MAX_DISTANCE, best, disMax)
      ensures hop == if best.Some? then neighbors[best.value].phy else 0
    {
      var a := Aim(geo, self, dstGps);
      ghost var all := neighbors;
      ghost var live := LiveNeighbors(all, now, NEIGHBOR_TTL);
      ghost var pos := Positions(live);
      hop, best, disMax := 0, None, MAX_DISTANCE;
      var todo := neighbors.Keys;
      ghost var seen: set<nat> := {};
      while todo != {}
        modifies this`neighbors
        invariant todo <= all.Keys && neighbors == HalfPurged(all, todo, now, NEIGHBOR_TTL)
        invariant seen == AheadKeys(a, pos) - todo
        invariant forall i, j :: i in seen && j in todo ==> i < j
        invariant Scanned(a, pos, seen, MAX_DISTANCE, best, disMax)
        invariant hop == if best.Some? then live[best.value].phy else 0
        decreases todo
      {
        var k := NextKey(todo);
        if now - neighbors[k].stamp > NEIGHBOR_TTL {
          neighbors := neighbors - {k};
        } else {
          var gps := neighbors[k].gps;
          var angle := geo.angle(self, gps, dstGps);
          if angle < CONE {
            ScanStep(a, pos, seen, MAX_DISTANCE, best, disMax, k);
            var dis := geo.distance(gps, dstGps);
            if dis < disMax {
              disMax, best, hop := dis, Some(k), neighbors[k].phy;
            }
            seen := seen + {k};
          }
        }
        todo := todo - {k};
      }
      assert neighbors == live;
      assert seen == AheadKeys(a, pos);
    }

    method CalNexHop(dstGps: Gps, now: int) returns (r: nat)
      modifies this`neighbors
      ensures neighbors == LiveNeighbors(old(neighbors), now, NEIGHBOR_TTL)
      ensures r == Hop(Aim(geo, self, dstGps), neighbors, Positions(neighbors))
      ensures forall k :: k in neighbors <==> k in old(neighbors) && now - old(neighbors)[k].stamp <= 3000
      ensures IsNextHop(geo, self, dstGps, neighbors, map k | k in neighbors :: neighbors[k].gps, r)
    {
      HopMeans(geo, self, dstGps, LiveNeighbors(neighbors, now, NEIGHBOR_TTL),
               Positions(LiveNeighbors(neighbors, now, NEIGHBOR_TTL)));
      ghost var a := Aim(geo, self, dstGps);
      var hop, best, disMax := PurgeAndLookAhead(dstGps, now);
      if NoNearer(disMax) {
        var hop2, best2, disMax2 := NearestOfAll(dstGps, hop, disMax);
        AllSettle(a, Positions(neighbors), best, disMax, best2, disMax2);
        return if NoNearer(disMax2) then BROADCAST else hop2;
      }
      AheadSettles(a, Positions(neighbors), best, disMax);
      return hop;
    }

    /** One round of RouteMakeup's first loop: neighbour k goes, or its predicted position is noted. */
    method PurgeOrPredict(k: nat, now: int, p: Predictor, local: seq<(nat, Gps)>) returns (longer: seq<(nat, Gps)>)
      requires k in neighbors
      modifies this`neighbors
      ensures var n := old(neighbors)[k];
              if now - n.stamp > NEIGHBOR_TTL then neighbors == old(neighbors) - {k} && longer == local
              else neighbors == old(neighbors) && longer == local + [(k, p(k, n.history, now - n.stamp, n.speed))]
    {
      var n := neighbors[k];
      longer := local;
      if now - n.stamp > NEIGHBOR_TTL {
        neighbors := neighbors - {k};
      } else {
        longer := local + [(k, p(k, n.history, now - n.stamp, n.speed))];
      }
    }

    /** Of the keys still to visit the least comes next. */
    method PurgeOrPredictNext(now: int, p: Predictor, local: seq<(nat, Gps)>, todo: set<nat>,
                              ghost all: map<nat, Neighbor>, ghost pos: map<nat, Gps>)
      returns (longer: seq<(nat, Gps)>, rest: set<nat>)
      requires todo != {} && todo <= all.Keys && neighbors == HalfPurged(all, todo, now, NEIGHBOR_TTL)
      requires pos == Predicted(LiveNeighbors(all, now, NEIGHBOR_TTL), now, p) && ListsDone(local, pos, todo)
      modifies this`neighbors
      ensures rest < todo && neighbors == HalfPurged(all, rest, now, NEIGHBOR_TTL) && ListsDone(longer, pos, rest)
    {
      var k := NextKey(todo);
      HalfPurgedStep(all, todo, now, NEIGHBOR_TTL, k);
      PredictedAt(all, now, p, k);
      ListOneMore(local, pos, todo, k);
      longer := PurgeOrPredict(k, now, p, local);
      rest := todo - {k};
    }

    /** The first loop of RouteMakeup: drop what has expired, and predict where the rest are. */
    method PurgeAndPredict(now: int, p: Predictor) returns (local: seq<(nat, Gps)>)
      modifies this`neighbors
      ensures neighbors == LiveNeighbors(old(neighbors), now, NEIGHBOR_TTL)
      ensures Lists(local, Predicted(neighbors, now, p)) && KeysOf(local) == neighbors.Keys
    {
      ghost var all := neighbors;
      ghost var pos := Predicted(LiveNeighbors(all, now, NEIGHBOR_TTL), now, p);
      local := [];
      var todo := neighbors.Keys;
      while todo != {}
        modifies this`neighbors
        invariant todo <= all.Keys && neighbors == HalfPurged(all, todo, now, NEIGHBOR_TTL)
        invariant ListsDone(local, pos, todo)
        decreases todo
      {
        local, todo := PurgeOrPredictNext(now, p, local, todo, all, pos);
      }
      AllPurged(all, now, NEIGHBOR_TTL);
      AllListed(local, pos);
    }

    /** RouteMakeup's first scan of its vector. */
    method ScanAhead(dstGps: Gps, local: seq<(nat, Gps)>, ghost pos: map<nat, Gps>)
      returns (hop: nat, best: Option<nat>, disMax: real)
      requires Lists(local, pos) && KeysOf(local) == pos.Keys == neighbors.Keys
      ensures var a := Aim(geo, self, dstGps); Scanned(a, pos, AheadKeys(a, pos), MAX_DISTANCE, best, disMax)
      ensures hop == if best.Some? then neighbors[best.value].phy else 0
    {
      var a := Aim(geo, self, dstGps);
      hop, best, disMax := 0, None, MAX_DISTANCE;
      ghost var seen: set<nat> := {};
      var i := 0;
      while i < |local|
        invariant 0 <= i <= |local|
        invariant seen == AheadKeys(a, pos) * KeysOf(local[..i])
        invariant Scanned(a, pos, seen, MAX_DISTANCE, best, disMax)
        invariant hop == if best.Some? then neighbors[best.value].phy else 0
      {
        var (k, gps) := local[i];
        NextInOrder(a, local, pos, i);
        var angle := geo.angle(self, gps, dstGps);
        if angle < CONE {
          ScanStep(a, pos, seen, MAX_DISTANCE, best, disMax, k);
          var dis := geo.distance(gps, dstGps);
          if dis < disMax {
            disMax, best, hop := dis, Some(k), neighbors[k].phy;
          }
          seen := seen + {k};
        }
        i := i + 1;
      }
      assert local[..i] == local;
    }

    /** And its second one. */
    method ScanAll(dstGps: Gps, local: seq<(nat, Gps)>, ghost pos: map<nat, Gps>, first: nat, start: real)
      returns (hop: nat, best: Option<nat>, disMax: real)
      requires Lists(local, pos) && KeysOf(local) == pos.Keys == neighbors.Keys
      ensures Scanned(Aim(geo, self, dstGps), pos, pos.Keys, start, best, disMax)
      ensures hop == if best.Some? then neighbors[best.value].phy else first
    {
      var a := Aim(geo, self, dstGps);
      hop, best, disMax := first, None, start;
      var i := 0;
      while i < |local|
        invariant 0 <= i <= |local|
        invariant Scanned(a, pos, KeysOf(local[..i]), start, best, disMax)
        invariant hop == if best.Some? then neighbors[best.value].phy else first
      {
        var (k, gps) := local[i];
        NextInOrder(a, local, pos, i);
        KeysOfLonger(local, i);
        ScanStep(a, pos, KeysOf(local[..i]), start, best, disMax, k);
        var dis := geo.distance(gps, dstGps);
        if dis < disMax {
          disMax, best, hop := dis, Some(k), neighbors[k].phy;
        }
        i := i + 1;
      }
      assert local[..i] == local;
    }

    method RouteMakeup(dstGps: Gps, now: int, p: Predictor) returns (r: nat)
      modifies this`neighbors
      ensures neighbors == LiveNeighbors(old(neighbors), now, NEIGHBOR_TTL)
      ensures r == Hop(Aim(geo, self, dstGps), neighbors, Predicted(neighbors, now, p))
      ensures forall k :: k in neighbors <==> k in old(neighbors) && now - old(neighbors)[k].stamp <= 3000
      ensures IsNextHop(geo, self, dstGps, neighbors,
                        map k | k in neighbors :: p(k, neighbors[k].history, now - neighbors[k].stamp, neighbors[k].speed), r)
    {
      HopMeans(geo, self, dstGps, LiveNeighbors(neighbors, now, NEIGHBOR_TTL),
               Predicted(LiveNeighbors(neighbors, now, NEIGHBOR_TTL), now, p));
      ghost var a := Aim(geo, self, dstGps);
      var local := PurgeAndPredict(now, p);
      ghost var pos := Predicted(neighbors, now, p);
      var hop, best, disMax := ScanAhead(dstGps, local, pos);
      if NoNearer(disMax) {
        var hop2, best2, disMax2 := ScanAll(dstGps, local, pos, hop, disMax);
        AllSettle(a, pos, best, disMax, best2, disMax2);
        return if NoNearer(disMax2) then BROADCAST else hop2;
      }
      AheadSettles(a, pos, best, disMax);
      return hop;
    }

    method Forwarding(k: Packet, c: Clock, p: Predictor) returns (sent: Action)
      modifies this`neighbors, this`routes
      ensures (Abstract(), sent) == Forwarded(old(Abstract()), geo, self, c, k, p)
      ensures IsForwarding(old(Abstract()), geo, self, c, k, p, Abstract(), sent)
    {
      ForwardedMeans(Abstract(), geo, self, c, k, p);
      var hop := 0;
      if k.dst !in routes {
        if IsPole(k.dstGps) {
          return Flood;
        }
        hop := RouteMakeup(k.dstGps, c.route, p);
        if hop != BROADCAST {
          routes := routes[k.dst := Route(hop, c.enter, k.stale)];
        }
      } else if c.enter - routes[k.dst].stamp > NEIGHBOR_TTL {
        if IsPole(k.dstGps) {
          return Flood;
        }
        hop := RouteMakeup(k.dstGps, c.route, p);
        if hop != BROADCAST {
          routes := routes[k.dst := routes[k.dst].(nextHop := hop, stamp := c.enter)];
        }
      } else {
        var legal := IsLegal(routes[k.dst].nextHop, k.dstGps, c.check);
        if legal {
          hop := routes[k.dst].nextHop;
        } else {
          hop := RouteMakeup(k.dstGps, c.route, p);
          routes := routes[k.dst := routes[k.dst].(nextHop := hop, stamp := c.enter)];
        }
      }
      sent := Sending(hop);
    }

    method PurgeNeighbors(now: int)
      modifies this`neighbors
      ensures neighbors == LiveNeighbors(old(neighbors), now, BEACON_TTL)
    {
      ghost var all := neighbors;
      var todo := neighbors.Keys;
      while todo != {}
        modifies this`neighbors
        invariant todo <= all.Keys && neighbors == HalfPurged(all, todo, now, BEACON_TTL)
        decreases todo
      {
        var k := NextKey(todo);
        if now - neighbors[k].stamp > BEACON_TTL {
          neighbors := neighbors - {k};
        }
        todo := todo - {k};
      }
    }

    method PurgeRoutes(now: int)
      modifies this`routes
      ensures routes == LiveRoutes(old(routes), now, BEACON_TTL)
    {
      ghost var all := routes;
      var todo := routes.Keys;
      while todo != {}
        modifies this`routes
        invariant todo <= all.Keys
        invariant routes == map k | k in all && (k in todo || now - all[k].stamp <= BEACON_TTL) :: all[k]
        decreases todo
      {
        var k := NextKey(todo);
        if now - routes[k].stamp > BEACON_TTL {
          routes := routes - {k};
        }
        todo := todo - {k};
      }
    }

    method BuildNeighbor(b: Beacon, now: int)
      modifies this`neighbors, this`routes
      ensures Abstract() == AfterBeacon(old(Abstract()), geo, now, b)
      ensures b.vir in routes && routes[b.vir] == Route(b.phy, now, b.gps)
      ensures forall k :: k != b.vir ==> (k in routes <==> k in old(routes) && now - old(routes)[k].stamp <= 5)
    {
      PurgeNeighbors(now);
      PurgeRoutes(now);
      routes := routes[b.vir := Route(b.phy, now, b.gps)];
      if b.vir in neighbors {
        var n := neighbors[b.vir].(stamp := now, speed := b.speed, gps := b.gps);
        if |n.history| == HISTORY {
          n := n.(history := n.history[1..]);
        }
        n := n.(history := n.history + [geo.miller(b.gps)]);
        neighbors := neighbors[b.vir := n];
      } else {
        neighbors := neighbors[b.vir := Neighbor(b.gps, now, b.speed, b.phy, [geo.miller(b.gps)])];
      }
    }
  }
}
