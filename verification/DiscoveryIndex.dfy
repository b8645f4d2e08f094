/** The discovery index: per side a route, per route the announcers heard on it, per announcer the
    boards it told of; endpoint sets, source sets and times are cached at both upper levels. */
module DiscoveryIndex {
  import opened Bytes
  import opened Sorting
  import opened Schema
  import opened Boards
  import opened MapPasses

  const TTL_MS: uint64 := 30000

  datatype Sender = Sender(endpoints: set<uint32>, sources: set<bytestring>, boards: seq<Board>, lastSeenMs: uint64)

  datatype Route = Route(endpoints: set<uint32>, sources: set<bytestring>, lastSeenMs: uint64,
                         announcers: map<bytestring, Sender>)

  type Routes = map<int, Route>

  const NewSender: Sender := Sender({}, {}, [], 0)
  const NewRoute: Route := Route({}, {}, 0, map[])

  predicate Stale(now: uint64, seen: uint64) { Elapsed(now, seen) > TTL_MS }

  // ---------------------------------------------------------------- the cached sums

  function EndpointsOf(bs: seq<Board>): set<uint32> { set b, ep | b in bs && ep in b.endpoints :: ep }

  function SourcesOf(bs: seq<Board>): set<bytestring> { set b, s | b in bs && s in b.sources :: s }

  function AllEndpoints(m: map<bytestring, Sender>): set<uint32> { set a, ep | a in m && ep in m[a].endpoints :: ep }

  function AllSources(m: map<bytestring, Sender>): set<bytestring> { set a, s | a in m && s in m[a].sources :: s }

  /** The largest last-seen time, 0 without announcers. */
  ghost predicate IsLatest(m: map<bytestring, Sender>, t: uint64) {
    && (forall a :: a in m ==> m[a].lastSeenMs <= t)
    && (if m == map[] then t == 0 else exists a :: a in m && m[a].lastSeenMs == t)
  }

  ghost function Latest(m: map<bytestring, Sender>): (t: uint64)
    ensures IsLatest(m, t)
    decreases |m|
  {
    if m == map[] then 0
    else
      SomeKey(m);
      var a :| a in m;
      var rest := m - {a};
      var t := Latest(rest);
      assert forall x :: x in m && x != a ==> x in rest && rest[x] == m[x];
      assert rest != map[] ==> forall x :: x in rest ==> x in m && rest[x] == m[x];
      if m[a].lastSeenMs >= t then m[a].lastSeenMs else t
  }

  lemma SomeKey<K, V>(m: map<K, V>)
    ensures m == map[] || exists a :: a in m
  {}

  /** refresh_sender_topology_state */
  function Refresh(s: Sender): Sender {
    var bs := NormalizeBoards(s.boards);
    s.(boards := bs, endpoints := EndpointsOf(bs), sources := SourcesOf(bs))
  }

  /** recompute_discovery_side_state */
  ghost function Recompute(r: Route): Route {
    r.(endpoints := AllEndpoints(r.announcers), sources := AllSources(r.announcers), lastSeenMs := Latest(r.announcers))
  }

  ghost predicate SenderInv(s: Sender) {
    CanonicalBoards(s.boards) && s.endpoints == EndpointsOf(s.boards) && s.sources == SourcesOf(s.boards)
  }

  ghost predicate SendersInv(m: map<bytestring, Sender>) { forall a :: a in m ==> SenderInv(m[a]) }

  /** Every cached value is the sum of what lies below it, and no route is empty. */
  ghost predicate RouteInv(r: Route) {
    && r.announcers != map[]
    && r.endpoints == AllEndpoints(r.announcers)
    && r.sources == AllSources(r.announcers)
    && IsLatest(r.announcers, r.lastSeenMs)
    && SendersInv(r.announcers)
  }

  ghost predicate Inv(routes: Routes) { forall s :: s in routes ==> RouteInv(routes[s]) }

  /** Some board of some announcer lists the endpoint. */
  ghost predicate ScanEndpoint(m: map<bytestring, Sender>, ep: uint32) {
    exists a :: a in m && Reachable(m[a].boards, ep)
  }

  ghost predicate ScanSource(m: map<bytestring, Sender>, source: bytestring) {
    exists a :: a in m && HasSource(m[a].boards, source)
  }

  /** What the caches hold is what scanning every board finds. */
  lemma LookupScansBoards(routes: Routes, side: int, ep: uint32, source: bytestring)
    requires Inv(routes) && side in routes
    ensures ep in routes[side].endpoints <==> ScanEndpoint(routes[side].announcers, ep)
    ensures source in routes[side].sources <==> ScanSource(routes[side].announcers, source)
  {
    var m := routes[side].announcers;
    assert SendersInv(m);
    forall a | a in m
      ensures ep in m[a].endpoints <==> Reachable(m[a].boards, ep)
      ensures source in m[a].sources <==> HasSource(m[a].boards, source)
    {
      BoardSums(m[a].boards, ep, source);
    }
  }

  lemma BoardSums(bs: seq<Board>, ep: uint32, source: bytestring)
    ensures ep in EndpointsOf(bs) <==> Reachable(bs, ep)
    ensures source in SourcesOf(bs) <==> HasSource(bs, source)
  {}

  lemma LatestUnique(m: map<bytestring, Sender>, t: uint64, u: uint64)
    requires IsLatest(m, t) && IsLatest(m, u)
    ensures t == u
  {}

  lemma RecomputeInv(r: Route)
    requires SendersInv(r.announcers)
    ensures r.announcers != map[] ==> RouteInv(Recompute(r))
  {}

  lemma RecomputeIdle(r: Route)
    requires RouteInv(r)
    ensures Recompute(r) == r
  {}

  lemma RefreshInv(s: Sender)
    ensures SenderInv(Refresh(s))
  {
    NormalizeCanonical(s.boards);
  }

  lemma NewSenderInv()
    ensures SenderInv(NewSender)
  {}

  // ---------------------------------------------------------------- hearing a message

  datatype Message =
    | Announce(endpoints: seq<uint32>)
    | Sources(sources: seq<bytestring>)
    | Topology(boards: seq<Board>)
    | Other

  /** The endpoints worth keeping from a side. */
  function Visible(sc: Schema, linkLocal: bool, eps: seq<uint32>): seq<uint32> {
    if linkLocal then eps else Filter(eps, (ep: uint32) => !LinkLocalOnly(sc, ep))
  }

  function VisibleBoards(sc: Schema, linkLocal: bool, bs: seq<Board>): (r: seq<Board>)
    ensures |r| == |bs| && forall i :: 0 <= i < |bs| ==>
        r[i] == bs[i].(endpoints := Visible(sc, linkLocal, bs[i].endpoints))
  {
    if bs == [] then []
    else [bs[0].(endpoints := Visible(sc, linkLocal, bs[0].endpoints))] + VisibleBoards(sc, linkLocal, bs[1..])
  }

  /** sender_topology_board_mut: the list with a board for the id, and where it is. */
  function EnsureBoard(bs: seq<Board>, id: bytestring): (r: seq<Board>)
    ensures Find(r, id) < |r|
  {
    if Find(bs, id) < |bs| then bs
    else
      var r := bs + [Board(id, [], [], [])];
      assert r[|bs|].id == id;
      r
  }

  /** The sender's record after a message, apart from its time, and whether the handler calls it
      changed: an announced list is compared before link-local endpoints are taken out. */
  function Learn(sc: Schema, linkLocal: bool, st: Sender, id: bytestring, msg: Message): (Sender, bool) {
    match msg
    case Announce(eps) =>
      var bs := EnsureBoard(st.boards, id);
      var i := Find(bs, id);
      (Refresh(st.(boards := bs[i := bs[i].(endpoints := Visible(sc, linkLocal, eps))])), bs[i].endpoints != eps)
    case Sources(sources) =>
      var bs := EnsureBoard(st.boards, id);
      var i := Find(bs, id);
      (Refresh(st.(boards := bs[i := bs[i].(sources := sources)])), bs[i].sources != sources)
    case Topology(boards) =>
      var bs := VisibleBoards(sc, linkLocal, boards);
      (Refresh(st.(boards := bs)), st.boards != bs)
    case Other => (st, false)
  }

  function RouteOf(routes: Routes, side: int): Route { if side in routes then routes[side] else NewRoute }

  function SenderOf(r: Route, id: bytestring): Sender { if id in r.announcers then r.announcers[id] else NewSender }

  ghost function Heard(sc: Schema, linkLocal: bool, routes: Routes, side: int, id: bytestring, msg: Message,
                       now: uint64): Routes
  {
    var r := RouteOf(routes, side);
    var st := Learn(sc, linkLocal, SenderOf(r, id), id, msg).0.(lastSeenMs := now);
    routes[side := Recompute(r.(announcers := r.announcers[id := st]))]
  }

  lemma LearnInv(sc: Schema, linkLocal: bool, st: Sender, id: bytestring, msg: Message)
    requires SenderInv(st)
    ensures SenderInv(Learn(sc, linkLocal, st, id, msg).0)
  {
    match msg
    case Announce(eps) =>
      var bs := EnsureBoard(st.boards, id);
      RefreshInv(st.(boards := bs[Find(bs, id) := bs[Find(bs, id)].(endpoints := Visible(sc, linkLocal, eps))]));
    case Sources(sources) =>
      var bs := EnsureBoard(st.boards, id);
      RefreshInv(st.(boards := bs[Find(bs, id) := bs[Find(bs, id)].(sources := sources)]));
    case Topology(boards) => RefreshInv(st.(boards := VisibleBoards(sc, linkLocal, boards)));
    case Other =>
  }

  lemma HeardInv(sc: Schema, linkLocal: bool, routes: Routes, side: int, id: bytestring, msg: Message, now: uint64)
    requires Inv(routes)
    ensures Inv(Heard(sc, linkLocal, routes, side, id, msg, now))
  {
    var r := RouteOf(routes, side);
    assert SendersInv(r.announcers);
    NewSenderInv();
    LearnInv(sc, linkLocal, SenderOf(r, id), id, msg);
    var st := Learn(sc, linkLocal, SenderOf(r, id), id, msg).0.(lastSeenMs := now);
    var r' := r.(announcers := r.announcers[id := st]);
    assert id in r'.announcers;
    RecomputeInv(r');
  }

  // ---------------------------------------------------------------- leaving

  function Strip(b: Board, x: bytestring): Board { b.(connections := Filter(b.connections, c => c != x)) }

  /** The boards without those of x, and without connections to x. */
  function StripBoards(bs: seq<Board>, x: bytestring): seq<Board> {
    if bs == [] then []
    else (if bs[0].id == x then [] else [Strip(bs[0], x)]) + StripBoards(bs[1..], x)
  }

  function LeaveSender(s: Sender, x: bytestring): Sender {
    var bs := StripBoards(s.boards, x);
    if bs != s.boards then Refresh(s.(boards := bs)) else s
  }

  function LeaveSenders(m: map<bytestring, Sender>, x: bytestring): map<bytestring, Sender> {
    map a | a in m && a != x :: LeaveSender(m[a], x)
  }

  ghost function LeaveRoute(r: Route, x: bytestring): Route
  {
    Recompute(r.(announcers := LeaveSenders(r.announcers, x)))
  }

  ghost function LeavingOf(x: bytestring): Route -> Route { (r: Route) => LeaveRoute(r, x) }

  predicate Populated(r: Route) { r.announcers != map[] }

  /** prune_leaving_discovery_sender */
  ghost function LeaveAll(routes: Routes, x: bytestring): Routes {
    Rewritten(routes, LeavingOf(x), Populated)
  }

  predicate BoardNames(b: Board, x: bytestring) { b.id == x || x in b.connections }

  ghost predicate BoardsName(bs: seq<Board>, x: bytestring) { exists b :: b in bs && BoardNames(b, x) }

  ghost predicate SendersName(m: map<bytestring, Sender>, x: bytestring) {
    x in m || exists a :: a in m && BoardsName(m[a].boards, x)
  }

  /** x occurs in the index as an announcer, a board or a connection. */
  ghost predicate Names(routes: Routes, x: bytestring) {
    exists s :: s in routes && SendersName(routes[s].announcers, x)
  }

  lemma {:induction false} FilterIdle<T(!new)>(s: seq<T>, keep: T -> bool)
    ensures Filter(s, keep) == s <==> forall y :: y in s ==> keep(y)
    ensures |Filter(s, keep)| <= |s|
  {
    if s != [] {
      FilterIdle(s[1..], keep);
      assert s == [s[0]] + s[1..];
      if keep(s[0]) {
        assert Filter(s, keep)[1..] == Filter(s[1..], keep);
      }
    }
  }

  /** The boards that remain. */
  lemma {:induction false} StripMembers(bs: seq<Board>, x: bytestring)
    ensures |StripBoards(bs, x)| <= |bs|
    ensures forall b :: b in StripBoards(bs, x) <==> exists c :: c in bs && c.id != x && b == Strip(c, x)
  {
    if bs != [] {
      StripMembers(bs[1..], x);
      assert bs == [bs[0]] + bs[1..];
    }
  }

  lemma {:induction false} StripIdle(bs: seq<Board>, x: bytestring)
    ensures StripBoards(bs, x) == bs <==> !BoardsName(bs, x)
  {
    if bs != [] {
      var head, tail, rest := bs[0], bs[1..], StripBoards(bs[1..], x);
      StripIdle(tail, x);
      StripMembers(tail, x);
      assert bs == [head] + tail;
      assert BoardsName(bs, x) <==> BoardNames(head, x) || BoardsName(tail, x);
      FilterIdle(head.connections, c => c != x);
      if head.id != x { assert [Strip(head, x)] + rest == bs <==> Strip(head, x) == head && rest == tail; }
    }
  }

  /** Stripping changes a list exactly when it names x, and leaves no mention of x. */
  lemma StripSpec(bs: seq<Board>, x: bytestring)
    ensures StripBoards(bs, x) == bs <==> !BoardsName(bs, x)
    ensures !BoardsName(StripBoards(bs, x), x)
    ensures forall b :: b in StripBoards(bs, x) <==> exists c :: c in bs && c.id != x && b == Strip(c, x)
  {
    StripIdle(bs, x);
    StripMembers(bs, x);
  }

  /** A fact that mentions x. */
  predicate About(f: Fact, x: bytestring) { f.id == x || (f.Conn? && f.peer == x) }

  lemma StripFacts(bs: seq<Board>, x: bytestring, f: Fact)
    ensures Holds(StripBoards(bs, x), f) <==> Holds(bs, f) && !About(f, x)
  {
    StripSpec(bs, x);
    if Holds(StripBoards(bs, x), f) {
      var b :| b in StripBoards(bs, x) && Says(b, f);
      var c :| c in bs && c.id != x && b == Strip(c, x);
      assert Says(c, f);
    }
    if Holds(bs, f) && !About(f, x) {
      var c :| c in bs && Says(c, f);
      assert Strip(c, x) in StripBoards(bs, x);
      assert Says(Strip(c, x), f);
    }
  }

  lemma StripCanonical(bs: seq<Board>, x: bytestring)
    requires CanonicalBoards(bs)
    ensures CanonicalBoards(StripBoards(bs, x))
  {
    StripSpec(bs, x);
    forall b | b in StripBoards(bs, x) ensures CanonicalBoard(b) {
      var c :| c in bs && c.id != x && b == Strip(c, x);
      FilterSorted(c.connections, y => y != x, Same, LexLt);
    }
    StripSorted(bs, x);
  }

  lemma {:induction false} StripSorted(bs: seq<Board>, x: bytestring)
    requires Sorted(bs, Id, LexLt)
    ensures Sorted(StripBoards(bs, x), Id, LexLt)
  {
    if bs != [] {
      var rest := StripBoards(bs[1..], x);
      StripSorted(bs[1..], x);
      assert ([Strip(bs[0], x)] + rest)[1..] == rest && [] + rest == rest;
      forall y | y in rest ensures LexLt(bs[0].id, Id(y)) { StripAfter(bs[0].id, bs[1..], x, y); }
    }
  }

  lemma StripAfter(id: bytestring, tail: seq<Board>, x: bytestring, y: Board)
    requires y in StripBoards(tail, x) && forall c :: c in tail ==> LexLt(id, Id(c))
    ensures LexLt(id, Id(y))
  {
    StripSpec(tail, x);
    var c :| c in tail && c.id != x && y == Strip(c, x);
    assert Id(y) == Id(c);
  }

  /** Refreshing after the strip changes nothing more in the boards. */
  lemma LeaveSenderSpec(s: Sender, x: bytestring)
    requires SenderInv(s)
    ensures SenderInv(LeaveSender(s, x))
    ensures LeaveSender(s, x).boards == StripBoards(s.boards, x) && LeaveSender(s, x).lastSeenMs == s.lastSeenMs
    ensures !BoardsName(LeaveSender(s, x).boards, x)
    ensures LeaveSender(s, x) == s <==> !BoardsName(s.boards, x)
  {
    var bs := StripBoards(s.boards, x);
    StripSpec(s.boards, x);
    StripCanonical(s.boards, x);
    CanonicalIdle(bs);
    RefreshInv(s.(boards := bs));
    forall b | b in bs ensures !BoardNames(b, x) { }
  }

  lemma LeaveSendersSpec(m: map<bytestring, Sender>, x: bytestring)
    requires SendersInv(m)
    ensures SendersInv(LeaveSenders(m, x)) && !SendersName(LeaveSenders(m, x), x)
    ensures LeaveSenders(m, x) == m <==> !SendersName(m, x)
  {
    forall a | a in m
      ensures SenderInv(LeaveSender(m[a], x)) && !BoardsName(LeaveSender(m[a], x).boards, x)
      ensures LeaveSender(m[a], x) == m[a] <==> !BoardsName(m[a].boards, x)
    {
      LeaveSenderSpec(m[a], x);
    }
    if LeaveSenders(m, x) == m {
      assert x !in LeaveSenders(m, x);
      forall a | a in m ensures !BoardsName(m[a].boards, x) { assert LeaveSenders(m, x)[a] == LeaveSender(m[a], x); }
    }
    if !SendersName(m, x) {
      assert LeaveSenders(m, x).Keys == m.Keys;
    }
  }

  lemma LeaveRouteSpec(r: Route, x: bytestring)
    requires RouteInv(r)
    ensures LeaveSenders(r.announcers, x) != map[] ==> RouteInv(LeaveRoute(r, x))
    ensures !SendersName(LeaveRoute(r, x).announcers, x)
    ensures LeaveRoute(r, x) == r <==> !SendersName(r.announcers, x)
  {
    LeaveSendersSpec(r.announcers, x);
    RecomputeInv(r.(announcers := LeaveSenders(r.announcers, x)));
    if !SendersName(r.announcers, x) {
      assert r.(announcers := LeaveSenders(r.announcers, x)) == r;
      RecomputeIdle(r);
    }
  }

  lemma LeaveInv(routes: Routes, x: bytestring)
    requires Inv(routes)
    ensures Inv(LeaveAll(routes, x)) && !Names(LeaveAll(routes, x), x)
  {
    forall s | s in LeaveAll(routes, x)
      ensures RouteInv(LeaveAll(routes, x)[s]) && !SendersName(LeaveAll(routes, x)[s].announcers, x)
    {
      LeaveRouteSpec(routes[s], x);
    }
  }

  lemma LeaveIdle(routes: Routes, x: bytestring)
    requires Inv(routes) && !Names(routes, x)
    ensures LeaveAll(routes, x) == routes
  {
    forall s | s in routes ensures routes[s].announcers != map[] && LeaveRoute(routes[s], x) == routes[s] {
      LeaveRouteSpec(routes[s], x);
    }
    RewrittenIdle(routes, LeavingOf(x), Populated);
  }

  /** Leaving is complete, keeps the invariant, and changes the index exactly when it names x. */
  lemma LeaveComplete(routes: Routes, x: bytestring)
    requires Inv(routes)
    ensures Inv(LeaveAll(routes, x)) && !Names(LeaveAll(routes, x), x)
    ensures LeaveAll(routes, x) != routes <==> Names(routes, x)
  {
    LeaveInv(routes, x);
    if !Names(routes, x) { LeaveIdle(routes, x); }
  }

  /** Leaving takes away what mentions x and nothing else: other announcers stay, with every other
      fact they told and the same time; a route goes only with its last announcer. */
  lemma LeaveEffect(routes: Routes, x: bytestring, side: int, a: bytestring, f: Fact)
    requires Inv(routes) && side in routes && a in routes[side].announcers && a != x
    ensures side in LeaveAll(routes, x) && a in LeaveAll(routes, x)[side].announcers
    ensures var s, s' := routes[side].announcers[a], LeaveAll(routes, x)[side].announcers[a];
            s'.lastSeenMs == s.lastSeenMs && (Holds(s'.boards, f) <==> Holds(s.boards, f) && !About(f, x))
  {
    var m := routes[side].announcers;
    assert RouteInv(routes[side]) && SendersInv(m);
    assert a in LeaveSenders(m, x);
    LeaveSenderSpec(m[a], x);
    StripFacts(m[a].boards, x, f);
  }

  // ---------------------------------------------------------------- expiry

  function FreshSenders(m: map<bytestring, Sender>, now: uint64): map<bytestring, Sender> {
    map a | a in m && !Stale(now, m[a].lastSeenMs) :: m[a]
  }

  ghost function PruneRoute(r: Route, now: uint64): Route
  {
    Recompute(r.(announcers := FreshSenders(r.announcers, now)))
  }

  predicate Kept(r: Route, now: uint64) { r.announcers != map[] && !Stale(now, r.lastSeenMs) }

  ghost function PruningAt(now: uint64): Route -> Route { (r: Route) => PruneRoute(r, now) }

  function KeptAt(now: uint64): Route -> bool { (r: Route) => Kept(r, now) }

  /** prune_discovery_routes */
  ghost function PruneAll(routes: Routes, now: uint64): Routes {
    Rewritten(routes, PruningAt(now), KeptAt(now))
  }

  ghost predicate HasStale(routes: Routes, now: uint64) {
    exists s, a :: s in routes && a in routes[s].announcers && Stale(now, routes[s].announcers[a].lastSeenMs)
  }

  /** A route of fresh announcers is fresh: only an empty one is dropped. */
  lemma PruneRouteSpec(r: Route, now: uint64)
    requires RouteInv(r)
    ensures Kept(PruneRoute(r, now), now) <==> FreshSenders(r.announcers, now) != map[]
    ensures Kept(PruneRoute(r, now), now) ==> RouteInv(PruneRoute(r, now))
    ensures (forall a :: a in r.announcers ==> !Stale(now, r.announcers[a].lastSeenMs)) ==>
              PruneRoute(r, now) == r && Kept(r, now)
  {
    var m := FreshSenders(r.announcers, now);
    RecomputeInv(r.(announcers := m));
    if forall a :: a in r.announcers ==> !Stale(now, r.announcers[a].lastSeenMs) {
      assert m == r.announcers;
      RecomputeIdle(r);
    }
  }

  lemma PruneInv(routes: Routes, now: uint64)
    requires Inv(routes)
    ensures Inv(PruneAll(routes, now)) && !HasStale(PruneAll(routes, now), now)
  {}

  lemma PruneIdle(routes: Routes, now: uint64)
    requires Inv(routes) && !HasStale(routes, now)
    ensures PruneAll(routes, now) == routes
  {
    forall s | s in routes ensures PruneRoute(routes[s], now) == routes[s] && Kept(routes[s], now)
    {
      PruneRouteSpec(routes[s], now);
    }
    RewrittenIdle(routes, PruningAt(now), KeptAt(now));
  }

  lemma PruneAt(routes: Routes, now: uint64, s: int)
    requires Inv(routes)
    ensures s in PruneAll(routes, now) <==> s in routes && FreshSenders(routes[s].announcers, now) != map[]
    ensures s in PruneAll(routes, now) ==>
              PruneAll(routes, now)[s].announcers == FreshSenders(routes[s].announcers, now)
  {}

  /** Expiry keeps exactly the announcers heard within the time to live, as they were, and the
      routes that have one; it changes the index exactly when something is stale. */
  lemma PruneExact(routes: Routes, now: uint64, s: int)
    requires Inv(routes)
    ensures Inv(PruneAll(routes, now)) && !HasStale(PruneAll(routes, now), now)
    ensures s in PruneAll(routes, now) <==> s in routes && FreshSenders(routes[s].announcers, now) != map[]
    ensures s in PruneAll(routes, now) ==>
              PruneAll(routes, now)[s].announcers == FreshSenders(routes[s].announcers, now)
    ensures PruneAll(routes, now) != routes <==> HasStale(routes, now)
  {
    PruneInv(routes, now);
    PruneAt(routes, now, s);
    if !HasStale(routes, now) { PruneIdle(routes, now); }
  }

  /** An announcer survives expiry exactly if it was heard within the last thirty seconds. */
  lemma PruneKeeps(routes: Routes, now: uint64, s: int, a: bytestring)
    requires Inv(routes) && s in routes && a in routes[s].announcers
    ensures s in PruneAll(routes, now) && a in PruneAll(routes, now)[s].announcers <==>
              (now - routes[s].announcers[a].lastSeenMs) % TWO64 <= 30000
  {
    var live := FreshSenders(routes[s].announcers, now);
    assert a in live <==> (now - routes[s].announcers[a].lastSeenMs) % TWO64 <= 30000;
    PruneExact(routes, now, s);
  }

  // ---------------------------------------------------------------- runs

  datatype Step =
    | Hear(linkLocal: bool, side: int, id: bytestring, msg: Message, now: uint64)
    | Leave(id: bytestring)
    | Expire(now: uint64)
    | DropSide(side: int)

  ghost function Apply(sc: Schema, routes: Routes, step: Step): Routes {
    match step
    case Hear(linkLocal, side, id, msg, now) => Heard(sc, linkLocal, routes, side, id, msg, now)
    case Leave(id) => LeaveAll(routes, id)
    case Expire(now) => PruneAll(routes, now)
    case DropSide(side) => routes - {side}
  }

  ghost function Run(sc: Schema, steps: seq<Step>): Routes {
    if steps == [] then map[] else Apply(sc, Run(sc, steps[..|steps| - 1]), steps[|steps| - 1])
  }

  /** In every reachable state the index agrees with the boards it was built from. */
  lemma {:induction false} IndexInvariant(sc: Schema, steps: seq<Step>)
    ensures Inv(Run(sc, steps))
  {
    if steps != [] {
      var before, step := Run(sc, steps[..|steps| - 1]), steps[|steps| - 1];
      IndexInvariant(sc, steps[..|steps| - 1]);
      match step {
        case Hear(linkLocal, side, id, msg, now) => HeardInv(sc, linkLocal, before, side, id, msg, now);
        case Leave(id) => LeaveComplete(before, id);
        case Expire(now) => PruneInv(before, now);
        case DropSide(side) =>
      }
    }
  }

  /** Announcing replaces what the announcer says of its own endpoints, and nothing else. */
  lemma AnnounceEffect(sc: Schema, linkLocal: bool, st: Sender, id: bytestring, eps: seq<uint32>, f: Fact)
    requires SenderInv(st)
    ensures var st' := Learn(sc, linkLocal, st, id, Announce(eps)).0;
            Holds(st'.boards, f) <==>
              if f.id == id && (f.Known? || f.Reach?) then f.Known? || f.ep in Visible(sc, linkLocal, eps)
              else Holds(st.boards, f)
  {
    var bs := EnsureBoard(st.boards, id);
    var i := Find(bs, id);
    var bs' := bs[i := bs[i].(endpoints := Visible(sc, linkLocal, eps))];
    CanonicalDistinct(st.boards);
    EnsureSpec(st.boards, id, f);
    ReplaceSpec(bs, i, bs'[i], f);
    NormalizeFacts(bs', f);
    HoldsOnBoardIf(bs, i, f);
    if Holds(st.boards, f) { NoSelfLoop(st.boards, f); }
  }

  /** A source list replaces what the announcer says of its own time sources, and nothing else. */
  lemma SourcesEffect(sc: Schema, linkLocal: bool, st: Sender, id: bytestring, sources: seq<bytestring>, f: Fact)
    requires SenderInv(st)
    ensures var st' := Learn(sc, linkLocal, st, id, Sources(sources)).0;
            Holds(st'.boards, f) <==> if f.id == id && (f.Known? || f.Source?) then f.Known? || f.source in sources
                                      else Holds(st.boards, f)
  {
    var bs := EnsureBoard(st.boards, id);
    var i := Find(bs, id);
    var bs' := bs[i := bs[i].(sources := sources)];
    CanonicalDistinct(st.boards);
    EnsureSpec(st.boards, id, f);
    ReplaceSpec(bs, i, bs'[i], f);
    NormalizeFacts(bs', f);
    HoldsOnBoardIf(bs, i, f);
    if Holds(st.boards, f) { NoSelfLoop(st.boards, f); }
  }

  /** A topology replaces everything the announcer has told by the visible part of the new list. */
  lemma TopologyEffect(sc: Schema, linkLocal: bool, st: Sender, id: bytestring, boards: seq<Board>, f: Fact)
    requires DistinctIds(boards)
    ensures var st' := Learn(sc, linkLocal, st, id, Topology(boards)).0;
            Holds(st'.boards, f) <==>
                Holds(boards, f) && !SelfLoop(f) && (f.Reach? ==> linkLocal || !LinkLocalOnly(sc, f.ep))
  {
    var bs := VisibleBoards(sc, linkLocal, boards);
    forall i, j | 0 <= i < j < |bs| ensures Id(bs[i]) != Id(bs[j]) { assert Id(boards[i]) != Id(boards[j]); }
    VisibleFacts(sc, linkLocal, boards, f);
    NormalizeFacts(bs, f);
  }

  lemma {:induction false} VisibleFacts(sc: Schema, linkLocal: bool, bs: seq<Board>, f: Fact)
    ensures Holds(VisibleBoards(sc, linkLocal, bs), f) <==>
              Holds(bs, f) && (f.Reach? ==> linkLocal || !LinkLocalOnly(sc, f.ep))
  {
    if bs != [] {
      var tail := VisibleBoards(sc, linkLocal, bs[1..]);
      var head := bs[0].(endpoints := Visible(sc, linkLocal, bs[0].endpoints));
      VisibleFacts(sc, linkLocal, bs[1..], f);
      assert VisibleBoards(sc, linkLocal, bs) == [head] + tail && bs == [bs[0]] + bs[1..];
      assert Says(head, f) <==> Says(bs[0], f) && (f.Reach? ==> linkLocal || !LinkLocalOnly(sc, f.ep));
    }
  }

  /** A message touches one announcer on one side, and dates it. */
  lemma HeardFrame(sc: Schema, linkLocal: bool, routes: Routes, side: int, id: bytestring, msg: Message, now: uint64)
    ensures var after := Heard(sc, linkLocal, routes, side, id, msg, now);
            && after.Keys == routes.Keys + {side}
            && (forall s :: s in routes && s != side ==> after[s] == routes[s])
            && after[side].announcers.Keys == RouteOf(routes, side).announcers.Keys + {id}
            && after[side].announcers[id].lastSeenMs == now
            && (forall a :: a in RouteOf(routes, side).announcers && a != id ==>
                after[side].announcers[a] == routes[side].announcers[a])
  {
  }

  lemma EnsureSpec(bs: seq<Board>, id: bytestring, f: Fact)
    requires DistinctIds(bs)
    ensures DistinctIds(EnsureBoard(bs, id))
    ensures Holds(EnsureBoard(bs, id), f) <==> Holds(bs, f) || f == Known(id)
  {
    var r := EnsureBoard(bs, id);
    if Find(bs, id) < |bs| {
      assert bs[Find(bs, id)] in bs;
    } else {
      var b := Board(id, [], [], []);
      assert Says(b, f) <==> f == Known(id);
      assert forall c :: c in r <==> c in bs || c == b;
    }
  }

  /** Exchanging one board changes what is said of its id only. */
  lemma ReplaceSpec(bs: seq<Board>, i: nat, b: Board, f: Fact)
    requires DistinctIds(bs) && i < |bs| && b.id == bs[i].id
    ensures DistinctIds(bs[i := b])
    ensures Holds(bs[i := b], f) <==> if f.id == b.id then Says(b, f) else Holds(bs, f)
  {
    var r := bs[i := b];
    assert r[i] in r;
    if f.id == b.id {
      forall j, k | 0 <= j < k < |r| ensures Id(r[j]) != Id(r[k]) { assert Id(bs[j]) != Id(bs[k]); }
      HoldsOnBoard(r, b, f);
    } else {
      if Holds(bs, f) {
        var y :| y in bs && Says(y, f);
        var j :| 0 <= j < |bs| && bs[j] == y;
        assert r[j] in r;
      }
      if Holds(r, f) {
        var y :| y in r && Says(y, f);
        var j :| 0 <= j < |r| && r[j] == y;
        assert bs[j] in bs;
      }
    }
  }

  lemma HoldsOnBoardIf(bs: seq<Board>, i: nat, f: Fact)
    requires DistinctIds(bs) && i < |bs|
    ensures f.id == bs[i].id ==> (Holds(bs, f) <==> Says(bs[i], f))
  {}

  // ---------------------------------------------------------------- the change flag of a message

  /** Whether the boards really changed. */
  predicate Changed(sc: Schema, linkLocal: bool, st: Sender, id: bytestring, msg: Message) {
    Learn(sc, linkLocal, st, id, msg).0.boards != st.boards
  }

  /** Whether the handler says so. */
  predicate Flagged(sc: Schema, linkLocal: bool, st: Sender, id: bytestring, msg: Message) {
    Learn(sc, linkLocal, st, id, msg).1
  }

  predicate HasBoard(bs: seq<Board>, id: bytestring) { Find(bs, id) < |bs| }

  lemma {:induction false} ReplaceSorted(bs: seq<Board>, i: nat, b: Board)
    requires Sorted(bs, Id, LexLt) && i < |bs| && b.id == bs[i].id
    ensures Sorted(bs[i := b], Id, LexLt)
  {
    var r := bs[i := b];
    if i == 0 {
      assert r[1..] == bs[1..];
    } else {
      ReplaceSorted(bs[1..], i - 1, b);
      assert r[1..] == bs[1..][i - 1 := b];
      forall y | y in r[1..] ensures LexLt(Id(r[0]), Id(y)) {
        var j :| 0 <= j < |r[1..]| && r[1..][j] == y;
        assert bs[1..][j] in bs[1..];
      }
    }
  }

  /** Exchanging one board of a canonical list for a canonical one. */
  lemma ReplaceCanonical(bs: seq<Board>, i: nat, b: Board)
    requires CanonicalBoards(bs) && i < |bs| && b.id == bs[i].id && CanonicalBoard(b)
    ensures NormalizeBoards(bs[i := b]) == bs[i := b]
  {
    ReplaceSorted(bs, i, b);
    forall y | y in bs[i := b] ensures CanonicalBoard(y) {
      var j :| 0 <= j < |bs| && bs[i := b][j] == y;
      if j != i { assert bs[j] in bs; }
    }
    CanonicalIdle(bs[i := b]);
  }

  lemma VisibleSorted(sc: Schema, linkLocal: bool, eps: seq<uint32>)
    requires SortedEndpoints(eps)
    ensures SortedEndpoints(Visible(sc, linkLocal, eps))
  {
    if !linkLocal { FilterSorted(eps, (ep: uint32) => !LinkLocalOnly(sc, ep), Num, Lt); }
  }

  lemma NewBoard(st: Sender, st': Sender, id: bytestring)
    requires !HasBoard(st.boards, id) && Holds(st'.boards, Known(id))
    ensures st'.boards != st.boards
  {}

  /** When the flag of an announce is right. A sender's first announce adds a board, yet an empty one is
      not flagged; and hidden endpoints are flagged every time they are announced. */
  lemma AnnounceFlag(sc: Schema, linkLocal: bool, st: Sender, id: bytestring, eps: seq<uint32>)
    requires SenderInv(st) && SortedEndpoints(eps)
    ensures var msg := Announce(eps);
            (Flagged(sc, linkLocal, st, id, msg) <==> Changed(sc, linkLocal, st, id, msg)) <==>
              if !HasBoard(st.boards, id) then eps != []
              else var stored, visible := st.boards[Find(st.boards, id)].endpoints, Visible(sc, linkLocal, eps);
                   visible == eps || (stored != visible && stored != eps)
  {
    var i := Find(st.boards, id);
    if HasBoard(st.boards, id) {
      var b := st.boards[i].(endpoints := Visible(sc, linkLocal, eps));
      VisibleSorted(sc, linkLocal, eps);
      assert st.boards[i] in st.boards;
      ReplaceCanonical(st.boards, i, b);
      assert st.boards[i := b][i] == b;
      assert b == st.boards[i] ==> st.boards[i := b] == st.boards;
    } else {
      AnnounceEffect(sc, linkLocal, st, id, eps, Known(id));
      NewBoard(st, Learn(sc, linkLocal, st, id, Announce(eps)).0, id);
      assert EnsureBoard(st.boards, id) == st.boards + [Board(id, [], [], [])];
    }
  }

  /** When the flag of a source list is right. */
  lemma SourcesFlag(sc: Schema, linkLocal: bool, st: Sender, id: bytestring, sources: seq<bytestring>)
    requires SenderInv(st) && SortedStrings(sources)
    ensures var msg := Sources(sources);
            (Flagged(sc, linkLocal, st, id, msg) <==> Changed(sc, linkLocal, st, id, msg)) <==>
              HasBoard(st.boards, id) || sources != []
  {
    var i := Find(st.boards, id);
    if HasBoard(st.boards, id) {
      var b := st.boards[i].(sources := sources);
      assert st.boards[i] in st.boards;
      ReplaceCanonical(st.boards, i, b);
      assert st.boards[i := b][i] == b;
      assert b == st.boards[i] ==> st.boards[i := b] == st.boards;
    } else {
      SourcesEffect(sc, linkLocal, st, id, sources, Known(id));
      NewBoard(st, Learn(sc, linkLocal, st, id, Sources(sources)).0, id);
      assert EnsureBoard(st.boards, id) == st.boards + [Board(id, [], [], [])];
    }
  }

  lemma {:induction false} VisibleBoardsSorted(sc: Schema, linkLocal: bool, bs: seq<Board>)
    requires Sorted(bs, Id, LexLt)
    ensures Sorted(VisibleBoards(sc, linkLocal, bs), Id, LexLt)
  {
    if bs != [] {
      var rest := VisibleBoards(sc, linkLocal, bs[1..]);
      VisibleBoardsSorted(sc, linkLocal, bs[1..]);
      assert VisibleBoards(sc, linkLocal, bs)[1..] == rest;
      forall y | y in rest ensures LexLt(Id(bs[0]), Id(y)) {
        var j :| 0 <= j < |rest| && rest[j] == y;
        assert bs[1..][j] in bs[1..];
      }
    }
  }

  /** The flag of a topology is always right. */
  lemma TopologyFlag(sc: Schema, linkLocal: bool, st: Sender, id: bytestring, boards: seq<Board>)
    requires CanonicalBoards(boards)
    ensures Flagged(sc, linkLocal, st, id, Topology(boards)) <==> Changed(sc, linkLocal, st, id, Topology(boards))
  {
    var bs := VisibleBoards(sc, linkLocal, boards);
    VisibleBoardsSorted(sc, linkLocal, boards);
    forall y | y in bs ensures CanonicalBoard(y) {
      var j :| 0 <= j < |bs| && bs[j] == y;
      assert boards[j] in boards;
      VisibleSorted(sc, linkLocal, boards[j].endpoints);
    }
    CanonicalIdle(bs);
  }
}
