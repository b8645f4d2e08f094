/** What an owner advertises on a side: its own board and the boards it has heard of, merged while
    walking hash maps in whatever order they come. */
module Advertise {
  import opened Bytes
  import opened Sorting
  import opened Schema
  import opened Boards
  import opened MapPasses
  import opened DiscoveryIndex
  import opened DiscoveryOwner

  datatype Owner =
    | Router(sender: bytestring, locals: seq<uint32>, timesync: bool, hasTime: bool, source: bytestring)
    | Relay

  /** "RELAY" and "local" */
  function RelayName(): bytestring { [82, 69, 76, 65, 89] }
  function LocalName(): bytestring { [108, 111, 99, 97, 108] }

  function Name(owner: Owner): bytestring { if owner.Router? then owner.sender else RelayName() }

  /** What the advertisement depends on besides the index. */
  datatype Context = Context(sc: Schema, owner: Owner, linkLocal: bool, now: uint64)

  predicate Shows(c: Context, ep: uint32) { c.linkLocal || !LinkLocalOnly(c.sc, ep) }

  // ---------------------------------------------------------------- what is advertised, without order

  /** What an announcer told, its board connected to the owner. */
  ghost predicate Plain(name: bytestring, a: bytestring, s: Sender, f: Fact) {
    if s.boards == [] then
      f.id == a && match f
        case Known(_) => true
        case Reach(_, ep) => ep in s.endpoints
        case Source(_, source) => source in s.sources
        case Conn(_, peer) => peer == name
    else Holds(s.boards, f) || (f == Conn(a, name) && Holds(s.boards, Known(a)))
  }

  /** One announcer's contribution. */
  ghost predicate Tells(c: Context, a: bytestring, s: Sender, f: Fact) {
    Plain(Name(c.owner), a, s, f) && (f.Reach? ==> Shows(c, f.ep))
  }

  ghost predicate FromSender(c: Context, m: map<bytestring, Sender>, a: bytestring, f: Fact) {
    a in m && !Stale(c.now, m[a].lastSeenMs) && Tells(c, a, m[a], f)
  }

  ghost predicate FromSenders(c: Context, m: map<bytestring, Sender>, f: Fact) { exists a :: FromSender(c, m, a, f) }

  ghost predicate FromRoute(c: Context, routes: Routes, s: int, f: Fact) {
    s in routes && !Stale(c.now, routes[s].lastSeenMs) && FromSenders(c, routes[s].announcers, f)
  }

  ghost predicate FromRoutes(c: Context, routes: Routes, f: Fact) { exists s :: FromRoute(c, routes, s, f) }

  ghost predicate NeighbourOn(now: uint64, routes: Routes, s: int, p: bytestring) {
    s in routes && !Stale(now, routes[s].lastSeenMs) && p in routes[s].announcers
        && !Stale(now, routes[s].announcers[p].lastSeenMs)
  }

  ghost predicate Neighbour(now: uint64, routes: Routes, p: bytestring) { exists s :: NeighbourOn(now, routes, s, p) }

  /** The owner's own endpoints: the time-sync one is added without asking whether it may show. */
  ghost predicate OwnEndpoint(c: Context, ep: uint32) {
    c.owner.Router? && ((ep in c.owner.locals && ep != EP_DISCOVERY && Shows(c, ep))
        || (c.owner.timesync && ep == EP_TIME_SYNC))
  }

  ghost predicate OwnSource(c: Context, s: bytestring) {
    c.owner.Router? && c.owner.timesync && c.owner.hasTime
        && s == if c.owner.source == [] then LocalName() else c.owner.source
  }

  ghost predicate Own(c: Context, routes: Routes, f: Fact) {
    f.id == Name(c.owner) &&
    match f
    case Known(_) => true
    case Reach(_, ep) => OwnEndpoint(c, ep)
    case Source(_, source) => OwnSource(c, source)
    case Conn(_, peer) => Neighbour(c.now, routes, peer)
  }

  ghost predicate Advertised(c: Context, routes: Routes, f: Fact) {
    !SelfLoop(f) && (Own(c, routes, f) || FromRoutes(c, routes, f))
  }

  /** On a side without link-local nothing link-local-only is advertised, unless the time-sync
      endpoint itself is link-local-only and time sync is on. */
  lemma LinkLocalStaysHidden(c: Context, routes: Routes)
    requires !c.linkLocal
    ensures (forall id, ep: uint32 :: Advertised(c, routes, Reach(id, ep)) ==> !LinkLocalOnly(c.sc, ep)) <==>
              !(c.owner.Router? && c.owner.timesync && LinkLocalOnly(c.sc, EP_TIME_SYNC))
  {
    if c.owner.Router? && c.owner.timesync && LinkLocalOnly(c.sc, EP_TIME_SYNC) {
      assert Advertised(c, routes, Reach(Name(c.owner), EP_TIME_SYNC));
    }
  }

  /** Announcer a on side s and the route itself were heard within the last thirty seconds. */
  ghost predicate Fresh(now: uint64, routes: Routes, s: int, a: bytestring) {
    && s in routes && a in routes[s].announcers
    && (now - routes[s].lastSeenMs) % TWO64 <= 30000
    && (now - routes[s].announcers[a].lastSeenMs) % TWO64 <= 30000
  }

  lemma FreshSpeaks(c: Context, routes: Routes, s: int, a: bytestring, f: Fact)
    requires Fresh(c.now, routes, s, a) && Tells(c, a, routes[s].announcers[a], f) && !SelfLoop(f)
    ensures Advertised(c, routes, f)
  {
    assert FromSender(c, routes[s].announcers, a, f);
    assert FromRoute(c, routes, s, f);
  }

  /** A fresh announcer is advertised as a neighbour of the owner and, if it listed itself or nothing at all, the
      owner as a neighbour of it; what it told is passed on, link-local-only endpoints only where they may show. */
  lemma FreshAdvertised(c: Context, routes: Routes, s: int, a: bytestring, f: Fact)
    requires Fresh(c.now, routes, s, a)
    ensures var me, told := if c.owner.Router? then c.owner.sender else RelayName(), routes[s].announcers[a];
            && (a != me ==> Advertised(c, routes, Conn(me, a)))
            && (a != me && (told.boards == [] || Holds(told.boards, Known(a))) ==> Advertised(c, routes, Conn(a, me)))
            && (Holds(told.boards, f) && !SelfLoop(f) && (f.Reach? ==> c.linkLocal || !LinkLocalOnly(c.sc, f.ep)) ==>
                  Advertised(c, routes, f))
  {
    var me, told := Name(c.owner), routes[s].announcers[a];
    if a != me {
      assert NeighbourOn(c.now, routes, s, a);
      if told.boards == [] || Holds(told.boards, Known(a)) { FreshSpeaks(c, routes, s, a, Conn(a, me)); }
    }
    if Holds(told.boards, f) && !SelfLoop(f) && (f.Reach? ==> c.linkLocal || !LinkLocalOnly(c.sc, f.ep)) {
      FreshSpeaks(c, routes, s, a, f);
    }
  }

  /** Before an announcer has sent a topology, it is advertised with the endpoints and sources it announced. */
  lemma BareAdvertised(c: Context, routes: Routes, s: int, a: bytestring, ep: uint32, source: bytestring)
    requires Fresh(c.now, routes, s, a) && routes[s].announcers[a].boards == []
    ensures Advertised(c, routes, Known(a))
    ensures ep in routes[s].announcers[a].endpoints && (c.linkLocal || !LinkLocalOnly(c.sc, ep)) ==>
              Advertised(c, routes, Reach(a, ep))
    ensures source in routes[s].announcers[a].sources ==> Advertised(c, routes, Source(a, source))
  {
    FreshSpeaks(c, routes, s, a, Known(a));
    if ep in routes[s].announcers[a].endpoints && (c.linkLocal || !LinkLocalOnly(c.sc, ep)) {
      FreshSpeaks(c, routes, s, a, Reach(a, ep));
    }
    if source in routes[s].announcers[a].sources { FreshSpeaks(c, routes, s, a, Source(a, source)); }
  }

  /** Nothing else is advertised: a fact about another board was told by a fresh announcer, about itself if it has
      sent no topology, or is its connection to the owner. */
  lemma OnlyFresh(c: Context, routes: Routes, f: Fact) returns (s: int, a: bytestring)
    requires Advertised(c, routes, f) && f.id != Name(c.owner)
    ensures Fresh(c.now, routes, s, a)
    ensures var told := routes[s].announcers[a];
            || Holds(told.boards, f)
            || f == Conn(a, Name(c.owner))
            || (told.boards == [] && f.id == a && !f.Conn? && (f.Reach? ==> f.ep in told.endpoints)
                && (f.Source? ==> f.source in told.sources))
    ensures f.Reach? ==> c.linkLocal || !LinkLocalOnly(c.sc, f.ep)
  {
    s, a := FromFresh(c, routes, f);
  }

  /** A node that hears nobody advertises itself alone: its endpoints without the discovery one, the time-sync one
      if time sync is on, and its time source, "local" unless it follows one. */
  lemma AloneAdvertised(c: Context, routes: Routes, f: Fact)
    requires c.owner.Router? && forall s, a :: !Fresh(c.now, routes, s, a)
    ensures Advertised(c, routes, f) <==>
              f.id == c.owner.sender && match f
                case Known(_) => true
                case Reach(_, ep) => (c.owner.timesync && ep == 200)
                    || (ep in c.owner.locals && ep != 201 && (c.linkLocal || !LinkLocalOnly(c.sc, ep)))
                case Source(_, source) => c.owner.timesync && c.owner.hasTime
                    && source == (if c.owner.source == [] then [108, 111, 99, 97, 108] else c.owner.source)
                case Conn(_, _) => false
  {
    if FromRoutes(c, routes, f) {
      var s, a := FromFresh(c, routes, f);
      assert false;
    }
    if f.Conn? && Neighbour(c.now, routes, f.peer) {
      var s := NeighbourFresh(c.now, routes, f.peer);
      assert false;
    }
  }

  lemma FromFresh(c: Context, routes: Routes, f: Fact) returns (s: int, a: bytestring)
    requires FromRoutes(c, routes, f)
    ensures Fresh(c.now, routes, s, a) && FromSender(c, routes[s].announcers, a, f)
  {
    s :| FromRoute(c, routes, s, f);
    a :| FromSender(c, routes[s].announcers, a, f);
  }

  lemma NeighbourFresh(now: uint64, routes: Routes, p: bytestring) returns (s: int)
    requires Neighbour(now, routes, p)
    ensures Fresh(now, routes, s, p)
  {
    s :| NeighbourOn(now, routes, s, p);
  }

  // ---------------------------------------------------------------- the owner's board

  method NeighboursOn(now: uint64, m: map<bytestring, Sender>, out0: seq<bytestring>) returns (out: seq<bytestring>)
    ensures forall p :: p in out <==> p in out0 || (p in m && !Stale(now, m[p].lastSeenMs))
  {
    out := out0;
    var todo := m.Keys;
    while todo != {}
      invariant todo <= m.Keys
      invariant forall p :: p in out <==> p in out0 || (p in m && p !in todo && !Stale(now, m[p].lastSeenMs))
      decreases |todo|
    {
      var p :| p in todo;
      if Elapsed(now, m[p].lastSeenMs) <= TTL_MS { out := out + [p]; }
      todo := todo - {p};
    }
  }

  method Neighbours(now: uint64, routes: Routes) returns (out: seq<bytestring>)
    ensures SortedStrings(out) && forall p :: p in out <==> Neighbour(now, routes, p)
  {
    out := [];
    var todo := routes.Keys;
    while todo != {}
      invariant todo <= routes.Keys
      invariant forall p :: p in out <==> exists s :: s !in todo && NeighbourOn(now, routes, s, p)
      decreases |todo|
    {
      SomeElement(todo);
      var s :| s in todo;
      ghost var before := out;
      if Elapsed(now, routes[s].lastSeenMs) <= TTL_MS {
        out := NeighboursOn(now, routes[s].announcers, out);
      }
      assert forall p :: p in out <==> p in before || NeighbourOn(now, routes, s, p);
      todo := todo - {s};
    }
    SortStringsSpec(out);
    out := SortStrings(out);
  }

  /** router_local_discovery_endpoints */
  method LocalEndpoints(c: Context) returns (out: seq<uint32>)
    requires c.owner.Router?
    ensures SortedEndpoints(out) && forall ep :: ep in out <==> OwnEndpoint(c, ep)
  {
    out := [];
    var locals := c.owner.locals;
    for i := 0 to |locals|
      invariant forall ep :: ep in out <==> ep in locals[..i] && ep != EP_DISCOVERY && Shows(c, ep)
    {
      assert locals[..i + 1] == locals[..i] + [locals[i]];
      if locals[i] != EP_DISCOVERY && (c.linkLocal || !LinkLocalOnly(c.sc, locals[i])) { out := out + [locals[i]]; }
    }
    assert locals[..|locals|] == locals;
    if c.owner.timesync { out := out + [EP_TIME_SYNC]; }
    SortEndpointsSpec(out);
    out := SortEndpoints(out);
  }

  /** local_router_topology_board, local_relay_topology_board */
  method LocalBoard(c: Context, routes: Routes) returns (b: Board)
    ensures forall f :: Says(b, f) <==> Own(c, routes, f)
  {
    var connections := Neighbours(c.now, routes);
    if c.owner.Relay? { return Board(RelayName(), [], [], connections); }
    var endpoints := LocalEndpoints(c);
    var sources := [];
    if c.owner.timesync && c.owner.hasTime {
      sources := [if c.owner.source == [] then LocalName() else c.owner.source];
    }
    b := Board(c.owner.sender, endpoints, sources, connections);
  }

  // ---------------------------------------------------------------- boards heard of

  method ListEndpoints(s: set<uint32>) returns (out: seq<uint32>)
    ensures forall x :: x in out <==> x in s
  {
    out := [];
    var todo: set<int> := s;
    while todo != {}
      invariant todo <= s && forall x :: x in out <==> x in s && x !in todo
      decreases |todo|
    {
      SomeElement(todo);
      var x :| x in todo;
      out := out + [x];
      todo := todo - {x};
    }
  }

  method ListStrings(s: set<bytestring>) returns (out: seq<bytestring>)
    ensures forall x :: x in out <==> x in s
  {
    out := [];
    var todo := s;
    while todo != {}
      invariant todo <= s && forall x :: x in out <==> x in s && x !in todo
      decreases |todo|
    {
      var x :| x in todo;
      out := out + [x];
      todo := todo - {x};
    }
  }

  /** The copy of an announcer's boards, connected to the owner. */
  method Connected(name: bytestring, a: bytestring, s: Sender) returns (boards: seq<Board>)
    ensures forall f :: Holds(boards, f) <==> Plain(name, a, s, f)
  {
    boards := s.boards;
    if boards == [] {
      var endpoints := ListEndpoints(s.endpoints);
      var sources := ListStrings(s.sources);
      var b := Board(a, endpoints, sources, [name]);
      boards := [b];
      assert b in boards;
      forall f ensures Says(b, f) <==> Plain(name, a, s, f) {}
    } else {
      var i := Find(boards, a);
      if i < |boards| {
        ghost var b := Board(a, [], [], [name]);
        assert boards[i].(connections := boards[i].connections + [name]) == Joined(boards[i], b);
        forall f ensures Holds(boards[i := Joined(boards[i], b)], f) <==> Plain(name, a, s, f) {
          AddedFacts(boards, i, b, f);
          assert Says(b, f) <==> f == Known(a) || f == Conn(a, name);
          assert boards[i] in boards && Says(boards[i], Known(a));
        }
        boards := boards[i := boards[i].(connections := boards[i].connections + [name])];
      } else {
        assert !Holds(boards, Known(a));
      }
    }
  }

  method SenderBoards(c: Context, a: bytestring, s: Sender) returns (boards: seq<Board>)
    ensures forall f :: Holds(boards, f) <==> Tells(c, a, s, f)
  {
    boards := Connected(Name(c.owner), a, s);
    ghost var plain := boards;
    AllVisible(c.sc, plain);
    if !c.linkLocal { boards := HideLinkLocal(c.sc, boards); }
    forall f ensures Holds(boards, f) <==> Tells(c, a, s, f) { VisibleFacts(c.sc, c.linkLocal, plain, f); }
  }

  /** The list grows by the given facts; self-connections are left open. */
  ghost predicate Grown(before: seq<Board>, after: seq<Board>, more: Fact -> bool) {
    DistinctIds(after) && forall f :: !SelfLoop(f) ==> (Holds(after, f) <==> Holds(before, f) || more(f))
  }

  ghost function VisitedSenders(c: Context, m: map<bytestring, Sender>, todo: set<bytestring>): Fact -> bool {
    (f: Fact) => exists a :: a !in todo && FromSender(c, m, a, f)
  }

  ghost function VisitedRoutes(c: Context, routes: Routes, todo: set<int>): Fact -> bool {
    (f: Fact) => exists s :: s !in todo && FromRoute(c, routes, s, f)
  }

  method MergeSenders(c: Context, boards: seq<Board>, m: map<bytestring, Sender>) returns (out: seq<Board>)
    requires DistinctIds(boards)
    ensures Grown(boards, out, (f: Fact) => FromSenders(c, m, f))
  {
    out := boards;
    var todo := m.Keys;
    while todo != {}
      invariant todo <= m.Keys
      invariant Grown(boards, out, VisitedSenders(c, m, todo))
      decreases |todo|
    {
      var a :| a in todo;
      ghost var before := out;
      if Elapsed(c.now, m[a].lastSeenMs) <= TTL_MS {
        var told := SenderBoards(c, a, m[a]);
        out := Merge(out, told);
        CanonicalDistinct(out);
      }
      assert Grown(before, out, (f: Fact) => FromSender(c, m, a, f));
      todo := todo - {a};
    }
  }

  method MergeRoutes(c: Context, boards: seq<Board>, routes: Routes) returns (out: seq<Board>)
    requires DistinctIds(boards)
    ensures Grown(boards, out, (f: Fact) => FromRoutes(c, routes, f))
  {
    out := boards;
    var todo := routes.Keys;
    while todo != {}
      invariant todo <= routes.Keys
      invariant Grown(boards, out, VisitedRoutes(c, routes, todo))
      decreases |todo|
    {
      SomeElement(todo);
      var s :| s in todo;
      ghost var before := out;
      if Elapsed(c.now, routes[s].lastSeenMs) <= TTL_MS {
        out := MergeSenders(c, out, routes[s].announcers);
      }
      assert Grown(before, out, (f: Fact) => FromRoute(c, routes, s, f));
      todo := todo - {s};
    }
  }

  /** advertised_discovery_topology_for_side_impl: canonical, and exactly the advertised facts. */
  method Topology(sc: Schema, owner: Owner, sides: seq<Side>, routes: Routes, dst: int, now: uint64)
    returns (boards: seq<Board>, ghost c: Context)
    ensures c == Context(sc, owner, LinkLocalSide(sides, dst), now)
    ensures CanonicalBoards(boards)
    ensures forall f :: Holds(boards, f) <==> Advertised(c, routes, f)
  {
    var ctx := Context(sc, owner, LinkLocalSide(sides, dst), now);
    c := ctx;
    var local := LocalBoard(ctx, routes);
    boards := [local];
    assert forall b :: b in boards <==> b == local;
    boards := MergeRoutes(ctx, boards, routes);
    boards := Normalize(boards);
  }

  /** Two walks, each in its own order, give the same list. */
  method TopologyTwice(sc: Schema, owner: Owner, sides: seq<Side>, routes: Routes, dst: int, now: uint64)
    returns (a: seq<Board>, b: seq<Board>)
    ensures a == b
  {
    ghost var c, d;
    a, c := Topology(sc, owner, sides, routes, dst, now);
    b, d := Topology(sc, owner, sides, routes, dst, now);
    FactsDetermine(a, b);
  }

  /** advertised_endpoints_for_side: here link-local-only endpoints are hidden without exception. */
  method Endpoints(sc: Schema, owner: Owner, sides: seq<Side>, routes: Routes, dst: int, now: uint64)
    returns (out: seq<uint32>, ghost c: Context)
    ensures c == Context(sc, owner, LinkLocalSide(sides, dst), now)
    ensures SortedEndpoints(out)
    ensures forall ep :: ep in out <==>
              ep != EP_DISCOVERY && Shows(c, ep) && exists id :: Advertised(c, routes, Reach(id, ep))
  {
    var boards;
    boards, c := Topology(sc, owner, sides, routes, dst, now);
    var linkLocal := LinkLocalSide(sides, dst);
    var all, _ := Summarize(boards);
    var keep := (ep: uint32) => ep != EP_DISCOVERY && (linkLocal || !LinkLocalOnly(sc, ep));
    out := Filter(all, keep);
    FilterSorted(all, keep, Num, Lt);
    forall ep: uint32 ensures Reachable(boards, ep) <==> exists id :: Advertised(c, routes, Reach(id, ep))
    {
      ReachableIff(boards, ep);
    }
  }

  lemma ReachableIff(boards: seq<Board>, ep: uint32)
    ensures Reachable(boards, ep) <==> exists id :: Holds(boards, Reach(id, ep))
  {
    if Reachable(boards, ep) {
      var b :| b in boards && ep in b.endpoints;
      assert Says(b, Reach(b.id, ep));
      assert Holds(boards, Reach(b.id, ep));
    }
  }
}
