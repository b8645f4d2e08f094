/** Which sides a packet goes out on: candidates from the discovery index, two layers of overrides,
    then the policy. */
module Routing {
  import opened Bytes
  import opened Sorting
  import opened Schema
  import opened Packets
  import opened MapPasses
  import opened DiscoveryIndex
  import opened DiscoveryOwner
  import RoutePolicy

  datatype RouteKey = RouteKey(src: int, dst: int)

  datatype TypedRouteKey = TypedRouteKey(src: int, ty: nat, dst: int)

  /** Everything the choice depends on besides the policy. */
  datatype Query = Query(
    sc: Schema,
    sides: seq<Side>,
    routes: Routes,
    overrides: map<RouteKey, bool>,
    typed: map<TypedRouteKey, bool>,
    pkt: Packet,
    src: Option<int>,
    preferred: Option<bytestring>,
    now: uint64)

  // ---------------------------------------------------------------- the candidates as sets

  /** side_accepts_packet */
  predicate Accepts(q: Query, side: Side) { RequiresLinkLocal(q.sc, q.pkt.endpoints) ==> side.linkLocal }

  predicate Exists(q: Query, s: int) { 0 <= s < |q.sides| }

  /** A live route on another existing side that takes the packet. */
  predicate Live(q: Query, s: int) {
    s in q.routes && q.src != Some(s) && !Stale(q.now, q.routes[s].lastSeenMs) && Exists(q, s) && Accepts(q, q.sides[s])
  }

  predicate Wants(r: Route, endpoints: seq<nat>) {
    exists i :: 0 <= i < |endpoints| && (endpoints[i] == EP_DISCOVERY || endpoints[i] in r.endpoints)
  }

  predicate ByPreferred(q: Query, s: int)
  {
    q.preferred.Some? && Live(q, s) && q.preferred.value in q.routes[s].sources
  }

  predicate ByEndpoint(q: Query, s: int) { Live(q, s) && Wants(q.routes[s], q.pkt.endpoints) }

  predicate ByDefault(q: Query, s: int) {
    Exists(q, s) && q.src != Some(s) && q.sides[s].egress && Accepts(q, q.sides[s])
  }

  /** The preferred time source decides if anyone offers it, else the endpoints, else every side. */
  ghost predicate Candidate(q: Query, s: int) {
    if exists t :: ByPreferred(q, t) then ByPreferred(q, s)
    else if exists t :: ByEndpoint(q, t) then ByEndpoint(q, s)
    else ByDefault(q, s)
  }

  function SrcOf(q: Query): int { if q.src.Some? then q.src.value else -1 }

  ghost predicate TypedPresent(q: Query) {
    exists k :: k in q.typed && k.src == SrcOf(q) && k.ty == q.pkt.ty
  }

  /** Existing, open for egress, taking the packet; not overridden to false; and typed true, or
      nothing typed for this source and type at all. */
  ghost predicate Allowed(q: Query, s: int) {
    var route, typed := RouteKey(SrcOf(q), s), TypedRouteKey(SrcOf(q), q.pkt.ty, s);
    && Exists(q, s) && q.sides[s].egress && Accepts(q, q.sides[s])
    && (route in q.overrides ==> q.overrides[route])
    && (if typed in q.typed then q.typed[typed] else !TypedPresent(q))
  }

  /** Some board heard of on the route lists the endpoint; discovery packets go everywhere. */
  ghost predicate Told(r: Route, ep: nat) { ep == EP_DISCOVERY || (ep < TWO32 && ScanEndpoint(r.announcers, ep)) }

  /** While the index is consistent, the lookup by endpoint and by time source is a scan of every
      board heard of on the side. */
  lemma LookupIsScan(q: Query, s: int)
    requires Inv(q.routes)
    ensures ByEndpoint(q, s) <==>
              Live(q, s) && (exists i :: 0 <= i < |q.pkt.endpoints| && Told(q.routes[s], q.pkt.endpoints[i]))
    ensures ByPreferred(q, s) <==>
              q.preferred.Some? && Live(q, s) && ScanSource(q.routes[s].announcers, q.preferred.value)
  {
    if Live(q, s) {
      forall i | 0 <= i < |q.pkt.endpoints| && q.pkt.endpoints[i] < TWO32
        ensures q.pkt.endpoints[i] in q.routes[s].endpoints <==>
            ScanEndpoint(q.routes[s].announcers, q.pkt.endpoints[i])
      {
        LookupScansBoards(q.routes, s, q.pkt.endpoints[i], []);
      }
      if q.preferred.Some? { LookupScansBoards(q.routes, s, 0, q.preferred.value); }
    }
  }

  // ---------------------------------------------------------------- the candidates in plain terms

  /** Another side that may carry the packet: one without link-local traffic only if the packet names no endpoint
      or one that is not link-local only. */
  ghost predicate Open(q: Query, s: int) {
    && 0 <= s < |q.sides| && q.src != Some(s)
    && (q.sides[s].linkLocal || q.pkt.endpoints == []
        || exists i :: 0 <= i < |q.pkt.endpoints| && !LinkLocalOnly(q.sc, q.pkt.endpoints[i]))
  }

  /** The side has a route heard of within the last thirty seconds. */
  ghost predicate HeardLately(q: Query, s: int) {
    s in q.routes && (q.now - q.routes[s].lastSeenMs) % TWO64 <= 30000
  }

  lemma LiveMeaning(q: Query, s: int)
    ensures Live(q, s) <==> Open(q, s) && HeardLately(q, s)
  {}

  /** The route on s offers the preferred time source. */
  ghost predicate Offers(q: Query, s: int) {
    q.preferred.Some? && s in q.routes && q.preferred.value in q.routes[s].sources
  }

  /** The route on s leads to an endpoint of the packet, or the packet is for discovery. */
  ghost predicate Reaches(q: Query, s: int) {
    && s in q.routes
    && exists i :: 0 <= i < |q.pkt.endpoints| &&
         (q.pkt.endpoints[i] == EP_DISCOVERY || q.pkt.endpoints[i] in q.routes[s].endpoints)
  }

  /** Candidates are fresh routes that offer the preferred time source; if there are none, fresh routes that reach
      an endpoint of the packet; if there are none either, all sides open for egress. Never the side the packet
      came from, never a side that may not carry it. */
  lemma CandidateMeaning(q: Query, s: int)
    ensures (exists t :: Open(q, t) && HeardLately(q, t) && Offers(q, t)) ==>
              (Candidate(q, s) <==> Open(q, s) && HeardLately(q, s) && Offers(q, s))
    ensures (forall t :: !(Open(q, t) && HeardLately(q, t) && Offers(q, t)))
            && (exists t :: Open(q, t) && HeardLately(q, t) && Reaches(q, t)) ==>
              (Candidate(q, s) <==> Open(q, s) && HeardLately(q, s) && Reaches(q, s))
    ensures (forall t :: !(Open(q, t) && HeardLately(q, t) && Offers(q, t)))
            && (forall t :: !(Open(q, t) && HeardLately(q, t) && Reaches(q, t))) ==>
              (Candidate(q, s) <==> Open(q, s) && q.sides[s].egress)
  {
    forall t ensures ByPreferred(q, t) <==> Open(q, t) && HeardLately(q, t) && Offers(q, t) { LiveMeaning(q, t); }
    forall t ensures ByEndpoint(q, t) <==> Open(q, t) && HeardLately(q, t) && Reaches(q, t) {
      ByEndpointMeaning(q, t);
    }
  }

  lemma ByEndpointMeaning(q: Query, s: int)
    ensures ByEndpoint(q, s) <==> Open(q, s) && HeardLately(q, s) && Reaches(q, s)
  {
    LiveMeaning(q, s);
  }

  /** A packet all of whose endpoints are link-local only never goes out on a side without link-local traffic. */
  lemma LinkLocalConfined(q: Query, s: int)
    requires q.pkt.endpoints != [] && forall i :: 0 <= i < |q.pkt.endpoints| ==> LinkLocalOnly(q.sc, q.pkt.endpoints[i])
    requires 0 <= s < |q.sides| && !q.sides[s].linkLocal
    ensures !Candidate(q, s) && !Allowed(q, s)
  {
    CandidateMeaning(q, s);
  }

  // ---------------------------------------------------------------- the loops

  method LoopPreferred(q: Query) returns (out: seq<int>)
    requires q.preferred.Some?
    ensures forall s :: s in out <==> ByPreferred(q, s)
  {
    out := [];
    var todo := q.routes.Keys;
    while todo != {}
      invariant todo <= q.routes.Keys
      invariant forall s :: s in out <==> s !in todo && ByPreferred(q, s)
      decreases |todo|
    {
      SomeElement(todo);
      var s :| s in todo;
      if Live(q, s) && q.preferred.value in q.routes[s].sources { out := out + [s]; }
      todo := todo - {s};
    }
  }

  method AnyWanted(r: Route, endpoints: seq<nat>) returns (found: bool)
    ensures found <==> Wants(r, endpoints)
  {
    for i := 0 to |endpoints|
      invariant forall j :: 0 <= j < i ==> endpoints[j] != EP_DISCOVERY && endpoints[j] !in r.endpoints
    {
      if endpoints[i] == EP_DISCOVERY || endpoints[i] in r.endpoints { return true; }
    }
    return false;
  }

  method LoopEndpoints(q: Query) returns (out: seq<int>)
    ensures forall s :: s in out <==> ByEndpoint(q, s)
  {
    out := [];
    var todo := q.routes.Keys;
    while todo != {}
      invariant todo <= q.routes.Keys
      invariant forall s :: s in out <==> s !in todo && ByEndpoint(q, s)
      decreases |todo|
    {
      SomeElement(todo);
      var s :| s in todo;
      if Live(q, s) {
        var found := AnyWanted(q.routes[s], q.pkt.endpoints);
        if found { out := out + [s]; }
      }
      todo := todo - {s};
    }
  }

  method LoopSides(q: Query) returns (out: seq<int>)
    ensures forall s :: s in out <==> ByDefault(q, s)
  {
    out := [];
    for i := 0 to |q.sides|
      invariant forall s :: s in out <==> s < i && ByDefault(q, s)
    {
      if q.src != Some(i) && q.sides[i].egress && Accepts(q, q.sides[i]) { out := out + [i]; }
    }
  }

  lemma EmptyIff(out: seq<int>)
    ensures out != [] <==> exists s :: s in out
  {
    if out != [] {
      var s := out[0];
      assert s in out;
    }
  }

  /** default_candidates */
  method DefaultCandidates(q: Query) returns (out: seq<int>)
    ensures SortedInts(out)
    ensures forall s :: s in out <==> Candidate(q, s)
    ensures forall s :: s in out ==> q.src != Some(s)
  {
    if q.preferred.Some? {
      out := LoopPreferred(q);
      EmptyIff(out);
      if out != [] {
        SortIntsSpec(out);
        return SortInts(out);
      }
    }
    out := LoopEndpoints(q);
    EmptyIff(out);
    if out == [] { out := LoopSides(q); }
    SortIntsSpec(out);
    out := SortInts(out);
  }

  method FindTyped(q: Query) returns (present: bool)
    ensures present <==> TypedPresent(q)
  {
    var todo := q.typed.Keys;
    while todo != {}
      invariant todo <= q.typed.Keys
      invariant forall k :: k in q.typed && k !in todo ==> !(k.src == SrcOf(q) && k.ty == q.pkt.ty)
      decreases |todo|
    {
      var k :| k in todo;
      if k.src == SrcOf(q) && k.ty == q.pkt.ty { return true; }
      todo := todo - {k};
    }
    return false;
  }

  /** One turn of the filter loop, branch by branch. */
  method Admit(q: Query, present: bool, s: int) returns (take: bool)
    requires present <==> TypedPresent(q)
    ensures take <==> Allowed(q, s)
  {
    if s < 0 || s >= |q.sides| { return false; }
    if !q.sides[s].egress { return false; }
    if !Accepts(q, q.sides[s]) { return false; }
    var route, typed := RouteKey(SrcOf(q), s), TypedRouteKey(SrcOf(q), q.pkt.ty, s);
    if route in q.overrides && !q.overrides[route] { return false; }
    if typed in q.typed { return q.typed[typed]; }
    if present { return false; }
    if route in q.overrides { return q.overrides[route]; }
    return true;
  }

  ghost function AllowedFor(q: Query): int -> bool { (s: int) => Allowed(q, s) }

  method FilterCandidates(q: Query, candidates: seq<int>) returns (out: seq<int>)
    ensures out == Filter(candidates, AllowedFor(q))
  {
    var present := FindTyped(q);
    ghost var keep := AllowedFor(q);
    out := [];
    for i := 0 to |candidates|
      invariant out == Filter(candidates[..i], keep)
    {
      assert candidates[..i + 1] == candidates[..i] + [candidates[i]];
      FilterSnoc(candidates[..i], keep, candidates[i]);
      var take := Admit(q, present, candidates[i]);
      if take { out := out + [candidates[i]]; }
    }
    assert candidates[..|candidates|] == candidates;
  }

  /** select_destinations: an explicit destination bypasses every filter; otherwise the policy
      chooses from exactly the allowed candidates, in ascending order, never the source side. */
  method SelectDestinations(q: Query, explicitDst: Option<int>, policy: RoutePolicy.Policy)
    returns (out: seq<int>, ghost filtered: seq<int>)
    modifies policy`rrCounter
    ensures explicitDst.Some? ==> out == [explicitDst.value] && policy.rrCounter == old(policy.rrCounter)
    ensures explicitDst.None? ==> SortedInts(filtered) && forall s :: s in filtered <==>
              Candidate(q, s) && Allowed(q, s)
    ensures explicitDst.None? ==> forall i :: 0 <= i < |out| ==> out[i] in filtered && q.src != Some(out[i])
    ensures explicitDst.None? ==> forall i :: 0 <= i < |out| ==>
              && 0 <= out[i] < |q.sides| && q.sides[out[i]].egress
              && (q.sides[out[i]].linkLocal || q.pkt.endpoints == []
                  || exists j :: 0 <= j < |q.pkt.endpoints| && !LinkLocalOnly(q.sc, q.pkt.endpoints[j]))
    ensures explicitDst.None? && (filtered == [] || policy.mode == RoutePolicy.Fanout) ==> out == filtered
    ensures explicitDst.None? && filtered != [] && policy.mode == RoutePolicy.Failover ==>
              |out| == 1 && RoutePolicy.FirstLeast(policy.priorities, filtered, out[0])
    ensures explicitDst.None? && filtered != [] && policy.mode == RoutePolicy.Weighted ==>
              out == [RoutePolicy.Pick(policy.weights, filtered,
                                       old(policy.rrCounter) % RoutePolicy.Total(policy.weights, filtered))]
  {
    filtered := [];
    if explicitDst.Some? { return [explicitDst.value], []; }
    var candidates := DefaultCandidates(q);
    var chosen := FilterCandidates(q, candidates);
    FilterSorted(candidates, AllowedFor(q), Same, Lt);
    filtered := chosen;
    out := policy.Apply(chosen);
  }
}
