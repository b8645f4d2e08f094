/** The owner of a discovery index: handlers and expiry that rewrite it in place. */
module DiscoveryOwner {
  import opened Bytes
  import opened Sorting
  import opened Schema
  import opened Packets
  import opened Boards
  import opened TopologyCodec
  import opened MapPasses
  import opened DiscoveryIndex

  const FAST_MS: uint64 := 250

  const DT_ANNOUNCE: nat := 7
  const DT_SOURCES: nat := 8
  const DT_TOPOLOGY: nat := 9
  const DT_LEAVE: nat := 1015

  datatype Side = Side(egress: bool, linkLocal: bool)

  predicate LinkLocalSide(sides: seq<Side>, side: int) { 0 <= side < |sides| && sides[side].linkLocal }

  // ---------------------------------------------------------------- payloads

  /** The whole 32-bit words of a payload. */
  function Words(payload: bytestring): seq<uint32> {
    if |payload| < 4 then [] else [FromLe32(payload[..4])] + Words(payload[4..])
  }

  function Announced(sc: Schema): uint32 -> bool { (ep: uint32) => ValidEndpoint(sc, ep) && ep != EP_DISCOVERY }

  /** Up to n non-empty strings, as far as the bytes reach. */
  function Strings(s: bytestring, n: nat): seq<bytestring>
    decreases n
  {
    if n == 0 then []
    else match ReadString(s)
      case Fail => []
      case Got(v, rest) => (if v == [] then [] else [v]) + Strings(rest, n - 1)
  }

  function SourcesIn(payload: bytestring): seq<bytestring> {
    if |payload| < 4 then [] else SortStrings(Strings(payload[4..], FromLe32(payload[..4])))
  }

  /** What a discovery packet says; a malformed topology says that there are no boards. */
  function Interpret(sc: Schema, ty: nat, payload: bytestring): Message {
    if ty == DT_ANNOUNCE then Announce(SortEndpoints(Filter(Words(payload), Announced(sc))))
    else if ty == DT_SOURCES then Sources(SourcesIn(payload))
    else if ty == DT_TOPOLOGY then Topology(match DecodeTopology(payload) case None => [] case Some(bs) => bs)
    else Other
  }

  lemma WordsStep(payload: bytestring, i: nat, words: seq<uint32>)
    requires i + 4 <= |payload| && words + Words(payload[i..]) == Words(payload)
    ensures (words + [FromLe32(payload[i..i + 4])]) + Words(payload[i + 4..]) == Words(payload)
  {
    assert payload[i..][..4] == payload[i..i + 4] && payload[i..][4..] == payload[i + 4..];
  }

  method DecodeAnnounce(sc: Schema, payload: bytestring) returns (out: seq<uint32>)
    ensures out == SortEndpoints(Filter(Words(payload), Announced(sc)))
  {
    out := [];
    ghost var keep := Announced(sc);
    var i := 0;
    assert payload[0..] == payload;
    ghost var words: seq<uint32> := [];
    while i + 4 <= |payload|
      invariant i <= |payload|
      invariant words + Words(payload[i..]) == Words(payload)
      invariant out == Filter(words, keep)
    {
      var ep := FromLe32(payload[i..i + 4]);
      WordsStep(payload, i, words);
      FilterSnoc(words, keep, ep);
      if ValidEndpoint(sc, ep) && ep != EP_DISCOVERY { out := out + [ep]; }
      words := words + [ep];
      i := i + 4;
    }
    assert words + [] == words;
    out := SortEndpoints(out);
  }

  method DecodeSources(payload: bytestring) returns (out: seq<bytestring>)
    ensures out == SourcesIn(payload)
  {
    out := [];
    if |payload| < 4 { return; }
    var count := FromLe32(payload[..4]);
    var off, i := 4, 0;
    ghost var all := Strings(payload[4..], count);
    while i < count && off + 4 <= |payload|
      invariant 0 <= i <= count && off <= |payload|
      invariant out + Strings(payload[off..], count - i) == all
    {
      var s, after := DecodeSizedString(payload, off);
      if s.None? { break; }
      SomeString(out, s.value, Strings(payload[after..], count - i - 1));
      if s.value != [] { out := out + [s.value]; }
      off, i := after, i + 1;
    }
    assert Strings(payload[off..], count - i) == [];
    assert out + [] == out;
    out := SortStrings(out);
  }

  lemma SomeString(out: seq<bytestring>, v: bytestring, rest: seq<bytestring>)
    ensures out + ((if v == [] then [] else [v]) + rest) == (if v == [] then out else out + [v]) + rest
  {}

  lemma {:induction false} WordsRoundTrip(eps: seq<uint32>)
    ensures Words(Concat(EndpointBytes, eps)) == eps
  {
    if eps != [] {
      var rest := Concat(EndpointBytes, eps[1..]);
      var payload := Le32(eps[0]) + rest;
      WordsRoundTrip(eps[1..]);
      Le32RoundTrip(eps[0]);
      assert payload[..4] == Le32(eps[0]) && payload[4..] == rest;
      assert eps == [eps[0]] + eps[1..];
    }
  }

  /** Endpoints written one after the other are read back: sorted, the valid ones, discovery left
      out. */
  lemma AnnounceRoundTrip(sc: Schema, eps: seq<uint32>)
    ensures Interpret(sc, DT_ANNOUNCE, Concat(EndpointBytes, eps))
        == Announce(SortEndpoints(Filter(eps, Announced(sc))))
  {
    WordsRoundTrip(eps);
  }

  lemma {:induction false} StringsBack(xs: seq<bytestring>)
    requires forall x :: x in xs ==> |x| < TWO32
    ensures Strings(Concat(StringBytes, xs), |xs|) == Filter(xs, NonEmpty)
  {
    if xs != [] {
      StringRoundTrip(xs[0]);
      StringsBack(xs[1..]);
      assert ReadString(StringBytes(xs[0]) + Concat(StringBytes, xs[1..]))
          == Got(Same(xs[0]), Concat(StringBytes, xs[1..]));
    }
  }

  /** A written source list is read back: sorted, empty names left out. */
  lemma SourcesRoundTrip(sc: Schema, xs: seq<bytestring>)
    requires ShortStrings(xs)
    ensures Interpret(sc, DT_SOURCES, ListBytes(StringBytes, xs)) == Sources(SortStrings(Filter(xs, NonEmpty)))
  {
    SizeRoundTrip(|xs|, Concat(StringBytes, xs));
    StringsBack(xs);
  }

  /** What a packet says is sorted throughout, whatever its payload. */
  lemma InterpretSorted(sc: Schema, ty: nat, payload: bytestring)
    ensures match Interpret(sc, ty, payload)
            case Announce(eps) => SortedEndpoints(eps)
            case Sources(sources) => SortedStrings(sources)
            case Topology(boards) => CanonicalBoards(boards)
            case Other => true
  {
    SortEndpointsSpec(Filter(Words(payload), Announced(sc)));
    if |payload| >= 4 { SortStringsSpec(Strings(payload[4..], FromLe32(payload[..4]))); }
    if DecodeTopology(payload).Some? { NormalizeCanonical(ReadList(ReadBoard, payload).value); }
  }

  // ---------------------------------------------------------------- caches

  method RefreshSender(st: Sender) returns (out: Sender)
    ensures out == Refresh(st)
  {
    var boards := Normalize(st.boards);
    var reachable, sources := Summarize(boards);
    out := Sender((set ep | ep in reachable), (set s | s in sources), boards, st.lastSeenMs);
    forall ep: uint32 ensures ep in out.endpoints <==> ep in EndpointsOf(boards) { BoardSums(boards, ep, []); }
    forall s: bytestring ensures s in out.sources <==> s in SourcesOf(boards) { BoardSums(boards, 0, s); }
  }

  ghost predicate SumsTo(m: map<bytestring, Sender>, endpoints: set<uint32>, sources: set<bytestring>, seen: uint64) {
    endpoints == AllEndpoints(m) && sources == AllSources(m) && IsLatest(m, seen)
  }

  /** The announcers already counted. */
  ghost function Done(m: map<bytestring, Sender>, todo: set<bytestring>): map<bytestring, Sender> {
    map a | a in m && a !in todo :: m[a]
  }

  lemma SumsStep(m: map<bytestring, Sender>, a: bytestring, s: Sender, endpoints: set<uint32>,
                 sources: set<bytestring>, seen: uint64)
    requires a !in m && SumsTo(m, endpoints, sources, seen)
    ensures SumsTo(m[a := s], endpoints + s.endpoints, sources + s.sources,
                   if seen >= s.lastSeenMs then seen else s.lastSeenMs)
  {
    var m' := m[a := s];
    assert m'[a] == s && forall b :: b in m ==> m'[b] == m[b];
    forall ep ensures ep in AllEndpoints(m') <==> ep in AllEndpoints(m) + s.endpoints {
      if ep in AllEndpoints(m) { var b :| b in m && ep in m[b].endpoints; assert ep in m'[b].endpoints; }
    }
    forall x ensures x in AllSources(m') <==> x in AllSources(m) + s.sources {
      if x in AllSources(m) { var b :| b in m && x in m[b].sources; assert x in m'[b].sources; }
    }
  }

  lemma DoneStep(m: map<bytestring, Sender>, todo: set<bytestring>, a: bytestring)
    requires a in m && a in todo
    ensures a !in Done(m, todo) && Done(m, todo - {a}) == Done(m, todo)[a := m[a]]
  {}

  method RecomputeRoute(r: Route) returns (out: Route)
    ensures out == Recompute(r)
  {
    var m := r.announcers;
    var endpoints: set<uint32>, sources: set<bytestring>, seen: uint64 := {}, {}, 0;
    var todo := m.Keys;
    assert Done(m, todo) == map[];
    while todo != {}
      invariant todo <= m.Keys
      invariant SumsTo(Done(m, todo), endpoints, sources, seen)
      decreases |todo|
    {
      var a :| a in todo;
      DoneStep(m, todo, a);
      SumsStep(Done(m, todo), a, m[a], endpoints, sources, seen);
      endpoints, sources := endpoints + m[a].endpoints, sources + m[a].sources;
      seen := if seen >= m[a].lastSeenMs then seen else m[a].lastSeenMs;
      todo := todo - {a};
    }
    assert Done(m, {}) == m;
    LatestUnique(m, seen, Latest(m));
    out := r.(endpoints := endpoints, sources := sources, lastSeenMs := seen);
  }

  // ---------------------------------------------------------------- leaving and expiry, route by route

  ghost function SenderLeaving(x: bytestring): Sender -> Sender { (s: Sender) => LeaveSender(s, x) }

  ghost predicate Any(s: Sender) { true }

  lemma LeaveSendersPass(m: map<bytestring, Sender>, x: bytestring)
    ensures LeaveSenders(m, x) == Rewritten(m - {x}, SenderLeaving(x), Any)
  {}

  /** The boards of one announcer without x. */
  method StripLoop(boards: seq<Board>, x: bytestring) returns (out: seq<Board>)
    ensures out == StripBoards(boards, x)
  {
    out := [];
    for i := 0 to |boards|
      invariant out + StripBoards(boards[i..], x) == StripBoards(boards, x)
    {
      StripFrom(boards, i, x, out);
      if boards[i].id != x {
        out := out + [boards[i].(connections := Filter(boards[i].connections, c => c != x))];
      }
    }
    assert out + [] == out;
  }

  lemma StripFrom(boards: seq<Board>, i: nat, x: bytestring, out: seq<Board>)
    requires i < |boards|
    ensures out + StripBoards(boards[i..], x)
        == (if boards[i].id == x then out else out + [Strip(boards[i], x)]) + StripBoards(boards[i + 1..], x)
  {}

  method LeaveOneSender(s: Sender, x: bytestring) returns (out: Sender, changed: bool)
    ensures out == LeaveSender(s, x)
    ensures changed <==> BoardsName(s.boards, x)
  {
    StripSpec(s.boards, x);
    var boards := StripLoop(s.boards, x);
    changed := boards != s.boards;
    out := s;
    if changed { out := RefreshSender(s.(boards := boards)); }
  }

  method LeaveLoop(m: map<bytestring, Sender>, x: bytestring) returns (senders: map<bytestring, Sender>, changed: bool)
    ensures senders == Rewritten(m, SenderLeaving(x), Any)
    ensures changed <==> exists a :: a in m && BoardsName(m[a].boards, x)
  {
    ghost var f := SenderLeaving(x);
    changed := false;
    senders := m;
    var todo := m.Keys;
    PartlyStart(m, f, Any);
    while todo != {}
      invariant todo <= m.Keys && senders == Partly(m, todo, f, Any)
      invariant changed <==> exists a :: a in m && a !in todo && BoardsName(m[a].boards, x)
      decreases |todo|
    {
      var a :| a in todo;
      PartlyStep(m, todo, a, f, Any);
      var s, c := LeaveOneSender(senders[a], x);
      changed := changed || c;
      senders := senders[a := s];
      todo := todo - {a};
    }
    PartlyEnd(m, f, Any);
  }

  /** One route's part of prune_leaving_discovery_sender. */
  method LeaveOne(r: Route, x: bytestring) returns (out: Route, changed: bool)
    ensures out == LeaveRoute(r, x)
    ensures changed <==> SendersName(r.announcers, x)
  {
    var senders;
    var rest := r.announcers - {x};
    senders, changed := LeaveLoop(rest, x);
    changed := changed || x in r.announcers;
    assert forall a :: a in r.announcers && a != x ==> a in rest && rest[a] == r.announcers[a];
    assert forall a :: a in rest ==> a in r.announcers && rest[a] == r.announcers[a];
    LeaveSendersPass(r.announcers, x);
    out := RecomputeRoute(r.(announcers := senders));
  }

  ghost function FreshAt(now: uint64): Sender -> bool { (s: Sender) => !Stale(now, s.lastSeenMs) }

  ghost function Idle(s: Sender): Sender { s }

  lemma FreshPass(m: map<bytestring, Sender>, now: uint64)
    ensures FreshSenders(m, now) == Rewritten(m, Idle, FreshAt(now))
  {}

  ghost predicate AnyStale(m: map<bytestring, Sender>, now: uint64)
  {
    exists a :: a in m && Stale(now, m[a].lastSeenMs)
  }

  /** Some route outside todo has a stale announcer. */
  ghost predicate StaleOutside(m: Routes, todo: set<int>, now: uint64)
  {
    exists s :: s in m && s !in todo && AnyStale(m[s].announcers, now)
  }

  lemma StaleSomewhere(m: Routes, now: uint64)
    ensures StaleOutside(m, {}, now) <==> HasStale(m, now)
  {
    if HasStale(m, now) {
      var s, a :| s in m && a in m[s].announcers && Stale(now, m[s].announcers[a].lastSeenMs);
      assert AnyStale(m[s].announcers, now);
    }
  }

  /** One route's part of prune_discovery_routes. */
  method PruneOne(r: Route, now: uint64) returns (out: Route, changed: bool)
    ensures out == PruneRoute(r, now)
    ensures changed <==> AnyStale(r.announcers, now)
  {
    var m := r.announcers;
    ghost var keep := FreshAt(now);
    var senders, todo := m, m.Keys;
    changed := false;
    PartlyStart(m, Idle, keep);
    while todo != {}
      invariant todo <= m.Keys && senders == Partly(m, todo, Idle, keep)
      invariant changed <==> exists a :: a in m && a !in todo && Stale(now, m[a].lastSeenMs)
      decreases |todo|
    {
      var a :| a in todo;
      PartlyStep(m, todo, a, Idle, keep);
      if Elapsed(now, senders[a].lastSeenMs) > TTL_MS {
        senders := senders - {a};
        changed := true;
      } else {
        assert senders[a := senders[a]] == senders;
      }
      todo := todo - {a};
    }
    PartlyEnd(m, Idle, keep);
    FreshPass(m, now);
    out := RecomputeRoute(r.(announcers := senders));
  }

  /** Whether the route then goes, and whether that counts as a change. */
  method PruneOrErase(r: Route, now: uint64) returns (out: Route, erase: bool, changed: bool)
    requires RouteInv(r)
    ensures out == PruneRoute(r, now) && (erase <==> !Kept(out, now))
    ensures changed <==> AnyStale(r.announcers, now)
  {
    out, changed := PruneOne(r, now);
    erase := out.announcers == map[] || Elapsed(now, out.lastSeenMs) > TTL_MS;
    PruneRouteSpec(r, now);
    if erase { changed := true; }
  }

  // ---------------------------------------------------------------- one message

  method HideLinkLocal(sc: Schema, boards: seq<Board>) returns (out: seq<Board>)
    ensures out == VisibleBoards(sc, false, boards)
  {
    out := boards;
    for i := 0 to |boards|
      invariant |out| == |boards|
      invariant forall j :: 0 <= j < i ==> out[j] == boards[j].(endpoints := Visible(sc, false, boards[j].endpoints))
      invariant forall j :: i <= j < |boards| ==> out[j] == boards[j]
    {
      out := out[i := out[i].(endpoints := Visible(sc, false, out[i].endpoints))];
    }
  }

  lemma AllVisible(sc: Schema, boards: seq<Board>)
    ensures VisibleBoards(sc, true, boards) == boards
  {}

  /** The three branches of handle_discovery_packet that change the sender's boards. */
  method LearnMessage(sc: Schema, linkLocal: bool, st: Sender, id: bytestring, ty: nat, payload: bytestring)
    returns (out: Sender, changed: bool)
    ensures (out, changed) == Learn(sc, linkLocal, st, id, Interpret(sc, ty, payload))
  {
    out, changed := st, false;
    if ty == DT_ANNOUNCE {
      var reachable := DecodeAnnounce(sc, payload);
      var boards := EnsureBoard(st.boards, id);
      var i := Find(boards, id);
      changed := boards[i].endpoints != reachable;
      boards := boards[i := boards[i].(endpoints := Visible(sc, linkLocal, reachable))];
      out := RefreshSender(st.(boards := boards));
    } else if ty == DT_SOURCES {
      var boards := EnsureBoard(st.boards, id);
      var i := Find(boards, id);
      var sources := DecodeSources(payload);
      changed := boards[i].sources != sources;
      boards := boards[i := boards[i].(sources := sources)];
      out := RefreshSender(st.(boards := boards));
    } else if ty == DT_TOPOLOGY {
      var decoded := DecodeTopologyPayload(payload);
      var boards := if decoded.Some? then decoded.value else [];
      AllVisible(sc, boards);
      if !linkLocal { boards := HideLinkLocal(sc, boards); }
      changed := st.boards != boards;
      out := RefreshSender(st.(boards := boards));
    }
  }

  /** An announce packet end to end: afterwards the sender's board reaches exactly the endpoints written in the
      packet that are valid, not the discovery endpoint, and not link-local only unless the side carries that. */
  lemma AnnounceReceived(sc: Schema, linkLocal: bool, routes: Routes, side: int, id: bytestring, eps: seq<uint32>,
                         now: uint64, ep: uint32)
    requires Inv(routes)
    ensures var after := Heard(sc, linkLocal, routes, side, id, Interpret(sc, 7, Concat(EndpointBytes, eps)), now);
            && side in after && id in after[side].announcers
            && (Holds(after[side].announcers[id].boards, Reach(id, ep)) <==>
                ep in eps && ValidEndpoint(sc, ep) && ep != 201 && (linkLocal || !LinkLocalOnly(sc, ep)))
  {
    var st := SenderOf(RouteOf(routes, side), id);
    var valid := Filter(eps, Announced(sc));
    AnnounceRoundTrip(sc, eps);
    SortEndpointsSpec(valid);
    OldSenderInv(routes, side, id);
    AnnounceEffect(sc, linkLocal, st, id, SortEndpoints(valid), Reach(id, ep));
    HeardFrame(sc, linkLocal, routes, side, id, Announce(SortEndpoints(valid)), now);
  }

  /** A source list end to end: afterwards the sender's board names exactly the non-empty sources written. */
  lemma SourcesReceived(sc: Schema, linkLocal: bool, routes: Routes, side: int, id: bytestring, xs: seq<bytestring>,
                        now: uint64, source: bytestring)
    requires Inv(routes) && ShortStrings(xs)
    ensures var after := Heard(sc, linkLocal, routes, side, id, Interpret(sc, 8, ListBytes(StringBytes, xs)), now);
            && side in after && id in after[side].announcers
            && (Holds(after[side].announcers[id].boards, Source(id, source)) <==> source in xs && source != [])
  {
    var st := SenderOf(RouteOf(routes, side), id);
    var named := Filter(xs, NonEmpty);
    SourcesRoundTrip(sc, xs);
    SortStringsSpec(named);
    OldSenderInv(routes, side, id);
    SourcesEffect(sc, linkLocal, st, id, SortStrings(named), Source(id, source));
    HeardFrame(sc, linkLocal, routes, side, id, Sources(SortStrings(named)), now);
  }

  lemma OldSenderInv(routes: Routes, side: int, id: bytestring)
    requires Inv(routes)
    ensures SenderInv(SenderOf(RouteOf(routes, side), id))
  {
    NewSenderInv();
    if side in routes && id in routes[side].announcers { assert SendersInv(routes[side].announcers); }
  }

  // ---------------------------------------------------------------- the owner

  class Discovery {
    const sc: Schema
    const name: bytestring
    var sides: seq<Side>
    var routes: Routes
    var intervalMs: uint64
    var nextMs: uint64

    constructor (sc: Schema, name: bytestring, sides: seq<Side>)
      ensures this.sc == sc && this.name == name && this.sides == sides && routes == map[] && Valid()
    {
      this.sc, this.name, this.sides := sc, name, sides;
      routes, intervalMs, nextMs := map[], FAST_MS, 0;
    }

    ghost predicate Valid()
      reads this
    {
      Inv(routes)
    }

    /** prune_leaving_discovery_sender: complete, and its flag is exact. */
    method PruneLeaving(x: bytestring) returns (changed: bool)
      requires Valid()
      modifies this`routes
      ensures Valid() && routes == LeaveAll(old(routes), x) && !Names(routes, x)
      ensures changed <==> routes != old(routes)
      ensures changed <==> Names(old(routes), x)
    {
      var m, todo := routes, routes.Keys;
      ghost var f := LeavingOf(x);
      changed := false;
      PartlyStart(m, f, Populated);
      while todo != {}
        invariant todo <= m.Keys && routes == Partly(m, todo, f, Populated)
        invariant changed <==> exists s :: s in m && s !in todo && SendersName(m[s].announcers, x)
        decreases |todo|
      {
        SomeElement(todo);
        var s :| s in todo;
        PartlyStep(m, todo, s, f, Populated);
        var r, c := LeaveOne(routes[s], x);
        changed := changed || c;
        routes := if r.announcers == map[] then routes - {s} else routes[s := r];
        todo := todo - {s};
      }
      PartlyEnd(m, f, Populated);
      LeaveComplete(m, x);
    }

    /** prune_discovery_routes: its flag is exact too. */
    method PruneRoutes(now: uint64) returns (changed: bool)
      requires Valid()
      modifies this`routes
      ensures Valid() && routes == PruneAll(old(routes), now) && !HasStale(routes, now)
      ensures changed <==> routes != old(routes)
    {
      var m, todo := routes, routes.Keys;
      ghost var f, keep := PruningAt(now), KeptAt(now);
      changed := false;
      PartlyStart(m, f, keep);
      while todo != {}
        invariant todo <= m.Keys && routes == Partly(m, todo, f, keep)
        invariant changed <==> StaleOutside(m, todo, now)
        decreases |todo|
      {
        SomeElement(todo);
        var s :| s in todo;
        PartlyStep(m, todo, s, f, keep);
        var r, erase, c := PruneOrErase(routes[s], now);
        changed := changed || c;
        routes := if erase then routes - {s} else routes[s := r];
        todo := todo - {s};
      }
      PartlyEnd(m, f, keep);
      StaleSomewhere(m, now);
      PruneExact(m, now, 0);
    }

    /** Removing a side forgets its route. */
    method RemoveSide(side: int)
      requires Valid()
      modifies this`routes
      ensures Valid() && routes == old(routes) - {side}
    {
      routes := routes - {side};
    }

    /** Whether a packet is taken notice of at all. */
    predicate Heeds(pkt: Packet, src: Option<int>) { src.Some? && pkt.sender != name }

    /** The flag of handle_discovery_packet. */
    ghost predicate Noticed(pkt: Packet, side: int)
      reads this
    {
      if pkt.ty == DT_LEAVE then Names(routes, pkt.sender)
      else Learn(sc, LinkLocalSide(sides, side), SenderOf(RouteOf(routes, side), pkt.sender), pkt.sender,
                 Interpret(sc, pkt.ty, pkt.payload)).1
    }

    /** handle_discovery_packet */
    method Handle(pkt: Packet, src: Option<int>, now: uint64)
      requires Valid()
      modifies this`routes, this`intervalMs, this`nextMs
      ensures Valid()
      ensures !Heeds(pkt, src) ==> routes == old(routes)
      ensures Heeds(pkt, src) && pkt.ty == DT_LEAVE ==>
                routes == LeaveAll(old(routes), pkt.sender) && !Names(routes, pkt.sender)
      ensures Heeds(pkt, src) && pkt.ty != DT_LEAVE ==>
                routes == Heard(sc, LinkLocalSide(sides, src.value), old(routes), src.value, pkt.sender,
                                Interpret(sc, pkt.ty, pkt.payload), now)
      ensures if Heeds(pkt, src) && old(Noticed(pkt, src.value)) then intervalMs == FAST_MS && nextMs == now
              else intervalMs == old(intervalMs) && nextMs == old(nextMs)
    {
      if src.None? || pkt.sender == name { return; }
      var changed := false;
      if pkt.ty == DT_LEAVE {
        changed := PruneLeaving(pkt.sender);
      } else {
        var linkLocal := LinkLocalSide(sides, src.value);
        HeardInv(sc, linkLocal, routes, src.value, pkt.sender, Interpret(sc, pkt.ty, pkt.payload), now);
        changed := Record(linkLocal, src.value, pkt.sender, pkt.ty, pkt.payload, now);
      }
      if changed { intervalMs, nextMs := FAST_MS, now; }
    }

    method Record(linkLocal: bool, side: int, id: bytestring, ty: nat, payload: bytestring, now: uint64)
      returns (changed: bool)
      modifies this`routes
      ensures routes == Heard(sc, linkLocal, old(routes), side, id, Interpret(sc, ty, payload), now)
      ensures changed == Learn(sc, linkLocal, SenderOf(RouteOf(old(routes), side), id), id,
                               Interpret(sc, ty, payload)).1
    {
      var next := RouteOf(routes, side);
      var st;
      st, changed := LearnMessage(sc, linkLocal, SenderOf(next, id), id, ty, payload);
      next := next.(announcers := next.announcers[id := st.(lastSeenMs := now)]);
      next := RecomputeRoute(next);
      routes := routes[side := next];
    }
  }
}
