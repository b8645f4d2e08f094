/** Network time: an anchor that runs on the local clock, failing over between time sources. */
module NetworkTime {
  import opened Bytes

  datatype Source = Source(priority: uint64, lastSeenMs: uint64, lastTimeMs: uint64)

  const NO_PRIORITY: uint64 := 0xFFFF_FFFF_FFFF_FFFF

  datatype Sync = Sync(
    enabled: bool,
    role: nat,
    priority: uint64,
    sourceTimeoutMs: uint64,
    announceIntervalMs: uint64,
    requestIntervalMs: uint64,
    lastAnnounceMs: uint64,
    lastRequestMs: uint64,
    hasTime: bool,
    anchorLocalMs: uint64,
    anchorUnixMs: uint64,
    currentSource: bytestring,
    currentPriority: uint64,
    sources: map<bytestring, Source>)

  function Add64(a: uint64, b: uint64): uint64 { if a + b < TWO64 then a + b else a + b - TWO64 }

  /** current_network_ms */
  function CurrentMs(s: Sync, now: uint64): uint64 {
    if s.hasTime then Add64(s.anchorUnixMs, Elapsed(now, s.anchorLocalMs)) else 0
  }

  predicate Expired(s: Sync, src: Source, now: uint64) { Elapsed(now, src.lastSeenMs) > s.sourceTimeoutMs }

  /** Sources the failover scan can settle on: its starting values shut out the weakest. */
  predicate Eligible(s: Sync, name: bytestring, now: uint64) {
    && name in s.sources && !Expired(s, s.sources[name], now)
    && (s.sources[name].priority < NO_PRIORITY || s.sources[name].lastSeenMs > 0)
  }

  /** Lowest priority number wins; of equal ones the most recently seen. */
  predicate Beats(a: Source, b: Source) {
    a.priority < b.priority || (a.priority == b.priority && a.lastSeenMs >= b.lastSeenMs)
  }

  ghost predicate IsBest(s: Sync, name: bytestring, now: uint64) {
    Eligible(s, name, now) && forall other :: other in s.sources && Eligible(s, other, now) ==>
        Beats(s.sources[name], s.sources[other])
  }

  /** The followed source is gone or silent for too long. */
  predicate Lost(s: Sync, now: uint64) {
    s.currentSource != [] && (s.currentSource !in s.sources || Expired(s, s.sources[s.currentSource], now))
  }

  /** Adopting a source never sets the time back. */
  function Adopt(s: Sync, name: bytestring, now: uint64): Sync
    requires name in s.sources
  {
    var src := s.sources[name];
    var candidate := Add64(src.lastTimeMs, Elapsed(now, src.lastSeenMs));
    var current := CurrentMs(s, now);
    s.(currentSource := name, currentPriority := src.priority, anchorLocalMs := now,
       anchorUnixMs := if candidate < current then current else candidate)
  }

  /** seds_router_get_network_time_ms as a relation: which best source is taken when several are
      equally good is left open; a source without a name is never adopted. */
  ghost predicate ReadStep(s: Sync, now: uint64, t: Sync, out: Option<uint64>) {
    if !s.hasTime then t == s && out == None
    else
      && out == Some(CurrentMs(t, now))
      && if !Lost(s, now) then t == s
         else (t == s && (IsBest(s, [], now) || forall n :: n in s.sources ==> !Eligible(s, n, now)))
              || exists n :: n != [] && IsBest(s, n, now) && t == Adopt(s, n, now)
  }

  datatype Action = Idle | Announce(priority: uint64, networkMs: uint64) | Request(atMs: uint64)

  /** Forgets expired sources, and the followed one if it is among them. */
  function Prune(s: Sync, now: uint64): Sync {
    var live := map n | n in s.sources && !Expired(s, s.sources[n], now) :: s.sources[n];
    var lost := s.currentSource in s.sources && s.currentSource !in live;
    s.(sources := live, currentSource := if lost then [] else s.currentSource,
       currentPriority := if lost then NO_PRIORITY else s.currentPriority)
  }

  datatype Polled = Polled(state: Sync, action: Action)

  /** seds_router_poll_timesync; `discovered` is a source name learned by discovery, if any. */
  function Poll(s: Sync, now: uint64, discovered: bytestring): Polled {
    if !s.enabled then Polled(s, Idle)
    else
      var p := Prune(s, now);
      if (p.role == 1 || (p.role == 2 && p.sources == map[]))
          && now >= Add64(p.lastAnnounceMs, p.announceIntervalMs) then
        Polled(p.(lastAnnounceMs := now), Announce(p.priority, CurrentMs(p, now)))
      else if p.role == 0 && now >= Add64(p.lastRequestMs, p.requestIntervalMs) then
        var q := if p.currentSource == [] then p.(currentSource := discovered) else p;
        if q.currentSource == [] then Polled(q, Idle) else Polled(q.(lastRequestMs := now), Request(now))
      else Polled(p, Idle)
  }

  class TimeSync {
    var sync: Sync

    constructor (sync: Sync)
      ensures this.sync == sync
    {
      this.sync := sync;
    }

    /** The failover scan over the sources, in whatever order they come. */
    method FindBest(now: uint64) returns (name: bytestring, found: bool)
      ensures found ==> IsBest(sync, name, now)
      ensures !found ==> forall n :: n in sync.sources ==> !Eligible(sync, n, now)
    {
      name, found := [], false;
      var bestPri, bestSeen: uint64 := NO_PRIORITY, 0;
      var todo := sync.sources.Keys;
      while todo != {}
        invariant todo <= sync.sources.Keys
        invariant !found ==> bestPri == NO_PRIORITY && bestSeen == 0
        invariant found ==>
                  Eligible(sync, name, now) && bestPri == sync.sources[name].priority
                  && bestSeen == sync.sources[name].lastSeenMs
        invariant forall n :: n in sync.sources && n !in todo && Eligible(sync, n, now) ==>
                  found && Beats(sync.sources[name], sync.sources[n])
        decreases |todo|
      {
        var n :| n in todo;
        var src := sync.sources[n];
        todo := todo - {n};
        if Elapsed(now, src.lastSeenMs) > sync.sourceTimeoutMs { continue; }
        if src.priority < bestPri || (src.priority == bestPri && src.lastSeenMs > bestSeen) {
          bestPri, bestSeen, name, found := src.priority, src.lastSeenMs, n, true;
        }
      }
    }

    method Read(now: uint64) returns (out: Option<uint64>)
      modifies this
      ensures ReadStep(old(sync), now, sync, out)
    {
      if !sync.hasTime { return None; }
      if Lost(sync, now) {
        var name, found := FindBest(now);
        if found && name != [] {
          sync := Adopt(sync, name, now);
        }
      }
      return Some(CurrentMs(sync, now));
    }

    method PollNow(now: uint64, discovered: bytestring) returns (action: Action)
      modifies this
      ensures Polled(sync, action) == Poll(old(sync), now, discovered)
    {
      if !sync.enabled { return Idle; }
      DropExpired(now);
      if (sync.role == 1 || (sync.role == 2 && sync.sources == map[]))
          && now >= Add64(sync.lastAnnounceMs, sync.announceIntervalMs) {
        action := Announce(sync.priority, CurrentMs(sync, now));
        sync := sync.(lastAnnounceMs := now);
      } else if sync.role == 0 && now >= Add64(sync.lastRequestMs, sync.requestIntervalMs) {
        if sync.currentSource == [] { sync := sync.(currentSource := discovered); }
        if sync.currentSource == [] { return Idle; }
        sync := sync.(lastRequestMs := now);
        action := Request(now);
      } else {
        action := Idle;
      }
    }

    /** The erase loop: visits the sources in any order. */
    method DropExpired(now: uint64)
      modifies this
      ensures sync == Prune(old(sync), now)
    {
      var todo := sync.sources.Keys;
      var kept := sync.sources;
      var current, pri := sync.currentSource, sync.currentPriority;
      while todo != {}
        invariant todo <= sync.sources.Keys && sync == old(sync)
        invariant forall n :: n in kept <==> n in sync.sources && (n in todo || !Expired(sync, sync.sources[n], now))
        invariant forall n :: n in kept ==> kept[n] == sync.sources[n]
        invariant var gone := sync.currentSource in sync.sources && sync.currentSource !in kept;
                  current == (if gone then [] else sync.currentSource)
                      && pri == if gone then NO_PRIORITY else sync.currentPriority
        decreases |todo|
      {
        var n :| n in todo;
        if Expired(sync, sync.sources[n], now) {
          if n == current { current, pri := [], NO_PRIORITY; }
          kept := kept - {n};
        }
        todo := todo - {n};
      }
      assert kept == Prune(sync, now).sources;
      sync := sync.(sources := kept, currentSource := current, currentPriority := pri);
    }
  }

  // ---------------------------------------------------------------- single steps in plain terms

  /** Everything the clock comparisons and sums mean, in arithmetic modulo 2^64. */
  lemma ClockTerms(a: uint64, now: uint64, then_: uint64)
    ensures Elapsed(now, then_) == (now - then_) % TWO64
    ensures Add64(a, Elapsed(now, then_)) == (a + now - then_) % TWO64
  {
    var d := now - then_;
    if d < 0 { assert d % TWO64 == d + TWO64; }
    var e := a + now - then_;
    if e < 0 {
      assert e % TWO64 == e + TWO64;
    } else if e >= TWO64 {
      assert e % TWO64 == e - TWO64;
    }
  }

  /** A failover takes over the new source's time: the read returns what the source said plus the time since, or
      the old line if that is ahead. The source followed from now on is fresh, the old one is gone or silent for
      too long, and no fresh source has a lower priority number, or the same and a later sign of life. */
  lemma FailoverTime(s: Sync, now: uint64, t: Sync, out: Option<uint64>)
    requires ReadStep(s, now, t, out) && t.currentSource != s.currentSource
    ensures s.hasTime && t.currentSource != [] && t.currentSource in s.sources
    ensures var src := s.sources[t.currentSource];
            && (now - src.lastSeenMs) % TWO64 <= s.sourceTimeoutMs
            && t.currentPriority == src.priority && t.sources == s.sources && t.hasTime
            && out.Some?
            && var line, told := (s.anchorUnixMs + now - s.anchorLocalMs) % TWO64,
                                 (src.lastTimeMs + now - src.lastSeenMs) % TWO64;
               out.value == if told < line then line else told
    ensures s.currentSource != [] && (s.currentSource in s.sources ==>
              (now - s.sources[s.currentSource].lastSeenMs) % TWO64 > s.sourceTimeoutMs)
    ensures forall n :: n in s.sources && (now - s.sources[n].lastSeenMs) % TWO64 <= s.sourceTimeoutMs ==>
              var best := s.sources[t.currentSource];
              best.priority < s.sources[n].priority
              || (best.priority == s.sources[n].priority && best.lastSeenMs >= s.sources[n].lastSeenMs)
  {
    var n := t.currentSource;
    assert n != [] && IsBest(s, n, now) && t == Adopt(s, n, now);
    var src := s.sources[n];
    ClockTerms(src.lastTimeMs, now, src.lastSeenMs);
    ClockTerms(s.anchorUnixMs, now, s.anchorLocalMs);
    if s.currentSource in s.sources { ClockTerms(0, now, s.sources[s.currentSource].lastSeenMs); }
    forall m | m in s.sources && (now - s.sources[m].lastSeenMs) % TWO64 <= s.sourceTimeoutMs
      ensures Beats(src, s.sources[m])
    {
      ClockTerms(0, now, s.sources[m].lastSeenMs);
    }
  }

  /** While the followed source is fresh, or nothing is followed, a read returns the line and changes nothing. */
  lemma SteadyTime(s: Sync, now: uint64, t: Sync, out: Option<uint64>)
    requires ReadStep(s, now, t, out) && s.hasTime
    requires s.currentSource == [] || (s.currentSource in s.sources
               && (now - s.sources[s.currentSource].lastSeenMs) % TWO64 <= s.sourceTimeoutMs)
    ensures t == s && out == Some((s.anchorUnixMs + now - s.anchorLocalMs) % TWO64)
  {
    if s.currentSource != [] { ClockTerms(0, now, s.sources[s.currentSource].lastSeenMs); }
    ClockTerms(s.anchorUnixMs, now, s.anchorLocalMs);
  }

  /** A later read, the new source still fresh, runs on from the value of the failover. */
  lemma FailoverRunsOn(s: Sync, now: uint64, t: Sync, out: Option<uint64>, later: uint64, u: Sync,
                       then_: Option<uint64>)
    requires ReadStep(s, now, t, out) && t.currentSource != s.currentSource
    requires ReadStep(t, later, u, then_)
    requires t.currentSource in s.sources
             && (later - s.sources[t.currentSource].lastSeenMs) % TWO64 <= s.sourceTimeoutMs
    ensures u == t && out.Some? && then_ == Some((out.value + later - now) % TWO64)
  {
    FailoverTime(s, now, t, out);
    assert t == Adopt(s, t.currentSource, now);
    SteadyTime(t, later, u, then_);
    ClockTerms(t.anchorUnixMs, now, t.anchorLocalMs);
  }

  /** A failover happens whenever the followed source is lost and a fresh one is there; only a source that never
      said more than the scan's starting values is passed over. */
  lemma FailoverHappens(s: Sync, now: uint64, t: Sync, out: Option<uint64>, n: bytestring)
    requires ReadStep(s, now, t, out) && s.hasTime && s.currentSource != [] && [] !in s.sources
    requires s.currentSource in s.sources ==>
               (now - s.sources[s.currentSource].lastSeenMs) % TWO64 > s.sourceTimeoutMs
    requires n in s.sources && (now - s.sources[n].lastSeenMs) % TWO64 <= s.sourceTimeoutMs
    requires s.sources[n].priority < 0xFFFF_FFFF_FFFF_FFFF || s.sources[n].lastSeenMs > 0
    ensures t.currentSource != s.currentSource
  {
    if s.currentSource in s.sources { ClockTerms(0, now, s.sources[s.currentSource].lastSeenMs); }
    ClockTerms(0, now, s.sources[n].lastSeenMs);
    assert Lost(s, now) && Eligible(s, n, now);
  }

  /** The followed source is known and silent for too long. */
  predicate Silent(s: Sync, now: uint64) {
    s.currentSource in s.sources && (now - s.sources[s.currentSource].lastSeenMs) % TWO64 > s.sourceTimeoutMs
  }

  /** A poll forgets exactly the sources silent for too long, the followed one among them. */
  lemma PollForgets(s: Sync, now: uint64, discovered: bytestring)
    requires s.enabled
    ensures var p := Poll(s, now, discovered).state;
            && (forall n :: n in p.sources <==>
                  n in s.sources && (now - s.sources[n].lastSeenMs) % TWO64 <= s.sourceTimeoutMs)
            && (forall n :: n in p.sources ==> p.sources[n] == s.sources[n])
            && p.currentPriority == (if Silent(s, now) then 0xFFFF_FFFF_FFFF_FFFF else s.currentPriority)
            && p == s.(sources := p.sources, currentSource := p.currentSource, currentPriority := p.currentPriority,
                       lastAnnounceMs := p.lastAnnounceMs, lastRequestMs := p.lastRequestMs)
  {
    PruneMeaning(s, now);
  }

  lemma PruneMeaning(s: Sync, now: uint64)
    ensures var p := Prune(s, now);
            && (forall n :: n in p.sources <==>
                  n in s.sources && (now - s.sources[n].lastSeenMs) % TWO64 <= s.sourceTimeoutMs)
            && (p.sources == map[] <==>
                forall n :: n in s.sources ==> (now - s.sources[n].lastSeenMs) % TWO64 > s.sourceTimeoutMs)
            && p.currentSource == (if Silent(s, now) then [] else s.currentSource)
            && p.currentPriority == (if Silent(s, now) then 0xFFFF_FFFF_FFFF_FFFF else s.currentPriority)
  {
    var live := Prune(s, now).sources;
    forall n | n in s.sources
      ensures n in live <==> (now - s.sources[n].lastSeenMs) % TWO64 <= s.sourceTimeoutMs
    {
      ClockTerms(0, now, s.sources[n].lastSeenMs);
    }
    if forall n :: n in s.sources ==> n !in live { assert live.Keys == {}; }
  }

  /** What a poll queues. A disabled node does nothing. A time source announces its own priority and the network
      time when the interval is over, a node of role 2 only while it knows no other source; a consumer asks the
      source it follows or, following none, the one discovery found. */
  lemma PollQueues(s: Sync, now: uint64, discovered: bytestring)
    ensures var r := Poll(s, now, discovered);
            var time := if s.hasTime then (s.anchorUnixMs + now - s.anchorLocalMs) % TWO64 else 0;
            var followed := if Silent(s, now) then [] else s.currentSource;
            var announces := now >= (s.lastAnnounceMs + s.announceIntervalMs) % TWO64
                             && (s.role == 1 || (s.role == 2 && forall n :: n in s.sources ==>
                                   (now - s.sources[n].lastSeenMs) % TWO64 > s.sourceTimeoutMs));
            var asks := s.role == 0 && now >= (s.lastRequestMs + s.requestIntervalMs) % TWO64;
            if !s.enabled then r == Polled(s, Idle)
            else
              && r.action == (if announces then Announce(s.priority, time)
                              else if asks && (followed != [] || discovered != []) then Request(now) else Idle)
              && r.state.currentSource == (if asks && followed == [] then discovered else followed)
              && r.state.lastAnnounceMs == (if announces then now else s.lastAnnounceMs)
              && r.state.lastRequestMs == (if r.action.Request? then now else s.lastRequestMs)
  {
    PruneMeaning(s, now);
    ClockTerms(s.anchorUnixMs, now, s.anchorLocalMs);
    SumTerms(s.lastAnnounceMs, s.announceIntervalMs);
    SumTerms(s.lastRequestMs, s.requestIntervalMs);
  }

  lemma SumTerms(a: uint64, b: uint64)
    ensures Add64(a, b) == (a + b) % TWO64
  {}

  // ---------------------------------------------------------------- runs

  datatype Event = Reading(now: uint64) | Polling(now: uint64, discovered: bytestring)

  /** One step of a run: the event, the state after it and what a read returned. */
  datatype Entry = Entry(event: Event, after: Sync, out: Option<uint64>)

  ghost predicate StepOk(s: Sync, e: Entry) {
    match e.event
    case Reading(now) => ReadStep(s, now, e.after, e.out)
    case Polling(now, d) => e.after == Poll(s, now, d).state && e.out == None
  }

  /** A run from s under a clock that reads at least `clock` and never goes back. */
  ghost predicate IsRun(s: Sync, clock: uint64, run: seq<Entry>)
    decreases |run|
  {
    run != [] ==> clock <= run[0].event.now && StepOk(s, run[0]) && IsRun(run[0].after, run[0].event.now, run[1..])
  }

  /** Up to the horizon nothing leaves 64 bits: neither the anchor nor any source's time. */
  ghost predicate Fits(s: Sync, clock: uint64, horizon: uint64) {
    && s.anchorLocalMs <= clock <= horizon
    && s.anchorUnixMs + (horizon - s.anchorLocalMs) < TWO64
    && forall n :: n in s.sources ==>
        s.sources[n].lastSeenMs <= clock && s.sources[n].lastTimeMs + (horizon - s.sources[n].lastSeenMs) < TWO64
  }

  /** The time line a state stands for. */
  ghost function Line(s: Sync, t: int): int { s.anchorUnixMs + (t - s.anchorLocalMs) }

  /** Every step keeps the state within bounds and never lowers the time line. */
  lemma StepRaises(s: Sync, clock: uint64, horizon: uint64, e: Entry)
    requires Fits(s, clock, horizon) && clock <= e.event.now <= horizon && StepOk(s, e)
    ensures Fits(e.after, e.event.now, horizon)
    ensures forall t :: t >= e.event.now ==> Line(e.after, t) >= Line(s, t)
    ensures e.out.Some? ==> e.out.value == Line(e.after, e.event.now)
  {
    var now := e.event.now;
    if e.event.Reading? && s.hasTime && e.after != s {
      var n :| n != [] && IsBest(s, n, now) && e.after == Adopt(s, n, now);
      var src := s.sources[n];
      assert src.lastTimeMs + (now - src.lastSeenMs) < TWO64;
    }
  }

  lemma {:induction false} RunAbove(s: Sync, clock: uint64, horizon: uint64, run: seq<Entry>, j: nat)
    requires Fits(s, clock, horizon) && IsRun(s, clock, run) && j < |run| && run[j].out.Some?
    requires forall i :: 0 <= i < |run| ==> run[i].event.now <= horizon
    ensures run[j].out.value >= Line(s, clock)
    decreases j
  {
    StepRaises(s, clock, horizon, run[0]);
    if j > 0 {
      var rest := run[1..];
      assert rest[j - 1] == run[j];
      assert forall i :: 0 <= i < |rest| ==> rest[i].event.now <= horizon by {
        forall i | 0 <= i < |rest| ensures rest[i].event.now <= horizon { assert rest[i] == run[i + 1]; }
      }
      RunAbove(run[0].after, run[0].event.now, horizon, rest, j - 1);
    }
  }

  /** Network time never runs backwards: in every run of reads and polls under a monotone clock,
      through expiry and adoption of sources, later reads return no less than earlier ones. */
  lemma {:induction false} NeverBackwards(s: Sync, clock: uint64, horizon: uint64, run: seq<Entry>, i: nat, j: nat)
    requires Fits(s, clock, horizon) && IsRun(s, clock, run)
    requires forall k :: 0 <= k < |run| ==> run[k].event.now <= horizon
    requires i < j < |run| && run[i].out.Some? && run[j].out.Some?
    ensures run[i].out.value <= run[j].out.value
    decreases i
  {
    StepRaises(s, clock, horizon, run[0]);
    var rest := run[1..];
    assert forall k :: 0 <= k < |rest| ==> rest[k].event.now <= horizon by {
      forall k | 0 <= k < |rest| ensures rest[k].event.now <= horizon { assert rest[k] == run[k + 1]; }
    }
    assert rest[j - 1] == run[j];
    if i == 0 {
      RunAbove(run[0].after, run[0].event.now, horizon, rest, j - 1);
    } else {
      assert rest[i - 1] == run[i];
      NeverBackwards(run[0].after, run[0].event.now, horizon, rest, i - 1, j - 1);
    }
  }

  /** At the given moment neither the anchor nor any source stands for a time above m. */
  ghost predicate Below(s: Sync, clock: uint64, m: uint64) {
    && s.anchorLocalMs <= clock && Line(s, clock) <= m
    && forall n :: n in s.sources ==>
        s.sources[n].lastSeenMs <= clock && s.sources[n].lastTimeMs + (clock - s.sources[n].lastSeenMs) <= m
  }

  ghost predicate Until(run: seq<Entry>, horizon: uint64) { forall k :: 0 <= k < |run| ==> run[k].event.now <= horizon }

  /** No two reads of the run go back. */
  ghost predicate Nondecreasing(run: seq<Entry>) {
    forall i, j :: 0 <= i < j < |run| && run[i].out.Some? && run[j].out.Some? ==> run[i].out.value <= run[j].out.value
  }

  ghost predicate Monotone(s: Sync, clock: uint64, horizon: uint64) {
    forall run :: IsRun(s, clock, run) && Until(run, horizon) ==> Nondecreasing(run)
  }

  lemma BelowMonotone(s: Sync, clock: uint64, horizon: uint64, m: uint64)
    requires Below(s, clock, m) && clock <= horizon && m + (horizon - clock) < TWO64
    ensures Monotone(s, clock, horizon)
  {
    assert Fits(s, clock, horizon);
    forall run: seq<Entry> | IsRun(s, clock, run) && Until(run, horizon) ensures Nondecreasing(run) {
      forall i, j | 0 <= i < j < |run| && run[i].out.Some? && run[j].out.Some?
        ensures run[i].out.value <= run[j].out.value
      {
        NeverBackwards(s, clock, horizon, run, i, j);
      }
    }
  }

  /** A node that follows no source, its anchor set to m at the given moment. */
  function Anchored(clock: uint64, m: uint64): Sync {
    Sync(true, 0, 0, 0, 0, 0, 0, 0, true, clock, m, [], NO_PRIORITY, map[])
  }

  /** Read at once and again when the anchor's time has just left 64 bits, it returns m and then 0. */
  lemma BackRun(clock: uint64, m: uint64) returns (run: seq<Entry>)
    requires m > 0 && clock + (TWO64 - m) < TWO64
    ensures IsRun(Anchored(clock, m), clock, run) && Until(run, clock + (TWO64 - m)) && !Nondecreasing(run)
  {
    var s, later: uint64 := Anchored(clock, m), clock + (TWO64 - m);
    var first, second := Entry(Reading(clock), s, Some(m)), Entry(Reading(later), s, Some(0));
    run := [first, second];
    assert StepOk(s, first) && StepOk(s, second);
    assert run[1..] == [second] && run[1..][1..] == [];
    assert IsRun(s, later, []) && IsRun(s, clock, [second]);
    assert run[0].out.value > run[1].out.value;
  }

  /** How far network time is safe: from all states below m, all runs up to the horizon return
      nondecreasing reads exactly when m cannot reach 2^64 by then. */
  lemma NeverBackwardsExact(clock: uint64, horizon: uint64, m: uint64)
    requires clock <= horizon
    ensures (forall s :: Below(s, clock, m) ==> Monotone(s, clock, horizon)) <==> m + (horizon - clock) < TWO64
  {
    if m + (horizon - clock) < TWO64 {
      forall s | Below(s, clock, m) ensures Monotone(s, clock, horizon) { BelowMonotone(s, clock, horizon, m); }
    } else {
      var run := BackRun(clock, m);
      assert Until(run, horizon);
      assert Below(Anchored(clock, m), clock, m) && !Monotone(Anchored(clock, m), clock, horizon);
    }
  }
}
