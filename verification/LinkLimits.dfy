/** How far the promises of the link protocol reach: the exact number of packet requests up to which
    the retry bound holds, and the exact number of packets up to which delivery is in order. */
module LinkLimits {
  import opened Bytes
  import opened Packets
  import opened ReliableStreams
  import opened LinkModel
  import opened LinkInvariant
  import opened LinkProtocol

  // ---------------------------------------------------------------- retries

  /** Every entry's 32-bit retry counter lies between its number of timeout resends and that plus
      the number of requests. */
  ghost predicate RetryInv<P, B>(cfg: Config, s: Link<P, B>) {
    && (forall k :: k in s.resends ==> s.resends[k] <= cfg.maxRetries && k < s.tx.nextSeq)
    && (forall k :: k in s.tx.sent ==>
          CountOf(s.resends, k) <= s.tx.sent[k].retries <= CountOf(s.resends, k) + s.requests)
  }

  /** Too few requests to carry any retry counter round. */
  ghost predicate FewRequests<P, B>(cfg: Config, s: Link<P, B>) { cfg.maxRetries + s.requests < TWO32 }

  lemma BumpUnwrapped<B>(e: Sent<B>, now: uint64)
    requires e.retries < TWO32 - 1
    ensures Bumped(e, now).retries == e.retries + 1
  {}

  lemma TickRetry<P, B>(cfg: Config, s: Link<P, B>, now: uint64, oks: uint32 -> bool)
    requires TxInv(cfg, s.tx) && RetryInv(cfg, s)
    ensures RetryInv(cfg, TickStep(cfg, s, now, oks))
  {
    ExpireAllEffect(cfg, s.tx, s.tx.sentOrder, now, oks);
    var t := TickStep(cfg, s, now, oks);
    forall k | k in t.resends ensures t.resends[k] <= cfg.maxRetries && k < t.tx.nextSeq {
      if k in s.tx.sent && Retransmitted(cfg, s.tx.sent[k], now, oks(k)) {
        assert CountOf(s.resends, k) <= s.tx.sent[k].retries < cfg.maxRetries;
      }
    }
    forall k | k in t.tx.sent
      ensures CountOf(t.resends, k) <= t.tx.sent[k].retries <= CountOf(t.resends, k) + t.requests
    {
      if Retransmitted(cfg, s.tx.sent[k], now, oks(k)) { BumpUnwrapped(s.tx.sent[k], now); }
    }
  }

  lemma AckRetry<P, B>(cfg: Config, ordered: bool, s: Link<P, B>, n: uint32)
    requires TxInv(cfg, s.tx) && RetryInv(cfg, s)
    ensures RetryInv(cfg, s.(tx := Acknowledge(ordered, s.tx, n)))
  {
    AcknowledgeEffect(cfg, ordered, s.tx, n);
  }

  lemma ResendRetry<P, B>(cfg: Config, s: Link<P, B>, n: uint32, now: uint64)
    requires RetryInv(cfg, s) && n in s.tx.sent && cfg.maxRetries + s.requests + 1 < TWO32
    ensures RetryInv(cfg, s.(tx := Resend(s.tx, n, now), requests := s.requests + 1))
  {
    BumpUnwrapped(s.tx.sent[n], now);
  }

  lemma BackRetry<P, B>(cfg: Config, c: Codec<P, B>, ordered: bool, s: Link<P, B>, m: Message, now: uint64)
    requires TxInv(cfg, s.tx) && RetryInv(cfg, s) && FewRequests(cfg, BackStep(c, ordered, s, m, now))
    ensures RetryInv(cfg, BackStep(c, ordered, s, m, now))
  {
    if m in s.back {
      match (c.decode)((c.control)(m))
      case Acked(n) => AckRetry(cfg, ordered, s, n);
      case PartialAcked(n) =>
      case Requested(n) => if n in s.tx.sent { ResendRetry(cfg, s, n, now); }
      case _ =>
    }
  }

  lemma SendRetry<P, B>(cfg: Config, c: Codec<P, B>, ordered: bool, s: Link<P, B>, p: P, now: uint64, ok: bool)
    requires TxInv(cfg, s.tx) && RetryInv(cfg, s) && s.tx.nextSeq < TWO32 - 1
    ensures RetryInv(cfg, SendStep(cfg, c, ordered, s, p, now, ok))
  {}

  lemma StepRetry<P(!new), B>(cfg: Config, c: Codec<P, B>, ordered: bool, s: Link<P, B>, e: Event<P, B>)
    requires Inv(cfg, c, ordered, s) && RetryInv(cfg, s)
    requires Unwrapped(Step(cfg, c, ordered, s, e)) && FewRequests(cfg, Step(cfg, c, ordered, s, e))
    ensures RetryInv(cfg, Step(cfg, c, ordered, s, e))
  {
    match e
    case Send(p, now, ok) =>
      if |s.tx.sent| < cfg.maxPending && (c.carries)(p) { SendRetry(cfg, c, ordered, s, p, now, ok); }
    case DataArrives(b, now) =>
    case BackArrives(m, now) => BackRetry(cfg, c, ordered, s, m, now);
    case AckEndToEnd(_, _) =>
    case Tick(now, oks) => TickRetry(cfg, s, now, oks);
  }

  /** In every run with fewer than 2^32 - maxRetries packet requests no frame gets more than
      maxRetries successful timeout resends, however long the run. */
  lemma {:induction false} RetryBound<P(!new), B>(cfg: Config, c: Codec<P, B>, ordered: bool, events: seq<Event<P, B>>)
    requires Faithful(c) && Unwrapped(Run(cfg, c, ordered, events)) && FewRequests(cfg, Run(cfg, c, ordered, events))
    ensures var s := Run(cfg, c, ordered, events);
            RetryInv(cfg, s) && forall k :: CountOf(s.resends, k) <= cfg.maxRetries
  {
    if events != [] {
      var before := events[..|events| - 1];
      RetryBound(cfg, c, ordered, before);
      RunInv(cfg, c, ordered, before);
      StepRetry(cfg, c, ordered, Run(cfg, c, ordered, before), events[|events| - 1]);
    }
  }

  // ---------------------------------------------------------------- streams without requests

  /** Requests are made on ordered streams only, and never for the newest packet; a window of one
      holds nothing but the newest packet. */
  ghost predicate QuietInv<P, B>(cfg: Config, ordered: bool, s: Link<P, B>) {
    && (forall m :: m in s.back && m.Request? ==> ordered && m.seqno < |s.numbered|)
    && (cfg.maxPending < 2 ==> forall k :: k in s.tx.sent ==> k == |s.numbered|)
  }

  lemma QuietSend<P, B>(cfg: Config, c: Codec<P, B>, ordered: bool, s: Link<P, B>, p: P, now: uint64, ok: bool)
    requires QuietInv(cfg, ordered, s) && s.tx.nextSeq == |s.numbered| + 1
    ensures QuietInv(cfg, ordered, SendStep(cfg, c, ordered, s, p, now, ok))
  {
    if cfg.maxPending < 2 && |s.tx.sent| < cfg.maxPending {
      assert |s.tx.sent.Keys| == 0;
      assert s.tx.sent.Keys == {};
    }
  }

  lemma QuietData<P(!new), B>(cfg: Config, c: Codec<P, B>, ordered: bool, s: Link<P, B>, b: B, now: uint64)
    requires Faithful(c) && Inv(cfg, c, ordered, s) && QuietInv(cfg, ordered, s)
    ensures QuietInv(cfg, ordered, DataStep(cfg, c, s, b, now))
  {
    if b in s.data {
      DecodeData(cfg, c, ordered, s, b);
      FlagBits();
      var a := (c.decode)(b);
      if a.Sequenced? {
        var r := Accept(cfg, s.rx, a.header, a.pkt, b);
        forall i | 0 <= i < |r.replies| && r.replies[i].RequestReply?
          ensures ordered && r.replies[i].seqno < |s.numbered| {}
      }
    }
  }

  lemma QuietBack<P, B>(cfg: Config, c: Codec<P, B>, ordered: bool, s: Link<P, B>, m: Message, now: uint64)
    requires ControlFaithful(c) && TxInv(cfg, s.tx) && QuietInv(cfg, ordered, s)
    ensures QuietInv(cfg, ordered, BackStep(c, ordered, s, m, now))
    ensures !ordered || cfg.maxPending < 2 ==> BackStep(c, ordered, s, m, now).requests == s.requests
  {
    if m in s.back {
      var a := (c.decode)((c.control)(m));
      assert a == Reading(c, m);
      if a.Acked? { AcknowledgeEffect(cfg, ordered, s.tx, a.seqno); }
    }
  }

  lemma QuietStep<P(!new), B>(cfg: Config, c: Codec<P, B>, ordered: bool, s: Link<P, B>, e: Event<P, B>)
    requires Faithful(c) && ControlFaithful(c) && Inv(cfg, c, ordered, s) && QuietInv(cfg, ordered, s)
    ensures QuietInv(cfg, ordered, Step(cfg, c, ordered, s, e))
    ensures !ordered || cfg.maxPending < 2 ==> Step(cfg, c, ordered, s, e).requests == s.requests
  {
    match e
    case Send(p, now, ok) => QuietSend(cfg, c, ordered, s, p, now, ok);
    case DataArrives(b, now) => QuietData(cfg, c, ordered, s, b, now);
    case BackArrives(m, now) => QuietBack(cfg, c, ordered, s, m, now);
    case AckEndToEnd(_, _) =>
    case Tick(now, oks) => ExpireAllEffect(cfg, s.tx, s.tx.sentOrder, now, oks);
  }

  lemma {:induction false} NoRequests<P(!new), B>(cfg: Config, c: Codec<P, B>, ordered: bool, events: seq<Event<P, B>>)
    requires Faithful(c) && ControlFaithful(c) && Unwrapped(Run(cfg, c, ordered, events))
    ensures QuietInv(cfg, ordered, Run(cfg, c, ordered, events))
    ensures !ordered || cfg.maxPending < 2 ==> Run(cfg, c, ordered, events).requests == 0
  {
    if events != [] {
      var before := events[..|events| - 1];
      NoRequests(cfg, c, ordered, before);
      RunInv(cfg, c, ordered, before);
      QuietStep(cfg, c, ordered, Run(cfg, c, ordered, before), events[|events| - 1]);
    }
  }

  lemma {:induction false} NoResends<P, B>(cfg: Config, c: Codec<P, B>, ordered: bool, events: seq<Event<P, B>>)
    requires cfg.maxRetries == 0
    ensures Run(cfg, c, ordered, events).resends == map[]
  {
    if events != [] {
      var before, e := events[..|events| - 1], events[|events| - 1];
      NoResends(cfg, c, ordered, before);
      var s := Run(cfg, c, ordered, before);
      if e.Tick? {
        var hit := set k | k in s.tx.sent && Retransmitted(cfg, s.tx.sent[k], e.now, (e.oks)(k));
        assert hit == {};
      }
    }
  }

  // ---------------------------------------------------------------- a run that exceeds the bound

  /** A packet whose frames are read back. */
  ghost predicate Readable<P(!new), B>(c: Codec<P, B>, p: P) {
    (c.carries)(p) && forall h: Header :: SentHeader(h) ==> (c.decode)((c.encode)(p, h)) == Sequenced(h, (c.canon)(p))
  }

  function TimeOf<P, B>(e: Event<P, B>): uint64 { if e.AckEndToEnd? then e.at else e.now }

  /** The clock does not go back and no control message is taken twice: a receiver refuses a header-less
      frame whose id it remembers, and equal messages make equal frames. */
  ghost predicate Orderly<P, B>(events: seq<Event<P, B>>) {
    forall i, j :: 0 <= i < j < |events| ==>
      && TimeOf(events[i]) <= TimeOf(events[j])
      && (events[i].BackArrives? && events[j].BackArrives? ==> events[i].message != events[j].message)
  }

  /** Everything in the run, and every message taken, is from time t or before. */
  ghost predicate Past<P, B>(events: seq<Event<P, B>>, t: uint64) {
    forall i :: 0 <= i < |events| ==>
      TimeOf(events[i]) <= t && (events[i].BackArrives? ==> events[i].message.at <= t)
  }

  lemma OrderlySnoc<P, B>(events: seq<Event<P, B>>, t: uint64, e: Event<P, B>)
    requires Orderly(events) && Past(events, t) && t <= TimeOf(e)
    requires e.BackArrives? ==> e.message.at == e.now > t
    ensures Orderly(events + [e]) && Past(events + [e], TimeOf(e))
  {
    var more := events + [e];
    forall i, j | 0 <= i < j < |more|
      ensures TimeOf(more[i]) <= TimeOf(more[j])
      ensures more[i].BackArrives? && more[j].BackArrives? ==> more[i].message != more[j].message
    {
      assert more[i] == events[i];
      if j < |events| { assert more[j] == events[j]; }
    }
  }

  /** Packet 1 is in the window, last sent at t, with r retries counted and n timeout resends made, and
      the receiver still waits for it; q requests have come. */
  ghost predicate Armed<P, B>(c: Codec<P, B>, p: P, s: Link<P, B>, t: uint64, r: uint32, n: nat, q: nat) {
    && |s.numbered| == 2 && s.requests == q && CountOf(s.resends, 1) == n
    && (c.encode)(p, Header(0, 2, 0)) in s.data && s.rx.expectedSeq == 1
    && 1 in s.tx.sent && s.tx.sent[1] == Sent(s.tx.sent[1].bytes, t, r, false, false)
  }

  /** An orderly run up to time t that ends so. */
  ghost predicate ArmedBy<P, B>(
    cfg: Config, c: Codec<P, B>, p: P, events: seq<Event<P, B>>, t: uint64, r: uint32, n: nat, q: nat)
  {
    Orderly(events) && Past(events, t) && Armed(c, p, Run(cfg, c, true, events), t, r, n, q)
  }

  /** Two packets are sent. */
  lemma ArmedRun<P(!new), B>(cfg: Config, c: Codec<P, B>, p: P) returns (events: seq<Event<P, B>>)
    requires Readable(c, p) && cfg.maxPending >= 2
    ensures ArmedBy(cfg, c, p, events, 0, 0, 0, 0)
  {
    var e: Event<P, B> := Send(p, 0, true);
    RunSnoc(cfg, c, true, [], e);
    FirstSend(cfg, c, true, p, 0);
    OrderlySnoc([], 0, e);
    events := [] + [e];
    RunSnoc(cfg, c, true, events, e);
    OrderlySnoc(events, 0, e);
    events := events + [e];
  }

  /** A copy of frame 2 makes the receiver ask for packet 1 again. */
  lemma SecondArrives<P(!new), B>(cfg: Config, c: Codec<P, B>, s: Link<P, B>, p: P, now: uint64)
    requires Readable(c, p) && (c.encode)(p, Header(0, 2, 0)) in s.data && s.rx.expectedSeq == 1
    ensures var t := DataStep(cfg, c, s, (c.encode)(p, Header(0, 2, 0)), now);
            && Request(1, now) in t.back && t.rx.expectedSeq == 1
            && t == s.(rx := t.rx, back := t.back, released := t.released)
  {
    var b := (c.encode)(p, Header(0, 2, 0));
    assert SentHeader(Header(0, 2, 0));
    FlagBits();
    var r := Accept(cfg, s.rx, Header(0, 2, 0), (c.canon)(p), b);
    assert r.replies[1] == RequestReply(1);
  }

  lemma TickOnce<P(!new), B>(
    cfg: Config, c: Codec<P, B>, p: P, events: seq<Event<P, B>>, t: uint64, r: uint32, n: nat, q: nat, now: uint64)
    returns (more: seq<Event<P, B>>)
    requires Faithful(c) && ArmedBy(cfg, c, p, events, t, r, n, q)
    requires r < cfg.maxRetries && t <= now && now - t >= cfg.retransmitMs
    ensures ArmedBy(cfg, c, p, more, now, r + 1, n + 1, q)
  {
    var oks := (k: uint32) => true;
    WindowOfRun(cfg, c, true, events);
    TickArmed(cfg, c, p, Run(cfg, c, true, events), t, r, n, q, now, oks);
    OrderlySnoc(events, t, Tick(now, oks));
    RunSnoc(cfg, c, true, events, Tick(now, oks));
    more := events + [Tick(now, oks)];
  }

  lemma WindowOfRun<P(!new), B>(cfg: Config, c: Codec<P, B>, ordered: bool, events: seq<Event<P, B>>)
    requires Faithful(c) && Unwrapped(Run(cfg, c, ordered, events))
    ensures TxInv(cfg, Run(cfg, c, ordered, events).tx)
  {
    RunInv(cfg, c, ordered, events);
  }

  lemma TickArmed<P, B>(
    cfg: Config, c: Codec<P, B>, p: P, s: Link<P, B>, t: uint64, r: uint32, n: nat, q: nat, now: uint64,
    oks: uint32 -> bool)
    requires TxInv(cfg, s.tx) && Armed(c, p, s, t, r, n, q) && oks(1)
    requires r < cfg.maxRetries && Elapsed(now, t) >= cfg.retransmitMs
    ensures Armed(c, p, TickStep(cfg, s, now, oks), now, r + 1, n + 1, q)
  {
    ExpireAllEffect(cfg, s.tx, s.tx.sentOrder, now, oks);
    assert Retransmitted(cfg, s.tx.sent[1], now, oks(1));
  }

  /** A copy of frame 2 and the request it causes, a moment later. */
  lemma AskOnce<P(!new), B>(
    cfg: Config, c: Codec<P, B>, p: P, events: seq<Event<P, B>>, t: uint64, r: uint32, n: nat, q: nat)
    returns (more: seq<Event<P, B>>)
    requires ControlFaithful(c) && Readable(c, p) && ArmedBy(cfg, c, p, events, t, r, n, q) && t + 1 < TWO64
    ensures ArmedBy(cfg, c, p, more, t + 1, Inc32(r), n, q + 1)
  {
    var b, s := (c.encode)(p, Header(0, 2, 0)), Run(cfg, c, true, events);
    var now: uint64 := t + 1;
    AskOrder(events, t, b);
    AskArmed(cfg, c, p, s, t, r, n, q);
    RunSnoc(cfg, c, true, events, DataArrives(b, now));
    more := events + [DataArrives(b, now)];
    RunSnoc(cfg, c, true, more, BackArrives(Request(1, now), now));
    more := more + [BackArrives(Request(1, now), now)];
  }

  lemma AskOrder<P, B>(events: seq<Event<P, B>>, t: uint64, b: B)
    requires Orderly(events) && Past(events, t) && t + 1 < TWO64
    ensures var more := events + [DataArrives(b, t + 1)] + [BackArrives(Request(1, t + 1), t + 1)];
            Orderly(more) && Past(more, t + 1)
  {
    var more := events + [DataArrives(b, t + 1)] + [BackArrives(Request(1, t + 1), t + 1)];
    forall i, j | 0 <= i < j < |more|
      ensures TimeOf(more[i]) <= TimeOf(more[j])
      ensures more[i].BackArrives? && more[j].BackArrives? ==> more[i].message != more[j].message
    {
      if i < |events| { assert more[i] == events[i]; }
      if j < |events| { assert more[j] == events[j]; }
    }
  }

  lemma AskArmed<P(!new), B>(
    cfg: Config, c: Codec<P, B>, p: P, s: Link<P, B>, t: uint64, r: uint32, n: nat, q: nat)
    requires ControlFaithful(c) && Readable(c, p) && Armed(c, p, s, t, r, n, q) && t + 1 < TWO64
    ensures var asked := DataStep(cfg, c, s, (c.encode)(p, Header(0, 2, 0)), t + 1);
            Armed(c, p, BackStep(c, true, asked, Request(1, t + 1), t + 1), t + 1, Inc32(r), n, q + 1)
  {
    var m := Request(1, t + 1);
    SecondArrives(cfg, c, s, p, t + 1);
    assert (c.decode)((c.control)(m)) == Reading(c, m);
  }

  /** The clock at the i-th timeout. */
  function TimeoutAt(cfg: Config, i: nat): (t: uint64)
    requires i < TWO32
    ensures t + cfg.retransmitMs + (TWO32 - i) < TWO64
  {
    TimesFit(i, cfg.retransmitMs);
    i * cfg.retransmitMs
  }

  lemma TimesFit(i: nat, ms: uint32)
    requires i < TWO32
    ensures 0 <= i * ms && i * ms + ms + (TWO32 - i) < TWO64
  {
    TimesMonotone(i, ms, TWO32 - 1);
  }

  lemma TimesMonotone(i: nat, x: nat, y: nat)
    requires x <= y
    ensures 0 <= i * x <= i * y
  {
    assert i * (y - x) >= 0;
  }

  lemma NextTimeout(cfg: Config, i: nat)
    requires i + 1 < TWO32
    ensures TimeoutAt(cfg, i + 1) == TimeoutAt(cfg, i) + cfg.retransmitMs
  {
    assert (i + 1) * cfg.retransmitMs == i * cfg.retransmitMs + cfg.retransmitMs;
  }

  lemma {:induction false} TickRun<P(!new), B>(cfg: Config, c: Codec<P, B>, p: P, i: nat)
    returns (events: seq<Event<P, B>>)
    requires Faithful(c) && Readable(c, p) && cfg.maxPending >= 2 && i <= cfg.maxRetries
    ensures ArmedBy(cfg, c, p, events, TimeoutAt(cfg, i), i, i, 0)
  {
    if i == 0 {
      events := ArmedRun(cfg, c, p);
    } else {
      events := TickRun(cfg, c, p, i - 1);
      NextTimeout(cfg, i - 1);
      events := TickOnce(cfg, c, p, events, TimeoutAt(cfg, i - 1), i - 1, i - 1, 0, TimeoutAt(cfg, i));
    }
  }

  /** 32-bit counting. */
  function Wrapped(x: nat): uint32
    requires x <= TWO32
  {
    if x < TWO32 then x else 0
  }

  /** j requests, one moment apart. */
  lemma {:induction false} AskRun<P(!new), B>(
    cfg: Config, c: Codec<P, B>, p: P, start: seq<Event<P, B>>, t: uint64, r: uint32, n: nat, j: nat)
    returns (events: seq<Event<P, B>>)
    requires ControlFaithful(c) && Readable(c, p) && ArmedBy(cfg, c, p, start, t, r, n, 0)
    requires r + j <= TWO32 && t + j < TWO64
    ensures ArmedBy(cfg, c, p, events, t + j, Wrapped(r + j), n, j)
  {
    if j == 0 {
      events := start;
    } else {
      events := AskRun(cfg, c, p, start, t, r, n, j - 1);
      events := AskOnce(cfg, c, p, events, t + (j - 1), Wrapped(r + (j - 1)), n, j - 1);
    }
  }

  /** maxRetries timeouts, 2^32 - maxRetries requests, each its own message, and one timeout more than
      allowed. */
  lemma RefillRun<P(!new), B>(cfg: Config, c: Codec<P, B>, p: P) returns (events: seq<Event<P, B>>)
    requires Faithful(c) && ControlFaithful(c) && Readable(c, p) && cfg.maxPending >= 2 && cfg.maxRetries >= 1
    ensures Orderly(events)
    ensures var s := Run(cfg, c, true, events);
            && Unwrapped(s) && s.requests == TWO32 - cfg.maxRetries
            && CountOf(s.resends, 1) == cfg.maxRetries + 1
  {
    var q: nat, t := TWO32 - cfg.maxRetries, TimeoutAt(cfg, cfg.maxRetries);
    events := TickRun(cfg, c, p, cfg.maxRetries);
    events := AskRun(cfg, c, p, events, t, cfg.maxRetries, cfg.maxRetries, q);
    events := TickOnce(cfg, c, p, events, t + q, 0, cfg.maxRetries, q, t + q + cfg.retransmitMs);
  }

  ghost predicate Within<P, B>(s: Link<P, B>, n: nat) { Unwrapped(s) && s.requests <= n }

  /** All runs (or all orderly ones) before the wrap with at most n effective requests keep the retry
      bound. */
  ghost predicate KeepsBound<P(!new), B(!new)>(cfg: Config, c: Codec<P, B>, ordered: bool, orderly: bool, n: nat) {
    forall events :: (orderly ==> Orderly(events)) && Within(Run(cfg, c, ordered, events), n) ==>
      forall k :: CountOf(Run(cfg, c, ordered, events).resends, k) <= cfg.maxRetries
  }

  /** The retry bound holds exactly up to 2^32 - maxRetries requests; where there are no requests (an
      unordered stream, a window of one) or no retries it always holds. Leaving out the runs a receiver
      would not go along with makes no difference. */
  lemma RetryBoundExact<P(!new), B(!new)>(
    cfg: Config, c: Codec<P, B>, ordered: bool, orderly: bool, p: P, n: nat)
    requires Faithful(c) && ControlFaithful(c) && Readable(c, p)
    ensures KeepsBound(cfg, c, ordered, orderly, n) <==>
              n + cfg.maxRetries < TWO32 || !ordered || cfg.maxPending < 2 || cfg.maxRetries == 0
  {
    if n + cfg.maxRetries < TWO32 || !ordered || cfg.maxPending < 2 || cfg.maxRetries == 0 {
      forall events | Within(Run(cfg, c, ordered, events), n)
        ensures forall k :: CountOf(Run(cfg, c, ordered, events).resends, k) <= cfg.maxRetries
      {
        WithinBound(cfg, c, ordered, n, events);
      }
    } else {
      var events := RefillRun(cfg, c, p);
      assert CountOf(Run(cfg, c, ordered, events).resends, 1) > cfg.maxRetries;
    }
  }

  lemma WithinBound<P(!new), B>(cfg: Config, c: Codec<P, B>, ordered: bool, n: nat, events: seq<Event<P, B>>)
    requires Faithful(c) && ControlFaithful(c) && Unwrapped(Run(cfg, c, ordered, events))
    requires Run(cfg, c, ordered, events).requests <= n
    requires n + cfg.maxRetries < TWO32 || !ordered || cfg.maxPending < 2 || cfg.maxRetries == 0
    ensures forall k :: CountOf(Run(cfg, c, ordered, events).resends, k) <= cfg.maxRetries
  {
    if cfg.maxRetries == 0 {
      NoResends(cfg, c, ordered, events);
    } else {
      NoRequests(cfg, c, ordered, events);
      RetryBound(cfg, c, ordered, events);
    }
  }

  // ---------------------------------------------------------------- at the wrap

  /** Everything sent has arrived and has been acknowledged, k packets in all. */
  ghost predicate Level<P, B>(c: Codec<P, B>, s: Link<P, B>, p: P, k: uint32) {
    && s.tx == TxState(NextSeq(k), [], map[])
    && s.rx == RxState(NextSeq(k), k, map[])
    && |s.numbered| == |s.released| == k
    && (k >= 1 ==> s.released[0].seqno == 1 && (c.encode)(p, Header(0, 1, 0)) in s.data)
  }

  lemma NextArrives<P(!new), B>(cfg: Config, c: Codec<P, B>, s: Link<P, B>, p: P, n: uint32, last: uint32)
    requires Readable(c, p) && (c.encode)(p, Header(0, n, 0)) in s.data && s.rx == RxState(n, last, map[])
    ensures var b := (c.encode)(p, Header(0, n, 0));
            var t := DataStep(cfg, c, s, b, 0);
            && t == s.(rx := RxState(NextSeq(n), n, map[]), back := t.back, released := t.released)
            && t.released == s.released + [Release(n, (c.canon)(p), b)] && LinkAck(n, 0) in t.back
  {
    var b := (c.encode)(p, Header(0, n, 0));
    assert SentHeader(Header(0, n, 0));
    FlagBits();
    var r := Accept(cfg, s.rx, Header(0, n, 0), (c.canon)(p), b);
    assert r.replies == [AckReply(n)] && r.out == [];
    assert r.replies[0] == AckReply(n);
  }

  /** Packet n alone is in the window, not yet (`got` false) or just now handed on and acknowledged. */
  ghost predicate Underway<P, B>(c: Codec<P, B>, s: Link<P, B>, p: P, n: uint32, got: bool) {
    && n >= 1 && s.tx.nextSeq == NextSeq(n) && s.tx.sentOrder == [n] && s.tx.sent.Keys == {n}
    && s.rx == (if got then RxState(NextSeq(n), n, map[]) else RxState(n, n - 1, map[]))
    && |s.numbered| == n && |s.released| == (if got then n else n - 1)
    && (|s.released| >= 1 ==> s.released[0].seqno == 1)
    && (c.encode)(p, Header(0, n, 0)) in s.data && (c.encode)(p, Header(0, 1, 0)) in s.data
    && (got ==> LinkAck(n, 0) in s.back)
  }

  lemma NextSent<P, B>(cfg: Config, c: Codec<P, B>, s: Link<P, B>, p: P, k: uint32)
    requires (c.carries)(p) && cfg.maxPending >= 1 && k < TWO32 - 1 && Level(c, s, p, k)
    ensures Underway(c, SendStep(cfg, c, true, s, p, 0, true), p, k + 1, false)
  {}

  lemma NextHandedOn<P(!new), B>(cfg: Config, c: Codec<P, B>, s: Link<P, B>, p: P, n: uint32)
    requires Readable(c, p) && Underway(c, s, p, n, false)
    ensures Underway(c, DataStep(cfg, c, s, (c.encode)(p, Header(0, n, 0)), 0), p, n, true)
  {
    NextArrives(cfg, c, s, p, n, n - 1);
  }

  lemma NextAcked<P, B>(c: Codec<P, B>, s: Link<P, B>, p: P, n: uint32)
    requires AckFaithful(c) && Underway(c, s, p, n, true)
    ensures Level(c, BackStep(c, true, s, LinkAck(n, 0), 0), p, n)
  {
    OnlyEntryAcked(true, s.tx, n);
  }

  /** One more packet goes all the way. */
  lemma Round<P(!new), B>(cfg: Config, c: Codec<P, B>, p: P, events: seq<Event<P, B>>, k: uint32)
    returns (more: seq<Event<P, B>>)
    requires AckFaithful(c) && Readable(c, p) && cfg.maxPending >= 1 && k < TWO32 - 1
    requires Level(c, Run(cfg, c, true, events), p, k)
    ensures Level(c, Run(cfg, c, true, more), p, k + 1)
  {
    var s := Run(cfg, c, true, events);
    var b := (c.encode)(p, Header(0, k + 1, 0));
    RoundStates(cfg, c, p, s, k);
    more := SnocRun(cfg, c, true, events, Send(p, 0, true));
    more := SnocRun(cfg, c, true, more, DataArrives(b, 0));
    more := SnocRun(cfg, c, true, more, BackArrives(LinkAck(k + 1, 0), 0));
  }

  lemma RoundStates<P(!new), B>(cfg: Config, c: Codec<P, B>, p: P, s: Link<P, B>, k: uint32)
    requires AckFaithful(c) && Readable(c, p) && cfg.maxPending >= 1 && k < TWO32 - 1 && Level(c, s, p, k)
    ensures var sent := SendStep(cfg, c, true, s, p, 0, true);
            var got := DataStep(cfg, c, sent, (c.encode)(p, Header(0, k + 1, 0)), 0);
            Level(c, BackStep(c, true, got, LinkAck(k + 1, 0), 0), p, k + 1)
  {
    var sent := SendStep(cfg, c, true, s, p, 0, true);
    NextSent(cfg, c, s, p, k);
    NextHandedOn(cfg, c, sent, p, k + 1);
    NextAcked(c, DataStep(cfg, c, sent, (c.encode)(p, Header(0, k + 1, 0)), 0), p, k + 1);
  }

  lemma {:induction false} Rounds<P(!new), B>(cfg: Config, c: Codec<P, B>, p: P, k: uint32)
    returns (events: seq<Event<P, B>>)
    requires AckFaithful(c) && Readable(c, p) && cfg.maxPending >= 1
    ensures Level(c, Run(cfg, c, true, events), p, k)
  {
    if k == 0 {
      events := [];
    } else {
      events := Rounds(cfg, c, p, k - 1);
      events := Round(cfg, c, p, events, k - 1);
    }
  }

  /** A run of 2^32 - 1 packets in which the receiver, back at number 1, takes an old copy of packet
      1 again. */
  lemma WrapReadmits<P(!new), B>(cfg: Config, c: Codec<P, B>, p: P) returns (events: seq<Event<P, B>>)
    requires AckFaithful(c) && Readable(c, p) && cfg.maxPending >= 1
    ensures var s := Run(cfg, c, true, events);
            && |s.numbered| == TWO32 - 1 && |s.released| == TWO32
            && s.released[0].seqno == s.released[TWO32 - 1].seqno == 1
  {
    events := Rounds(cfg, c, p, TWO32 - 1);
    var s := Run(cfg, c, true, events);
    NextArrives(cfg, c, s, p, 1, TWO32 - 1);
    events := SnocRun(cfg, c, true, events, DataArrives((c.encode)(p, Header(0, 1, 0)), 0));
  }

  /** All runs of at most n packets deliver in order. */
  ghost predicate DeliversInOrder<P(!new), B(!new)>(cfg: Config, c: Codec<P, B>, n: nat) {
    forall events :: |Run(cfg, c, true, events).numbered| <= n ==> InOrder(c, Run(cfg, c, true, events))
  }

  /** Delivery is in order exactly for runs of fewer than 2^32 - 1 packets. */
  lemma DeliveryExact<P(!new), B(!new)>(cfg: Config, c: Codec<P, B>, p: P, n: nat)
    requires Faithful(c) && AckFaithful(c) && Readable(c, p) && cfg.maxPending >= 1
    ensures DeliversInOrder(cfg, c, n) <==> n < TWO32 - 1
  {
    if n < TWO32 - 1 {
      forall events | |Run(cfg, c, true, events).numbered| <= n ensures InOrder(c, Run(cfg, c, true, events)) {
        OrderedDelivery(cfg, c, events);
      }
    } else {
      var events := WrapReadmits(cfg, c, p);
      assert !InOrder(c, Run(cfg, c, true, events));
    }
  }
}
