/** Each step of the link spelled out field by field, and what the partial acks and the requests on the
    way back prove about the receiver over whole runs. */
module LinkSteps {
  import opened Bytes
  import opened Packets
  import opened ReliableStreams
  import opened LinkModel
  import opened LinkInvariant
  import opened LinkProtocol

  // ---------------------------------------------------------------- arrivals

  /** Releases of the buffered packets from, from + 1, .. */
  ghost predicate Straight<P, B>(from: nat, buffered: map<uint32, Buffered<P, B>>, out: seq<Release<P, B>>) {
    forall i :: 0 <= i < |out| ==>
      && out[i].seqno == from + i && out[i].seqno in buffered
      && out[i].pkt == buffered[out[i].seqno].pkt && out[i].wire == buffered[out[i].seqno].wire
  }

  function From<P, B>(buffered: map<uint32, Buffered<P, B>>, n: nat): map<uint32, Buffered<P, B>> {
    map k | k in buffered && k >= n :: buffered[k]
  }

  /** A drain hands on the longest run of consecutive buffered numbers and leaves the rest. */
  lemma {:induction false} DrainExact<P, B>(rx: RxState<P, B>)
    requires rx.expectedSeq != 0 && forall k :: k in rx.buffered ==> k >= rx.expectedSeq
    ensures var d, e := Drain(rx), rx.expectedSeq;
            var next := e + |d.out|;
            && Straight(e, rx.buffered, d.out) && next <= TWO32 && (next < TWO32 ==> next !in rx.buffered)
            && d.rx == RxState(if next == TWO32 then 1 else next, if d.out == [] then rx.lastAck else next - 1,
                               From(rx.buffered, next))
    decreases |rx.buffered|
  {
    var s := rx.expectedSeq;
    if s !in rx.buffered {
      assert rx.buffered == From(rx.buffered, s);
    } else {
      var rest := RxState(NextSeq(s), s, rx.buffered - {s});
      assert (rx.buffered - {s}).Keys == rx.buffered.Keys - {s};
      if s == TWO32 - 1 {
        NoneAbove(rest.buffered);
        assert Drain(rx).out == [Release(s, rx.buffered[s].pkt, rx.buffered[s].wire)];
        assert From(rx.buffered, TWO32) == map[];
      } else {
        DrainExact(rest);
        StraightOn(rx, Drain(rest).out);
        assert From(rx.buffered, s + 1 + |Drain(rest).out|) == From(rest.buffered, s + 1 + |Drain(rest).out|);
      }
    }
  }

  lemma NoneAbove<P, B>(buffered: map<uint32, Buffered<P, B>>)
    requires forall k :: k in buffered ==> k > TWO32 - 1
    ensures buffered == map[]
  {
    assert buffered.Keys == {} by {
      forall k | k in buffered ensures false {}
    }
  }

  lemma StraightOn<P, B>(rx: RxState<P, B>, out: seq<Release<P, B>>)
    requires rx.expectedSeq in rx.buffered && Straight(rx.expectedSeq + 1, rx.buffered - {rx.expectedSeq}, out)
    ensures var b := rx.buffered[rx.expectedSeq];
            Straight(rx.expectedSeq, rx.buffered, [Release(rx.expectedSeq, b.pkt, b.wire)] + out)
  {}

  /** A frame from beyond a gap: it is acknowledged in part under its own number, the packet at the gap is
      asked for, nothing is handed on, and it is kept if there is room and it is not there yet. */
  lemma GapStep<P, B>(cfg: Config, c: Codec<P, B>, s: Link<P, B>, b: B, h: Header, p: P, now: uint64)
    requires b in s.data && (c.decode)(b) == Sequenced(h, p) && h.flags == 0 && h.seqno > s.rx.expectedSeq
    ensures var t := DataStep(cfg, c, s, b, now);
            && t.back == s.back + {PartialAck(h.seqno, now), Request(s.rx.expectedSeq, now)}
            && t.released == s.released
            && t.rx.expectedSeq == s.rx.expectedSeq && t.rx.lastAck == s.rx.lastAck
            && t.rx.buffered == (if |s.rx.buffered| < cfg.maxPending && h.seqno !in s.rx.buffered
                                 then s.rx.buffered[h.seqno := Buffered(p, b)] else s.rx.buffered)
            && t == s.(back := t.back, rx := t.rx)
  {
    FlagBits();
    var r := Accept(cfg, s.rx, h, p, b);
    assert r.replies[0] == PartialAckReply(h.seqno) && r.replies[1] == RequestReply(s.rx.expectedSeq);
    TwoMessages(r.replies, now);
  }

  lemma TwoMessages(r: seq<Reply>, now: uint64)
    requires |r| == 2
    ensures (set i | 0 <= i < |r| :: MessageOf(r[i], now)) == {MessageOf(r[0], now), MessageOf(r[1], now)}
  {}

  lemma OneMessage(r: seq<Reply>, now: uint64)
    requires |r| == 1
    ensures (set i | 0 <= i < |r| :: MessageOf(r[i], now)) == {MessageOf(r[0], now)}
  {
    assert MessageOf(r[0], now) in (set i | 0 <= i < |r| :: MessageOf(r[i], now));
  }

  /** A frame seen before is acknowledged again and changes nothing else. */
  lemma OlderStep<P, B>(cfg: Config, c: Codec<P, B>, s: Link<P, B>, b: B, h: Header, p: P, now: uint64)
    requires b in s.data && (c.decode)(b) == Sequenced(h, p) && h.flags == 0 && h.seqno < s.rx.expectedSeq
    ensures DataStep(cfg, c, s, b, now) == s.(back := s.back + {LinkAck(s.rx.expectedSeq - 1, now)},
                                              rx := s.rx.(lastAck := s.rx.expectedSeq - 1))
  {
    FlagBits();
    OneMessage(Accept(cfg, s.rx, h, p, b).replies, now);
  }

  /** The expected frame is handed on with the buffered ones that follow it without a gap, as far as they go,
      and one ack names the last of them. */
  lemma NextStep<P, B>(cfg: Config, c: Codec<P, B>, s: Link<P, B>, b: B, h: Header, p: P, now: uint64)
    returns (out: seq<Release<P, B>>)
    requires RxInv(cfg, s.rx)
    requires b in s.data && (c.decode)(b) == Sequenced(h, p) && h.flags == 0 && h.seqno == s.rx.expectedSeq
    ensures Straight(h.seqno + 1, s.rx.buffered, out)
    ensures var next := h.seqno + |out| + 1;
            && next <= TWO32 && (next < TWO32 ==> next !in s.rx.buffered)
            && DataStep(cfg, c, s, b, now)
               == s.(rx := RxState(if next == TWO32 then 1 else next, next - 1, From(s.rx.buffered, next)),
                     back := s.back + {LinkAck(next - 1, now)},
                     released := s.released + ([Release(h.seqno, p, b)] + out))
  {
    OneMessage(Accept(cfg, s.rx, h, p, b).replies, now);
    out := AcceptNextExact(cfg, s.rx, h, p, b);
  }

  lemma AcceptNextExact<P, B>(cfg: Config, rx: RxState<P, B>, h: Header, p: P, b: B) returns (out: seq<Release<P, B>>)
    requires RxInv(cfg, rx) && h.flags == 0 && h.seqno == rx.expectedSeq
    ensures Straight(h.seqno + 1, rx.buffered, out)
    ensures var next := h.seqno + |out| + 1;
            && next <= TWO32 && (next < TWO32 ==> next !in rx.buffered)
            && Accept(cfg, rx, h, p, b)
               == Ingress(RxState(if next == TWO32 then 1 else next, next - 1, From(rx.buffered, next)), true, out,
                          [AckReply(next - 1)])
  {
    FlagBits();
    var e := rx.expectedSeq;
    var start := rx.(expectedSeq := NextSeq(e), lastAck := e);
    out := Drain(start).out;
    if e == TWO32 - 1 { NoneAbove(rx.buffered); } else { DrainExact(start); }
  }

  /** On an unordered stream every frame is handed on and acknowledged under its own number; a frame marked
      unsequenced is only handed on. */
  lemma UnorderedStep<P, B>(cfg: Config, c: Codec<P, B>, s: Link<P, B>, b: B, h: Header, p: P, now: uint64)
    requires b in s.data && (c.decode)(b) == Sequenced(h, p) && (h.flags == 2 || Bit(h.flags, 7))
    ensures DataStep(cfg, c, s, b, now)
            == if Bit(h.flags, 7) then s.(released := s.released + [Release(h.seqno, p, b)])
               else s.(back := s.back + {LinkAck(h.seqno, now)}, released := s.released + [Release(h.seqno, p, b)],
                       rx := s.rx.(lastAck := h.seqno))
  {
    FlagBits();
    var r := Accept(cfg, s.rx, h, p, b);
    assert [Release(h.seqno, p, b)] + r.out == [Release(h.seqno, p, b)];
    if !Bit(h.flags, 7) {
      OneMessage(r.replies, now);
    }
  }

  // ---------------------------------------------------------------- the send window

  /** Numbering a packet: the window remembers its bytes as sent just now, if the callback took them. */
  lemma SendExact<P, B>(cfg: Config, c: Codec<P, B>, ordered: bool, s: Link<P, B>, p: P, now: uint64, ok: bool)
    requires TxInv(cfg, s.tx) && s.tx.nextSeq < TWO32 - 1 && (c.carries)(p) && |s.tx.sent| < cfg.maxPending
    ensures var n := s.tx.nextSeq;
            var b := (c.encode)(p, Header(if ordered then 0 else 2, n, 0));
            var t := SendStep(cfg, c, ordered, s, p, now, ok);
            && n !in s.tx.sent && t.data == s.data + {b} && t.numbered == s.numbered + [p]
            && t.tx == (if ok then TxState(n + 1, s.tx.sentOrder + [n],
                                           s.tx.sent[n := Sent(b, now, 0, false, false)])
                        else TxState(n + 1, s.tx.sentOrder, s.tx.sent))
            && t == s.(tx := t.tx, data := t.data, numbered := t.numbered)
  {}

  /** A partial ack marks the one entry it names, a request sends it again from the start of its timer; no
      entry comes or goes. */
  lemma PartialExact<P, B>(c: Codec<P, B>, ordered: bool, s: Link<P, B>, m: Message, now: uint64, n: uint32, k: uint32)
    requires m in s.back && k in s.tx.sent
    ensures var t := BackStep(c, ordered, s, m, now);
            (c.decode)((c.control)(m)) == PartialAcked(n) ==>
              && t.tx.nextSeq == s.tx.nextSeq && t.tx.sentOrder == s.tx.sentOrder && t.tx.sent.Keys == s.tx.sent.Keys
              && (k != n ==> t.tx.sent[k] == s.tx.sent[k])
              && (k == n ==> var e := s.tx.sent[k];
                             t.tx.sent[k] == Sent(e.bytes, e.lastSendMs, e.retries, e.queued, true))
    ensures var t := BackStep(c, ordered, s, m, now);
            (c.decode)((c.control)(m)) == Requested(n) ==>
              && t.tx.nextSeq == s.tx.nextSeq && t.tx.sentOrder == s.tx.sentOrder && t.tx.sent.Keys == s.tx.sent.Keys
              && (k != n ==> t.tx.sent[k] == s.tx.sent[k])
              && (k == n ==> var e := s.tx.sent[k];
                             t.tx.sent[k] == Sent(e.bytes, now, (e.retries + 1) % TWO32, false, false))
  {}

  /** The timeout pass, entry by entry: an entry that is neither queued nor marked and whose timer has run out
      is given up when its retries are used up, and otherwise sent again. */
  lemma TickExact<P, B>(cfg: Config, s: Link<P, B>, now: uint64, oks: uint32 -> bool, k: uint32)
    requires TxInv(cfg, s.tx) && k in s.tx.sent
    ensures var e, t := s.tx.sent[k], TickStep(cfg, s, now, oks);
            var due := !e.queued && !e.partialAcked && (now - e.lastSendMs) % TWO64 >= cfg.retransmitMs;
            && (k in t.tx.sent <==> !(due && e.retries >= cfg.maxRetries))
            && (k in t.tx.sent ==>
                  t.tx.sent[k] == if due && oks(k) then Sent(e.bytes, now, (e.retries + 1) % TWO32, false, false)
                                  else e)
            && CountOf(t.resends, k)
               == CountOf(s.resends, k) + (if due && e.retries < cfg.maxRetries && oks(k) then 1 else 0)
  {
    ElapsedMod(now, s.tx.sent[k].lastSendMs);
    ExpireEntry(cfg, s.tx, now, oks, k);
  }

  lemma ExpireEntry<B>(cfg: Config, tx: TxState<B>, now: uint64, oks: uint32 -> bool, k: uint32)
    requires TxInv(cfg, tx) && k in tx.sent
    ensures var e, r := tx.sent[k], ExpireAll(cfg, tx, tx.sentOrder, now, oks);
            && (k in r.sent <==> !Exhausted(cfg, e, now))
            && (k in r.sent ==> r.sent[k] == if Retransmitted(cfg, e, now, oks(k)) then Bumped(e, now) else e)
  {
    ExpireAllEffect(cfg, tx, tx.sentOrder, now, oks);
    assert k in tx.sentOrder;
  }

  lemma ElapsedMod(now: uint64, then_: uint64)
    ensures Elapsed(now, then_) == (now - then_) % TWO64
  {}

  // ---------------------------------------------------------------- partial acks over runs

  /** Once a number is buffered or handed on it stays so. */
  lemma HeldStays<P(!new), B>(cfg: Config, c: Codec<P, B>, s: Link<P, B>, e: Event<P, B>, n: uint32)
    requires Faithful(c) && Inv(cfg, c, true, s) && Unwrapped(s)
    requires n in s.rx.buffered || n < s.rx.expectedSeq
    ensures var t := Step(cfg, c, true, s, e);
            n in t.rx.buffered || n < t.rx.expectedSeq
  {
    if e.DataArrives? && e.bytes in s.data && (c.decode)(e.bytes).Sequenced? {
      var h, p := (c.decode)(e.bytes).header, (c.decode)(e.bytes).pkt;
      DecodeData(cfg, c, true, s, e.bytes);
      if h.seqno < s.rx.expectedSeq {
        OlderStep(cfg, c, s, e.bytes, h, p, e.now);
      } else if h.seqno > s.rx.expectedSeq {
        GapStep(cfg, c, s, e.bytes, h, p, e.now);
      } else {
        var out := NextStep(cfg, c, s, e.bytes, h, p, e.now);
        if out != [] { assert out[|out| - 1].seqno in s.rx.buffered; }
      }
    }
  }

  /** In state s, on the way to state t, event e brought frame n at instant `at`: a gap lay below n, the packet
      at the gap was asked for, and n was kept unless the buffer was full. */
  ghost predicate ArrivedThen<P, B>(
    cfg: Config, c: Codec<P, B>, s: Link<P, B>, e: Event<P, B>, t: Link<P, B>, n: uint32, at: uint64)
  {
    && 1 <= n <= |t.numbered|
    && e == DataArrives(FrameOf(c, true, t.numbered, n), at) && FrameOf(c, true, t.numbered, n) in s.data
    && s.rx.expectedSeq < n && Request(s.rx.expectedSeq, at) in t.back
    && (n in t.rx.buffered || n < t.rx.expectedSeq || (n !in s.rx.buffered && |s.rx.buffered| >= cfg.maxPending))
  }

  /** A partial ack appears in the step in which a frame from beyond a gap arrives, and only there. */
  lemma NewPartial<P(!new), B>(cfg: Config, c: Codec<P, B>, s: Link<P, B>, e: Event<P, B>, n: uint32, at: uint64)
    requires Faithful(c) && Inv(cfg, c, true, s) && Unwrapped(s)
    requires PartialAck(n, at) !in s.back && PartialAck(n, at) in Step(cfg, c, true, s, e).back
    ensures ArrivedThen(cfg, c, s, e, Step(cfg, c, true, s, e), n, at)
  {
    assert e.DataArrives? && e.bytes in s.data && (c.decode)(e.bytes).Sequenced?;
    var h, p := (c.decode)(e.bytes).header, (c.decode)(e.bytes).pkt;
    DecodeData(cfg, c, true, s, e.bytes);
    if h.seqno < s.rx.expectedSeq {
      OlderStep(cfg, c, s, e.bytes, h, p, e.now);
    } else if h.seqno > s.rx.expectedSeq {
      GapStep(cfg, c, s, e.bytes, h, p, e.now);
    } else {
      var out := NextStep(cfg, c, s, e.bytes, h, p, e.now);
    }
  }

  /** Event i of a run brought frame n. */
  ghost predicate ArrivedAt<P, B>(
    cfg: Config, c: Codec<P, B>, events: seq<Event<P, B>>, i: nat, n: uint32, at: uint64)
  {
    i < |events| && ArrivedThen(cfg, c, Run(cfg, c, true, events[..i]), events[i], Run(cfg, c, true, events), n, at)
  }

  /** Partial acks tell the truth: in every run, each one on the way back names a packet whose frame arrived at
      that instant while an earlier packet was missing. The packet is still buffered, or handed on by now, or
      was refused by a full buffer. */
  lemma {:induction false} PartialAckTruth<P(!new), B>(
    cfg: Config, c: Codec<P, B>, events: seq<Event<P, B>>, n: uint32, at: uint64) returns (i: nat)
    requires Faithful(c) && Unwrapped(Run(cfg, c, true, events))
    requires PartialAck(n, at) in Run(cfg, c, true, events).back
    ensures ArrivedAt(cfg, c, events, i, n, at)
    decreases |events|
  {
    LastStep(cfg, c, true, events);
    if PartialAck(n, at) in Run(cfg, c, true, events[..|events| - 1]).back {
      i := PartialAckTruth(cfg, c, events[..|events| - 1], n, at);
      ArrivedBefore(cfg, c, events, i, n, at);
    } else {
      i := |events| - 1;
      ArrivedLast(cfg, c, events, n, at);
    }
  }

  lemma ArrivedBefore<P(!new), B>(
    cfg: Config, c: Codec<P, B>, events: seq<Event<P, B>>, i: nat, n: uint32, at: uint64)
    requires Faithful(c) && Unwrapped(Run(cfg, c, true, events)) && events != []
    requires ArrivedAt(cfg, c, events[..|events| - 1], i, n, at)
    ensures ArrivedAt(cfg, c, events, i, n, at)
  {
    var before, e := events[..|events| - 1], events[|events| - 1];
    LastStep(cfg, c, true, events);
    assert before[..i] == events[..i];
    ArrivedStays(cfg, c, Run(cfg, c, true, events[..i]), events[i], Run(cfg, c, true, before), e, n, at);
  }

  lemma ArrivedLast<P(!new), B>(cfg: Config, c: Codec<P, B>, events: seq<Event<P, B>>, n: uint32, at: uint64)
    requires Faithful(c) && Unwrapped(Run(cfg, c, true, events)) && events != []
    requires PartialAck(n, at) in Run(cfg, c, true, events).back
    requires PartialAck(n, at) !in Run(cfg, c, true, events[..|events| - 1]).back
    ensures ArrivedAt(cfg, c, events, |events| - 1, n, at)
  {
    LastStep(cfg, c, true, events);
    NewPartial(cfg, c, Run(cfg, c, true, events[..|events| - 1]), events[|events| - 1], n, at);
  }

  lemma LastStep<P(!new), B>(cfg: Config, c: Codec<P, B>, ordered: bool, events: seq<Event<P, B>>)
    requires Faithful(c) && Unwrapped(Run(cfg, c, ordered, events)) && events != []
    ensures var s := Run(cfg, c, ordered, events[..|events| - 1]);
            && Inv(cfg, c, ordered, s) && Unwrapped(s)
            && Run(cfg, c, ordered, events) == Step(cfg, c, ordered, s, events[|events| - 1])
  {
    RunInv(cfg, c, ordered, events[..|events| - 1]);
  }

  lemma ArrivedStays<P(!new), B>(
    cfg: Config, c: Codec<P, B>, s: Link<P, B>, was: Event<P, B>, t: Link<P, B>, e: Event<P, B>, n: uint32, at: uint64)
    requires Faithful(c) && Inv(cfg, c, true, t) && Unwrapped(t) && ArrivedThen(cfg, c, s, was, t, n, at)
    ensures ArrivedThen(cfg, c, s, was, Step(cfg, c, true, t, e), n, at)
  {
    FrameStays(cfg, c, true, t, e, n);
    if n in t.rx.buffered || n < t.rx.expectedSeq { HeldStays(cfg, c, t, e, n); }
  }

  lemma FrameStays<P, B>(cfg: Config, c: Codec<P, B>, ordered: bool, s: Link<P, B>, e: Event<P, B>, n: uint32)
    requires 1 <= n <= |s.numbered|
    ensures var t := Step(cfg, c, ordered, s, e);
            && s.numbered <= t.numbered && s.back <= t.back && s.data <= t.data
            && FrameOf(c, ordered, t.numbered, n) == FrameOf(c, ordered, s.numbered, n)
  {}

  /** What is held is the packet itself: a buffered or handed-on number stands for the packet that was given
      it, as it left the sender. */
  lemma HeldGenuine<P(!new), B>(cfg: Config, c: Codec<P, B>, events: seq<Event<P, B>>, n: uint32)
    requires Faithful(c) && Unwrapped(Run(cfg, c, true, events)) && n >= 1
    ensures var t := Run(cfg, c, true, events);
            && (n in t.rx.buffered ==>
                  && 1 <= n <= |t.numbered|
                  && t.rx.buffered[n] == Buffered((c.canon)(t.numbered[n - 1]), FrameOf(c, true, t.numbered, n)))
            && (n < t.rx.expectedSeq ==>
                  && 1 <= n <= |t.numbered| && n <= |t.released|
                  && t.released[n - 1]
                     == Release(n, (c.canon)(t.numbered[n - 1]), FrameOf(c, true, t.numbered, n)))
  {
    RunInv(cfg, c, true, events);
    OrderedDelivery(cfg, c, events);
  }

  /** On an unordered stream nobody asks for packets or acknowledges in part. */
  lemma {:induction false} OnlyAcks<P(!new), B>(cfg: Config, c: Codec<P, B>, events: seq<Event<P, B>>, m: Message)
    requires Faithful(c) && Unwrapped(Run(cfg, c, false, events)) && m in Run(cfg, c, false, events).back
    ensures m.LinkAck? || m.EndToEndAck?
    decreases |events|
  {
    var before, e := events[..|events| - 1], events[|events| - 1];
    var s := Run(cfg, c, false, before);
    RunInv(cfg, c, false, before);
    if m in s.back {
      OnlyAcks(cfg, c, before, m);
    } else if e.DataArrives? {
      DecodeData(cfg, c, false, s, e.bytes);
      UnorderedStep(cfg, c, s, e.bytes, (c.decode)(e.bytes).header, (c.decode)(e.bytes).pkt, e.now);
    }
  }
}
