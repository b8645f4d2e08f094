/** Safety of the link protocol over whole runs: ordered delivery, acknowledgements, windows. */
module LinkProtocol {
  import opened Bytes
  import opened Packets
  import opened ReliableStreams
  import opened LinkModel
  import opened LinkInvariant

  /** What ordered delivery promises of a state. */
  ghost predicate InOrder<P, B>(c: Codec<P, B>, s: Link<P, B>) {
    && |s.released| == s.rx.expectedSeq - 1 <= |s.numbered| < TWO32
    && forall i :: 0 <= i < |s.released| ==> s.released[i] == Expected(c, true, s.numbered, i + 1)
  }

  /** Ordered delivery: in every run, what ingress has handed on is exactly the packets given
      numbers 1 .. expectedSeq - 1, in order, each once, each as it left the sender. */
  lemma OrderedDelivery<P(!new), B>(cfg: Config, c: Codec<P, B>, events: seq<Event<P, B>>)
    requires Faithful(c) && Unwrapped(Run(cfg, c, true, events))
    ensures InOrder(c, Run(cfg, c, true, events))
  {
    RunInv(cfg, c, true, events);
    var s := Run(cfg, c, true, events);
    if |s.released| > 0 { assert Genuine(c, true, s.numbered, s.released[|s.released| - 1]); }
  }

  /** Unordered delivery: everything handed on was given a number and is unaltered. */
  lemma UnorderedIntegrity<P(!new), B>(cfg: Config, c: Codec<P, B>, events: seq<Event<P, B>>, i: nat)
    requires Faithful(c) && Unwrapped(Run(cfg, c, false, events))
    requires i < |Run(cfg, c, false, events).released|
    ensures Genuine(c, false, Run(cfg, c, false, events).numbered, Run(cfg, c, false, events).released[i])
  {
    RunInv(cfg, c, false, events);
  }

  /** Acks at the moment they are made: on an ordered stream every ack names `expectedSeq - 1`,
      on an unordered one the packet just handed on. */
  lemma AckNumbers<P(!new), B>(
    cfg: Config, c: Codec<P, B>, ordered: bool, events: seq<Event<P, B>>, b: B, now: uint64, m: Message)
    requires Faithful(c) && Unwrapped(Run(cfg, c, ordered, events)) && m.LinkAck?
    requires var s := Run(cfg, c, ordered, events);
             m !in s.back && m in DataStep(cfg, c, s, b, now).back
    ensures var s := Run(cfg, c, ordered, events);
            var t := DataStep(cfg, c, s, b, now);
            if ordered then m.seqno == t.rx.expectedSeq - 1
            else 1 <= m.seqno <= |s.numbered|
                 && t.released == s.released + [Expected(c, ordered, s.numbered, m.seqno)]
  {
    RunInv(cfg, c, ordered, events);
    NewAck(cfg, c, ordered, Run(cfg, c, ordered, events), b, now, m);
  }

  lemma NewAck<P(!new), B>(cfg: Config, c: Codec<P, B>, ordered: bool, s: Link<P, B>, b: B, now: uint64, m: Message)
    requires Faithful(c) && Inv(cfg, c, ordered, s) && Unwrapped(s) && m.LinkAck?
    requires m !in s.back && m in DataStep(cfg, c, s, b, now).back
    ensures var t := DataStep(cfg, c, s, b, now);
            if ordered then m.seqno == t.rx.expectedSeq - 1
            else 1 <= m.seqno <= |s.numbered|
                 && t.released == s.released + [Expected(c, ordered, s.numbered, m.seqno)]
  {
    DecodeData(cfg, c, ordered, s, b);
    var h, p := (c.decode)(b).header, (c.decode)(b).pkt;
    AcceptGenuine(cfg, c, ordered, s, h, p, b);
    FlagBits();
    var r := Accept(cfg, s.rx, h, p, b);
    var i :| 0 <= i < |r.replies| && m == MessageOf(r.replies[i], now);
  }

  /** The receiver's window over every run whatsoever, past the wrap too: expectedSeq is never 0,
      buffered keys lie above it and are at most maxPending, and a step that lowers expectedSeq
      leaves the buffer empty. */
  lemma {:induction false} ReceiverInvariant<P, B>(
    cfg: Config, c: Codec<P, B>, ordered: bool, events: seq<Event<P, B>>, e: Event<P, B>)
    ensures RxInv(cfg, Run(cfg, c, ordered, events).rx)
    ensures var s := Run(cfg, c, ordered, events);
            var t := Step(cfg, c, ordered, s, e);
            t.rx.expectedSeq < s.rx.expectedSeq ==> t.rx.buffered == map[]
  {
    if events != [] {
      var before, last := events[..|events| - 1], events[|events| - 1];
      ReceiverInvariant(cfg, c, ordered, before, last);
      ReceiverStep(cfg, c, ordered, Run(cfg, c, ordered, before), last);
    }
    ReceiverStep(cfg, c, ordered, Run(cfg, c, ordered, events), e);
  }

  lemma ReceiverStep<P, B>(cfg: Config, c: Codec<P, B>, ordered: bool, s: Link<P, B>, e: Event<P, B>)
    requires RxInv(cfg, s.rx)
    ensures var t := Step(cfg, c, ordered, s, e);
            RxInv(cfg, t.rx) && (t.rx.expectedSeq < s.rx.expectedSeq ==> t.rx.buffered == map[])
  {
    if e.DataArrives? {
      var a := (c.decode)(e.bytes);
      if a.Sequenced? { AcceptKeepsRxInv(cfg, s.rx, a.header, a.pkt, e.bytes); }
    }
  }

  /** The sender's window over all runs before the wrap. */
  lemma WindowInvariants<P(!new), B>(cfg: Config, c: Codec<P, B>, ordered: bool, events: seq<Event<P, B>>)
    requires Faithful(c) && Unwrapped(Run(cfg, c, ordered, events))
    ensures var s := Run(cfg, c, ordered, events);
            && (forall i, j :: 0 <= i < j < |s.tx.sentOrder| ==> s.tx.sentOrder[i] < s.tx.sentOrder[j])
            && (forall k :: k in s.tx.sentOrder <==> k in s.tx.sent)
            && |s.tx.sent| <= cfg.maxPending
            && (forall k :: k in s.tx.sent ==>
                  1 <= k <= |s.numbered| && s.tx.sent[k].bytes == FrameOf(c, ordered, s.numbered, k))
  {
    RunInv(cfg, c, ordered, events);
    var s := Run(cfg, c, ordered, events);
    forall i, j | 0 <= i < j < |s.tx.sentOrder| ensures s.tx.sentOrder[i] < s.tx.sentOrder[j] {
      AscendingPairwise(s.tx.sentOrder, i, j);
    }
  }

  // ---------------------------------------------------------------- acknowledgements

  /** Number n, read as an ack, takes k out of the window. */
  predicate Takes(ordered: bool, n: uint32, k: uint32) { if ordered then k <= n else k == n }

  /** Exactly which arrivals remove an entry. */
  lemma RemovedIff<P, B>(cfg: Config, ordered: bool, tx: TxState<B>, a: Arrival<P>, now: uint64, k: uint32)
    requires TxInv(cfg, tx) && k in tx.sent
    ensures k !in Answer(ordered, tx, a, now).sent <==> a.Acked? && Takes(ordered, a.seqno, k)
  {
    if a.Acked? && ordered { PopAckedEffect(cfg, tx, a.seqno); }
  }

  lemma CoveredTaken<P, B>(
    cfg: Config, c: Codec<P, B>, ordered: bool, s: Link<P, B>, n: uint32, k: uint32)
    requires RxPart(cfg, c, ordered, s.numbered, s.rx, s.released) && Covered(ordered, s.released, n)
    requires Takes(ordered, n, k) && 1 <= k
    ensures Released(s.released, k)
  {
    if ordered { assert s.released[k - 1].seqno == k; }
  }

  /** Ack soundness: in whatever reachable state a link ack arrives, a packet leaves the send window
      only if the receiver has already handed it on. */
  lemma AckSoundness<P(!new), B>(
    cfg: Config, c: Codec<P, B>, ordered: bool, events: seq<Event<P, B>>, m: Message, now: uint64, k: uint32)
    requires Faithful(c) && AckFaithful(c) && Unwrapped(Run(cfg, c, ordered, events)) && m.LinkAck?
    requires var s := Run(cfg, c, ordered, events);
             k in s.tx.sent && k !in BackStep(c, ordered, s, m, now).tx.sent
    ensures var s := Run(cfg, c, ordered, events);
            exists i :: 0 <= i < |s.released| && s.released[i].seqno == k
                && Genuine(c, ordered, s.numbered, s.released[i])
  {
    RunInv(cfg, c, ordered, events);
    var s := Run(cfg, c, ordered, events);
    RemovedIff(cfg, ordered, s.tx, (c.decode)((c.control)(m)), now, k);
    CoveredTaken(cfg, c, ordered, s, m.seqno, k);
    var i :| 0 <= i < |s.released| && s.released[i].seqno == k;
    assert Genuine(c, ordered, s.numbered, s.released[i]);
  }

  /** Which message removes a packet that was not handed on: exactly an end-to-end ack whose low word
      names the stream and whose high word, read as an ack, takes the packet. */
  lemma AckExact<P(!new), B>(
    cfg: Config, c: Codec<P, B>, ordered: bool, events: seq<Event<P, B>>, m: Message, now: uint64, k: uint32)
    requires Faithful(c) && ControlFaithful(c) && Unwrapped(Run(cfg, c, ordered, events))
    requires var s := Run(cfg, c, ordered, events);
             m in s.back && k in s.tx.sent && !Released(s.released, k)
    ensures k !in BackStep(c, ordered, Run(cfg, c, ordered, events), m, now).tx.sent <==>
              m.EndToEndAck? && (c.names)(m.id % TWO32) && Takes(ordered, m.id / TWO32, k)
  {
    RunInv(cfg, c, ordered, events);
    var s := Run(cfg, c, ordered, events);
    assert (c.decode)((c.control)(m)) == Reading(c, m);
    RemovedIff(cfg, ordered, s.tx, Reading(c, m), now, k);
    if m.LinkAck? && Takes(ordered, m.seqno, k) { CoveredTaken(cfg, c, ordered, s, m.seqno, k); }
  }

  /** Such a removal happens: a run in which one packet is sent and nothing has arrived, yet an
      end-to-end ack of an id with the stream's name in its low word and 1 in its high word empties
      the window. */
  lemma EndToEndMisread<P(!new), B>(cfg: Config, c: Codec<P, B>, ordered: bool, p: P, w: uint32)
    returns (events: seq<Event<P, B>>, m: Message)
    requires ControlFaithful(c) && (c.carries)(p) && (c.names)(w) && cfg.maxPending >= 1
    ensures var s := Run(cfg, c, ordered, events);
            m in s.back && s.tx.sentOrder == [1] && s.numbered == [p] && s.released == []
            && BackStep(c, ordered, s, m, 0).tx == TxState(2, [], map[])
  {
    m := MisreadAs(c, w, 1);
    events := SnocRun(cfg, c, ordered, [], Send(p, 0, true));
    FirstSend(cfg, c, ordered, p, 0);
    var s := Run(cfg, c, ordered, events);
    events := SnocRun(cfg, c, ordered, events, AckEndToEnd(m.id, 0));
    OnlyEntryAcked(ordered, s.tx, 1);
  }

  /** The end-to-end ack that is taken for a link ack of n. */
  lemma MisreadAs<P, B>(c: Codec<P, B>, w: uint32, n: uint32) returns (m: Message)
    requires ControlFaithful(c) && (c.names)(w)
    ensures m.EndToEndAck? && m.at == 0 && (c.decode)((c.control)(m)) == Acked(n)
  {
    m := EndToEndAck(n * TWO32 + w, 0);
    assert (c.decode)((c.control)(m)) == Reading(c, m);
  }

  lemma FirstSend<P, B>(cfg: Config, c: Codec<P, B>, ordered: bool, p: P, now: uint64)
    requires (c.carries)(p) && cfg.maxPending >= 1
    ensures var b := (c.encode)(p, Header(SendFlags(ordered), 1, 0));
            SendStep(cfg, c, ordered, Start(), p, now, true)
            == Start<P, B>().(tx := TxState(2, [1], map[1 := Sent(b, now, 0, false, false)]), data := {b},
                              numbered := [p])
  {}

  lemma OnlyEntryAcked<B>(ordered: bool, tx: TxState<B>, n: uint32)
    requires tx.sentOrder == [n] && tx.sent.Keys == {n}
    ensures Acknowledge(ordered, tx, n) == TxState(tx.nextSeq, [], map[])
  {
    var rest := tx.(sent := tx.sent - {n}, sentOrder := tx.sentOrder[1..]);
    assert rest.sent.Keys == {};
    assert rest == TxState(tx.nextSeq, [], map[]);
    assert PopAcked(rest, n) == rest;
    assert Without([n], n) == Without([n][1..], n) == [];
  }

  lemma RunSnoc<P, B>(cfg: Config, c: Codec<P, B>, ordered: bool, events: seq<Event<P, B>>, e: Event<P, B>)
    ensures Run(cfg, c, ordered, events + [e]) == Step(cfg, c, ordered, Run(cfg, c, ordered, events), e)
  {
    assert (events + [e])[..|events|] == events;
  }

  /** A run, one step longer. */
  lemma SnocRun<P, B>(cfg: Config, c: Codec<P, B>, ordered: bool, events: seq<Event<P, B>>, e: Event<P, B>)
    returns (more: seq<Event<P, B>>)
    ensures Run(cfg, c, ordered, more) == Step(cfg, c, ordered, Run(cfg, c, ordered, events), e)
  {
    more := events + [e];
    RunSnoc(cfg, c, ordered, events, e);
  }
}
