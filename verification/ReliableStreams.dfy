/** The reliable window of one (side, type) stream: sender state, receiver state and the
    effect of every operation on them, as values. `P` is a packet, `B` its bytes on the wire. */
module ReliableStreams {
  import opened Bytes
  import opened Packets

  datatype Config = Config(maxPending: nat, maxRetries: uint32, retransmitMs: uint32)

  datatype Sent<+B> = Sent(bytes: B, lastSendMs: uint64, retries: uint32, queued: bool, partialAcked: bool)

  datatype TxState<+B> = TxState(nextSeq: uint32, sentOrder: seq<uint32>, sent: map<uint32, Sent<B>>)

  datatype Buffered<+P, +B> = Buffered(pkt: P, wire: B)

  datatype RxState<+P, +B> = RxState(expectedSeq: uint32, lastAck: uint32, buffered: map<uint32, Buffered<P, B>>)

  /** A packet handed on by ingress, with the sequence number it arrived under. */
  datatype Release<+P, +B> = Release(seqno: uint32, pkt: P, wire: B)

  datatype Reply = AckReply(seqno: uint32) | PartialAckReply(seqno: uint32) | RequestReply(seqno: uint32)

  function InitialTx<B>(): TxState<B> { TxState(1, [], map[]) }

  function InitialRx<P, B>(): RxState<P, B> { RxState(1, 0, map[]) }

  /** Sequence numbers are 32-bit and skip zero. */
  function NextSeq(s: uint32): (n: uint32)
    ensures n != 0
  {
    if s == TWO32 - 1 then 1 else s + 1
  }

  /** std::erase(sequence, x) */
  function Without(s: seq<uint32>, x: uint32): (r: seq<uint32>)
    ensures x !in r && |r| <= |s|
    ensures forall y :: y in r <==> y in s && y != x
  {
    if s == [] then [] else if s[0] == x then Without(s[1..], x) else [s[0]] + Without(s[1..], x)
  }

  // ---------------------------------------------------------------- sender

  /** Registers a frame that has just taken the next sequence number; a frame whose
      transmission failed keeps its number but is not remembered. */
  function Assign<B>(tx: TxState<B>, bytes: B, now: uint64, ok: bool): TxState<B> {
    var s := tx.nextSeq;
    var stepped := tx.(nextSeq := NextSeq(s));
    if !ok then stepped
    else stepped.(sentOrder := tx.sentOrder + [s],
                  sent := if s in tx.sent then tx.sent else tx.sent[s := Sent(bytes, now, 0, false, false)])
  }

  /** Cumulative acknowledgement: pops the front of the order while it is covered. */
  function PopAcked<B>(tx: TxState<B>, ack: uint32): TxState<B>
    decreases |tx.sentOrder|
  {
    if tx.sentOrder != [] && tx.sentOrder[0] <= ack then
      PopAcked(tx.(sent := tx.sent - {tx.sentOrder[0]}, sentOrder := tx.sentOrder[1..]), ack)
    else tx
  }

  function Acknowledge<B>(ordered: bool, tx: TxState<B>, ack: uint32): TxState<B> {
    if ordered then PopAcked(tx, ack)
    else tx.(sent := tx.sent - {ack}, sentOrder := Without(tx.sentOrder, ack))
  }

  function MarkPartial<B>(tx: TxState<B>, s: uint32): TxState<B> {
    if s in tx.sent then tx.(sent := tx.sent[s := tx.sent[s].(partialAcked := true)]) else tx
  }

  /** Answers a packet request; the outcome of the transmission is ignored. */
  function Resend<B>(tx: TxState<B>, s: uint32, now: uint64): TxState<B> {
    if s !in tx.sent then tx
    else
      var e := tx.sent[s];
      tx.(sent := tx.sent[s := e.(lastSendMs := now, retries := Inc32(e.retries),
                                  queued := false, partialAcked := false)])
  }

  predicate Due<B>(cfg: Config, e: Sent<B>, now: uint64) {
    !e.queued && !e.partialAcked && Elapsed(now, e.lastSendMs) >= cfg.retransmitMs
  }

  /** One entry of the timeout pass; `ok` is what the transmit callback would answer. */
  function Expire<B>(cfg: Config, tx: TxState<B>, s: uint32, now: uint64, ok: bool): TxState<B> {
    if s !in tx.sent || !Due(cfg, tx.sent[s], now) then tx
    else
      var e := tx.sent[s];
      if e.retries >= cfg.maxRetries then tx.(sent := tx.sent - {s}, sentOrder := Without(tx.sentOrder, s))
      else if ok then tx.(sent := tx.sent[s := e.(lastSendMs := now, retries := Inc32(e.retries))])
      else tx
  }

  /** The timeout pass over a snapshot of the order. */
  function ExpireAll<B>(cfg: Config, tx: TxState<B>, seqs: seq<uint32>, now: uint64, ok: uint32 -> bool): TxState<B>
    decreases |seqs|
  {
    if seqs == [] then tx
    else ExpireAll(cfg, Expire(cfg, tx, seqs[0], now, ok(seqs[0])), seqs[1..], now, ok)
  }

  // ---------------------------------------------------------------- receiver

  datatype Drained<+P, +B> = Drained(rx: RxState<P, B>, out: seq<Release<P, B>>)

  /** Releases buffered packets for as long as the expected one is present. */
  function Drain<P, B>(rx: RxState<P, B>): Drained<P, B>
    decreases |rx.buffered|
  {
    var s := rx.expectedSeq;
    if s !in rx.buffered then Drained(rx, [])
    else
      assert |rx.buffered - {s}| < |rx.buffered| by { assert (rx.buffered - {s}).Keys == rx.buffered.Keys - {s}; }
      var rest := Drain(RxState(NextSeq(s), s, rx.buffered - {s}));
      Drained(rest.rx, [Release(s, rx.buffered[s].pkt, rx.buffered[s].wire)] + rest.out)
  }

  datatype Ingress<+P, +B> = Ingress(rx: RxState<P, B>, deliver: bool, out: seq<Release<P, B>>, replies: seq<Reply>)

  /** Sequenced (not ack-only) arrivals. `deliver` says whether the arriving packet itself is
      handed on; `out` are the buffered packets released behind it; `replies` in push order. */
  function Accept<P, B>(cfg: Config, rx: RxState<P, B>, h: Header, pkt: P, wire: B): Ingress<P, B> {
    var s := h.seqno;
    if Bit(h.flags, FLAG_UNSEQUENCED) then Ingress(rx, true, [], [])
    else if Bit(h.flags, FLAG_UNORDERED) then Ingress(rx.(lastAck := s), true, [], [AckReply(s)])
    else if s < rx.expectedSeq then
      var last := if rx.expectedSeq > 0 then rx.expectedSeq - 1 else 0;
      Ingress(rx.(lastAck := last), false, [], [AckReply(last)])
    else if s > rx.expectedSeq then
      var kept := if |rx.buffered| < cfg.maxPending && s !in rx.buffered
                  then rx.(buffered := rx.buffered[s := Buffered(pkt, wire)]) else rx;
      Ingress(kept, false, [], [PartialAckReply(s), RequestReply(rx.expectedSeq)])
    else
      var d := Drain(rx.(expectedSeq := NextSeq(rx.expectedSeq), lastAck := s));
      Ingress(d.rx, true, d.out, [AckReply(d.rx.lastAck)])
  }

  // ---------------------------------------------------------------- receiver invariants

  /** Holds in every state, also across the wrap of the sequence numbers. */
  ghost predicate RxInv<P, B>(cfg: Config, rx: RxState<P, B>) {
    && rx.expectedSeq != 0
    && |rx.buffered| <= cfg.maxPending
    && forall k :: k in rx.buffered ==> k > rx.expectedSeq
  }

  /** Draining from a window whose keys are not below the expected number restores the
      strict bound; a drain that wraps ends with an empty buffer. */
  lemma {:induction false} DrainInv<P, B>(rx: RxState<P, B>)
    requires rx.expectedSeq != 0
    requires forall k :: k in rx.buffered ==> k >= rx.expectedSeq
    ensures var d := Drain(rx);
            && d.rx.expectedSeq != 0
            && |d.rx.buffered| <= |rx.buffered|
            && (forall k :: k in d.rx.buffered ==> k in rx.buffered && k > d.rx.expectedSeq)
            && d.rx.expectedSeq !in d.rx.buffered
            && (d.rx.expectedSeq < rx.expectedSeq ==> d.rx.buffered == map[] && d.rx.expectedSeq == 1)
    decreases |rx.buffered|
  {
    var s := rx.expectedSeq;
    if s in rx.buffered {
      assert (rx.buffered - {s}).Keys == rx.buffered.Keys - {s};
      var rest := RxState(NextSeq(s), s, rx.buffered - {s});
      if s == TWO32 - 1 {
        assert rest.buffered.Keys == {} by {
          forall k | k in rest.buffered ensures false {}
        }
        assert rest.buffered == map[];
      } else {
        DrainInv(rest);
      }
    }
  }

  lemma AcceptKeepsRxInv<P, B>(cfg: Config, rx: RxState<P, B>, h: Header, pkt: P, wire: B)
    requires RxInv(cfg, rx)
    ensures RxInv(cfg, Accept(cfg, rx, h, pkt, wire).rx)
    ensures Accept(cfg, rx, h, pkt, wire).rx.expectedSeq < rx.expectedSeq
            ==> Accept(cfg, rx, h, pkt, wire).rx.buffered == map[]
  {
    var plain := !Bit(h.flags, FLAG_UNSEQUENCED) && !Bit(h.flags, FLAG_UNORDERED);
    if plain && h.seqno == rx.expectedSeq {
      var start := rx.(expectedSeq := NextSeq(rx.expectedSeq), lastAck := h.seqno);
      if rx.expectedSeq == TWO32 - 1 {
        assert start.buffered.Keys == {} by {
          forall k | k in start.buffered ensures false {}
        }
        assert start.buffered == map[];
      }
      DrainInv(start);
    } else if plain && h.seqno > rx.expectedSeq && |rx.buffered| < cfg.maxPending && h.seqno !in rx.buffered {
      assert rx.buffered[h.seqno := Buffered(pkt, wire)].Keys == rx.buffered.Keys + {h.seqno};
    }
  }

  // ---------------------------------------------------------------- sender invariants

  ghost predicate Ascending(s: seq<uint32>) {
    s != [] ==> (forall y :: y in s[1..] ==> s[0] < y) && Ascending(s[1..])
  }

  lemma {:induction false} AscendingPairwise(s: seq<uint32>, i: nat, j: nat)
    requires Ascending(s) && i < j < |s|
    ensures s[i] < s[j]
  {
    if i == 0 { assert s[1..][j - 1] in s[1..]; } else { AscendingPairwise(s[1..], i - 1, j - 1); }
  }

  lemma {:induction false} AscendingAppend(s: seq<uint32>, x: uint32)
    requires Ascending(s) && forall y :: y in s ==> y < x
    ensures Ascending(s + [x])
  {
    if s != [] {
      forall y | y in s[1..] ensures y in s { assert s == [s[0]] + s[1..]; }
      AscendingAppend(s[1..], x);
      assert (s + [x])[1..] == s[1..] + [x];
      assert s[0] in s;
    } else {
      assert (s + [x])[1..] == [];
    }
  }

  /** The send window before the sequence numbers wrap. */
  ghost predicate TxInv<B>(cfg: Config, tx: TxState<B>) {
    && tx.nextSeq >= 1
    && Ascending(tx.sentOrder)
    && |tx.sent| <= cfg.maxPending
    && (forall k :: k in tx.sentOrder <==> k in tx.sent)
    && (forall k :: k in tx.sent ==> 1 <= k < tx.nextSeq)
  }

  lemma {:induction false} WithoutAscending(s: seq<uint32>, x: uint32)
    requires Ascending(s)
    ensures Ascending(Without(s, x))
  {
    if s != [] {
      WithoutAscending(s[1..], x);
      assert Without(s, x) == Without(s[1..], x) || Without(s, x)[1..] == Without(s[1..], x);
    }
  }

  lemma AssignKeepsTxInv<B>(cfg: Config, tx: TxState<B>, bytes: B, now: uint64, ok: bool)
    requires TxInv(cfg, tx) && |tx.sent| < cfg.maxPending && tx.nextSeq < TWO32 - 1
    ensures TxInv(cfg, Assign(tx, bytes, now, ok))
  {
    var s := tx.nextSeq;
    assert s !in tx.sent;
    assert tx.sent[s := Sent(bytes, now, 0, false, false)].Keys == tx.sent.Keys + {s};
    AscendingAppend(tx.sentOrder, s);
  }

  /** Dropping one number from the window. */
  lemma DropKeepsTxInv<B>(cfg: Config, tx: TxState<B>, s: uint32)
    requires TxInv(cfg, tx)
    ensures TxInv(cfg, tx.(sent := tx.sent - {s}, sentOrder := Without(tx.sentOrder, s)))
  {
    WithoutAscending(tx.sentOrder, s);
    assert (tx.sent - {s}).Keys == tx.sent.Keys - {s};
    assert |tx.sent.Keys - {s}| <= |tx.sent.Keys|;
  }

  /** Replacing an entry in place. */
  lemma TouchKeepsTxInv<B>(cfg: Config, tx: TxState<B>, s: uint32, e: Sent<B>)
    requires TxInv(cfg, tx) && s in tx.sent
    ensures TxInv(cfg, tx.(sent := tx.sent[s := e]))
  {}

  /** A cumulative ack removes exactly the numbers it covers and nothing else. */
  lemma {:induction false} PopAckedEffect<B>(cfg: Config, tx: TxState<B>, ack: uint32)
    requires TxInv(cfg, tx)
    ensures TxInv(cfg, PopAcked(tx, ack))
    ensures PopAcked(tx, ack).nextSeq == tx.nextSeq
    ensures PopAcked(tx, ack).sent == map k | k in tx.sent && k > ack :: tx.sent[k]
    decreases |tx.sentOrder|
  {
    var order := tx.sentOrder;
    if order != [] && order[0] <= ack {
      var front := order[0];
      var next := tx.(sent := tx.sent - {front}, sentOrder := order[1..]);
      assert order == [front] + order[1..];
      assert (tx.sent - {front}).Keys == tx.sent.Keys - {front};
      assert front !in order[1..];
      PopAckedEffect(cfg, next, ack);
    } else {
      forall k | k in tx.sent ensures k > ack {
        assert k in order && order == [order[0]] + order[1..];
      }
      assert tx.sent == map k | k in tx.sent && k > ack :: tx.sent[k];
    }
  }

  lemma AcknowledgeEffect<B>(cfg: Config, ordered: bool, tx: TxState<B>, ack: uint32)
    requires TxInv(cfg, tx)
    ensures var r := Acknowledge(ordered, tx, ack);
            && TxInv(cfg, r) && r.nextSeq == tx.nextSeq
            && (forall k :: k in r.sent ==> k in tx.sent && r.sent[k] == tx.sent[k])
            && (forall k :: k in tx.sent && k !in r.sent ==> if ordered then k <= ack else k == ack)
  {
    if ordered { PopAckedEffect(cfg, tx, ack); } else { DropKeepsTxInv(cfg, tx, ack); }
  }

  predicate Exhausted<B>(cfg: Config, e: Sent<B>, now: uint64) {
    Due(cfg, e, now) && e.retries >= cfg.maxRetries
  }

  predicate Retransmitted<B>(cfg: Config, e: Sent<B>, now: uint64, ok: bool) {
    Due(cfg, e, now) && e.retries < cfg.maxRetries && ok
  }

  function Bumped<B>(e: Sent<B>, now: uint64): Sent<B> {
    e.(lastSendMs := now, retries := Inc32(e.retries))
  }

  /** The timeout pass in closed form: every entry meets its own fate, independently of the
      order and of the other entries. */
  ghost predicate ExpiredFrom<B>(cfg: Config, tx: TxState<B>, r: TxState<B>, seqs: seq<uint32>, now: uint64,
                                 ok: uint32 -> bool)
  {
    && r.nextSeq == tx.nextSeq
    && (forall k :: k in r.sent <==> k in tx.sent && !(k in seqs && Exhausted(cfg, tx.sent[k], now)))
    && (forall k :: k in r.sent ==>
          r.sent[k] == if k in seqs && Retransmitted(cfg, tx.sent[k], now, ok(k)) then Bumped(tx.sent[k], now)
              else tx.sent[k])
  }

  lemma ExpireEffect<B>(cfg: Config, tx: TxState<B>, s: uint32, now: uint64, ok: uint32 -> bool)
    requires TxInv(cfg, tx)
    ensures TxInv(cfg, Expire(cfg, tx, s, now, ok(s)))
    ensures ExpiredFrom(cfg, tx, Expire(cfg, tx, s, now, ok(s)), [s], now, ok)
  {
    if s in tx.sent && Exhausted(cfg, tx.sent[s], now) {
      DropKeepsTxInv(cfg, tx, s);
    } else if s in tx.sent && Retransmitted(cfg, tx.sent[s], now, ok(s)) {
      TouchKeepsTxInv(cfg, tx, s, Bumped(tx.sent[s], now));
    }
  }

  lemma ExpiredCompose<B>(cfg: Config, tx: TxState<B>, mid: TxState<B>, r: TxState<B>, s: uint32, rest: seq<uint32>,
                          now: uint64, ok: uint32 -> bool)
    requires s !in rest
    requires ExpiredFrom(cfg, tx, mid, [s], now, ok) && ExpiredFrom(cfg, mid, r, rest, now, ok)
    ensures ExpiredFrom(cfg, tx, r, [s] + rest, now, ok)
  {}

  lemma {:induction false} ExpireAllEffect<B>(cfg: Config, tx: TxState<B>, seqs: seq<uint32>, now: uint64,
                                              ok: uint32 -> bool)
    requires TxInv(cfg, tx) && Ascending(seqs)
    ensures TxInv(cfg, ExpireAll(cfg, tx, seqs, now, ok))
    ensures ExpiredFrom(cfg, tx, ExpireAll(cfg, tx, seqs, now, ok), seqs, now, ok)
    decreases |seqs|
  {
    if seqs != [] {
      var s, rest := seqs[0], seqs[1..];
      var mid := Expire(cfg, tx, s, now, ok(s));
      ExpireEffect(cfg, tx, s, now, ok);
      ExpireAllEffect(cfg, mid, rest, now, ok);
      ExpiredCompose(cfg, tx, mid, ExpireAll(cfg, mid, rest, now, ok), s, rest, now, ok);
      assert seqs == [s] + rest;
    }
  }
}
