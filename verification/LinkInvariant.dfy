/** What every step of the link protocol keeps: the window holds the frames first sent, the network
    holds nothing else, acks speak of released packets, and what is released or buffered is genuine. */
module LinkInvariant {
  import opened Bytes
  import opened Packets
  import opened ReliableStreams
  import opened LinkModel

  /** What ingress must hand on under number k. */
  ghost function Expected<P, B>(c: Codec<P, B>, ordered: bool, numbered: seq<P>, k: uint32): Release<P, B>
    requires 1 <= k <= |numbered|
  {
    Release(k, (c.canon)(numbered[k - 1]), FrameOf(c, ordered, numbered, k))
  }

  ghost predicate Genuine<P, B>(c: Codec<P, B>, ordered: bool, numbered: seq<P>, r: Release<P, B>) {
    1 <= r.seqno <= |numbered| && r == Expected(c, ordered, numbered, r.seqno)
  }

  /** Sequence number n has been handed on. */
  ghost predicate Released<P, B>(released: seq<Release<P, B>>, n: uint32) {
    exists i :: 0 <= i < |released| && released[i].seqno == n
  }

  /** An ack numbered n speaks only of released packets. */
  ghost predicate Covered<P, B>(ordered: bool, released: seq<Release<P, B>>, n: uint32) {
    if ordered then n <= |released| else Released(released, n)
  }

  ghost predicate TxPart<P, B>(cfg: Config, c: Codec<P, B>, ordered: bool, numbered: seq<P>, tx: TxState<B>) {
    && TxInv(cfg, tx)
    && tx.nextSeq == |numbered| + 1
    && (forall i :: 0 <= i < |numbered| ==> (c.carries)(numbered[i]))
    && (forall k :: k in tx.sent ==> tx.sent[k].bytes == FrameOf(c, ordered, numbered, k))
  }

  ghost predicate DataPart<P, B>(c: Codec<P, B>, ordered: bool, numbered: seq<P>, data: set<B>) {
    forall b :: b in data ==> exists k: uint32 :: 1 <= k <= |numbered| && b == FrameOf(c, ordered, numbered, k)
  }

  ghost predicate AckPart<P, B>(ordered: bool, released: seq<Release<P, B>>, back: set<Message>) {
    forall m :: m in back && m.LinkAck? ==> Covered(ordered, released, m.seqno)
  }

  ghost predicate BufferGenuine<P, B>(c: Codec<P, B>, ordered: bool, numbered: seq<P>, rx: RxState<P, B>) {
    forall k :: k in rx.buffered ==>
      Genuine(c, ordered, numbered, Release(k, rx.buffered[k].pkt, rx.buffered[k].wire))
  }

  ghost predicate RxPart<P, B>(
    cfg: Config, c: Codec<P, B>, ordered: bool, numbered: seq<P>, rx: RxState<P, B>, released: seq<Release<P, B>>)
  {
    && RxInv(cfg, rx)
    && BufferGenuine(c, ordered, numbered, rx)
    && (forall i :: 0 <= i < |released| ==> Genuine(c, ordered, numbered, released[i]))
    && (ordered ==> rx.expectedSeq == |released| + 1 && forall i :: 0 <= i < |released| ==> released[i].seqno == i + 1)
  }

  ghost predicate Inv<P, B>(cfg: Config, c: Codec<P, B>, ordered: bool, s: Link<P, B>) {
    && TxPart(cfg, c, ordered, s.numbered, s.tx)
    && DataPart(c, ordered, s.numbered, s.data)
    && AckPart(ordered, s.released, s.back)
    && RxPart(cfg, c, ordered, s.numbered, s.rx, s.released)
  }

  /** Before the sequence numbers wrap. */
  ghost predicate Unwrapped<P, B>(s: Link<P, B>) { |s.numbered| < TWO32 - 1 }

  // ---------------------------------------------------------------- sending keeps the invariant

  lemma SendKeeps<P, B>(cfg: Config, c: Codec<P, B>, ordered: bool, s: Link<P, B>, p: P, now: uint64, ok: bool)
    requires Inv(cfg, c, ordered, s) && Unwrapped(SendStep(cfg, c, ordered, s, p, now, ok))
    ensures Inv(cfg, c, ordered, SendStep(cfg, c, ordered, s, p, now, ok))
  {
    if |s.tx.sent| < cfg.maxPending && (c.carries)(p) {
      WindowGrows(cfg, c, ordered, s.numbered, s.tx, p, now, ok);
      DataGrows(c, ordered, s.numbered, s.data, p);
      BufferStays(c, ordered, s.numbered, s.rx, p);
      HistoryStays(c, ordered, s.numbered, s.released, p);
    }
  }

  lemma WindowGrows<P, B>(
    cfg: Config, c: Codec<P, B>, ordered: bool, numbered: seq<P>, tx: TxState<B>, p: P, now: uint64, ok: bool)
    requires TxPart(cfg, c, ordered, numbered, tx) && |tx.sent| < cfg.maxPending && (c.carries)(p)
    requires |numbered| + 1 < TWO32 - 1
    ensures TxPart(cfg, c, ordered, numbered + [p],
                   Assign(tx, (c.encode)(p, Header(SendFlags(ordered), tx.nextSeq, 0)), now, ok))
  {
    AssignKeepsTxInv(cfg, tx, (c.encode)(p, Header(SendFlags(ordered), tx.nextSeq, 0)), now, ok);
    Extends(c, ordered, numbered, p);
  }

  lemma GenuineStays<P, B>(c: Codec<P, B>, ordered: bool, numbered: seq<P>, p: P, r: Release<P, B>)
    requires Genuine(c, ordered, numbered, r)
    ensures Genuine(c, ordered, numbered + [p], r)
  {}

  lemma HistoryStays<P, B>(c: Codec<P, B>, ordered: bool, numbered: seq<P>, released: seq<Release<P, B>>, p: P)
    requires forall i :: 0 <= i < |released| ==> Genuine(c, ordered, numbered, released[i])
    ensures forall i :: 0 <= i < |released| ==> Genuine(c, ordered, numbered + [p], released[i])
  {
    forall i | 0 <= i < |released| ensures Genuine(c, ordered, numbered + [p], released[i]) {
      GenuineStays(c, ordered, numbered, p, released[i]);
    }
  }

  lemma BufferStays<P, B>(c: Codec<P, B>, ordered: bool, numbered: seq<P>, rx: RxState<P, B>, p: P)
    requires BufferGenuine(c, ordered, numbered, rx)
    ensures BufferGenuine(c, ordered, numbered + [p], rx)
  {
    forall k | k in rx.buffered
      ensures Genuine(c, ordered, numbered + [p], Release(k, rx.buffered[k].pkt, rx.buffered[k].wire))
    {
      GenuineStays(c, ordered, numbered, p, Release(k, rx.buffered[k].pkt, rx.buffered[k].wire));
    }
  }

  /** Numbering one more packet changes nothing about the earlier ones. */
  lemma Extends<P, B>(c: Codec<P, B>, ordered: bool, numbered: seq<P>, p: P)
    ensures forall k: uint32 :: 1 <= k <= |numbered|
              ==> FrameOf(c, ordered, numbered + [p], k) == FrameOf(c, ordered, numbered, k)
                  && Expected(c, ordered, numbered + [p], k) == Expected(c, ordered, numbered, k)
  {}

  lemma DataGrows<P, B>(c: Codec<P, B>, ordered: bool, numbered: seq<P>, data: set<B>, p: P)
    requires DataPart(c, ordered, numbered, data) && |numbered| + 1 < TWO32
    ensures DataPart(c, ordered, numbered + [p], data + {(c.encode)(p, Header(SendFlags(ordered), |numbered| + 1, 0))})
  {
    var b := (c.encode)(p, Header(SendFlags(ordered), |numbered| + 1, 0));
    Extends(c, ordered, numbered, p);
    forall x | x in data + {b}
      ensures exists k: uint32 :: 1 <= k <= |numbered + [p]| && x == FrameOf(c, ordered, numbered + [p], k)
    {
      if x == b {
        assert x == FrameOf(c, ordered, numbered + [p], |numbered| + 1);
      } else {
        var k: uint32 :| 1 <= k <= |numbered| && x == FrameOf(c, ordered, numbered, k);
        assert x == FrameOf(c, ordered, numbered + [p], k);
      }
    }
  }

  // ---------------------------------------------------------------- receiving keeps the invariant

  /** Draining hands on consecutive genuine packets and stays within what was numbered. */
  lemma {:induction false} DrainGenuine<P, B>(c: Codec<P, B>, ordered: bool, numbered: seq<P>, rx: RxState<P, B>)
    requires |numbered| < TWO32 - 1 && BufferGenuine(c, ordered, numbered, rx)
    requires rx.lastAck == rx.expectedSeq - 1
    ensures var d := Drain(rx);
            && BufferGenuine(c, ordered, numbered, d.rx)
            && d.rx.expectedSeq == rx.expectedSeq + |d.out|
            && d.rx.lastAck == d.rx.expectedSeq - 1
            && forall i :: 0 <= i < |d.out| ==>
                 Genuine(c, ordered, numbered, d.out[i]) && d.out[i].seqno == rx.expectedSeq + i
    decreases |rx.buffered|
  {
    var s := rx.expectedSeq;
    if s in rx.buffered {
      assert (rx.buffered - {s}).Keys == rx.buffered.Keys - {s};
      assert Genuine(c, ordered, numbered, Release(s, rx.buffered[s].pkt, rx.buffered[s].wire));
      DrainGenuine(c, ordered, numbered, RxState(NextSeq(s), s, rx.buffered - {s}));
    }
  }

  ghost predicate Arrived<P, B>(c: Codec<P, B>, ordered: bool, numbered: seq<P>, h: Header, p: P, b: B) {
    h.flags == SendFlags(ordered) && Genuine(c, ordered, numbered, Release(h.seqno, p, b))
  }

  /** An arriving data frame is unreadable, or the frame of one numbered packet. */
  lemma DecodeData<P(!new), B>(cfg: Config, c: Codec<P, B>, ordered: bool, s: Link<P, B>, b: B)
    requires Faithful(c) && Inv(cfg, c, ordered, s) && b in s.data
    ensures var a := (c.decode)(b);
            a == Rejected || (a.Sequenced? && Arrived(c, ordered, s.numbered, a.header, a.pkt, b))
  {
    var k: uint32 :| 1 <= k <= |s.numbered| && b == FrameOf(c, ordered, s.numbered, k);
    DecodeFrame(c, ordered, s.numbered, k);
  }

  lemma DecodeFrame<P(!new), B>(c: Codec<P, B>, ordered: bool, numbered: seq<P>, k: uint32)
    requires Faithful(c) && 1 <= k <= |numbered| && (c.carries)(numbered[k - 1])
    ensures var a := (c.decode)(FrameOf(c, ordered, numbered, k));
            a == Rejected || a == Sequenced(Header(SendFlags(ordered), k, 0), (c.canon)(numbered[k - 1]))
  {}

  /** Everything one arrival does: what it hands on is genuine and next in line, and every ack
      it causes is covered. On an ordered stream that ack is always `expectedSeq - 1`. */
  ghost predicate AcceptOk<P, B>(
    cfg: Config, c: Codec<P, B>, ordered: bool, s: Link<P, B>, h: Header, p: P, b: B)
  {
    var r := Accept(cfg, s.rx, h, p, b);
    var released := s.released + (if r.deliver then [Release(h.seqno, p, b)] + r.out else []);
    && RxPart(cfg, c, ordered, s.numbered, r.rx, released)
    && (forall i :: 0 <= i < |r.replies| && r.replies[i].AckReply? ==>
          && Covered(ordered, released, r.replies[i].seqno)
          && (ordered ==> r.replies[i].seqno == r.rx.expectedSeq - 1))
  }

  lemma AcceptGenuine<P, B>(cfg: Config, c: Codec<P, B>, ordered: bool, s: Link<P, B>, h: Header, p: P, b: B)
    requires RxPart(cfg, c, ordered, s.numbered, s.rx, s.released) && Unwrapped(s)
    requires Arrived(c, ordered, s.numbered, h, p, b)
    ensures AcceptOk(cfg, c, ordered, s, h, p, b)
  {
    FlagBits();
    if !ordered {
      AcceptUnordered(cfg, c, s, h, p, b);
    } else if h.seqno == s.rx.expectedSeq {
      AcceptNext(cfg, c, s, h, p, b);
    } else {
      AcceptKeepsRxInv(cfg, s.rx, h, p, b);
    }
  }

  lemma AcceptUnordered<P, B>(cfg: Config, c: Codec<P, B>, s: Link<P, B>, h: Header, p: P, b: B)
    requires RxPart(cfg, c, false, s.numbered, s.rx, s.released) && Arrived(c, false, s.numbered, h, p, b)
    ensures AcceptOk(cfg, c, false, s, h, p, b)
  {
    FlagBits();
    var released := s.released + ([Release(h.seqno, p, b)] + []);
    assert released[|s.released|].seqno == h.seqno;
  }

  lemma AcceptNext<P, B>(cfg: Config, c: Codec<P, B>, s: Link<P, B>, h: Header, p: P, b: B)
    requires RxPart(cfg, c, true, s.numbered, s.rx, s.released) && Unwrapped(s)
    requires Arrived(c, true, s.numbered, h, p, b) && h.seqno == s.rx.expectedSeq
    ensures AcceptOk(cfg, c, true, s, h, p, b)
  {
    FlagBits();
    AcceptKeepsRxInv(cfg, s.rx, h, p, b);
    var start := s.rx.(expectedSeq := NextSeq(s.rx.expectedSeq), lastAck := h.seqno);
    DrainGenuine(c, true, s.numbered, start);
    var out := Drain(start).out;
    var released := s.released + ([Release(h.seqno, p, b)] + out);
    forall i | 0 <= i < |released| ensures Genuine(c, true, s.numbered, released[i]) && released[i].seqno == i + 1 {
      if i > |s.released| { assert released[i] == out[i - |s.released| - 1]; }
    }
  }

  lemma FlagBits()
    ensures !Bit(0, 7) && !Bit(0, 1) && !Bit(2, 7) && Bit(2, 1)
  {
    assert Bit(2, 1) == Bit(1, 0);
    assert Bit(2, 7) == Bit(1, 6) == Bit(0, 5) == Bit(0, 4) == Bit(0, 3) == Bit(0, 2) == Bit(0, 1) == Bit(0, 0);
    assert Bit(0, 7) == Bit(0, 6) == Bit(0, 5);
  }

  lemma DataKeeps<P(!new), B>(cfg: Config, c: Codec<P, B>, ordered: bool, s: Link<P, B>, b: B, now: uint64)
    requires Faithful(c) && Inv(cfg, c, ordered, s) && Unwrapped(s)
    ensures Inv(cfg, c, ordered, DataStep(cfg, c, s, b, now))
  {
    if b in s.data {
      DecodeData(cfg, c, ordered, s, b);
      if (c.decode)(b).Sequenced? {
        var h, p := (c.decode)(b).header, (c.decode)(b).pkt;
        AcceptGenuine(cfg, c, ordered, s, h, p, b);
        AcksStay(cfg, c, ordered, s, h, p, b, now);
      }
    }
  }

  lemma AcksStay<P, B>(
    cfg: Config, c: Codec<P, B>, ordered: bool, s: Link<P, B>, h: Header, p: P, b: B, now: uint64)
    requires AckPart(ordered, s.released, s.back) && b in s.data && (c.decode)(b) == Sequenced(h, p)
    requires AcceptOk(cfg, c, ordered, s, h, p, b)
    ensures var t := DataStep(cfg, c, s, b, now);
            AckPart(ordered, t.released, t.back)
  {
    var r, t := Accept(cfg, s.rx, h, p, b), DataStep(cfg, c, s, b, now);
    forall m | m in t.back && m.LinkAck? ensures Covered(ordered, t.released, m.seqno) {
      if m in s.back {
        CoveredGrows(ordered, s.released, t.released, m.seqno);
      } else {
        var i :| 0 <= i < |r.replies| && m == MessageOf(r.replies[i], now);
      }
    }
  }

  lemma CoveredGrows<P, B>(ordered: bool, a: seq<Release<P, B>>, b: seq<Release<P, B>>, n: uint32)
    requires a <= b && Covered(ordered, a, n)
    ensures Covered(ordered, b, n)
  {
    if !ordered {
      var i :| 0 <= i < |a| && a[i].seqno == n;
      assert b[i].seqno == n;
    }
  }

  // ---------------------------------------------------------------- control and time keep the invariant

  /** Whatever is read, the window keeps its invariant and its bytes. */
  lemma AnswerKeeps<P, B>(
    cfg: Config, c: Codec<P, B>, ordered: bool, numbered: seq<P>, tx: TxState<B>, a: Arrival<P>, now: uint64)
    requires TxPart(cfg, c, ordered, numbered, tx)
    ensures TxPart(cfg, c, ordered, numbered, Answer(ordered, tx, a, now))
  {
    match a
    case Acked(n) => AcknowledgeEffect(cfg, ordered, tx, n);
    case PartialAcked(n) =>
      if n in tx.sent { TouchKeepsTxInv(cfg, tx, n, MarkPartial(tx, n).sent[n]); }
    case Requested(n) =>
      if n in tx.sent { TouchKeepsTxInv(cfg, tx, n, Resend(tx, n, now).sent[n]); }
    case _ =>
  }

  lemma BackKeeps<P, B>(cfg: Config, c: Codec<P, B>, ordered: bool, s: Link<P, B>, m: Message, now: uint64)
    requires Inv(cfg, c, ordered, s)
    ensures Inv(cfg, c, ordered, BackStep(c, ordered, s, m, now))
  {
    if m in s.back { AnswerKeeps(cfg, c, ordered, s.numbered, s.tx, (c.decode)((c.control)(m)), now); }
  }

  lemma TickKeeps<P, B>(cfg: Config, c: Codec<P, B>, ordered: bool, s: Link<P, B>, now: uint64, oks: uint32 -> bool)
    requires Inv(cfg, c, ordered, s)
    ensures Inv(cfg, c, ordered, TickStep(cfg, s, now, oks))
  {
    ExpireAllEffect(cfg, s.tx, s.tx.sentOrder, now, oks);
  }

  lemma StepKeeps<P(!new), B>(cfg: Config, c: Codec<P, B>, ordered: bool, s: Link<P, B>, e: Event<P, B>)
    requires Faithful(c) && Inv(cfg, c, ordered, s) && Unwrapped(Step(cfg, c, ordered, s, e))
    ensures Inv(cfg, c, ordered, Step(cfg, c, ordered, s, e))
  {
    match e
    case Send(p, now, ok) => SendKeeps(cfg, c, ordered, s, p, now, ok);
    case DataArrives(b, now) => DataKeeps(cfg, c, ordered, s, b, now);
    case BackArrives(m, now) => BackKeeps(cfg, c, ordered, s, m, now);
    case AckEndToEnd(_, _) =>
    case Tick(now, oks) => TickKeeps(cfg, c, ordered, s, now, oks);
  }

  // ---------------------------------------------------------------- whole runs

  lemma {:induction false} RunInv<P(!new), B>(cfg: Config, c: Codec<P, B>, ordered: bool, events: seq<Event<P, B>>)
    requires Faithful(c) && Unwrapped(Run(cfg, c, ordered, events))
    ensures Inv(cfg, c, ordered, Run(cfg, c, ordered, events))
  {
    if events != [] {
      var before := events[..|events| - 1];
      RunInv(cfg, c, ordered, before);
      StepKeeps(cfg, c, ordered, Run(cfg, c, ordered, before), events[|events| - 1]);
    }
  }
}
