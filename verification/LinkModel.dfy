/** Two nodes, one (side, type) stream between them, and a network that may lose, delay,
    duplicate and reorder frames but not alter them: a frame offered to the network may be
    delivered at any later step, any number of times or never. */
module LinkModel {
  import opened Bytes
  import opened Packets
  import opened ReliableStreams

  /** What a node makes of an arriving byte string on this stream. */
  datatype Arrival<+P> =
    | Rejected
    | Acked(seqno: uint32)
    | PartialAcked(seqno: uint32)
    | Requested(seqno: uint32)
    | Sequenced(header: Header, pkt: P)

  /** Control traffic on the way back. A link ack speaks of this stream; an end-to-end ack names a
      64-bit packet id, whatever stream the packet came on. */
  datatype Message =
    | LinkAck(seqno: uint32, at: uint64)
    | PartialAck(seqno: uint32, at: uint64)
    | Request(seqno: uint32, at: uint64)
    | EndToEndAck(id: uint64, at: uint64)

  /** The wire as the link sees it: which packets are sent on the stream, what is left of one after
      the trip, its frame, the frames of control messages, the reader, and whether the low word of a
      packet id happens to name the stream. */
  datatype Codec<!P, !B> = Codec(
    carries: P -> bool,
    canon: P -> P,
    encode: (P, Header) -> B,
    control: Message -> B,
    decode: B -> Arrival<P>,
    names: uint32 -> bool)

  /** `numbered` is the history of packets given sequence numbers 1, 2, ..; `released` the
      history of packets ingress handed on; `resends` counts successful timeout resends and `requests`
      the packet requests that reached a packet still in the window. */
  datatype Link<P, B> = Link(
    tx: TxState<B>,
    rx: RxState<P, B>,
    data: set<B>,
    back: set<Message>,
    numbered: seq<P>,
    released: seq<Release<P, B>>,
    resends: map<uint32, nat>,
    requests: nat)

  /** `ok` is the answer of the transmit callback. The receiving node may acknowledge any packet id
      end to end: it does so for packets of all its streams. */
  datatype Event<P, B> =
    | Send(pkt: P, now: uint64, ok: bool)
    | DataArrives(bytes: B, now: uint64)
    | BackArrives(message: Message, now: uint64)
    | AckEndToEnd(id: uint64, at: uint64)
    | Tick(now: uint64, oks: uint32 -> bool)

  ghost function Start<P, B>(): Link<P, B> {
    Link(InitialTx(), InitialRx(), {}, {}, [], [], map[], 0)
  }

  function SendFlags(ordered: bool): byte { if ordered then 0 else 2 }

  ghost function FrameOf<P, B>(c: Codec<P, B>, ordered: bool, numbered: seq<P>, k: uint32): B
    requires 1 <= k <= |numbered|
  {
    (c.encode)(numbered[k - 1], Header(SendFlags(ordered), k, 0))
  }

  function MessageOf(r: Reply, now: uint64): Message {
    match r
    case AckReply(s) => LinkAck(s, now)
    case PartialAckReply(s) => PartialAck(s, now)
    case RequestReply(s) => Request(s, now)
  }

  /** A packet of the stream takes the next number even if no reader will make sense of its frame. */
  ghost function SendStep<P, B>(
    cfg: Config, c: Codec<P, B>, ordered: bool, s: Link<P, B>, p: P, now: uint64, ok: bool): Link<P, B>
  {
    if |s.tx.sent| >= cfg.maxPending || !(c.carries)(p) then s
    else
      var b := (c.encode)(p, Header(SendFlags(ordered), s.tx.nextSeq, 0));
      s.(tx := Assign(s.tx, b, now, ok), data := s.data + {b}, numbered := s.numbered + [p])
  }

  ghost function DataStep<P, B>(cfg: Config, c: Codec<P, B>, s: Link<P, B>, b: B, now: uint64): Link<P, B> {
    if b !in s.data then s
    else match (c.decode)(b)
      case Sequenced(h, p) =>
        var r := Accept(cfg, s.rx, h, p, b);
        s.(rx := r.rx,
           back := s.back + set i | 0 <= i < |r.replies| :: MessageOf(r.replies[i], now),
           released := s.released + (if r.deliver then [Release(h.seqno, p, b)] + r.out else []))
      case _ => s
  }

  /** The window after an arrival. */
  function Answer<P, B>(ordered: bool, tx: TxState<B>, a: Arrival<P>, now: uint64): TxState<B> {
    match a
    case Acked(n) => Acknowledge(ordered, tx, n)
    case PartialAcked(n) => MarkPartial(tx, n)
    case Requested(n) => Resend(tx, n, now)
    case _ => tx
  }

  ghost function BackStep<P, B>(
    c: Codec<P, B>, ordered: bool, s: Link<P, B>, m: Message, now: uint64): Link<P, B>
  {
    if m !in s.back then s
    else
      var a := (c.decode)((c.control)(m));
      s.(tx := Answer(ordered, s.tx, a, now),
         requests := s.requests + if a.Requested? && a.seqno in s.tx.sent then 1 else 0)
  }

  function CountOf(m: map<uint32, nat>, k: uint32): nat { if k in m then m[k] else 0 }

  ghost function TickStep<P, B>(cfg: Config, s: Link<P, B>, now: uint64, oks: uint32 -> bool): Link<P, B> {
    var hit := set k | k in s.tx.sent && Retransmitted(cfg, s.tx.sent[k], now, oks(k));
    s.(tx := ExpireAll(cfg, s.tx, s.tx.sentOrder, now, oks),
       resends := map k | k in s.resends.Keys + hit :: CountOf(s.resends, k) + (if k in hit then 1 else 0))
  }

  ghost function Step<P, B>(
    cfg: Config, c: Codec<P, B>, ordered: bool, s: Link<P, B>, e: Event<P, B>): Link<P, B>
  {
    match e
    case Send(p, now, ok) => SendStep(cfg, c, ordered, s, p, now, ok)
    case DataArrives(b, now) => DataStep(cfg, c, s, b, now)
    case BackArrives(m, now) => BackStep(c, ordered, s, m, now)
    case AckEndToEnd(id, at) => s.(back := s.back + {EndToEndAck(id, at)})
    case Tick(now, oks) => TickStep(cfg, s, now, oks)
  }

  ghost function Run<P, B>(cfg: Config, c: Codec<P, B>, ordered: bool, events: seq<Event<P, B>>): Link<P, B> {
    if events == [] then Start()
    else Step(cfg, c, ordered, Run(cfg, c, ordered, events[..|events| - 1]), events[|events| - 1])
  }

  /** The headers the sender writes. */
  predicate SentHeader(h: Header) { (h.flags == 0 || h.flags == 2) && h.ack == 0 }

  /** Data frames are read as sent or not at all. */
  ghost predicate Faithful<P(!new), B>(c: Codec<P, B>) {
    forall p: P, h: Header :: (c.carries)(p) && SentHeader(h) ==>
      (c.decode)((c.encode)(p, h)) == Rejected || (c.decode)((c.encode)(p, h)) == Sequenced(h, (c.canon)(p))
  }

  /** Link acks are read as what they are. */
  ghost predicate AckFaithful<P, B>(c: Codec<P, B>) {
    forall n: uint32, at: uint64 :: (c.decode)((c.control)(LinkAck(n, at))) == Acked(n)
  }

  /** How every control message is read. An end-to-end ack is taken for a link ack of its high word
      if its low word names the stream, and does not concern the stream otherwise. */
  function Reading<P, B>(c: Codec<P, B>, m: Message): Arrival<P> {
    match m
    case LinkAck(n, _) => Acked(n)
    case PartialAck(n, _) => PartialAcked(n)
    case Request(n, _) => Requested(n)
    case EndToEndAck(id, _) => if (c.names)(id % TWO32) then Acked(id / TWO32) else Rejected
  }

  ghost predicate ControlFaithful<P, B>(c: Codec<P, B>) {
    forall m: Message :: (c.decode)((c.control)(m)) == Reading(c, m)
  }
}
