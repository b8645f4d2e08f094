/** The link protocol over real v4 frames: the codec assumed by LinkProtocol is the one the
    frame functions and the control dispatch implement, so its theorems speak about byte strings on
    the wire. */
module WireLink {
  import opened Bytes
  import opened Packets
  import opened Schema
  import opened Sorting
  import opened EndpointBitmap
  import opened Frames
  import opened FrameProofs
  import opened ReliableStreams
  import opened LinkModel
  import opened LinkInvariant
  import opened LinkProtocol
  import opened LinkSteps
  import opened LinkLimits

  // ---------------------------------------------------------------- the receiving side

  /** is_end_to_end_ack_sender: "E2EACK", or "E2EACK:" and a name. */
  predicate EndToEndSender(sender: bytestring) { sender == E2E_PREFIX[..6] || E2E_PREFIX <= sender }

  /** The local type a control packet speaks of: an unknown number stands for itself. */
  function Resolved(sc: Schema, w: uint32): nat {
    match LocalTypeId(sc, w) case Some(ty) => ty case None => w
  }

  /** The control branch of router_receive_impl and relay_receive_impl, as far as it concerns the
      stream of type `ty`. An end-to-end ack known by its sender goes to a table of its own. */
  function Dispatch(sc: Schema, ty: nat, p: Packet): Arrival<Packet> {
    if p.ty == DT_RELIABLE_ACK && EndToEndSender(p.sender) && |p.payload| == 8 then Rejected
    else if |p.payload| != 8 || Resolved(sc, FromLe32(p.payload[..4])) != ty then Rejected
    else
      var n := FromLe32(p.payload[4..]);
      if p.ty == DT_RELIABLE_ACK then Acked(n)
      else if p.ty == DT_RELIABLE_PARTIAL_ACK then PartialAcked(n)
      else if p.ty == DT_RELIABLE_PACKET_REQUEST then Requested(n)
      else Rejected
  }

  /** An arriving frame is peeked; ack-only frames go to the window, frames with a reliable header to
      the deserializer and ingress, the others to the deserializer and the dispatch. Frames of other
      types belong to other streams. */
  function Arrive(env: Env, ty: nat, bytes: bytestring): Arrival<Packet> {
    match Peek(env, bytes, true)
    case Parsed(FrameInfo(envelope, Some(h))) =>
      if envelope.ty != ty then Rejected
      else if Bit(h.flags, FLAG_ACK_ONLY) then Acked(h.ack)
      else (match Deserialize(env, bytes) case Parsed(p) => Sequenced(h, p) case _ => Rejected)
    case Parsed(FrameInfo(_, None)) =>
      (match Deserialize(env, bytes) case Parsed(p) => Dispatch(env.schema, ty, p) case _ => Rejected)
    case _ => Rejected
  }

  // ---------------------------------------------------------------- the sending side

  /** append_le<uint64_t> */
  function Le64(x: uint64): bytestring { Le32(x % TWO32) + Le32(x / TWO32) }

  /** make_e2e_reliable_ack_packet, from a node named `acker`. */
  function EndToEndPacket(sc: Schema, id: uint64, ts: uint64, acker: bytestring): Packet {
    var eps := if DT_RELIABLE_ACK < |sc.types| then sc.types[DT_RELIABLE_ACK].endpoints else [];
    Packet(DT_RELIABLE_ACK, E2E_PREFIX + acker, eps, ts, Le64(id))
  }

  /** The packet a control message travels in. */
  function PacketOf(sc: Schema, ty: nat, acker: bytestring, m: Message): Packet {
    match m
    case LinkAck(n, at) => ControlPacket(sc, DT_RELIABLE_ACK, ty, n, at, acker)
    case PartialAck(n, at) => ControlPacket(sc, DT_RELIABLE_PARTIAL_ACK, ty, n, at, acker)
    case Request(n, at) => ControlPacket(sc, DT_RELIABLE_PACKET_REQUEST, ty, n, at, acker)
    case EndToEndAck(id, at) => EndToEndPacket(sc, id, at, acker)
  }

  /** The wire of one stream of type `ty`, acknowledged by a node named `acker`. */
  ghost function WireCodec(env: Env, ty: nat, acker: bytestring): Codec<Packet, bytestring> {
    Codec((p: Packet) => p.ty == ty && |p.payload| < TWO64,
          (p: Packet) => Seen(env, p),
          (p: Packet, h: Header) => SerializeReliable(env, p, h),
          (m: Message) => SerializePacket(env, PacketOf(env.schema, ty, acker, m)),
          (b: bytestring) => Arrive(env, ty, b),
          (w: uint32) => Resolved(env.schema, w) == ty)
  }

  /** Types whose packets run in a reliable stream. */
  ghost predicate DataStream(env: Env, ty: nat) {
    RuntimeType(env.schema, ty) && ty < TWO32 && HasReliableHeader(env.schema, ty) && Lossless(env)
  }

  /** Streams acknowledged by a node whose name is not marked as an end-to-end one. */
  ghost predicate LinkStream(env: Env, ty: nat, acker: bytestring) { DataStream(env, ty) && !(E2E_PREFIX <= acker) }

  /** The control types sit in their slots, as the built-in schema puts them, and the endpoints their
      packets list can be counted. */
  predicate ControlTypes(sc: Schema) {
    && |sc.types| >= 4
    && sc.types[DT_RELIABLE_ACK].name == ReliableAck
    && sc.types[DT_RELIABLE_PACKET_REQUEST].name == ReliablePacketRequest
    && sc.types[DT_RELIABLE_PARTIAL_ACK].name == ReliablePartialAck
    && RuntimeType(sc, DT_RELIABLE_ACK) && CountKept(sc, sc.types[DT_RELIABLE_ACK].endpoints)
    && RuntimeType(sc, DT_RELIABLE_PACKET_REQUEST) && CountKept(sc, ControlEndpoints(sc, DT_RELIABLE_PACKET_REQUEST))
    && RuntimeType(sc, DT_RELIABLE_PARTIAL_ACK) && CountKept(sc, ControlEndpoints(sc, DT_RELIABLE_PARTIAL_ACK))
  }

  /** One ordered user type behind the control types. */
  function ExampleSchema(): Schema {
    Schema([TypeInfo(TelemetryError, Unreliable, false, []), TypeInfo(ReliableAck, Unreliable, false, []),
            TypeInfo(ReliablePacketRequest, Unreliable, false, []), TypeInfo(ReliablePartialAck, Unreliable, false, []),
            TypeInfo(UserType("A"), ReliableMode.Ordered, false, [])], [])
  }

  lemma ExampleSlots()
    ensures var types := ExampleSchema().types;
            && FindType(types, ReliableAck, 0) == Some(1)
            && FindType(types, ReliablePacketRequest, 0) == Some(2)
            && FindType(types, ReliablePartialAck, 0) == Some(3)
  {
    var types := ExampleSchema().types;
    assert FindType(types, ReliableAck, 1) == Some(1);
    assert FindType(types, ReliablePacketRequest, 1) == FindType(types, ReliablePacketRequest, 2) == Some(2);
    assert FindType(types, ReliablePartialAck, 2) == FindType(types, ReliablePartialAck, 3) == Some(3);
    assert FindType(types, ReliablePartialAck, 1) == FindType(types, ReliablePartialAck, 2);
  }

  /** A reliable type, and the control types in place. */
  predicate Example(sc: Schema, ty: nat) {
    ControlTypes(sc) && RuntimeType(sc, ty) && ty < TWO32 && HasReliableHeader(sc, ty)
  }

  lemma ExampleHolds()
    ensures Example(ExampleSchema(), 4)
  {
    ExampleSlots();
    NoEndpointsKept(ExampleSchema());
  }

  /** A stream on a node with the built-in control types. */
  ghost predicate Usable(env: Env, ty: nat, acker: bytestring)
  {
    LinkStream(env, ty, acker) && ControlTypes(env.schema)
  }

  /** Nothing is ever compressed. */
  function PlainEnv(sc: Schema): (env: Env)
    ensures env.schema == sc && forall d: bytestring :: (env.compress)(d) == None
  {
    Env(sc, (_: bytestring) => None, (b: bytestring, _: nat) => b, (_: bytestring) => 0, (_: bytestring) => 0)
  }

  /** Such streams exist, sent uncompressed. */
  lemma SomeLinkStream() returns (env: Env, ty: nat, acker: bytestring)
    ensures Usable(env, ty, acker)
  {
    ExampleHolds();
    env, ty, acker := PlainEnv(ExampleSchema()), 4, [];
    ExampleUsable(env, ty);
  }

  lemma ExampleUsable(env: Env, ty: nat)
    requires Example(env.schema, ty) && forall d: bytestring :: (env.compress)(d) == None
    ensures Usable(env, ty, [])
  {}

  lemma NoEndpointsKept(sc: Schema)
    ensures CountKept(sc, [])
  {
    BitmapRoundTrip(sc, []);
    assert SortInts([]) == [];
  }

  // ---------------------------------------------------------------- data frames

  lemma DataArrival(env: Env, p: Packet, h: Header)
    requires DataStream(env, p.ty) && |p.payload| < TWO64 && SentHeader(h)
    ensures Arrive(env, p.ty, SerializeReliable(env, p, h))
            == if CountKept(env.schema, p.endpoints) then Sequenced(h, Seen(env, p)) else Rejected
  {
    NoFlags();
    ReliableFrameSeen(env, p, h);
    if CountKept(env.schema, p.endpoints) {
      var q := Seen(env, p);
      PacketArrives(env, SerializeReliable(env, p, h), Envelope(q.ty, q.endpoints, q.sender, q.timestamp), h, q);
    }
  }

  lemma PacketArrives(env: Env, bytes: bytestring, e: Envelope, h: Header, q: Packet)
    requires Peek(env, bytes, true) == Parsed(FrameInfo(e, Some(h))) && Deserialize(env, bytes) == Parsed(q)
    requires !Bit(h.flags, FLAG_ACK_ONLY)
    ensures Arrive(env, e.ty, bytes) == Sequenced(h, q)
  {}

  /** v4 data frames are read as sent or not at all. */
  lemma WireFaithful(env: Env, ty: nat, acker: bytestring)
    requires DataStream(env, ty)
    ensures Faithful(WireCodec(env, ty, acker))
  {
    var c := WireCodec(env, ty, acker);
    forall p: Packet, h: Header | (c.carries)(p) && SentHeader(h)
      ensures (c.decode)((c.encode)(p, h)) == Rejected || (c.decode)((c.encode)(p, h)) == Sequenced(h, (c.canon)(p))
    {
      DataArrival(env, p, h);
    }
  }

  /** A frame with a wrong checksum does not reach any stream. */
  lemma WrongChecksumRejected(env: Env, ty: nat, bytes: bytestring)
    requires |bytes| >= 6 && (env.crc)(bytes[..|bytes| - 4]) != FromLe32(bytes[|bytes| - 4..])
    ensures Arrive(env, ty, bytes) == Rejected
  {
    WrongChecksum(env, bytes);
  }

  // ---------------------------------------------------------------- control frames

  lemma AckArrival(env: Env, ty: nat, acker: bytestring, n: uint32, ts: uint64)
    requires LinkStream(env, ty, acker)
    ensures Arrive(env, ty, SerializePacket(env, ControlPacket(env.schema, DT_RELIABLE_ACK, ty, n, ts, acker)))
        == Acked(n)
  {
    NoFlags();
    QueuedAckRoundTrip(env, acker, ty, ts, n);
  }

  lemma WireAckFaithful(env: Env, ty: nat, acker: bytestring)
    requires LinkStream(env, ty, acker)
    ensures AckFaithful(WireCodec(env, ty, acker))
  {
    var c := WireCodec(env, ty, acker);
    forall n: uint32, at: uint64 ensures (c.decode)((c.control)(LinkAck(n, at))) == Acked(n) {
      AckArrival(env, ty, acker, n, at);
    }
  }

  /** No frame on the wire yields the sender of an end-to-end ack: a reader knows senders by their
      address only. */
  lemma SenderIsAddress(env: Env, bytes: bytestring)
    requires Deserialize(env, bytes).Parsed?
    ensures !EndToEndSender(Deserialize(env, bytes).value.sender)
  {
    var sender := Deserialize(env, bytes).value.sender;
    assert exists a: nat :: sender == AddressName(a);
    assert sender[0] == 64;
  }

  /** What a control packet of type `dt` says to the stream it names. */
  function Said(dt: nat, n: uint32): Arrival<Packet> {
    if dt == DT_RELIABLE_ACK then Acked(n)
    else if dt == DT_RELIABLE_PARTIAL_ACK then PartialAcked(n)
    else if dt == DT_RELIABLE_PACKET_REQUEST then Requested(n)
    else Rejected
  }

  lemma DispatchWords(sc: Schema, ty: nat, p: Packet, w: uint32, n: uint32)
    requires p.payload == Le32(w) + Le32(n) && !EndToEndSender(p.sender)
    ensures Dispatch(sc, ty, p) == if Resolved(sc, w) == ty then Said(p.ty, n) else Rejected
  {
    WordPair(w, n);
  }

  lemma PlainArrives(env: Env, ty: nat, bytes: bytestring, e: Envelope, q: Packet)
    requires Peek(env, bytes, true) == Parsed(FrameInfo(e, None)) && Deserialize(env, bytes) == Parsed(q)
    ensures Arrive(env, ty, bytes) == Dispatch(env.schema, ty, q)
  {}

  /** A control packet of two words, as its receiver dispatches it. */
  lemma WordsArrive(env: Env, ty: nat, p: Packet, w: uint32, n: uint32)
    requires Writable(env, p) && !HasReliableHeader(env.schema, p.ty) && !IsLinkAck(p) && Lossless(env)
    requires CountKept(env.schema, p.endpoints) && p.payload == Le32(w) + Le32(n)
    ensures Arrive(env, ty, SerializePacket(env, p))
            == if Resolved(env.schema, w) == ty then Said(p.ty, n) else Rejected
  {
    var q, bytes := Seen(env, p), SerializePacket(env, p);
    PlainFrameSeen(env, p);
    SenderIsAddress(env, bytes);
    PlainArrives(env, ty, bytes, Envelope(q.ty, q.endpoints, q.sender, q.timestamp), q);
    DispatchWords(env.schema, ty, q, w, n);
  }

  lemma StreamControl(env: Env, ty: nat, acker: bytestring, dt: nat, n: uint32, at: uint64)
    requires DataStream(env, ty) && ControlTypes(env.schema)
    requires dt == DT_RELIABLE_PARTIAL_ACK || dt == DT_RELIABLE_PACKET_REQUEST
    ensures Arrive(env, ty, SerializePacket(env, ControlPacket(env.schema, dt, ty, n, at, acker)))
            == if dt == DT_RELIABLE_PARTIAL_ACK then PartialAcked(n) else Requested(n)
  {
    WireTypeBack(env.schema, ty);
    var w := WireTypeId(env.schema, ty);
    ControlPayload(env.schema, dt, ty, w, n, at, acker);
    WordsArrive(env, ty, ControlPacket(env.schema, dt, ty, n, at, acker), w, n);
  }

  /** An end-to-end ack is dispatched as a link ack: low word the type, high word the number. */
  lemma EndToEndArrival(env: Env, ty: nat, acker: bytestring, id: uint64, at: uint64)
    requires DataStream(env, ty) && ControlTypes(env.schema)
    ensures Arrive(env, ty, SerializePacket(env, EndToEndPacket(env.schema, id, at, acker)))
            == if Resolved(env.schema, id % TWO32) == ty then Acked(id / TWO32) else Rejected
  {
    var p := EndToEndPacket(env.schema, id, at, acker);
    assert E2E_PREFIX <= p.sender;
    WordsArrive(env, ty, p, id % TWO32, id / TWO32);
  }

  lemma MessageArrives(env: Env, ty: nat, acker: bytestring, m: Message)
    requires Usable(env, ty, acker)
    ensures Arrive(env, ty, SerializePacket(env, PacketOf(env.schema, ty, acker, m)))
            == match m
               case LinkAck(n, _) => Acked(n)
               case PartialAck(n, _) => PartialAcked(n)
               case Request(n, _) => Requested(n)
               case EndToEndAck(id, _) => if Resolved(env.schema, id % TWO32) == ty then Acked(id / TWO32) else Rejected
  {
    match m
    case LinkAck(n, at) => AckArrival(env, ty, acker, n, at);
    case PartialAck(n, at) => StreamControl(env, ty, acker, DT_RELIABLE_PARTIAL_ACK, n, at);
    case Request(n, at) => StreamControl(env, ty, acker, DT_RELIABLE_PACKET_REQUEST, n, at);
    case EndToEndAck(id, at) => EndToEndArrival(env, ty, acker, id, at);
  }

  /** How v4 nodes read all control messages. */
  lemma WireControlFaithful(env: Env, ty: nat, acker: bytestring)
    requires Usable(env, ty, acker)
    ensures ControlFaithful(WireCodec(env, ty, acker))
  {
    var c := WireCodec(env, ty, acker);
    forall m: Message ensures (c.decode)((c.control)(m)) == Reading(c, m) { MessageArrives(env, ty, acker, m); }
  }

  // ---------------------------------------------------------------- other streams

  /** Data of another stream is none of this one's. */
  lemma DataApart(env: Env, ty: nat, p: Packet, h: Header)
    requires DataStream(env, p.ty) && |p.payload| < TWO64 && SentHeader(h) && p.ty != ty
    ensures Arrive(env, ty, SerializeReliable(env, p, h)) == Rejected
  {
    NoFlags();
    ReliableFrameSeen(env, p, h);
  }

  lemma AckApart(env: Env, ty: nat, other: nat, acker: bytestring, n: uint32, at: uint64)
    requires LinkStream(env, other, acker) && other != ty
    ensures Arrive(env, ty, SerializePacket(env, ControlPacket(env.schema, DT_RELIABLE_ACK, other, n, at, acker)))
            == Rejected
  {
    QueuedAckRoundTrip(env, acker, other, at, n);
  }

  lemma ControlApart(env: Env, ty: nat, other: nat, acker: bytestring, dt: nat, n: uint32, at: uint64)
    requires DataStream(env, other) && ControlTypes(env.schema) && other != ty
    requires dt == DT_RELIABLE_PARTIAL_ACK || dt == DT_RELIABLE_PACKET_REQUEST
    ensures Arrive(env, ty, SerializePacket(env, ControlPacket(env.schema, dt, other, n, at, acker))) == Rejected
  {
    WireTypeBack(env.schema, other);
    var w := WireTypeId(env.schema, other);
    ControlPayload(env.schema, dt, other, w, n, at, acker);
    WordsArrive(env, ty, ControlPacket(env.schema, dt, other, n, at, acker), w, n);
  }

  /** Streams of different types are independent: nothing the peer says about one reaches the other's
      window, end-to-end acks aside. */
  lemma StreamsApart(env: Env, ty: nat, other: nat, acker: bytestring, m: Message)
    requires Usable(env, other, acker) && other != ty && !m.EndToEndAck?
    ensures Arrive(env, ty, SerializePacket(env, PacketOf(env.schema, other, acker, m))) == Rejected
  {
    match m
    case LinkAck(n, at) => AckApart(env, ty, other, acker, n, at);
    case PartialAck(n, at) => ControlApart(env, ty, other, acker, DT_RELIABLE_PARTIAL_ACK, n, at);
    case Request(n, at) => ControlApart(env, ty, other, acker, DT_RELIABLE_PACKET_REQUEST, n, at);
  }

  // ---------------------------------------------------------------- the theorems over bytes

  /** Ordered delivery over bytes: in every run of two nodes exchanging v4 frames over the
      network, before the sequence numbers wrap, the packets ingress hands on are those
      numbered 1 .. expectedSeq - 1, in order and each once, as the wire carries them. */
  lemma OrderedDeliveryOnWire(
    env: Env, ty: nat, acker: bytestring, cfg: Config, events: seq<Event<Packet, bytestring>>)
    requires DataStream(env, ty) && Unwrapped(Run(cfg, WireCodec(env, ty, acker), true, events))
    ensures var s := Run(cfg, WireCodec(env, ty, acker), true, events);
            && |s.released| == s.rx.expectedSeq - 1 <= |s.numbered|
            && forall i :: 0 <= i < |s.released| ==>
                 && s.released[i].seqno == i + 1
                 && s.released[i].pkt == Seen(env, s.numbered[i])
                 && s.released[i].wire == SerializeReliable(env, s.numbered[i], Header(0, i + 1, 0))
  {
    WireFaithful(env, ty, acker);
    OrderedDelivery(cfg, WireCodec(env, ty, acker), events);
  }

  /** Partial acks over bytes: each one on the way back names a packet whose serialized frame arrived at that instant,
      while an earlier one was missing; the packet is buffered, handed on, or was refused by a full buffer. */
  lemma PartialAckTruthOnWire(env: Env, ty: nat, acker: bytestring, cfg: Config,
                              events: seq<Event<Packet, bytestring>>, n: uint32, at: uint64) returns (i: nat)
    requires DataStream(env, ty) && Unwrapped(Run(cfg, WireCodec(env, ty, acker), true, events))
    requires PartialAck(n, at) in Run(cfg, WireCodec(env, ty, acker), true, events).back
    ensures i < |events|
    ensures var s := Run(cfg, WireCodec(env, ty, acker), true, events[..i]);
            var t := Run(cfg, WireCodec(env, ty, acker), true, events);
            && 1 <= n <= |t.numbered| && s.rx.expectedSeq < n
            && events[i] == DataArrives(SerializeReliable(env, t.numbered[n - 1], Header(0, n, 0)), at)
            && (n in t.rx.buffered || n < t.rx.expectedSeq
                || (n !in s.rx.buffered && |s.rx.buffered| >= cfg.maxPending))
  {
    WireFaithful(env, ty, acker);
    i := PartialAckTruth(cfg, WireCodec(env, ty, acker), events, n, at);
  }

  /** Packet k was numbered and ingress has handed on what the wire carries of it. */
  ghost predicate HandedOn(env: Env, s: Link<Packet, bytestring>, k: uint32) {
    1 <= k <= |s.numbered| &&
    exists i :: 0 <= i < |s.released| && s.released[i].seqno == k && s.released[i].pkt == Seen(env, s.numbered[k - 1])
  }

  /** Ack soundness over bytes: a link ack read off the wire removes only packets the peer has
      already handed on. */
  lemma AckSoundnessOnWire(
    env: Env, ty: nat, acker: bytestring, cfg: Config, ordered: bool, c: Codec<Packet, bytestring>,
    events: seq<Event<Packet, bytestring>>, m: Message, now: uint64, k: uint32)
    requires LinkStream(env, ty, acker) && c == WireCodec(env, ty, acker) && Unwrapped(Run(cfg, c, ordered, events))
    requires m.LinkAck? && k in Run(cfg, c, ordered, events).tx.sent
    requires k !in BackStep(c, ordered, Run(cfg, c, ordered, events), m, now).tx.sent
    ensures HandedOn(env, Run(cfg, c, ordered, events), k)
  {
    WireFaithful(env, ty, acker);
    WireAckFaithful(env, ty, acker);
    AckSoundness(cfg, c, ordered, events, m, now, k);
    var s := Run(cfg, c, ordered, events);
    var i :| 0 <= i < |s.released| && s.released[i].seqno == k && Genuine(c, ordered, s.numbered, s.released[i]);
  }

  /** An end-to-end ack that is taken for a link ack of packet k. */
  predicate Misread(sc: Schema, ty: nat, ordered: bool, m: Message, k: uint32) {
    m.EndToEndAck? && Resolved(sc, m.id % TWO32) == ty && Takes(ordered, m.id / TWO32, k)
  }

  /** Over bytes, exactly an end-to-end ack whose low word resolves to the stream's type and whose
      high word takes the packet removes one that was not handed on. */
  lemma AckExactOnWire(
    env: Env, ty: nat, acker: bytestring, cfg: Config, ordered: bool, c: Codec<Packet, bytestring>,
    events: seq<Event<Packet, bytestring>>, m: Message, now: uint64, k: uint32)
    requires Usable(env, ty, acker) && c == WireCodec(env, ty, acker)
    requires Unwrapped(Run(cfg, c, ordered, events)) && m in Run(cfg, c, ordered, events).back
    requires k in Run(cfg, c, ordered, events).tx.sent && !Released(Run(cfg, c, ordered, events).released, k)
    ensures k !in BackStep(c, ordered, Run(cfg, c, ordered, events), m, now).tx.sent <==>
        Misread(env.schema, ty, ordered, m, k)
  {
    WireFaithful(env, ty, acker);
    WireControlFaithful(env, ty, acker);
    AckExact(cfg, c, ordered, events, m, now, k);
  }

  /** Over bytes, a run in which it happens: the id is 1 above the stream's type on the wire. */
  lemma EndToEndMisreadOnWire(env: Env, ty: nat, acker: bytestring, cfg: Config, ordered: bool, p: Packet)
    returns (events: seq<Event<Packet, bytestring>>, m: Message)
    requires Usable(env, ty, acker)
    requires p.ty == ty && |p.payload| < TWO64 && cfg.maxPending >= 1
    ensures var c := WireCodec(env, ty, acker);
            var s := Run(cfg, c, ordered, events);
            m in s.back && s.tx.sentOrder == [1] && s.numbered == [p] && s.released == []
            && BackStep(c, ordered, s, m, 0).tx == TxState(2, [], map[])
  {
    WireControlFaithful(env, ty, acker);
    WireTypeBack(env.schema, ty);
    events, m := EndToEndMisread(cfg, WireCodec(env, ty, acker), ordered, p, WireTypeId(env.schema, ty));
  }

  lemma WireReadable(env: Env, ty: nat, acker: bytestring, p: Packet)
    requires DataStream(env, ty) && p.ty == ty && |p.payload| < TWO64 && CountKept(env.schema, p.endpoints)
    ensures Readable(WireCodec(env, ty, acker), p)
  {
    var c := WireCodec(env, ty, acker);
    forall h: Header | SentHeader(h) ensures (c.decode)((c.encode)(p, h)) == Sequenced(h, (c.canon)(p)) {
      DataArrival(env, p, h);
    }
  }

  /** The exact reach of the retry bound over bytes. */
  lemma RetryBoundOnWire(
    env: Env, ty: nat, acker: bytestring, cfg: Config, ordered: bool, orderly: bool, p: Packet, n: nat)
    requires Usable(env, ty, acker) && p.ty == ty && |p.payload| < TWO64 && CountKept(env.schema, p.endpoints)
    ensures KeepsBound(cfg, WireCodec(env, ty, acker), ordered, orderly, n) <==>
              n + cfg.maxRetries < TWO32 || !ordered || cfg.maxPending < 2 || cfg.maxRetries == 0
  {
    WireFaithful(env, ty, acker);
    WireControlFaithful(env, ty, acker);
    WireReadable(env, ty, acker, p);
    RetryBoundExact(cfg, WireCodec(env, ty, acker), ordered, orderly, p, n);
  }

  /** The exact reach of ordered delivery over bytes. */
  lemma DeliveryExactOnWire(env: Env, ty: nat, acker: bytestring, cfg: Config, p: Packet, n: nat)
    requires LinkStream(env, ty, acker) && p.ty == ty && |p.payload| < TWO64 && CountKept(env.schema, p.endpoints)
    requires cfg.maxPending >= 1
    ensures DeliversInOrder(cfg, WireCodec(env, ty, acker), n) <==> n < TWO32 - 1
  {
    WireFaithful(env, ty, acker);
    WireAckFaithful(env, ty, acker);
    WireReadable(env, ty, acker, p);
    DeliveryExact(cfg, WireCodec(env, ty, acker), p, n);
  }
}
