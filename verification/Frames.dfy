/** v4 frames: the serializers and the three readers of the format, each as its own code
    path. All multi-byte fields are little-endian; a CRC of everything before it ends a frame. */
module Frames {
  import opened Bytes
  import opened Uleb128
  import opened Packets
  import opened Schema
  import opened EndpointBitmap

  const CRC_BYTES := 4

  // bit numbers in the first byte of a frame
  const COMPRESSED := 0
  const CONTRACT := 2
  const NONCE := 3
  const BITMAP := 5
  const COMPACT := 6

  // bit numbers in a compact reliable header's first byte
  const SEQ_PRESENT := 2
  const ACK_PRESENT := 3

  /** The schema and the functions a frame depends on: the compressor (None: sent as is), the
      decompressor for an expected length ([] on failure), the checksum and the sender hash. */
  datatype Env = Env(
    schema: Schema,
    compress: bytestring -> Option<bytestring>,
    decompress: (bytestring, nat) -> bytestring,
    crc: bytestring -> uint32,
    address: bytestring -> uint32)

  /** Legacy: the frame is not v4 and belongs to the old reader. */
  datatype Parsed<+T> = Legacy | Malformed | Parsed(value: T) {
    predicate IsFailure() { !Parsed? }
    function PropagateFailure<U>(): Parsed<U>
      requires !Parsed?
    {
      if Legacy? then Legacy else Malformed
    }
    function Extract(): T
      requires Parsed?
    {
      value
    }
  }

  /** The first byte of a frame, taken apart. */
  datatype FlagSet = FlagSet(compressed: bool, contract: bool, nonce: bool, bitmapPresent: bool, compact: bool)

  function FlagsOf(b: byte): FlagSet {
    FlagSet(Bit(b, COMPRESSED), Bit(b, CONTRACT), Bit(b, NONCE), Bit(b, BITMAP), Bit(b, COMPACT))
  }

  datatype Envelope = Envelope(ty: nat, endpoints: seq<nat>, sender: bytestring, timestamp: uint64)

  datatype FrameInfo = FrameInfo(envelope: Envelope, reliable: Option<Header>)

  function Decimal(n: nat): bytestring {
    if n < 10 then [48 + n] else Decimal(n / 10) + [48 + n % 10]
  }

  /** The name a reader gives to a sender it knows by hash only: "@addr:N". */
  function AddressName(a: nat): bytestring { [64, 97, 100, 100, 114, 58] + Decimal(a) }

  /** is_v4_frame_flags: any defined bit but the compression bit, or any undefined bit. */
  predicate IsV4(flags: byte) {
    Bit(flags, 2) || Bit(flags, 3) || Bit(flags, 4) || Bit(flags, 5) || Bit(flags, 6) || Bit(flags, 1) || Bit(flags, 7)
  }

  // ---------------------------------------------------------------- reliable header

  predicate ShouldCompact(h: Header) { Bit(h.flags, FLAG_ACK_ONLY) || h.seqno == 0 || h.ack == 0 }

  predicate SeqPresent(h: Header) { !Bit(h.flags, FLAG_ACK_ONLY) || h.seqno != 0 }

  predicate AckPresent(h: Header) { h.ack != 0 || Bit(h.flags, FLAG_ACK_ONLY) }

  function CompactFlags(h: Header): byte {
    SetBitByte(h.flags, SEQ_PRESENT);
    var withSeq: byte := if SeqPresent(h) then SetBit(h.flags, SEQ_PRESENT) else h.flags;
    SetBitByte(withSeq, ACK_PRESENT);
    if AckPresent(h) then SetBit(withSeq, ACK_PRESENT) else withSeq
  }

  function HeaderBytes(h: Header, compact: bool): bytestring {
    if !compact then [h.flags] + (Le32(h.seqno) + Le32(h.ack))
    else
      var a := if SeqPresent(h) then Encode(h.seqno) else [];
      var b := if AckPresent(h) then Encode(h.ack) else [];
      [CompactFlags(h)] + (a + b)
  }

  datatype HeaderRead = NoHeader | HeaderAt(header: Header, next: nat)

  /** An optional 32-bit ULEB field: zero when absent. */
  function ReadField(body: bytestring, cur: nat, present: bool): (r: Read)
    requires cur <= |body|
    ensures r.Value? ==> r.value < TWO32 && cur <= r.next <= |body|
  {
    if !present then Value(0, cur)
    else match ReadUleb(body, cur)
      case Short => Short
      case Value(v, next) => if v > TWO32 - 1 then Short else Value(v, next)
  }

  function ReadHeader(body: bytestring, cur: nat, compact: bool): (r: HeaderRead)
    requires cur <= |body|
    ensures r.HeaderAt? ==> cur < r.next <= |body|
  {
    if cur >= |body| then NoHeader
    else if !compact then
      if |body| - (cur + 1) < 8 then NoHeader
      else HeaderAt(Header(body[cur], FromLe32(body[cur + 1..cur + 5]), FromLe32(body[cur + 5..cur + 9])), cur + 9)
    else
      var flags := body[cur];
      match ReadField(body, cur + 1, Bit(flags, SEQ_PRESENT))
      case Short => NoHeader
      case Value(s, c1) =>
        match ReadField(body, c1, Bit(flags, ACK_PRESENT))
        case Short => NoHeader
        case Value(a, c2) => HeaderAt(Header(ClearBit(ClearBit(flags, ACK_PRESENT), SEQ_PRESENT), s, a), c2)
  }

  // ---------------------------------------------------------------- writing

  function FrameBody(flags: byte, nep: byte, wireTy: nat, size: nat, ts: nat, address: nat, bm: bitmap,
                     tail: bytestring): bytestring
  {
    [flags, nep] + (Encode(wireTy) + (Encode(size) + (Encode(ts) + (Encode(address) + (bm + tail)))))
  }

  function Seal(env: Env, body: bytestring): bytestring { body + Le32((env.crc)(body)) }

  /** maybe_compress */
  function WirePayload(env: Env, payload: bytestring): bytestring {
    match (env.compress)(payload) case Some(w) => w case None => payload
  }

  function FrameFlags(env: Env, p: Packet, compact: bool): byte {
    (if (env.compress)(p.payload).Some? then 1 else 0) + 0x20 + (if compact then 0x40 else 0)
  }

  /** serialize_packet_with_reliable */
  function SerializeReliable(env: Env, p: Packet, h: Header): bytestring {
    var sc := env.schema;
    var compact := ShouldCompact(h);
    var head := if HasReliableHeader(sc, p.ty) then HeaderBytes(h, compact) else [];
    Seal(env, FrameBody(FrameFlags(env, p, compact), |p.endpoints| % 256, WireTypeId(sc, p.ty), |p.payload|,
                        p.timestamp, (env.address)(p.sender), BitmapOf(sc, p.endpoints),
                        head + WirePayload(env, p.payload)))
  }

  /** serialize_reliable_ack */
  function SerializeAck(env: Env, sender: bytestring, ty: nat, ts: uint64, ack: uint32): bytestring {
    Seal(env, FrameBody(0x60, 0, WireTypeId(env.schema, ty), 0, ts, (env.address)(sender), EMPTY,
                        HeaderBytes(Header(1, 0, ack), true)))
  }

  /** "E2EACK:" */
  const E2E_PREFIX: bytestring := [69, 50, 69, 65, 67, 75, 58]

  /** A queued link acknowledgement; an end-to-end one has the same size but a marked sender. */
  predicate IsLinkAck(p: Packet) {
    p.ty == DT_RELIABLE_ACK && |p.payload| == 8 && !(E2E_PREFIX <= p.sender)
  }

  /** serialize_packet */
  function SerializePacket(env: Env, p: Packet): bytestring {
    var sc := env.schema;
    if IsLinkAck(p) then
      var wire := FromLe32(p.payload[..4]);
      var ty := match LocalTypeId(sc, wire) case Some(t) => t case None => wire;
      SerializeAck(env, p.sender, ty, p.timestamp, FromLe32(p.payload[4..]))
    else if HasReliableHeader(sc, p.ty) then SerializeReliable(env, p, Header(0x80, 0, 0))
    else
      Seal(env, FrameBody(FrameFlags(env, p, false), |p.endpoints| % 256, WireTypeId(sc, p.ty), |p.payload|,
                          p.timestamp, (env.address)(p.sender), BitmapOf(sc, p.endpoints), WirePayload(env, p.payload)))
  }

  // ---------------------------------------------------------------- reading

  function Uleb(body: bytestring, cur: nat): (r: Parsed<(uint64, nat)>)
    requires cur <= |body|
    ensures r.Parsed? ==> cur < r.value.1 <= |body|
  {
    match ReadUleb(body, cur) case Short => Malformed case Value(v, next) => Parsed((v, next))
  }

  /** A field present only under a flag; its value is not used. */
  function SkipUleb(body: bytestring, cur: nat, present: bool): (r: Parsed<nat>)
    requires cur <= |body|
    ensures r.Parsed? ==> cur <= r.value <= |body|
  {
    if !present then Parsed(cur) else var (_, next) :- Uleb(body, cur); Parsed(next)
  }

  /** The length-prefixed contract block, present only under a flag. */
  function SkipContract(body: bytestring, cur: nat, present: bool): (r: Parsed<nat>)
    requires cur <= |body|
    ensures r.Parsed? ==> cur <= r.value <= |body|
  {
    if !present then Parsed(cur)
    else
      var (len, next) :- Uleb(body, cur);
      if |body| - next < len then Malformed else Parsed(next + len)
  }

  /** A resolved, valid local type. */
  function ResolveType(sc: Schema, wireTy: uint64): (r: Parsed<nat>)
    ensures r.Parsed? ==> ValidType(sc, r.value)
  {
    match LocalTypeId(sc, wireTy % TWO32)
    case None => Malformed
    case Some(t) => if ValidType(sc, t) then Parsed(t) else Malformed
  }

  /** maybe_decompress */
  function Inflate(env: Env, wire: bytestring, size: nat, compressed: bool): bytestring {
    if compressed then (env.decompress)(wire, size) else wire
  }

  predicate CrcHolds(env: Env, bytes: bytestring)
    requires |bytes| >= CRC_BYTES
  {
    (env.crc)(bytes[..|bytes| - CRC_BYTES]) == FromLe32(bytes[|bytes| - CRC_BYTES..])
  }

  /** deserialize_packet */
  function Deserialize(env: Env, bytes: bytestring): Parsed<Packet> {
    if |bytes| < 2 + CRC_BYTES || !CrcHolds(env, bytes) then Malformed
    else if !IsV4(bytes[0]) then Legacy
    else
      var body := bytes[..|bytes| - CRC_BYTES];
      var (wireTy, c1) :- Uleb(body, 2);
      var (size, c2) :- Uleb(body, c1);
      var (ts, c3) :- Uleb(body, c2);
      var flags := FlagsOf(body[0]);
      var c4 :- SkipUleb(body, c3, flags.nonce);
      var (source, c5) :- Uleb(body, c4);
      DeserializeRest(env, body, c5, flags, wireTy, size, ts, source)
  }

  function DeserializeRest(env: Env, body: bytestring, cur: nat, flags: FlagSet, wireTy: uint64, size: uint64,
                           ts: uint64, source: uint64): Parsed<Packet>
    requires 2 <= cur <= |body|
  {
    var sc, nep := env.schema, body[1];
    var ty :- ResolveType(sc, wireTy);
    if flags.bitmapPresent && |body| - cur < BITMAP_BYTES then Malformed
    else
      var endpoints: seq<nat> := if flags.bitmapPresent then ParseBitmap(sc, body[cur..cur + 32])
          else sc.types[ty].endpoints;
      if |endpoints| != nep then Malformed
      else
        var c7 :- SkipContract(body, if flags.bitmapPresent then cur + 32 else cur, flags.contract);
        var c8 :- SkipPacketHeader(sc, body, c7, ty, flags.compact);
        var payload := Inflate(env, body[c8..], size, flags.compressed);
        if |payload| != size then Malformed
        else Parsed(Packet(ty, AddressName(source), endpoints, ts, payload))
  }

  /** The reliable header of a packet frame; an ack-only one does not introduce a packet. */
  function SkipPacketHeader(sc: Schema, body: bytestring, cur: nat, ty: nat, compact: bool): (r: Parsed<nat>)
    requires cur <= |body|
    ensures r.Parsed? ==> cur <= r.value <= |body|
  {
    if !HasReliableHeader(sc, ty) then Parsed(cur)
    else match ReadHeader(body, cur, compact)
      case NoHeader => Malformed
      case HeaderAt(h, next) => if Bit(h.flags, FLAG_ACK_ONLY) then Malformed else Parsed(next)
  }

  /** peek_frame_info */
  function Peek(env: Env, bytes: bytestring, verifyCrc: bool): Parsed<FrameInfo> {
    if |bytes| < 2 + CRC_BYTES || (verifyCrc && !CrcHolds(env, bytes)) then Malformed
    else if !IsV4(bytes[0]) then Legacy
    else
      var body := bytes[..|bytes| - CRC_BYTES];
      var (wireTy, c1) :- Uleb(body, 2);
      var (_, c2) :- Uleb(body, c1);
      var (ts, c3) :- Uleb(body, c2);
      var flags := FlagsOf(body[0]);
      var c4 :- SkipUleb(body, c3, flags.nonce);
      var (source, c5) :- Uleb(body, c4);
      PeekRest(env.schema, body, c5, flags, wireTy, ts, source)
  }

  function PeekRest(sc: Schema, body: bytestring, cur: nat, flags: FlagSet, wireTy: uint64, ts: uint64,
                    source: uint64): Parsed<FrameInfo>
    requires 2 <= cur <= |body|
  {
    var nep := body[1];
    var ty :- ResolveType(sc, wireTy);
    if flags.bitmapPresent && |body| - cur < BITMAP_BYTES then Malformed
    else
      var endpoints: seq<nat> := if flags.bitmapPresent then ParseBitmap(sc, body[cur..cur + 32])
          else sc.types[ty].endpoints;
      if |endpoints| != nep then Malformed
      else
        var c7 :- SkipContract(body, if flags.bitmapPresent then cur + 32 else cur, flags.contract);
        var envelope := Envelope(ty, endpoints, AddressName(source), ts);
        if !HasReliableHeader(sc, ty) then Parsed(FrameInfo(envelope, None))
        else match ReadHeader(body, c7, flags.compact)
          case NoHeader => Malformed
          case HeaderAt(h, _) => Parsed(FrameInfo(envelope, Some(h)))
  }

  /** reliable_header_offset */
  function HeaderOffset(env: Env, bytes: bytestring): Parsed<nat> {
    if |bytes| < 2 + CRC_BYTES then Malformed
    else if !IsV4(bytes[0]) then Legacy
    else
      var body := bytes[..|bytes| - CRC_BYTES];
      var (wireTy, c1) :- Uleb(body, 2);
      var (_, c2) :- Uleb(body, c1);
      var (_, c3) :- Uleb(body, c2);
      var flags := FlagsOf(body[0]);
      var c4 :- SkipUleb(body, c3, flags.nonce);
      var (_, c5) :- Uleb(body, c4);
      OffsetRest(env.schema, body, c5, flags, wireTy)
  }

  function OffsetRest(sc: Schema, body: bytestring, cur: nat, flags: FlagSet, wireTy: uint64): (r: Parsed<nat>)
    requires cur <= |body|
    ensures r.Parsed? ==> r.value <= |body|
  {
    match LocalTypeId(sc, wireTy % TWO32)
    case None => Malformed
    case Some(ty) =>
      if !HasReliableHeader(sc, ty) || (flags.bitmapPresent && |body| - cur < BITMAP_BYTES) then Malformed
      else SkipContract(body, if flags.bitmapPresent then cur + 32 else cur, flags.contract)
  }
}
