/** Round trips of v4 frames and agreement of the three readers. */
module FrameProofs {
  import opened Bytes
  import opened Uleb128
  import opened Packets
  import opened Schema
  import opened Sorting
  import opened EndpointBitmap
  import opened Frames

  // ---------------------------------------------------------------- reliable header

  /** Headers whose flags leave the two presence bits alone. */
  predicate PlainFlags(flags: byte) { !Bit(flags, SEQ_PRESENT) && !Bit(flags, ACK_PRESENT) }

  lemma CompactFlagsRoundTrip(h: Header)
    requires PlainFlags(h.flags)
    ensures var f := CompactFlags(h);
            && (Bit(f, SEQ_PRESENT) <==> SeqPresent(h)) && (Bit(f, ACK_PRESENT) <==> AckPresent(h))
            && ClearBit(ClearBit(f, ACK_PRESENT), SEQ_PRESENT) == h.flags
  {
    var g: byte := if SeqPresent(h) then (SetBitByte(h.flags, SEQ_PRESENT); SetBit(h.flags, SEQ_PRESENT)) else h.flags;
    BitOfSetBit(h.flags, SEQ_PRESENT, SEQ_PRESENT);
    BitOfSetBit(h.flags, SEQ_PRESENT, ACK_PRESENT);
    BitOfSetBit(g, ACK_PRESENT, SEQ_PRESENT);
    BitOfSetBit(g, ACK_PRESENT, ACK_PRESENT);
    ClearUndoesSet(g, ACK_PRESENT);
    ClearIdle(g, ACK_PRESENT);
    ClearUndoesSet(h.flags, SEQ_PRESENT);
    ClearIdle(h.flags, SEQ_PRESENT);
  }

  lemma FieldRoundTrip(body: bytestring, cur: nat, v: uint32, present: bool)
    requires At(body, cur, if present then Encode(v) else []) && (!present ==> v == 0)
    ensures ReadField(body, cur, present) == Value(v, cur + |if present then Encode(v) else []|)
  {
    if present { UlebRoundTrip(body, cur, v); }
  }

  lemma Le32At(body: bytestring, cur: nat, x: uint32)
    requires At(body, cur, Le32(x))
    ensures cur + 4 <= |body| && FromLe32(body[cur..cur + 4]) == x
  {
    Le32RoundTrip(x);
  }

  lemma CompactHeaderRoundTrip(body: bytestring, cur: nat, h: Header)
    requires At(body, cur, HeaderBytes(h, true)) && PlainFlags(h.flags)
    ensures ReadHeader(body, cur, true) == HeaderAt(h, cur + |HeaderBytes(h, true)|)
  {
    var g := CompactFlags(h);
    var a := if SeqPresent(h) then Encode(h.seqno) else [];
    var b := if AckPresent(h) then Encode(h.ack) else [];
    assert HeaderBytes(h, true) == [g] + (a + b);
    ByteThen(body, cur, g, a, b);
    CompactFlagsRoundTrip(h);
    FieldRoundTrip(body, cur + 1, h.seqno, SeqPresent(h));
    FieldRoundTrip(body, cur + 1 + |a|, h.ack, AckPresent(h));
    CompactReads(body, cur, g, h.seqno, cur + 1 + |a|, h.ack, cur + 1 + |a| + |b|);
  }

  lemma ByteThen(body: bytestring, cur: nat, g: byte, a: bytestring, b: bytestring)
    requires At(body, cur, [g] + (a + b))
    ensures cur < |body| && body[cur] == g && At(body, cur + 1, a) && At(body, cur + 1 + |a|, b)
  {
    AtConcat(body, cur, [g], a + b);
    AtConcat(body, cur + 1, a, b);
    assert body[cur] == body[cur..cur + 1][0];
  }

  lemma CompactReads(body: bytestring, cur: nat, g: byte, s: uint32, c1: nat, a: uint32, c2: nat)
    requires cur < |body| && body[cur] == g && c1 <= |body|
    requires ReadField(body, cur + 1, Bit(g, SEQ_PRESENT)) == Value(s, c1)
    requires ReadField(body, c1, Bit(g, ACK_PRESENT)) == Value(a, c2)
    ensures ReadHeader(body, cur, true) == HeaderAt(Header(ClearBit(ClearBit(g, ACK_PRESENT), SEQ_PRESENT), s, a), c2)
  {}

  lemma FixedHeaderRoundTrip(body: bytestring, cur: nat, h: Header)
    requires At(body, cur, HeaderBytes(h, false))
    ensures ReadHeader(body, cur, false) == HeaderAt(h, cur + |HeaderBytes(h, false)|)
  {
    AtConcat(body, cur, [h.flags], Le32(h.seqno) + Le32(h.ack));
    AtConcat(body, cur + 1, Le32(h.seqno), Le32(h.ack));
    assert body[cur] == body[cur..cur + 1][0];
    Le32At(body, cur + 1, h.seqno);
    Le32At(body, cur + 5, h.ack);
  }

  /** A header is read back as written, at any position and whatever follows. */
  lemma HeaderRoundTrip(body: bytestring, cur: nat, h: Header, compact: bool)
    requires At(body, cur, HeaderBytes(h, compact)) && (compact ==> PlainFlags(h.flags))
    ensures ReadHeader(body, cur, compact) == HeaderAt(h, cur + |HeaderBytes(h, compact)|)
  {
    if compact { CompactHeaderRoundTrip(body, cur, h); } else { FixedHeaderRoundTrip(body, cur, h); }
  }

  // ---------------------------------------------------------------- frame body

  /** Where the parts of a nested concatenation stand. */
  lemma PartsAt(s: bytestring, a: bytestring, b: bytestring, c: bytestring, d: bytestring, e: bytestring,
                f: bytestring, g: bytestring)
    requires s == a + (b + (c + (d + (e + (f + g)))))
    ensures At(s, 0, a) && At(s, |a|, b) && At(s, |a| + |b|, c) && At(s, |a| + |b| + |c|, d)
    ensures var n := |a| + |b| + |c| + |d|;
            At(s, n, e) && At(s, n + |e|, f) && At(s, n + |e| + |f|, g) && n + |e| + |f| + |g| == |s|
  {
    assert At(s, 0, a + (b + (c + (d + (e + (f + g))))));
    AtThree(s, 0, a, b, c + (d + (e + (f + g))));
    AtThree(s, |a| + |b|, c, d, e + (f + g));
    AtThree(s, |a| + |b| + |c| + |d|, e, f, g);
  }

  lemma AtThree(body: bytestring, cur: nat, a: bytestring, b: bytestring, c: bytestring)
    requires At(body, cur, a + (b + c))
    ensures At(body, cur, a) && At(body, cur + |a|, b) && At(body, cur + |a| + |b|, c)
  {
    AtConcat(body, cur, a, b + c);
    AtConcat(body, cur + |a|, b, c);
  }

  /** Where the fields of a written body stand. */
  lemma BodyAt(flags: byte, nep: byte, wireTy: nat, size: nat, ts: nat, address: nat, bm: bitmap, tail: bytestring)
    returns (c1: nat, c2: nat, c3: nat, c5: nat)
    ensures c1 == 2 + |Encode(wireTy)| && c2 == c1 + |Encode(size)| && c3 == c2 + |Encode(ts)|
        && c5 == c3 + |Encode(address)|
    ensures var body := FrameBody(flags, nep, wireTy, size, ts, address, bm, tail);
            && At(body, 0, [flags, nep]) && At(body, 2, Encode(wireTy)) && At(body, c1, Encode(size))
                && At(body, c2, Encode(ts))
            && At(body, c3, Encode(address)) && At(body, c5, bm) && At(body, c5 + 32, tail)
                && c5 + 32 + |tail| == |body|
  {
    c1 := 2 + |Encode(wireTy)|;
    c2 := c1 + |Encode(size)|;
    c3 := c2 + |Encode(ts)|;
    c5 := c3 + |Encode(address)|;
    PartsAt(FrameBody(flags, nep, wireTy, size, ts, address, bm, tail),
            [flags, nep], Encode(wireTy), Encode(size), Encode(ts), Encode(address), bm, tail);
  }

  /** A body whose leading fields read as given, ending at `c5`. */
  ghost predicate LeadingFields(body: bytestring, flags: byte, nep: byte, wireTy: uint64, size: uint64, ts: uint64,
                                address: uint64, c1: nat, c2: nat, c3: nat, c5: nat)
  {
    && 2 <= c1 <= c2 <= c3 <= c5 <= |body| && body[0] == flags && body[1] == nep
    && ReadUleb(body, 2) == Value(wireTy, c1) && ReadUleb(body, c1) == Value(size, c2)
    && ReadUleb(body, c2) == Value(ts, c3) && ReadUleb(body, c3) == Value(address, c5)
  }

  lemma BodyFields(body: bytestring, flags: byte, nep: byte, wireTy: uint64, size: uint64, ts: uint64,
                   address: uint64, c1: nat, c2: nat, c3: nat, c5: nat)
    requires c1 == 2 + |Encode(wireTy)| && c2 == c1 + |Encode(size)| && c3 == c2 + |Encode(ts)|
        && c5 == c3 + |Encode(address)|
    requires At(body, 0, [flags, nep]) && At(body, 2, Encode(wireTy)) && At(body, c1, Encode(size))
    requires At(body, c2, Encode(ts)) && At(body, c3, Encode(address))
    ensures LeadingFields(body, flags, nep, wireTy, size, ts, address, c1, c2, c3, c5)
  {
    assert body[..2][0] == flags && body[..2][1] == nep;
    UlebRoundTrip(body, 2, wireTy);
    UlebRoundTrip(body, c1, size);
    UlebRoundTrip(body, c2, ts);
    UlebRoundTrip(body, c3, address);
  }

  lemma SealHolds(env: Env, body: bytestring)
    ensures var bytes := Seal(env, body);
            |bytes| == |body| + 4 && bytes[..|bytes| - 4] == body && CrcHolds(env, bytes)
  {
    var bytes := Seal(env, body);
    assert bytes[..|bytes| - 4] == body && bytes[|bytes| - 4..] == Le32((env.crc)(body));
    Le32RoundTrip((env.crc)(body));
  }

  /** The first bytes the writers produce. */
  predicate WrittenFlags(f: byte) { f == 0x20 || f == 0x21 || f == 0x60 || f == 0x61 }

  // ---------------------------------------------------------------- round trips

  /** Packets the v4 format carries: a type that keeps its identifier and distinct registered
      endpoints at runtime identifiers. */
  ghost predicate Encodable(env: Env, p: Packet) {
    && RuntimeType(env.schema, p.ty) && p.ty < TWO32
    && Distinct(p.endpoints)
    && (forall i :: 0 <= i < |p.endpoints| ==> Carriable(env.schema, p.endpoints[i]))
    && |p.payload| < TWO64
  }

  /** Decompressing what was compressed gives it back. */
  ghost predicate Lossless(env: Env) {
    forall d: bytestring :: (env.compress)(d).Some? ==> (env.decompress)((env.compress)(d).value, |d|) == d
  }

  /** What is left of a packet: the sender becomes its address, the endpoints ascend. */
  function Carried(env: Env, p: Packet): Packet {
    p.(sender := AddressName((env.address)(p.sender)), endpoints := AscendingNats(p.endpoints))
  }

  function AscendingNats(eps: seq<nat>): (r: seq<nat>)
    ensures r == SortInts(eps)
  {
    SortIntsSpec(eps);
    var r := SortInts(eps);
    assert forall i :: 0 <= i < |r| ==> r[i] in r;
    r
  }

  /** What is left of any packet, whatever endpoints it lists. */
  function Seen(env: Env, p: Packet): Packet {
    p.(sender := AddressName((env.address)(p.sender)),
       endpoints := ParseBitmap(env.schema, BitmapOf(env.schema, p.endpoints)))
  }

  /** The endpoint count in the frame is the count its bitmap is read with. */
  predicate CountKept(sc: Schema, eps: seq<nat>) { |ParseBitmap(sc, BitmapOf(sc, eps))| == |eps| % 256 }

  lemma EndpointCount(env: Env, p: Packet)
    requires Encodable(env, p)
    ensures |p.endpoints| < 256 && |SortInts(p.endpoints)| == |p.endpoints|
    ensures ParseBitmap(env.schema, BitmapOf(env.schema, p.endpoints)) == SortInts(p.endpoints)
  {
    var eps := p.endpoints;
    forall e | e in eps ensures Carriable(env.schema, e) {}
    SortIntsLength(eps);
    BitmapRoundTrip(env.schema, eps);
    FewEndpoints(eps);
  }

  lemma FewEndpoints(eps: seq<nat>)
    requires Distinct(eps) && forall i :: 0 <= i < |eps| ==> 100 <= eps[i] < 256
    ensures |eps| < 256
  {
    ElementCount(eps);
    var others := Elems(eps) + {0};
    forall x | x in others ensures 0 <= x < 256 {}
    RangeCount(others, 256);
    assert 0 !in Elems(eps);
  }

  lemma {:induction false} RangeCount(s: set<int>, n: nat)
    requires forall x :: x in s ==> 0 <= x < n
    ensures |s| <= n
  {
    if n > 0 {
      var t := s - {n - 1};
      forall x | x in t ensures 0 <= x < n - 1 {}
      RangeCount(t, n - 1);
      assert s <= t + {n - 1};
    } else if forall x :: x !in s {
      assert s == {};
    }
  }

  lemma PayloadRoundTrip(env: Env, p: Packet)
    requires Lossless(env)
    ensures Inflate(env, WirePayload(env, p.payload), |p.payload|, (env.compress)(p.payload).Some?) == p.payload
  {}

  function ReadFlags(f: byte): FlagSet { FlagSet(f % 2 == 1, false, false, true, f >= 0x60) }

  /** A body whose leading fields end at `cur`, with the bitmap and the tail behind them. */
  ghost predicate Framed(body: bytestring, cur: nat, nep: byte, bm: bitmap, tail: bytestring) {
    2 <= cur && cur + 32 + |tail| == |body| && body[1] == nep && body[cur..cur + 32] == bm && At(body, cur + 32, tail)
  }

  /** Both readers of `bytes` come down to their second halves on `body` at `cur`. */
  ghost predicate Opens(env: Env, bytes: bytestring, body: bytestring, cur: nat, f: byte, wireTy: uint64,
                        size: uint64, ts: uint64, source: uint64)
  {
    && 2 <= cur <= |body|
    && Deserialize(env, bytes) == DeserializeRest(env, body, cur, ReadFlags(f), wireTy, size, ts, source)
    && Peek(env, bytes, true) == PeekRest(env.schema, body, cur, ReadFlags(f), wireTy, ts, source)
  }

  lemma SealedReaders(env: Env, bytes: bytestring, f: byte, nep: byte, wireTy: uint64, size: uint64, ts: uint64,
                      source: uint64, bm: bitmap, tail: bytestring)
    returns (body: bytestring, cur: nat)
    requires WrittenFlags(f) && bytes == Seal(env, FrameBody(f, nep, wireTy, size, ts, source, bm, tail))
    ensures Framed(body, cur, nep, bm, tail) && Opens(env, bytes, body, cur, f, wireTy, size, ts, source)
  {
    var c1, c2, c3, c5 := BodyAt(f, nep, wireTy, size, ts, source, bm, tail);
    body, cur := FrameBody(f, nep, wireTy, size, ts, source, bm, tail), c5;
    BodyFields(body, f, nep, wireTy, size, ts, source, c1, c2, c3, c5);
    SealHolds(env, body);
    LeadingOpens(env, bytes, body, f, nep, wireTy, size, ts, source, c1, c2, c3, c5);
  }

  lemma LeadingOpens(env: Env, bytes: bytestring, body: bytestring, f: byte, nep: byte, wireTy: uint64, size: uint64,
                     ts: uint64, source: uint64, c1: nat, c2: nat, c3: nat, c5: nat)
    requires WrittenFlags(f) && LeadingFields(body, f, nep, wireTy, size, ts, source, c1, c2, c3, c5)
    requires |bytes| == |body| + 4 && bytes[..|bytes| - 4] == body && CrcHolds(env, bytes)
    ensures Opens(env, bytes, body, c5, f, wireTy, size, ts, source)
  {
    FrameFlagBits(f);
  }

  lemma FrameFlagBits(f: byte)
    requires WrittenFlags(f)
    ensures IsV4(f) && FlagsOf(f) == ReadFlags(f)
  {}

  lemma ResolveRoundTrip(sc: Schema, ty: nat)
    requires RuntimeType(sc, ty) && ty < TWO32
    ensures WireTypeId(sc, ty) < TWO32 && ResolveType(sc, WireTypeId(sc, ty)) == Parsed(ty)
  {}

  /** What reading the header part yields. */
  ghost predicate HeaderReads(sc: Schema, ty: nat, body: bytestring, cur: nat, compact: bool, hdr: Option<Header>,
                              next: nat)
    requires cur <= |body|
  {
    match hdr
    case None => !HasReliableHeader(sc, ty) && next == cur
    case Some(h) => HasReliableHeader(sc, ty) && ReadHeader(body, cur, compact) == HeaderAt(h, next)
  }

  /** `head` reads as `hdr` wherever it stands. */
  ghost predicate HeaderPart(sc: Schema, ty: nat, compact: bool, head: bytestring, hdr: Option<Header>) {
    forall body: bytestring, cur: nat {:trigger At(body, cur, head)} ::
      At(body, cur, head) ==> HeaderReads(sc, ty, body, cur, compact, hdr, cur + |head|)
  }

  lemma NoHeaderPart(sc: Schema, ty: nat, compact: bool)
    requires !HasReliableHeader(sc, ty)
    ensures HeaderPart(sc, ty, compact, [], None)
  {}

  lemma SomeHeaderPart(sc: Schema, ty: nat, compact: bool, h: Header)
    requires HasReliableHeader(sc, ty) && (compact ==> PlainFlags(h.flags))
    ensures HeaderPart(sc, ty, compact, HeaderBytes(h, compact), Some(h))
  {
    forall body: bytestring, cur: nat | At(body, cur, HeaderBytes(h, compact))
      ensures HeaderReads(sc, ty, body, cur, compact, Some(h), cur + |HeaderBytes(h, compact)|)
    {
      HeaderRoundTrip(body, cur, h, compact);
    }
  }

  /** What both second halves rely on. */
  ghost predicate RestLayout(sc: Schema, body: bytestring, cur: nat, compact: bool, wireTy: uint64, ty: nat,
                             eps: seq<nat>, hdr: Option<Header>, next: nat)
  {
    && ResolveType(sc, wireTy) == Parsed(ty)
    && 2 <= cur && cur + 32 <= next <= |body| && body[1] == |eps| && ParseBitmap(sc, body[cur..cur + 32]) == eps
    && HeaderReads(sc, ty, body, cur + 32, compact, hdr, next)
  }

  lemma RestPeek(sc: Schema, body: bytestring, cur: nat, compressed: bool, compact: bool, wireTy: uint64, ts: uint64,
                 source: uint64, ty: nat, eps: seq<nat>, hdr: Option<Header>, next: nat)
    requires RestLayout(sc, body, cur, compact, wireTy, ty, eps, hdr, next)
    ensures PeekRest(sc, body, cur, FlagSet(compressed, false, false, true, compact), wireTy, ts, source)
            == Parsed(FrameInfo(Envelope(ty, eps, AddressName(source), ts), hdr))
  {}

  lemma RestDeserialize(env: Env, body: bytestring, cur: nat, compressed: bool, compact: bool, wireTy: uint64,
                        size: uint64, ts: uint64, source: uint64, ty: nat, eps: seq<nat>, hdr: Option<Header>,
                        next: nat, payload: bytestring)
    requires RestLayout(env.schema, body, cur, compact, wireTy, ty, eps, hdr, next)
    requires Inflate(env, body[next..], size, compressed) == payload && |payload| == size
    ensures DeserializeRest(env, body, cur, FlagSet(compressed, false, false, true, compact), wireTy, size, ts, source)
            == if hdr.Some? && Bit(hdr.value.flags, FLAG_ACK_ONLY) then Malformed
               else Parsed(Packet(ty, AddressName(source), eps, ts, payload))
  {}

  /** Where a written frame's fields stand. */
  lemma FrameLayout(sc: Schema, body: bytestring, cur: nat, compact: bool, wireTy: uint64, bm: bitmap, ty: nat,
                    eps: seq<nat>, head: bytestring, hdr: Option<Header>, wire: bytestring)
    requires ResolveType(sc, wireTy) == Parsed(ty) && HeaderPart(sc, ty, compact, head, hdr)
    requires |eps| < 256 && Framed(body, cur, |eps|, bm, head + wire) && ParseBitmap(sc, bm) == eps
    ensures RestLayout(sc, body, cur, compact, wireTy, ty, eps, hdr, cur + 32 + |head|)
    ensures body[cur + 32 + |head|..] == wire
  {
    AtConcat(body, cur + 32, head, wire);
  }

  /** The fields a frame was sealed from: a packet with its header part. */
  ghost predicate SealedFrom(env: Env, bytes: bytestring, f: byte, wireTy: uint64, size: uint64, ts: uint64,
                             source: uint64, bm: bitmap, eps: seq<nat>, tail: bytestring)
  {
    |eps| < 256 && bytes == Seal(env, FrameBody(f, |eps|, wireTy, size, ts, source, bm, tail))
  }

  /** Both readers on a sealed frame, field by field. */
  lemma FrameReads(env: Env, bytes: bytestring, f: byte, wireTy: uint64, size: uint64, ts: uint64, source: uint64,
                   bm: bitmap, ty: nat, eps: seq<nat>, head: bytestring, hdr: Option<Header>, wire: bytestring,
                   payload: bytestring)
    requires WrittenFlags(f) && SealedFrom(env, bytes, f, wireTy, size, ts, source, bm, eps, head + wire)
    requires ResolveType(env.schema, wireTy) == Parsed(ty) && HeaderPart(env.schema, ty, f >= 0x60, head, hdr)
    requires ParseBitmap(env.schema, bm) == eps
    requires Inflate(env, wire, size, f % 2 == 1) == payload && |payload| == size
    ensures Peek(env, bytes, true) == Parsed(FrameInfo(Envelope(ty, eps, AddressName(source), ts), hdr))
    ensures Deserialize(env, bytes)
            == if hdr.Some? && Bit(hdr.value.flags, FLAG_ACK_ONLY) then Malformed
               else Parsed(Packet(ty, AddressName(source), eps, ts, payload))
  {
    var body, cur := SealedReaders(env, bytes, f, |eps|, wireTy, size, ts, source, bm, head + wire);
    FramedReads(env, bytes, body, cur, f, wireTy, size, ts, source, bm, ty, eps, head, hdr, wire, payload);
  }

  lemma FramedReads(env: Env, bytes: bytestring, body: bytestring, cur: nat, f: byte, wireTy: uint64, size: uint64,
                    ts: uint64, source: uint64, bm: bitmap, ty: nat, eps: seq<nat>, head: bytestring,
                    hdr: Option<Header>, wire: bytestring, payload: bytestring)
    requires |eps| < 256 && Framed(body, cur, |eps|, bm, head + wire)
        && Opens(env, bytes, body, cur, f, wireTy, size, ts, source)
    requires ResolveType(env.schema, wireTy) == Parsed(ty) && HeaderPart(env.schema, ty, f >= 0x60, head, hdr)
    requires ParseBitmap(env.schema, bm) == eps
    requires Inflate(env, wire, size, f % 2 == 1) == payload && |payload| == size
    ensures Peek(env, bytes, true) == Parsed(FrameInfo(Envelope(ty, eps, AddressName(source), ts), hdr))
    ensures Deserialize(env, bytes)
            == if hdr.Some? && Bit(hdr.value.flags, FLAG_ACK_ONLY) then Malformed
               else Parsed(Packet(ty, AddressName(source), eps, ts, payload))
  {
    FramedPeek(env.schema, body, cur, f % 2 == 1, f >= 0x60, wireTy, ts, source, bm, ty, eps, head, hdr, wire);
    FramedDeserialize(env, body, cur, f % 2 == 1, f >= 0x60, wireTy, size, ts, source, bm, ty, eps, head, hdr, wire,
                      payload);
  }

  lemma FramedPeek(sc: Schema, body: bytestring, cur: nat, compressed: bool, compact: bool, wireTy: uint64,
                   ts: uint64, source: uint64, bm: bitmap, ty: nat, eps: seq<nat>, head: bytestring,
                   hdr: Option<Header>, wire: bytestring)
    requires |eps| < 256 && Framed(body, cur, |eps|, bm, head + wire)
    requires ResolveType(sc, wireTy) == Parsed(ty) && HeaderPart(sc, ty, compact, head, hdr)
        && ParseBitmap(sc, bm) == eps
    ensures PeekRest(sc, body, cur, FlagSet(compressed, false, false, true, compact), wireTy, ts, source)
            == Parsed(FrameInfo(Envelope(ty, eps, AddressName(source), ts), hdr))
  {
    FrameLayout(sc, body, cur, compact, wireTy, bm, ty, eps, head, hdr, wire);
    RestPeek(sc, body, cur, compressed, compact, wireTy, ts, source, ty, eps, hdr, cur + 32 + |head|);
  }

  lemma FramedDeserialize(env: Env, body: bytestring, cur: nat, compressed: bool, compact: bool, wireTy: uint64,
                          size: uint64, ts: uint64, source: uint64, bm: bitmap, ty: nat, eps: seq<nat>,
                          head: bytestring, hdr: Option<Header>, wire: bytestring, payload: bytestring)
    requires |eps| < 256 && Framed(body, cur, |eps|, bm, head + wire)
    requires ResolveType(env.schema, wireTy) == Parsed(ty) && HeaderPart(env.schema, ty, compact, head, hdr)
        && ParseBitmap(env.schema, bm) == eps
    requires Inflate(env, wire, size, compressed) == payload && |payload| == size
    ensures DeserializeRest(env, body, cur, FlagSet(compressed, false, false, true, compact), wireTy, size, ts, source)
            == if hdr.Some? && Bit(hdr.value.flags, FLAG_ACK_ONLY) then Malformed
               else Parsed(Packet(ty, AddressName(source), eps, ts, payload))
  {
    FrameLayout(env.schema, body, cur, compact, wireTy, bm, ty, eps, head, hdr, wire);
    RestDeserialize(env, body, cur, compressed, compact, wireTy, size, ts, source, ty, eps, hdr, cur + 32 + |head|,
                    payload);
  }

  lemma FlagsWritten(env: Env, p: Packet, compact: bool)
    ensures var f := FrameFlags(env, p, compact);
            WrittenFlags(f) && (f % 2 == 1 <==> (env.compress)(p.payload).Some?) && (f >= 0x60 <==> compact)
  {}

  /** Packets whose type and payload the v4 format carries. */
  ghost predicate Writable(env: Env, p: Packet) {
    RuntimeType(env.schema, p.ty) && p.ty < TWO32 && |p.payload| < TWO64
  }

  /** What makes a packet's fields readable. */
  ghost predicate ReadsAs(env: Env, p: Packet, eps: seq<nat>) {
    && |eps| == |p.endpoints| % 256 && |p.payload| < TWO64
    && ParseBitmap(env.schema, BitmapOf(env.schema, p.endpoints)) == eps
    && WireTypeId(env.schema, p.ty) < TWO32 && ResolveType(env.schema, WireTypeId(env.schema, p.ty)) == Parsed(p.ty)
    && Inflate(env, WirePayload(env, p.payload), |p.payload|, (env.compress)(p.payload).Some?) == p.payload
  }

  lemma WritableReads(env: Env, p: Packet)
    requires Writable(env, p) && Lossless(env) && CountKept(env.schema, p.endpoints)
    ensures ReadsAs(env, p, Seen(env, p).endpoints)
  {
    ResolveRoundTrip(env.schema, p.ty);
    PayloadRoundTrip(env, p);
  }

  /** Distinct registered endpoints come through. */
  lemma EncodableSeen(env: Env, p: Packet)
    requires Encodable(env, p)
    ensures Writable(env, p) && CountKept(env.schema, p.endpoints) && Seen(env, p) == Carried(env, p)
  {
    EndpointCount(env, p);
  }

  /** A frame whose bitmap does not hold as many endpoints as it announces is read by nobody. */
  lemma Miscounted(
    env: Env, bytes: bytestring, f: byte, nep: byte, wireTy: uint64, size: uint64, ts: uint64, source: uint64,
    bm: bitmap, tail: bytestring, ty: nat)
    requires WrittenFlags(f) && bytes == Seal(env, FrameBody(f, nep, wireTy, size, ts, source, bm, tail))
    requires ResolveType(env.schema, wireTy) == Parsed(ty) && |ParseBitmap(env.schema, bm)| != nep
    ensures Peek(env, bytes, true) == Malformed && Deserialize(env, bytes) == Malformed
  {
    var body, cur := SealedReaders(env, bytes, f, nep, wireTy, size, ts, source, bm, tail);
  }

  /** A packet written with some header part. */
  lemma PacketReads(env: Env, p: Packet, eps: seq<nat>, f: byte, head: bytestring, hdr: Option<Header>,
                    bytes: bytestring)
    requires ReadsAs(env, p, eps) && HeaderPart(env.schema, p.ty, f >= 0x60, head, hdr)
    requires WrittenFlags(f) && (f % 2 == 1 <==> (env.compress)(p.payload).Some?)
    requires bytes == Seal(env, FrameBody(f, |eps|, WireTypeId(env.schema, p.ty), |p.payload|,
                                          p.timestamp, (env.address)(p.sender), BitmapOf(env.schema, p.endpoints),
                                          head + WirePayload(env, p.payload)))
    ensures var source := (env.address)(p.sender);
            && Peek(env, bytes, true) == Parsed(FrameInfo(Envelope(p.ty, eps, AddressName(source), p.timestamp), hdr))
            && Deserialize(env, bytes) == if hdr.Some? && Bit(hdr.value.flags, FLAG_ACK_ONLY) then Malformed
                                          else Parsed(Packet(p.ty, AddressName(source), eps, p.timestamp, p.payload))
  {
    FrameReads(env, bytes, f, WireTypeId(env.schema, p.ty), |p.payload|, p.timestamp, (env.address)(p.sender),
               BitmapOf(env.schema, p.endpoints), p.ty, eps, head, hdr, WirePayload(env, p.payload), p.payload);
  }

  lemma WrittenReliable(env: Env, p: Packet, n: byte, h: Header)
    requires HasReliableHeader(env.schema, p.ty) && |p.endpoints| % 256 == n
    ensures SerializeReliable(env, p, h)
            == Seal(env, FrameBody(FrameFlags(env, p, ShouldCompact(h)), n, WireTypeId(env.schema, p.ty), |p.payload|,
                                   p.timestamp,
                                   (env.address)(p.sender), BitmapOf(env.schema, p.endpoints),
                                   HeaderBytes(h, ShouldCompact(h)) + WirePayload(env, p.payload)))
  {}

  lemma ReadableReliable(env: Env, p: Packet, eps: seq<nat>, h: Header)
    requires ReadsAs(env, p, eps) && HasReliableHeader(env.schema, p.ty)
    requires HeaderPart(env.schema, p.ty, ShouldCompact(h), HeaderBytes(h, ShouldCompact(h)), Some(h))
    ensures var bytes, sender := SerializeReliable(env, p, h), AddressName((env.address)(p.sender));
            && Peek(env, bytes, true) == Parsed(FrameInfo(Envelope(p.ty, eps, sender, p.timestamp), Some(h)))
            && Deserialize(env, bytes) == if Bit(h.flags, FLAG_ACK_ONLY) then Malformed
                                          else Parsed(Packet(p.ty, sender, eps, p.timestamp, p.payload))
  {
    FlagsWritten(env, p, ShouldCompact(h));
    WrittenReliable(env, p, |eps|, h);
    PacketReads(env, p, eps, FrameFlags(env, p, ShouldCompact(h)), HeaderBytes(h, ShouldCompact(h)), Some(h),
                SerializeReliable(env, p, h));
  }

  /** A frame with a reliable header, for every list of endpoints: both readers see the packet and
      the header, or neither sees anything. */
  lemma ReliableFrameSeen(env: Env, p: Packet, h: Header)
    requires Writable(env, p) && HasReliableHeader(env.schema, p.ty) && Lossless(env)
    requires PlainFlags(h.flags) && !Bit(h.flags, FLAG_ACK_ONLY)
    ensures var bytes, q := SerializeReliable(env, p, h), Seen(env, p);
            if CountKept(env.schema, p.endpoints) then
              && Peek(env, bytes, true) == Parsed(FrameInfo(Envelope(q.ty, q.endpoints, q.sender, q.timestamp),
                                                            Some(h)))
              && Deserialize(env, bytes) == Parsed(q)
            else Peek(env, bytes, true) == Malformed && Deserialize(env, bytes) == Malformed
  {
    if CountKept(env.schema, p.endpoints) {
      WritableReads(env, p);
      SomeHeaderPart(env.schema, p.ty, ShouldCompact(h), h);
      ReadableReliable(env, p, Seen(env, p).endpoints, h);
    } else {
      MiscountedReliable(env, p, h);
    }
  }

  lemma MiscountedReliable(env: Env, p: Packet, h: Header)
    requires Writable(env, p) && HasReliableHeader(env.schema, p.ty) && !CountKept(env.schema, p.endpoints)
    ensures var bytes := SerializeReliable(env, p, h);
            Peek(env, bytes, true) == Malformed && Deserialize(env, bytes) == Malformed
  {
    var sc, n, compact := env.schema, |p.endpoints| % 256, ShouldCompact(h);
    FlagsWritten(env, p, compact);
    WrittenReliable(env, p, n, h);
    ResolveRoundTrip(sc, p.ty);
    Miscounted(env, SerializeReliable(env, p, h), FrameFlags(env, p, compact), n, WireTypeId(sc, p.ty), |p.payload|,
               p.timestamp, (env.address)(p.sender), BitmapOf(sc, p.endpoints),
               HeaderBytes(h, compact) + WirePayload(env, p.payload), p.ty);
  }

  /** A frame with a reliable header: both readers see the packet and the header as sent. */
  lemma ReliableFrameRoundTrip(env: Env, p: Packet, h: Header)
    requires Encodable(env, p) && HasReliableHeader(env.schema, p.ty) && Lossless(env)
    requires PlainFlags(h.flags) && !Bit(h.flags, FLAG_ACK_ONLY)
    ensures var bytes, q := SerializeReliable(env, p, h), Carried(env, p);
            && Peek(env, bytes, true) == Parsed(FrameInfo(Envelope(q.ty, q.endpoints, q.sender, q.timestamp), Some(h)))
            && Deserialize(env, bytes) == Parsed(q)
  {
    EncodableSeen(env, p);
    ReliableFrameSeen(env, p, h);
  }

  lemma WrittenPlain(env: Env, p: Packet, n: byte)
    requires !HasReliableHeader(env.schema, p.ty) && !IsLinkAck(p) && |p.endpoints| % 256 == n
    ensures SerializePacket(env, p)
            == Seal(env, FrameBody(FrameFlags(env, p, false), n, WireTypeId(env.schema, p.ty), |p.payload|, p.timestamp,
                                   (env.address)(p.sender), BitmapOf(env.schema, p.endpoints),
                                       [] + WirePayload(env, p.payload)))
  {
    var wire := WirePayload(env, p.payload);
    assert [] + wire == wire;
  }

  lemma ReadablePlain(env: Env, p: Packet, eps: seq<nat>)
    requires ReadsAs(env, p, eps) && !HasReliableHeader(env.schema, p.ty) && !IsLinkAck(p)
    requires HeaderPart(env.schema, p.ty, false, [], None)
    ensures var bytes, sender := SerializePacket(env, p), AddressName((env.address)(p.sender));
            && Peek(env, bytes, true) == Parsed(FrameInfo(Envelope(p.ty, eps, sender, p.timestamp), None))
            && Deserialize(env, bytes) == Parsed(Packet(p.ty, sender, eps, p.timestamp, p.payload))
  {
    FlagsWritten(env, p, false);
    WrittenPlain(env, p, |eps|);
    PacketReads(env, p, eps, FrameFlags(env, p, false), [], None, SerializePacket(env, p));
  }

  /** A frame without one, for every list of endpoints. */
  lemma PlainFrameSeen(env: Env, p: Packet)
    requires Writable(env, p) && !HasReliableHeader(env.schema, p.ty) && !IsLinkAck(p) && Lossless(env)
    ensures var bytes, q := SerializePacket(env, p), Seen(env, p);
            if CountKept(env.schema, p.endpoints) then
              && Peek(env, bytes, true) == Parsed(FrameInfo(Envelope(q.ty, q.endpoints, q.sender, q.timestamp), None))
              && Deserialize(env, bytes) == Parsed(q)
            else Peek(env, bytes, true) == Malformed && Deserialize(env, bytes) == Malformed
  {
    if CountKept(env.schema, p.endpoints) {
      WritableReads(env, p);
      NoHeaderPart(env.schema, p.ty, false);
      ReadablePlain(env, p, Seen(env, p).endpoints);
    } else {
      MiscountedPlain(env, p);
    }
  }

  lemma MiscountedPlain(env: Env, p: Packet)
    requires Writable(env, p) && !HasReliableHeader(env.schema, p.ty) && !IsLinkAck(p)
    requires !CountKept(env.schema, p.endpoints)
    ensures var bytes := SerializePacket(env, p);
            Peek(env, bytes, true) == Malformed && Deserialize(env, bytes) == Malformed
  {
    var sc, n := env.schema, |p.endpoints| % 256;
    FlagsWritten(env, p, false);
    WrittenPlain(env, p, n);
    ResolveRoundTrip(sc, p.ty);
    Miscounted(env, SerializePacket(env, p), FrameFlags(env, p, false), n, WireTypeId(sc, p.ty), |p.payload|,
               p.timestamp, (env.address)(p.sender), BitmapOf(sc, p.endpoints), [] + WirePayload(env, p.payload), p.ty);
  }

  /** A frame without one. */
  lemma PlainFrameRoundTrip(env: Env, p: Packet)
    requires Encodable(env, p) && !HasReliableHeader(env.schema, p.ty) && !IsLinkAck(p) && Lossless(env)
    ensures Deserialize(env, SerializePacket(env, p)) == Parsed(Carried(env, p))
  {
    EncodableSeen(env, p);
    PlainFrameSeen(env, p);
  }

  lemma NoFlags()
    ensures !Bit(0, FLAG_ACK_ONLY) && !Bit(0x80, FLAG_ACK_ONLY) && PlainFlags(0x80) && PlainFlags(0) && PlainFlags(1)
        && PlainFlags(2)
    ensures Bit(1, FLAG_ACK_ONLY) && !Bit(2, FLAG_ACK_ONLY)
  {}

  /** v4 frame round trip: every encodable packet that is not a link acknowledgement. */
  lemma PacketRoundTrip(env: Env, p: Packet)
    requires Encodable(env, p) && !IsLinkAck(p) && Lossless(env)
    ensures Deserialize(env, SerializePacket(env, p)) == Parsed(Carried(env, p))
  {
    NoFlags();
    if HasReliableHeader(env.schema, p.ty) {
      ReliableFrameRoundTrip(env, p, Header(0x80, 0, 0));
    } else {
      PlainFrameRoundTrip(env, p);
    }
  }

  /** Exactly the packets whose endpoint count survives are read back, as Seen describes them. */
  lemma PacketSeen(env: Env, p: Packet)
    requires Writable(env, p) && !IsLinkAck(p) && Lossless(env)
    ensures Deserialize(env, SerializePacket(env, p))
            == if CountKept(env.schema, p.endpoints) then Parsed(Seen(env, p)) else Malformed
  {
    NoFlags();
    if HasReliableHeader(env.schema, p.ty) {
      ReliableFrameSeen(env, p, Header(0x80, 0, 0));
    } else {
      PlainFrameSeen(env, p);
    }
  }

  // ---------------------------------------------------------------- link acknowledgements

  /** An ack-only frame is peeked with the type and the number it was made for, and is never
      taken for a packet. */
  lemma AckFrameRoundTrip(env: Env, sender: bytestring, ty: nat, ts: uint64, ack: uint32)
    requires RuntimeType(env.schema, ty) && ty < TWO32 && HasReliableHeader(env.schema, ty)
    ensures var bytes := SerializeAck(env, sender, ty, ts, ack);
            && Peek(env, bytes, true)
               == Parsed(FrameInfo(Envelope(ty, [], AddressName((env.address)(sender)), ts), Some(Header(1, 0, ack))))
            && Deserialize(env, bytes) == Malformed
  {
    var sc, h := env.schema, Header(1, 0, ack);
    NoFlags();
    assert BitmapOf(sc, []) == EMPTY && SortInts([]) == [];
    BitmapRoundTrip(sc, []);
    ResolveRoundTrip(sc, ty);
    var head := HeaderBytes(h, true);
    assert head + [] == head;
    SomeHeaderPart(sc, ty, true, h);
    FrameReads(env, SerializeAck(env, sender, ty, ts, ack), 0x60, WireTypeId(sc, ty), 0, ts, (env.address)(sender),
               EMPTY,
               ty, [], head, Some(h), [], []);
  }

  function ControlEndpoints(sc: Schema, controlTy: nat): seq<nat> {
    var ep := FindEndpoint(sc.endpoints, TelemetryErrors, 0);
    if ep.Some? then [ep.value] else if controlTy < |sc.types| then sc.types[controlTy].endpoints else []
  }

  /** make_reliable_control_packet */
  function ControlPacket(sc: Schema, controlTy: nat, ty: nat, seqno: uint32, ts: uint64, sender: bytestring): Packet {
    Packet(controlTy, sender, ControlEndpoints(sc, controlTy), ts, Le32(WireTypeId(sc, ty) % TWO32) + Le32(seqno))
  }

  lemma WordPair(a: uint32, b: uint32)
    ensures var s := Le32(a) + Le32(b);
            |s| == 8 && FromLe32(s[..4]) == a && FromLe32(s[4..]) == b
  {
    var s := Le32(a) + Le32(b);
    assert s[..4] == Le32(a) && s[4..] == Le32(b);
    Le32RoundTrip(a);
    Le32RoundTrip(b);
  }

  lemma LinkAckFrame(env: Env, p: Packet, w: uint32, ty: nat, ack: uint32)
    requires IsLinkAck(p) && FromLe32(p.payload[..4]) == w && FromLe32(p.payload[4..]) == ack
        && LocalTypeId(env.schema, w) == Some(ty)
    ensures SerializePacket(env, p) == SerializeAck(env, p.sender, ty, p.timestamp, ack)
  {}

  lemma WireTypeBack(sc: Schema, ty: nat)
    requires RuntimeType(sc, ty) && ty < TWO32
    ensures WireTypeId(sc, ty) < TWO32 && LocalTypeId(sc, WireTypeId(sc, ty)) == Some(ty)
  {
    TypeIdRoundTrip(sc, ty);
  }

  lemma ControlPayload(sc: Schema, controlTy: nat, ty: nat, w: uint32, n: uint32, ts: uint64, sender: bytestring)
    requires WireTypeId(sc, ty) == w
    ensures var p := ControlPacket(sc, controlTy, ty, n, ts, sender);
            p.ty == controlTy && p.sender == sender && p.timestamp == ts && p.payload == Le32(w) + Le32(n)
  {
    assert w % TWO32 == w;
  }

  lemma AckPacketFields(p: Packet, w: uint32, ack: uint32)
    requires p.ty == DT_RELIABLE_ACK && p.payload == Le32(w) + Le32(ack) && !(E2E_PREFIX <= p.sender)
    ensures IsLinkAck(p) && FromLe32(p.payload[..4]) == w && FromLe32(p.payload[4..]) == ack
  {
    WordPair(w, ack);
  }

  /** A queued link ack leaves its node as an ack-only frame of the acknowledged type. */
  lemma QueuedAckFrame(env: Env, sender: bytestring, ty: nat, ts: uint64, ack: uint32)
    requires RuntimeType(env.schema, ty) && ty < TWO32 && !(E2E_PREFIX <= sender)
    ensures SerializePacket(env, ControlPacket(env.schema, DT_RELIABLE_ACK, ty, ack, ts, sender))
        == SerializeAck(env, sender, ty, ts, ack)
  {
    WireTypeBack(env.schema, ty);
    var w := WireTypeId(env.schema, ty);
    var p := ControlPacket(env.schema, DT_RELIABLE_ACK, ty, ack, ts, sender);
    ControlPayload(env.schema, DT_RELIABLE_ACK, ty, w, ack, ts, sender);
    AckPacketFields(p, w, ack);
    LinkAckFrame(env, p, w, ty, ack);
  }

  /** The whole way of a link ack: its peer peeks it with the stream's type and the acknowledged
      number. */
  lemma QueuedAckRoundTrip(env: Env, sender: bytestring, ty: nat, ts: uint64, ack: uint32)
    requires RuntimeType(env.schema, ty) && ty < TWO32 && HasReliableHeader(env.schema, ty) && !(E2E_PREFIX <= sender)
    ensures Peek(env, SerializePacket(env, ControlPacket(env.schema, DT_RELIABLE_ACK, ty, ack, ts, sender)), true)
            == Parsed(FrameInfo(Envelope(ty, [], AddressName((env.address)(sender)), ts), Some(Header(1, 0, ack))))
  {
    QueuedAckFrame(env, sender, ty, ts, ack);
    AckFrameRoundTrip(env, sender, ty, ts, ack);
  }

  // ---------------------------------------------------------------- agreement

  /** On every byte string: what deserializes also peeks, with the same type, endpoints, sender
      and timestamp, and is not ack-only. */
  lemma PeekAgrees(env: Env, bytes: bytestring)
    requires Deserialize(env, bytes).Parsed?
    ensures var p := Deserialize(env, bytes).value;
            && Peek(env, bytes, true).Parsed?
            && Peek(env, bytes, true).value.envelope == Envelope(p.ty, p.endpoints, p.sender, p.timestamp)
            && (Peek(env, bytes, true).value.reliable.Some? <==> HasReliableHeader(env.schema, p.ty))
            && (Peek(env, bytes, true).value.reliable.Some? ==>
                !Bit(Peek(env, bytes, true).value.reliable.value.flags, FLAG_ACK_ONLY))
  {
    var body := bytes[..|bytes| - CRC_BYTES];
    var (wireTy, c1) := Uleb(body, 2).value;
    var (size, c2) := Uleb(body, c1).value;
    var (ts, c3) := Uleb(body, c2).value;
    var c4 := SkipUleb(body, c3, FlagsOf(body[0]).nonce).value;
    var (source, c5) := Uleb(body, c4).value;
    RestAgrees(env, body, c5, FlagsOf(body[0]), wireTy, size, ts, source);
  }

  lemma RestAgrees(env: Env, body: bytestring, cur: nat, flags: FlagSet, wireTy: uint64, size: uint64, ts: uint64,
                   source: uint64)
    requires 2 <= cur <= |body| && DeserializeRest(env, body, cur, flags, wireTy, size, ts, source).Parsed?
    ensures var p := DeserializeRest(env, body, cur, flags, wireTy, size, ts, source).value;
            var r := PeekRest(env.schema, body, cur, flags, wireTy, ts, source);
            && r.Parsed? && r.value.envelope == Envelope(p.ty, p.endpoints, p.sender, p.timestamp)
            && (r.value.reliable.Some? <==> HasReliableHeader(env.schema, p.ty))
            && (r.value.reliable.Some? ==> !Bit(r.value.reliable.value.flags, FLAG_ACK_ONLY))
  {}

  /** On every byte string: whenever peek finds a reliable header, the offset reader points at
      the place where reading yields that header. */
  lemma OffsetAgrees(env: Env, bytes: bytestring, verifyCrc: bool)
    requires Peek(env, bytes, verifyCrc).Parsed? && Peek(env, bytes, verifyCrc).value.reliable.Some?
    ensures HeaderOffset(env, bytes).Parsed?
    ensures var body := bytes[..|bytes| - CRC_BYTES];
            var off := HeaderOffset(env, bytes).value;
            && off <= |body|
            && ReadHeader(body, off, FlagsOf(body[0]).compact).HeaderAt?
            && ReadHeader(body, off, FlagsOf(body[0]).compact).header
                == Peek(env, bytes, verifyCrc).value.reliable.value
  {
    var body := bytes[..|bytes| - CRC_BYTES];
    var (wireTy, c1) := Uleb(body, 2).value;
    var (size, c2) := Uleb(body, c1).value;
    var (ts, c3) := Uleb(body, c2).value;
    var c4 := SkipUleb(body, c3, FlagsOf(body[0]).nonce).value;
    var (source, c5) := Uleb(body, c4).value;
    OffsetRestAgrees(env.schema, body, c5, FlagsOf(body[0]), wireTy, ts, source);
  }

  lemma OffsetRestAgrees(sc: Schema, body: bytestring, cur: nat, flags: FlagSet, wireTy: uint64, ts: uint64,
                         source: uint64)
    requires 2 <= cur <= |body|
    requires PeekRest(sc, body, cur, flags, wireTy, ts, source).Parsed?
        && PeekRest(sc, body, cur, flags, wireTy, ts, source).value.reliable.Some?
    ensures var r := OffsetRest(sc, body, cur, flags, wireTy);
            && r.Parsed? && ReadHeader(body, r.value, flags.compact).HeaderAt?
            && ReadHeader(body, r.value, flags.compact).header
                == PeekRest(sc, body, cur, flags, wireTy, ts, source).value.reliable.value
  {}

  // ---------------------------------------------------------------- the checksum

  /** On every byte string: a frame whose last four bytes do not spell the checksum of the others is
      refused by the full reader and by the checking peek. */
  lemma WrongChecksum(env: Env, bytes: bytestring)
    requires |bytes| >= 6 && (env.crc)(bytes[..|bytes| - 4]) != FromLe32(bytes[|bytes| - 4..])
    ensures Deserialize(env, bytes) == Malformed && Peek(env, bytes, true) == Malformed
  {}

  lemma {:induction false} FromLe32Injective(a: bytestring, b: bytestring)
    requires |a| == |b| == 4 && FromLe32(a) == FromLe32(b)
    ensures a == b
  {
    var a0: int, a1: int, a2: int, a3: int := a[0], a[1], a[2], a[3];
    var b0: int, b1: int, b2: int, b3: int := b[0], b[1], b[2], b[3];
    assert a0 - b0 == 256 * ((b1 - a1) + 256 * (b2 - a2) + 0x1_0000 * (b3 - a3));
    assert a0 == b0;
    assert a1 - b1 == 256 * ((b2 - a2) + 256 * (b3 - a3));
    assert a1 == b1;
    assert a2 == b2 && a3 == b3;
    assert a == [a[0], a[1], a[2], a[3]] && b == [b[0], b[1], b[2], b[3]];
  }

  /** Any change confined to the last four bytes of a written frame is refused. */
  lemma ChangedTail(env: Env, body: bytestring, tail: bytestring)
    requires |body| >= 2 && |tail| == 4 && body + tail != Seal(env, body)
    ensures Deserialize(env, body + tail) == Malformed && Peek(env, body + tail, true) == Malformed
  {
    var bytes, good := body + tail, Le32((env.crc)(body));
    assert bytes[..|bytes| - 4] == body && bytes[|bytes| - 4..] == tail;
    Le32RoundTrip((env.crc)(body));
    if FromLe32(tail) == (env.crc)(body) { FromLe32Injective(tail, good); }
    WrongChecksum(env, bytes);
  }

  /** The bytes end with the checksum of what comes before. */
  ghost predicate Sealed(env: Env, bytes: bytestring) { exists body :: |body| >= 2 && bytes == Seal(env, body) }

  lemma ReliableSealed(env: Env, p: Packet, h: Header)
    ensures Sealed(env, SerializeReliable(env, p, h))
  {
    var sc, compact := env.schema, ShouldCompact(h);
    var head := if HasReliableHeader(sc, p.ty) then HeaderBytes(h, compact) else [];
    var body := FrameBody(FrameFlags(env, p, compact), |p.endpoints| % 256, WireTypeId(sc, p.ty), |p.payload|,
                          p.timestamp, (env.address)(p.sender), BitmapOf(sc, p.endpoints),
                          head + WirePayload(env, p.payload));
    assert SerializeReliable(env, p, h) == Seal(env, body);
  }

  /** Everything the serializers write is sealed, so that ChangedTail applies to it. */
  lemma WrittenSealed(env: Env, p: Packet)
    ensures Sealed(env, SerializePacket(env, p))
  {
    var sc := env.schema;
    if IsLinkAck(p) {
      var wire := FromLe32(p.payload[..4]);
      var ty := match LocalTypeId(sc, wire) case Some(t) => t case None => wire;
      var body := FrameBody(0x60, 0, WireTypeId(sc, ty), 0, p.timestamp, (env.address)(p.sender), EMPTY,
                            HeaderBytes(Header(1, 0, FromLe32(p.payload[4..])), true));
      assert SerializePacket(env, p) == Seal(env, body);
    } else if HasReliableHeader(sc, p.ty) {
      ReliableSealed(env, p, Header(0x80, 0, 0));
    } else {
      var body := FrameBody(FrameFlags(env, p, false), |p.endpoints| % 256, WireTypeId(sc, p.ty), |p.payload|,
                            p.timestamp, (env.address)(p.sender), BitmapOf(sc, p.endpoints),
                            WirePayload(env, p.payload));
      assert SerializePacket(env, p) == Seal(env, body);
    }
  }
}
