/** v4 frames as other writers may form them: a nonce and a contract block may be present, the endpoint
    bitmap may be absent. The readers skip what they do not use and find every field. */
module ForeignFrames {
  import opened Bytes
  import opened Uleb128
  import opened Packets
  import opened Schema
  import opened EndpointBitmap
  import opened Frames
  import opened FrameProofs

  /** The optional parts of a frame. */
  datatype Extras = Extras(nonce: Option<uint64>, contract: Option<bytestring>, listed: Option<bitmap>)

  function NonceBytes(x: Extras): bytestring { if x.nonce.Some? then Encode(x.nonce.value) else [] }

  function ContractBytes(x: Extras): bytestring {
    if x.contract.Some? then Encode(|x.contract.value|) + x.contract.value else []
  }

  function MapBytes(x: Extras): bytestring { if x.listed.Some? then x.listed.value else [] }

  /** The first byte announces exactly the parts that are there: bit 2 a contract, bit 3 a nonce, bit 5 a
      bitmap. */
  predicate Announces(f: byte, x: Extras) {
    && (Bit(f, 2) <==> x.contract.Some?) && (Bit(f, 3) <==> x.nonce.Some?) && (Bit(f, 5) <==> x.listed.Some?)
    && (x.contract.Some? ==> |x.contract.value| < TWO64)
  }

  function ForeignBody(f: byte, nep: byte, wireTy: uint64, size: uint64, ts: uint64, source: uint64, x: Extras,
                       tail: bytestring): bytestring
  {
    [f, nep] + (Encode(wireTy) + (Encode(size) + (Encode(ts) + (NonceBytes(x) + (Encode(source)
    + (MapBytes(x) + (ContractBytes(x) + tail)))))))
  }

  /** Where the fields stand: the sender behind c4, the bitmap at c5, the contract at c6, the tail at c7. */
  datatype Layout = Layout(c1: nat, c2: nat, c3: nat, c4: nat, c5: nat, c6: nat, c7: nat)

  function LayoutOf(wireTy: uint64, size: uint64, ts: uint64, source: uint64, x: Extras): Layout {
    var c1 := 2 + |Encode(wireTy)|;
    var c2 := c1 + |Encode(size)|;
    var c3 := c2 + |Encode(ts)|;
    var c4 := c3 + |NonceBytes(x)|;
    var c5 := c4 + |Encode(source)|;
    var c6 := c5 + |MapBytes(x)|;
    Layout(c1, c2, c3, c4, c5, c6, c6 + |ContractBytes(x)|)
  }

  /** Where the parts of a longer nested concatenation stand. */
  lemma NineAt(s: bytestring, a: bytestring, b: bytestring, c: bytestring, d: bytestring, e: bytestring, f: bytestring,
               g: bytestring, h: bytestring, i: bytestring)
    requires s == a + (b + (c + (d + (e + (f + (g + (h + i)))))))
    ensures At(s, 0, a) && At(s, |a|, b) && At(s, |a| + |b|, c) && At(s, |a| + |b| + |c|, d)
    ensures var n := |a| + |b| + |c| + |d|;
            && At(s, n, e) && At(s, n + |e|, f) && At(s, n + |e| + |f|, g) && At(s, n + |e| + |f| + |g|, h)
            && At(s, n + |e| + |f| + |g| + |h|, i) && n + |e| + |f| + |g| + |h| + |i| == |s|
  {
    PartsAt(s, a, b, c, d, e, f, g + (h + i));
    AtThree(s, |a| + |b| + |c| + |d| + |e| + |f|, g, h, i);
  }

  /** What the readers come across: type, size and time, then the nonce and the sender. */
  ghost predicate LeadsFirst(b: bytestring, f: byte, nep: byte, wireTy: uint64, size: uint64, ts: uint64, l: Layout) {
    && 2 <= l.c1 <= l.c2 <= l.c3 <= |b| && b[0] == f && b[1] == nep
    && ReadUleb(b, 2) == Value(wireTy, l.c1) && ReadUleb(b, l.c1) == Value(size, l.c2)
    && ReadUleb(b, l.c2) == Value(ts, l.c3)
  }

  ghost predicate LeadsNext(b: bytestring, source: uint64, nonce: bool, l: Layout) {
    && l.c3 <= l.c4 <= l.c5 <= |b| && SkipUleb(b, l.c3, nonce) == Parsed(l.c4)
    && ReadUleb(b, l.c4) == Value(source, l.c5)
  }

  lemma FirstRead(b: bytestring, f: byte, nep: byte, wireTy: uint64, size: uint64, ts: uint64, l: Layout)
    requires l.c1 == 2 + |Encode(wireTy)| && l.c2 == l.c1 + |Encode(size)| && l.c3 == l.c2 + |Encode(ts)|
    requires At(b, 0, [f, nep]) && At(b, 2, Encode(wireTy)) && At(b, l.c1, Encode(size)) && At(b, l.c2, Encode(ts))
    ensures LeadsFirst(b, f, nep, wireTy, size, ts, l)
  {
    assert b[..2][0] == f && b[..2][1] == nep;
    UlebRoundTrip(b, 2, wireTy);
    UlebRoundTrip(b, l.c1, size);
    UlebRoundTrip(b, l.c2, ts);
  }

  lemma NextRead(b: bytestring, source: uint64, x: Extras, l: Layout)
    requires l.c4 == l.c3 + |NonceBytes(x)| && l.c5 == l.c4 + |Encode(source)|
    requires At(b, l.c3, NonceBytes(x)) && At(b, l.c4, Encode(source))
    ensures LeadsNext(b, source, x.nonce.Some?, l)
  {
    NonceSkipped(b, l.c3, x);
    UlebRoundTrip(b, l.c4, source);
  }

  lemma NonceSkipped(b: bytestring, cur: nat, x: Extras)
    requires At(b, cur, NonceBytes(x))
    ensures SkipUleb(b, cur, x.nonce.Some?) == Parsed(cur + |NonceBytes(x)|)
  {
    if x.nonce.Some? { UlebRoundTrip(b, cur, x.nonce.value); }
  }

  lemma ContractSkipped(b: bytestring, cur: nat, x: Extras)
    requires At(b, cur, ContractBytes(x)) && (x.contract.Some? ==> |x.contract.value| < TWO64)
    ensures SkipContract(b, cur, x.contract.Some?) == Parsed(cur + |ContractBytes(x)|)
  {
    if x.contract.Some? {
      AtConcat(b, cur, Encode(|x.contract.value|), x.contract.value);
      UlebRoundTrip(b, cur, |x.contract.value|);
    }
  }

  /** Both readers come down to their second halves behind the sender. */
  lemma ReadersMeet(env: Env, bytes: bytestring, b: bytestring, f: byte, nep: byte, wireTy: uint64, size: uint64,
                    ts: uint64, source: uint64, l: Layout)
    requires IsV4(f) && LeadsFirst(b, f, nep, wireTy, size, ts, l) && LeadsNext(b, source, FlagsOf(f).nonce, l)
    requires |bytes| == |b| + 4 && bytes[..|bytes| - 4] == b && CrcHolds(env, bytes)
    ensures Deserialize(env, bytes) == DeserializeRest(env, b, l.c5, FlagsOf(f), wireTy, size, ts, source)
    ensures Peek(env, bytes, true) == PeekRest(env.schema, b, l.c5, FlagsOf(f), wireTy, ts, source)
    ensures HeaderOffset(env, bytes) == OffsetRest(env.schema, b, l.c5, FlagsOf(f), wireTy)
  {
    assert bytes[0] == f;
  }

  /** The endpoints a frame stands for: the bitmap's, or those its type is registered with. */
  function EndpointsOf(sc: Schema, ty: nat, x: Extras): seq<nat>
    requires ty < |sc.types|
  {
    if x.listed.Some? then ParseBitmap(sc, x.listed.value) else sc.types[ty].endpoints
  }

  /** What the second halves come across: the contract ends at c7, the header at c8. */
  ghost predicate Follows(sc: Schema, b: bytestring, f: byte, wireTy: uint64, ty: nat, eps: seq<nat>,
                          hdr: Option<Header>, c5: nat, c7: nat, c8: nat)
  {
    && ResolveType(sc, wireTy) == Parsed(ty) && 2 <= c5 <= |b| && b[1] == |eps|
    && (if Bit(f, 5) then c5 + 32 <= |b| && ParseBitmap(sc, b[c5..c5 + 32]) == eps else sc.types[ty].endpoints == eps)
    && SkipContract(b, if Bit(f, 5) then c5 + 32 else c5, Bit(f, 2)) == Parsed(c7)
    && c7 <= c8 <= |b| && HeaderReads(sc, ty, b, c7, Bit(f, 6), hdr, c8)
  }

  lemma FollowsPeek(sc: Schema, b: bytestring, f: byte, wireTy: uint64, ts: uint64, source: uint64, ty: nat,
                    eps: seq<nat>, hdr: Option<Header>, c5: nat, c7: nat, c8: nat)
    requires Follows(sc, b, f, wireTy, ty, eps, hdr, c5, c7, c8)
    ensures PeekRest(sc, b, c5, FlagsOf(f), wireTy, ts, source)
            == Parsed(FrameInfo(Envelope(ty, eps, AddressName(source), ts), hdr))
  {}

  lemma FollowsOffset(sc: Schema, b: bytestring, f: byte, wireTy: uint64, ty: nat, eps: seq<nat>, hdr: Option<Header>,
                      c5: nat, c7: nat, c8: nat)
    requires Follows(sc, b, f, wireTy, ty, eps, hdr, c5, c7, c8) && hdr.Some?
    ensures OffsetRest(sc, b, c5, FlagsOf(f), wireTy) == Parsed(c7)
  {}

  lemma FollowsPacket(env: Env, b: bytestring, f: byte, wireTy: uint64, size: uint64, ts: uint64, source: uint64,
                      ty: nat, eps: seq<nat>, hdr: Option<Header>, c5: nat, c7: nat, c8: nat, payload: bytestring)
    requires Follows(env.schema, b, f, wireTy, ty, eps, hdr, c5, c7, c8)
    requires Inflate(env, b[c8..], size, Bit(f, 0)) == payload && |payload| == size
    ensures DeserializeRest(env, b, c5, FlagsOf(f), wireTy, size, ts, source)
            == if hdr.Some? && Bit(hdr.value.flags, FLAG_ACK_ONLY) then Malformed
               else Parsed(Packet(ty, AddressName(source), eps, ts, payload))
  {}

  /** Bitmap, contract and tail where the layout has them. */
  ghost predicate TailAt(b: bytestring, x: Extras, l: Layout, tail: bytestring) {
    && 2 <= l.c5 && l.c6 == l.c5 + |MapBytes(x)| && l.c7 == l.c6 + |ContractBytes(x)| && l.c7 + |tail| == |b|
    && At(b, l.c5, MapBytes(x)) && At(b, l.c6, ContractBytes(x)) && At(b, l.c7, tail)
  }

  lemma TailFollows(sc: Schema, b: bytestring, f: byte, nep: byte, wireTy: uint64, x: Extras, l: Layout, ty: nat,
                    tail: bytestring, hdr: Option<Header>, c8: nat)
    requires Announces(f, x) && TailAt(b, x, l, tail) && b[1] == nep && l.c7 <= c8 <= |b|
    requires ResolveType(sc, wireTy) == Parsed(ty) && |EndpointsOf(sc, ty, x)| == nep
    requires HeaderReads(sc, ty, b, l.c7, Bit(f, 6), hdr, c8)
    ensures Follows(sc, b, f, wireTy, ty, EndpointsOf(sc, ty, x), hdr, l.c5, l.c7, c8)
  {
    ContractSkipped(b, l.c6, x);
    MapFollows(sc, b, f, x, l.c5, ty);
    TailAssembled(sc, b, f, wireTy, l, ty, EndpointsOf(sc, ty, x), hdr, c8);
  }

  lemma TailAssembled(sc: Schema, b: bytestring, f: byte, wireTy: uint64, l: Layout, ty: nat, eps: seq<nat>,
                      hdr: Option<Header>, c8: nat)
    requires ResolveType(sc, wireTy) == Parsed(ty) && 2 <= l.c5 <= |b| && b[1] == |eps| && l.c7 <= c8 <= |b|
    requires l.c6 <= |b| && l.c6 == if Bit(f, 5) then l.c5 + 32 else l.c5
    requires if Bit(f, 5) then ParseBitmap(sc, b[l.c5..l.c5 + 32]) == eps else sc.types[ty].endpoints == eps
    requires SkipContract(b, l.c6, Bit(f, 2)) == Parsed(l.c7) && HeaderReads(sc, ty, b, l.c7, Bit(f, 6), hdr, c8)
    ensures Follows(sc, b, f, wireTy, ty, eps, hdr, l.c5, l.c7, c8)
  {}

  lemma HeadRead(sc: Schema, b: bytestring, cur: nat, ty: nat, compact: bool, head: bytestring, hdr: Option<Header>,
                 wire: bytestring)
    requires At(b, cur, head + wire) && cur + |head + wire| == |b| && HeaderPart(sc, ty, compact, head, hdr)
    ensures HeaderReads(sc, ty, b, cur, compact, hdr, cur + |head|) && b[cur + |head|..] == wire
  {
    AtConcat(b, cur, head, wire);
  }

  lemma MapFollows(sc: Schema, b: bytestring, f: byte, x: Extras, cur: nat, ty: nat)
    requires At(b, cur, MapBytes(x)) && (Bit(f, 5) <==> x.listed.Some?) && ty < |sc.types|
    ensures if Bit(f, 5) then cur + 32 <= |b| && ParseBitmap(sc, b[cur..cur + 32]) == EndpointsOf(sc, ty, x)
            else sc.types[ty].endpoints == EndpointsOf(sc, ty, x)
  {}

  /** All pieces of a body where the layout has them. */
  ghost predicate PiecesAt(b: bytestring, f: byte, nep: byte, wireTy: uint64, size: uint64, ts: uint64, source: uint64,
                           x: Extras, l: Layout)
  {
    && At(b, 0, [f, nep]) && At(b, 2, Encode(wireTy)) && At(b, l.c1, Encode(size)) && At(b, l.c2, Encode(ts))
    && At(b, l.c3, NonceBytes(x)) && At(b, l.c4, Encode(source))
    && l.c1 == 2 + |Encode(wireTy)| && l.c2 == l.c1 + |Encode(size)| && l.c3 == l.c2 + |Encode(ts)|
    && l.c4 == l.c3 + |NonceBytes(x)| && l.c5 == l.c4 + |Encode(source)|
  }

  lemma PiecesHold(f: byte, nep: byte, wireTy: uint64, size: uint64, ts: uint64, source: uint64, x: Extras,
                   tail: bytestring)
    ensures var b, l := ForeignBody(f, nep, wireTy, size, ts, source, x, tail), LayoutOf(wireTy, size, ts, source, x);
            PiecesAt(b, f, nep, wireTy, size, ts, source, x, l) && TailAt(b, x, l, tail)
  {
    PartsHold(ForeignBody(f, nep, wireTy, size, ts, source, x, tail), [f, nep], Encode(wireTy), Encode(size),
              Encode(ts), NonceBytes(x), Encode(source), MapBytes(x), ContractBytes(x), tail,
              LayoutOf(wireTy, size, ts, source, x));
  }

  lemma PartsHold(s: bytestring, a: bytestring, b: bytestring, c: bytestring, d: bytestring, e: bytestring,
                  f: bytestring, g: bytestring, h: bytestring, i: bytestring, l: Layout)
    requires |a| == 2 && s == a + (b + (c + (d + (e + (f + (g + (h + i)))))))
    requires l.c1 == 2 + |b| && l.c2 == l.c1 + |c| && l.c3 == l.c2 + |d| && l.c4 == l.c3 + |e|
    requires l.c5 == l.c4 + |f| && l.c6 == l.c5 + |g| && l.c7 == l.c6 + |h|
    ensures At(s, 0, a) && At(s, 2, b) && At(s, l.c1, c) && At(s, l.c2, d) && At(s, l.c3, e) && At(s, l.c4, f)
    ensures At(s, l.c5, g) && At(s, l.c6, h) && At(s, l.c7, i) && l.c7 + |i| == |s|
  {
    NineAt(s, a, b, c, d, e, f, g, h, i);
  }

  lemma PiecesLead(b: bytestring, f: byte, nep: byte, wireTy: uint64, size: uint64, ts: uint64, source: uint64,
                   x: Extras, l: Layout)
    requires PiecesAt(b, f, nep, wireTy, size, ts, source, x, l)
    ensures LeadsFirst(b, f, nep, wireTy, size, ts, l) && LeadsNext(b, source, x.nonce.Some?, l)
  {
    FirstRead(b, f, nep, wireTy, size, ts, l);
    NextRead(b, source, x, l);
  }

  /** What the three readers make of a frame: the peek finds type, endpoints, sender, time and header, the full
      reader the packet unless the header is an acknowledgement only, and the header stands at `at`. */
  ghost predicate ReadAs(env: Env, bytes: bytestring, ty: nat, eps: seq<nat>, source: uint64, ts: uint64,
                         hdr: Option<Header>, at: nat, payload: bytestring)
  {
    && Peek(env, bytes, true) == Parsed(FrameInfo(Envelope(ty, eps, AddressName(source), ts), hdr))
    && Deserialize(env, bytes) == (if hdr.Some? && Bit(hdr.value.flags, FLAG_ACK_ONLY) then Malformed
                                   else Parsed(Packet(ty, AddressName(source), eps, ts, payload)))
    && (hdr.Some? ==> HeaderOffset(env, bytes) == Parsed(at))
  }

  /** What the readers come across in any well-formed v4 frame, whatever optional parts it has. */
  lemma ForeignShown(sc: Schema, f: byte, nep: byte, wireTy: uint64, size: uint64, ts: uint64, source: uint64,
                     x: Extras, ty: nat, head: bytestring, hdr: Option<Header>, wire: bytestring, b: bytestring,
                     l: Layout)
    requires b == ForeignBody(f, nep, wireTy, size, ts, source, x, head + wire)
    requires l == LayoutOf(wireTy, size, ts, source, x) && Announces(f, x)
    requires ResolveType(sc, wireTy) == Parsed(ty) && |EndpointsOf(sc, ty, x)| == nep
    requires HeaderPart(sc, ty, Bit(f, 6), head, hdr)
    ensures LeadsFirst(b, f, nep, wireTy, size, ts, l) && LeadsNext(b, source, Bit(f, 3), l)
    ensures Follows(sc, b, f, wireTy, ty, EndpointsOf(sc, ty, x), hdr, l.c5, l.c7, l.c7 + |head|)
    ensures b[l.c7 + |head|..] == wire
  {
    PiecesHold(f, nep, wireTy, size, ts, source, x, head + wire);
    PiecesLead(b, f, nep, wireTy, size, ts, source, x, l);
    TailShown(sc, b, f, nep, wireTy, x, l, ty, head, hdr, wire);
  }

  lemma TailShown(sc: Schema, b: bytestring, f: byte, nep: byte, wireTy: uint64, x: Extras, l: Layout, ty: nat,
                  head: bytestring, hdr: Option<Header>, wire: bytestring)
    requires Announces(f, x) && TailAt(b, x, l, head + wire) && b[1] == nep
    requires ResolveType(sc, wireTy) == Parsed(ty) && |EndpointsOf(sc, ty, x)| == nep
    requires HeaderPart(sc, ty, Bit(f, 6), head, hdr)
    ensures Follows(sc, b, f, wireTy, ty, EndpointsOf(sc, ty, x), hdr, l.c5, l.c7, l.c7 + |head|)
    ensures b[l.c7 + |head|..] == wire
  {
    HeadRead(sc, b, l.c7, ty, Bit(f, 6), head, hdr, wire);
    TailFollows(sc, b, f, nep, wireTy, x, l, ty, head + wire, hdr, l.c7 + |head|);
  }

  /** A sealed frame in which the readers come across all this is read as what it says: bit 0 of the first byte
      announces compression, bit 6 the compact header. The three readers find the same fields. */
  lemma ShownReads(env: Env, b: bytestring, f: byte, nep: byte, wireTy: uint64, size: uint64, ts: uint64,
                   source: uint64, ty: nat, eps: seq<nat>, hdr: Option<Header>, l: Layout, c8: nat,
                   payload: bytestring)
    requires IsV4(f) && LeadsFirst(b, f, nep, wireTy, size, ts, l) && LeadsNext(b, source, Bit(f, 3), l)
    requires Follows(env.schema, b, f, wireTy, ty, eps, hdr, l.c5, l.c7, c8)
    requires Inflate(env, b[c8..], size, Bit(f, 0)) == payload && |payload| == size
    ensures ReadAs(env, Seal(env, b), ty, eps, source, ts, hdr, l.c7, payload)
  {
    SealHolds(env, b);
    ReadersMeet(env, Seal(env, b), b, f, nep, wireTy, size, ts, source, l);
    FollowsAll(env, b, f, wireTy, size, ts, source, ty, eps, hdr, l.c5, l.c7, c8, payload);
  }

  lemma FollowsAll(env: Env, b: bytestring, f: byte, wireTy: uint64, size: uint64, ts: uint64, source: uint64,
                   ty: nat, eps: seq<nat>, hdr: Option<Header>, c5: nat, c7: nat, c8: nat, payload: bytestring)
    requires Follows(env.schema, b, f, wireTy, ty, eps, hdr, c5, c7, c8)
    requires Inflate(env, b[c8..], size, Bit(f, 0)) == payload && |payload| == size
    ensures PeekRest(env.schema, b, c5, FlagsOf(f), wireTy, ts, source)
            == Parsed(FrameInfo(Envelope(ty, eps, AddressName(source), ts), hdr))
    ensures DeserializeRest(env, b, c5, FlagsOf(f), wireTy, size, ts, source)
            == if hdr.Some? && Bit(hdr.value.flags, FLAG_ACK_ONLY) then Malformed
               else Parsed(Packet(ty, AddressName(source), eps, ts, payload))
    ensures hdr.Some? ==> OffsetRest(env.schema, b, c5, FlagsOf(f), wireTy) == Parsed(c7)
  {
    FollowsPeek(env.schema, b, f, wireTy, ts, source, ty, eps, hdr, c5, c7, c8);
    FollowsPacket(env, b, f, wireTy, size, ts, source, ty, eps, hdr, c5, c7, c8, payload);
    if hdr.Some? { FollowsOffset(env.schema, b, f, wireTy, ty, eps, hdr, c5, c7, c8); }
  }

  // ---------------------------------------------------------------- nothing else is read

  /** What a read frame must have shown: sender address, numbers, layout, header and where the payload starts. */
  datatype Witness = Witness(wireTy: uint64, size: uint64, ts: uint64, source: uint64, l: Layout, hdr: Option<Header>,
                             c8: nat)

  /** A frame that passes for one with the given type and endpoints. */
  ghost predicate Shown(env: Env, bytes: bytestring, ty: nat, eps: seq<nat>, w: Witness) {
    && |bytes| >= 6 && IsV4(bytes[0])
    && var body := bytes[..|bytes| - 4];
       && LeadsFirst(body, bytes[0], bytes[1], w.wireTy, w.size, w.ts, w.l)
       && LeadsNext(body, w.source, Bit(bytes[0], 3), w.l)
       && Follows(env.schema, body, bytes[0], w.wireTy, ty, eps, w.hdr, w.l.c5, w.l.c7, w.c8)
  }

  /** The second half of a read packet. */
  lemma RestShown(env: Env, b: bytestring, c5: nat, f: byte, wireTy: uint64, size: uint64, ts: uint64, source: uint64,
                  p: Packet) returns (hdr: Option<Header>, c7: nat, c8: nat)
    requires 2 <= c5 <= |b| && DeserializeRest(env, b, c5, FlagsOf(f), wireTy, size, ts, source) == Parsed(p)
    ensures Follows(env.schema, b, f, wireTy, p.ty, p.endpoints, hdr, c5, c7, c8)
    ensures p.sender == AddressName(source) && p.timestamp == ts && |p.payload| == size
    ensures p.payload == Inflate(env, b[c8..], size, Bit(f, 0))
    ensures hdr.Some? ==> !Bit(hdr.value.flags, 0)
  {
    var sc := env.schema;
    c7 := SkipContract(b, if Bit(f, 5) then c5 + 32 else c5, Bit(f, 2)).value;
    c8 := SkipPacketHeader(sc, b, c7, p.ty, Bit(f, 6)).value;
    hdr := if HasReliableHeader(sc, p.ty) then Some(ReadHeader(b, c7, Bit(f, 6)).header) else None;
  }

  /** Nothing malformed is taken for a packet: whatever byte string the full reader accepts carries a right checksum,
      a type the schema knows, as many endpoints as it claims, no ack-only header and a payload of the stated size;
      sender, time and payload are those of the frame. */
  lemma AcceptedFrame(env: Env, bytes: bytestring, p: Packet) returns (w: Witness)
    requires Deserialize(env, bytes) == Parsed(p)
    ensures Shown(env, bytes, p.ty, p.endpoints, w)
    ensures (env.crc)(bytes[..|bytes| - 4]) == FromLe32(bytes[|bytes| - 4..])
    ensures |p.endpoints| == bytes[1] && |p.payload| == w.size
    ensures p.timestamp == w.ts && p.sender == AddressName(w.source)
    ensures p.payload == Inflate(env, bytes[..|bytes| - 4][w.c8..], w.size, Bit(bytes[0], 0))
    ensures w.hdr.Some? ==> !Bit(w.hdr.value.flags, 0)
  {
    var b, f := bytes[..|bytes| - 4], bytes[0];
    var c1 := ReadUleb(b, 2).next;
    var c2 := ReadUleb(b, c1).next;
    var c3 := ReadUleb(b, c2).next;
    var c4 := SkipUleb(b, c3, Bit(f, 3)).value;
    var c5 := ReadUleb(b, c4).next;
    var wireTy, size, ts := ReadUleb(b, 2).value, ReadUleb(b, c1).value, ReadUleb(b, c2).value;
    var source := ReadUleb(b, c4).value;
    var hdr, c7, c8 := RestShown(env, b, c5, f, wireTy, size, ts, source, p);
    w := Witness(wireTy, size, ts, source, Layout(c1, c2, c3, c4, c5, c5, c7), hdr, c8);
  }

  lemma RestPeeked(sc: Schema, b: bytestring, c5: nat, f: byte, wireTy: uint64, ts: uint64, source: uint64,
                   info: FrameInfo) returns (hdr: Option<Header>, c7: nat, c8: nat)
    requires 2 <= c5 <= |b| && PeekRest(sc, b, c5, FlagsOf(f), wireTy, ts, source) == Parsed(info)
    ensures Follows(sc, b, f, wireTy, info.envelope.ty, info.envelope.endpoints, hdr, c5, c7, c8)
    ensures info == FrameInfo(Envelope(info.envelope.ty, info.envelope.endpoints, AddressName(source), ts), hdr)
  {
    c7 := SkipContract(b, if Bit(f, 5) then c5 + 32 else c5, Bit(f, 2)).value;
    hdr := info.reliable;
    c8 := if hdr.Some? then ReadHeader(b, c7, Bit(f, 6)).next else c7;
  }

  /** The same for the peek, which does not look at the payload and checks the checksum only on demand. */
  lemma AcceptedPeek(env: Env, bytes: bytestring, verifyCrc: bool, info: FrameInfo) returns (w: Witness)
    requires Peek(env, bytes, verifyCrc) == Parsed(info)
    ensures Shown(env, bytes, info.envelope.ty, info.envelope.endpoints, w)
    ensures verifyCrc ==> (env.crc)(bytes[..|bytes| - 4]) == FromLe32(bytes[|bytes| - 4..])
    ensures |info.envelope.endpoints| == bytes[1]
    ensures info == FrameInfo(Envelope(info.envelope.ty, info.envelope.endpoints, AddressName(w.source), w.ts), w.hdr)
  {
    var b, f := bytes[..|bytes| - 4], bytes[0];
    var c1 := ReadUleb(b, 2).next;
    var c2 := ReadUleb(b, c1).next;
    var c3 := ReadUleb(b, c2).next;
    var c4 := SkipUleb(b, c3, Bit(f, 3)).value;
    var c5 := ReadUleb(b, c4).next;
    var wireTy, size, ts := ReadUleb(b, 2).value, ReadUleb(b, c1).value, ReadUleb(b, c2).value;
    var source := ReadUleb(b, c4).value;
    var hdr, c7, c8 := RestPeeked(env.schema, b, c5, f, wireTy, ts, source, info);
    w := Witness(wireTy, size, ts, source, Layout(c1, c2, c3, c4, c5, c5, c7), hdr, c8);
  }

  // ---------------------------------------------------------------- sender names

  /** The number that decimal digits spell. */
  ghost function NumberIn(digits: bytestring): int {
    if digits == [] then 0
    else
      var last: int := digits[|digits| - 1];
      10 * NumberIn(digits[..|digits| - 1]) + (last - 48)
  }

  lemma {:induction false} DecimalReads(n: nat)
    ensures NumberIn(Decimal(n)) == n && Decimal(n) != []
    ensures forall i :: 0 <= i < |Decimal(n)| ==> 48 <= Decimal(n)[i] <= 57
  {
    var d := Decimal(n);
    if n < 10 {
      assert d[..0] == [];
    } else {
      DecimalReads(n / 10);
      assert d[..|d| - 1] == Decimal(n / 10);
    }
  }

  /** A reader names an unknown sender "@addr:" and its address in decimal, so different addresses stay apart. */
  lemma SendersApart(a: nat, b: nat)
    ensures AddressName(a)[..6] == [64, 97, 100, 100, 114, 58] && NumberIn(AddressName(a)[6..]) == a
    ensures AddressName(a) == AddressName(b) ==> a == b
  {
    DecimalReads(a);
    DecimalReads(b);
    assert AddressName(a)[6..] == Decimal(a) && AddressName(b)[6..] == Decimal(b);
  }

  // ---------------------------------------------------------------- formats pinned by their bytes

  lemma {:induction false} NoBitsNoNumber(x: nat, n: nat)
    requires x < Pow2(n) && forall k :: 0 <= k < n ==> !Bit(x, k)
    ensures x == 0
  {
    if n > 0 {
      forall k | 0 <= k < n - 1 ensures !Bit(x / 2, k) { assert !Bit(x, k + 1); }
      NoBitsNoNumber(x / 2, n - 1);
      assert !Bit(x, 0);
    }
  }

  /** The old format is recognised by a first byte of 0 or 1, and by nothing else. */
  lemma LegacyBytes(f: byte)
    ensures IsV4(f) <==> f >= 2
  {
    var x: nat := f / 2;
    forall k | 1 <= k < 8 ensures Bit(f, k) == Bit(x, k - 1) {}
    if f < 2 {
      forall k | 1 <= k < 8 ensures !Bit(f, k) { ZeroBits(k - 1); }
    } else if !IsV4(f) {
      assert Pow2(3) == 8 && Pow2(5) == 32 && Pow2(7) == 128;
      forall k | 0 <= k < 7 ensures !Bit(x, k) { assert Bit(f, k + 1) == Bit(x, k); }
      NoBitsNoNumber(x, 7);
    }
  }

  /** A compact header costs one byte and the fields it needs. It beats the nine bytes of the fixed form, but for
      ack-only headers that carry a number, which nobody writes. */
  lemma HeaderLengths(h: Header)
    ensures !Bit(h.flags, FLAG_ACK_ONLY) || h.seqno == 0 ==> |HeaderBytes(h, ShouldCompact(h))| <= 9
    ensures h.seqno == 0 || h.ack == 0 ==> |HeaderBytes(h, ShouldCompact(h))| <= 7
    ensures !Bit(h.flags, FLAG_ACK_ONLY) && h.ack == 0 ==>
              HeaderBytes(h, ShouldCompact(h)) == [SetBit(h.flags, 2)] + Encode(h.seqno)
    ensures Bit(h.flags, FLAG_ACK_ONLY) && h.seqno == 0 ==>
              HeaderBytes(h, ShouldCompact(h)) == [SetBit(h.flags, 3)] + Encode(h.ack)
  {
    FiveBytes(h.seqno);
    FiveBytes(h.ack);
    assert |Encode(0)| == 1;
    assert [] + Encode(h.ack) == Encode(h.ack) && Encode(h.seqno) + [] == Encode(h.seqno);
  }

  lemma FiveBytes(v: uint32)
    ensures |Encode(v)| <= 5
  {
    assert Pow128(2) == 16384 && Pow128(4) == 16384 * 16384 && Pow128(5) == 128 * Pow128(4);
    EncodeLength(v, 5);
  }

  /** The examples of section 7.6 of DWARF 5. */
  lemma UlebExamples()
    ensures Encode(2) == [2] && Encode(127) == [127] && Encode(128) == [0x80, 1] && Encode(129) == [0x81, 1]
    ensures Encode(12857) == [57 + 0x80, 100]
  {
    assert Encode(1) == [1] && Encode(100) == [100];
  }

  /** One ordered user type at 100 with one endpoint at 100. */
  predicate Plain100(sc: Schema) {
    && |sc.types| == 101 && sc.types[100] == TypeInfo(UserType("A"), ReliableMode.Ordered, false, [100])
    && ValidEndpoint(sc, 100)
  }

  /** A written frame byte by byte: three payload bytes of type 100 for endpoint 100, sent at 5 by the sender
      with address 7 under sequence number 9. */
  lemma FrameExample(env: Env, p: Packet)
    requires Plain100(env.schema) && p.ty == 100 && p.endpoints == [100] && p.timestamp == 5 && p.payload == [1, 2, 3]
    requires (env.address)(p.sender) == 7 && (env.compress)(p.payload) == None
    ensures var body := [0x60, 1, 100, 3, 5, 7] + (seq(12, _ => 0) + [16] + seq(19, _ => 0)) + [4, 9, 1, 2, 3];
            SerializeReliable(env, p, Header(0, 9, 0)) == body + Le32((env.crc)(body))
  {
    var bm: bitmap := seq(12, _ => 0) + [16] + seq(19, _ => 0);
    MapExample(env.schema);
    FieldsExample(env, p, bm);
    BodyExample(bm);
  }

  lemma FieldsExample(env: Env, p: Packet, bm: bitmap)
    requires Plain100(env.schema) && p.ty == 100 && p.endpoints == [100] && p.timestamp == 5 && p.payload == [1, 2, 3]
    requires (env.address)(p.sender) == 7 && (env.compress)(p.payload) == None && BitmapOf(env.schema, [100]) == bm
    ensures SerializeReliable(env, p, Header(0, 9, 0))
            == Seal(env, FrameBody(0x60, 1, 100, 3, 5, 7, bm, [4, 9] + [1, 2, 3]))
  {
    HeaderExample();
    TypeExample(env.schema);
    FlagsExample(env, p);
    FieldsWritten(env, p, Header(0, 9, 0), 0x60, 1, 100, bm, [4, 9], [1, 2, 3]);
  }

  lemma FieldsWritten(env: Env, p: Packet, h: Header, f: byte, n: byte, wireTy: uint64, bm: bitmap, head: bytestring,
                      wire: bytestring)
    requires HasReliableHeader(env.schema, p.ty) && |p.endpoints| == n && WireTypeId(env.schema, p.ty) == wireTy
    requires FrameFlags(env, p, ShouldCompact(h)) == f && BitmapOf(env.schema, p.endpoints) == bm
    requires HeaderBytes(h, ShouldCompact(h)) == head && WirePayload(env, p.payload) == wire
    ensures SerializeReliable(env, p, h)
            == Seal(env, FrameBody(f, n, wireTy, |p.payload|, p.timestamp, (env.address)(p.sender), bm, head + wire))
  {
    WrittenReliable(env, p, n, h);
  }

  lemma TypeExample(sc: Schema)
    requires Plain100(sc)
    ensures WireTypeId(sc, 100) == 100 && HasReliableHeader(sc, 100)
  {}

  lemma FlagsExample(env: Env, p: Packet)
    requires (env.compress)(p.payload) == None
    ensures FrameFlags(env, p, true) == 0x60 && WirePayload(env, p.payload) == p.payload
  {}

  lemma HeaderExample()
    ensures ShouldCompact(Header(0, 9, 0)) && HeaderBytes(Header(0, 9, 0), true) == [4, 9]
  {
    HeaderLengths(Header(0, 9, 0));
    NoFlags();
    SmallNumbers();
    assert SetBit(0, 2) == 2 * SetBit(0, 1) && SetBit(0, 1) == 2 * SetBit(0, 0);
  }

  lemma SmallNumbers()
    ensures Encode(100) == [100] && Encode(3) == [3] && Encode(5) == [5] && Encode(7) == [7] && Encode(9) == [9]
  {}

  lemma BodyExample(bm: bitmap)
    ensures FrameBody(0x60, 1, 100, 3, 5, 7, bm, [4, 9] + [1, 2, 3]) == [0x60, 1, 100, 3, 5, 7] + bm + [4, 9, 1, 2, 3]
  {
    SmallNumbers();
    assert [4, 9] + [1, 2, 3] == [4, 9, 1, 2, 3];
    assert [0x60, 1, 100, 3, 5, 7] == [0x60, 1] + ([100] + ([3] + ([5] + [7])));
  }

  /** Endpoint 100 is bit 4 of byte 12. */
  lemma MapExample(sc: Schema)
    requires Plain100(sc)
    ensures BitmapOf(sc, [100]) == seq(12, _ => 0) + [16] + seq(19, _ => 0)
  {
    assert [100][1..] == [];
    assert BitmapOf(sc, [100]) == BitmapFrom(sc, WithBit(EMPTY, 100), []) == WithBit(EMPTY, 100);
    Bit4();
    assert WithBit(EMPTY, 100) == EMPTY[12 := 16];
  }

  lemma Bit4()
    ensures SetBit(0, 4) == 16
  {
    assert SetBit(0, 1) == 2 * SetBit(0, 0);
    assert SetBit(0, 2) == 2 * SetBit(0, 1);
    assert SetBit(0, 3) == 2 * SetBit(0, 2);
    assert SetBit(0, 4) == 2 * SetBit(0, 3);
  }
}
