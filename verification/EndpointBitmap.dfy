/** The 256-bit endpoint bitmap of a v4 frame. */
module EndpointBitmap {
  import opened Bytes
  import opened Schema
  import opened Sorting

  const BITMAP_BYTES := 32

  const EMPTY: bytestring :=
    [0, 0, 0, 0, 0, 0, 0, 0, 0, 0, 0, 0, 0, 0, 0, 0,
     0, 0, 0, 0, 0, 0, 0, 0, 0, 0, 0, 0, 0, 0, 0, 0]

  type bitmap = s: bytestring | |s| == BITMAP_BYTES witness EMPTY

  predicate BitAt(bm: bitmap, w: nat)
    requires w < 256
  {
    Bit(bm[w / 8], w % 8)
  }

  function WithBit(bm: bitmap, w: nat): (r: bitmap)
    requires w < 256
  {
    SetBitByte(bm[w / 8], w % 8);
    bm[w / 8 := SetBit(bm[w / 8], w % 8)]
  }

    /** v4_endpoint_bitmap: identifiers outside the bitmap are dropped. */
  function BitmapFrom(sc: Schema, bm: bitmap, eps: seq<nat>): bitmap
    decreases |eps|
  {
    if eps == [] then bm
    else
      var w := WireEndpointId(sc, eps[0]);
      BitmapFrom(sc, if w < 256 then WithBit(bm, w) else bm, eps[1..])
  }

  function BitmapOf(sc: Schema, eps: seq<nat>): bitmap { BitmapFrom(sc, EMPTY, eps) }

  /** parse_v4_bitmap, from bit i on: bits that name no local endpoint are skipped. */
  function ParseFrom(sc: Schema, bm: bitmap, i: nat): seq<nat>
    requires i <= 256
    decreases 256 - i, |bm|
  {
    if i == 256 then []
    else if BitAt(bm, i) && LocalEndpointId(sc, i).Some? then [LocalEndpointId(sc, i).value] + ParseFrom(sc, bm, i + 1)
    else ParseFrom(sc, bm, i + 1)
  }

  function ParseBitmap(sc: Schema, bm: bitmap): seq<nat> { ParseFrom(sc, bm, 0) }

  lemma BitAfterWith(bm: bitmap, w: nat, v: nat)
    requires w < 256 && v < 256
    ensures BitAt(WithBit(bm, w), v) <==> v == w || BitAt(bm, v)
  {
    if v / 8 == w / 8 {
      BitOfSetBit(bm[w / 8], w % 8, v % 8);
    }
  }

  lemma {:induction false} ZeroBits(k: nat)
    ensures !Bit(0, k)
  {
    if k > 0 { ZeroBits(k - 1); }
  }

  /** The endpoints a frame can carry unchanged: registered, and at their runtime identifiers. */
  predicate Carriable(sc: Schema, ep: nat) { ValidEndpoint(sc, ep) && 100 <= ep < 256 }

  lemma {:induction false} BitmapBits(sc: Schema, bm: bitmap, eps: seq<nat>, v: nat)
    requires v < 256 && forall e :: e in eps ==> Carriable(sc, e)
    ensures BitAt(BitmapFrom(sc, bm, eps), v) <==> BitAt(bm, v) || v in eps
    decreases |eps|
  {
    if eps != [] {
      assert eps == [eps[0]] + eps[1..];
      assert Carriable(sc, eps[0]);
      BitAfterWith(bm, eps[0], v);
      BitmapBits(sc, WithBit(bm, eps[0]), eps[1..], v);
    }
  }

  ghost predicate MarksOnly(sc: Schema, bm: bitmap, eps: seq<nat>) {
    forall v :: 0 <= v < 256 ==> (BitAt(bm, v) <==> v in eps)
  }

  lemma {:induction false} ParseMarks(sc: Schema, bm: bitmap, eps: seq<nat>, i: nat)
    requires i <= 256 && MarksOnly(sc, bm, eps) && forall e :: e in eps ==> Carriable(sc, e)
    ensures SortedInts(ParseFrom(sc, bm, i))
    ensures forall e :: e in ParseFrom(sc, bm, i) <==> e in eps && e >= i
    decreases 256 - i
  {
    if i < 256 {
      ParseMarks(sc, bm, eps, i + 1);
      var rest := ParseFrom(sc, bm, i + 1);
      assert BitAt(bm, i) <==> i in eps;
      if BitAt(bm, i) {
        assert Carriable(sc, i);
        assert LocalEndpointId(sc, i) == Some(i);
        assert ([i] + rest)[1..] == rest;
      }
    }
  }

  /** Writing a set of endpoints and reading it back gives the endpoints in ascending order. */
  lemma BitmapRoundTrip(sc: Schema, eps: seq<nat>)
    requires forall e :: e in eps ==> Carriable(sc, e)
    ensures ParseBitmap(sc, BitmapOf(sc, eps)) == SortInts(eps)
  {
    var bm := BitmapOf(sc, eps);
    assert MarksOnly(sc, bm, eps) by {
      forall v | 0 <= v < 256 ensures BitAt(bm, v) <==> v in eps {
        ZeroBits(v % 8);
        BitmapBits(sc, EMPTY, eps, v);
      }
    }
    ParseMarks(sc, bm, eps, 0);
    SortIntsSpec(eps);
    CanonicalInts(ParseBitmap(sc, bm), SortInts(eps));
  }

  // ---------------------------------------------------------------- the loops

  method BuildBitmap(sc: Schema, eps: seq<nat>) returns (bm: bitmap)
    ensures bm == BitmapOf(sc, eps)
  {
    bm := EMPTY;
    for i := 0 to |eps|
      invariant BitmapFrom(sc, bm, eps[i..]) == BitmapOf(sc, eps)
    {
      assert eps[i..][0] == eps[i] && eps[i..][1..] == eps[i + 1..];
      var w := WireEndpointId(sc, eps[i]);
      if w < 256 { bm := WithBit(bm, w); }
    }
    assert eps[|eps|..] == [];
  }

  method ScanBitmap(sc: Schema, bm: bitmap) returns (out: seq<nat>)
    ensures out == ParseBitmap(sc, bm)
  {
    out := [];
    for i := 0 to 256
      invariant out + ParseFrom(sc, bm, i) == ParseBitmap(sc, bm)
    {
      if BitAt(bm, i) && LocalEndpointId(sc, i).Some? { out := out + [LocalEndpointId(sc, i).value]; }
    }
  }
}
