/** HMAC-SHA-256 (section 2 of RFC 2104) over chunks, the counter keystream built on it, and the
    software seal and open. */
module Crypto {
  import opened Bytes
  import opened Sha256

  const TAG_LEN := 16

  type Key = k: octets | |k| == 32 witness Zeros(32)

  /** The key, filled up with zeros to a block, xor-ed with a repeated byte. */
  function KeyPad(key: Key, fill: bv8): (p: octets)
    ensures |p| == 64
  {
    seq(64, i requires 0 <= i < 64 => if i < 32 then fill ^ key[i] else fill)
  }

  function Hmac(f: Compress, key: Key, m: octets): (tag: octets)
    ensures |tag| == 32
  {
    Digest(f, KeyPad(key, 0x5c) + Digest(f, KeyPad(key, 0x36) + m))
  }

  method MakePad(key: Key, fill: bv8) returns (p: octets)
    ensures p == KeyPad(key, fill)
  {
    var pad := new bv8[64](_ => fill);
    for i := 0 to 32
      invariant forall j :: 0 <= j < 64 ==> pad[j] == if j < i then fill ^ key[j] else fill
    {
      pad[i] := pad[i] ^ key[i];
    }
    p := pad[..];
  }

  /** hmac_sha256: independent of how the message is cut into chunks. */
  method HmacChunks(f: Compress, key: Key, chunks: seq<octets>) returns (tag: octets)
    ensures tag == Hmac(f, key, Join(chunks))
  {
    var ipad := MakePad(key, 0x36);
    var opad := MakePad(key, 0x5c);
    JoinCons(ipad, chunks);
    var inner := DigestChunks(f, [ipad] + chunks);
    JoinPair(opad, inner);
    tag := DigestChunks(f, [opad, inner]);
  }

  lemma JoinCons(a: octets, chunks: seq<octets>)
    ensures Join([a] + chunks) == a + Join(chunks)
  {}

  lemma JoinPair(a: octets, b: octets)
    ensures Join([a, b]) == a + b
  {
    assert [a, b][1..] == [b] && [b][1..] == [];
    assert Join([b]) == b + Join([]);
  }

  /** Section 2 of RFC 2104: with the key filled up with zeros to 64 bytes, the inner hash is over the key xor-ed
      with 0x36 and the message, the outer one over the key xor-ed with 0x5c and the inner hash. */
  lemma HmacIsRfc2104(f: Compress, key: Key, m: octets, filled: octets, inner: octets, outer: octets)
    requires filled == key + Zeros(32) && |inner| == |outer| == 64
    requires forall i :: 0 <= i < 64 ==> inner[i] ^ filled[i] == 0x36 && outer[i] ^ filled[i] == 0x5c
    ensures Hmac(f, key, m) == Digest(f, outer + Digest(f, inner + m))
  {
    PadFrom(key, filled, inner, 0x36);
    PadFrom(key, filled, outer, 0x5c);
  }

  lemma PadFrom(key: Key, filled: octets, pad: octets, fill: bv8)
    requires filled == key + Zeros(32) && |pad| == 64 && forall i :: 0 <= i < 64 ==> pad[i] ^ filled[i] == fill
    ensures pad == KeyPad(key, fill)
  {
    forall i | 0 <= i < 64 ensures pad[i] == KeyPad(key, fill)[i] {
      XorMoves(pad[i], filled[i], fill);
      assert i >= 32 ==> filled[i] == 0;
      assert fill ^ 0 == fill;
    }
  }

  lemma XorMoves(x: bv8, y: bv8, z: bv8)
    ensures x ^ y == z <==> x == z ^ y
  {}

  // ---------------------------------------------------------------- keystream

  function Le32Octets(n: nat): octets { [Octet(n), Octet(n / 0x100), Octet(n / 0x1_0000), Octet(n / 0x100_0000)] }

  function Le64Octets(n: nat): octets { Le32Octets(n) + Le32Octets(n / 0x1_0000_0000) }

  /** What distinguishes one use of a key: its id, the nonce and the associated data. */
  datatype Use = Use(keyId: uint32, nonce: octets, aad: octets)

  const STREAM_LABEL: octets := [83, 69, 68, 83, 45, 72, 77, 65, 67, 45, 83, 84, 82, 69, 65, 77]   // "SEDS-HMAC-STREAM"
  const TAG_LABEL: octets := [83, 69, 68, 83, 45, 72, 77, 65, 67, 45, 84, 65, 71]                  // "SEDS-HMAC-TAG"

  /** The 32 keystream bytes of one counter value. */
  function StreamBlock(f: Compress, key: Key, use: Use, counter: nat): (b: octets)
    ensures |b| == 32
  {
    Hmac(f, key, Join([STREAM_LABEL, Le32Octets(use.keyId), use.nonce, use.aad, Le64Octets(counter)]))
  }

  /** The blocks of a keystream, by counter. */
  type Keystream = nat -> Key

  function KeystreamOf(f: Compress, key: Key, use: Use): Keystream { (c: nat) => StreamBlock(f, key, use, c) }

  /** Every byte xor-ed with its keystream byte. */
  ghost function XorWith(ks: Keystream, input: octets): (out: octets)
    ensures |out| == |input|
    ensures forall i :: 0 <= i < |input| ==> out[i] == input[i] ^ ks(i / 32)[i % 32]
  {
    seq(|input|, i requires 0 <= i < |input| => input[i] ^ ks(i / 32)[i % 32])
  }

  /** apply_hmac_stream as a function. */
  ghost function Stream(f: Compress, key: Key, use: Use, input: octets): (out: octets)
    ensures |out| == |input|
  {
    XorWith(KeystreamOf(f, key, use), input)
  }

  /** The stream undoes itself. */
  lemma StreamInvolution(f: Compress, key: Key, use: Use, input: octets)
    ensures Stream(f, key, use, Stream(f, key, use, input)) == input
  {}

  /** ks stands for the keystream of one key and use. */
  ghost predicate StreamOf(ks: Keystream, f: Compress, key: Key, use: Use) {
    forall c: nat {:trigger StreamBlock(f, key, use, c)} :: StreamBlock(f, key, use, c) == ks(c)
  }

  /** One keystream block: the HMAC of label, key id, nonce, associated data and counter. */
  method MakeBlock(f: Compress, key: Key, use: Use, counter: nat, ghost ks: Keystream) returns (block: Key)
    requires StreamOf(ks, f, key, use)
    ensures block == ks(counter)
  {
    var parts := [STREAM_LABEL, Le32Octets(use.keyId), use.nonce, use.aad, Le64Octets(counter)];
    block := HmacChunks(f, key, parts);
    assert block == StreamBlock(f, key, use, counter);
  }

  ghost predicate StreamedTo(ks: Keystream, input: octets, output: octets, n: nat)
    requires n <= |input| == |output|
  {
    forall j :: 0 <= j < n ==> output[j] == input[j] ^ ks(j / 32)[j % 32]
  }

  /** The blockwise loop: 32 bytes and one counter value at a time, each block computed as it is
      needed. */
  method XorLoop(f: Compress, key: Key, use: Use, input: octets, ghost ks: Keystream) returns (output: array<bv8>)
    requires StreamOf(ks, f, key, use)
    ensures fresh(output) && output[..] == XorWith(ks, input)
  {
    output := new bv8[|input|];
    var offset, counter := 0, 0;
    while offset < |input|
      invariant 0 <= offset <= |input| && (offset == 32 * counter || offset == |input|)
      invariant StreamedTo(ks, input, output[..], offset)
    {
      var block := MakeBlock(f, key, use, counter, ks);
      var take := Min(32, |input| - offset);
      ghost var before := output[..];
      XorBlock(output, offset, input, block, take);
      StreamedStep(ks, input, before, output[..], counter, take);
      offset := offset + take;
      counter := counter + 1;
    }
    assert output[..] == XorWith(ks, input);
  }

  /** apply_hmac_stream */
  method ApplyStream(f: Compress, key: Key, use: Use, input: octets) returns (output: array<bv8>)
    ensures fresh(output) && output[..] == Stream(f, key, use, input)
  {
    output := XorLoop(f, key, use, input, KeystreamOf(f, key, use));
  }

  /** One more block of output is the keystream's. */
  lemma StreamedStep(ks: Keystream, input: octets, before: octets, after: octets, counter: nat, take: nat)
    requires |before| == |after| == |input| && take <= 32 && 32 * counter + take <= |input|
    requires StreamedTo(ks, input, before, 32 * counter)
    requires forall j :: 0 <= j < |input| ==>
               after[j] == if 32 * counter <= j < 32 * counter + take then input[j] ^ ks(counter)[j - 32 * counter]
                   else before[j]
    ensures StreamedTo(ks, input, after, 32 * counter + take)
  {}

  method XorBlock(output: array<bv8>, offset: nat, input: octets, block: octets, take: nat)
    requires output.Length == |input| && take <= |block| && offset + take <= |input|
    modifies output
    ensures forall j :: 0 <= j < |input| ==>
              output[j] == if offset <= j < offset + take then input[j] ^ block[j - offset] else old(output[j])
  {
    for i := 0 to take
      invariant forall j :: 0 <= j < |input| ==>
                  output[j] == if offset <= j < offset + i then input[j] ^ block[j - offset] else old(output[j])
    {
      output[offset + i] := input[offset + i] ^ block[i];
    }
  }

  // ---------------------------------------------------------------- seal and open

  function Tag(f: Compress, key: Key, use: Use, ciphertext: octets): (t: octets)
    ensures |t| == TAG_LEN
  {
    Hmac(f, key, Join([TAG_LABEL, Le32Octets(use.keyId), use.nonce, use.aad, ciphertext]))[..TAG_LEN]
  }

  // ---------------------------------------------------------------- what is authenticated

  /** The message whose HMAC is a keystream block, byte for byte. */
  lemma BlockInput(f: Compress, key: Key, use: Use, counter: nat)
    ensures StreamBlock(f, key, use, counter)
            == Hmac(f, key, STREAM_LABEL + Le32Octets(use.keyId) + use.nonce + use.aad + Le64Octets(counter))
  {
    JoinFive(STREAM_LABEL, Le32Octets(use.keyId), use.nonce, use.aad, Le64Octets(counter));
  }

  /** A tag is the first 16 bytes of an HMAC. */
  lemma TagInput(f: Compress, key: Key, use: Use, ciphertext: octets)
    ensures Tag(f, key, use, ciphertext)
            == Hmac(f, key, TAG_LABEL + Le32Octets(use.keyId) + use.nonce + use.aad + ciphertext)[..16]
  {
    JoinFive(TAG_LABEL, Le32Octets(use.keyId), use.nonce, use.aad, ciphertext);
  }

  lemma JoinFive(a: octets, b: octets, c: octets, d: octets, e: octets)
    ensures Join([a, b, c, d, e]) == a + b + c + d + e
  {
    var t4, t3 := [b, c, d, e], [c, d, e];
    assert [a, b, c, d, e] == [a] + t4 && t4 == [b] + t3 && t3 == [c] + [d, e];
    JoinCons(a, t4);
    JoinCons(b, t3);
    JoinCons(c, [d, e]);
    JoinPair(d, e);
    assert a + (b + (c + (d + e))) == a + b + c + d + e;
  }

  /** The labels spell their names. */
  lemma LabelsSpell(i: nat)
    ensures |STREAM_LABEL| == |"SEDS-HMAC-STREAM"| && |TAG_LABEL| == |"SEDS-HMAC-TAG"|
    ensures i < |STREAM_LABEL| ==> STREAM_LABEL[i] as int == "SEDS-HMAC-STREAM"[i] as int
    ensures i < |TAG_LABEL| ==> TAG_LABEL[i] as int == "SEDS-HMAC-TAG"[i] as int
  {}

  /** Keystream and tags never hash the same message, whatever the uses. */
  lemma DomainsApart(a: Use, counter: nat, b: Use, ciphertext: octets)
    ensures STREAM_LABEL + Le32Octets(a.keyId) + a.nonce + a.aad + Le64Octets(counter)
            != TAG_LABEL + Le32Octets(b.keyId) + b.nonce + b.aad + ciphertext
  {
    var x := STREAM_LABEL + Le32Octets(a.keyId) + a.nonce + a.aad + Le64Octets(counter);
    var y := TAG_LABEL + Le32Octets(b.keyId) + b.nonce + b.aad + ciphertext;
    assert x[10] == STREAM_LABEL[10] == 83 && y[10] == TAG_LABEL[10] == 84;
  }

  /** Key id and counter are written least significant byte first. */
  lemma LittleEndian64(n: nat, k: nat)
    requires k < 8
    ensures Le64Octets(n)[k] == Octet(n / Power256(k)) && (k < 4 ==> Le32Octets(n)[k] == Octet(n / Power256(k)))
  {
    match k
    case 5 => assert n / 0x1_0000_0000 / 0x100 == n / 0x100_0000_0000;
    case 6 => assert n / 0x1_0000_0000 / 0x1_0000 == n / 0x1_0000_0000_0000;
    case 7 => assert n / 0x1_0000_0000 / 0x100_0000 == n / 0x100_0000_0000_0000;
    case _ =>
  }

  datatype SealResult = SealBadArg | SealTooSmall | Sealed(ciphertext: octets, tag: octets)

  datatype OpenResult = OpenBadArg | OpenTooSmall | Forged | Opened(plaintext: octets)

  /** constant_time_eq */
  method ConstantTimeEq(a: octets, b: octets) returns (eq: bool)
    ensures eq <==> a == b
  {
    if |a| != |b| { return false; }
    var diff: bv8 := 0;
    for i := 0 to |a|
      invariant diff == 0 <==> a[..i] == b[..i]
    {
      DiffStep(diff, a[i], b[i]);
      assert a[..i + 1] == a[..i] + [a[i]] && b[..i + 1] == b[..i] + [b[i]];
      assert a[..i + 1] == b[..i + 1] <==> a[..i] == b[..i] && a[i] == b[i] by {
        if a[..i + 1] == b[..i + 1] {
          assert a[..i] == a[..i + 1][..i] && a[i] == a[..i + 1][i] && b[..i] == b[..i + 1][..i]
              && b[i] == b[..i + 1][i];
        }
      }
      diff := diff | (a[i] ^ b[i]);
    }
    assert a[..|a|] == a && b[..|b|] == b;
    return diff == 0;
  }

  lemma DiffStep(d: bv8, x: bv8, y: bv8)
    ensures d | (x ^ y) == 0 <==> d == 0 && x == y
  {}

  /** seds_crypto_seal with a registered software key. */
  method Seal(f: Compress, keys: map<uint32, Key>, use: Use, plaintext: octets, ciphertextCap: nat, tagCap: nat)
    returns (r: SealResult)
    ensures r == if use.keyId !in keys then SealBadArg
                 else if ciphertextCap < |plaintext| || tagCap < TAG_LEN then SealTooSmall
                 else var c := Stream(f, keys[use.keyId], use, plaintext);
                      Sealed(c, Tag(f, keys[use.keyId], use, c))
  {
    if use.keyId !in keys { return SealBadArg; }
    if ciphertextCap < |plaintext| || tagCap < TAG_LEN { return SealTooSmall; }
    var key := keys[use.keyId];
    var out := ApplyStream(f, key, use, plaintext);
    var tag := HmacChunks(f, key, [TAG_LABEL, Le32Octets(use.keyId), use.nonce, use.aad, out[..]]);
    return Sealed(out[..], tag[..TAG_LEN]);
  }

  /** seds_crypto_open: only a matching tag lets the stream be applied. */
  method Open(f: Compress, keys: map<uint32, Key>, use: Use, ciphertext: octets, tag: octets, plaintextCap: nat)
    returns (r: OpenResult)
    ensures r == if use.keyId !in keys || |tag| != TAG_LEN then OpenBadArg
                 else if plaintextCap < |ciphertext| then OpenTooSmall
                 else if tag != Tag(f, keys[use.keyId], use, ciphertext) then Forged
                 else Opened(Stream(f, keys[use.keyId], use, ciphertext))
  {
    if use.keyId !in keys || |tag| != TAG_LEN { return OpenBadArg; }
    if plaintextCap < |ciphertext| { return OpenTooSmall; }
    var key := keys[use.keyId];
    var full := HmacChunks(f, key, [TAG_LABEL, Le32Octets(use.keyId), use.nonce, use.aad, ciphertext]);
    var eq := ConstantTimeEq(full[..TAG_LEN], tag);
    if !eq { return Forged; }
    var out := ApplyStream(f, key, use, ciphertext);
    return Opened(out[..]);
  }

  /** Opening what was sealed under the same key, id, nonce and associated data gives the
      plaintext back; no other tag opens it. */
  method SealThenOpen(f: Compress, keys: map<uint32, Key>, use: Use, plaintext: octets, tag: octets)
    returns (s: SealResult, o: OpenResult)
    requires use.keyId in keys && |tag| == TAG_LEN
    ensures s.Sealed? && |s.ciphertext| == |plaintext| && |s.tag| == TAG_LEN
    ensures o == if tag == s.tag then Opened(plaintext) else Forged
  {
    s := Seal(f, keys, use, plaintext, |plaintext|, TAG_LEN);
    StreamInvolution(f, keys[use.keyId], use, plaintext);
    o := Open(f, keys, use, s.ciphertext, tag, |plaintext|);
  }
}
