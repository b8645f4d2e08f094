/** The buffered SHA-256 (padding of section 5.1.1, iteration of section 6.2 of FIPS 180-4), for
    any compression function, and its one-shot specification. */
module Sha256 {
  import opened Bytes

  type octets = seq<bv8>

  type HashState = s: seq<bv32> | |s| == 8 witness [0, 0, 0, 0, 0, 0, 0, 0]

  type Compress = (HashState, octets) -> HashState

  const INITIAL: HashState := [
    0x6a09e667, 0xbb67ae85, 0x3c6ef372, 0xa54ff53a, 0x510e527f, 0x9b05688c, 0x1f83d9ab, 0x5be0cd19]

  /** Folds the compression function over 64-byte blocks. */
  function Fold(f: Compress, st: HashState, blocks: octets): HashState
    requires |blocks| % 64 == 0
    decreases |blocks|
  {
    if blocks == [] then st else Fold(f, f(st, blocks[..64]), blocks[64..])
  }

  function Zeros(n: nat): (z: octets)
    ensures |z| == n && forall i :: 0 <= i < n ==> z[i] == 0
  {
    seq(n, _ => 0)
  }

  function Octet(n: nat): bv8 { (n % 256) as bv8 }

  /** A 64-bit length, most significant byte first. */
  function Be64(n: nat): (s: octets)
    ensures |s| == 8
  {
    [Octet(n / 0x100_0000_0000_0000), Octet(n / 0x1_0000_0000_0000), Octet(n / 0x100_0000_0000),
     Octet(n / 0x1_0000_0000),
     Octet(n / 0x100_0000), Octet(n / 0x1_0000), Octet(n / 0x100), Octet(n)]
  }

  /** One 1-bit, zeros to 56 modulo 64, and the message length in bits. */
  function Pad(m: octets): (p: octets)
    ensures |p| % 64 == 0
  {
    PadLength(|m|);
    m + [0x80] + Zeros(PadZeros(|m|)) + Be64(8 * |m| % TWO64)
  }

  /** The least number of zeros that brings length + 1 to 56 modulo 64. */
  function PadZeros(n: nat): nat {
    var r := n % 64;
    if r <= 55 then 55 - r else 119 - r
  }

  lemma PadLength(n: nat)
    ensures (n + 1 + PadZeros(n) + 8) % 64 == 0
  {}

  function WordBytes(w: bv32): (s: octets)
    ensures |s| == 4
  {
    [((w >> 24) & 0xff) as bv8, ((w >> 16) & 0xff) as bv8, ((w >> 8) & 0xff) as bv8, (w & 0xff) as bv8]
  }

  function WordsBytes(ws: seq<bv32>): (out: octets)
    ensures |out| == 4 * |ws|
  {
    if ws == [] then [] else WordBytes(ws[0]) + WordsBytes(ws[1..])
  }

  function Output(st: HashState): (out: octets)
    ensures |out| == 32
  {
    WordsBytes(st)
  }

  /** The one-shot hash. */
  function Digest(f: Compress, m: octets): (d: octets)
    ensures |d| == 32
  {
    Output(Fold(f, INITIAL, Pad(m)))
  }

  // ---------------------------------------------------------------- what the padding and the output mean

  /** The bytes are the numeral of n to base 256, most significant digit first. */
  ghost predicate Spells(s: octets, n: nat) {
    if s == [] then n == 0 else s[|s| - 1] == (n % 256) as bv8 && Spells(s[..|s| - 1], n / 256)
  }

  /** The first k bytes of a length spell its upper 8 k bits. */
  lemma {:induction false} Be64Prefix(n: nat, k: nat)
    requires n < TWO64 && k <= 8
    ensures Spells(Be64(n)[..k], n / Power256(8 - k))
  {
    if k == 0 {
      assert Power256(8) == TWO64;
    } else {
      Be64Prefix(n, k - 1);
      var s := Be64(n)[..k];
      Be64Octet(n, k);
      Shifted(n, 9 - k);
      assert s[..k - 1] == Be64(n)[..k - 1];
    }
  }

  function Power256(k: nat): (p: nat)
    requires k <= 8
    ensures p > 0
  {
    match k
    case 0 => 1
    case 1 => 0x100
    case 2 => 0x1_0000
    case 3 => 0x100_0000
    case 4 => 0x1_0000_0000
    case 5 => 0x100_0000_0000
    case 6 => 0x1_0000_0000_0000
    case 7 => 0x100_0000_0000_0000
    case _ => 0x1_0000_0000_0000_0000
  }

  lemma Shifted(n: nat, k: nat)
    requires 1 <= k <= 8
    ensures n / Power256(k) == n / Power256(k - 1) / 256
  {
    match k
    case 1 =>
    case 2 => assert n / 0x1_0000 == n / 0x100 / 256;
    case 3 => assert n / 0x100_0000 == n / 0x1_0000 / 256;
    case 4 => assert n / 0x1_0000_0000 == n / 0x100_0000 / 256;
    case 5 => assert n / 0x100_0000_0000 == n / 0x1_0000_0000 / 256;
    case 6 => assert n / 0x1_0000_0000_0000 == n / 0x100_0000_0000 / 256;
    case 7 => assert n / 0x100_0000_0000_0000 == n / 0x1_0000_0000_0000 / 256;
    case _ => assert n / 0x1_0000_0000_0000_0000 == n / 0x100_0000_0000_0000 / 256;
  }

  lemma Be64Octet(n: nat, k: nat)
    requires 1 <= k <= 8
    ensures Be64(n)[k - 1] == Octet(n / Power256(8 - k))
  {}

  /** A padded message is the message, one 1-bit, zeros, and in the last eight bytes its length in bits; it fills
      whole blocks and no more of them than it needs. */
  lemma PadMeaning(m: octets)
    ensures var p := Pad(m);
            && |p| % 64 == 0 && |m| + 9 <= |p| < |m| + 9 + 64
            && p[..|m|] == m && p[|m|] == 0x80
            && (forall i :: |m| < i < |p| - 8 ==> p[i] == 0)
            && Spells(p[|p| - 8..], 8 * |m| % TWO64)
  {
    var p, length := Pad(m), Be64(8 * |m| % TWO64);
    assert p[|p| - 8..] == length == length[..8];
    Be64Prefix(8 * |m| % TWO64, 8);
  }

  /** A word, most significant byte first. */
  function WordOf(b: octets): bv32
    requires |b| == 4
  {
    ((b[0] as bv32) << 24) | ((b[1] as bv32) << 16) | ((b[2] as bv32) << 8) | (b[3] as bv32)
  }

  lemma WordSpelled(w: bv32)
    ensures WordOf(WordBytes(w)) == w
  {}

  /** The digest bytes spell the state words in order. */
  lemma {:induction false} OutputSpells(ws: seq<bv32>, i: nat)
    requires i < |ws|
    ensures WordOf(WordsBytes(ws)[4 * i..4 * i + 4]) == ws[i]
  {
    var head, tail := WordBytes(ws[0]), WordsBytes(ws[1..]);
    if i == 0 {
      assert WordsBytes(ws)[0..4] == head;
      WordSpelled(ws[0]);
    } else {
      OutputSpells(ws[1..], i - 1);
      assert WordsBytes(ws)[4 * i..4 * i + 4] == tail[4 * (i - 1)..4 * (i - 1) + 4];
    }
  }

  lemma {:induction false} FoldConcat(f: Compress, st: HashState, a: octets, b: octets)
    requires |a| % 64 == 0 && |b| % 64 == 0
    ensures |a + b| % 64 == 0 && Fold(f, st, a + b) == Fold(f, Fold(f, st, a), b)
    decreases |a|
  {
    if a == [] {
      assert a + b == b;
    } else {
      assert (a + b)[..64] == a[..64] && (a + b)[64..] == a[64..] + b;
      FoldConcat(f, f(st, a[..64]), a[64..], b);
    }
  }

  lemma FoldBlock(f: Compress, st: HashState, a: octets, block: octets)
    requires |a| % 64 == 0 && |block| == 64
    ensures |a + block| % 64 == 0 && Fold(f, st, a + block) == f(Fold(f, st, a), block)
  {
    FoldConcat(f, st, a, block);
    assert block[..64] == block && block[64..] == [];
  }

  /** The whole blocks of a message, and the rest. */
  function Whole(m: octets): (w: octets)
    ensures |w| % 64 == 0
  {
    m[..|m| - |m| % 64]
  }

  function Rest(m: octets): (r: octets)
    ensures |r| == |m| % 64
  {
    m[|m| - |m| % 64..]
  }

  lemma SplitUnique(w: octets, r: octets)
    requires |w| % 64 == 0 && |r| < 64
    ensures Whole(w + r) == w && Rest(w + r) == r
  {}

  /** How far a hash has come with a message: whole blocks folded, the rest kept. */
  ghost predicate Absorbed(f: Compress, st: HashState, kept: octets, m: octets) {
    st == Fold(f, INITIAL, Whole(m)) && kept == Rest(m)
  }

  /** Completing the kept bytes to a block and folding it. */
  lemma AbsorbBlock(f: Compress, st: HashState, kept: octets, m: octets, more: octets)
    requires Absorbed(f, st, kept, m) && |kept| + |more| == 64
    ensures Absorbed(f, f(st, kept + more), [], m + more)
  {
    var w := Whole(m) + (kept + more);
    assert m + more == w + [];
    FoldBlock(f, INITIAL, Whole(m), kept + more);
    SplitUnique(w, []);
  }

  /** Keeping bytes that do not complete a block. */
  lemma AbsorbKept(f: Compress, st: HashState, kept: octets, m: octets, more: octets)
    requires Absorbed(f, st, kept, m) && |kept| + |more| < 64
    ensures Absorbed(f, st, kept + more, m + more)
  {
    assert m + more == Whole(m) + (kept + more);
    SplitUnique(Whole(m), kept + more);
  }

  class Hasher {
    const compress: Compress
    var state: HashState
    var buffer: array<bv8>
    var bufferLen: nat
    var lenBits: nat
    ghost var message: octets   // everything absorbed so far

    ghost predicate Valid()
      reads this, buffer
    {
      lenBits == 8 * |message| % TWO64 && Holds(message)
    }

    constructor (compress: Compress)
      ensures Valid() && message == [] && this.compress == compress && fresh(buffer)
    {
      this.compress, state, buffer, bufferLen, lenBits, message := compress, INITIAL, new bv8[64], 0, 0, [];
    }

    /** The buffer and state hold m, whatever `message` says. */
    ghost predicate Holds(m: octets)
      reads this, buffer
    {
      buffer.Length == 64 && bufferLen < 64 && Absorbed(compress, state, buffer[..bufferLen], m)
    }

    /** First part of update: tops up a partly filled buffer. */
    method TopUp(input: octets, ghost m: octets) returns (take: nat)
      requires Holds(m) && bufferLen > 0
      modifies this`state, this`bufferLen, buffer
      ensures take <= |input| && Holds(m + input[..take]) && (bufferLen > 0 ==> take == |input|)
    {
      take := Min(64 - bufferLen, |input|);
      ghost var kept, more := buffer[..bufferLen], input[..take];
      forall i | 0 <= i < take { buffer[bufferLen + i] := input[i]; }
      bufferLen := bufferLen + take;
      assert buffer[..bufferLen] == kept + more;
      if bufferLen == 64 {
        AbsorbBlock(compress, state, kept, m, more);
        assert buffer[..] == kept + more;
        state := compress(state, buffer[..]);
        bufferLen := 0;
        assert buffer[..0] == [];
      } else {
        AbsorbKept(compress, state, kept, m, more);
      }
    }

    /** Second part: folds whole blocks straight from the input. */
    method FoldBlocks(data: octets, ghost m: octets) returns (rest: octets)
      requires Holds(m) && (bufferLen > 0 ==> data == [])
      modifies this`state
      ensures |rest| < 64 && |rest| <= |data|
      ensures data == data[..|data| - |rest|] + rest && Holds(m + data[..|data| - |rest|])
    {
      var at := 0;
      assert m + data[..0] == m;
      while |data| - at >= 64
        invariant 0 <= at <= |data| && (bufferLen > 0 ==> data == [])
        invariant Holds(m + data[..at])
      {
        var block := data[at..at + 64];
        AbsorbBlock(compress, state, [], m + data[..at], block);
        assert buffer[..0] == [] && [] + block == block;
        assert m + data[..at] + block == m + data[..at + 64];
        state := compress(state, block);
        at := at + 64;
      }
      rest := data[at..];
    }

    /** Third part: keeps what is left. */
    method Keep(rest: octets, ghost m: octets)
      requires Holds(m) && |rest| < 64 && (bufferLen > 0 ==> rest == [])
      modifies this`bufferLen, buffer
      ensures Holds(m + rest)
    {
      if rest != [] {
        AbsorbKept(compress, state, [], m, rest);
        assert buffer[..0] == [] && [] + rest == rest;
        forall i | 0 <= i < |rest| { buffer[i] := rest[i]; }
        bufferLen := |rest|;
        assert buffer[..bufferLen] == rest;
      } else {
        assert m + rest == m;
      }
    }

    method Absorb(data: octets, ghost m: octets)
      requires Holds(m)
      modifies this`state, this`bufferLen, buffer
      ensures Holds(m + data)
    {
      var take := 0;
      assert m + data[..0] == m;
      if bufferLen > 0 { take := TopUp(data, m); }
      ghost var m1 := m + data[..take];
      var input := data[take..];
      var rest := FoldBlocks(input, m1);
      ghost var m2 := m1 + input[..|input| - |rest|];
      Keep(rest, m2);
      assert m2 + rest == m + data by { Reassemble(m, data, take, rest); }
    }

    method Update(data: octets)
      requires Valid()
      modifies this`state, this`bufferLen, this`lenBits, this`message, buffer
      ensures Valid() && message == old(message) + data
    {
      Absorb(data, message);
      lenBits := AddLength(|message|, |data|, lenBits);
      message := message + data;
    }

    /** The first padding byte, and the block it may complete. */
    method StartPadding()
      requires buffer.Length == 64 && bufferLen < 64
      modifies this`state, this`bufferLen, buffer
      ensures bufferLen <= 56 && buffer.Length == 64
      ensures var kept := old(buffer[..bufferLen]);
              if old(bufferLen) + 1 > 56
              then bufferLen == 0 && state == compress(old(state), kept + [0x80] + Zeros(63 - |kept|))
              else buffer[..bufferLen] == kept + [0x80] && state == old(state)
    {
      ghost var kept := buffer[..bufferLen];
      buffer[bufferLen] := 0x80;
      bufferLen := bufferLen + 1;
      if bufferLen > 56 {
        forall i | bufferLen <= i < 64 { buffer[i] := 0; }
        assert buffer[..] == kept + [0x80] + Zeros(63 - |kept|);
        state := compress(state, buffer[..]);
        bufferLen := 0;
      }
    }

    /** The last block: zeros and the length. */
    method LastBlock()
      requires buffer.Length == 64 && bufferLen <= 56
      modifies this`state, buffer
      ensures state == compress(old(state), old(buffer[..bufferLen]) + Zeros(56 - bufferLen) + Be64(lenBits))
    {
      ghost var lead := buffer[..bufferLen];
      forall i | bufferLen <= i < 56 { buffer[i] := 0; }
      assert buffer[..56] == lead + Zeros(56 - bufferLen);
      var length := Be64(lenBits);
      forall i | 0 <= i < 8 { buffer[56 + i] := length[i]; }
      assert buffer[..] == lead + Zeros(56 - bufferLen) + length;
      state := compress(state, buffer[..]);
    }

    method PadOut()
      requires buffer.Length == 64 && bufferLen < 64
      modifies this`state, this`bufferLen, buffer
      ensures state == Finish(compress, old(state), old(buffer[..bufferLen]), Be64(lenBits))
    {
      ghost var kept := buffer[..bufferLen];
      StartPadding();
      ghost var lead := buffer[..bufferLen];
      assert |kept| + 1 > 56 ==> lead == [] && [] + Zeros(56) + Be64(lenBits) == Zeros(56) + Be64(lenBits);
      LastBlock();
    }

    /** finalize: pads and folds what is left; the hasher is spent afterwards. */
    method Finalize() returns (out: octets)
      requires Valid()
      modifies this`state, this`bufferLen, buffer
      ensures out == Digest(compress, message)
    {
      FinalBlocks(compress, state, buffer[..bufferLen], message);
      PadOut();
      return Output(state);
    }
  }

  /** The bit count is a 64-bit word. */
  function AddLength(ghost before: nat, added: nat, bits: nat): (r: nat)
    requires bits == 8 * before % TWO64
    ensures r == 8 * (before + added) % TWO64
  {
    (bits + added * 8) % TWO64
  }

  lemma Reassemble(m: octets, data: octets, take: nat, rest: octets)
    requires take <= |data| && |rest| <= |data| - take
    requires data[take..] == data[take..][..|data| - take - |rest|] + rest
    ensures m + data[..take] + data[take..][..|data| - take - |rest|] + rest == m + data
  {}

  /** The one or two blocks finalize folds. */
  ghost function Finish(f: Compress, st: HashState, kept: octets, length: octets): HashState
    requires |kept| < 64
  {
    var n := |kept|;
    if n + 1 > 56 then f(f(st, kept + [0x80] + Zeros(63 - n)), Zeros(56) + length)
    else f(st, kept + [0x80] + Zeros(56 - (n + 1)) + length)
  }

  lemma TwoBlocks(f: Compress, whole: octets, kept: octets, length: octets)
    requires |whole| % 64 == 0 && 55 < |kept| < 64 && |length| == 8
    ensures var p := whole + kept + [0x80] + Zeros(119 - |kept|) + length;
            |p| % 64 == 0 && Fold(f, INITIAL, p) == Finish(f, Fold(f, INITIAL, whole), kept, length)
  {
    var n := |kept|;
    var b1, b2 := kept + [0x80] + Zeros(63 - n), Zeros(56) + length;
    assert Zeros(119 - n) == Zeros(63 - n) + Zeros(56);
    assert whole + kept + [0x80] + Zeros(119 - n) + length == whole + b1 + b2;
    FoldBlock(f, INITIAL, whole, b1);
    FoldBlock(f, INITIAL, whole + b1, b2);
  }

  lemma OneBlock(f: Compress, whole: octets, kept: octets, length: octets)
    requires |whole| % 64 == 0 && |kept| <= 55 && |length| == 8
    ensures var p := whole + kept + [0x80] + Zeros(55 - |kept|) + length;
            |p| % 64 == 0 && Fold(f, INITIAL, p) == Finish(f, Fold(f, INITIAL, whole), kept, length)
  {
    var b := kept + [0x80] + Zeros(55 - |kept|) + length;
    assert whole + kept + [0x80] + Zeros(55 - |kept|) + length == whole + b;
    FoldBlock(f, INITIAL, whole, b);
  }

  /** They complete the padding of the message. */
  lemma FinalBlocks(f: Compress, st: HashState, kept: octets, m: octets)
    requires Absorbed(f, st, kept, m)
    ensures Fold(f, INITIAL, Pad(m)) == Finish(f, st, kept, Be64(8 * |m| % TWO64))
  {
    var whole, length := Whole(m), Be64(8 * |m| % TWO64);
    assert m == whole + kept;
    if |kept| <= 55 { OneBlock(f, whole, kept, length); } else { TwoBlocks(f, whole, kept, length); }
  }

  function Join(chunks: seq<octets>): octets { if chunks == [] then [] else chunks[0] + Join(chunks[1..]) }

  /** Streaming refines one-shot: however a message is cut into chunks, updating with them and
      finalizing gives the digest of the whole. */
  method DigestChunks(f: Compress, chunks: seq<octets>) returns (d: octets)
    ensures d == Digest(f, Join(chunks))
  {
    var h := new Hasher(f);
    var i := 0;
    while i < |chunks|
      invariant 0 <= i <= |chunks| && h.Valid() && fresh(h) && fresh(h.buffer) && h.compress == f
      invariant h.message + Join(chunks[i..]) == Join(chunks)
    {
      assert chunks[i..][0] == chunks[i] && chunks[i..][1..] == chunks[i + 1..];
      assert h.message + (chunks[i] + Join(chunks[i + 1..])) == h.message + chunks[i] + Join(chunks[i + 1..]);
      h.Update(chunks[i]);
      i := i + 1;
    }
    assert chunks[|chunks|..] == [];
    assert h.message + [] == h.message;
    d := h.Finalize();
  }
}
