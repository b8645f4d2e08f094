/** Unsigned LEB128 (section 7.6 of DWARF 5) over 64-bit values: seven bits per byte, least
    significant first, the top bit set on every byte but the last, at most ten bytes read. */
module Uleb128 {
  import opened Bytes

  const MAX_BYTES := 10

  /** What reading at a cursor yields; `next` is the cursor behind the last byte read. */
  datatype Read = Short | Value(value: uint64, next: nat)

  /** w stands in s at position cur. */
  ghost predicate At(s: bytestring, cur: nat, w: bytestring) {
    cur + |w| <= |s| && s[cur..cur + |w|] == w
  }

  lemma AtConcat(s: bytestring, cur: nat, a: bytestring, b: bytestring)
    requires At(s, cur, a + b)
    ensures At(s, cur, a) && At(s, cur + |a|, b)
  {
    var w := s[cur..cur + |a + b|];
    assert s[cur..cur + |a|] == w[..|a|] && s[cur + |a|..cur + |a| + |b|] == w[|a|..];
    assert (a + b)[..|a|] == a && (a + b)[|a|..] == b;
  }

  function Encode(v: nat): (s: bytestring)
    ensures |s| >= 1
  {
    if v < 128 then [v] else [v % 128 + 128] + Encode(v / 128)
  }

  /** The unbounded number spelled at `cur`, reading at most `left` bytes. */
  datatype Digits = NoDigits | Digits(number: nat, next: nat)

  function Decode(s: bytestring, cur: nat, left: nat): (r: Digits)
    requires cur <= |s|
    ensures r.Digits? ==> cur < r.next <= |s|
    decreases |s| - cur
  {
    if left == 0 || cur == |s| then NoDigits
    else if s[cur] < 128 then Digits(s[cur], cur + 1)
    else match Decode(s, cur + 1, left - 1)
      case NoDigits => NoDigits
      case Digits(rest, next) => Digits(s[cur] % 128 + 128 * rest, next)
  }

  /** read_uleb128: the number, kept modulo 2^64. */
  function ReadUleb(s: bytestring, cur: nat): (r: Read)
    requires cur <= |s|
    ensures r.Value? ==> cur < r.next <= |s|
  {
    match Decode(s, cur, MAX_BYTES)
    case NoDigits => Short
    case Digits(n, next) => Value(n % TWO64, next)
  }

  function Pow128(n: nat): nat { if n == 0 then 1 else 128 * Pow128(n - 1) }

  lemma {:induction false} EncodeLength(v: nat, n: nat)
    requires v < Pow128(n) && n >= 1
    ensures |Encode(v)| <= n
  {
    if v >= 128 { EncodeLength(v / 128, n - 1); }
  }

  lemma EncodeAtMostTen(v: uint64)
    ensures |Encode(v)| <= MAX_BYTES
  {
    assert Pow128(3) == 0x20_0000;
    assert Pow128(6) == 128 * (128 * (128 * Pow128(3)));
    assert Pow128(9) == 128 * (128 * (128 * Pow128(6)));
    assert Pow128(10) == 128 * Pow128(9);
    EncodeLength(v, 10);
  }

  lemma {:induction false} DecodeAt(s: bytestring, cur: nat, v: nat, left: nat)
    requires At(s, cur, Encode(v)) && |Encode(v)| <= left
    ensures Decode(s, cur, left) == Digits(v, cur + |Encode(v)|)
    decreases left
  {
    var w := Encode(v);
    assert s[cur] == s[cur..cur + |w|][0];
    if v >= 128 {
      AtConcat(s, cur, [w[0]], Encode(v / 128));
      DecodeAt(s, cur + 1, v / 128, left - 1);
    }
  }

  /** Round trip at any position, whatever stands before and behind. */
  lemma UlebRoundTrip(s: bytestring, cur: nat, v: uint64)
    requires At(s, cur, Encode(v))
    ensures ReadUleb(s, cur) == Value(v, cur + |Encode(v)|)
  {
    EncodeAtMostTen(v);
    DecodeAt(s, cur, v, MAX_BYTES);
  }

  /** write_uleb128 */
  method Write(value: uint64, prefix: bytestring) returns (out: bytestring)
    ensures out == prefix + Encode(value)
  {
    out := prefix;
    var v: nat := value;
    while v >= 128
      invariant out + Encode(v) == prefix + Encode(value)
      decreases v
    {
      assert out + ([v % 128 + 128] + Encode(v / 128)) == out + [v % 128 + 128] + Encode(v / 128);
      out := out + [v % 128 + 128];
      v := v / 128;
    }
    out := out + [v];
  }

  /** A partly accumulated number joined with the digits still to come. */
  ghost function Finish(out: nat, scale: nat, d: Digits): Read {
    match d
    case NoDigits => Short
    case Digits(rest, next) => Value((out + scale * rest) % TWO64, next)
  }

  lemma FinishStep(s: bytestring, cur: nat, left: nat, out: nat, scale: nat)
    requires cur < |s| && left > 0
    ensures Finish(out, scale, Decode(s, cur, left))
            == var acc := (out + s[cur] % 128 * scale) % TWO64;
               if s[cur] < 128 then Value(acc, cur + 1) else Finish(acc, 128 * scale, Decode(s, cur + 1, left - 1))
  {
    var digit: int := s[cur] % 128;
    var d := Decode(s, cur + 1, left - 1);
    if s[cur] < 128 {
      assert scale * digit == digit * scale;
    } else if d.Digits? {
      Carry(out, scale, digit, d.number);
    }
  }

  lemma FinishAll(d: Digits)
    ensures Finish(0, 1, d) == match d case NoDigits => Short case Digits(n, next) => Value(n % TWO64, next)
  {}

  /** read_uleb128: accumulates digit by digit at growing shifts, dropping what leaves the
      64-bit word; the bits or-ed in never overlap, so the or is an addition. */
  method ReadLoop(s: bytestring, start: nat) returns (r: Read)
    requires start <= |s|
    ensures r == ReadUleb(s, start)
  {
    var cur, out, scale, i := start, 0, 1, 0;
    FinishAll(Decode(s, start, MAX_BYTES));
    while i < MAX_BYTES
      invariant 0 <= i <= MAX_BYTES && start <= cur <= |s| && 0 <= out < TWO64 && scale > 0
      invariant ReadUleb(s, start) == Finish(out, scale, Decode(s, cur, MAX_BYTES - i))
    {
      if cur >= |s| { return Short; }
      var b: int := s[cur];
      FinishStep(s, cur, MAX_BYTES - i, out, scale);
      cur := cur + 1;
      out := (out + b % 128 * scale) % TWO64;
      if b < 128 { return Value(out, cur); }
      scale := 128 * scale;
      i := i + 1;
    }
    return Short;
  }

  lemma Carry(out: nat, scale: nat, digit: nat, rest: nat)
    ensures ((out + digit * scale) % TWO64 + 128 * scale * rest) % TWO64 == (out + scale * (digit + 128 * rest)) % TWO64
  {
    var a, b := out + digit * scale, 128 * scale * rest;
    assert out + scale * (digit + 128 * rest) == a + b;
    ModAdd(a, b);
  }

  lemma ModAdd(a: int, b: int)
    ensures (a % TWO64 + b) % TWO64 == (a + b) % TWO64
  {}
}
