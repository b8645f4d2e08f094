/** The topology payload: nested length-prefixed lists, written from a normalised board list and
    read back with a moving offset. */
module TopologyCodec {
  import opened Bytes
  import opened Sorting
  import opened Schema
  import opened Boards

  /** A value and the bytes after it, or a truncated input. */
  datatype Read<T> = Fail | Got(value: T, rest: bytestring)

  // ---------------------------------------------------------------- length-prefixed lists

  /** A size as stored: cut to 32 bits. */
  function SizeBytes(n: nat): (s: bytestring)
    ensures |s| == 4
  {
    Le32(n % TWO32)
  }

  function ReadSize(s: bytestring): Read<uint32> {
    if |s| < 4 then Fail else Got(FromLe32(s[..4]), s[4..])
  }

  function StringBytes(v: bytestring): bytestring { SizeBytes(|v|) + v }

  /** decode_sized_string */
  function ReadString(s: bytestring): Read<bytestring> {
    match ReadSize(s)
    case Fail => Fail
    case Got(len, rest) => if |rest| < len then Fail else Got(rest[..len], rest[len..])
  }

  function Concat<T>(write: T -> bytestring, xs: seq<T>): bytestring {
    if xs == [] then [] else write(xs[0]) + Concat(write, xs[1..])
  }

  function ListBytes<T>(write: T -> bytestring, xs: seq<T>): bytestring { SizeBytes(|xs|) + Concat(write, xs) }

  function ReadMany<T>(read: bytestring -> Read<T>, s: bytestring, n: nat): Read<seq<T>>
    decreases n
  {
    if n == 0 then Got([], s)
    else match read(s)
      case Fail => Fail
      case Got(x, rest) => Push([x], ReadMany(read, rest, n - 1))
  }

  function Push<T>(xs: seq<T>, r: Read<seq<T>>): Read<seq<T>> {
    match r
    case Fail => Fail
    case Got(ys, rest) => Got(xs + ys, rest)
  }

  function ReadList<T>(read: bytestring -> Read<T>, s: bytestring): Read<seq<T>> {
    match ReadSize(s)
    case Fail => Fail
    case Got(n, rest) => ReadMany(read, rest, n)
  }

  function Each<T, U>(view: T -> U, xs: seq<T>): (r: seq<U>)
    ensures |r| == |xs| && forall i :: 0 <= i < |xs| ==> r[i] == view(xs[i])
  {
    if xs == [] then [] else [view(xs[0])] + Each(view, xs[1..])
  }

  /** Reading what was written of x gives its view back and leaves what follows. */
  ghost predicate Reads<T, U>(write: T -> bytestring, read: bytestring -> Read<U>, view: T -> U, x: T) {
    forall rest :: read(write(x) + rest) == Got(view(x), rest)
  }

  lemma SizeRoundTrip(n: nat, rest: bytestring)
    requires n < TWO32
    ensures ReadSize(SizeBytes(n) + rest) == Got(n, rest)
  {
    Le32RoundTrip(n);
    assert n % TWO32 == n;
    assert (SizeBytes(n) + rest)[..4] == SizeBytes(n) && (SizeBytes(n) + rest)[4..] == rest;
  }

  lemma StringRoundTrip(v: bytestring)
    requires |v| < TWO32
    ensures Reads(StringBytes, ReadString, Same, v)
  {
    forall rest ensures ReadString(StringBytes(v) + rest) == Got(v, rest) {
      assert StringBytes(v) + rest == SizeBytes(|v|) + (v + rest);
      SizeRoundTrip(|v|, v + rest);
      assert (v + rest)[..|v|] == v && (v + rest)[|v|..] == rest;
    }
  }

  lemma {:induction false} ManyRoundTrip<T, U>(write: T -> bytestring, read: bytestring -> Read<U>, view: T -> U,
                                               xs: seq<T>, rest: bytestring)
    requires forall x :: x in xs ==> Reads(write, read, view, x)
    ensures ReadMany(read, Concat(write, xs) + rest, |xs|) == Got(Each(view, xs), rest)
  {
    if xs != [] {
      var tail := Concat(write, xs[1..]) + rest;
      assert Concat(write, xs) + rest == write(xs[0]) + tail;
      assert Reads(write, read, view, xs[0]);
      ManyRoundTrip(write, read, view, xs[1..], rest);
    }
  }

  lemma Assoc(a: bytestring, b: bytestring, c: bytestring)
    ensures (a + b) + c == a + (b + c)
  {}

  /** A list of readable items is readable. */
  lemma ListRoundTrip<T, U>(write: T -> bytestring, read: bytestring -> Read<U>, view: T -> U, xs: seq<T>,
                            rest: bytestring)
    requires |xs| < TWO32 && forall x :: x in xs ==> Reads(write, read, view, x)
    ensures ReadList(read, ListBytes(write, xs) + rest) == Got(Each(view, xs), rest)
  {
    Assoc(SizeBytes(|xs|), Concat(write, xs), rest);
    SizeRoundTrip(|xs|, Concat(write, xs) + rest);
    ManyRoundTrip(write, read, view, xs, rest);
  }

  // ---------------------------------------------------------------- boards

  function EndpointBytes(ep: uint32): bytestring { Le32(ep) }

  function BoardBytes(b: Board): bytestring {
    StringBytes(b.id)
    + (ListBytes(EndpointBytes, b.endpoints)
       + (ListBytes(StringBytes, b.sources) + ListBytes(StringBytes, b.connections)))
  }

  predicate NotDiscovery(ep: uint32) { ep != EP_DISCOVERY }

  predicate NonEmpty(s: bytestring) { s != [] }

  /** What the reader keeps of a board. */
  function Trim(b: Board): Board {
    Board(b.id, Filter(b.endpoints, NotDiscovery), Filter(b.sources, NonEmpty), Filter(b.connections, NonEmpty))
  }

  function ReadBoard(s: bytestring): Read<Board> {
    match ReadString(s)
    case Fail => Fail
    case Got(id, s1) =>
      match ReadList(ReadSize, s1)
      case Fail => Fail
      case Got(endpoints, s2) =>
        match ReadList(ReadString, s2)
        case Fail => Fail
        case Got(sources, s3) =>
          match ReadList(ReadString, s3)
          case Fail => Fail
          case Got(connections, s4) => Got(Trim(Board(id, endpoints, sources, connections)), s4)
  }

  /** The payload build_discovery_topology writes. */
  function TopologyBytes(boards: seq<Board>): bytestring { ListBytes(BoardBytes, NormalizeBoards(boards)) }

  /** decode_discovery_topology_payload; None where it throws. */
  function DecodeTopology(payload: bytestring): Option<seq<Board>> {
    match ReadList(ReadBoard, payload)
    case Fail => None
    case Got(boards, rest) => if rest == [] then Some(NormalizeBoards(boards)) else None
  }

  predicate ShortStrings(xs: seq<bytestring>) { |xs| < TWO32 && forall x :: x in xs ==> |x| < TWO32 }

  /** Every length of the board fits its 32-bit field. */
  predicate BoardFits(b: Board) {
    |b.id| < TWO32 && |b.endpoints| < TWO32 && ShortStrings(b.sources) && ShortStrings(b.connections)
  }

  predicate Fits(bs: seq<Board>) { |bs| < TWO32 && forall b :: b in bs ==> BoardFits(b) }

  lemma EndpointRoundTrip(ep: uint32)
    ensures Reads(EndpointBytes, ReadSize, Same, ep)
  {
    forall rest ensures ReadSize(EndpointBytes(ep) + rest) == Got(ep, rest) {
      Le32RoundTrip(ep);
      assert (EndpointBytes(ep) + rest)[..4] == EndpointBytes(ep) && (EndpointBytes(ep) + rest)[4..] == rest;
    }
  }

  lemma StringsRoundTrip(xs: seq<bytestring>, rest: bytestring)
    requires ShortStrings(xs)
    ensures ReadList(ReadString, ListBytes(StringBytes, xs) + rest) == Got(xs, rest)
  {
    forall x | x in xs ensures Reads(StringBytes, ReadString, Same, x) { StringRoundTrip(x); }
    ListRoundTrip(StringBytes, ReadString, Same, xs, rest);
    assert Each(Same, xs) == xs;
  }

  lemma EndpointsRoundTrip(xs: seq<uint32>, rest: bytestring)
    requires |xs| < TWO32
    ensures ReadList(ReadSize, ListBytes(EndpointBytes, xs) + rest) == Got(xs, rest)
  {
    forall x: uint32 | x in xs ensures Reads(EndpointBytes, ReadSize, Same, x) { EndpointRoundTrip(x); }
    ListRoundTrip(EndpointBytes, ReadSize, Same, xs, rest);
    assert Each(Same, xs) == xs;
  }

  lemma BoardRoundTrip(b: Board)
    requires BoardFits(b)
    ensures Reads(BoardBytes, ReadBoard, Trim, b)
  {
    forall rest ensures ReadBoard(BoardBytes(b) + rest) == Got(Trim(b), rest) {
      var s3 := ListBytes(StringBytes, b.connections) + rest;
      var s2 := ListBytes(StringBytes, b.sources) + s3;
      var s1 := ListBytes(EndpointBytes, b.endpoints) + s2;
      assert BoardBytes(b) + rest == StringBytes(b.id) + s1;
      StringRoundTrip(b.id);
      EndpointsRoundTrip(b.endpoints, s2);
      StringsRoundTrip(b.sources, s3);
      StringsRoundTrip(b.connections, rest);
    }
  }

  lemma TrimCanonical(bs: seq<Board>)
    requires CanonicalBoards(bs)
    ensures CanonicalBoards(Each(Trim, bs))
  {
    forall b | b in Each(Trim, bs) ensures CanonicalBoard(b) {
      var i :| 0 <= i < |bs| && Trim(bs[i]) == b;
      assert bs[i] in bs;
      FilterSorted(bs[i].endpoints, NotDiscovery, Num, Lt);
      FilterSorted(bs[i].sources, NonEmpty, Same, LexLt);
      FilterSorted(bs[i].connections, NonEmpty, Same, LexLt);
    }
    TrimSorted(bs);
  }

  lemma {:induction false} TrimSorted(bs: seq<Board>)
    requires Sorted(bs, Id, LexLt)
    ensures Sorted(Each(Trim, bs), Id, LexLt)
  {
    if bs != [] {
      TrimSorted(bs[1..]);
      var rest := Each(Trim, bs[1..]);
      assert Each(Trim, bs)[1..] == rest;
      forall y | y in rest ensures LexLt(bs[0].id, y.id) {
        var i :| 0 <= i < |rest| && rest[i] == y;
        assert bs[1..][i] in bs[1..];
        assert LexLt(Id(bs[0]), Id(bs[1..][i]));
      }
    }
  }

  lemma ReadsTopology(boards: seq<Board>, rest: bytestring)
    requires Fits(NormalizeBoards(boards))
    ensures ReadList(ReadBoard, TopologyBytes(boards) + rest) == Got(Each(Trim, NormalizeBoards(boards)), rest)
  {
    var norm := NormalizeBoards(boards);
    forall b | b in norm ensures Reads(BoardBytes, ReadBoard, Trim, b) { BoardRoundTrip(b); }
    ListRoundTrip(BoardBytes, ReadBoard, Trim, norm, rest);
  }

  /** Decoding a built payload gives the normalised list without the discovery endpoint and
      without empty strings, every byte consumed. */
  lemma TopologyRoundTrip(boards: seq<Board>)
    requires Fits(NormalizeBoards(boards))
    ensures DecodeTopology(TopologyBytes(boards)) == Some(Each(Trim, NormalizeBoards(boards)))
  {
    ReadsTopology(boards, []);
    assert TopologyBytes(boards) + [] == TopologyBytes(boards);
    NormalizeCanonical(boards);
    TrimCanonical(NormalizeBoards(boards));
    CanonicalIdle(Each(Trim, NormalizeBoards(boards)));
  }

  /** Facts that are not carried. */
  predicate Dropped(f: Fact) {
    (f.Reach? && f.ep == EP_DISCOVERY) || (f.Source? && f.source == []) || (f.Conn? && f.peer == [])
  }

  lemma TrimSays(b: Board, f: Fact)
    ensures Says(Trim(b), f) <==> Says(b, f) && !Dropped(f)
  {}

  /** For lists without repeated ids: the facts that survive build and decode. */
  lemma TopologyFactsSurvive(boards: seq<Board>, f: Fact)
    requires Fits(NormalizeBoards(boards)) && DistinctIds(boards)
    ensures DecodeTopology(TopologyBytes(boards)).Some?
    ensures Holds(DecodeTopology(TopologyBytes(boards)).value, f) <==> Holds(boards, f) && !SelfLoop(f) && !Dropped(f)
  {
    TopologyRoundTrip(boards);
    NormalizeFacts(boards, f);
    TrimFacts(NormalizeBoards(boards), f);
  }

  lemma {:induction false} TrimFacts(bs: seq<Board>, f: Fact)
    ensures Holds(Each(Trim, bs), f) <==> Holds(bs, f) && !Dropped(f)
  {
    if bs != [] {
      TrimFacts(bs[1..], f);
      TrimSays(bs[0], f);
      HoldsCons(bs, f);
      HoldsCons(Each(Trim, bs), f);
      assert Each(Trim, bs)[1..] == Each(Trim, bs[1..]);
    }
  }

  lemma HoldsCons(bs: seq<Board>, f: Fact)
    requires bs != []
    ensures Holds(bs, f) <==> Says(bs[0], f) || Holds(bs[1..], f)
  {}

  // ---------------------------------------------------------------- no other reading

  /** What a reader takes does not depend on what follows. */
  ghost predicate Local<T(!new)>(read: bytestring -> Read<T>) {
    forall s, t, v, rest :: read(s) == Got(v, rest) ==> read(s + t) == Got(v, rest + t)
  }

  lemma SizeLocal()
    ensures Local(ReadSize)
  {}

  lemma StringLocal()
    ensures Local(ReadString)
  {
    SizeLocal();
    forall s, t, v, rest | ReadString(s) == Got(v, rest) ensures ReadString(s + t) == Got(v, rest + t) {
      var len, r := ReadSize(s).value, ReadSize(s).rest;
      assert ReadSize(s + t) == Got(len, r + t);
      assert (r + t)[..len] == r[..len] && (r + t)[len..] == r[len..] + t;
    }
  }

  lemma {:induction false} ManyLocal<T(!new)>(read: bytestring -> Read<T>, s: bytestring, n: nat, t: bytestring)
    requires Local(read) && ReadMany(read, s, n).Got?
    ensures ReadMany(read, s + t, n) == Got(ReadMany(read, s, n).value, ReadMany(read, s, n).rest + t)
    decreases n
  {
    if n > 0 {
      var x, rest := read(s).value, read(s).rest;
      assert read(s + t) == Got(x, rest + t);
      ManyLocal(read, rest, n - 1, t);
    }
  }

  lemma ListLocal<T(!new)>(read: bytestring -> Read<T>)
    requires Local(read)
    ensures Local((s: bytestring) => ReadList(read, s))
  {
    SizeLocal();
    forall s, t, v, rest | ReadList(read, s) == Got(v, rest) ensures ReadList(read, s + t) == Got(v, rest + t) {
      var n, r := ReadSize(s).value, ReadSize(s).rest;
      assert ReadSize(s + t) == Got(n, r + t);
      ManyLocal(read, r, n, t);
    }
  }

  lemma ListLocalAt<T(!new)>(read: bytestring -> Read<T>, s: bytestring, t: bytestring)
    requires Local(read) && ReadList(read, s).Got?
    ensures ReadList(read, s + t) == Got(ReadList(read, s).value, ReadList(read, s).rest + t)
  {
    ListLocal(read);
    var whole := (u: bytestring) => ReadList(read, u);
    assert whole(s) == Got(ReadList(read, s).value, ReadList(read, s).rest);
    assert whole(s + t) == ReadList(read, s + t);
  }

  lemma BoardLocal()
    ensures Local(ReadBoard)
  {
    StringLocal();
    SizeLocal();
    forall s, t, v, rest | ReadBoard(s) == Got(v, rest) ensures ReadBoard(s + t) == Got(v, rest + t) {
      var s1 := ReadString(s).rest;
      assert ReadString(s) == Got(ReadString(s).value, s1);
      assert ReadString(s + t) == Got(ReadString(s).value, s1 + t);
      ListLocalAt(ReadSize, s1, t);
      var s2 := ReadList(ReadSize, s1).rest;
      ListLocalAt(ReadString, s2, t);
      var s3 := ReadList(ReadString, s2).rest;
      ListLocalAt(ReadString, s3, t);
    }
  }

  /** Of a built payload no proper prefix and no proper extension decodes. */
  lemma PayloadPrefixFree(boards: seq<Board>, p: bytestring, t: bytestring)
    requires Fits(NormalizeBoards(boards)) && t != []
    ensures p + t == TopologyBytes(boards) ==> DecodeTopology(p) == None
    ensures p == TopologyBytes(boards) + t ==> DecodeTopology(p) == None
  {
    ReadsTopology(boards, []);
    ReadsTopology(boards, t);
    assert TopologyBytes(boards) + [] == TopologyBytes(boards);
    if p + t == TopologyBytes(boards) && DecodeTopology(p).Some? {
      BoardLocal();
      ListLocalAt(ReadBoard, p, t);
      assert false;
    }
  }

  // ---------------------------------------------------------------- the loops

  lemma {:induction false} ConcatSnoc<T>(write: T -> bytestring, xs: seq<T>, x: T)
    ensures Concat(write, xs + [x]) == Concat(write, xs) + write(x)
  {
    if xs == [] {
      assert Concat(write, [x]) == write(x) + Concat(write, []);
    } else {
      ConcatSnoc(write, xs[1..], x);
      assert (xs + [x])[1..] == xs[1..] + [x];
    }
  }

  method AppendStrings(payload: bytestring, xs: seq<bytestring>) returns (out: bytestring)
    ensures out == payload + ListBytes(StringBytes, xs)
  {
    out := payload + SizeBytes(|xs|);
    for i := 0 to |xs|
      invariant out == payload + (SizeBytes(|xs|) + Concat(StringBytes, xs[..i]))
    {
      assert xs[..i + 1] == xs[..i] + [xs[i]];
      ConcatSnoc(StringBytes, xs[..i], xs[i]);
      out := out + SizeBytes(|xs[i]|) + xs[i];
    }
    assert xs[..|xs|] == xs;
  }

  method AppendEndpoints(payload: bytestring, xs: seq<uint32>) returns (out: bytestring)
    ensures out == payload + ListBytes(EndpointBytes, xs)
  {
    out := payload + SizeBytes(|xs|);
    for i := 0 to |xs|
      invariant out == payload + (SizeBytes(|xs|) + Concat(EndpointBytes, xs[..i]))
    {
      assert xs[..i + 1] == xs[..i] + [xs[i]];
      ConcatSnoc(EndpointBytes, xs[..i], xs[i]);
      out := out + Le32(xs[i]);
    }
    assert xs[..|xs|] == xs;
  }

  method AppendBoard(payload: bytestring, b: Board) returns (out: bytestring)
    ensures out == payload + BoardBytes(b)
  {
    out := payload + SizeBytes(|b.id|) + b.id;
    out := AppendEndpoints(out, b.endpoints);
    out := AppendStrings(out, b.sources);
    out := AppendStrings(out, b.connections);
  }

  method AppendBoards(payload: bytestring, boards: seq<Board>) returns (out: bytestring)
    ensures out == payload + Concat(BoardBytes, boards)
  {
    out := payload;
    for i := 0 to |boards|
      invariant out == payload + Concat(BoardBytes, boards[..i])
    {
      assert boards[..i + 1] == boards[..i] + [boards[i]];
      ConcatSnoc(BoardBytes, boards[..i], boards[i]);
      Assoc(payload, Concat(BoardBytes, boards[..i]), BoardBytes(boards[i]));
      out := AppendBoard(out, boards[i]);
    }
    assert boards[..|boards|] == boards;
  }

  /** build_discovery_topology */
  method BuildTopology(boards: seq<Board>) returns (payload: bytestring)
    ensures payload == TopologyBytes(boards)
  {
    var normalized := Normalize(boards);
    payload := SizeBytes(|normalized|);
    payload := AppendBoards(payload, normalized);
  }

  /** The outcome of reading at an offset, as the offset-passing code reports it. */
  ghost function Outcome<T>(payload: bytestring, r: Option<T>, next: nat): Read<T>
    requires next <= |payload|
  {
    if r.Some? then Got(r.value, payload[next..]) else Fail
  }

  method DecodeSize(payload: bytestring, offset: nat) returns (r: Option<uint32>, next: nat)
    requires offset <= |payload|
    ensures next == (if r.Some? then offset + 4 else offset) <= |payload|
    ensures Outcome(payload, r, next) == ReadSize(payload[offset..])
  {
    if offset + 4 > |payload| { return None, offset; }
    assert payload[offset..][..4] == payload[offset..offset + 4];
    return Some(FromLe32(payload[offset..offset + 4])), offset + 4;
  }

  method DecodeSizedString(payload: bytestring, offset: nat) returns (r: Option<bytestring>, next: nat)
    requires offset <= |payload|
    ensures offset <= next <= |payload|
    ensures Outcome(payload, r, next) == ReadString(payload[offset..])
  {
    var len;
    len, next := DecodeSize(payload, offset);
    if len.None? || next + len.value > |payload| { return None, next; }
    assert payload[next..][..len.value] == payload[next..next + len.value];
    return Some(payload[next..next + len.value]), next + len.value;
  }

  /** One turn of a reading loop. */
  lemma ManyStep<T>(read: bytestring -> Read<T>, whole: Read<seq<T>>, raw: seq<T>, s: bytestring, n: nat, x: T,
                    rest: bytestring)
    requires n > 0 && read(s) == Got(x, rest) && whole == Push(raw, ReadMany(read, s, n))
    ensures whole == Push(raw + [x], ReadMany(read, rest, n - 1))
  {
    if ReadMany(read, rest, n - 1).Got? {
      var ys := ReadMany(read, rest, n - 1).value;
      assert raw + ([x] + ys) == (raw + [x]) + ys;
    }
  }

  lemma ManyStop<T>(read: bytestring -> Read<T>, raw: seq<T>, s: bytestring, n: nat)
    ensures n == 0 ==> Push(raw, ReadMany(read, s, n)) == Got(raw, s)
    ensures n > 0 && read(s).Fail? ==> Push(raw, ReadMany(read, s, n)) == Fail
  {
    assert raw + [] == raw;
  }

  lemma PushNothing<T>(r: Read<seq<T>>)
    ensures Push([], r) == r
  {
    if r.Got? { assert [] + r.value == r.value; }
  }

  /** read stands for decode_sized_string at every offset. */
  ghost predicate StringReader(read: bytestring -> Read<bytestring>, payload: bytestring) {
    forall o {:trigger ReadString(payload[o..])} :: 0 <= o <= |payload| ==>
        ReadString(payload[o..]) == read(payload[o..])
  }

  method NextString(payload: bytestring, offset: nat, ghost read: bytestring -> Read<bytestring>)
    returns (r: Option<bytestring>, next: nat)
    requires offset <= |payload| && StringReader(read, payload)
    ensures offset <= next <= |payload|
    ensures read(payload[offset..]) == if r.Some? then Got(r.value, payload[next..]) else Fail
  {
    r, next := DecodeSizedString(payload, offset);
  }

  method CollectStrings(payload: bytestring, offset: nat, n: nat, ghost read: bytestring -> Read<bytestring>)
    returns (r: Option<seq<bytestring>>, next: nat, ghost raw: seq<bytestring>)
    requires offset <= |payload| && StringReader(read, payload)
    ensures offset <= next <= |payload|
    ensures ReadMany(read, payload[offset..], n) == if r.Some? then Got(raw, payload[next..]) else Fail
    ensures r.Some? ==> r.value == Filter(raw, NonEmpty)
  {
    raw, next := [], offset;
    ghost var whole := ReadMany(read, payload[offset..], n);
    PushNothing(whole);
    var i: nat, kept: seq<bytestring> := 0, [];
    while i < n
      invariant 0 <= i <= n && offset <= next <= |payload|
      invariant kept == Filter(raw, NonEmpty)
      invariant whole == Push(raw, ReadMany(read, payload[next..], n - i))
    {
      ManyStop(read, raw, payload[next..], n - i);
      var s, after := NextString(payload, next, read);
      if s.None? { return None, next, raw; }
      ManyStep(read, whole, raw, payload[next..], n - i, s.value, payload[after..]);
      FilterSnoc(raw, NonEmpty, s.value);
      if s.value != [] { kept := kept + [s.value]; }
      raw := raw + [s.value];
      i, next := i + 1, after;
    }
    ManyStop(read, raw, payload[next..], 0);
    return Some(kept), next, raw;
  }

  method DecodeStrings(payload: bytestring, offset: nat)
    returns (r: Option<seq<bytestring>>, next: nat, ghost raw: seq<bytestring>)
    requires offset <= |payload|
    ensures offset <= next <= |payload|
    ensures ReadList(ReadString, payload[offset..]) == if r.Some? then Got(raw, payload[next..]) else Fail
    ensures r.Some? ==> r.value == Filter(raw, NonEmpty)
  {
    raw := [];
    var count;
    count, next := DecodeSize(payload, offset);
    if count.None? { return None, next, raw; }
    r, next, raw := CollectStrings(payload, next, count.value, ReadString);
  }

  /** A run of 32-bit numbers is short exactly when four bytes each do not fit. */
  lemma {:induction false} NumbersFit(s: bytestring, n: nat)
    ensures ReadMany(ReadSize, s, n).Fail? <==> |s| < 4 * n
    ensures ReadMany(ReadSize, s, n).Got? ==> ReadMany(ReadSize, s, n).rest == s[4 * n..]
    decreases n
  {
    if n > 0 && |s| >= 4 { NumbersFit(s[4..], n - 1); }
  }

  method CopyNumbers(payload: bytestring, offset: nat, n: nat) returns (numbers: seq<uint32>)
    requires offset + 4 * n <= |payload|
    ensures ReadMany(ReadSize, payload[offset..], n) == Got(numbers, payload[offset + 4 * n..])
  {
    numbers := [];
    ghost var whole := ReadMany(ReadSize, payload[offset..], n);
    PushNothing(whole);
    var i, at := 0, offset;
    while i < n
      invariant 0 <= i <= n && at == offset + 4 * i
      invariant whole == Push(numbers, ReadMany(ReadSize, payload[at..], n - i))
    {
      NumberAt(payload, at);
      var number, after := DecodeSize(payload, at);
      ManyStep(ReadSize, whole, numbers, payload[at..], n - i, number.value, payload[after..]);
      numbers := numbers + [number.value];
      i, at := i + 1, after;
    }
    ManyStop(ReadSize, numbers, payload[at..], 0);
  }

  lemma NumberAt(payload: bytestring, at: nat)
    requires at + 4 <= |payload|
    ensures ReadSize(payload[at..]).Got? && ReadSize(payload[at..]).rest == payload[at + 4..]
  {}

  method DecodeEndpoints(payload: bytestring, offset: nat) returns (r: Option<seq<uint32>>, next: nat)
    requires offset <= |payload|
    ensures offset <= next <= |payload|
    ensures Outcome(payload, r, next) == ReadList(ReadSize, payload[offset..])
  {
    var count;
    count, next := DecodeSize(payload, offset);
    if count.None? { return None, next; }
    var n: int := count.value;
    NumbersFit(payload[next..], n);
    if next + n * 4 > |payload| { return None, next; }
    var endpoints := CopyNumbers(payload, next, n);
    return Some(endpoints), next + n * 4;
  }

  method DecodeBoard(payload: bytestring, offset: nat) returns (r: Option<Board>, next: nat)
    requires offset <= |payload|
    ensures offset <= next <= |payload|
    ensures Outcome(payload, r, next) == ReadBoard(payload[offset..])
  {
    var id, endpoints, sources, connections;
    ghost var raw, raw';
    id, next := DecodeSizedString(payload, offset);
    if id.None? { return None, next; }
    endpoints, next := DecodeEndpoints(payload, next);
    if endpoints.None? { return None, next; }
    sources, next, raw := DecodeStrings(payload, next);
    if sources.None? { return None, next; }
    connections, next, raw' := DecodeStrings(payload, next);
    if connections.None? { return None, next; }
    return Some(Board(id.value, Filter(endpoints.value, NotDiscovery), sources.value, connections.value)), next;
  }

  /** decode_discovery_topology_payload: an offset moves over the payload once. */
  method DecodeTopologyPayload(payload: bytestring) returns (r: Option<seq<Board>>)
    ensures r == DecodeTopology(payload)
    ensures r.Some? ==> CanonicalBoards(r.value)
  {
    assert payload[0..] == payload;
    var count, offset := DecodeSize(payload, 0);
    if count.None? { return None; }
    ghost var whole := ReadList(ReadBoard, payload);
    PushNothing(whole);
    var i, boards := 0, [];
    while i < count.value
      invariant 0 <= i <= count.value && offset <= |payload|
      invariant whole == Push(boards, ReadMany(ReadBoard, payload[offset..], count.value - i))
    {
      ManyStop(ReadBoard, boards, payload[offset..], count.value - i);
      var board, after := DecodeBoard(payload, offset);
      if board.None? { return None; }
      ManyStep(ReadBoard, whole, boards, payload[offset..], count.value - i, board.value, payload[after..]);
      boards := boards + [board.value];
      i, offset := i + 1, after;
    }
    ManyStop(ReadBoard, boards, payload[offset..], 0);
    if offset != |payload| { return None; }
    boards := Normalize(boards);
    return Some(boards);
  }

  // ---------------------------------------------------------------- the format pinned by its bytes

  /** A board "A" that reaches endpoint 0x0304, names the time source "ab" and is connected to "B". */
  lemma BoardExample()
    ensures BoardBytes(Board([65], [0x0304], [[97, 98]], [[66]]))
            == [1, 0, 0, 0, 65, 1, 0, 0, 0, 4, 3, 0, 0, 1, 0, 0, 0, 2, 0, 0, 0, 97, 98, 1, 0, 0, 0, 1, 0, 0, 0, 66]
  {
    SizesExample();
    OneItem(EndpointBytes, 0x0304);
    OneItem(StringBytes, [97, 98]);
    OneItem(StringBytes, [66]);
  }

  lemma SizesExample()
    ensures SizeBytes(1) == [1, 0, 0, 0] && SizeBytes(2) == [2, 0, 0, 0] && Le32(0x0304) == [4, 3, 0, 0]
  {}

  lemma OneItem<T>(write: T -> bytestring, x: T)
    ensures Concat(write, [x]) == write(x)
  {
    assert [x][1..] == [];
    assert write(x) + [] == write(x);
  }
}
