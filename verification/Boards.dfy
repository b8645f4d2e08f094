/** Topology boards: normalising, merging and summarising lists of them. A list is understood as
    the set of facts it states; a canonical list is determined by that set. */
module Boards {
  import opened Bytes
  import opened Sorting

  datatype Board = Board(id: bytestring, endpoints: seq<uint32>, sources: seq<bytestring>, connections: seq<bytestring>)

  /** One statement a board list can make. */
  datatype Fact =
    | Known(id: bytestring)
    | Reach(id: bytestring, ep: uint32)
    | Source(id: bytestring, source: bytestring)
    | Conn(id: bytestring, peer: bytestring)

  predicate Says(b: Board, f: Fact) {
    b.id == f.id &&
    match f
    case Known(_) => true
    case Reach(_, ep) => ep in b.endpoints
    case Source(_, source) => source in b.sources
    case Conn(_, peer) => peer in b.connections
  }

  ghost predicate Holds(bs: seq<Board>, f: Fact) {
    exists b :: b in bs && Says(b, f)
  }

  predicate SelfLoop(f: Fact) { f.Conn? && f.peer == f.id }

  function Id(b: Board): bytestring { b.id }

  function Num(x: uint32): int { x }

  /** sort and unique on endpoint numbers */
  function SortEndpoints(s: seq<uint32>): seq<uint32> { SortUnique(s, Num, Lt) }

  ghost predicate SortedEndpoints(s: seq<uint32>) { Sorted(s, Num, Lt) }

  lemma SortEndpointsSpec(s: seq<uint32>)
    ensures SortedEndpoints(SortEndpoints(s))
    ensures forall y :: y in SortEndpoints(s) <==> y in s
  {
    SortUniqueSpec(s, Num, Lt);
    forall y | y in s ensures y in SortEndpoints(s) { assert HasKey(SortEndpoints(s), Num, Num(y)); }
    forall y | y in SortEndpoints(s) ensures y in s {}
  }

  lemma CanonicalEndpoints(a: seq<uint32>, b: seq<uint32>)
    requires SortedEndpoints(a) && SortedEndpoints(b) && forall y :: y in a <==> y in b
    ensures a == b
  {
    forall y | y in a ensures y in b {}
    forall y | y in b ensures y in a {}
    Canonical(a, b, Num, Lt);
  }

  // ---------------------------------------------------------------- canonical lists

  ghost predicate CanonicalBoard(b: Board) {
    SortedEndpoints(b.endpoints) && SortedStrings(b.sources) && SortedStrings(b.connections) && b.id !in b.connections
  }

  ghost predicate CanonicalBoards(bs: seq<Board>) {
    Sorted(bs, Id, LexLt) && forall b :: b in bs ==> CanonicalBoard(b)
  }

  ghost predicate DistinctIds(bs: seq<Board>) { DistinctKeys(bs, Id) }

  lemma CanonicalDistinct(bs: seq<Board>)
    requires CanonicalBoards(bs)
    ensures DistinctIds(bs)
  {
    LexOrder();
    SortedDistinct(bs, Id, LexLt);
  }

  /** With one board to an id, what the list says about an id is what its board says. */
  lemma HoldsOnBoard(bs: seq<Board>, x: Board, f: Fact)
    requires DistinctIds(bs) && x in bs && f.id == x.id
    ensures Holds(bs, f) <==> Says(x, f)
  {}

  lemma BoardCarriedOver(a: seq<Board>, b: seq<Board>, x: Board)
    requires CanonicalBoards(a) && CanonicalBoards(b) && x in a
    requires forall f :: Holds(a, f) <==> Holds(b, f)
    ensures x in b
  {
    CanonicalDistinct(a);
    CanonicalDistinct(b);
    assert Says(x, Known(x.id));
    assert Holds(a, Known(x.id));
    var y :| y in b && Says(y, Known(x.id));
    forall f: Fact | f.id == x.id ensures Says(x, f) <==> Says(y, f) {
      HoldsOnBoard(a, x, f);
      HoldsOnBoard(b, y, f);
    }
    SameBoard(x, y);
  }

  lemma SameBoard(x: Board, y: Board)
    requires CanonicalBoard(x) && CanonicalBoard(y) && x.id == y.id
    requires forall f: Fact :: f.id == x.id ==> (Says(x, f) <==> Says(y, f))
    ensures x == y
  {
    forall ep: uint32 ensures ep in x.endpoints <==> ep in y.endpoints
    {
      assert Says(x, Reach(x.id, ep)) <==> Says(y, Reach(x.id, ep));
    }
    CanonicalEndpoints(x.endpoints, y.endpoints);
    forall s ensures s in x.sources <==> s in y.sources
    {
      assert Says(x, Source(x.id, s)) <==> Says(y, Source(x.id, s));
    }
    CanonicalStrings(x.sources, y.sources);
    forall p ensures p in x.connections <==> p in y.connections
    {
      assert Says(x, Conn(x.id, p)) <==> Says(y, Conn(x.id, p));
    }
    CanonicalStrings(x.connections, y.connections);
  }

  /** A canonical list is determined by the facts it states. */
  lemma FactsDetermine(a: seq<Board>, b: seq<Board>)
    requires CanonicalBoards(a) && CanonicalBoards(b)
    requires forall f :: Holds(a, f) <==> Holds(b, f)
    ensures a == b
  {
    forall x ensures x in a <==> x in b {
      if x in a { BoardCarriedOver(a, b, x); }
      if x in b { BoardCarriedOver(b, a, x); }
    }
    LexOrder();
    Canonical(a, b, Id, LexLt);
  }

  // ---------------------------------------------------------------- normalising

  function NormalizeBoard(b: Board): Board {
    Board(b.id, SortEndpoints(b.endpoints), SortStrings(b.sources), SortStrings(Filter(b.connections, c => c != b.id)))
  }

  function NormalizeEach(bs: seq<Board>): (r: seq<Board>)
    ensures |r| == |bs| && forall i :: 0 <= i < |bs| ==> r[i] == NormalizeBoard(bs[i])
  {
    if bs == [] then [] else [NormalizeBoard(bs[0])] + NormalizeEach(bs[1..])
  }

  /** normalize_topology_boards; of the boards sharing an id the first is kept. */
  function NormalizeBoards(bs: seq<Board>): seq<Board> { SortUnique(NormalizeEach(bs), Id, LexLt) }

  lemma NormalizeBoardSpec(b: Board)
    ensures CanonicalBoard(NormalizeBoard(b))
    ensures forall f :: Says(NormalizeBoard(b), f) <==> Says(b, f) && !SelfLoop(f)
  {
    SortEndpointsSpec(b.endpoints);
    SortStringsSpec(b.sources);
    SortStringsSpec(Filter(b.connections, c => c != b.id));
  }

  /** What any way of sorting and dropping repeated ids yields. */
  ghost predicate NormalOf(bs: seq<Board>, r: seq<Board>) {
    && Sorted(r, Id, LexLt)
    && (forall y :: y in r ==> y in NormalizeEach(bs))
    && (forall y :: y in NormalizeEach(bs) ==> HasKey(r, Id, y.id))
  }

  lemma NormalizeIsNormal(bs: seq<Board>)
    ensures NormalOf(bs, NormalizeBoards(bs))
  {
    LexOrder();
    SortUniqueSpec(NormalizeEach(bs), Id, LexLt);
    forall y | y in NormalizeEach(bs) ensures HasKey(NormalizeBoards(bs), Id, y.id) {
      assert HasKey(NormalizeBoards(bs), Id, Id(y));
    }
  }

  lemma NormalCanonical(bs: seq<Board>, r: seq<Board>)
    requires NormalOf(bs, r)
    ensures CanonicalBoards(r)
  {
    forall y | y in r ensures CanonicalBoard(y) {
      var i :| 0 <= i < |bs| && NormalizeEach(bs)[i] == y;
      NormalizeBoardSpec(bs[i]);
    }
  }

  lemma NormalizeCanonical(bs: seq<Board>)
    ensures CanonicalBoards(NormalizeBoards(bs))
  {
    NormalizeIsNormal(bs);
    NormalCanonical(bs, NormalizeBoards(bs));
  }

  lemma NormalSound(bs: seq<Board>, r: seq<Board>, f: Fact)
    requires NormalOf(bs, r) && Holds(r, f)
    ensures Holds(bs, f) && !SelfLoop(f)
  {
    var y :| y in r && Says(y, f);
    var i :| 0 <= i < |bs| && NormalizeEach(bs)[i] == y;
    NormalizeBoardSpec(bs[i]);
    assert bs[i] in bs;
  }

  lemma NormalKeeps(bs: seq<Board>, r: seq<Board>, i: nat)
    requires NormalOf(bs, r) && DistinctIds(bs) && i < |bs|
    ensures NormalizeBoard(bs[i]) in r
  {}

  /** Without repeated ids, normalising loses self-connections and nothing else. */
  lemma NormalFacts(bs: seq<Board>, r: seq<Board>, f: Fact)
    requires NormalOf(bs, r) && DistinctIds(bs)
    ensures Holds(r, f) <==> Holds(bs, f) && !SelfLoop(f)
  {
    if Holds(r, f) { NormalSound(bs, r, f); }
    if Holds(bs, f) && !SelfLoop(f) {
      var b :| b in bs && Says(b, f);
      var i :| 0 <= i < |bs| && bs[i] == b;
      NormalKeeps(bs, r, i);
      NormalizeBoardSpec(b);
    }
  }

  /** Without repeated ids the order in which equal keys are sorted cannot matter. */
  lemma NormalDetermined(bs: seq<Board>, r: seq<Board>)
    requires NormalOf(bs, r) && DistinctIds(bs)
    ensures r == NormalizeBoards(bs)
  {
    NormalizeIsNormal(bs);
    NormalizeCanonical(bs);
    NormalCanonical(bs, r);
    forall f ensures Holds(r, f) <==> Holds(NormalizeBoards(bs), f) {
      NormalFacts(bs, r, f);
      NormalFacts(bs, NormalizeBoards(bs), f);
    }
    FactsDetermine(r, NormalizeBoards(bs));
  }

  lemma NormalizeFacts(bs: seq<Board>, f: Fact)
    requires DistinctIds(bs)
    ensures Holds(NormalizeBoards(bs), f) <==> Holds(bs, f) && !SelfLoop(f)
  {
    NormalizeIsNormal(bs);
    NormalFacts(bs, NormalizeBoards(bs), f);
  }

  /** A list is left as it is exactly when it is canonical; hence normalising twice is normalising
      once. */
  lemma NormalizeIdle(bs: seq<Board>)
    ensures NormalizeBoards(bs) == bs <==> CanonicalBoards(bs)
    ensures NormalizeBoards(NormalizeBoards(bs)) == NormalizeBoards(bs)
  {
    NormalizeCanonical(bs);
    if CanonicalBoards(bs) { CanonicalIdle(bs); }
    CanonicalIdle(NormalizeBoards(bs));
  }

  lemma CanonicalIdle(bs: seq<Board>)
    requires CanonicalBoards(bs)
    ensures NormalizeBoards(bs) == bs
  {
    NormalizeCanonical(bs);
    CanonicalDistinct(bs);
    forall f ensures Holds(NormalizeBoards(bs), f) <==> Holds(bs, f) { NormalizeFacts(bs, f); }
    FactsDetermine(NormalizeBoards(bs), bs);
  }

  /** normalize_topology_boards */
  method Normalize(boards: seq<Board>) returns (out: seq<Board>)
    ensures out == NormalizeBoards(boards)
    ensures CanonicalBoards(out)
    ensures DistinctIds(boards) ==> forall f :: Holds(out, f) <==> Holds(boards, f) && !SelfLoop(f)
  {
    out := boards;
    for i := 0 to |boards|
      invariant |out| == |boards|
      invariant forall j :: 0 <= j < i ==> out[j] == NormalizeBoard(boards[j])
      invariant forall j :: i <= j < |boards| ==> out[j] == boards[j]
    {
      var b := out[i];
      b := b.(endpoints := SortEndpoints(b.endpoints));
      b := b.(sources := SortStrings(b.sources));
      b := b.(connections := Filter(b.connections, c => c != b.id));
      b := b.(connections := SortStrings(b.connections));
      out := out[i := b];
    }
    assert out == NormalizeEach(boards);
    out := SortUnique(out, Id, LexLt);
    NormalizeCanonical(boards);
    if DistinctIds(boards) {
      forall f ensures Holds(out, f) <==> Holds(boards, f) && !SelfLoop(f) { NormalizeFacts(boards, f); }
    }
  }

  // ---------------------------------------------------------------- merging

  /** The first board with the id, or |bs|. */
  function Find(bs: seq<Board>, id: bytestring): (i: nat)
    ensures i <= |bs| && (i < |bs| ==> bs[i].id == id)
    ensures forall j :: 0 <= j < i ==> bs[j].id != id
  {
    if bs == [] || bs[0].id == id then 0 else 1 + Find(bs[1..], id)
  }

  function Joined(a: Board, b: Board): Board {
    a.(endpoints := a.endpoints + b.endpoints, sources := a.sources + b.sources,
       connections := a.connections + b.connections)
  }

  function AddBoard(dst: seq<Board>, b: Board): seq<Board> {
    var i := Find(dst, b.id);
    if i == |dst| then dst + [b] else dst[i := Joined(dst[i], b)]
  }

  function AddBoards(dst: seq<Board>, src: seq<Board>): seq<Board> {
    if src == [] then dst else AddBoard(AddBoards(dst, src[..|src| - 1]), src[|src| - 1])
  }

  function MergeBoards(dst: seq<Board>, src: seq<Board>): seq<Board> { NormalizeBoards(AddBoards(dst, src)) }

  lemma AddBoardSpec(dst: seq<Board>, b: Board)
    requires DistinctIds(dst)
    ensures DistinctIds(AddBoard(dst, b))
    ensures forall f :: Holds(AddBoard(dst, b), f) <==> Holds(dst, f) || Says(b, f)
  {
    var i := Find(dst, b.id);
    var r := AddBoard(dst, b);
    forall f ensures Holds(r, f) <==> Holds(dst, f) || Says(b, f) {
      if i == |dst| {
        assert forall x :: x in r <==> x in dst || x == b;
      } else {
        AddedFacts(dst, i, b, f);
      }
    }
  }

  lemma AddedFacts(dst: seq<Board>, i: nat, b: Board, f: Fact)
    requires i < |dst| && dst[i].id == b.id
    ensures Holds(dst[i := Joined(dst[i], b)], f) <==> Holds(dst, f) || Says(b, f)
  {
    var r := dst[i := Joined(dst[i], b)];
    assert r[i] in r && dst[i] in dst;
    assert Says(r[i], f) <==> Says(dst[i], f) || Says(b, f);
    if Holds(r, f) && !Says(b, f) {
      var y :| y in r && Says(y, f);
      var j :| 0 <= j < |r| && r[j] == y;
      assert dst[j] in dst && Says(dst[j], f);
    }
    if Holds(dst, f) {
      var y :| y in dst && Says(y, f);
      var j :| 0 <= j < |dst| && dst[j] == y;
      assert r[j] in r && Says(r[j], f);
    }
  }

  lemma {:induction false} AddBoardsSpec(dst: seq<Board>, src: seq<Board>)
    requires DistinctIds(dst)
    ensures DistinctIds(AddBoards(dst, src))
    ensures forall f :: Holds(AddBoards(dst, src), f) <==> Holds(dst, f) || Holds(src, f)
  {
    if src != [] {
      var init, last := src[..|src| - 1], src[|src| - 1];
      AddBoardsSpec(dst, init);
      AddBoardSpec(AddBoards(dst, init), last);
      assert src == init + [last];
    }
  }

  /** Merging unites the facts of both lists (self-connections aside), whatever the order of the
      boards and of what they list; the result is canonical. */
  lemma MergeFacts(dst: seq<Board>, src: seq<Board>)
    requires DistinctIds(dst)
    ensures CanonicalBoards(MergeBoards(dst, src))
    ensures forall f :: Holds(MergeBoards(dst, src), f) <==> (Holds(dst, f) || Holds(src, f)) && !SelfLoop(f)
  {
    AddBoardsSpec(dst, src);
    NormalizeCanonical(AddBoards(dst, src));
    forall f ensures Holds(MergeBoards(dst, src), f) <==> (Holds(dst, f) || Holds(src, f)) && !SelfLoop(f) {
      NormalizeFacts(AddBoards(dst, src), f);
    }
  }

  /** merge_topology_boards */
  method Merge(dst: seq<Board>, src: seq<Board>) returns (out: seq<Board>)
    ensures out == MergeBoards(dst, src)
    ensures DistinctIds(dst) ==> CanonicalBoards(out)
    ensures DistinctIds(dst) ==> forall f :: Holds(out, f) <==> (Holds(dst, f) || Holds(src, f)) && !SelfLoop(f)
  {
    out := dst;
    for k := 0 to |src|
      invariant out == AddBoards(dst, src[..k])
    {
      var b := src[k];
      assert src[..k + 1][..k] == src[..k] && src[..k + 1][k] == b;
      var i := Find(out, b.id);
      if i == |out| {
        out := out + [b];
      } else {
        out := out[i := Joined(out[i], b)];
      }
    }
    assert src[..|src|] == src;
    if DistinctIds(dst) { MergeFacts(dst, src); }
    out := Normalize(out);
  }

  /** Merging canonical lists is commutative, associative and idempotent. */
  lemma MergeAlgebra(a: seq<Board>, b: seq<Board>, c: seq<Board>)
    requires CanonicalBoards(a) && CanonicalBoards(b) && CanonicalBoards(c)
    ensures MergeBoards(a, b) == MergeBoards(b, a)
    ensures MergeBoards(MergeBoards(a, b), c) == MergeBoards(a, MergeBoards(b, c))
    ensures MergeBoards(a, a) == a
  {
    CanonicalDistinct(a);
    CanonicalDistinct(b);
    CanonicalDistinct(c);
    MergeFacts(a, b);
    MergeFacts(b, a);
    FactsDetermine(MergeBoards(a, b), MergeBoards(b, a));
    MergeFacts(b, c);
    CanonicalDistinct(MergeBoards(a, b));
    MergeFacts(MergeBoards(a, b), c);
    MergeFacts(a, MergeBoards(b, c));
    FactsDetermine(MergeBoards(MergeBoards(a, b), c), MergeBoards(a, MergeBoards(b, c)));
    MergeFacts(a, a);
    forall f | Holds(a, f) ensures !SelfLoop(f) { NoSelfLoop(a, f); }
    FactsDetermine(MergeBoards(a, a), a);
  }

  lemma NoSelfLoop(a: seq<Board>, f: Fact)
    requires CanonicalBoards(a) && Holds(a, f)
    ensures !SelfLoop(f)
  {}

  // ---------------------------------------------------------------- summaries

  ghost predicate Reachable(bs: seq<Board>, ep: uint32) { exists b :: b in bs && ep in b.endpoints }

  ghost predicate HasSource(bs: seq<Board>, s: bytestring) { exists b :: b in bs && s in b.sources }

  /** summarize_topology_boards: exactly the endpoints and sources some board lists, sorted. */
  method Summarize(boards: seq<Board>) returns (endpoints: seq<uint32>, sources: seq<bytestring>)
    ensures SortedEndpoints(endpoints) && SortedStrings(sources)
    ensures forall ep :: ep in endpoints <==> Reachable(boards, ep)
    ensures forall s :: s in sources <==> HasSource(boards, s)
  {
    endpoints, sources := [], [];
    for i := 0 to |boards|
      invariant forall ep :: ep in endpoints <==> Reachable(boards[..i], ep)
      invariant forall s :: s in sources <==> HasSource(boards[..i], s)
    {
      assert boards[..i + 1] == boards[..i] + [boards[i]];
      assert forall b :: b in boards[..i + 1] <==> b in boards[..i] || b == boards[i];
      endpoints := endpoints + boards[i].endpoints;
      sources := sources + boards[i].sources;
    }
    assert boards[..|boards|] == boards;
    SortEndpointsSpec(endpoints);
    SortStringsSpec(sources);
    endpoints, sources := SortEndpoints(endpoints), SortStrings(sources);
  }
}
