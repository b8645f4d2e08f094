/** Bounded memories: the recently received packet ids and the return routes of reliable
    packets. */
module Memories {
  import opened Bytes
  import opened Sorting

  function LastN<T>(s: seq<T>, n: nat): (r: seq<T>)
    ensures |r| == Min(n, |s|)
  {
    if |s| <= n then s else s[|s| - n..]
  }

  // ---------------------------------------------------------------- recent ids

  /** The ids let through, in order, out of all ids received: one is let through unless it is
      among the last n let through before it. */
  function Accepted(n: nat, received: seq<uint64>): (log: seq<uint64>) {
    if received == [] then []
    else
      var before, id := Accepted(n, received[..|received| - 1]), received[|received| - 1];
      if id in LastN(before, n) then before else before + [id]
  }

  /** An id is let through again only after at least n others: of the accepted ids, equal ones are
      more than n apart. */
  lemma {:induction false} AcceptedApart(n: nat, received: seq<uint64>, i: nat, j: nat)
    requires i < j < |Accepted(n, received)| && Accepted(n, received)[i] == Accepted(n, received)[j]
    ensures j - i - 1 >= n
  {
    if received != [] {
      var before, id := Accepted(n, received[..|received| - 1]), received[|received| - 1];
      if j < |before| {
        AcceptedApart(n, received[..|received| - 1], i, j);
      } else if i + n >= |before| {
        InLastN(before, n, i);
      }
    }
  }

  lemma InLastN<T>(s: seq<T>, n: nat, i: nat)
    requires |s| - n <= i < |s|
    ensures s[i] in LastN(s, n)
  {}

  lemma LastNAppend<T>(s: seq<T>, x: T, n: nat)
    requires n >= 1
    ensures LastN(s + [x], n) == (if |s| >= n then LastN(s, n)[1..] else LastN(s, n)) + [x]
  {}

  class RecentIds {
    const capacity: nat
    var ids: seq<uint64>
    var known: set<uint64>
    ghost var received: seq<uint64>

    ghost predicate Valid()
      reads this
    {
      && capacity >= 1
      && ids == LastN(Accepted(capacity, received), capacity)
      && Distinct(ids)
      && (forall x :: x in known <==> x in ids)
    }

    constructor (capacity: nat)
      requires capacity >= 1
      ensures Valid() && this.capacity == capacity && received == []
    {
      this.capacity, ids, known, received := capacity, [], {}, [];
    }

    /** push_recent */
    method Push(id: uint64)
      requires Valid()
      modifies this
      ensures Valid() && received == old(received) + [id]
    {
      assert (received + [id])[..|received|] == received;
      LastNAppend(Accepted(capacity, received), id, capacity);
      received := received + [id];
      if id in known { return; }
      if |ids| >= capacity {
        DistinctPop(ids);
        known := known - {ids[0]};
        ids := ids[1..];
      }
      ids := ids + [id];
      known := known + {id};
    }

    /** The gate of router_receive_impl: a packet goes on to the handlers only if its id is not
        remembered. */
    method Admit(id: uint64) returns (admitted: bool)
      requires Valid()
      modifies this
      ensures Valid() && received == old(received) + [id]
      ensures admitted <==> id !in LastN(Accepted(capacity, old(received)), capacity)
      ensures admitted <==> Accepted(capacity, received) == Accepted(capacity, old(received)) + [id]
    {
      assert (received + [id])[..|received|] == received;
      admitted := id !in known;
      Push(id);
    }
  }

  // ---------------------------------------------------------------- return routes

  function NotId(id: uint64): uint64 -> bool { (x: uint64) => x != id }

  /** The order list after noting id: id moves to the end, the oldest leave to make room. */
  function Noted(order: seq<uint64>, id: uint64, cap: nat): seq<uint64>
    requires cap >= 1
  {
    LastN(Filter(order, NotId(id)), cap - 1) + [id]
  }

  lemma {:induction false} FilterDistinct(s: seq<uint64>, keep: uint64 -> bool)
    requires Distinct(s)
    ensures Distinct(Filter(s, keep))
  {
    if s != [] {
      var tail := s[1..];
      DistinctPop(s);
      FilterDistinct(tail, keep);
      var rest := Filter(tail, keep);
      forall k | 0 <= k < |rest| ensures rest[k] != s[0] { assert rest[k] in rest; }
    }
  }

  lemma NotedDistinct(order: seq<uint64>, id: uint64, cap: nat)
    requires Distinct(order) && cap >= 1
    ensures Distinct(Noted(order, id, cap)) && |Noted(order, id, cap)| <= cap
  {
    var others := Filter(order, NotId(id));
    FilterDistinct(order, NotId(id));
    var kept := LastN(others, cap - 1);
    forall k | 0 <= k < |kept| ensures kept[k] != id
    {
      assert kept[k] == others[|others| - |kept| + k] && kept[k] in others;
    }
  }

  class ReturnRoutes {
    var order: seq<uint64>
    var routes: map<uint64, int>

    /** Every remembered route is listed, and listed once. */
    ghost predicate Valid()
      reads this
    {
      Distinct(order) && forall k :: k in routes ==> k in order
    }

    constructor ()
      ensures Valid() && order == [] && routes == map[]
    {
      order, routes := [], map[];
    }

    /** The eviction loop: room for one more below the cap. */
    method Evict(cap: nat)
      requires cap >= 1 && Distinct(order)
      modifies this
      ensures order == LastN(old(order), cap - 1)
      ensures forall k :: k in routes <==> k in old(routes) && (k in old(order) ==> k in order)
      ensures forall k :: k in routes ==> routes[k] == old(routes)[k]
    {
      while |order| >= cap
        invariant LastN(order, cap - 1) == LastN(old(order), cap - 1)
        invariant Distinct(order) && forall k :: k in order ==> k in old(order)
        invariant forall k :: k in routes <==> k in old(routes) && (k in old(order) ==> k in order)
        invariant forall k :: k in routes ==> routes[k] == old(routes)[k]
        decreases |order|
      {
        DistinctPop(order);
        routes := routes - {order[0]};
        order := order[1..];
      }
    }

    /** note_reliable_return_route; `limit` is the configured cap. */
    method Note(side: int, id: uint64, limit: nat)
      requires Valid()
      modifies this
      ensures Valid() && |order| <= Max(1, limit)
      ensures order == Noted(old(order), id, Max(1, limit))
      ensures forall k :: k in routes <==> k == id || (k in old(routes) && k in order)
      ensures routes[id] == side
      ensures forall k :: k in routes && k != id ==> routes[k] == old(routes)[k]
    {
      var cap := Max(1, limit);
      NotedDistinct(order, id, cap);
      FilterDistinct(order, NotId(id));
      order := Filter(order, NotId(id));
      Evict(cap);
      order := order + [id];
      routes := routes[id := side];
    }
  }

  // ---------------------------------------------------------------- runs of the return routes

  /** The list after noting a whole history of ids. */
  function NotedAll(history: seq<uint64>, cap: nat): seq<uint64>
    requires cap >= 1
  {
    if history == [] then [] else Noted(NotedAll(history[..|history| - 1], cap), history[|history| - 1], cap)
  }

  /** After any history the list repeats nothing, is no longer than the cap, and ends with the id
      noted last. */
  lemma {:induction false} NotedAllBounded(history: seq<uint64>, cap: nat)
    requires cap >= 1
    ensures Distinct(NotedAll(history, cap)) && |NotedAll(history, cap)| <= cap
    ensures history != [] ==>
              NotedAll(history, cap) != []
              && NotedAll(history, cap)[|NotedAll(history, cap)| - 1] == history[|history| - 1]
  {
    if history != [] {
      NotedAllBounded(history[..|history| - 1], cap);
      NotedDistinct(NotedAll(history[..|history| - 1], cap), history[|history| - 1], cap);
    }
  }

  // ---------------------------------------------------------------- which routes are remembered

  /** All ids of a history, each once, by the time it was noted last. */
  function ByRecency(history: seq<uint64>): seq<uint64> {
    if history == [] then []
    else Filter(ByRecency(history[..|history| - 1]), NotId(history[|history| - 1])) + [history[|history| - 1]]
  }

  /** The position at which x was noted last. */
  function LastNoted(history: seq<uint64>, x: uint64): (i: nat)
    requires x in history
    ensures i < |history| && history[i] == x && x !in history[i + 1..]
  {
    var n := |history| - 1;
    if history[n] == x then n else
      assert history == history[..n] + [history[n]];
      var i := LastNoted(history[..n], x);
      assert history[i + 1..] == history[..n][i + 1..] + [history[n]];
      i
  }

  lemma {:induction false} RecencyMembers(history: seq<uint64>, x: uint64)
    ensures x in ByRecency(history) <==> x in history
    ensures Distinct(ByRecency(history))
  {
    if history != [] {
      var n := |history| - 1;
      var before := ByRecency(history[..n]);
      RecencyMembers(history[..n], x);
      assert history == history[..n] + [history[n]];
      FilterHas(before, NotId(history[n]), x);
      FilterHas(before, NotId(history[n]), history[n]);
      FilterDistinct(before, NotId(history[n]));
    }
  }

  lemma {:induction false} FilterHas(s: seq<uint64>, keep: uint64 -> bool, x: uint64)
    ensures x in Filter(s, keep) <==> x in s && keep(x)
  {
    if s != [] {
      assert s == [s[0]] + s[1..];
      FilterHas(s[1..], keep, x);
    }
  }

  /** The list is in the order of the last notings. */
  lemma {:induction false} RecencyOrder(history: seq<uint64>, i: nat, j: nat)
    requires i < j < |ByRecency(history)|
    ensures ByRecency(history)[i] in history && ByRecency(history)[j] in history
    ensures LastNoted(history, ByRecency(history)[i]) < LastNoted(history, ByRecency(history)[j])
  {
    var n, r := |history| - 1, ByRecency(history);
    var before := ByRecency(history[..n]);
    var kept := Filter(before, NotId(history[n]));
    assert history == history[..n] + [history[n]];
    assert r[i] in kept && r[i] == kept[i];
    FilterHas(before, NotId(history[n]), r[i]);
    RecencyMembers(history[..n], r[i]);
    if j < |kept| {
      assert r[j] == kept[j] && r[j] in kept;
      FilterHas(before, NotId(history[n]), r[j]);
      RecencyMembers(history[..n], r[j]);
      var a, b := FilterKeepsOrder(before, NotId(history[n]), i, j);
      RecencyOrder(history[..n], a, b);
    }
  }

  lemma {:induction false} FilterKeepsOrder(s: seq<uint64>, keep: uint64 -> bool, i: nat, j: nat)
    returns (a: nat, b: nat)
    requires i < j < |Filter(s, keep)|
    ensures a < b < |s| && s[a] == Filter(s, keep)[i] && s[b] == Filter(s, keep)[j]
  {
    if !keep(s[0]) {
      a, b := FilterKeepsOrder(s[1..], keep, i, j);
      a, b := a + 1, b + 1;
    } else if i > 0 {
      a, b := FilterKeepsOrder(s[1..], keep, i - 1, j - 1);
      a, b := a + 1, b + 1;
    } else {
      var y := Filter(s[1..], keep)[j - 1];
      assert y in Filter(s[1..], keep);
      FilterHas(s[1..], keep, y);
      var k :| 0 <= k < |s[1..]| && s[1..][k] == y;
      a, b := 0, k + 1;
    }
  }

  /** The capped list remembers exactly the `cap` ids noted last, whatever was forgotten on the way: evicting as
      the history unfolds gives the same as evicting once at its end. */
  lemma {:induction false} NotedAllIsRecent(history: seq<uint64>, cap: nat)
    requires cap >= 1
    ensures NotedAll(history, cap) == LastN(ByRecency(history), cap)
  {
    if history != [] {
      var n := |history| - 1;
      var before, id := ByRecency(history[..n]), history[n];
      NotedAllIsRecent(history[..n], cap);
      RecencyMembers(history[..n], id);
      FilterSuffix(before, id, cap);
      LastNAppend(Filter(before, NotId(id)), id, cap);
      LastNShrinks(Filter(before, NotId(id)), cap);
    }
  }

  lemma LastNShrinks<T>(s: seq<T>, n: nat)
    requires n >= 1
    ensures LastN(s, n - 1) == if |s| >= n then LastN(s, n)[1..] else s
  {}

  lemma FilterSuffix(r: seq<uint64>, id: uint64, cap: nat)
    requires Distinct(r) && cap >= 1
    ensures LastN(Filter(LastN(r, cap), NotId(id)), cap - 1) == LastN(Filter(r, NotId(id)), cap - 1)
  {
    if |r| > cap {
      var lead, tail := r[..|r| - cap], r[|r| - cap..];
      assert r == lead + tail;
      FilterAppend(lead, tail, NotId(id));
      FilterOne(tail, id);
    }
  }

  lemma {:induction false} FilterAppend(a: seq<uint64>, b: seq<uint64>, keep: uint64 -> bool)
    ensures Filter(a + b, keep) == Filter(a, keep) + Filter(b, keep)
  {
    if a == [] {
      assert a + b == b;
    } else {
      assert (a + b)[1..] == a[1..] + b;
      FilterAppend(a[1..], b, keep);
    }
  }

  lemma {:induction false} FilterOne(s: seq<uint64>, id: uint64)
    requires Distinct(s)
    ensures |Filter(s, NotId(id))| >= |s| - 1 && (id !in s ==> Filter(s, NotId(id)) == s)
  {
    if s != [] {
      assert s == [s[0]] + s[1..];
      DistinctPop(s);
      FilterOne(s[1..], id);
    }
  }
}
