/** Byte-budgeted transmit and receive queues. */
module Queues {
  import opened Bytes
  import opened Packets
  import opened Sorting

  datatype TxItem = TxItem(pkt: Packet, srcSide: Option<int>, dstSide: Option<int>, deliverLocal: bool)

  datatype RxItem = RxItem(pkt: Packet, srcSide: Option<int>, wire: bytestring)

  function PacketCost(p: Packet): nat { 4 + 8 + |p.sender| + 4 * |p.endpoints| + |p.payload| }

  function TxCost(i: TxItem): nat { PacketCost(i.pkt) + 1 + 4 * 2 }

  function RxCost(i: RxItem): nat { PacketCost(i.pkt) + 4 + |i.wire| }

  function Sum<T>(q: seq<T>, cost: T -> nat): nat {
    if q == [] then 0 else cost(q[0]) + Sum(q[1..], cost)
  }

  lemma {:induction false} SumConcat<T>(a: seq<T>, b: seq<T>, cost: T -> nat)
    ensures Sum(a + b, cost) == Sum(a, cost) + Sum(b, cost)
  {
    if a == [] {
      assert a + b == b;
    } else {
      assert (a + b)[1..] == a[1..] + b;
      SumConcat(a[1..], b, cost);
    }
  }

  ghost predicate Suffix<T>(s: seq<T>, q: seq<T>) { |s| <= |q| && s == q[|q| - |s|..] }

  /** What is left after dropping from the front until the rest fits into `room`. */
  function Fit<T>(q: seq<T>, cost: T -> nat, room: nat): seq<T> {
    if q == [] || Sum(q, cost) <= room then q else Fit(q[1..], cost, room)
  }

  /** Fit is the longest suffix that fits. */
  lemma {:induction false} FitLongest<T>(q: seq<T>, cost: T -> nat, room: nat, k: nat)
    ensures Suffix(Fit(q, cost, room), q) && Sum(Fit(q, cost, room), cost) <= room
    ensures k <= |q| && Sum(q[k..], cost) <= room ==> |q| - k <= |Fit(q, cost, room)|
  {
    if q != [] && Sum(q, cost) > room {
      assert k == 0 ==> q[k..] == q;
      FitLongest(q[1..], cost, room, if k > 0 then k - 1 else 0);
      assert 0 < k <= |q| ==> q[1..][k - 1..] == q[k..];
    }
  }

  function Enqueued<T>(q: seq<T>, cost: T -> nat, item: T, front: bool, budget: nat): seq<T> {
    if cost(item) > budget then q
    else
      var kept := Fit(q, cost, budget - cost(item));
      if front then [item] + kept else kept + [item]
  }

  class Queue<T(!new)> {
    const cost: T -> nat
    var items: seq<T>
    var bytes: nat

    ghost predicate Valid()
      reads this
    {
      bytes == Sum(items, cost)
    }

    constructor (cost: T -> nat)
      ensures Valid() && items == [] && this.cost == cost
    {
      this.cost, items, bytes := cost, [], 0;
    }

    /** enqueue_bounded */
    method Enqueue(item: T, front: bool, budget: nat) returns (ok: bool)
      requires Valid()
      modifies this`items, this`bytes
      ensures Valid()
      ensures ok <==> cost(item) <= budget
      ensures items == Enqueued(old(items), cost, item, front, budget)
      ensures !ok ==> items == old(items)
      ensures ok && front ==> items != [] && items[0] == item && Suffix(items[1..], old(items))
      ensures ok && !front ==> items != [] && items[|items| - 1] == item && Suffix(items[..|items| - 1], old(items))
      ensures old(bytes) <= budget ==> bytes <= budget
    {
      var c := cost(item);
      if c > budget { return false; }
      FitLongest(items, cost, budget - c, 0);
      while items != [] && bytes + c > budget
        invariant Valid()
        invariant Fit(items, cost, budget - c) == Fit(old(items), cost, budget - c)
        decreases |items|
      {
        bytes := bytes - cost(items[0]);
        items := items[1..];
      }
      SumConcat([item], items, cost);
      SumConcat(items, [item], cost);
      assert [item][1..] == [];
      assert ([item] + items)[1..] == items && (items + [item])[..|items|] == items;
      items := if front then [item] + items else items + [item];
      bytes := bytes + c;
      return true;
    }

    /** pop_tx, pop_rx */
    method Pop() returns (item: Option<T>)
      requires Valid()
      modifies this`items, this`bytes
      ensures Valid()
      ensures if old(items) == [] then item == None && items == []
              else item == Some(old(items)[0]) && items == old(items)[1..]
    {
      if items == [] { return None; }
      bytes := bytes - cost(items[0]);
      item := Some(items[0]);
      items := items[1..];
    }

    /** The front item leaves with its bytes. */
    method DropOldest()
      requires Valid() && items != []
      modifies this`items, this`bytes
      ensures Valid() && items == old(items)[1..]
    {
      bytes := bytes - cost(items[0]);
      items := items[1..];
    }

    /** erase_tx_items_for_side_locked, erase_rx_items_for_side_locked: `keep` is false for the
        items of the side. */
    method Erase(keep: T -> bool)
      requires Valid()
      modifies this`items, this`bytes
      ensures Valid() && items == Filter(old(items), keep)
    {
      var kept: seq<T> := [];
      var rest := items;
      while rest != []
        invariant items == old(items) && kept + Filter(rest, keep) == Filter(items, keep)
        invariant bytes == Sum(kept, cost) + Sum(rest, cost)
        decreases |rest|
      {
        EraseStep(kept, rest, keep, cost);
        if keep(rest[0]) {
          kept := kept + [rest[0]];
        } else {
          bytes := bytes - cost(rest[0]);
        }
        rest := rest[1..];
      }
      assert kept + [] == kept;
      items := kept;
    }
  }

  lemma EraseStep<T(!new)>(kept: seq<T>, rest: seq<T>, keep: T -> bool, cost: T -> nat)
    requires rest != []
    ensures var kept' := if keep(rest[0]) then kept + [rest[0]] else kept;
            && kept + Filter(rest, keep) == kept' + Filter(rest[1..], keep)
            && Sum(kept', cost) == Sum(kept, cost) + (if keep(rest[0]) then cost(rest[0]) else 0)
  {
    SumConcat(kept, [rest[0]], cost);
    assert [rest[0]][1..] == [];
  }

  /** A router's two queues, charged by byte_cost. */
  method NewQueues() returns (rx: Queue<RxItem>, tx: Queue<TxItem>)
    ensures fresh(rx) && rx.Valid() && rx.items == [] && rx.cost == RxCost
    ensures fresh(tx) && tx.Valid() && tx.items == [] && tx.cost == TxCost
  {
    rx := new Queue(RxCost);
    tx := new Queue(TxCost);
  }

  /** The items that stay in each queue when a side is removed. */
  function OtherTx(side: int): TxItem -> bool { (i: TxItem) => i.srcSide != Some(side) && i.dstSide != Some(side) }

  function OtherRx(side: int): RxItem -> bool { (i: RxItem) => i.srcSide != Some(side) }

  method EraseSide(rx: Queue<RxItem>, tx: Queue<TxItem>, side: int)
    requires rx.Valid() && tx.Valid() && rx as object != tx as object
    modifies rx`items, rx`bytes, tx`items, tx`bytes
    ensures rx.Valid() && rx.items == Filter(old(rx.items), OtherRx(side))
    ensures tx.Valid() && tx.items == Filter(old(tx.items), OtherTx(side))
  {
    tx.Erase(OtherTx(side));
    rx.Erase(OtherRx(side));
  }

  // ---------------------------------------------------------------- the shared budget

  datatype Pair<T, U> = Pair(rx: seq<T>, tx: seq<U>)

  /** The shared pass: while the queues together exceed the budget, drop the oldest item of the
      larger one (of the only non-empty one). */
  function Shared<T, U>(rx: seq<T>, tx: seq<U>, rxCost: T -> nat, txCost: U -> nat, budget: nat): Pair<T, U>
    decreases |rx| + |tx|
  {
    if Sum(rx, rxCost) + Sum(tx, txCost) <= budget then Pair(rx, tx)
    else if rx != [] && (tx == [] || Sum(rx, rxCost) >= Sum(tx, txCost))
        then Shared(rx[1..], tx, rxCost, txCost, budget)
    else if tx != [] then Shared(rx, tx[1..], rxCost, txCost, budget)
    else Pair(rx, tx)
  }

  lemma {:induction false} SharedFits<T, U>(rx: seq<T>, tx: seq<U>, rxCost: T -> nat, txCost: U -> nat, budget: nat)
    ensures var p := Shared(rx, tx, rxCost, txCost, budget);
            && Suffix(p.rx, rx) && Suffix(p.tx, tx)
            && Sum(p.rx, rxCost) + Sum(p.tx, txCost) <= budget
    decreases |rx| + |tx|
  {
    if Sum(rx, rxCost) + Sum(tx, txCost) > budget {
      if rx != [] && (tx == [] || Sum(rx, rxCost) >= Sum(tx, txCost)) {
        SharedFits(rx[1..], tx, rxCost, txCost, budget);
      } else if tx != [] {
        SharedFits(rx, tx[1..], rxCost, txCost, budget);
      }
    }
  }

  /** Queues that fit together are left alone; otherwise the oldest item of the one with more bytes
      goes (of the receive queue if they are equal), or of the only one that has any. */
  lemma SharedGivesWay<T, U>(rx: seq<T>, tx: seq<U>, rxCost: T -> nat, txCost: U -> nat, budget: nat)
    ensures var r, t, p := Sum(rx, rxCost), Sum(tx, txCost), Shared(rx, tx, rxCost, txCost, budget);
            && (r + t <= budget ==> p == Pair(rx, tx))
            && (r + t > budget && r > t ==> rx != [] && p == Shared(rx[1..], tx, rxCost, txCost, budget))
            && (r + t > budget && r < t ==> tx != [] && p == Shared(rx, tx[1..], rxCost, txCost, budget))
            && (r + t > budget && r == t ==> rx != [] && p == Shared(rx[1..], tx, rxCost, txCost, budget))
  {}

  /** enforce_shared_queue_budget */
  method EnforceShared(rx: Queue<RxItem>, tx: Queue<TxItem>, budget: nat)
    requires rx.Valid() && tx.Valid() && rx as object != tx as object
    modifies rx`items, rx`bytes, tx`items, tx`bytes
    ensures rx.Valid() && tx.Valid()
    ensures Pair(rx.items, tx.items) == Shared(old(rx.items), old(tx.items), rx.cost, tx.cost, budget)
    ensures rx.bytes + tx.bytes <= budget
  {
    SharedFits(rx.items, tx.items, rx.cost, tx.cost, budget);
    while rx.bytes + tx.bytes > budget
      invariant rx.Valid() && tx.Valid()
      invariant Shared(rx.items, tx.items, rx.cost, tx.cost, budget)
          == Shared(old(rx.items), old(tx.items), rx.cost, tx.cost, budget)
      decreases |rx.items| + |tx.items|
    {
      if rx.items != [] && (tx.items == [] || rx.bytes >= tx.bytes) {
        rx.DropOldest();
      } else if tx.items != [] {
        tx.DropOldest();
      } else {
        break;
      }
    }
  }

  // ---------------------------------------------------------------- whole runs

  datatype Op<!T> = Put(item: T, front: bool) | Take | Erase(keep: T -> bool) | Clear

  function Apply<T(!new)>(q: seq<T>, op: Op<T>, cost: T -> nat, budget: nat): seq<T> {
    match op
    case Put(item, front) => Enqueued(q, cost, item, front, budget)
    case Take => if q == [] then [] else q[1..]
    case Erase(keep) => Filter(q, keep)
    case Clear => []
  }

  function RunOps<T(!new)>(ops: seq<Op<T>>, cost: T -> nat, budget: nat): seq<T> {
    if ops == [] then [] else Apply(RunOps(ops[..|ops| - 1], cost, budget), ops[|ops| - 1], cost, budget)
  }

  lemma {:induction false} FilterSum<T(!new)>(q: seq<T>, keep: T -> bool, cost: T -> nat)
    ensures Sum(Filter(q, keep), cost) <= Sum(q, cost)
  {
    if q != [] {
      FilterSum(q[1..], keep, cost);
      var head := if keep(q[0]) then [q[0]] else [];
      SumConcat(head, Filter(q[1..], keep), cost);
      assert [q[0]][1..] == [];
    }
  }

  /** In every run of operations the queued bytes never exceed the budget. */
  lemma {:induction false} RunWithinBudget<T(!new)>(ops: seq<Op<T>>, cost: T -> nat, budget: nat)
    ensures Sum(RunOps(ops, cost, budget), cost) <= budget
  {
    if ops != [] {
      var q, op := RunOps(ops[..|ops| - 1], cost, budget), ops[|ops| - 1];
      RunWithinBudget(ops[..|ops| - 1], cost, budget);
      match op {
        case Put(item, front) =>
          if cost(item) <= budget {
            var kept := Fit(q, cost, budget - cost(item));
            FitLongest(q, cost, budget - cost(item), 0);
            SumConcat([item], kept, cost);
            SumConcat(kept, [item], cost);
            assert [item][1..] == [];
          }
        case Take =>
        case Erase(keep) => FilterSum(q, keep, cost);
        case Clear =>
      }
    }
  }

  // ---------------------------------------------------------------- the order in which items leave

  /** a is b with some elements left out. */
  predicate Sub<T(==)>(a: seq<T>, b: seq<T>) {
    a == [] || (b != [] && ((a[0] == b[0] && Sub(a[1..], b[1..])) || Sub(a, b[1..])))
  }

  lemma {:induction false} SubRefl<T>(a: seq<T>)
    ensures Sub(a, a)
  {
    if a != [] { SubRefl(a[1..]); }
  }

  lemma {:induction false} SubTrans<T>(a: seq<T>, b: seq<T>, c: seq<T>)
    requires Sub(a, b) && Sub(b, c)
    ensures Sub(a, c)
    decreases |c|
  {
    if a != [] && c != [] {
      if b[0] == c[0] && Sub(b[1..], c[1..]) {
        if a[0] == b[0] && Sub(a[1..], b[1..]) {
          SubTrans(a[1..], b[1..], c[1..]);
        } else {
          SubTrans(a, b[1..], c[1..]);
        }
      } else {
        SubTrans(a, b, c[1..]);
      }
    }
  }

  lemma {:induction false} SubAfter<T>(t: seq<T>, a: seq<T>, b: seq<T>)
    requires Sub(a, b)
    ensures Sub(t + a, t + b)
  {
    if t == [] {
      assert t + a == a && t + b == b;
    } else {
      SubAfter(t[1..], a, b);
      assert (t + a)[1..] == t[1..] + a && (t + b)[1..] == t[1..] + b;
    }
  }

  lemma {:induction false} SubSnoc<T>(a: seq<T>, b: seq<T>, x: T)
    requires Sub(a, b)
    ensures Sub(a + [x], b + [x]) && Sub(a, b + [x])
    decreases |b|
  {
    if b == [] {
      assert a == [] && a + [x] == [x] && b + [x] == [x];
      SubRefl([x]);
    } else {
      assert (b + [x])[1..] == b[1..] + [x];
      if a == [] {
        SubSnoc([], b[1..], x);
      } else {
        assert (a + [x])[1..] == a[1..] + [x];
        if a[0] == b[0] && Sub(a[1..], b[1..]) { SubSnoc(a[1..], b[1..], x); } else { SubSnoc(a, b[1..], x); }
      }
    }
  }

  lemma {:induction false} SubSuffix<T>(a: seq<T>, b: seq<T>)
    requires Suffix(a, b)
    ensures Sub(a, b)
  {
    if |a| == |b| {
      SubRefl(b);
    } else {
      assert a == b[1..][|b[1..]| - |a|..];
      SubSuffix(a, b[1..]);
    }
  }

  lemma {:induction false} SubFilter<T(!new)>(b: seq<T>, keep: T -> bool)
    ensures Sub(Filter(b, keep), b)
  {
    if b != [] {
      SubFilter(b[1..], keep);
      var rest := Filter(b[1..], keep);
      assert ([b[0]] + rest)[1..] == rest && [] + rest == rest;
    }
  }

  /** Leaving elements out does not disturb which of the marked ones are left. */
  lemma {:induction false} SubFiltered<T(!new)>(a: seq<T>, b: seq<T>, mark: T -> bool)
    requires Sub(a, b)
    ensures Sub(Filter(a, mark), Filter(b, mark))
    decreases |b|
  {
    if a != [] {
      var rest := Filter(b[1..], mark);
      if a[0] == b[0] && Sub(a[1..], b[1..]) {
        SubFiltered(a[1..], b[1..], mark);
        var left := Filter(a[1..], mark);
        assert ([a[0]] + left)[1..] == left && ([b[0]] + rest)[1..] == rest && [] + left == left && [] + rest == rest;
      } else {
        SubFiltered(a, b[1..], mark);
        assert ([b[0]] + rest)[1..] == rest && [] + rest == rest;
      }
    }
  }

  lemma {:induction false} FilterWithout<T(!new)>(a: seq<T>, x: T, b: seq<T>, mark: T -> bool)
    requires !mark(x)
    ensures Filter(a + ([x] + b), mark) == Filter(a + b, mark)
  {
    if a == [] {
      assert a + ([x] + b) == [x] + b && a + b == b && ([x] + b)[1..] == b;
    } else {
      assert (a + ([x] + b))[1..] == a[1..] + ([x] + b) && (a + b)[1..] == a[1..] + b;
      FilterWithout(a[1..], x, b, mark);
    }
  }

  /** What the takes of a run returned. */
  function Taken<T(!new)>(ops: seq<Op<T>>, cost: T -> nat, budget: nat): seq<T> {
    if ops == [] then []
    else
      var before := ops[..|ops| - 1];
      var q := RunOps(before, cost, budget);
      Taken(before, cost, budget) + if ops[|ops| - 1].Take? && q != [] then [q[0]] else []
  }

  /** The items the puts of a run were accepted with, in order. */
  function Given<T(!new)>(ops: seq<Op<T>>, cost: T -> nat, budget: nat): seq<T> {
    if ops == [] then []
    else
      var op := ops[|ops| - 1];
      Given(ops[..|ops| - 1], cost, budget) + if op.Put? && cost(op.item) <= budget then [op.item] else []
  }

  /** The marked items left and still queued are marked items put, in order. */
  ghost predicate InOrder<T(!new)>(taken: seq<T>, q: seq<T>, given: seq<T>, mark: T -> bool) {
    Sub(Filter(taken + q, mark), Filter(given, mark))
  }

  /** First in, first out: in every run of puts, takes, erasures and clearings, the items put at the back that have
      left and those still queued, in this order, are the items put at the back, in the order they were put,
      with some missing (the evicted and erased ones). `mark` tells items put at the back from those put in front. */
  lemma {:induction false} FirstInFirstOut<T(!new)>(ops: seq<Op<T>>, cost: T -> nat, budget: nat, mark: T -> bool)
    requires forall i :: 0 <= i < |ops| && ops[i].Put? ==> (mark(ops[i].item) <==> !ops[i].front)
    ensures Sub(Filter(Taken(ops, cost, budget) + RunOps(ops, cost, budget), mark),
                Filter(Given(ops, cost, budget), mark))
  {
    if ops != [] {
      var before, op := ops[..|ops| - 1], ops[|ops| - 1];
      FirstInFirstOut(before, cost, budget, mark);
      var taken, q, given := Taken(before, cost, budget), RunOps(before, cost, budget), Given(before, cost, budget);
      assert taken + [] == taken && given + [] == given;
      match op {
        case Put(item, front) => PutInOrder(taken, q, given, cost, item, front, budget, mark);
        case Take =>
          if q != [] { assert (taken + [q[0]]) + q[1..] == taken + q; }
        case Erase(keep) =>
          SubFilter(q, keep);
          LeavesInOrder(taken, q, Filter(q, keep), given, mark);
        case Clear =>
          LeavesInOrder(taken, q, [], given, mark);
      }
    }
  }

  lemma LeavesInOrder<T(!new)>(taken: seq<T>, q: seq<T>, kept: seq<T>, given: seq<T>, mark: T -> bool)
    requires InOrder(taken, q, given, mark) && Sub(kept, q)
    ensures InOrder(taken, kept, given, mark)
  {
    SubAfter(taken, kept, q);
    SubFiltered(taken + kept, taken + q, mark);
    SubTrans(Filter(taken + kept, mark), Filter(taken + q, mark), Filter(given, mark));
  }

  lemma PutInOrder<T(!new)>(taken: seq<T>, q: seq<T>, given: seq<T>, cost: T -> nat, item: T, front: bool, budget: nat,
                            mark: T -> bool)
    requires InOrder(taken, q, given, mark) && (mark(item) <==> !front)
    ensures InOrder(taken, Enqueued(q, cost, item, front, budget),
                    given + if cost(item) <= budget then [item] else [], mark)
  {
    assert given + [] == given;
    if cost(item) <= budget {
      var kept := Fit(q, cost, budget - cost(item));
      FitLongest(q, cost, budget - cost(item), 0);
      SubSuffix(kept, q);
      LeavesInOrder(taken, q, kept, given, mark);
      if front {
        FrontInOrder(taken, kept, given, item, mark);
      } else {
        BackInOrder(taken, kept, given, item, mark);
      }
    }
  }

  lemma FrontInOrder<T(!new)>(taken: seq<T>, kept: seq<T>, given: seq<T>, item: T, mark: T -> bool)
    requires InOrder(taken, kept, given, mark) && !mark(item)
    ensures InOrder(taken, [item] + kept, given + [item], mark)
  {
    FilterWithout(taken, item, kept, mark);
    FilterSnoc(given, mark, item);
    assert Filter(given, mark) + [] == Filter(given, mark);
  }

  lemma BackInOrder<T(!new)>(taken: seq<T>, kept: seq<T>, given: seq<T>, item: T, mark: T -> bool)
    requires InOrder(taken, kept, given, mark) && mark(item)
    ensures InOrder(taken, kept + [item], given + [item], mark)
  {
    assert taken + (kept + [item]) == (taken + kept) + [item];
    FilterSnoc(taken + kept, mark, item);
    FilterSnoc(given, mark, item);
    SubSnoc(Filter(taken + kept, mark), Filter(given, mark), item);
  }

  /** An accepted front put is what the next take returns, before everything queued. */
  lemma FrontLeavesFirst<T(!new)>(ops: seq<Op<T>>, cost: T -> nat, item: T, budget: nat)
    requires cost(item) <= budget
    ensures Taken(ops + [Put(item, true), Take], cost, budget) == Taken(ops, cost, budget) + [item]
  {
    var one, two := ops + [Put(item, true)], ops + [Put(item, true), Take];
    assert one[..|ops|] == ops && two[..|one|] == one;
    assert Taken(one, cost, budget) == Taken(ops, cost, budget) + [];
  }
}
