/** Choosing among candidate sides: fanout, weighted round robin, failover. */
module RoutePolicy {
  import opened Bytes
  import opened Sorting

  datatype Mode = Fanout | Weighted | Failover

  const DEFAULT_PRIORITY: int := 0x7FFF_FFFF

  function Weight(weights: map<int, uint32>, side: int): (w: nat)
    ensures w >= 1
  {
    if side in weights then Max(1, weights[side]) else 1
  }

  function Total(weights: map<int, uint32>, sides: seq<int>): (t: nat)
    ensures t >= |sides|
  {
    if sides == [] then 0 else Weight(weights, sides[0]) + Total(weights, sides[1..])
  }

  /** The side whose share of [0, Total) holds x. */
  function Pick(weights: map<int, uint32>, sides: seq<int>, x: nat): (s: int)
    requires x < Total(weights, sides)
    ensures s in sides
  {
    var w := Weight(weights, sides[0]);
    if x < w then sides[0] else Pick(weights, sides[1..], x - w)
  }

  function Priority(priorities: map<int, uint32>, side: int): int {
    if side in priorities then priorities[side] else DEFAULT_PRIORITY
  }

  /** s is the first side of least priority. */
  ghost predicate FirstLeast(priorities: map<int, uint32>, sides: seq<int>, s: int) {
    exists i :: 0 <= i < |sides| && sides[i] == s
      && (forall j :: 0 <= j < |sides| ==> Priority(priorities, s) <= Priority(priorities, sides[j]))
      && (forall j :: 0 <= j < i ==> Priority(priorities, s) < Priority(priorities, sides[j]))
  }

  /** The counter is a 64-bit word. */
  function Next(c: nat): nat { if c == TWO64 - 1 then 0 else c + 1 }

  class Policy {
    var mode: Mode
    var weights: map<int, uint32>
    var priorities: map<int, uint32>
    var rrCounter: uint64

    constructor (mode: Mode, weights: map<int, uint32>, priorities: map<int, uint32>)
      ensures this.mode == mode && this.weights == weights && this.priorities == priorities && rrCounter == 0
    {
      this.mode, this.weights, this.priorities, this.rrCounter := mode, weights, priorities, 0;
    }

    /** apply_policy */
    method Apply(sides: seq<int>) returns (out: seq<int>)
      modifies this`rrCounter
      ensures sides == [] || mode == Fanout ==> out == sides
      ensures sides != [] && mode == Failover ==> |out| == 1 && FirstLeast(priorities, sides, out[0])
      ensures sides != [] && mode == Weighted ==>
                out == [Pick(weights, sides, old(rrCounter) % Total(weights, sides))]
      ensures rrCounter == if sides != [] && mode == Weighted then Next(old(rrCounter)) else old(rrCounter)
      ensures forall i :: 0 <= i < |out| ==> out[i] in sides
    {
      if sides == [] || mode == Fanout { return sides; }
      if mode == Failover {
        var s := PickFailover(sides);
        return [s];
      }
      var total := 0;
      for i := 0 to |sides|
        invariant total + Total(weights, sides[i..]) == Total(weights, sides)
      {
        assert sides[i..][0] == sides[i] && sides[i..][1..] == sides[i + 1..];
        total := total + Weight(weights, sides[i]);
      }
      assert sides[|sides|..] == [];
      var pick := rrCounter % total;
      rrCounter := Next(rrCounter);
      var s := PickWeighted(sides, pick);
      return [s];
    }

    /** The running total passes `pick` at the chosen side; the loop never runs out. */
    method PickWeighted(sides: seq<int>, pick: nat) returns (s: int)
      requires pick < Total(weights, sides)
      ensures s == Pick(weights, sides, pick)
    {
      var running := 0;
      var i := 0;
      while i < |sides|
        invariant 0 <= i <= |sides| && running <= pick
        invariant pick - running < Total(weights, sides[i..])
        invariant Pick(weights, sides[i..], pick - running) == Pick(weights, sides, pick)
      {
        assert sides[i..][0] == sides[i] && sides[i..][1..] == sides[i + 1..];
        var w := Weight(weights, sides[i]);
        if pick < running + w { return sides[i]; }
        running := running + w;
        i := i + 1;
      }
      assert false;
    }

    method PickFailover(sides: seq<int>) returns (best: int)
      requires sides != []
      ensures FirstLeast(priorities, sides, best)
    {
      best := sides[0];
      var bestPri := 0xFFFF_FFFF;
      ghost var at := 0;
      for i := 0 to |sides|
        invariant 0 <= at < |sides| && sides[at] == best && (at < i || at == 0)
        invariant at < i && bestPri < 0xFFFF_FFFF ==> bestPri == Priority(priorities, best)
        invariant i > 0 && bestPri == 0xFFFF_FFFF ==> at == 0 && Priority(priorities, best) == bestPri
        invariant i == 0 ==> bestPri == 0xFFFF_FFFF && at == 0
        invariant forall j :: 0 <= j < i ==> bestPri <= Priority(priorities, sides[j])
        invariant forall j :: 0 <= j < at ==> bestPri < Priority(priorities, sides[j])
      {
        var pri := Priority(priorities, sides[i]);
        if pri < bestPri {
          bestPri, best, at := pri, sides[i], i;
        }
      }
    }
  }

  // ---------------------------------------------------------------- the choices in plain terms

  /** Each side adds its weight, at least 1, to the total. */
  lemma {:induction false} TotalSnoc(weights: map<int, uint32>, sides: seq<int>, s: int)
    ensures Total(weights, sides + [s])
            == Total(weights, sides) + if s in weights && weights[s] > 1 then weights[s] else 1
  {
    if sides == [] {
      assert [s][1..] == [];
    } else {
      assert (sides + [s])[1..] == sides[1..] + [s];
      TotalSnoc(weights, sides[1..], s);
    }
  }

  /** The chosen side is the one at which the running total of the weights passes x. */
  lemma {:induction false} PickMeaning(weights: map<int, uint32>, sides: seq<int>, x: nat) returns (i: nat)
    requires x < Total(weights, sides)
    ensures i < |sides| && Pick(weights, sides, x) == sides[i]
    ensures Total(weights, sides[..i]) <= x < Total(weights, sides[..i + 1])
  {
    var w := Weight(weights, sides[0]);
    if x < w {
      i := 0;
      assert sides[..1] == [sides[0]] && [sides[0]][1..] == [];
    } else {
      var k := PickMeaning(weights, sides[1..], x - w);
      i := k + 1;
      assert sides[..i][1..] == sides[1..][..k] && sides[..i + 1][1..] == sides[1..][..k + 1];
    }
  }

  /** Failover takes the side with the least number. A side without one ranks as 2^31 - 1. */
  lemma FailoverMeaning(priorities: map<int, uint32>, sides: seq<int>, s: int, t: int)
    requires FirstLeast(priorities, sides, s) && t in sides
    ensures s in sides
    ensures s in priorities && t in priorities ==> priorities[s] <= priorities[t]
    ensures s in priorities && t !in priorities ==> priorities[s] <= 0x7FFF_FFFF
    ensures s !in priorities && t in priorities ==> 0x7FFF_FFFF <= priorities[t]
  {}

  // ---------------------------------------------------------------- fairness

  /** Which side a counter value selects. */
  ghost function Chooser(weights: map<int, uint32>, sides: seq<int>): nat -> int
    requires sides != []
  {
    (k: nat) => Pick(weights, sides, k % Total(weights, sides))
  }

  /** What n consecutive calls return, the counter starting at c. */
  ghost function Calls(f: nat -> int, c: nat, n: nat): (r: seq<int>)
    ensures |r| == n
    decreases n
  {
    if n == 0 then [] else [f(c)] + Calls(f, Next(c), n - 1)
  }

  function Hit(b: bool): nat { if b then 1 else 0 }

  /** How many x in [lo, lo + n) fall into side s's share. */
  function Shares(weights: map<int, uint32>, sides: seq<int>, s: int, lo: nat, n: nat): nat
    requires lo + n <= Total(weights, sides)
    decreases n
  {
    if n == 0 then 0 else Hit(Pick(weights, sides, lo) == s) + Shares(weights, sides, s, lo + 1, n - 1)
  }

  /** How many of the counters c .. c + n - 1 select s. */
  ghost function Selected(f: nat -> int, s: int, c: nat, n: nat): nat
    decreases n
  {
    if n == 0 then 0 else Hit(f(c) == s) + Selected(f, s, c + 1, n - 1)
  }

  lemma {:induction false} SharesSplit(weights: map<int, uint32>, sides: seq<int>, s: int, lo: nat, a: nat, b: nat)
    requires lo + a + b <= Total(weights, sides)
    ensures Shares(weights, sides, s, lo, a + b)
        == Shares(weights, sides, s, lo, a) + Shares(weights, sides, s, lo + a, b)
    decreases a
  {
    if a > 0 { SharesSplit(weights, sides, s, lo + 1, a - 1, b); }
  }

  lemma {:induction false} SharesHead(weights: map<int, uint32>, sides: seq<int>, s: int, lo: nat, n: nat)
    requires sides != [] && lo + n <= Weight(weights, sides[0]) <= Total(weights, sides)
    ensures Shares(weights, sides, s, lo, n) == if s == sides[0] then n else 0
    decreases n
  {
    if n > 0 { SharesHead(weights, sides, s, lo + 1, n - 1); }
  }

  lemma {:induction false} SharesTail(weights: map<int, uint32>, sides: seq<int>, s: int, lo: nat, n: nat)
    requires sides != [] && lo + n <= Total(weights, sides[1..])
    ensures Shares(weights, sides, s, Weight(weights, sides[0]) + lo, n) == Shares(weights, sides[1..], s, lo, n)
    decreases n
  {
    if n > 0 { SharesTail(weights, sides, s, lo + 1, n - 1); }
  }

  lemma PeriodStep(weights: map<int, uint32>, sides: seq<int>, s: int)
    requires sides != []
    ensures Shares(weights, sides, s, 0, Total(weights, sides))
            == (if s == sides[0] then Weight(weights, sides[0]) else 0)
               + Shares(weights, sides[1..], s, 0, Total(weights, sides[1..]))
  {
    var w, rest := Weight(weights, sides[0]), Total(weights, sides[1..]);
    SharesSplit(weights, sides, s, 0, w, rest);
    SharesHead(weights, sides, s, 0, w);
    SharesTail(weights, sides, s, 0, rest);
  }

  /** Over one full period each side gets its weight. */
  lemma {:induction false} PeriodShares(weights: map<int, uint32>, sides: seq<int>, s: int)
    requires Distinct(sides)
    ensures Shares(weights, sides, s, 0, Total(weights, sides)) == if s in sides then Weight(weights, s) else 0
  {
    if sides != [] {
      assert sides == [sides[0]] + sides[1..];
      DistinctPop(sides);
      PeriodStep(weights, sides, s);
      PeriodShares(weights, sides[1..], s);
    }
  }

  lemma {:induction false} SelectedIsShares(weights: map<int, uint32>, sides: seq<int>, s: int, c: nat, n: nat)
    requires sides != [] && c + n <= Total(weights, sides)
    ensures Selected(Chooser(weights, sides), s, c, n) == Shares(weights, sides, s, c, n)
    decreases n
  {
    if n > 0 {
      ModSmall(c, Total(weights, sides));
      SelectedIsShares(weights, sides, s, c + 1, n - 1);
    }
  }

  lemma {:induction false} SelectedAppend(f: nat -> int, s: int, c: nat, n: nat)
    ensures Selected(f, s, c, n + 1) == Selected(f, s, c, n) + Hit(f(c + n) == s)
    decreases n
  {
    if n > 0 { SelectedAppend(f, s, c + 1, n - 1); }
  }

  lemma ModAddSelf(c: nat, w: nat)
    requires w > 0
    ensures (c + w) % w == c % w
  {
    var q, r := c / w, c % w;
    assert c == q * w + r;
    assert c + w == (q + 1) * w + r;
    ModOf(q + 1, r, w);
  }

  lemma ModOf(q: nat, r: nat, w: nat)
    requires r < w
    ensures (q * w + r) % w == r
  {
    var x := q * w + r;
    var d, m := x / w - q, x % w;
    assert x == x / w * w + m;
    assert d * w == r - m;
    if d >= 1 { AtLeast(w, d); } else if d <= -1 { AtLeast(w, -d); }
  }

  lemma ModSmall(c: nat, w: nat)
    requires c < w
    ensures c % w == c
  {}

  /** A window of one period selects the same however far it is moved. */
  lemma {:induction false} WindowShift(f: nat -> int, s: int, c: nat, w: nat)
    requires w > 0 && forall k: nat :: f(k + w) == f(k)
    ensures Selected(f, s, c, w) == Selected(f, s, 0, w)
  {
    if c > 0 {
      WindowShift(f, s, c - 1, w);
      SelectedAppend(f, s, c, w - 1);
      assert f(c - 1 + w) == f(c - 1);
    }
  }

  lemma ChooserPeriodic(weights: map<int, uint32>, sides: seq<int>)
    requires sides != []
    ensures forall k: nat :: Chooser(weights, sides)(k + Total(weights, sides)) == Chooser(weights, sides)(k)
  {
    forall k: nat ensures Chooser(weights, sides)(k + Total(weights, sides)) == Chooser(weights, sides)(k) {
      ModAddSelf(k, Total(weights, sides));
    }
  }

  lemma CountCons(x: int, xs: seq<int>, s: int)
    ensures multiset([x] + xs)[s] == Hit(x == s) + multiset(xs)[s]
  {}

  lemma {:induction false} CallsAreSelected(f: nat -> int, s: int, c: nat, n: nat)
    requires c + n <= TWO64
    ensures multiset(Calls(f, c, n))[s] == Selected(f, s, c, n)
    decreases n
  {
    if n > 0 {
      if n > 1 { CallsAreSelected(f, s, c + 1, n - 1); }
      CountCons(f(c), Calls(f, Next(c), n - 1), s);
    }
  }

  /** Weighted routing is exactly fair: over any Total consecutive calls whose counter does not
      wrap, each of a list of distinct sides is chosen exactly max(1, weight) times. */
  lemma WeightedFairness(weights: map<int, uint32>, sides: seq<int>, c: nat, s: int)
    requires sides != [] && Distinct(sides) && c + Total(weights, sides) <= TWO64
    ensures multiset(Calls(Chooser(weights, sides), c, Total(weights, sides)))[s]
            == if s !in sides then 0 else if s in weights && weights[s] > 1 then weights[s] else 1
  {
    var f, w := Chooser(weights, sides), Total(weights, sides);
    ChooserPeriodic(weights, sides);
    CallsAreSelected(f, s, c, w);
    WindowShift(f, s, c, w);
    SelectedIsShares(weights, sides, s, 0, w);
    PeriodShares(weights, sides, s);
  }

  // ---------------------------------------------------------------- fairness across the wrap

  /** Total calls from counter c choose every side exactly max(1, weight) times. */
  ghost predicate Fair(weights: map<int, uint32>, sides: seq<int>, c: nat)
    requires sides != []
  {
    forall s :: multiset(Calls(Chooser(weights, sides), c, Total(weights, sides)))[s]
                == if s in sides then Weight(weights, s) else 0
  }

  lemma CallStep(f: nat -> int, s: int, c: nat, n: nat)
    requires n > 0
    ensures multiset(Calls(f, c, n))[s] == Hit(f(c) == s) + multiset(Calls(f, Next(c), n - 1))[s]
  {
    CountCons(f(c), Calls(f, Next(c), n - 1), s);
  }

  /** Calls that start j before the wrap. */
  lemma {:induction false} CallsAcross(f: nat -> int, s: int, c: nat, j: nat, n: nat)
    requires 1 <= j <= n <= TWO64 && c + j == TWO64
    ensures multiset(Calls(f, c, n))[s] == Selected(f, s, c, j) + Selected(f, s, 0, n - j)
    decreases j
  {
    CallStep(f, s, c, n);
    if j == 1 { CallsAreSelected(f, s, 0, n - 1); } else { CallsAcross(f, s, c + 1, j - 1, n - 1); }
  }

  /** How often s is chosen by w calls that start j before the wrap. */
  ghost function Across(f: nat -> int, s: int, w: nat, j: nat): nat
    requires j <= w <= TWO64
  {
    Selected(f, s, TWO64 - j, j) + Selected(f, s, 0, w - j)
  }

  /** Starting one earlier takes one choice at the end of the counter's range and gives one up at the
      end of the period. */
  lemma AcrossStep(f: nat -> int, s: int, w: nat, j: nat)
    requires 1 <= j <= w <= TWO64
    ensures Across(f, s, w, j) + Hit(f(w - j) == s) == Across(f, s, w, j - 1) + Hit(f(TWO64 - j) == s)
  {
    SelectedAppend(f, s, 0, w - j);
  }

  lemma AcrossNone(weights: map<int, uint32>, sides: seq<int>, s: int)
    requires sides != [] && Distinct(sides) && Total(weights, sides) <= TWO64
    ensures Across(Chooser(weights, sides), s, Total(weights, sides), 0) == if s in sides then Weight(weights, s) else 0
  {
    SelectedIsShares(weights, sides, s, 0, Total(weights, sides));
    PeriodShares(weights, sides, s);
  }

  /** Where the period divides the range, the wrap is invisible. */
  lemma {:induction false} AcrossDivided(weights: map<int, uint32>, sides: seq<int>, s: int, j: nat)
    requires sides != [] && j <= Total(weights, sides) <= TWO64 && TWO64 % Total(weights, sides) == 0
    ensures Across(Chooser(weights, sides), s, Total(weights, sides), j)
            == Across(Chooser(weights, sides), s, Total(weights, sides), 0)
  {
    if j > 0 {
      var f, w := Chooser(weights, sides), Total(weights, sides);
      AcrossDivided(weights, sides, s, j - 1);
      AcrossStep(f, s, w, j);
      BeforeMultiple(TWO64, w, j);
      ModSmall(w - j, w);
    }
  }

  lemma BeforeMultiple(n: nat, w: nat, j: nat)
    requires 1 <= j <= w <= n && n % w == 0
    ensures (n - j) % w == w - j
  {
    var q := n / w;
    assert n == q * w;
    assert q >= 1;
    assert (q - 1) * w == q * w - w;
    ModOf(q - 1, w - j, w);
  }

  lemma BeforeRest(n: nat, w: nat, j: nat)
    requires w > 0 && j <= n % w
    ensures n - j >= 0 && (n - j) % w == n % w - j
  {
    var q, r := n / w, n % w;
    assert n == q * w + r;
    ModOf(q, r - j, w);
  }

  lemma FairAcross(weights: map<int, uint32>, sides: seq<int>, s: int, j: nat)
    requires sides != [] && 1 <= j <= Total(weights, sides) <= TWO64 && s in sides
    requires Fair(weights, sides, TWO64 - j)
    ensures Across(Chooser(weights, sides), s, Total(weights, sides), j) == Weight(weights, s)
  {
    CallsAcross(Chooser(weights, sides), s, TWO64 - j, j, Total(weights, sides));
  }

  lemma UnfairAcross(weights: map<int, uint32>, sides: seq<int>, j: nat)
    requires sides != [] && 1 <= j <= Total(weights, sides) <= TWO64
    requires Across(Chooser(weights, sides), sides[0], Total(weights, sides), j) != Weight(weights, sides[0])
    ensures !Fair(weights, sides, TWO64 - j)
  {
    if Fair(weights, sides, TWO64 - j) { FairAcross(weights, sides, sides[0], j); }
  }

  /** Two positions of the period, as far apart as the range misses a multiple of it, that belong to
      the first side and to another. */
  lemma Boundary(weights: map<int, uint32>, sides: seq<int>, gap: nat) returns (i: nat)
    requires Distinct(sides) && |sides| >= 2 && 1 <= gap < Total(weights, sides)
    ensures i + gap < Total(weights, sides)
    ensures Pick(weights, sides, i) == sides[0] && Pick(weights, sides, i + gap) != sides[0]
  {
    var w0 := Weight(weights, sides[0]);
    DistinctPop(sides);
    assert Total(weights, sides[1..]) >= 1;
    i := if gap <= w0 then w0 - gap else 0;
    assert Pick(weights, sides, i + gap) == Pick(weights, sides[1..], i + gap - w0);
  }

  lemma StartsDiffer(weights: map<int, uint32>, sides: seq<int>) returns (j: nat)
    requires Distinct(sides) && |sides| >= 2 && Total(weights, sides) <= TWO64 && TWO64 % Total(weights, sides) != 0
    ensures 1 <= j <= Total(weights, sides)
    ensures var f, w := Chooser(weights, sides), Total(weights, sides);
            Across(f, sides[0], w, j) == Across(f, sides[0], w, j - 1) + 1
  {
    var f, w := Chooser(weights, sides), Total(weights, sides);
    var r := TWO64 % w;
    var i := Boundary(weights, sides, w - r);
    j := r - i;
    BeforeRest(TWO64, w, j);
    ModSmall(w - j, w);
    AcrossStep(f, sides[0], w, j);
    assert f(TWO64 - j) == Pick(weights, sides, i) && f(w - j) == Pick(weights, sides, i + (w - r));
  }

  /** Where it does not, one of two neighbouring starts just before the wrap is unfair. */
  lemma UnfairStart(weights: map<int, uint32>, sides: seq<int>) returns (c: uint64)
    requires Distinct(sides) && |sides| >= 2 && Total(weights, sides) <= TWO64 && TWO64 % Total(weights, sides) != 0
    ensures !Fair(weights, sides, c)
  {
    var j := StartsDiffer(weights, sides);
    AcrossNone(weights, sides, sides[0]);
    if Across(Chooser(weights, sides), sides[0], Total(weights, sides), j) == Weight(weights, sides[0]) { j := j - 1; }
    UnfairAcross(weights, sides, j);
    c := TWO64 - j;
  }

  lemma {:induction false} OnlySide(weights: map<int, uint32>, sides: seq<int>, c: nat, n: nat, s: int)
    requires |sides| == 1
    ensures multiset(Calls(Chooser(weights, sides), c, n))[s] == if s == sides[0] then n else 0
    decreases n
  {
    if n > 0 {
      var f := Chooser(weights, sides);
      assert f(c) == sides[0];
      CountCons(f(c), Calls(f, Next(c), n - 1), s);
      OnlySide(weights, sides, Next(c), n - 1, s);
    }
  }

  lemma FairFrom(weights: map<int, uint32>, sides: seq<int>, c: uint64, s: int)
    requires sides != [] && Distinct(sides) && Total(weights, sides) <= TWO64
    requires |sides| == 1 || TWO64 % Total(weights, sides) == 0
    ensures multiset(Calls(Chooser(weights, sides), c, Total(weights, sides)))[s]
            == if s in sides then Weight(weights, s) else 0
  {
    if |sides| == 1 {
      FairAlone(weights, sides, c, s);
    } else if c + Total(weights, sides) <= TWO64 {
      WeightedFairness(weights, sides, c, s);
    } else {
      FairOverWrap(weights, sides, TWO64 - c, s);
    }
  }

  lemma FairAlone(weights: map<int, uint32>, sides: seq<int>, c: nat, s: int)
    requires |sides| == 1
    ensures multiset(Calls(Chooser(weights, sides), c, Total(weights, sides)))[s]
            == if s in sides then Weight(weights, s) else 0
  {
    OnlySide(weights, sides, c, Total(weights, sides), s);
    assert sides == [sides[0]] && Total(weights, sides[1..]) == 0;
  }

  lemma FairOverWrap(weights: map<int, uint32>, sides: seq<int>, j: nat, s: int)
    requires sides != [] && Distinct(sides) && 1 <= j <= Total(weights, sides) <= TWO64
    requires TWO64 % Total(weights, sides) == 0
    ensures multiset(Calls(Chooser(weights, sides), TWO64 - j, Total(weights, sides)))[s]
            == if s in sides then Weight(weights, s) else 0
  {
    CallsAcross(Chooser(weights, sides), s, TWO64 - j, j, Total(weights, sides));
    AcrossDivided(weights, sides, s, j);
    AcrossNone(weights, sides, s);
  }

  /** Fair from every value of the 64-bit counter, the wrap included, exactly for one side or a total
      that divides 2^64. */
  lemma FairnessExact(weights: map<int, uint32>, sides: seq<int>)
    requires sides != [] && Distinct(sides) && Total(weights, sides) <= TWO64
    ensures (forall c: uint64 :: Fair(weights, sides, c)) <==> |sides| == 1 || TWO64 % Total(weights, sides) == 0
  {
    if |sides| == 1 || TWO64 % Total(weights, sides) == 0 {
      forall c: uint64 ensures Fair(weights, sides, c) {
        forall s ensures multiset(Calls(Chooser(weights, sides), c, Total(weights, sides)))[s]
                         == if s in sides then Weight(weights, s) else 0
        {
          FairFrom(weights, sides, c, s);
        }
      }
    } else {
      var c := UnfairStart(weights, sides);
    }
  }

  lemma OneMore(out: seq<int>, f: nat -> int, c: nat, n: nat)
    requires n > 0
    ensures out + Calls(f, c, n) == (out + [f(c)]) + Calls(f, Next(c), n - 1)
  {}

  /** One period of calls of apply_policy: each call makes the next choice. */
  method ApplyPeriod(policy: Policy, sides: seq<int>) returns (out: seq<int>)
    requires policy.mode == Weighted && sides != []
    modifies policy`rrCounter
    ensures out == Calls(Chooser(policy.weights, sides), old(policy.rrCounter), Total(policy.weights, sides))
    ensures Distinct(sides) && old(policy.rrCounter) + Total(policy.weights, sides) <= TWO64 ==>
              forall s :: multiset(out)[s] == if s in sides then Weight(policy.weights, s) else 0
  {
    ghost var f, c := Chooser(policy.weights, sides), policy.rrCounter;
    var w := Total(policy.weights, sides);
    out := [];
    for i := 0 to w
      invariant out + Calls(f, policy.rrCounter, w - i) == Calls(f, c, w)
    {
      OneMore(out, f, policy.rrCounter, w - i);
      var chosen := policy.Apply(sides);
      out := out + chosen;
    }
    assert out + [] == out;
    if Distinct(sides) && c + w <= TWO64 {
      forall s ensures multiset(out)[s] == if s in sides then Weight(policy.weights, s) else 0 {
        WeightedFairness(policy.weights, sides, c, s);
      }
    }
  }
}
