/** `sort` followed by `unique`, for values ordered by a key, and why its result is canonical. */
module Sorting {
  import opened Bytes

  ghost predicate StrictOrder<K(!new)>(lt: (K, K) -> bool) {
    && (forall a :: !lt(a, a))
    && (forall a, b :: a == b || lt(a, b) || lt(b, a))
    && (forall a, b, c :: lt(a, b) && lt(b, c) ==> lt(a, c))
  }

  ghost predicate Sorted<T, K>(s: seq<T>, key: T -> K, lt: (K, K) -> bool) {
    s != [] ==> (forall y :: y in s[1..] ==> lt(key(s[0]), key(y))) && Sorted(s[1..], key, lt)
  }

  /** Inserts x, replacing an element with the same key. */
  function Insert<T, K>(x: T, s: seq<T>, key: T -> K, lt: (K, K) -> bool): seq<T> {
    if s == [] || lt(key(x), key(s[0])) then [x] + s
    else if lt(key(s[0]), key(x)) then [s[0]] + Insert(x, s[1..], key, lt)
    else [x] + s[1..]
  }

  /** Sorts by key and keeps the first of the elements sharing one. */
  function SortUnique<T, K>(s: seq<T>, key: T -> K, lt: (K, K) -> bool): seq<T> {
    if s == [] then [] else Insert(s[0], SortUnique(s[1..], key, lt), key, lt)
  }

  ghost predicate DistinctKeys<T, K>(s: seq<T>, key: T -> K) {
    forall i, j :: 0 <= i < j < |s| ==> key(s[i]) != key(s[j])
  }

  lemma {:induction false} InsertSorted<T(!new), K(!new)>(x: T, s: seq<T>, key: T -> K, lt: (K, K) -> bool)
    requires StrictOrder(lt) && Sorted(s, key, lt)
    ensures Sorted(Insert(x, s, key, lt), key, lt)
    ensures forall y :: y in Insert(x, s, key, lt) <==> y == x || (y in s && key(y) != key(x))
  {
    if s != [] {
      var head, tail := s[0], s[1..];
      assert s == [head] + tail;
      if lt(key(x), key(head)) {
        assert ([x] + s)[1..] == s;
        assert forall y :: y in s ==> lt(key(x), key(y));
      } else if lt(key(head), key(x)) {
        InsertSorted(x, tail, key, lt);
        var r := Insert(x, tail, key, lt);
        assert ([head] + r)[1..] == r;
      } else {
        assert ([x] + tail)[1..] == tail;
        assert forall y :: y in tail ==> lt(key(x), key(y));
      }
    } else {
      assert ([x] + s)[1..] == [];
    }
  }

  /** The result is strictly sorted, takes its elements from s and loses no key. */
  lemma {:induction false} SortUniqueSpec<T(!new), K(!new)>(s: seq<T>, key: T -> K, lt: (K, K) -> bool)
    requires StrictOrder(lt)
    ensures Sorted(SortUnique(s, key, lt), key, lt)
    ensures forall y :: y in SortUnique(s, key, lt) ==> y in s
    ensures forall y :: y in s ==> HasKey(SortUnique(s, key, lt), key, key(y))
  {
    if s != [] {
      var x, tail := s[0], s[1..];
      var rest := SortUnique(tail, key, lt);
      assert s == [x] + tail;
      SortUniqueSpec(tail, key, lt);
      InsertSorted(x, rest, key, lt);
      forall y | y in Insert(x, rest, key, lt) ensures y in s { assert y == x || y in rest; }
      forall y | y in s ensures HasKey(Insert(x, rest, key, lt), key, key(y)) {
        InsertKeys(x, rest, key, lt, key(y));
      }
    }
  }

  ghost predicate HasKey<T, K>(s: seq<T>, key: T -> K, k: K) {
    exists z :: z in s && key(z) == k
  }

  lemma InsertKeys<T(!new), K(!new)>(x: T, s: seq<T>, key: T -> K, lt: (K, K) -> bool, k: K)
    requires StrictOrder(lt) && Sorted(s, key, lt)
    ensures k == key(x) || HasKey(s, key, k) ==> HasKey(Insert(x, s, key, lt), key, k)
  {}

  /** A strictly sorted list is determined by its elements. */
  lemma {:induction false} Canonical<T(!new), K(!new)>(a: seq<T>, b: seq<T>, key: T -> K, lt: (K, K) -> bool)
    requires StrictOrder(lt) && Sorted(a, key, lt) && Sorted(b, key, lt)
    requires forall y :: y in a <==> y in b
    ensures a == b
  {
    assert a != [] ==> a[0] in a;
    assert b != [] ==> b[0] in b;
    if a != [] {
      assert a == [a[0]] + a[1..] && b == [b[0]] + b[1..];
      assert a[0] == b[0];
      assert a[0] !in a[1..] && b[0] !in b[1..];
      forall y ensures y in a[1..] <==> y in b[1..] {
        assert y in a[1..] <==> y in a && y != a[0];
        assert y in b[1..] <==> y in b && y != b[0];
      }
      Canonical(a[1..], b[1..], key, lt);
    }
  }

  lemma {:induction false} SortedDistinct<T(!new), K(!new)>(s: seq<T>, key: T -> K, lt: (K, K) -> bool)
    requires StrictOrder(lt) && Sorted(s, key, lt)
    ensures DistinctKeys(s, key)
  {
    if s != [] {
      SortedDistinct(s[1..], key, lt);
      forall i, j | 0 <= i < j < |s| ensures key(s[i]) != key(s[j]) {
        if i == 0 {
          assert s[1..][j - 1] in s[1..];
        } else {
          assert key(s[1..][i - 1]) != key(s[1..][j - 1]);
        }
      }
    }
  }

  // ---------------------------------------------------------------- the two orders in use

  function Lt(a: int, b: int): bool { a < b }

  function Same<T>(x: T): T { x }

  /** std::string order: bytewise, a proper prefix first. */
  function LexLt(a: bytestring, b: bytestring): bool {
    if b == [] then false
    else if a == [] then true
    else a[0] < b[0] || (a[0] == b[0] && LexLt(a[1..], b[1..]))
  }

  lemma LexOrder()
    ensures StrictOrder(LexLt)
  {
    forall a ensures !LexLt(a, a) { LexIrreflexive(a); }
    forall a, b ensures a == b || LexLt(a, b) || LexLt(b, a) { LexTotal(a, b); }
    forall a, b, c ensures LexLt(a, b) && LexLt(b, c) ==> LexLt(a, c) {
      if LexLt(a, b) && LexLt(b, c) { LexTransitive(a, b, c); }
    }
  }

  lemma {:induction false} LexIrreflexive(a: bytestring)
    ensures !LexLt(a, a)
  {
    if a != [] { LexIrreflexive(a[1..]); }
  }

  lemma {:induction false} LexTotal(a: bytestring, b: bytestring)
    ensures a == b || LexLt(a, b) || LexLt(b, a)
  {
    if a != [] && b != [] && a[0] == b[0] {
      assert a == [a[0]] + a[1..] && b == [b[0]] + b[1..];
      LexTotal(a[1..], b[1..]);
    }
  }

  lemma {:induction false} LexTransitive(a: bytestring, b: bytestring, c: bytestring)
    requires LexLt(a, b) && LexLt(b, c)
    ensures LexLt(a, c)
  {
    if a != [] && a[0] == b[0] == c[0] { LexTransitive(a[1..], b[1..], c[1..]); }
  }

  /** sort_dedup_strings */
  function SortStrings(s: seq<bytestring>): seq<bytestring> { SortUnique(s, Same, LexLt) }

  /** sort and unique on integers */
  function SortInts(s: seq<int>): seq<int> { SortUnique(s, Same, Lt) }

  ghost predicate SortedInts(s: seq<int>) { Sorted(s, Same, Lt) }

  ghost predicate SortedStrings(s: seq<bytestring>) { Sorted(s, Same, LexLt) }

  lemma SortStringsSpec(s: seq<bytestring>)
    ensures SortedStrings(SortStrings(s))
    ensures forall y :: y in SortStrings(s) <==> y in s
  {
    LexOrder();
    SortUniqueSpec(s, Same, LexLt);
    forall y | y in s ensures y in SortStrings(s) { assert HasKey(SortStrings(s), Same, Same(y)); }
  }

  lemma SortIntsSpec(s: seq<int>)
    ensures SortedInts(SortInts(s))
    ensures forall y :: y in SortInts(s) <==> y in s
  {
    SortUniqueSpec(s, Same, Lt);
    forall y | y in s ensures y in SortInts(s) { assert HasKey(SortInts(s), Same, Same(y)); }
  }

  lemma CanonicalInts(a: seq<int>, b: seq<int>)
    requires SortedInts(a) && SortedInts(b) && forall y :: y in a <==> y in b
    ensures a == b
  {
    forall y | y in a ensures y in b {}
    forall y | y in b ensures y in a {}
    Canonical(a, b, Same, Lt);
  }

  lemma CanonicalStrings(a: seq<bytestring>, b: seq<bytestring>)
    requires SortedStrings(a) && SortedStrings(b) && forall y :: y in a <==> y in b
    ensures a == b
  {
    LexOrder();
    Canonical(a, b, Same, LexLt);
  }

  /** No element twice. */
  ghost predicate Distinct<T>(s: seq<T>) { forall i, j :: 0 <= i < j < |s| ==> s[i] != s[j] }

  lemma DistinctPop(s: seq<int>)
    requires Distinct(s) && s != []
    ensures Distinct(s[1..]) && s[0] !in s[1..]
    ensures forall x :: x in s[1..] <==> x in s && x != s[0]
  {
    var tail := s[1..];
    assert s == [s[0]] + tail;
    forall i, j | 0 <= i < j < |tail| ensures tail[i] != tail[j] { assert s[i + 1] != s[j + 1]; }
    forall k | 0 <= k < |tail| ensures tail[k] != s[0] { assert s[0] != s[k + 1]; }
  }

  lemma SortedIntsDistinct(s: seq<int>)
    requires SortedInts(s)
    ensures Distinct(s)
  {
    SortedDistinct(s, Same, Lt);
    forall i, j | 0 <= i < j < |s| ensures s[i] != s[j] { assert Same(s[i]) != Same(s[j]); }
  }

  /** A list of distinct numbers keeps its length when sorted. */
  lemma SortIntsLength(s: seq<int>)
    requires Distinct(s)
    ensures |SortInts(s)| == |s|
  {
    SortIntsSpec(s);
    SortedIntsDistinct(SortInts(s));
    ElementCount(SortInts(s));
    ElementCount(s);
    forall x | x in Elems(SortInts(s)) ensures x in Elems(s) {}
    forall x | x in Elems(s) ensures x in Elems(SortInts(s)) {}
    assert Elems(SortInts(s)) == Elems(s);
  }

  ghost function Elems(s: seq<int>): set<int> { set x | x in s }

  lemma {:induction false} ElementCount(a: seq<int>)
    requires Distinct(a)
    ensures |Elems(a)| == |a|
  {
    if a != [] {
      DistinctPop(a);
      ElementCount(a[1..]);
      assert a == [a[0]] + a[1..];
      assert Elems(a) == {a[0]} + Elems(a[1..]);
      assert a[0] !in Elems(a[1..]);
    }
  }

  /** Removing elements keeps a list sorted. */
  function Filter<T(!new)>(s: seq<T>, keep: T -> bool): (r: seq<T>)
    ensures forall y :: y in r <==> y in s && keep(y)
  {
    if s == [] then [] else (if keep(s[0]) then [s[0]] else []) + Filter(s[1..], keep)
  }

  lemma {:induction false} FilterSorted<T(!new), K>(s: seq<T>, keep: T -> bool, key: T -> K, lt: (K, K) -> bool)
    requires Sorted(s, key, lt)
    ensures Sorted(Filter(s, keep), key, lt)
  {
    if s != [] {
      FilterSorted(s[1..], keep, key, lt);
      var rest := Filter(s[1..], keep);
      assert ([s[0]] + rest)[1..] == rest && [] + rest == rest;
    }
  }

  lemma {:induction false} FilterSnoc<T(!new)>(xs: seq<T>, keep: T -> bool, x: T)
    ensures Filter(xs + [x], keep) == Filter(xs, keep) + if keep(x) then [x] else []
  {
    if xs == [] {
      assert Filter([x], keep) == (if keep(x) then [x] else []) + Filter([], keep);
    } else {
      FilterSnoc(xs[1..], keep, x);
      assert (xs + [x])[1..] == xs[1..] + [x] && (xs + [x])[0] == xs[0];
      var one := if keep(xs[0]) then [xs[0]] else [];
      var last := if keep(x) then [x] else [];
      var mid := Filter(xs[1..], keep);
      assert one + (mid + last) == (one + mid) + last;
    }
  }
}
