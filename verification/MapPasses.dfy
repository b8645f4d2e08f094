/** Passes over a hash map in an arbitrary order: each entry is rewritten, then erased unless it is
    worth keeping. */
module MapPasses {

  ghost function Rewritten<K, V>(m: map<K, V>, f: V -> V, keep: V -> bool): map<K, V> {
    map k | k in m && keep(f(m[k])) :: f(m[k])
  }

  /** The map while the entries in todo are still to be visited. */
  ghost function Partly<K, V>(m: map<K, V>, todo: set<K>, f: V -> V, keep: V -> bool): map<K, V> {
    map k | k in m && (k in todo || keep(f(m[k]))) :: if k in todo then m[k] else f(m[k])
  }

  lemma PartlyStart<K, V>(m: map<K, V>, f: V -> V, keep: V -> bool)
    ensures Partly(m, m.Keys, f, keep) == m
  {}

  lemma PartlyEnd<K, V>(m: map<K, V>, f: V -> V, keep: V -> bool)
    ensures Partly(m, {}, f, keep) == Rewritten(m, f, keep)
  {}

  /** Visiting one more entry, whichever it is. */
  lemma PartlyStep<K, V>(m: map<K, V>, todo: set<K>, k: K, f: V -> V, keep: V -> bool)
    requires todo <= m.Keys && k in todo
    ensures var p := Partly(m, todo, f, keep);
            k in p && p[k] == m[k] &&
            Partly(m, todo - {k}, f, keep) == if keep(f(m[k])) then p[k := f(m[k])] else p - {k}
  {}

  lemma RewrittenIdle<K, V>(m: map<K, V>, f: V -> V, keep: V -> bool)
    requires forall k :: k in m ==> f(m[k]) == m[k] && keep(m[k])
    ensures Rewritten(m, f, keep) == m
  {}

  lemma SomeElement(s: set<int>)
    ensures s == {} || exists x :: x in s
  {
    if forall x :: x !in s { assert s == {}; }
  }
}
