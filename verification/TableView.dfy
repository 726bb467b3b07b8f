/** Database tables as views of a map: one row for every shown entry, under a key of its own. */
module TableView {

  ghost predicate IsView<Q(!new), I(!new), K(!new), V(!new)>(
    t: map<K, V>, rows: map<Q, I>, key: (Q, I) -> K, row: (Q, I) -> V, shown: I -> bool)
  {
    && (forall q :: q in rows && shown(rows[q]) ==> key(q, rows[q]) in t && t[key(q, rows[q])] == row(q, rows[q]))
    && (forall k :: k in t ==> IsKey(k, rows, key, shown))
  }

  ghost predicate IsKey<Q(!new), I(!new), K(!new)>(k: K, rows: map<Q, I>, key: (Q, I) -> K, shown: I -> bool) {
    exists q :: q in rows && shown(rows[q]) && k == key(q, rows[q])
  }

  /** No other entry has the key of `q`. */
  ghost predicate OwnKey<Q(!new), I(!new), K(!new)>(rows: map<Q, I>, key: (Q, I) -> K, q: Q, i: I) {
    && (forall p :: p in rows && p != q ==> key(p, rows[p]) != key(q, i))
    && (q in rows ==> key(q, rows[q]) == key(q, i))
  }

  /** What writing one entry does to the table. */
  function Write<Q(!new), I(!new), K(!new), V(!new)>(
    t: map<K, V>, key: (Q, I) -> K, row: (Q, I) -> V, shown: I -> bool, q: Q, i: I): map<K, V>
  {
    if shown(i) then t[key(q, i) := row(q, i)] else t - {key(q, i)}
  }

  /** Writing an entry under its own key keeps the table a view. */
  lemma WriteKeepsView<Q(!new), I(!new), K(!new), V(!new)>(
    t: map<K, V>, rows: map<Q, I>, key: (Q, I) -> K, row: (Q, I) -> V, shown: I -> bool, q: Q, i: I)
    requires IsView(t, rows, key, row, shown) && OwnKey(rows, key, q, i)
    ensures IsView(Write(t, key, row, shown, q, i), rows[q := i], key, row, shown)
  {
    var rows' := rows[q := i];
    forall k | k in Write(t, key, row, shown, q, i)
      ensures IsKey(k, rows', key, shown)
    {
      if k == key(q, i) {
        assert q in rows';
      } else {
        var p :| p in rows && shown(rows[p]) && k == key(p, rows[p]);
        assert p in rows';
      }
    }
  }

}
