/**
 * A JavaScript `Map` as the ordered list of its entries. Iteration follows
 * insertion order; `set` on a key that is already present replaces its value
 * in place and keeps its position, and `set` on a new key appends it.
 */
module OrderedMap {
  import opened Wrappers

  type Entries<K, V> = seq<(K, V)>

  /** A `Map` never holds the same key twice. */
  predicate KeysUnique<K(==, !new), V>(m: Entries<K, V>) {
    forall i, j | 0 <= i < j < |m| :: m[i].0 != m[j].0
  }

  predicate HasKey<K(==, !new), V>(m: Entries<K, V>, k: K) {
    exists i | 0 <= i < |m| :: m[i].0 == k
  }

  /** Position of the first entry under `k`. */
  function IndexOf<K(==, !new), V>(m: Entries<K, V>, k: K): (r: Option<nat>)
    ensures r.Some? ==> r.value < |m| && m[r.value].0 == k
    ensures r.Some? ==> forall i | 0 <= i < r.value :: m[i].0 != k
    ensures r.None? <==> !HasKey(m, k)
  {
    if |m| == 0 then None
    else if m[0].0 == k then Some(0)
    else match IndexOf(m[1..], k)
      case None => None
      case Some(i) => Some(i + 1)
  }

  /** `map.get(k)`, with `undefined` as None. */
  function Get<K(==, !new), V>(m: Entries<K, V>, k: K): (r: Option<V>)
    ensures r.Some? <==> HasKey(m, k)
    ensures KeysUnique(m) ==> forall i | 0 <= i < |m| && m[i].0 == k :: r == Some(m[i].1)
  {
    match IndexOf(m, k)
    case None => None
    case Some(i) => Some(m[i].1)
  }

  /** `map.set(k, v)` */
  function Set<K(==, !new), V>(m: Entries<K, V>, k: K, v: V): (r: Entries<K, V>)
    ensures Get(r, k) == Some(v)
    ensures forall k' | k' != k :: Get(r, k') == Get(m, k')
    ensures KeysUnique(m) ==> KeysUnique(r)
    ensures |m| <= |r| <= |m| + 1
    ensures forall i | 0 <= i < |m| :: r[i].0 == m[i].0
    ensures HasKey(m, k) ==> |r| == |m|
    ensures !HasKey(m, k) ==> r == m + [(k, v)]
  {
    match IndexOf(m, k)
    case None =>
      assert forall k' :: IndexOf(m + [(k, v)], k') == IndexOfAppended(m, k, v, k') by {
        forall k'
          ensures IndexOf(m + [(k, v)], k') == IndexOfAppended(m, k, v, k')
        {
          IndexOfAppend(m, k, v, k');
        }
      }
      m + [(k, v)]
    case Some(i) =>
      var r := m[i := (k, v)];
      assert r[i].0 == k && forall j | 0 <= j < i :: r[j].0 != k;
      assert IndexOf(r, k) == Some(i);
      assert forall k' | k' != k :: IndexOf(r, k') == IndexOf(m, k') by {
        forall k' | k' != k
          ensures IndexOf(r, k') == IndexOf(m, k')
        {
          IndexOfUpdate(m, i, k, v, k');
        }
      }
      r
  }

  lemma {:induction false} IndexOfUpdate<K(!new), V>(m: Entries<K, V>, i: nat, k: K, v: V, k': K)
    requires i < |m| && m[i].0 == k && k' != k
    ensures IndexOf(m[i := (k, v)], k') == IndexOf(m, k')
    decreases |m|
  {
    if i > 0 && m[0].0 != k' {
      assert m[i := (k, v)][1..] == m[1..][i - 1 := (k, v)];
      IndexOfUpdate(m[1..], i - 1, k, v, k');
    }
  }

  /** Where `k'` is found once `(k, v)` has been appended to `m`. */
  function IndexOfAppended<K(==, !new), V>(m: Entries<K, V>, k: K, v: V, k': K): Option<nat> {
    if HasKey(m, k') then IndexOf(m, k') else if k' == k then Some(|m|) else None
  }

  lemma {:induction false} IndexOfAppend<K(!new), V>(m: Entries<K, V>, k: K, v: V, k': K)
    ensures IndexOf(m + [(k, v)], k') == IndexOfAppended(m, k, v, k')
    decreases |m|
  {
    if |m| > 0 && m[0].0 != k' {
      assert (m + [(k, v)])[1..] == m[1..] + [(k, v)];
      IndexOfAppend(m[1..], k, v, k');
      assert HasKey(m, k') <==> HasKey(m[1..], k') by {
        if HasKey(m, k') {
          var i :| 0 <= i < |m| && m[i].0 == k';
          assert m[1..][i - 1].0 == k';
        }
        if HasKey(m[1..], k') {
          var i :| 0 <= i < |m[1..]| && m[1..][i].0 == k';
          assert m[i + 1].0 == k';
        }
      }
    }
  }

  /** Performs the writes `ws` on `m`, first to last. */
  function SetAll<K(==, !new), V>(m: Entries<K, V>, ws: seq<(K, V)>): (r: Entries<K, V>)
    ensures KeysUnique(m) ==> KeysUnique(r)
  {
    if |ws| == 0 then m
    else var last := ws[|ws| - 1]; Set(SetAll(m, ws[..|ws| - 1]), last.0, last.1)
  }

  /** The value of the last write under `k` in `ws`, if any. */
  function LastWrite<K(==, !new), V>(ws: seq<(K, V)>, k: K): (r: Option<V>)
    ensures r.None? <==> forall i | 0 <= i < |ws| :: ws[i].0 != k
    ensures r.Some? ==> exists i | 0 <= i < |ws| :: ws[i] == (k, r.value)
                          && forall j | i < j < |ws| :: ws[j].0 != k
  {
    if |ws| == 0 then None
    else if ws[|ws| - 1].0 == k then Some(ws[|ws| - 1].1)
    else
      var r := LastWrite(ws[..|ws| - 1], k);
      assert r.None? ==> forall i | 0 <= i < |ws| :: ws[i].0 != k by {
        assert forall i | 0 <= i < |ws| - 1 :: ws[i] == ws[..|ws| - 1][i];
      }
      assert r.Some? ==> exists i | 0 <= i < |ws| :: ws[i] == (k, r.value)
                           && forall j | i < j < |ws| :: ws[j].0 != k by {
        if r.Some? {
          var front := ws[..|ws| - 1];
          var i :| 0 <= i < |front| && front[i] == (k, r.value) && forall j | i < j < |front| :: front[j].0 != k;
          LastWriteOfFront(ws, front, k, i);
        }
      }
      r
  }

  lemma LastWriteOfFront<K(!new), V>(ws: seq<(K, V)>, front: seq<(K, V)>, k: K, i: nat)
    requires |ws| > 0 && ws[|ws| - 1].0 != k && front == ws[..|ws| - 1]
    requires i < |front| && front[i].0 == k && forall j | i < j < |front| :: front[j].0 != k
    ensures ws[i] == front[i] && forall j | i < j < |ws| :: ws[j].0 != k
  {
    forall j | i < j < |ws| ensures ws[j].0 != k {
      if j < |ws| - 1 { assert ws[j] == front[j]; }
    }
  }

  /** Last write wins: after the writes, a key holds the value of its last write, or its old value if it was never written. */
  lemma {:induction false} SetAllGet<K(!new), V>(m: Entries<K, V>, ws: seq<(K, V)>, k: K)
    ensures Get(SetAll(m, ws), k) == (if LastWrite(ws, k).Some? then LastWrite(ws, k) else Get(m, k))
  {
    if |ws| > 0 {
      SetAllGet(m, ws[..|ws| - 1], k);
    }
  }

  /** Entries already in `m` keep their keys and positions, whatever is written. */
  lemma {:induction false} SetAllKeepsOrder<K(!new), V>(m: Entries<K, V>, ws: seq<(K, V)>)
    ensures |m| <= |SetAll(m, ws)|
    ensures forall i | 0 <= i < |m| :: SetAll(m, ws)[i].0 == m[i].0
  {
    if |ws| > 0 {
      SetAllKeepsOrder(m, ws[..|ws| - 1]);
    }
  }

  /** The keys of a map built from nothing are exactly the keys that were written. */
  lemma {:induction false} SetAllKeys<K(!new), V>(ws: seq<(K, V)>, k: K)
    ensures HasKey(SetAll([], ws), k) <==> exists i | 0 <= i < |ws| :: ws[i].0 == k
  {
    SetAllGet([], ws, k);
  }

  /** Every entry of a map built from nothing is one of the writes. */
  lemma {:induction false} SetAllEntriesWritten<K(!new), V>(ws: seq<(K, V)>)
    ensures forall i | 0 <= i < |SetAll([], ws)| :: SetAll([], ws)[i] in ws
  {
    if |ws| > 0 {
      var init := ws[..|ws| - 1];
      SetAllEntriesWritten(init);
      var prev := SetAll([], init);
      var r := SetAll([], ws);
      forall i | 0 <= i < |r|
        ensures r[i] in ws
      {
        if r[i] != ws[|ws| - 1] {
          SetEntryFrom(prev, ws[|ws| - 1].0, ws[|ws| - 1].1, i);
          assert r[i] in prev;
          assert prev[i] in init;
        }
      }
    }
  }

  /** An entry of `Set(m, k, v)` is either `(k, v)` or the entry of `m` at the same position. */
  lemma SetEntryFrom<K(!new), V>(m: Entries<K, V>, k: K, v: V, i: nat)
    requires i < |Set(m, k, v)|
    ensures Set(m, k, v)[i] == (k, v) || (i < |m| && Set(m, k, v)[i] == m[i])
  {
  }

  /** When no key is written twice, building from nothing keeps every write, in order. */
  lemma {:induction false} SetAllDistinct<K(!new), V>(ws: seq<(K, V)>)
    requires KeysUnique(ws)
    ensures SetAll([], ws) == ws
  {
    if |ws| > 0 {
      var init := ws[..|ws| - 1];
      SetAllDistinct(init);
      assert !HasKey(init, ws[|ws| - 1].0);
      assert init + [ws[|ws| - 1]] == ws;
    }
  }
}
