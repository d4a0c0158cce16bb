/**
 * A JavaScript `Map` as an insertion-ordered list of key/value entries.
 * `set` on a present key overwrites its value where it stands, on an absent key
 * appends; `delete` takes the entry out; iteration follows the list.
 */
module JsMap {
  import opened Wrappers

  /** No key occurs twice: every map built by Set and Remove keeps this. */
  ghost predicate DistinctKeys<K, V>(m: seq<(K, V)>) {
    forall i, j :: 0 <= i < j < |m| ==> m[i].0 != m[j].0
  }

  /** The keys of the map, as a set. */
  ghost function KeySet<K, V>(m: seq<(K, V)>): set<K> {
    set i | 0 <= i < |m| :: m[i].0
  }

  /** Position of the first entry with key `k`, or `|m|` when there is none. */
  function IndexOf<K(==), V>(m: seq<(K, V)>, k: K): (i: nat)
    ensures i <= |m|
    ensures i < |m| ==> m[i].0 == k
    ensures forall j :: 0 <= j < i ==> m[j].0 != k
  {
    if m == [] then 0
    else if m[0].0 == k then 0
    else 1 + IndexOf(m[1..], k)
  }

  /** `map.get(k)`. */
  function Get<K(==), V>(m: seq<(K, V)>, k: K): (r: Option<V>)
    ensures r.Some? <==> k in KeySet(m)
    ensures r.Some? ==> (k, r.value) in m
  {
    var i := IndexOf(m, k);
    if i < |m| then Some(m[i].1) else None
  }

  /**
   * `map.set(k, v)`. The pair is stored; the map grows by at most one entry, and
   * every entry under another key keeps its place.
   */
  function Set<K(==), V>(m: seq<(K, V)>, k: K, v: V): (r: seq<(K, V)>)
    ensures (k, v) in r
    ensures |m| <= |r| <= |m| + 1
    ensures forall i :: 0 <= i < |m| && m[i].0 != k ==> r[i] == m[i]
  {
    var i := IndexOf(m, k);
    var r := if i < |m| then m[i := (k, v)] else m + [(k, v)];
    assert r[if i < |m| then i else |m|] == (k, v);
    r
  }

  /**
   * `map.delete(k)`. The map shrinks by at most one entry, every remaining entry
   * was there before, and the entries under other keys keep their order.
   */
  function Remove<K(==), V>(m: seq<(K, V)>, k: K): (r: seq<(K, V)>)
    ensures |r| == if IndexOf(m, k) < |m| then |m| - 1 else |m|
    ensures forall e :: e in r ==> e in m
    ensures forall i :: 0 <= i < IndexOf(m, k) ==> r[i] == m[i]
    ensures forall i :: IndexOf(m, k) < i < |m| ==> r[i - 1] == m[i]
  {
    var i := IndexOf(m, k);
    if i < |m| then m[..i] + m[i + 1..] else m
  }

  /** `Array.from(map.values())`: one value per entry, in entry order. */
  function Values<K, V>(m: seq<(K, V)>): (r: seq<V>)
    ensures |r| == |m|
    ensures forall e :: e in m ==> e.1 in r
    ensures forall x :: x in r ==> exists e :: e in m && e.1 == x
  {
    var r := seq(|m|, i requires 0 <= i < |m| => m[i].1);
    assert forall i :: 0 <= i < |m| ==> r[i] == m[i].1;
    r
  }

  /** In a map without duplicate keys, every entry is what `get` finds for its key. */
  lemma GetAt<K, V>(m: seq<(K, V)>, i: nat)
    requires DistinctKeys(m) && i < |m|
    ensures Get(m, m[i].0) == Some(m[i].1)
  {
    assert IndexOf(m, m[i].0) == i;
  }

  /** Two maps whose keys agree position by position find every key at the same place. */
  lemma {:induction false} IndexOfSameKeys<K, V>(m: seq<(K, V)>, n: seq<(K, V)>, k: K)
    requires |m| == |n|
    requires forall j :: 0 <= j < |m| ==> m[j].0 == n[j].0
    ensures IndexOf(m, k) == IndexOf(n, k)
  {
    if m != [] && m[0].0 != k {
      IndexOfSameKeys(m[1..], n[1..], k);
    }
  }

  /** Appending an entry does not move any key found before it. */
  lemma {:induction false} IndexOfAppend<K, V>(m: seq<(K, V)>, e: (K, V), k: K)
    ensures IndexOf(m + [e], k) == if IndexOf(m, k) < |m| || e.0 == k then IndexOf(m, k) else |m| + 1
  {
    if m != [] {
      assert (m + [e])[1..] == m[1..] + [e];
      if m[0].0 != k {
        IndexOfAppend(m[1..], e, k);
      }
    }
  }

  /** After `set(k, v)` the map yields `v` for `k` and what it yielded before for every other key. */
  lemma GetSet<K, V>(m: seq<(K, V)>, k: K, v: V, k': K)
    ensures Get(Set(m, k, v), k') == if k' == k then Some(v) else Get(m, k')
  {
    var i := IndexOf(m, k);
    if i < |m| {
      IndexOfSameKeys(m, Set(m, k, v), k');
    } else {
      IndexOfAppend(m, (k, v), k');
    }
  }

  /**
   * `set` grows the map by one entry exactly when the key was absent, and then at the
   * end (insertion order); it keeps keys distinct.
   */
  lemma SetShape<K, V>(m: seq<(K, V)>, k: K, v: V)
    ensures |Set(m, k, v)| == if Get(m, k).Some? then |m| else |m| + 1
    ensures Get(m, k).None? ==> Set(m, k, v) == m + [(k, v)]
    ensures KeySet(Set(m, k, v)) == KeySet(m) + {k}
    ensures DistinctKeys(m) ==> DistinctKeys(Set(m, k, v))
  {
    var r := Set(m, k, v);
    var i := IndexOf(m, k);
    if i < |m| {
      forall x | x in KeySet(r) ensures x in KeySet(m) + {k} {
        var j :| 0 <= j < |r| && r[j].0 == x;
        assert m[j].0 == x;
      }
      forall x | x in KeySet(m) + {k} ensures x in KeySet(r) {
        if x != k {
          var j :| 0 <= j < |m| && m[j].0 == x;
          assert r[j].0 == x;
        } else {
          assert r[i].0 == k;
        }
      }
    } else {
      forall x | x in KeySet(r) ensures x in KeySet(m) + {k} {
        var j :| 0 <= j < |r| && r[j].0 == x;
        if j < |m| { assert m[j].0 == x; }
      }
      forall x | x in KeySet(m) + {k} ensures x in KeySet(r) {
        if x != k {
          var j :| 0 <= j < |m| && m[j].0 == x;
          assert r[j].0 == x;
        } else {
          assert r[|m|].0 == k;
        }
      }
    }
  }

  /** After `delete(k)` of a map without duplicate keys, `k` is gone and every other key is untouched. */
  lemma GetRemove<K, V>(m: seq<(K, V)>, k: K, k': K)
    requires DistinctKeys(m)
    ensures Get(Remove(m, k), k') == if k' == k then None else Get(m, k')
  {
    var i := IndexOf(m, k);
    var r := Remove(m, k);
    if i < |m| {
      assert forall j :: 0 <= j < |r| ==> r[j] == if j < i then m[j] else m[j + 1];
      if k' == k {
        assert k' !in KeySet(r);
      } else {
        var p := IndexOf(m, k');
        if p < |m| {
          var q := if p < i then p else p - 1;
          assert r[q] == m[p];
          assert IndexOf(r, k') == q;
        } else {
          assert k' !in KeySet(r);
        }
      }
    }
  }

  /** `delete` shrinks the map by one entry exactly when the key was present, and keeps keys distinct. */
  lemma RemoveShape<K, V>(m: seq<(K, V)>, k: K)
    requires DistinctKeys(m)
    ensures |Remove(m, k)| == if Get(m, k).Some? then |m| - 1 else |m|
    ensures KeySet(Remove(m, k)) == KeySet(m) - {k}
    ensures DistinctKeys(Remove(m, k))
  {
    var r := Remove(m, k);
    var i := IndexOf(m, k);
    if i < |m| {
      assert forall j :: 0 <= j < |r| ==> r[j] == if j < i then m[j] else m[j + 1];
      forall x | x in KeySet(r) ensures x in KeySet(m) - {k} {
        var j :| 0 <= j < |r| && r[j].0 == x;
      }
      forall x | x in KeySet(m) - {k} ensures x in KeySet(r) {
        var j :| 0 <= j < |m| && m[j].0 == x;
        assert j != i;
        if j < i { assert r[j].0 == x; } else { assert r[j - 1].0 == x; }
      }
    }
  }

  /** The entries after `set(k, v)`: the new one, and every old one under another key. */
  lemma SetEntries<K, V>(m: seq<(K, V)>, k: K, v: V)
    requires DistinctKeys(m)
    ensures forall e :: e in Set(m, k, v) <==> e == (k, v) || (e in m && e.0 != k)
  {
    var r := Set(m, k, v);
    var i := IndexOf(m, k);
    forall e | e in m && e.0 != k ensures e in r {
      var j :| 0 <= j < |m| && m[j] == e;
      assert r[j] == e;
    }
    if i < |m| { assert r[i] == (k, v); } else { assert r[|m|] == (k, v); }
    forall e | e in r && e != (k, v) ensures e in m && e.0 != k {
      var j :| 0 <= j < |r| && r[j] == e;
      assert j < |m| && m[j] == e;
    }
  }

  /** The entries after `delete(k)`: every old one under another key. */
  lemma RemoveEntries<K, V>(m: seq<(K, V)>, k: K)
    requires DistinctKeys(m)
    ensures forall e :: e in Remove(m, k) <==> e in m && e.0 != k
  {
    var r := Remove(m, k);
    var i := IndexOf(m, k);
    if i < |m| {
      assert forall j :: 0 <= j < |r| ==> r[j] == if j < i then m[j] else m[j + 1];
      forall e | e in m && e.0 != k ensures e in r {
        var j :| 0 <= j < |m| && m[j] == e;
        if j < i { assert r[j] == e; } else { assert r[j - 1] == e; }
      }
    }
  }

  /** The keys of a non-empty map are its first key and the keys of the rest. */
  lemma KeySetCons<K, V>(m: seq<(K, V)>)
    requires m != []
    ensures KeySet(m) == {m[0].0} + KeySet(m[1..])
  {
    forall x | x in KeySet(m) ensures x in {m[0].0} + KeySet(m[1..]) {
      var j :| 0 <= j < |m| && m[j].0 == x;
      if j > 0 { assert m[1..][j - 1].0 == x; }
    }
    forall x | x in KeySet(m[1..]) ensures x in KeySet(m) {
      var j :| 0 <= j < |m[1..]| && m[1..][j].0 == x;
      assert m[j + 1].0 == x;
    }
  }

  /** With distinct keys there are exactly as many keys as entries. */
  lemma {:induction false} KeyCount<K, V>(m: seq<(K, V)>)
    requires DistinctKeys(m)
    ensures |KeySet(m)| == |m|
  {
    if m != [] {
      assert DistinctKeys(m[1..]);
      KeyCount(m[1..]);
      KeySetCons(m);
      assert m[0].0 !in KeySet(m[1..]);
    }
  }
}
