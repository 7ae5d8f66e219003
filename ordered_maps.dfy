/**
  The insertion-ordered map (`LinkedHashMap`) that every map of the converter is.
  A map is a sequence of entries; `Insert` on a key that is already present
  replaces its value and moves the entry to the back, as the linked_hash_map
  crate's `insert` does.
*/
module OrderedMaps {
  import opened Results

  type OrderedMap<K, V> = seq<(K, V)>

  /** The keys, in iteration order. */
  function Keys<K(==, !new), V(!new)>(m: OrderedMap<K, V>): (ks: seq<K>)
    ensures |ks| == |m|
    ensures forall i :: 0 <= i < |m| ==> ks[i] == m[i].0
  {
    seq(|m|, i requires 0 <= i < |m| => m[i].0)
  }

  /** What a `LinkedHashMap` guarantees of its entries: no key twice. */
  predicate KeysDistinct<K(==, !new), V(!new)>(m: OrderedMap<K, V>)
  {
    forall i, j :: 0 <= i < j < |m| ==> m[i].0 != m[j].0
  }

  /** Lookup; on a raw sequence with repeated keys the last entry wins. */
  function Get<K(==, !new), V(!new)>(m: OrderedMap<K, V>, k: K): (r: Option<V>)
    ensures r.Some? <==> k in Keys(m)
    ensures r.Some? ==> (k, r.value) in m
  {
    if m == [] then None
    else if m[|m| - 1].0 == k then Some(m[|m| - 1].1)
    else
      var r := Get(m[..|m| - 1], k);
      assert Keys(m) == Keys(m[..|m| - 1]) + [m[|m| - 1].0];
      r
  }

  /** `m` without the entry for `k`, the others in their order. */
  function Remove<K(==, !new), V(!new)>(m: OrderedMap<K, V>, k: K): (r: OrderedMap<K, V>)
    ensures forall e :: e in r <==> e in m && e.0 != k
    ensures k !in Keys(m) ==> r == m
    ensures KeysDistinct(m) ==> KeysDistinct(r)
  {
    if m == [] then []
    else
      var init, last := m[..|m| - 1], m[|m| - 1];
      assert m == init + [last];
      assert Keys(m) == Keys(init) + [last.0];
      var rest := Remove(init, k);
      if last.0 == k then rest
      else
        assert KeysDistinct(m) ==> KeysDistinct(rest + [last]) by {
          if KeysDistinct(m) {
            forall e | e in rest ensures e.0 != last.0 {
              var i :| 0 <= i < |init| && init[i] == e;
              assert m[i] == e && m[|m| - 1] == last;
            }
            KeysDistinctSnoc(rest, last);
          }
        }
        rest + [last]
  }

  lemma KeysDistinctSnoc<K(!new), V(!new)>(m: OrderedMap<K, V>, e: (K, V))
    requires KeysDistinct(m) && forall d :: d in m ==> d.0 != e.0
    ensures KeysDistinct(m + [e])
  {
    forall i, j | 0 <= i < j < |m + [e]| ensures (m + [e])[i].0 != (m + [e])[j].0 {
      if j == |m| {
        assert (m + [e])[i] in m;
      }
    }
  }

  /** `LinkedHashMap::insert`: the entry for `k` becomes the last one and holds `v`. */
  function Insert<K(==, !new), V(!new)>(m: OrderedMap<K, V>, k: K, v: V): (r: OrderedMap<K, V>)
    ensures Get(r, k) == Some(v)
    ensures forall k' :: k' != k ==> Get(r, k') == Get(m, k')
    ensures KeysDistinct(m) ==> KeysDistinct(r)
    ensures k !in Keys(m) ==> r == m + [(k, v)]
    ensures forall e :: e in r ==> e in m || e == (k, v)
  {
    var rest := Remove(m, k);
    forall k' | k' != k ensures Get(rest + [(k, v)], k') == Get(m, k') {
      assert (rest + [(k, v)])[..|rest|] == rest;
      GetRemove(m, k, k');
    }
    rest + [(k, v)]
  }

  lemma {:induction false} GetRemove<K(!new), V(!new)>(m: OrderedMap<K, V>, k: K, k': K)
    requires k' != k
    ensures Get(Remove(m, k), k') == Get(m, k')
  {
    if m != [] {
      var init, last := m[..|m| - 1], m[|m| - 1];
      GetRemove(init, k, k');
      if last.0 != k {
        var rest := Remove(init, k);
        assert (rest + [last])[..|rest|] == rest;
      }
    }
  }

  /** Inserts the entries of `es` one after the other, as the converter's loops do. */
  function InsertAll<K(==, !new), V(!new)>(m: OrderedMap<K, V>, es: seq<(K, V)>): (r: OrderedMap<K, V>)
    ensures KeysDistinct(m) ==> KeysDistinct(r)
    decreases |es|
  {
    if es == [] then m else InsertAll(Insert(m, es[0].0, es[0].1), es[1..])
  }

  /** Inserting a batch that starts with `e`: `e` first, then the rest. */
  lemma InsertAllCons<K(!new), V(!new)>(m: OrderedMap<K, V>, e: (K, V), rest: seq<(K, V)>)
    ensures InsertAll(m, [e] + rest) == InsertAll(Insert(m, e.0, e.1), rest)
  {
    assert ([e] + rest)[1..] == rest;
  }

  /** Inserting two batches one after the other is inserting their concatenation. */
  lemma {:induction false} InsertAllAppend<K(!new), V(!new)>(m: OrderedMap<K, V>, a: seq<(K, V)>, b: seq<(K, V)>)
    ensures InsertAll(m, a + b) == InsertAll(InsertAll(m, a), b)
    decreases |a|
  {
    if a == [] {
      assert a + b == b;
    } else {
      assert (a + b)[0] == a[0] && (a + b)[1..] == a[1..] + b;
      InsertAllAppend(Insert(m, a[0].0, a[0].1), a[1..], b);
    }
  }

  /** Inserting a batch that ends with `e`: the rest first, then `e`. */
  lemma InsertAllSnoc<K(!new), V(!new)>(m: OrderedMap<K, V>, es: seq<(K, V)>, e: (K, V))
    ensures InsertAll(m, es + [e]) == Insert(InsertAll(m, es), e.0, e.1)
  {
    InsertAllAppend(m, es, [e]);
    assert [e][1..] == [];
  }

  /** Lookup in a sequence that starts with `e`: a later entry for the key wins over `e`. */
  lemma {:induction false} GetCons<K(!new), V(!new)>(e: (K, V), es: seq<(K, V)>, k: K)
    ensures Get([e] + es, k) ==
      if Get(es, k).Some? then Get(es, k) else if e.0 == k then Some(e.1) else None
  {
    if es != [] {
      var init := es[..|es| - 1];
      assert ([e] + es)[..|es|] == [e] + init;
      GetCons(e, init, k);
    } else {
      assert ([e] + es)[..0] == [];
    }
  }

  /** Lookup finds the LAST entry for a key. */
  lemma {:induction false} GetLastEntry<K(!new), V(!new)>(m: OrderedMap<K, V>, k: K, i: nat)
    requires i < |m| && m[i].0 == k
    requires forall i' :: i < i' < |m| ==> m[i'].0 != k
    ensures Get(m, k) == Some(m[i].1)
    decreases |m|
  {
    if i < |m| - 1 {
      var init := m[..|m| - 1];
      assert init[i] == m[i];
      GetLastEntry(init, k, i);
    }
  }

  /**
    Inserting a batch of entries: every key of the batch ends up holding the
    value of its LAST entry in the batch; keys the batch does not mention keep
    their old value.
  */
  lemma {:induction false} GetInsertAll<K(!new), V(!new)>(m: OrderedMap<K, V>, es: seq<(K, V)>, k: K)
    ensures Get(InsertAll(m, es), k) == if Get(es, k).Some? then Get(es, k) else Get(m, k)
    decreases |es|
  {
    if es != [] {
      GetInsertAll(Insert(m, es[0].0, es[0].1), es[1..], k);
      assert es == [es[0]] + es[1..];
      GetCons(es[0], es[1..], k);
    }
  }

  /** With no repeated key, inserting a batch appends it: the map keeps the batch's order. */
  lemma {:induction false} InsertAllDistinct<K(!new), V(!new)>(m: OrderedMap<K, V>, es: seq<(K, V)>)
    requires KeysDistinct(m + es)
    ensures InsertAll(m, es) == m + es
    decreases |es|
  {
    if es != [] {
      var k := es[0].0;
      assert k !in Keys(m) by {
        forall i | 0 <= i < |m| ensures m[i].0 != k {
          assert (m + es)[i] == m[i] && (m + es)[|m|] == es[0];
        }
      }
      assert m + [es[0]] + es[1..] == m + es;
      InsertAllDistinct(m + [es[0]], es[1..]);
    }
  }

  /** Keys of two maps written one after the other. */
  lemma KeysAppend<K(!new), V(!new)>(a: OrderedMap<K, V>, b: OrderedMap<K, V>)
    ensures Keys(a + b) == Keys(a) + Keys(b)
  {
  }

  /** Lookup in `a + b`: an entry of `b` wins over one of `a`. */
  lemma {:induction false} GetAppend<K(!new), V(!new)>(a: OrderedMap<K, V>, b: OrderedMap<K, V>, k: K)
    ensures Get(a + b, k) == if Get(b, k).Some? then Get(b, k) else Get(a, k)
    decreases |b|
  {
    if b != [] {
      var init := b[..|b| - 1];
      assert (a + b)[..|a + b| - 1] == a + init;
      GetAppend(a, init, k);
    } else {
      assert a + b == a;
    }
  }

  /** The same keys in the same order, each value passed through `f`. */
  function MapValues<K(==, !new), V(!new), W(!new)>(m: OrderedMap<K, V>, f: V -> W): (r: OrderedMap<K, W>)
    ensures |r| == |m|
    ensures forall i :: 0 <= i < |m| ==> r[i] == (m[i].0, f(m[i].1))
  {
    seq(|m|, i requires 0 <= i < |m| => (m[i].0, f(m[i].1)))
  }

  /** Looking up a mapped map is mapping the lookup. */
  lemma {:induction false} GetMapValues<K(!new), V(!new), W(!new)>(m: OrderedMap<K, V>, f: V -> W, k: K)
    ensures Get(MapValues(m, f), k) == if Get(m, k).Some? then Some(f(Get(m, k).value)) else None
    decreases |m|
  {
    if m != [] {
      var init := m[..|m| - 1];
      assert MapValues(m, f)[..|m| - 1] == MapValues(init, f);
      GetMapValues(init, f, k);
    }
  }

  lemma {:induction false} MapValuesRemove<K(!new), V(!new), W(!new)>(m: OrderedMap<K, V>, f: V -> W, k: K)
    ensures MapValues(Remove(m, k), f) == Remove(MapValues(m, f), k)
    decreases |m|
  {
    if m != [] {
      var init, last := m[..|m| - 1], m[|m| - 1];
      MapValuesRemove(init, f, k);
      assert MapValues(m, f)[..|m| - 1] == MapValues(init, f);
      if last.0 != k {
        assert MapValues(Remove(init, k) + [last], f) == MapValues(Remove(init, k), f) + [(last.0, f(last.1))];
      }
    }
  }

  /** Mapping the values commutes with `Insert`: the keys move the same way whatever the values. */
  lemma MapValuesInsert<K(!new), V(!new), W(!new)>(m: OrderedMap<K, V>, f: V -> W, k: K, v: V)
    ensures MapValues(Insert(m, k, v), f) == Insert(MapValues(m, f), k, f(v))
  {
    MapValuesRemove(m, f, k);
    assert MapValues(Remove(m, k) + [(k, v)], f) == MapValues(Remove(m, k), f) + [(k, f(v))];
  }
}
