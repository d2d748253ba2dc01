/** A plain JavaScript object used as a map, modelled as an association list.
    Object spread `{...m, [k]: v}` keeps an existing key where it is and appends a
    new one; `delete m[k]` drops the key; `Object.keys` enumerates in list order. */
module AssocList {
  import opened Wrappers

  /** The representation invariant of an object: one entry per key. */
  ghost predicate UniqueKeys<K, V>(m: seq<(K, V)>)
  {
    forall i, j :: 0 <= i < j < |m| ==> m[i].0 != m[j].0
  }

  /** The values in key order (`Object.keys(m).forEach(k => out.push(m[k]))`). */
  function Values<K(==), V>(m: seq<(K, V)>): (vs: seq<V>)
    ensures |vs| == |m|
    ensures forall i :: 0 <= i < |m| ==> vs[i] == m[i].1
    // with one entry per key, the i-th value is what a lookup of the i-th key answers
    ensures UniqueKeys(m) ==> forall i :: 0 <= i < |m| ==> Get(m, m[i].0) == Some(vs[i])
  {
    var vs := seq(|m|, i requires 0 <= i < |m| => m[i].1);
    assert UniqueKeys(m) ==> forall i :: 0 <= i < |m| ==> Get(m, m[i].0) == Some(vs[i]) by {
      if UniqueKeys(m) {
        forall i | 0 <= i < |m| ensures Get(m, m[i].0) == Some(vs[i]) {
          GetExactlyStored(m, m[i].0, m[i].1);
        }
      }
    }
    vs
  }

  /** `m[k]`: the value of the first entry with key `k`. */
  function Get<K(==), V>(m: seq<(K, V)>, k: K): (r: Option<V>)
    ensures r.None? <==> forall i :: 0 <= i < |m| ==> m[i].0 != k
    ensures r.Some? ==> exists i :: 0 <= i < |m| && m[i] == (k, r.value)
  {
    if |m| == 0 then None
    else if m[0].0 == k then Some(m[0].1)
    else
      var r := Get(m[1..], k);
      assert r.Some? ==> exists i :: 1 <= i < |m| && m[i] == (k, r.value) by {
        if r.Some? {
          var i :| 0 <= i < |m[1..]| && m[1..][i] == (k, r.value);
          assert m[i + 1] == (k, r.value);
        }
      }
      r
  }

  /** With one entry per key, a lookup finds exactly the stored pairs. */
  lemma {:induction false} GetExactlyStored<K, V>(m: seq<(K, V)>, k: K, v: V)
    requires UniqueKeys(m)
    ensures Get(m, k) == Some(v) <==> exists i :: 0 <= i < |m| && m[i] == (k, v)
  {
    if |m| > 0 && m[0].0 != k {
      GetExactlyStored(m[1..], k, v);
      if exists i :: 0 <= i < |m| && m[i] == (k, v) {
        var i :| 0 <= i < |m| && m[i] == (k, v);
        assert m[1..][i - 1] == (k, v);
      }
    }
  }

  /** `{...m, [k]: v}`. */
  function Put<K(==,!new), V(!new)>(m: seq<(K, V)>, k: K, v: V): (r: seq<(K, V)>)
    ensures Get(r, k) == Some(v)
    ensures forall k' :: k' != k ==> Get(r, k') == Get(m, k')
    // an existing key keeps its position, so the key order is unchanged ...
    ensures Get(m, k).Some? ==> |r| == |m| && forall i :: 0 <= i < |m| ==> r[i].0 == m[i].0
    // ... and a new key goes to the end
    ensures Get(m, k).None? ==> r == m + [(k, v)]
    ensures forall e :: e in r ==> e in m || e == (k, v)
    ensures forall e :: e in m && e.0 != k ==> e in r
  {
    if |m| == 0 then [(k, v)]
    else if m[0].0 == k then [(k, v)] + m[1..]
    else
      var t := Put(m[1..], k, v);
      var r := [m[0]] + t;
      assert r[1..] == t;
      assert m == [m[0]] + m[1..];
      r
  }

  /** `Put` keeps one entry per key. */
  lemma PutKeepsUniqueKeys<K(!new), V(!new)>(m: seq<(K, V)>, k: K, v: V)
    requires UniqueKeys(m)
    ensures UniqueKeys(Put(m, k, v))
  {
    var r := Put(m, k, v);
    if Get(m, k).None? {
      forall i, j | 0 <= i < j < |r| ensures r[i].0 != r[j].0 {
        if j == |m| {
          assert r[i] == m[i];
        } else {
          assert r[i] == m[i] && r[j] == m[j];
        }
      }
    }
  }

  /** `delete m[k]`, applied to a copy. */
  function Remove<K(==,!new), V(!new)>(m: seq<(K, V)>, k: K): (r: seq<(K, V)>)
    ensures Get(r, k).None?
    ensures forall k' :: k' != k ==> Get(r, k') == Get(m, k')
    ensures forall e :: e in r <==> e in m && e.0 != k
    ensures Get(m, k).None? ==> r == m
    ensures |r| <= |m|
  {
    if |m| == 0 then []
    else if m[0].0 == k then Remove(m[1..], k)
    else
      var t := Remove(m[1..], k);
      var r := [m[0]] + t;
      assert r[1..] == t;
      assert forall e :: e in m <==> e == m[0] || e in m[1..];
      r
  }

  /** `delete` keeps one entry per key. */
  lemma {:induction false} RemoveKeepsUniqueKeys<K(!new), V(!new)>(m: seq<(K, V)>, k: K)
    requires UniqueKeys(m)
    ensures UniqueKeys(Remove(m, k))
  {
    if |m| > 0 {
      RemoveKeepsUniqueKeys(m[1..], k);
      if m[0].0 != k {
        var t := Remove(m[1..], k);
        var r := [m[0]] + t;
        assert Remove(m, k) == r;
        forall i, j | 0 <= i < j < |r| ensures r[i].0 != r[j].0 {
          if i == 0 {
            assert r[j] == t[j - 1];
            assert r[j] in m[1..];
            var jj :| 0 <= jj < |m[1..]| && m[1..][jj] == r[j];
            assert m[jj + 1] == r[j];
          } else {
            assert r[i] == t[i - 1] && r[j] == t[j - 1];
          }
        }
      }
    }
  }

  /** With one entry per key, `delete` takes out exactly the entry at the key and
      the others keep their relative order. */
  lemma {:induction false} RemoveKeepsOrder<K(!new), V(!new)>(m: seq<(K, V)>, k: K)
    requires UniqueKeys(m)
    ensures Get(m, k).Some? ==>
      exists i :: 0 <= i < |m| && m[i].0 == k && Remove(m, k) == m[..i] + m[i + 1..]
  {
    if Get(m, k).Some? {
      var i :| 0 <= i < |m| && m[i] == (k, Get(m, k).value);
      RemoveAt(m, k, i);
    }
  }

  /** `RemoveKeepsOrder` for a known position of the key. */
  lemma {:induction false} RemoveAt<K(!new), V(!new)>(m: seq<(K, V)>, k: K, i: int)
    requires UniqueKeys(m) && 0 <= i < |m| && m[i].0 == k
    ensures Remove(m, k) == m[..i] + m[i + 1..]
    decreases i
  {
    var t := m[1..];
    assert UniqueKeys(t) by {
      forall a, b | 0 <= a < b < |t| ensures t[a].0 != t[b].0 {
        assert t[a] == m[a + 1] && t[b] == m[b + 1];
      }
    }
    if i == 0 {
      assert Get(t, k).None? by {
        forall a | 0 <= a < |t| ensures t[a].0 != k {
          assert t[a] == m[a + 1];
        }
      }
      assert Remove(m, k) == Remove(t, k) == t;
      assert m[..0] + m[1..] == t;
    } else {
      assert m[0].0 != k;
      assert t[i - 1] == m[i];
      RemoveAt(t, k, i - 1);
      assert Remove(m, k) == [m[0]] + Remove(t, k);
      SkipInTail(m, i);
    }
  }

  /** Dropping position `i - 1` of the tail, then putting the head back, drops
      position `i` of the whole. */
  lemma SkipInTail<T>(m: seq<T>, i: int)
    requires 1 <= i < |m|
    ensures [m[0]] + (m[1..][..i - 1] + m[1..][i..]) == m[..i] + m[i + 1..]
  {
    assert m[..i] == [m[0]] + m[1..][..i - 1];
  }

  /** Removing a key that `Put` just added restores the map exactly. */
  lemma {:induction false} RemoveUndoesPut<K(!new), V(!new)>(m: seq<(K, V)>, k: K, v: V)
    requires Get(m, k).None?
    ensures Remove(Put(m, k, v), k) == m
  {
    if |m| > 0 {
      RemoveUndoesPut(m[1..], k, v);
      assert Put(m, k, v) == [m[0]] + Put(m[1..], k, v);
      assert (Put(m, k, v))[1..] == Put(m[1..], k, v);
    }
  }

  /** The value of the last element of `xs` whose key is `k`: the element that a
      left-to-right sequence of `Put`s leaves at `k`. */
  function LastWithKey<K(==), V>(xs: seq<V>, key: V -> K, k: K): (r: Option<V>)
    ensures r.None? <==> forall i :: 0 <= i < |xs| ==> key(xs[i]) != k
    ensures r.Some? ==> exists i :: 0 <= i < |xs| && xs[i] == r.value && key(xs[i]) == k
                                    && forall j :: i < j < |xs| ==> key(xs[j]) != k
  {
    if |xs| == 0 then None
    else if key(xs[|xs| - 1]) == k then Some(xs[|xs| - 1])
    else
      var r := LastWithKey(xs[..|xs| - 1], key, k);
      assert r.Some? ==> exists i :: 0 <= i < |xs| && xs[i] == r.value && key(xs[i]) == k
                                    && forall j :: i < j < |xs| ==> key(xs[j]) != k by {
        if r.Some? {
          var ys := xs[..|xs| - 1];
          var i :| 0 <= i < |ys| && ys[i] == r.value && key(ys[i]) == k
                   && forall j :: i < j < |ys| ==> key(ys[j]) != k;
          assert xs[i] == r.value;
          assert forall j :: i < j < |xs| ==> key(xs[j]) != k by {
            forall j | i < j < |xs| ensures key(xs[j]) != k {
              if j < |ys| { assert ys[j] == xs[j]; }
            }
          }
        }
      }
      r
  }

  /** Folds `Put` over `xs` from left to right, keying each element by `key`
      (`xs.forEach(x => m[key(x)] = x)`, or a `reduce` over spreads). */
  function PutAll<K(==,!new), V(!new)>(m: seq<(K, V)>, xs: seq<V>, key: V -> K): (r: seq<(K, V)>)
    ensures forall k :: Get(r, k) == (if LastWithKey(xs, key, k).Some? then LastWithKey(xs, key, k) else Get(m, k))
    ensures UniqueKeys(m) ==> UniqueKeys(r)
    ensures forall e :: e in r ==> e in m || e.0 == key(e.1)
  {
    if |xs| == 0 then m
    else
      var x := xs[|xs| - 1];
      var ys := xs[..|xs| - 1];
      var t := PutAll(m, ys, key);
      assert forall k :: LastWithKey(xs, key, k) == (if key(x) == k then Some(x) else LastWithKey(ys, key, k));
      var r := Put(t, key(x), x);
      assert UniqueKeys(m) ==> UniqueKeys(r) by {
        if UniqueKeys(m) { PutKeepsUniqueKeys(t, key(x), x); }
      }
      r
  }

  /** The position of the first element of `xs` whose key is `k`, or `|xs|` when
      no element has it: the order in which a run of writes first mentions keys. */
  function FirstKeyIndex<K(==), V>(xs: seq<V>, key: V -> K, k: K): (f: nat)
    ensures f <= |xs|
    ensures f < |xs| ==> key(xs[f]) == k && forall j :: 0 <= j < f ==> key(xs[j]) != k
    ensures f == |xs| ==> forall j :: 0 <= j < |xs| ==> key(xs[j]) != k
  {
    if |xs| == 0 then 0
    else
      var ys := xs[..|xs| - 1];
      var f := FirstKeyIndex(ys, key, k);
      assert forall j :: 0 <= j < |ys| ==> ys[j] == xs[j];
      if f < |ys| then f else if key(xs[|xs| - 1]) == k then |ys| else |xs|
  }

  /** The key order a run of writes `xs` leaves in `r`, starting from `m`: the
      keys of `m` stay where they were, and the keys after them are mentioned by
      `xs` and follow in the order `xs` first mentions them. */
  ghost predicate KeysInMentionOrder<K, V>(m: seq<(K, V)>, r: seq<(K, V)>, xs: seq<V>, key: V -> K)
  {
    && |m| <= |r|
    && (forall i :: 0 <= i < |m| ==> r[i].0 == m[i].0)
    && (forall i :: |m| <= i < |r| ==> FirstKeyIndex(xs, key, r[i].0) < |xs|)
    && (forall i, j :: |m| <= i < j < |r| ==> FirstKeyIndex(xs, key, r[i].0) < FirstKeyIndex(xs, key, r[j].0))
  }

  /** A run of writes keeps the keys of `m` in place and appends the new keys in
      first-mention order. */
  lemma {:induction false} PutAllKeepsKeyOrder<K(!new), V(!new)>(m: seq<(K, V)>, xs: seq<V>, key: V -> K)
    ensures KeysInMentionOrder(m, PutAll(m, xs, key), xs, key)
    decreases |xs|
  {
    if |xs| > 0 {
      var x := xs[|xs| - 1];
      var ys := xs[..|xs| - 1];
      PutAllKeepsKeyOrder(m, ys, key);
      var t := PutAll(m, ys, key);
      assert PutAll(m, xs, key) == Put(t, key(x), x);
      FirstKeyIndexOfPrefix(xs, key);
      if Get(t, key(x)).Some? {
        KeptKeysStep(m, t, Put(t, key(x), x), ys, xs, key);
      } else {
        assert LastWithKey(ys, key, key(x)).None?;
        AppendedKeyStep(m, t, ys, xs, key, key(x), x);
      }
    }
  }

  /** A key the list mentions before its last element keeps its first position
      when the last element is added. */
  lemma FirstKeyIndexOfPrefix<K, V>(xs: seq<V>, key: V -> K)
    requires |xs| > 0
    ensures forall k :: FirstKeyIndex(xs[..|xs| - 1], key, k) < |xs| - 1 ==>
      FirstKeyIndex(xs, key, k) == FirstKeyIndex(xs[..|xs| - 1], key, k)
    ensures FirstKeyIndex(xs[..|xs| - 1], key, key(xs[|xs| - 1])) == |xs| - 1 ==>
      FirstKeyIndex(xs, key, key(xs[|xs| - 1])) == |xs| - 1
  {
  }

  /** A write to a key that is already present leaves the key order alone. */
  lemma KeptKeysStep<K, V>(m: seq<(K, V)>, t: seq<(K, V)>, r: seq<(K, V)>, ys: seq<V>, xs: seq<V>, key: V -> K)
    requires KeysInMentionOrder(m, t, ys, key)
    requires |r| == |t| && forall i :: 0 <= i < |t| ==> r[i].0 == t[i].0
    requires |ys| <= |xs|
    requires forall k :: FirstKeyIndex(ys, key, k) < |ys| ==> FirstKeyIndex(xs, key, k) == FirstKeyIndex(ys, key, k)
    ensures KeysInMentionOrder(m, r, xs, key)
  {
    forall i | |m| <= i < |r| ensures FirstKeyIndex(xs, key, r[i].0) == FirstKeyIndex(ys, key, t[i].0) < |ys| {
      assert r[i].0 == t[i].0;
    }
  }

  /** A write to a new key appends it, behind every key mentioned earlier. */
  lemma AppendedKeyStep<K, V>(m: seq<(K, V)>, t: seq<(K, V)>, ys: seq<V>, xs: seq<V>, key: V -> K, k: K, v: V)
    requires KeysInMentionOrder(m, t, ys, key)
    requires |ys| < |xs| && FirstKeyIndex(xs, key, k) == |ys|
    requires forall k' :: FirstKeyIndex(ys, key, k') < |ys| ==> FirstKeyIndex(xs, key, k') == FirstKeyIndex(ys, key, k')
    ensures KeysInMentionOrder(m, t + [(k, v)], xs, key)
  {
    var r := t + [(k, v)];
    forall i | 0 <= i < |t| ensures r[i] == t[i] {
    }
    forall i | |m| <= i < |t| ensures FirstKeyIndex(xs, key, r[i].0) == FirstKeyIndex(ys, key, t[i].0) < |ys| {
    }
  }

  /** Folding one element into the empty map gives its single entry. */
  lemma PutAllSingle<K(!new), V(!new)>(x: V, key: V -> K)
    ensures PutAll([], [x], key) == [(key(x), x)]
  {
    assert [x][..0] == [];
  }

  /** Folding two elements: two entries in order, or one when they share a key. */
  lemma PutAllPair<K(!new), V(!new)>(x1: V, x2: V, key: V -> K)
    ensures key(x1) != key(x2) ==> PutAll([], [x1, x2], key) == [(key(x1), x1), (key(x2), x2)]
    ensures key(x1) == key(x2) ==> PutAll([], [x1, x2], key) == [(key(x2), x2)]
  {
    assert [x1, x2][..1] == [x1];
    PutAllSingle(x1, key);
  }
}
