/** Python's `dict`: a map that remembers the order in which its keys were first inserted. */
module Dicts {

  datatype Dict<K(!new), V> = Dict(keys: seq<K>, entries: map<K, V>)
  {
    /** The keys in insertion order hold each key once, and exactly the map's keys. */
    ghost predicate Valid()
    {
      && (forall i, j :: 0 <= i < j < |keys| ==> keys[i] != keys[j])
      && (forall i :: 0 <= i < |keys| ==> keys[i] in entries)
      && (forall k :: k in entries ==> k in keys)
    }

    /** `d[k] = v`: a key already present keeps its place and gets the new value; a new key goes last. */
    function Set(k: K, v: V): (d: Dict<K, V>)
      ensures Valid() ==> d.Valid()
      ensures d.entries == entries[k := v]
      ensures d.keys == if k in entries then keys else keys + [k]
    {
      if k in entries then Dict(keys, entries[k := v]) else Dict(keys + [k], entries[k := v])
    }

    /**
     * `Valid()` read as `list(d)` is used: the listed keys are distinct and
     * are exactly the keys of the map.
     */
    lemma KeysListEntries()
      requires Valid()
      ensures forall i, j :: 0 <= i < j < |keys| ==> keys[i] != keys[j]
      ensures forall k :: k in keys <==> k in entries
    {
    }
  }

  /** `{}` */
  function EmptyDict<K(!new), V>(): (d: Dict<K, V>)
    ensures d.Valid() && d.keys == [] && d.entries == map[]
  {
    Dict([], map[])
  }

  // ---------------------------------------------------------------------------
  // `{key(x): x for x in xs}`

  /** No later element has the same key as `xs[i]`. */
  ghost predicate LastWithKey<K(!new), V>(key: V -> K, xs: seq<V>, i: int)
    requires 0 <= i < |xs|
  {
    forall j :: i < j < |xs| ==> key(xs[j]) != key(xs[i])
  }

  /** No two elements have the same key. */
  ghost predicate NoCollision<K(!new), V>(key: V -> K, xs: seq<V>)
  {
    forall i, j :: 0 <= i < j < |xs| ==> key(xs[i]) != key(xs[j])
  }

  /**
   * `{key(x): x for x in xs}`: one assignment per element, in order. Every
   * element's key is a key of the result, and every key maps to a value that
   * has it. `ComprehensionValues` shows that value is an element of `xs`, and
   * `ComprehensionValid` that the result is well formed.
   */
  function Comprehension<K(!new), V>(key: V -> K, xs: seq<V>): (d: Dict<K, V>)
    ensures forall i :: 0 <= i < |xs| ==> key(xs[i]) in d.entries
    ensures forall k :: k in d.entries ==> key(d.entries[k]) == k
    ensures |d.keys| <= |xs|
    decreases |xs|
  {
    if xs == [] then EmptyDict()
    else
      var x := xs[|xs| - 1];
      var prefix := xs[..|xs| - 1];
      assert xs == prefix + [x];
      Comprehension(key, prefix).Set(key(x), x)
  }

  /** The comprehension yields a well-formed dict. */
  lemma {:induction false} ComprehensionValid<K(!new), V>(key: V -> K, xs: seq<V>)
    ensures Comprehension(key, xs).Valid()
  {
    if xs != [] {
      ComprehensionValid(key, xs[..|xs| - 1]);
    }
  }

  /** Appending keeps an element last with its key when the new element has another key. */
  lemma LastWithKeyAppend<K(!new), V>(key: V -> K, prefix: seq<V>, x: V, j: int)
    requires 0 <= j < |prefix| && LastWithKey(key, prefix, j) && key(x) != key(prefix[j])
    ensures LastWithKey(key, prefix + [x], j)
  {
    var xs := prefix + [x];
    forall i | j < i < |xs|
      ensures key(xs[i]) != key(xs[j])
    {
      if i < |prefix| {
        assert xs[i] == prefix[i];
      }
    }
  }

  /** An element last with its key stays last once the final element is dropped. */
  lemma LastWithKeyPrefix<K(!new), V>(key: V -> K, prefix: seq<V>, x: V, j: int)
    requires 0 <= j < |prefix| && LastWithKey(key, prefix + [x], j)
    ensures LastWithKey(key, prefix, j) && key(x) != key(prefix[j])
  {
    var xs := prefix + [x];
    assert xs[|prefix|] == x && xs[j] == prefix[j];
    forall i | j < i < |prefix|
      ensures key(prefix[i]) != key(prefix[j])
    {
      assert xs[i] == prefix[i];
    }
  }

  /** The comprehension of `prefix + [x]` is that of `prefix` with `key(x)` set to `x`. */
  lemma ComprehensionAppend<K(!new), V>(key: V -> K, prefix: seq<V>, x: V)
    ensures Comprehension(key, prefix + [x]) == Comprehension(key, prefix).Set(key(x), x)
  {
    var xs := prefix + [x];
    assert xs[..|xs| - 1] == prefix && xs[|xs| - 1] == x;
  }

  /** Every element's key is listed among the keys in order. */
  lemma ElementKeyListed<K(!new), V>(key: V -> K, xs: seq<V>, i: int)
    requires 0 <= i < |xs|
    ensures key(xs[i]) in Comprehension(key, xs).keys
  {
    ComprehensionValid(key, xs);
  }

  /** Every key comes from an element, and from a last one with that key. */
  lemma {:induction false} KeyFrom<K(!new), V>(key: V -> K, xs: seq<V>, k: K)
    requires k in Comprehension(key, xs).entries
    ensures exists j :: 0 <= j < |xs| && key(xs[j]) == k && LastWithKey(key, xs, j)
  {
    var m := |xs| - 1;
    var prefix, x := xs[..m], xs[m];
    assert xs == prefix + [x];
    ComprehensionAppend(key, prefix, x);
    if key(x) != k {
      KeyFrom(key, prefix, k);
      var j :| 0 <= j < |prefix| && key(prefix[j]) == k && LastWithKey(key, prefix, j);
      LastWithKeyAppend(key, prefix, x, j);
      assert xs[j] == prefix[j];
    } else {
      assert LastWithKey(key, xs, m);
    }
  }

  /** Last write wins: a key maps to the last element that has it. */
  lemma {:induction false} ComprehensionLastWins<K(!new), V>(key: V -> K, xs: seq<V>)
    ensures forall i :: 0 <= i < |xs| && LastWithKey(key, xs, i) ==>
              Comprehension(key, xs).entries[key(xs[i])] == xs[i]
  {
    if xs != [] {
      var m := |xs| - 1;
      var prefix, x := xs[..m], xs[m];
      assert xs == prefix + [x];
      ComprehensionAppend(key, prefix, x);
      ComprehensionLastWins(key, prefix);
      forall i | 0 <= i < m && LastWithKey(key, xs, i)
        ensures Comprehension(key, xs).entries[key(xs[i])] == xs[i]
      {
        LastWithKeyPrefix(key, prefix, x, i);
        assert prefix[i] == xs[i];
      }
    }
  }

  /** So the value of each key is the last element with that key, and an element of `xs`. */
  lemma ComprehensionValues<K(!new), V>(key: V -> K, xs: seq<V>)
    ensures forall k :: k in Comprehension(key, xs).entries ==>
              exists j :: 0 <= j < |xs| && LastWithKey(key, xs, j) && key(xs[j]) == k &&
                Comprehension(key, xs).entries[k] == xs[j]
    ensures forall k :: k in Comprehension(key, xs).entries ==> Comprehension(key, xs).entries[k] in xs
  {
    ComprehensionLastWins(key, xs);
    forall k | k in Comprehension(key, xs).entries
      ensures exists j :: 0 <= j < |xs| && LastWithKey(key, xs, j) && key(xs[j]) == k &&
                Comprehension(key, xs).entries[k] == xs[j]
    {
      KeyFrom(key, xs, k);
    }
  }

  /** The position of the first element whose key is `k` (`|xs|` if none has it). */
  function FirstIndexOfKey<K(==,!new), V>(key: V -> K, xs: seq<V>, k: K): (i: nat)
    ensures i <= |xs|
    ensures i < |xs| ==> key(xs[i]) == k
    ensures forall j :: 0 <= j < i ==> key(xs[j]) != k
  {
    if xs == [] then 0
    else if key(xs[0]) == k then 0
    else 1 + FirstIndexOfKey(key, xs[1..], k)
  }

  lemma FirstIndexAppend<K(!new), V>(key: V -> K, prefix: seq<V>, x: V, k: K)
    ensures FirstIndexOfKey(key, prefix + [x], k) ==
              if FirstIndexOfKey(key, prefix, k) < |prefix| then FirstIndexOfKey(key, prefix, k)
              else if key(x) == k then |prefix|
              else |prefix| + 1
  {
    var xs := prefix + [x];
    var a := FirstIndexOfKey(key, prefix, k);
    assert forall j :: 0 <= j < |prefix| ==> xs[j] == prefix[j];
    if a < |prefix| {
      assert key(xs[a]) == k;
    } else if key(x) == k {
      assert key(xs[|prefix|]) == k;
    }
  }

  /** The first occurrence of a key of the result lies among the elements. */
  lemma KeyOccurs<K(!new), V>(key: V -> K, xs: seq<V>, k: K)
    requires k in Comprehension(key, xs).entries
    ensures FirstIndexOfKey(key, xs, k) < |xs|
  {
    KeyFrom(key, xs, k);
  }

  /** Appending an element keeps the order of two keys' first occurrences in the prefix. */
  lemma FirstIndexOrderAppend<K(!new), V>(key: V -> K, prefix: seq<V>, x: V, ka: K, kb: K)
    requires FirstIndexOfKey(key, prefix, ka) < FirstIndexOfKey(key, prefix, kb) < |prefix|
    ensures FirstIndexOfKey(key, prefix + [x], ka) < FirstIndexOfKey(key, prefix + [x], kb) < |prefix| + 1
  {
    FirstIndexAppend(key, prefix, x, ka);
    FirstIndexAppend(key, prefix, x, kb);
  }

  /** A key met in the prefix first occurs before the key of an appended element new to the prefix. */
  lemma FirstIndexNewKeyAppend<K(!new), V>(key: V -> K, prefix: seq<V>, x: V, ka: K)
    requires FirstIndexOfKey(key, prefix, ka) < |prefix|
    requires key(x) !in Comprehension(key, prefix).entries
    ensures FirstIndexOfKey(key, prefix + [x], ka) < FirstIndexOfKey(key, prefix + [x], key(x)) < |prefix| + 1
  {
    var f := FirstIndexOfKey(key, prefix, key(x));
    assert f == |prefix|;
    FirstIndexAppend(key, prefix, x, ka);
    FirstIndexAppend(key, prefix, x, key(x));
  }

  /**
   * One step of `KeyPairOrder`: if two keys of the prefix's result are in
   * first-occurrence order, so are the two keys at the same places once `x`
   * is appended.
   */
  lemma KeyPairOrderAppend<K(!new), V>(key: V -> K, prefix: seq<V>, x: V, a: int, b: int)
    requires 0 <= a < b < |Comprehension(key, prefix + [x]).keys|
    requires var before := Comprehension(key, prefix).keys;
             b < |before| ==>
               FirstIndexOfKey(key, prefix, before[a]) < FirstIndexOfKey(key, prefix, before[b]) < |prefix|
    ensures var keys := Comprehension(key, prefix + [x]).keys;
            FirstIndexOfKey(key, prefix + [x], keys[a]) < FirstIndexOfKey(key, prefix + [x], keys[b]) < |prefix| + 1
  {
    var before := Comprehension(key, prefix);
    ComprehensionAppend(key, prefix, x);
    var keys := Comprehension(key, prefix + [x]).keys;
    ComprehensionValid(key, prefix);
    assert a < |before.keys| && keys[a] == before.keys[a];
    KeyOccurs(key, prefix, keys[a]);
    if b < |before.keys| {
      assert keys[b] == before.keys[b];
      FirstIndexOrderAppend(key, prefix, x, keys[a], keys[b]);
    } else {
      assert keys[b] == key(x) && key(x) !in before.entries;
      FirstIndexNewKeyAppend(key, prefix, x, keys[a]);
    }
  }

  /** Two keys of the result, in the result's order, first occur in that order. */
  lemma {:induction false} KeyPairOrder<K(!new), V>(key: V -> K, xs: seq<V>, a: int, b: int)
    requires 0 <= a < b < |Comprehension(key, xs).keys|
    ensures var keys := Comprehension(key, xs).keys;
            FirstIndexOfKey(key, xs, keys[a]) < FirstIndexOfKey(key, xs, keys[b]) < |xs|
  {
    var m := |xs| - 1;
    var prefix, x := xs[..m], xs[m];
    assert xs == prefix + [x];
    if b < |Comprehension(key, prefix).keys| {
      KeyPairOrder(key, prefix, a, b);
    }
    KeyPairOrderAppend(key, prefix, x, a, b);
  }

  /** The keys are in the order in which they first occur among the elements. */
  lemma ComprehensionKeyOrder<K(!new), V>(key: V -> K, xs: seq<V>)
    ensures forall a, b :: 0 <= a < b < |Comprehension(key, xs).keys| ==>
              FirstIndexOfKey(key, xs, Comprehension(key, xs).keys[a]) <
              FirstIndexOfKey(key, xs, Comprehension(key, xs).keys[b]) < |xs|
  {
    forall a, b | 0 <= a < b < |Comprehension(key, xs).keys|
      ensures FirstIndexOfKey(key, xs, Comprehension(key, xs).keys[a]) <
              FirstIndexOfKey(key, xs, Comprehension(key, xs).keys[b]) < |xs|
    {
      KeyPairOrder(key, xs, a, b);
    }
  }

  /** Appending an element keeps the elements collision-free exactly when its key is new. */
  lemma NoCollisionAppend<K(!new), V>(key: V -> K, prefix: seq<V>, x: V)
    ensures NoCollision(key, prefix + [x]) <==>
              NoCollision(key, prefix) && key(x) !in Comprehension(key, prefix).entries
  {
    var xs, m := prefix + [x], |prefix|;
    var before := Comprehension(key, prefix);
    if key(x) in before.entries {
      KeyFrom(key, prefix, key(x));
      var j :| 0 <= j < m && key(prefix[j]) == key(x) && LastWithKey(key, prefix, j);
      assert key(xs[j]) == key(xs[m]);
    } else {
      forall i | 0 <= i < m
        ensures key(xs[i]) != key(x)
      {
        assert prefix[i] == xs[i];
        assert key(prefix[i]) in before.entries;
      }
      if NoCollision(key, prefix) {
        forall i, j | 0 <= i < j < |xs|
          ensures key(xs[i]) != key(xs[j])
        {
          if j < m {
            assert prefix[i] == xs[i] && prefix[j] == xs[j];
            assert key(prefix[i]) != key(prefix[j]);
          } else {
            assert key(xs[i]) != key(x);
          }
        }
      }
    }
    if NoCollision(key, xs) {
      forall i, j | 0 <= i < j < m
        ensures key(prefix[i]) != key(prefix[j])
      {
        assert prefix[i] == xs[i] && prefix[j] == xs[j];
      }
    }
  }

  /** One key per element exactly when no two elements collide. */
  lemma {:induction false} ComprehensionSizeIff<K(!new), V>(key: V -> K, xs: seq<V>)
    ensures |Comprehension(key, xs).keys| == |xs| <==> NoCollision(key, xs)
  {
    if xs != [] {
      var m := |xs| - 1;
      var prefix, x := xs[..m], xs[m];
      assert xs == prefix + [x];
      ComprehensionSizeIff(key, prefix);
      NoCollisionAppend(key, prefix, x);
    }
  }

  /** Without collisions the keys are the elements' keys in the elements' order. */
  lemma {:induction false} ComprehensionKeysInOrder<K(!new), V>(key: V -> K, xs: seq<V>)
    requires NoCollision(key, xs)
    ensures Comprehension(key, xs).keys == seq(|xs|, i requires 0 <= i < |xs| => key(xs[i]))
  {
    if xs != [] {
      var m := |xs| - 1;
      var prefix, x := xs[..m], xs[m];
      assert xs == prefix + [x];
      NoCollisionAppend(key, prefix, x);
      ComprehensionKeysInOrder(key, prefix);
      var keysBefore := seq(m, i requires 0 <= i < m => key(prefix[i]));
      assert Comprehension(key, xs).keys == keysBefore + [key(x)];
      assert keysBefore + [key(x)] == seq(|xs|, i requires 0 <= i < |xs| => key(xs[i]));
    }
  }

  /**
   * Without collisions every element comes back from its key, and the keys are
   * the elements' keys in the elements' order.
   */
  lemma ComprehensionRoundTrip<K(!new), V>(key: V -> K, xs: seq<V>)
    requires NoCollision(key, xs)
    ensures forall i :: 0 <= i < |xs| ==> Comprehension(key, xs).entries[key(xs[i])] == xs[i]
    ensures Comprehension(key, xs).keys == seq(|xs|, i requires 0 <= i < |xs| => key(xs[i]))
  {
    ComprehensionLastWins(key, xs);
    forall i | 0 <= i < |xs|
      ensures LastWithKey(key, xs, i)
    {
    }
    ComprehensionKeysInOrder(key, xs);
  }

  /** One element: its key, mapped to it. */
  lemma ComprehensionOfOne<K(!new), V>(key: V -> K, a: V)
    ensures Comprehension(key, [a]) == Dict([key(a)], map[key(a) := a])
  {
    ComprehensionAppend(key, [], a);
    assert [] + [a] == [a];
  }

  /** Two elements: the second one's key is set in the dict of the first. */
  lemma ComprehensionOfPair<K(!new), V>(key: V -> K, a: V, b: V)
    ensures Comprehension(key, [a, b]) == Dict([key(a)], map[key(a) := a]).Set(key(b), b)
  {
    ComprehensionOfOne(key, a);
    ComprehensionAppend(key, [a], b);
    assert [a] + [b] == [a, b];
  }

  /** Two elements with one key: one key, mapped to the second element. */
  lemma ComprehensionCollision<K(!new), V>(key: V -> K, a: V, b: V)
    requires key(a) == key(b)
    ensures Comprehension(key, [a, b]).keys == [key(a)]
    ensures Comprehension(key, [a, b]).entries == map[key(a) := b]
  {
    ComprehensionOfPair(key, a, b);
    var one := Dict([key(a)], map[key(a) := a]);
    assert key(b) in one.entries;
    assert one.Set(key(b), b) == Dict([key(a)], map[key(a) := b]);
  }

  /** Two elements with different keys: both keys, in order, each mapped to its element. */
  lemma ComprehensionOfTwo<K(!new), V>(key: V -> K, a: V, b: V)
    requires key(a) != key(b)
    ensures Comprehension(key, [a, b]).keys == [key(a), key(b)]
    ensures Comprehension(key, [a, b]).entries == map[key(a) := a, key(b) := b]
  {
    ComprehensionOfPair(key, a, b);
    var one := Dict([key(a)], map[key(a) := a]);
    assert key(b) !in one.entries;
    assert one.Set(key(b), b) == Dict([key(a), key(b)], map[key(a) := a, key(b) := b]);
  }
}
