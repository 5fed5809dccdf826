/**
 * PHP arrays used as ordered dictionaries: an association list with
 * insertion order.  Assigning to an existing key keeps the key's position
 * and replaces its value; assigning to a new key appends it.  The
 * operations below are the array built-ins the listener relies on:
 * `$a[$k] = $v`, `$a[$k]` (read), `unset($a[$k])`, `array_values` and
 * `array_flip`.
 */
module PhpArrays {

  type Assoc<K, V> = seq<(K, V)>

  /** The keys, in iteration order. */
  function Keys<K, V>(a: Assoc<K, V>): (r: seq<K>)
    ensures |r| == |a| && forall i {:trigger r[i]} :: 0 <= i < |a| ==> r[i] == a[i].0
  {
    seq(|a|, i requires 0 <= i < |a| => a[i].0)
  }

  /** `array_values`: the values, in iteration order. */
  function Values<K, V>(a: Assoc<K, V>): (r: seq<V>)
    ensures |r| == |a| && forall i {:trigger r[i]} :: 0 <= i < |a| ==> r[i] == a[i].1
  {
    seq(|a|, i requires 0 <= i < |a| => a[i].1)
  }

  function KeySet<K, V>(a: Assoc<K, V>): set<K>
  {
    set k | k in Keys(a)
  }

  function ValueSet<K, V>(a: Assoc<K, V>): set<V>
  {
    set v | v in Values(a)
  }

  ghost predicate Distinct<T>(s: seq<T>)
  {
    forall i, j :: 0 <= i < j < |s| ==> s[i] != s[j]
  }

  /** The invariant of every PHP array: no key occurs twice. */
  ghost predicate DistinctKeys<K, V>(a: Assoc<K, V>)
  {
    Distinct(Keys(a))
  }

  /** No value occurs twice (no two classes share a tag). */
  ghost predicate DistinctValues<K, V>(a: Assoc<K, V>)
  {
    Distinct(Values(a))
  }

  /** The position of key `k`: its first occurrence. */
  function IndexOf<K(==), V>(a: Assoc<K, V>, k: K): (i: nat)
    requires k in KeySet(a)
    ensures i < |a| && a[i].0 == k
    ensures forall j :: 0 <= j < i ==> a[j].0 != k
  {
    if a[0].0 == k then 0
    else
      assert k in KeySet(a[1..]) by {
        var i :| 0 <= i < |a| && Keys(a)[i] == k;
        assert Keys(a[1..])[i - 1] == k;
      }
      1 + IndexOf(a[1..], k)
  }

  /** `$a[$k]` for a key that is present. */
  function Lookup<K(==), V>(a: Assoc<K, V>, k: K): (v: V)
    requires k in KeySet(a)
    ensures exists i :: 0 <= i < |a| && a[i] == (k, v)
  {
    a[IndexOf(a, k)].1
  }

  lemma KeysConcat<K, V>(a: Assoc<K, V>, b: Assoc<K, V>)
    ensures Keys(a + b) == Keys(a) + Keys(b) && Values(a + b) == Values(a) + Values(b)
    ensures KeySet(a + b) == KeySet(a) + KeySet(b) && ValueSet(a + b) == ValueSet(a) + ValueSet(b)
  {
  }

  /** `$a[$k] = $v`: replaced in place if the key is present, appended otherwise. */
  function Put<K(==), V>(a: Assoc<K, V>, k: K, v: V): (r: Assoc<K, V>)
    ensures Keys(r) == if k in Keys(a) then Keys(a) else Keys(a) + [k]
    ensures forall i :: 0 <= i < |a| && a[i].0 != k ==> r[i] == a[i]
    ensures exists i :: 0 <= i < |r| && r[i] == (k, v)
  {
    if k in KeySet(a) then
      var r := a[IndexOf(a, k) := (k, v)];
      assert Keys(r) == Keys(a);
      assert r[IndexOf(a, k)] == (k, v);
      r
    else
      var r := a + [(k, v)];
      assert Keys(r) == Keys(a) + [k];
      assert r[|a|] == (k, v);
      r
  }

  lemma PutKeys<K, V>(a: Assoc<K, V>, k: K, v: V)
    ensures KeySet(Put(a, k, v)) == KeySet(a) + {k}
    ensures DistinctKeys(a) ==> DistinctKeys(Put(a, k, v))
  {
  }

  lemma PutAppends<K, V>(a: Assoc<K, V>, k: K, v: V)
    requires k !in KeySet(a)
    ensures Put(a, k, v) == a + [(k, v)]
  {
  }

  /** `unset($a[$k])`: the entry holding `k` is dropped. */
  function Remove<K(==), V>(a: Assoc<K, V>, k: K): (r: Assoc<K, V>)
    ensures |r| == if k in KeySet(a) then |a| - 1 else |a|
  {
    if k in KeySet(a) then a[..IndexOf(a, k)] + a[IndexOf(a, k) + 1..] else a
  }

  lemma DistinctWithout<T>(s: seq<T>, i: nat)
    requires Distinct(s) && i < |s|
    ensures Distinct(s[..i] + s[i + 1..])
    ensures forall x :: x in s[..i] + s[i + 1..] <==> x in s && x != s[i]
  {
  }

  lemma KeysSlice<K, V>(a: Assoc<K, V>, i: nat, j: nat)
    requires i <= j <= |a|
    ensures Keys(a[i..j]) == Keys(a)[i..j] && Values(a[i..j]) == Values(a)[i..j]
  {
  }

  lemma RemoveKeysAt<K, V>(a: Assoc<K, V>, k: K)
    requires k in KeySet(a)
    ensures Keys(Remove(a, k)) == Keys(a)[..IndexOf(a, k)] + Keys(a)[IndexOf(a, k) + 1..]
  {
  }

  /** In an array without repeated keys, `unset` removes exactly the key `k`. */
  lemma RemoveKeys<K, V>(a: Assoc<K, V>, k: K)
    requires DistinctKeys(a)
    ensures KeySet(Remove(a, k)) == KeySet(a) - {k}
    ensures DistinctKeys(Remove(a, k))
  {
    if k in KeySet(a) {
      RemoveKeysAt(a, k);
      assert Keys(a)[IndexOf(a, k)] == k;
      DistinctWithout(Keys(a), IndexOf(a, k));
    }
  }

  /**
   * `array_flip`: walks the array in order and assigns `$r[$v] = $k` for
   * each entry, so a repeated value keeps the position of its first
   * occurrence and ends up with the key of its last occurrence.
   */
  function Flip<K, V(==)>(a: Assoc<K, V>): (r: Assoc<V, K>)
    ensures forall p :: p in r ==> (p.1, p.0) in a
  {
    if a == [] then []
    else
      var q, last := a[..|a| - 1], a[|a| - 1];
      PutEntries(Flip(q), last.1, last.0);
      assert a == q + [last];
      Put(Flip(q), last.1, last.0)
  }

  /** Each entry with its key and value exchanged. */
  function Swap<K, V>(a: Assoc<K, V>): (r: Assoc<V, K>)
    ensures |r| == |a| && forall i {:trigger r[i]} :: 0 <= i < |a| ==> r[i] == (a[i].1, a[i].0)
  {
    seq(|a|, i requires 0 <= i < |a| => (a[i].1, a[i].0))
  }

  /** The elements of `s` with every repetition after the first dropped. */
  function FirstOccurrences<T(==)>(s: seq<T>): (r: seq<T>)
  {
    if s == [] then []
    else
      var d := FirstOccurrences(s[..|s| - 1]);
      if s[|s| - 1] in d then d else d + [s[|s| - 1]]
  }

  /** In an array without repeated keys, the entry holding a key is unique. */
  lemma LookupIndex<K, V>(a: Assoc<K, V>, i: nat)
    requires DistinctKeys(a) && i < |a|
    ensures a[i].0 in KeySet(a) && Lookup(a, a[i].0) == a[i].1
  {
    assert Keys(a)[i] == a[i].0;
    var j :| 0 <= j < |a| && a[j] == (a[i].0, Lookup(a, a[i].0));
    assert Keys(a)[j] == a[i].0;
  }

  lemma LookupPut<K, V>(a: Assoc<K, V>, k: K, v: V, k': K)
    requires DistinctKeys(a) && (k' == k || k' in KeySet(a))
    ensures k' in KeySet(Put(a, k, v))
    ensures Lookup(Put(a, k, v), k') == if k' == k then v else Lookup(a, k')
  {
    var r := Put(a, k, v);
    PutKeys(a, k, v);
    if k' == k {
      var i :| 0 <= i < |r| && r[i] == (k, v);
      LookupIndex(r, i);
    } else {
      var i :| 0 <= i < |a| && a[i] == (k', Lookup(a, k'));
      assert r[i] == a[i];
      LookupIndex(r, i);
    }
  }

  /** The keys of the flipped array are the values, each exactly once. */
  lemma {:induction false} FlipKeys<K, V>(a: Assoc<K, V>)
    ensures KeySet(Flip(a)) == ValueSet(a)
    ensures DistinctKeys(Flip(a))
  {
    if a != [] {
      var p, last := a[..|a| - 1], a[|a| - 1];
      FlipKeys(p);
      PutKeys(Flip(p), last.1, last.0);
      assert a == p + [last];
      KeysConcat(p, [last]);
      KeySetSingle(last.0, last.1);
    }
  }

  lemma KeySetSingle<K, V>(k: K, v: V)
    ensures KeySet([(k, v)]) == {k} && ValueSet([(k, v)]) == {v}
  {
    assert Keys([(k, v)]) == [k] && Values([(k, v)]) == [v];
  }

  /**
   * A repeated value keeps the position where it first occurred: the keys
   * of the flipped array are the values in order of first occurrence.
   */
  lemma {:induction false} FlipKeyOrder<K, V>(a: Assoc<K, V>)
    ensures Keys(Flip(a)) == FirstOccurrences(Values(a))
  {
    if a != [] {
      var p, last := a[..|a| - 1], a[|a| - 1];
      FlipKeyOrder(p);
      assert a == p + [last];
      KeysConcat(p, [last]);
      assert Values(a)[..|a| - 1] == Values(p);
    }
  }

  /**
   * A value ends up with the key of its LAST occurrence: if entry `j` holds
   * value `v` and no later entry does, the flipped array maps `v` to `a[j].0`.
   */
  lemma {:induction false} FlipLookup<K, V>(a: Assoc<K, V>, j: nat)
    requires j < |a|
    requires forall i :: j < i < |a| ==> a[i].1 != a[j].1
    ensures a[j].1 in KeySet(Flip(a))
    ensures Lookup(Flip(a), a[j].1) == a[j].0
  {
    var p, last := a[..|a| - 1], a[|a| - 1];
    FlipKeys(p);
    if j == |a| - 1 {
      LookupPut(Flip(p), last.1, last.0, last.1);
    } else {
      FlipLookup(p, j);
      LookupPut(Flip(p), last.1, last.0, a[j].1);
    }
  }

  lemma DistinctValuesSnoc<K, V>(a: Assoc<K, V>)
    requires a != [] && DistinctValues(a)
    ensures DistinctValues(a[..|a| - 1]) && a[|a| - 1].1 !in ValueSet(a[..|a| - 1])
  {
    var p := a[..|a| - 1];
    forall i | 0 <= i < |p| ensures Values(p)[i] != a[|a| - 1].1 && Values(p)[i] == Values(a)[i] {
      assert Values(a)[|a| - 1] == a[|a| - 1].1;
      assert Values(p)[i] == p[i].1 && Values(a)[i] == a[i].1;
    }
  }

  lemma SwapSnoc<K, V>(p: Assoc<K, V>, last: (K, V))
    ensures Swap(p + [last]) == Swap(p) + [(last.1, last.0)]
    ensures KeySet(Swap(p)) == ValueSet(p)
  {
    SwapKeys(p);
  }

  lemma SwapKeys<K, V>(a: Assoc<K, V>)
    ensures Keys(Swap(a)) == Values(a) && Values(Swap(a)) == Keys(a)
  {
  }

  /** Without repeated values, flipping just exchanges keys and values in place. */
  lemma {:induction false} FlipSwap<K, V>(a: Assoc<K, V>)
    requires DistinctValues(a)
    ensures Flip(a) == Swap(a)
  {
    if a != [] {
      var p, last := a[..|a| - 1], a[|a| - 1];
      DistinctValuesSnoc(a);
      FlipSwap(p);
      SwapSnoc(p, last);
      PutAppends(Swap(p), last.1, last.0);
      assert a == p + [last];
    }
  }

  /** Round trip: an array whose keys and values are all distinct comes back unchanged after flipping twice. */
  lemma FlipFlip<K, V>(a: Assoc<K, V>)
    requires DistinctKeys(a) && DistinctValues(a)
    ensures Flip(Flip(a)) == a
  {
    FlipSwap(a);
    assert Values(Swap(a)) == Keys(a);
    FlipSwap(Swap(a));
    assert Swap(Swap(a)) == a;
  }

  /**
   * Without repeated values, removing the first entry's value from
   * the flipped array and taking `array_values` leaves the remaining keys,
   * in order.
   */
  lemma ValuesAfterRemovingFirst<K, V>(a: Assoc<K, V>)
    requires a != [] && DistinctValues(a)
    ensures Values(Remove(Flip(a), a[0].1)) == Keys(a)[1..]
  {
    FlipSwap(a);
    var t := Swap(a);
    assert t[0].0 == a[0].1;
    assert Keys(t)[0] == a[0].1;
    assert Remove(t, a[0].1) == t[1..];
    forall j | 0 <= j < |a| - 1 ensures Values(t[1..])[j] == Keys(a)[1..][j] {
      assert Values(t[1..])[j] == t[1..][j].1 == t[j + 1].1;
      assert Keys(a)[j + 1] == a[j + 1].0;
    }
  }

  /** Assignment stores nothing but the old entries and the new pair. */
  lemma PutEntries<K, V>(a: Assoc<K, V>, k: K, v: V)
    ensures forall p :: p in Put(a, k, v) ==> p in a || p == (k, v)
  {
  }

  /** `unset` keeps only old entries, and none with the removed key once keys are distinct. */
  lemma RemoveEntries<K, V>(a: Assoc<K, V>, k: K)
    ensures forall p :: p in Remove(a, k) ==> p in a
    ensures DistinctKeys(a) ==> forall p :: p in Remove(a, k) ==> p.0 != k
  {
    var r := Remove(a, k);
    if k in KeySet(a) {
      var i := IndexOf(a, k);
      forall p | p in r ensures p in a && (DistinctKeys(a) ==> p.0 != k) {
        var j :| 0 <= j < |r| && r[j] == p;
        var j' := if j < i then j else j + 1;
        assert r[j] == a[j'];
        assert Keys(a)[j'] == p.0 && Keys(a)[i] == k;
      }
    } else {
      forall p | p in r ensures p.0 != k {
        var j :| 0 <= j < |a| && a[j] == p;
        assert Keys(a)[j] == p.0;
      }
    }
  }

  /**
   * Removing key `v` from the flip of an array without repeated keys
   * leaves exactly the keys whose value is not `v`.
   */
  lemma RemovedFlipValues<K, V>(a: Assoc<K, V>, v: V)
    requires DistinctKeys(a)
    ensures forall x :: x in Values(Remove(Flip(a), v)) ==> x in KeySet(a) && Lookup(a, x) != v
  {
    var d := Remove(Flip(a), v);
    FlipKeys(a);
    RemoveEntries(Flip(a), v);
    forall x | x in Values(d) ensures x in KeySet(a) && Lookup(a, x) != v {
      var i :| 0 <= i < |d| && Values(d)[i] == x;
      var p := d[i];
      assert p in Flip(a);
      var j :| 0 <= j < |a| && a[j] == (x, p.0);
      assert Keys(a)[j] == x;
      LookupIndex(a, j);
    }
  }

  lemma PutTwice<K, V>(a: Assoc<K, V>, k: K, v1: V, v2: V)
    ensures Put(Put(a, k, v1), k, v2) == Put(a, k, v2)
  {
    var b := Put(a, k, v1);
    assert k in KeySet(b);
    if k in KeySet(a) {
      assert IndexOf(b, k) == IndexOf(a, k) by {
        var i, j := IndexOf(b, k), IndexOf(a, k);
        assert Keys(b)[i] == k && Keys(a)[j] == k;
      }
    } else {
      forall j | 0 <= j < |a| ensures a[j].0 != k {
        assert Keys(a)[j] == a[j].0;
      }
    }
  }
}
