/**
 * The listener's cache (`$cachedMap`): one entry per class, written in one
 * batch when a hierarchy is resolved.  The functions here give the cache's
 * contents after a resolution; the lemmas state what every class of the
 * hierarchy then finds in it.
 */
module Cache {
  import opened Wrappers
  import opened PhpArrays
  import opened Hierarchy
  import opened Resolution

  /**
   * `$cachedMap[$class]`: the hierarchy's tag-to-class map (`'map'`), the
   * class's own tag (`'discr'`) and the root marker (`'isParent'`).  The
   * first two are absent in an entry created only to mark the root.
   */
  datatype CacheEntry = CacheEntry(discrMap: Option<Assoc<Tag, ClassId>>, discr: Option<Tag>, isParent: bool)

  /** What PHP's auto-vivification starts from when a sub-key of a missing entry is assigned. */
  const Absent := CacheEntry(None, None, false)

  function EntryOf(cache: map<ClassId, CacheEntry>, c: ClassId): CacheEntry
  {
    if c in cache then cache[c] else Absent
  }

  /** An entry that `overrideMetadata` can read without an undefined index. */
  predicate Complete(e: CacheEntry)
  {
    e.discrMap.Some? && e.discr.Some?
  }

  /** The root's subclass list: the entry map's values, in order, with the own-tag key removed. */
  function SubclassList(e: CacheEntry): (r: seq<ClassId>)
    requires Complete(e)
    ensures forall x :: x in r ==> x in ValueSet(e.discrMap.value)
  {
    var m := e.discrMap.value;
    RemoveEntries(m, e.discr.value);
    var r := Values(Remove(m, e.discr.value));
    assert forall x :: x in r ==> x in ValueSet(m) by {
      forall x | x in r ensures x in ValueSet(m) {
        var i :| 0 <= i < |r| && r[i] == x;
        var p := Remove(m, e.discr.value)[i];
        var j :| 0 <= j < |m| && m[j] == p;
        assert Values(m)[j] == x;
      }
    }
    r
  }

  /** `$this->cachedMap[$root]['isParent'] = true`. */
  function Marked(cache: map<ClassId, CacheEntry>, root: ClassId): (r: map<ClassId, CacheEntry>)
    ensures r.Keys == cache.Keys + {root}
    ensures r[root].isParent && r[root].discrMap == EntryOf(cache, root).discrMap && r[root].discr == EntryOf(cache, root).discr
    ensures forall k :: k in cache && k != root ==> r[k] == cache[k]
  {
    cache[root := EntryOf(cache, root).(isParent := true)]
  }

  /**
   * The cache after the store loop has handled the first `n` entries of
   * the accumulator `m`: each of those classes gets the flipped map `d`
   * and its own tag, and keeps its root marker.
   */
  function Stored(cache: map<ClassId, CacheEntry>, m: Assoc<ClassId, Tag>, n: nat, d: Assoc<Tag, ClassId>)
    : (r: map<ClassId, CacheEntry>)
    requires n <= |m|
    ensures cache.Keys <= r.Keys
  {
    if n == 0 then cache
    else
      var before := Stored(cache, m, n - 1, d);
      var k := m[n - 1].0;
      assert Keys(m)[n - 1] == k;
      before[k := EntryOf(before, k).(discrMap := Some(d), discr := Some(Lookup(m, k)))]
  }

  /** The entries the store loop has written: the cache's old ones and one per handled class. */
  lemma {:induction false} StoredKeys(cache: map<ClassId, CacheEntry>, m: Assoc<ClassId, Tag>, n: nat, d: Assoc<Tag, ClassId>)
    requires n <= |m|
    ensures Stored(cache, m, n, d).Keys == cache.Keys + (set k | k in Keys(m)[..n])
  {
    if n > 0 {
      StoredKeys(cache, m, n - 1, d);
      assert Keys(m)[..n] == Keys(m)[..n - 1] + [m[n - 1].0];
    }
  }

  /** Every handled class holds the given map and its own tag, and keeps its root marker. */
  lemma {:induction false} StoredAt(cache: map<ClassId, CacheEntry>, m: Assoc<ClassId, Tag>, n: nat, d: Assoc<Tag, ClassId>, j: nat)
    requires j < n <= |m|
    ensures m[j].0 in KeySet(m) && m[j].0 in Stored(cache, m, n, d)
    ensures Stored(cache, m, n, d)[m[j].0] == EntryOf(cache, m[j].0).(discrMap := Some(d), discr := Some(Lookup(m, m[j].0)))
  {
    var x, k := m[j].0, m[n - 1].0;
    assert Keys(m)[j] == x && Keys(m)[n - 1] == k;
    if x != k {
      StoredAt(cache, m, n - 1, d, j);
    } else if i :| 0 <= i < n - 1 && m[i].0 == x {
      StoredAt(cache, m, n - 1, d, i);
    } else {
      StoredOutside(cache, m, n - 1, d, x);
    }
  }

  /** Every class the loop did not handle keeps its entry, or its absence. */
  lemma {:induction false} StoredOutside(cache: map<ClassId, CacheEntry>, m: Assoc<ClassId, Tag>, n: nat, d: Assoc<Tag, ClassId>, x: ClassId)
    requires n <= |m| && forall i :: 0 <= i < n ==> m[i].0 != x
    ensures EntryOf(Stored(cache, m, n, d), x) == EntryOf(cache, x)
    ensures x in Stored(cache, m, n, d) <==> x in cache
  {
    if n > 0 {
      StoredOutside(cache, m, n - 1, d, x);
    }
  }

  /** The cache after the whole store loop. */
  lemma StoredSpec(cache: map<ClassId, CacheEntry>, m: Assoc<ClassId, Tag>, d: Assoc<Tag, ClassId>)
    ensures Stored(cache, m, |m|, d).Keys == cache.Keys + KeySet(m)
    ensures forall k :: k in KeySet(m) ==>
      Stored(cache, m, |m|, d)[k] == EntryOf(cache, k).(discrMap := Some(d), discr := Some(Lookup(m, k)))
    ensures forall k :: k in cache && k !in KeySet(m) ==> Stored(cache, m, |m|, d)[k] == cache[k]
  {
    assert Keys(m)[..|m|] == Keys(m);
    StoredKeys(cache, m, |m|, d);
    forall x | x in KeySet(m)
      ensures Stored(cache, m, |m|, d)[x] == EntryOf(cache, x).(discrMap := Some(d), discr := Some(Lookup(m, x)))
    {
      var j :| 0 <= j < |m| && Keys(m)[j] == x;
      StoredAt(cache, m, |m|, d, j);
    }
    forall x | x in cache && x !in KeySet(m) ensures Stored(cache, m, |m|, d)[x] == cache[x] {
      forall i | 0 <= i < |m| ensures m[i].0 != x {
        assert Keys(m)[i] == m[i].0;
      }
      StoredOutside(cache, m, |m|, d, x);
    }
  }

  /**
   * The accumulator after resolving from `c`: `c` with its own tag first,
   * then the walk from the root.
   */
  function Resolve(w: World, c: ClassId): Assoc<ClassId, Tag>
    requires WellFormed(w) && c in w.declared && TagOf(w, c).Some?
  {
    KeySetSingle(c, TagOf(w, c).value);
    Walk(w, [(c, TagOf(w, c).value)], Root(w, c))
  }

  /** The cache after a resolution from `c`. */
  function ResolvedCache(cache: map<ClassId, CacheEntry>, w: World, c: ClassId): map<ClassId, CacheEntry>
    requires WellFormed(w) && c in w.declared && TagOf(w, c).Some?
  {
    var r := Resolve(w, c);
    Stored(Marked(cache, Root(w, c)), r, |r|, Flip(r))
  }

  /**
   * The classes resolved from `c` are `c` itself and every tagged strict
   * subclass of its root; `c` comes first, each class once, each with its
   * own tag.  The root's own tag is never read, so the root is among them
   * only when it is `c`.
   */
  lemma ResolveShape(w: World, c: ClassId)
    requires WellFormed(w) && c in w.declared && TagOf(w, c).Some?
    ensures KeySet(Resolve(w, c)) == {c} + TaggedDescendants(w, Root(w, c))
    ensures Root(w, c) in KeySet(Resolve(w, c)) <==> Root(w, c) == c
    ensures DistinctKeys(Resolve(w, c))
    ensures Resolve(w, c)[0] == (c, TagOf(w, c).value)
    ensures TaggedFrom(w, Resolve(w, c), 0)
  {
    var t := TagOf(w, c).value;
    KeySetSingle(c, t);
    var root := Root(w, c);
    WalkKeys(w, [(c, t)], root);
    WalkEntries(w, [(c, t)], root);
    assert Keys([(c, t)]) == [c];
    var r := Resolve(w, c);
    assert r[..1] == [(c, t)];
    assert r[0] == (c, t);
  }

  lemma ResolvedTags(w: World, c: ClassId)
    requires WellFormed(w) && c in w.declared && TagOf(w, c).Some?
    ensures forall k :: k in KeySet(Resolve(w, c)) ==> TagOf(w, k) == Some(Lookup(Resolve(w, c), k))
  {
    var r := Resolve(w, c);
    ResolveShape(w, c);
    forall k | k in KeySet(r) ensures TagOf(w, k) == Some(Lookup(r, k)) {
      var i :| 0 <= i < |r| && Keys(r)[i] == k;
      LookupIndex(r, i);
    }
  }

  /**
   * After a resolution from `c`, every resolved class holds the flipped
   * accumulator and its own tag, even if it had an entry before.
   */
  lemma ResolvedEntries(cache: map<ClassId, CacheEntry>, w: World, c: ClassId)
    requires WellFormed(w) && c in w.declared && TagOf(w, c).Some?
    ensures var r, cache' := Resolve(w, c), ResolvedCache(cache, w, c);
      forall k :: k in KeySet(r) ==>
        k in cache' && cache'[k].discrMap == Some(Flip(r)) && cache'[k].discr == TagOf(w, k)
  {
    var r := Resolve(w, c);
    StoredSpec(Marked(cache, Root(w, c)), r, Flip(r));
    ResolvedTags(w, c);
  }

  /**
   * A resolution adds entries for the root and the resolved classes only,
   * and leaves every other entry as it was.
   */
  lemma ResolvedFrame(cache: map<ClassId, CacheEntry>, w: World, c: ClassId)
    requires WellFormed(w) && c in w.declared && TagOf(w, c).Some?
    ensures var r, root, cache' := Resolve(w, c), Root(w, c), ResolvedCache(cache, w, c);
      && cache'.Keys == cache.Keys + {root} + KeySet(r)
      && forall k :: k in cache && k != root && k !in KeySet(r) ==> cache'[k] == cache[k]
  {
    var r, root := Resolve(w, c), Root(w, c);
    var marked := Marked(cache, root);
    assert marked.Keys == cache.Keys + {root};
    assert forall k :: k in cache && k != root ==> marked[k] == cache[k];
    StoredSpec(marked, r, Flip(r));
  }

  /**
   * The root, and no other class, gains the root marker during a
   * resolution; markers already present are kept.
   */
  lemma ResolvedRootMarker(cache: map<ClassId, CacheEntry>, w: World, c: ClassId)
    requires WellFormed(w) && c in w.declared && TagOf(w, c).Some?
    ensures var cache' := ResolvedCache(cache, w, c);
      forall k :: k in cache' ==> (cache'[k].isParent <==> k == Root(w, c) || EntryOf(cache, k).isParent)
  {
    var r, root := Resolve(w, c), Root(w, c);
    var marked := Marked(cache, root);
    StoredSpec(marked, r, Flip(r));
    var cache' := Stored(marked, r, |r|, Flip(r));
    forall k | k in cache' ensures cache'[k].isParent <==> k == root || EntryOf(cache, k).isParent {
      if k in KeySet(r) {
        assert cache'[k].isParent == EntryOf(marked, k).isParent;
      } else {
        assert cache'[k] == marked[k];
      }
      if k != root && k !in cache {
        assert k !in marked;
      }
    }
  }

  /**
   * Round trip: a resolved class `k` whose tag no other resolved class
   * shares finds itself under its own tag in its cached map.
   */
  lemma CachedRoundTrip(cache: map<ClassId, CacheEntry>, w: World, c: ClassId, k: ClassId)
    requires WellFormed(w) && c in w.declared && TagOf(w, c).Some?
    requires k in KeySet(Resolve(w, c))
    requires forall j :: 0 <= j < |Resolve(w, c)| && Resolve(w, c)[j].0 != k ==>
      Resolve(w, c)[j].1 != Lookup(Resolve(w, c), k)
    ensures var e := EntryOf(ResolvedCache(cache, w, c), k);
      Complete(e) && e.discr.value in KeySet(e.discrMap.value) && Lookup(e.discrMap.value, e.discr.value) == k
  {
    var r := Resolve(w, c);
    ResolveShape(w, c);
    var i :| 0 <= i < |r| && Keys(r)[i] == k;
    assert r[i].0 == k;
    LookupIndex(r, i);
    forall j | i < j < |r| ensures r[j].1 != r[i].1 {
      assert Keys(r)[j] == r[j].0;
    }
    FlipLookup(r, i);
    ResolvedEntries(cache, w, c);
    ResolvedTags(w, c);
  }

  /**
   * After a resolution from `c`, no later load of a tagged class of the
   * same hierarchy resolves again: each already has a cache entry.
   */
  lemma HierarchyCached(cache: map<ClassId, CacheEntry>, w: World, c: ClassId, k: ClassId)
    requires WellFormed(w) && c in w.declared && TagOf(w, c).Some?
    requires k in w.declared && Root(w, k) == Root(w, c) && TagOf(w, k).Some?
    ensures k in ResolvedCache(cache, w, c)
  {
    ResolvedFrame(cache, w, c);
    ResolveShape(w, c);
  }

  /**
   * The root's entry holds a map and a tag after the resolution only when
   * the root itself was the class being loaded, or already held them.
   */
  lemma RootEntry(cache: map<ClassId, CacheEntry>, w: World, c: ClassId)
    requires WellFormed(w) && c in w.declared && TagOf(w, c).Some?
    ensures var e := EntryOf(ResolvedCache(cache, w, c), Root(w, c));
      e.isParent && (Complete(e) <==> Root(w, c) == c || Complete(EntryOf(cache, Root(w, c))))
  {
    var r, root := Resolve(w, c), Root(w, c);
    ResolvedRootMarker(cache, w, c);
    StoredSpec(Marked(cache, root), r, Flip(r));
    ResolveShape(w, c);
    if root == c {
      ResolvedEntries(cache, w, c);
    } else {
      assert root !in Keys(r);
    }
  }


  /**
   * When the root itself is loaded and no two classes of its hierarchy
   * share a tag, its subclass list is every tagged strict subclass, each
   * once, in the order the walk discovered them.
   */
  lemma RootSubclassList(cache: map<ClassId, CacheEntry>, w: World, c: ClassId)
    requires WellFormed(w) && c in w.declared && c !in w.parent && TagOf(w, c).Some?
    requires DistinctValues(Resolve(w, c))
    ensures var e := EntryOf(ResolvedCache(cache, w, c), c);
      && e.isParent && Complete(e)
      && SubclassList(e) == Keys(Resolve(w, c))[1..]
      && Distinct(SubclassList(e))
      && (forall x :: x in SubclassList(e) <==> x in TaggedDescendants(w, c))
  {
    var r := Resolve(w, c);
    ResolvedEntries(cache, w, c);
    ResolvedRootMarker(cache, w, c);
    ResolveShape(w, c);
    assert c in KeySet(r);
    ValuesAfterRemovingFirst(r);
    KeysTail(r, c, TaggedDescendants(w, c));
  }

  /**
   * When the root itself is loaded, its subclass list holds resolved
   * classes whose tag differs from the root's: removing the root's tag key
   * from the flipped map drops the root and every other class that
   * shares its tag.
   */
  lemma RootListOmitsOwnTag(cache: map<ClassId, CacheEntry>, w: World, c: ClassId)
    requires WellFormed(w) && c in w.declared && c !in w.parent && TagOf(w, c).Some?
    ensures var e := EntryOf(ResolvedCache(cache, w, c), c);
      && e.isParent && Complete(e)
      && (forall x :: x in SubclassList(e) ==> x in KeySet(Resolve(w, c)) && TagOf(w, x) != TagOf(w, c))
      && c !in SubclassList(e)
  {
    var r := Resolve(w, c);
    ResolvedEntries(cache, w, c);
    ResolvedRootMarker(cache, w, c);
    ResolveShape(w, c);
    ResolvedTags(w, c);
    assert c in KeySet(r);
    RemovedFlipValues(r, TagOf(w, c).value);
  }

  /** The keys after the first of an array without repeated keys. */
  lemma KeysTail(r: Assoc<ClassId, Tag>, c: ClassId, rest: set<ClassId>)
    requires r != [] && r[0].0 == c && DistinctKeys(r) && KeySet(r) == {c} + rest && c !in rest
    ensures Distinct(Keys(r)[1..])
    ensures forall x :: x in Keys(r)[1..] <==> x in rest
  {
    var ks := Keys(r);
    forall x ensures x in ks[1..] <==> x in rest {
      if x in ks[1..] {
        var i :| 1 <= i < |ks| && ks[i] == x;
        assert ks[i] != ks[0];
      }
      if x in rest {
        var i :| 0 <= i < |ks| && ks[i] == x;
        assert ks[1..][i - 1] == x;
      }
    }
  }
}
