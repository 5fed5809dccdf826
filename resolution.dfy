/**
 * The hierarchy walk of `checkChildren` as functions, with the facts the
 * listener's cache relies on: which classes the walk collects, with which
 * tags, and in which order.
 */
module Resolution {
  import opened Wrappers
  import opened PhpArrays
  import opened Hierarchy

  /**
   * `checkChildren(c)` run on the accumulator `m`: every subclass of `c`
   * (all levels, in declaration order) that is not yet a key and has a tag
   * is appended with its tag and walked in turn.
   */
  function Walk(w: World, m: Assoc<ClassId, Tag>, c: ClassId): (r: Assoc<ClassId, Tag>)
    requires WellFormed(w) && KeySet(m) <= DeclaredSet(w)
    ensures KeySet(m) <= KeySet(r) <= DeclaredSet(w)
    ensures |m| <= |r| && r[..|m|] == m
    decreases DeclaredSet(w) - KeySet(m), 1, 0
  {
    SubClassesSpec(w, c);
    WalkList(w, m, SubClasses(w, c))
  }

  /** The loop of `checkChildren` over the remaining candidates `xs`. */
  function WalkList(w: World, m: Assoc<ClassId, Tag>, xs: seq<ClassId>): (r: Assoc<ClassId, Tag>)
    requires WellFormed(w) && KeySet(m) <= DeclaredSet(w)
    requires forall x :: x in xs ==> x in w.declared
    ensures KeySet(m) <= KeySet(r) <= DeclaredSet(w)
    ensures |m| <= |r| && r[..|m|] == m
    decreases DeclaredSet(w) - KeySet(m), 0, |xs|
  {
    if xs == [] then m
    else
      var x := xs[0];
      var m1 :=
        if x !in KeySet(m) && TagOf(w, x).Some? then
          KeysConcat(m, [(x, TagOf(w, x).value)]);
          KeySetSingle(x, TagOf(w, x).value);
          Walk(w, m + [(x, TagOf(w, x).value)], x)
        else m;
      assert m1[..|m|] == m;
      WalkList(w, m1, xs[1..])
  }

  /** Every tagged strict subclass of `y` below a strict subclass `x` of `c` is one of `c`'s. */
  lemma TaggedDescendantsNested(w: World, x: ClassId, c: ClassId)
    requires WellFormed(w) && x in w.declared && IsStrictSubclass(w, x, c)
    ensures TaggedDescendants(w, x) <= TaggedDescendants(w, c)
  {
    forall y | y in TaggedDescendants(w, x) ensures y in TaggedDescendants(w, c) {
      SubclassTransitive(w, y, x, c);
    }
  }

  /**
   * The walk from `c` adds exactly the tagged strict subclasses of `c`
   * that are not keys yet, including those below untagged classes.
   */
  lemma {:induction false} WalkKeys(w: World, m: Assoc<ClassId, Tag>, c: ClassId)
    requires WellFormed(w) && KeySet(m) <= DeclaredSet(w)
    ensures KeySet(Walk(w, m, c)) == KeySet(m) + TaggedDescendants(w, c)
    decreases DeclaredSet(w) - KeySet(m), 1, 0
  {
    var subs := SubClasses(w, c);
    SubClassesSpec(w, c);
    WalkListKeys(w, m, subs, c);
    assert (set x | x in subs && TagOf(w, x).Some?) == TaggedDescendants(w, c);
  }

  lemma {:induction false} WalkListKeys(w: World, m: Assoc<ClassId, Tag>, xs: seq<ClassId>, c: ClassId)
    requires WellFormed(w) && KeySet(m) <= DeclaredSet(w)
    requires forall x :: x in xs ==> x in w.declared && IsStrictSubclass(w, x, c)
    ensures KeySet(m) + (set x | x in xs && TagOf(w, x).Some?) <= KeySet(WalkList(w, m, xs))
    ensures KeySet(WalkList(w, m, xs)) <= KeySet(m) + TaggedDescendants(w, c)
    decreases DeclaredSet(w) - KeySet(m), 0, |xs|
  {
    if xs != [] {
      var x := xs[0];
      if x !in KeySet(m) && TagOf(w, x).Some? {
        var m' := m + [(x, TagOf(w, x).value)];
        KeysConcat(m, [(x, TagOf(w, x).value)]);
        KeySetSingle(x, TagOf(w, x).value);
        WalkKeys(w, m', x);
        TaggedDescendantsNested(w, x, c);
        WalkListKeys(w, Walk(w, m', x), xs[1..], c);
      } else {
        WalkListKeys(w, m, xs[1..], c);
      }
    }
  }

  /** From index `n` on, every entry of `r` pairs a class with its own tag. */
  ghost predicate TaggedFrom(w: World, r: Assoc<ClassId, Tag>, n: nat)
  {
    forall i :: n <= i < |r| ==> TagOf(w, r[i].0) == Some(r[i].1)
  }

  /** The walk keeps keys distinct and records each class with its tag. */
  lemma {:induction false} WalkEntries(w: World, m: Assoc<ClassId, Tag>, c: ClassId)
    requires WellFormed(w) && KeySet(m) <= DeclaredSet(w)
    ensures DistinctKeys(m) ==> DistinctKeys(Walk(w, m, c))
    ensures TaggedFrom(w, Walk(w, m, c), |m|)
    decreases DeclaredSet(w) - KeySet(m), 1, 0
  {
    SubClassesSpec(w, c);
    WalkListEntries(w, m, SubClasses(w, c));
  }

  lemma {:induction false} WalkListEntries(w: World, m: Assoc<ClassId, Tag>, xs: seq<ClassId>)
    requires WellFormed(w) && KeySet(m) <= DeclaredSet(w)
    requires forall x :: x in xs ==> x in w.declared
    ensures DistinctKeys(m) ==> DistinctKeys(WalkList(w, m, xs))
    ensures TaggedFrom(w, WalkList(w, m, xs), |m|)
    decreases DeclaredSet(w) - KeySet(m), 0, |xs|
  {
    if xs != [] {
      var x := xs[0];
      if x !in KeySet(m) && TagOf(w, x).Some? {
        var t := TagOf(w, x).value;
        var m' := m + [(x, t)];
        KeysConcat(m, [(x, t)]);
        KeySetSingle(x, t);
        PutAppends(m, x, t);
        PutKeys(m, x, t);
        WalkEntries(w, m', x);
        var m1 := Walk(w, m', x);
        WalkListEntries(w, m1, xs[1..]);
        var r := WalkList(w, m1, xs[1..]);
        assert r[..|m1|] == m1;
        forall i | |m| <= i < |r| ensures TagOf(w, r[i].0) == Some(r[i].1) {
          if i < |m1| {
            assert r[i] == m1[i];
            if i == |m| { assert m1[i] == m'[i]; }
          }
        }
      } else {
        WalkListEntries(w, m, xs[1..]);
      }
    }
  }
}
