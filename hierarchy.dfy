/**
 * The world the listener observes through reflection and annotation
 * reading: the declared classes, each class's parent, and each class's
 * class-level annotations.  A class's discriminator tag is the value of its
 * `DiscriminatorEntry` annotation.
 */
module Hierarchy {
  import opened Wrappers
  import opened PhpArrays

  type ClassId = string
  type Tag = string

  /** A class-level annotation: a `DiscriminatorEntry` carrying its `value`, or any other annotation class. */
  datatype Annotation = DiscriminatorEntry(value: Tag) | OtherAnnotation(annotationClass: string)

  /**
   * `declared` is what `get_declared_classes()` returns, `parent` holds
   * `getParentClass()` for every class that has one, and `annotations` is
   * what the annotation reader returns per class (a missing key: none).
   * `rank` is a proof device: it decreases along parent links, which is
   * what makes the inheritance graph acyclic.
   */
  datatype World = World(
    declared: seq<ClassId>,
    parent: map<ClassId, ClassId>,
    annotations: map<ClassId, seq<Annotation>>,
    ghost rank: map<ClassId, nat>)

  ghost predicate WellFormed(w: World)
  {
    && Distinct(w.declared)
    && (forall c :: c in w.declared ==> c in w.rank)
    && (forall c :: c in w.parent ==> c in w.declared && w.parent[c] in w.declared)
    && (forall c :: c in w.parent ==> w.rank[w.parent[c]] < w.rank[c])
  }

  function DeclaredSet(w: World): set<ClassId>
  {
    set c | c in w.declared
  }

  function Annotations(w: World, c: ClassId): seq<Annotation>
  {
    if c in w.annotations then w.annotations[c] else []
  }

  /** The value of the last `DiscriminatorEntry` among `anns`, if there is one. */
  function EntryTag(anns: seq<Annotation>): Option<Tag>
  {
    if anns == [] then None
    else if anns[|anns| - 1].DiscriminatorEntry? then Some(anns[|anns| - 1].value)
    else EntryTag(anns[..|anns| - 1])
  }

  /**
   * A tag is found exactly when some annotation is a `DiscriminatorEntry`,
   * and it is the value of the last one.
   */
  lemma {:induction false} EntryTagSpec(anns: seq<Annotation>)
    ensures EntryTag(anns).Some? <==> exists i :: 0 <= i < |anns| && anns[i].DiscriminatorEntry?
    ensures EntryTag(anns).Some? ==>
      exists i :: 0 <= i < |anns| && anns[i] == DiscriminatorEntry(EntryTag(anns).value) &&
        forall j :: i < j < |anns| ==> !anns[j].DiscriminatorEntry?
  {
    if anns != [] {
      var p := anns[..|anns| - 1];
      EntryTagSpec(p);
      if !anns[|anns| - 1].DiscriminatorEntry? {
        if EntryTag(p).Some? {
          var i :| 0 <= i < |p| && p[i] == DiscriminatorEntry(EntryTag(p).value) &&
            forall j :: i < j < |p| ==> !p[j].DiscriminatorEntry?;
          assert anns[i] == p[i];
          forall j | i < j < |anns| ensures !anns[j].DiscriminatorEntry? {
            if j < |p| { assert anns[j] == p[j]; }
          }
        } else {
          forall i | 0 <= i < |anns| ensures !anns[i].DiscriminatorEntry? {
            if i < |p| { assert anns[i] == p[i]; }
          }
        }
      }
    }
  }

  /** The tag a class declares, if any. */
  function TagOf(w: World, c: ClassId): (r: Option<Tag>)
    ensures r.Some? ==> exists i :: 0 <= i < |Annotations(w, c)| && Annotations(w, c)[i] == DiscriminatorEntry(r.value)
  {
    EntryTagSpec(Annotations(w, c));
    EntryTag(Annotations(w, c))
  }

  /**
   * `ReflectionClass(x)->isSubclassOf(c)`: `c` is a strict ancestor of `x`.
   * A strict ancestor is declared and has a smaller rank, so no class is
   * its own strict subclass.
   */
  predicate IsStrictSubclass(w: World, x: ClassId, c: ClassId)
    requires WellFormed(w) && x in w.declared
    ensures IsStrictSubclass(w, x, c) ==> c in w.declared && w.rank[c] < w.rank[x]
    decreases w.rank[x]
  {
    x in w.parent && (w.parent[x] == c || IsStrictSubclass(w, w.parent[x], c))
  }

  lemma {:induction false} SubclassTransitive(w: World, x: ClassId, y: ClassId, z: ClassId)
    requires WellFormed(w) && x in w.declared && y in w.declared
    requires IsStrictSubclass(w, x, y) && IsStrictSubclass(w, y, z)
    ensures IsStrictSubclass(w, x, z)
    decreases w.rank[x]
  {
    if w.parent[x] != y {
      SubclassTransitive(w, w.parent[x], y, z);
    }
  }

  /** The classes of `xs` that are strict subclasses of `c`, in the order of `xs`. */
  function SubClassesIn(w: World, xs: seq<ClassId>, c: ClassId): (r: seq<ClassId>)
    requires WellFormed(w) && forall x :: x in xs ==> x in w.declared
    ensures |r| <= |xs|
    ensures forall y :: y in r ==> y in xs && IsStrictSubclass(w, y, c)
  {
    if xs == [] then []
    else
      var rest := SubClassesIn(w, xs[..|xs| - 1], c);
      if IsStrictSubclass(w, xs[|xs| - 1], c) then rest + [xs[|xs| - 1]] else rest
  }

  /** What `getSubClasses(c)` returns. */
  function SubClasses(w: World, c: ClassId): seq<ClassId>
    requires WellFormed(w)
  {
    SubClassesIn(w, w.declared, c)
  }

  lemma {:induction false} SubClassesInSpec(w: World, xs: seq<ClassId>, c: ClassId)
    requires WellFormed(w) && (forall x :: x in xs ==> x in w.declared) && Distinct(xs)
    ensures forall x :: x in SubClassesIn(w, xs, c) <==> x in xs && IsStrictSubclass(w, x, c)
    ensures Distinct(SubClassesIn(w, xs, c))
  {
    if xs != [] {
      var p, last := xs[..|xs| - 1], xs[|xs| - 1];
      assert xs == p + [last];
      assert Distinct(p) by {
        forall i, j | 0 <= i < j < |p| ensures p[i] != p[j] { assert xs[i] == p[i] && xs[j] == p[j]; }
      }
      SubClassesInSpec(w, p, c);
      assert last !in p by {
        forall i | 0 <= i < |p| ensures p[i] != last { assert xs[i] == p[i]; }
      }
    }
  }

  /**
   * `getSubClasses(c)` lists exactly the declared strict subclasses of `c`
   * (all levels below it, not only direct children), each once, and never
   * `c` itself.
   */
  lemma SubClassesSpec(w: World, c: ClassId)
    requires WellFormed(w)
    ensures forall x :: x in SubClasses(w, c) <==> x in w.declared && IsStrictSubclass(w, x, c)
    ensures Distinct(SubClasses(w, c))
    ensures c !in SubClasses(w, c)
  {
    SubClassesInSpec(w, w.declared, c);
  }

  /** The top-most ancestor: follow parent links until a class has none. */
  function Root(w: World, c: ClassId): (r: ClassId)
    requires WellFormed(w) && c in w.declared
    ensures r in w.declared && r !in w.parent
    ensures r == c || IsStrictSubclass(w, c, r)
    decreases w.rank[c]
  {
    if c in w.parent then Root(w, w.parent[c]) else c
  }

  /** The ancestor without a parent is unique: it is `Root(w, c)`. */
  lemma {:induction false} RootUnique(w: World, c: ClassId, a: ClassId)
    requires WellFormed(w) && c in w.declared
    requires a !in w.parent && (a == c || IsStrictSubclass(w, c, a))
    ensures a == Root(w, c)
    decreases w.rank[c]
  {
    if c in w.parent {
      assert a != c;
      if w.parent[c] != a {
        RootUnique(w, w.parent[c], a);
      }
    }
  }

  /** The tagged strict subclasses of `c`. */
  ghost function TaggedDescendants(w: World, c: ClassId): set<ClassId>
    requires WellFormed(w)
  {
    set x | x in w.declared && IsStrictSubclass(w, x, c) && TagOf(w, x).Some?
  }
}
