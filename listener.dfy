/**
 * The listener itself: the `loadClassMetadata` handler, the metadata
 * record it writes, and the two fields it updates in place (`$map`, here
 * `classMap`, and `$cachedMap`).
 */
module Listener {
  import opened Wrappers
  import opened PhpArrays
  import opened Hierarchy
  import opened Resolution
  import opened Cache

  /** The parts of Doctrine's class metadata the listener reads and writes. */
  class ClassMetadata {
    const name: ClassId
    var discriminatorMap: Assoc<Tag, ClassId>
    var discriminatorValue: Option<Tag>
    var subClasses: seq<ClassId>

    constructor (name: ClassId, discriminatorMap: Assoc<Tag, ClassId>)
      ensures this.name == name && this.discriminatorMap == discriminatorMap
      ensures discriminatorValue == None && subClasses == []
    {
      this.name := name;
      this.discriminatorMap := discriminatorMap;
      discriminatorValue := None;
      subClasses := [];
    }
  }

  /** What `overrideMetadata` leaves in `event` when it injects entry `e`. */
  ghost predicate Injected(event: ClassMetadata, e: CacheEntry, subClassesBefore: seq<ClassId>)
    reads event
  {
    && Complete(e)
    && event.discriminatorMap == e.discrMap.value
    && event.discriminatorValue == e.discr
    && event.subClasses == if e.isParent then SubclassList(e) else subClassesBefore
  }

  class DiscriminatorListener {
    /** `$map`: the class-to-tag accumulator of the current resolution. */
    var classMap: Assoc<ClassId, Tag>
    /** `$cachedMap`: one entry per class, kept across loads. */
    var cachedMap: map<ClassId, CacheEntry>

    constructor ()
      ensures classMap == [] && cachedMap == map[]
    {
      classMap := [];
      cachedMap := map[];
    }

    /** `getSubClasses`: the declared classes that are strict subclasses of `c`, in declaration order. */
    static method GetSubClasses(w: World, c: ClassId) returns (subclasses: seq<ClassId>)
      requires WellFormed(w)
      ensures subclasses == SubClasses(w, c)
    {
      subclasses := [];
      for i := 0 to |w.declared|
        invariant subclasses == SubClassesIn(w, w.declared[..i], c)
      {
        var potentialSubclass := w.declared[i];
        assert w.declared[..i + 1][..i] == w.declared[..i];
        if IsStrictSubclass(w, potentialSubclass, c) {
          subclasses := subclasses + [potentialSubclass];
        }
      }
      assert w.declared[..|w.declared|] == w.declared;
    }

    /**
     * `extractEntry`: reads the class annotations and, for each
     * `DiscriminatorEntry`, assigns its value to `classMap[c]`.
     */
    method ExtractEntry(w: World, c: ClassId) returns (success: bool)
      modifies this`classMap
      ensures success == TagOf(w, c).Some?
      ensures classMap == if success then Put(old(classMap), c, TagOf(w, c).value) else old(classMap)
    {
      var annotations := Annotations(w, c);
      success := false;
      for i := 0 to |annotations|
        invariant success == EntryTag(annotations[..i]).Some?
        invariant classMap == if success then Put(old(classMap), c, EntryTag(annotations[..i]).value) else old(classMap)
      {
        assert annotations[..i + 1][..i] == annotations[..i];
        if annotations[i].DiscriminatorEntry? {
          if success {
            PutTwice(old(classMap), c, EntryTag(annotations[..i]).value, annotations[i].value);
          }
          classMap := Put(classMap, c, annotations[i].value);
          success := true;
        }
      }
      assert annotations[..|annotations|] == annotations;
    }

    /**
     * `checkChildren`: every subclass of `c` not yet in `classMap` whose
     * tag is found is added and has its own subclasses walked.
     */
    method CheckChildren(w: World, c: ClassId)
      requires WellFormed(w) && KeySet(classMap) <= DeclaredSet(w)
      modifies this`classMap
      ensures classMap == Walk(w, old(classMap), c)
      decreases DeclaredSet(w) - KeySet(classMap)
    {
      var subs := GetSubClasses(w, c);
      SubClassesSpec(w, c);
      ghost var start := classMap;
      for i := 0 to |subs|
        invariant KeySet(start) <= KeySet(classMap) <= DeclaredSet(w)
        invariant WalkList(w, classMap, subs[i..]) == Walk(w, start, c)
      {
        var name := subs[i];
        assert subs[i..][1..] == subs[i + 1..];
        if name !in KeySet(classMap) {
          ghost var before := classMap;
          var found := ExtractEntry(w, name);
          if found {
            PutAppends(before, name, TagOf(w, name).value);
            KeysConcat(before, [(name, TagOf(w, name).value)]);
            KeySetSingle(name, TagOf(w, name).value);
            CheckChildren(w, name);
          }
        }
      }
    }

    /**
     * `checkFamily`: climbs to the class without a parent, marks it as the
     * root in the cache and walks its subclasses.
     */
    method CheckFamily(w: World, c: ClassId)
      requires WellFormed(w) && c in w.declared && KeySet(classMap) <= DeclaredSet(w)
      modifies this
      ensures cachedMap == Marked(old(cachedMap), Root(w, c))
      ensures classMap == Walk(w, old(classMap), Root(w, c))
      decreases w.rank[c]
    {
      if c in w.parent {
        CheckFamily(w, w.parent[c]);
      } else {
        cachedMap := cachedMap[c := EntryOf(cachedMap, c).(isParent := true)];
        CheckChildren(w, c);
      }
    }

    /**
     * The store loop of `loadClassMetadata`: every class of `classMap`
     * gets the flipped accumulator and its own tag in its cache entry.
     */
    method StoreLookupEntries(dMap: Assoc<Tag, ClassId>)
      modifies this`cachedMap
      ensures cachedMap == Stored(old(cachedMap), classMap, |classMap|, dMap)
    {
      var m, cache := classMap, cachedMap;
      for i := 0 to |m|
        invariant cache == Stored(cachedMap, m, i, dMap)
      {
        var cName := m[i].0;
        assert Keys(m)[i] == cName;
        cache := cache[cName := EntryOf(cache, cName).(discrMap := Some(dMap))];
        cache := cache[cName := cache[cName].(discr := Some(Lookup(m, cName)))];
      }
      cachedMap := cache;
    }

    /**
     * `overrideMetadata`: copies the class's cached map and tag into the
     * record and, for the root, the subclass list.  The entry must hold a
     * map and a tag (otherwise the source reads an undefined index).
     */
    method OverrideMetadata(event: ClassMetadata, c: ClassId)
      requires c in cachedMap && Complete(cachedMap[c])
      modifies event
      ensures Injected(event, cachedMap[c], old(event.subClasses))
    {
      var e := cachedMap[c];
      event.discriminatorMap := e.discrMap.value;
      event.discriminatorValue := e.discr;
      if e.isParent {
        // The `is_array` fallback cannot apply: the entry's map is always an array here.
        var subclasses := Remove(e.discrMap.value, e.discr.value);
        event.subClasses := Values(subclasses);
      }
    }

    /**
     * `loadClassMetadata`: a cache hit injects the cached entry; a class
     * with an empty incoming map or no tag is left alone; otherwise the
     * whole hierarchy is resolved, one entry per resolved class is stored,
     * and the current class is injected.
     */
    method LoadClassMetadata(w: World, event: ClassMetadata)
      requires WellFormed(w) && event.name in w.declared
      requires event.name in cachedMap ==> Complete(cachedMap[event.name])
      modifies this, event
      ensures event.name in old(cachedMap) ==>
        && classMap == [] && cachedMap == old(cachedMap)
        && Injected(event, EntryOf(cachedMap, event.name), old(event.subClasses))
      ensures event.name !in old(cachedMap) && (|old(event.discriminatorMap)| == 0 || TagOf(w, event.name).None?) ==>
        classMap == [] && cachedMap == old(cachedMap) && unchanged(event)
      ensures event.name !in old(cachedMap) && |old(event.discriminatorMap)| != 0 && TagOf(w, event.name).Some? ==>
        && classMap == Resolve(w, event.name)
        && cachedMap == ResolvedCache(old(cachedMap), w, event.name)
        && Injected(event, EntryOf(cachedMap, event.name), old(event.subClasses))
    {
      classMap := [];
      var c := event.name;

      if c in cachedMap {
        OverrideMetadata(event, c);
        return;
      }

      if |event.discriminatorMap| == 0 {
        return;
      }
      var found := ExtractEntry(w, c);
      if !found {
        return;
      }
      KeySetSingle(c, TagOf(w, c).value);
      PutAppends([], c, TagOf(w, c).value);
      assert classMap == [(c, TagOf(w, c).value)];
      CheckFamily(w, c);
      assert classMap == Resolve(w, c);
      ghost var marked := cachedMap;
      assert marked == Marked(old(cachedMap), Root(w, c));

      var dMap := Flip(classMap);
      StoreLookupEntries(dMap);
      assert cachedMap == ResolvedCache(old(cachedMap), w, c);
      assert c in KeySet(classMap) && Complete(cachedMap[c]) by {
        ResolveShape(w, c);
        ResolvedEntries(old(cachedMap), w, c);
      }

      OverrideMetadata(event, c);
    }
  }
}
