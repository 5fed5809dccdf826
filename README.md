# DiscriminatorListener — a Dafny model

`DiscriminatorListener` is a Doctrine ORM event listener. It lets each
subclass in a single-table or joined inheritance hierarchy declare its own
discriminator tag with a `@DiscriminatorEntry(value=...)` annotation, so
the root class does not have to list the tags of all its subclasses. On
every `loadClassMetadata` event, the listener does one of three things:

- If the class already has a cache entry, it injects that entry.
- If the class's incoming discriminator map is empty, or the class has no
  tag, it does nothing.
- Otherwise it resolves the whole hierarchy:
  - climbs to the root (`checkFamily`);
  - collects every tagged strict descendant of the root (`checkChildren`,
    with `getSubClasses` enumerating the declared subclasses);
  - inverts the class-to-tag accumulator with `array_flip`;
  - writes one cache entry per collected class;
  - injects the current class's entry into its metadata record
    (`overrideMetadata`).

The model is imperative, like the source. The listener is a class whose
fields are updated in place: `classMap` is the source's `$map` and
`cachedMap` is its `$cachedMap`. The metadata record is a class with
mutable fields. Each method is proved against specification functions:

- `Walk` for the hierarchy walk;
- `Marked` and `Stored` for the cache writes;
- `Resolve` and `ResolvedCache` for a whole resolution.

Lemmas then prove what the listener promises about those functions.

The files:

- `php_arrays.dfy` models PHP arrays as ordered association lists. It
  covers assignment, read, `unset`, `array_values` and `array_flip`.
- `hierarchy.dfy` models the reflected world: the declared classes, the
  parent links, the annotations, subclass enumeration and the root.
- `resolution.dfy` is the walk of `checkChildren`.
- `cache.dfy` holds the cache entries and the facts about a resolution.
- `listener.dfy` is the listener and the metadata record.

Where the code departs from the design it was written for, the model
follows the code:

- The root's own tag is never read. `checkFamily` marks the root and walks
  its subclasses, but it never calls `extractEntry` on the root. So the
  root is in `$map`, and gets a map and a tag in the cache, only when it
  is the class being loaded.
  - `Cache.ResolveShape` and `Cache.RootEntry` state this.
  - If a child is loaded first, the root's entry holds only `isParent`.
    Loading the root afterwards then hits the cache with an entry that has
    no `map` or `discr`.
  - So the root gets its subclass list only when it is loaded first.
    That is the only case `Cache.RootSubclassList` covers.
- The store loop overwrites the `map` and `discr` of every collected class
  unconditionally, even if an entry existed (`Cache.ResolvedEntries`).
  Only a class without an entry starts a resolution. But when the declared
  classes have changed since an earlier load, that resolution rewrites the
  entries of classes cached by the earlier one.
- Only the root gets a subclass list, and only when the root itself is
  the class being loaded (`Cache.RootEntry`). The list never contains the
  root (`Cache.RootListOmitsOwnTag`). `overrideMetadata` builds it from
  the root's flipped map: `unset` drops the root's tag key and
  `array_values` reads what is left.
  - The order is the flipped map's key order: each tag at its first
    occurrence in the accumulator (`PhpArrays.FlipKeyOrder`). That is the
    walk's discovery order, not declaration order.
  - The root is removed by its tag, not by its class name. Any other
    class that shares the root's tag is dropped from the list too
    (`Cache.RootListOmitsOwnTag`).
- When two classes share a tag, `array_flip` keeps the tag at the position
  where it first appeared, but with the class that appeared last
  (`PhpArrays.FlipKeyOrder`, `PhpArrays.FlipLookup`).

## Model

| member | source | states |
|---|---|---|
| Listener.DiscriminatorListener.constructor | DiscriminatorListener.php:54-58 | A new listener starts with an empty cache and an empty accumulator |
| Listener.DiscriminatorListener.GetSubClasses | DiscriminatorListener.php:66-77 | The loop over the declared classes returns `SubClasses(w, c)`: the strict subclasses of `c`, in declaration order |
| Hierarchy.SubClassesSpec | DiscriminatorListener.php:66-77 | A class is in `getSubClasses(c)` exactly when it is declared and a strict subclass of `c` at any depth. No class occurs twice, and `c` itself never occurs |
| Hierarchy.SubclassTransitive | DiscriminatorListener.php:72 | `isSubclassOf` is transitive |
| Hierarchy.IsStrictSubclass | DiscriminatorListener.php:72 | A strict ancestor of a declared class is a declared class of smaller rank, so no class is its own strict subclass |
| Hierarchy.SubClassesIn | DiscriminatorListener.php:68-76 | The filter over a list of candidate classes keeps only candidates that are strict subclasses of `c`, and never yields more classes than it was given |
| Listener.DiscriminatorListener.ExtractEntry | DiscriminatorListener.php:168-181 | Returns true exactly when the class has a tag. If so, `classMap` is the old map with `classMap[c]` set to the tag (an existing key keeps its position). If not, `classMap` is unchanged |
| Hierarchy.TagOf | DiscriminatorListener.php:170-178 | A tag found for a class is the value of one of that class's `DiscriminatorEntry` annotations |
| Hierarchy.EntryTagSpec | DiscriminatorListener.php:172-178 | A tag is found exactly when some annotation is a `DiscriminatorEntry`, and it is the value of the last such annotation |
| PhpArrays.PutTwice | DiscriminatorListener.php:175 | Assigning the same key twice is the same as assigning only the second value |
| Listener.DiscriminatorListener.CheckChildren | DiscriminatorListener.php:151-166 | `classMap` becomes `Walk(w, old(classMap), c)`. The recursion terminates because it happens only after a new key was added, and the keys range over the finite set of declared classes |
| Resolution.Walk | DiscriminatorListener.php:151-166 | The walk only appends: the old accumulator is a prefix of the result, and all keys stay declared classes |
| Resolution.WalkKeys | DiscriminatorListener.php:151-166 | The walk from `c` adds exactly the tagged strict subclasses of `c` that were not keys yet, including those below untagged classes |
| Resolution.WalkList | DiscriminatorListener.php:157-165 | The loop over the remaining candidates only appends to the accumulator and keeps every key a declared class |
| Resolution.WalkListKeys | DiscriminatorListener.php:157-165 | Every tagged candidate of the loop ends up as a key, and only tagged strict subclasses of `c` are added |
| Resolution.TaggedDescendantsNested | DiscriminatorListener.php:157-163 | Recursing into a subclass finds nothing outside the tagged subclasses of the class being walked |
| Resolution.WalkEntries | DiscriminatorListener.php:157-164 | The walk keeps keys distinct and pairs every added class with its own tag |
| Resolution.WalkListEntries | DiscriminatorListener.php:157-165 | The same two facts for the loop over the remaining candidates |
| Hierarchy.Root | DiscriminatorListener.php:136-148 | The class `checkFamily` ends at is declared, has no parent, and is `c` or a strict ancestor of `c` |
| Hierarchy.RootUnique | DiscriminatorListener.php:139-147 | Any ancestor-or-self of `c` without a parent is that root |
| Cache.Marked | DiscriminatorListener.php:145 | Marking adds the root's key, sets its `isParent`, keeps its `map` and `discr`, and leaves every other entry as it was |
| Listener.DiscriminatorListener.CheckFamily | DiscriminatorListener.php:136-148 | The cache gets `isParent = true` on the root (`Marked`), and `classMap` becomes the walk from the root |
| Listener.DiscriminatorListener.StoreLookupEntries | DiscriminatorListener.php:110-113 | The cache becomes `Stored`: the old cache after the loop over every entry of `classMap` |
| Cache.Stored | DiscriminatorListener.php:110-112 | The store loop never removes a cache entry |
| Cache.StoredKeys | DiscriminatorListener.php:110-112 | After `n` steps of the loop, the cache keys are the old keys plus the first `n` classes |
| Cache.StoredAt | DiscriminatorListener.php:110-112 | A handled class holds the given map, its own tag from `classMap`, and its old root marker |
| Cache.StoredOutside | DiscriminatorListener.php:110-112 | A class the loop did not handle keeps its entry, or stays absent |
| Cache.StoredSpec | DiscriminatorListener.php:110-113 | After the whole loop, every class of `classMap` holds the flipped map and its own tag. Every other entry is unchanged |
| Listener.DiscriminatorListener.OverrideMetadata | DiscriminatorListener.php:119-133 | The record gets the entry's map and tag. For a root entry, it also gets the map's values in order with the own-tag key removed. Otherwise `subClasses` keeps its old value |
| Listener.DiscriminatorListener.LoadClassMetadata | DiscriminatorListener.php:82-117 | On a cache hit, the cache is unchanged and the cached entry is injected. With an empty incoming map or no tag, nothing changes, not even the record. Otherwise `classMap` is `Resolve`, the cache is `ResolvedCache`, and the class's new entry is injected |
| Cache.ResolveShape | DiscriminatorListener.php:102-103 | The accumulator holds `c` plus every tagged strict subclass of the root, each once and each with its own tag, with `c` first. The root is in it only when it is `c` |
| Cache.ResolvedTags | DiscriminatorListener.php:112 | The tag read back from the accumulator for a collected class is that class's declared tag |
| Cache.ResolvedEntries | DiscriminatorListener.php:109-113 | After a resolution, every collected class holds `array_flip` of the accumulator and its own tag |
| Cache.ResolvedFrame | DiscriminatorListener.php:109-113 | A resolution adds entries only for the root and the collected classes, and leaves every other entry as it was |
| Cache.ResolvedRootMarker | DiscriminatorListener.php:145 | After a resolution, an entry is marked as root exactly when it is the root or was marked before |
| Cache.CachedRoundTrip | DiscriminatorListener.php:109-112 | A collected class whose tag no other collected class shares finds itself under its own tag in its cached map |
| Cache.HierarchyCached | DiscriminatorListener.php:96-99 | After a resolution, every tagged class with the same root has a cache entry, so loading it later is a cache hit |
| Cache.RootEntry | DiscriminatorListener.php:122-123 | The root's entry is marked. It has a map and a tag exactly when the root was the class being loaded, or the entry already had them |
| Cache.SubclassList | DiscriminatorListener.php:127-132 | Every class in a root's subclass list is a class of the entry's map |
| Cache.RootSubclassList | DiscriminatorListener.php:126-132 | When the root is loaded first and no two classes share a tag, its subclass list holds every tagged strict subclass once, in discovery order |
| Cache.RootListOmitsOwnTag | DiscriminatorListener.php:126-132 | When the root is loaded, its list holds only collected classes whose tag differs from the root's. So the root and every class sharing its tag are left out |
| Cache.KeysTail | DiscriminatorListener.php:132 | The keys after the first one are distinct and are exactly the remaining classes |
| PhpArrays.IndexOf | DiscriminatorListener.php:175 | The position of a present key is its first occurrence |
| PhpArrays.Lookup | DiscriminatorListener.php:112 | Reading a present key gives a value stored with that key |
| PhpArrays.LookupIndex | DiscriminatorListener.php:112 | Without repeated keys, reading entry `i`'s key gives entry `i`'s value |
| PhpArrays.Put | DiscriminatorListener.php:175 | Assignment keeps the key order and appends a new key at the end. Other entries are unchanged, and the pair is present afterwards |
| PhpArrays.PutEntries | DiscriminatorListener.php:175 | After assignment, every pair was already present or is the assigned pair |
| PhpArrays.PutKeys | DiscriminatorListener.php:175 | Assignment adds exactly its key and keeps keys distinct |
| PhpArrays.PutAppends | DiscriminatorListener.php:175 | Assigning a new key appends the pair |
| PhpArrays.LookupPut | DiscriminatorListener.php:175 | After assignment, the assigned key reads back the new value and every other key its old value |
| PhpArrays.Remove | DiscriminatorListener.php:128 | `unset` of a present key shortens the array by one, and `unset` of an absent key leaves its length |
| PhpArrays.RemoveEntries | DiscriminatorListener.php:128 | `unset` keeps only pairs that were present. Without repeated keys, no remaining pair has the removed key |
| PhpArrays.RemoveKeysAt | DiscriminatorListener.php:128 | `unset` drops the key at the key's position |
| PhpArrays.RemoveKeys | DiscriminatorListener.php:128 | Without repeated keys, `unset` removes exactly that key and keeps the rest distinct |
| PhpArrays.Values | DiscriminatorListener.php:132 | `array_values` lists the values in key order, one per entry |
| PhpArrays.Flip | DiscriminatorListener.php:109 | Every pair of `array_flip` is a pair of the input with key and value exchanged |
| PhpArrays.FlipKeys | DiscriminatorListener.php:109 | The keys of `array_flip` are exactly the values, each once |
| PhpArrays.FlipKeyOrder | DiscriminatorListener.php:109 | The keys of `array_flip` are the values in order of first occurrence |
| PhpArrays.FlipLookup | DiscriminatorListener.php:109 | A value maps to the key where it occurs last |
| PhpArrays.FlipSwap | DiscriminatorListener.php:109 | Without repeated values, `array_flip` exchanges keys and values in place |
| PhpArrays.FlipFlip | DiscriminatorListener.php:109 | An array whose keys and values are all distinct comes back unchanged after flipping twice |
| PhpArrays.RemovedFlipValues | DiscriminatorListener.php:109-132 | Removing a tag key from the flip of an array with distinct keys and reading the values leaves only classes whose tag is not that key |
| PhpArrays.ValuesAfterRemovingFirst | DiscriminatorListener.php:127-132 | Without repeated values, removing the first entry's value from the flipped array and taking `array_values` leaves the remaining keys in order |

## Left out

- Annotation.php is not part of this model. It reads class annotations through Doctrine's `AnnotationReader`. The model takes each class's annotation list from the `World` value.
- DiscriminatorEntry.php is not part of this model. It only holds a value; here it is the `DiscriminatorEntry(value)` constructor of `Annotation`.
- PHP reflection becomes the abstract `World` value passed to the methods: `declared` for `get_declared_classes`, `parent` for `getParentClass`, and `isSubclassOf` as parent-link reachability. The ghost `rank` there only makes the parent links acyclic. Class autoloading is not modelled.
- `getSubscribedEvents` (lines 44-47), the `$em` field and the constructor's metadata-driver lookup (line 56) are framework wiring, so they are left out.
- Doctrine's event object is reduced to the metadata record. It keeps the fields the listener reads and writes: `name`, `discriminatorMap`, `discriminatorValue`, `subClasses`.
- The commented-out filter (lines 88-93) and the unused `$cParent` (line 159) are dead code and are left out.
- Listener.DiscriminatorListener.OverrideMetadata: requires the class's entry to hold a map and a tag. In PHP, an entry holding only `isParent` makes lines 122-123 read undefined indexes, and that notice is not modelled. Because of this precondition, the `is_array` fallback (lines 129-131) can never apply.
- Listener.DiscriminatorListener.LoadClassMetadata: requires a cached entry for the loading class to hold a map and a tag, for the same reason. `Cache.RootEntry` says when such an incomplete entry arises.
- Listener.DiscriminatorListener.StoreLookupEntries: builds the new cache in a local variable and assigns the field once, after the loop. The source assigns the field on each iteration. No other code runs in between, so nothing can observe the difference.
- Listener.DiscriminatorListener.StoreLookupEntries: receives the flipped map from `LoadClassMetadata`, which computes it as in line 109. In the source, lines 109-113 are inline in `loadClassMetadata`.
- Exceptions are not modelled. `new ReflectionClass` can throw `ReflectionException` (lines 64, 71, 138 and 158). The annotation reader can throw in `extractEntry` (line 170) while `checkChildren` runs. The model has no such failure, so it also has no partial cache of the kind such a throw leaves behind: the root marked by line 145, an entry holding only `isParent`, and no `map` or `discr` entries stored.
- PHP's conversion of numeric-string array keys to integers is not modelled. Tags and class names are plain strings, compared exactly.
- PHP compares class names case-insensitively, but `isSubclassOf`, the array keys and the annotation lookup here use exact string equality.
- The order of `$cachedMap` is never observed, so it is a Dafny `map`.
- Concurrency is left out: the listener runs single-threaded.
