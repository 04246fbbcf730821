/**
 * Namespace dispatch: resolving a dotted call path such as "scheduler.jobs.run" on an
 * agent to the sub-object reached through namespace accessors and the leaf method name.
 *
 * Java reflection is replaced by an explicit object graph: every object carries its class
 * name and its namespace-annotated zero-argument accessors, in the order reflection lists
 * them. The graph is an inductive datatype, so it is finite and acyclic by construction,
 * which is exactly what the source's unguarded recursion in `populateCache` needs.
 *
 * The source keeps one process-wide cache from "ClassName[.ns1.ns2...]" to the chain of
 * accessor names that leads there; here the cache is threaded through explicitly.
 */
module NamespaceUtil {
  import opened Results
  import opened JavaStrings

  /** An object reachable by namespace hops. */
  datatype Obj = Obj(className: string, accessors: seq<Accessor>)

  /** A zero-argument accessor annotated with a namespace: the annotation's value, the
      accessor's method name, and the object it returns. */
  datatype Accessor = Accessor(namespace: string, methodName: string, target: Obj)

  /** Full path -> the accessor names to apply, as stored by `populateCache`. */
  type Cache = map<string, seq<string>>

  /** The source's CallTuple: the object to invoke on and the method name. */
  datatype CallTuple = CallTuple(destination: Obj, methodName: string)

  /** The two exceptions resolution can raise: a full path population did not produce, and
      a cached accessor name the object at hand does not have. */
  datatype ResolveError = NonResolvable(fullPath: string) | NoSuchMethod(name: string)

  /** The outcome of one resolution: the cache afterwards and the result or the failure. */
  datatype Resolution = Resolution(cache: Cache, result: Result<CallTuple, ResolveError>)

  // ----- splitting the call path -----

  /** `path.replaceAll(".*\\.", "")`: everything after the last dot. */
  function ReducedMethod(path: string): (r: string)
    ensures Free(r, '.')
    ensures |r| <= |path| && r == path[|path| - |r|..]
    ensures Free(path, '.') ==> r == path
  {
    path[LastIndexOf(path, '.') + 1..]
  }

  /** `path.replaceFirst("\\.?[^.]+$", "")`: the path without its last segment. The pattern
      needs a non-empty dot-free tail, so a path that is empty or ends with a dot is
      returned unchanged. */
  function ReducedPath(path: string): (r: string)
    ensures |path| == 0 || path[|path| - 1] == '.' ==> r == path
    ensures |path| > 0 && Free(path, '.') ==> r == ""
    ensures !Free(path, '.') && path[|path| - 1] != '.' ==>
              r + "." + ReducedMethod(path) == path && ReducedMethod(path) != ""
  {
    var last := LastIndexOf(path, '.');
    if last == |path| - 1 then path
    else if last == -1 then ""
    else
      assert path == path[..last] + "." + path[last + 1..];
      path[..last]
  }

  /** The cache key: the class name, extended by "." + reducedPath when that is non-empty. */
  function FullPath(className: string, reducedPath: string): (r: string)
    ensures reducedPath == "" ==> r == className
    ensures reducedPath != "" ==> r == className + "." + reducedPath
  {
    if reducedPath == "" then className else className + "." + reducedPath
  }

  // ----- populateCache -----

  /** `populateCache(dest, path, methods)` from accessor `i` on: every accessor's subtree is
      populated in turn, then `path` itself is stored with `methods.split("\\.")`. */
  function PopulateFrom(dest: Obj, i: nat, path: string, methods: string, cache: Cache): Cache
    requires i <= |dest.accessors|
    decreases dest, |dest.accessors| - i
  {
    if i == |dest.accessors| then cache[path := Split(methods, '.', 0)]
    else
      var a := dest.accessors[i];
      var afterChild := PopulateFrom(a.target, 0, path + "." + a.namespace, methods + "." + a.methodName, cache);
      PopulateFrom(dest, i + 1, path, methods, afterChild)
  }

  /** `populateCache(dest, path, methods)`: whatever was cached before, afterwards the
      cache holds the entries of the reference definition below on top of it. */
  function Populate(dest: Obj, path: string, methods: string, cache: Cache): (r: Cache)
    ensures r == cache + Entries(dest, path, methods)
  {
    PopulateFromOverwrites(dest, 0, path, methods, cache);
    PopulateFrom(dest, 0, path, methods, cache)
  }

  /** Reference definition: the entries population writes, independent of the cache it
      starts from. Later writes win, so later accessors' subtrees override earlier ones and
      the entry for `path` itself overrides them all. */
  function EntriesFrom(dest: Obj, i: nat, path: string, methods: string): Cache
    requires i <= |dest.accessors|
    decreases dest, |dest.accessors| - i
  {
    if i == |dest.accessors| then map[path := Split(methods, '.', 0)]
    else
      var a := dest.accessors[i];
      EntriesFrom(a.target, 0, path + "." + a.namespace, methods + "." + a.methodName)
        + EntriesFrom(dest, i + 1, path, methods)
  }

  function Entries(dest: Obj, path: string, methods: string): Cache {
    EntriesFrom(dest, 0, path, methods)
  }

  lemma UnionAssociates<K, V>(a: map<K, V>, b: map<K, V>, c: map<K, V>)
    ensures (a + b) + c == a + (b + c)
  {
  }

  /** Population overwrites the cache with a fixed set of entries: whatever was cached
      before, the keys it writes end up holding the same chains. */
  lemma {:induction false} PopulateFromOverwrites(dest: Obj, i: nat, path: string, methods: string, cache: Cache)
    requires i <= |dest.accessors|
    ensures PopulateFrom(dest, i, path, methods, cache) == cache + EntriesFrom(dest, i, path, methods)
    decreases dest, |dest.accessors| - i
  {
    if i < |dest.accessors| {
      var a := dest.accessors[i];
      var p', m' := path + "." + a.namespace, methods + "." + a.methodName;
      var afterChild := PopulateFrom(a.target, 0, p', m', cache);
      var e1, e2 := EntriesFrom(a.target, 0, p', m'), EntriesFrom(dest, i + 1, path, methods);
      PopulateFromOverwrites(a.target, 0, p', m', cache);
      assert afterChild == cache + e1;
      PopulateFromOverwrites(dest, i + 1, path, methods, afterChild);
      assert PopulateFrom(dest, i, path, methods, cache) == afterChild + e2;
      assert EntriesFrom(dest, i, path, methods) == e1 + e2;
      UnionAssociates(cache, e1, e2);
    }
  }

  /** The class's own key always ends up mapped to the chain of `methods`. */
  lemma {:induction false} EntriesFromRoot(dest: Obj, i: nat, path: string, methods: string)
    requires i <= |dest.accessors|
    ensures path in EntriesFrom(dest, i, path, methods)
    ensures EntriesFrom(dest, i, path, methods)[path] == Split(methods, '.', 0)
    decreases |dest.accessors| - i
  {
    if i < |dest.accessors| {
      var rest := EntriesFrom(dest, i + 1, path, methods);
      EntriesFromRoot(dest, i + 1, path, methods);
      assert path in rest && rest[path] == Split(methods, '.', 0);
      EntriesFromStep(dest, i, path, methods);
    }
  }

  /** Every key population writes is `path` itself or lies under `path + "."`. */
  lemma {:induction false} EntriesFromKeys(dest: Obj, i: nat, path: string, methods: string, k: string)
    requires i <= |dest.accessors|
    requires k in EntriesFrom(dest, i, path, methods)
    ensures k == path || StartsWith(k, path + ".")
    decreases dest, |dest.accessors| - i
  {
    if i < |dest.accessors| {
      var a := dest.accessors[i];
      var p' := path + "." + a.namespace;
      if k in EntriesFrom(a.target, 0, p', methods + "." + a.methodName) {
        EntriesFromKeys(a.target, 0, p', methods + "." + a.methodName, k);
        assert k[..|path + "."|] == p'[..|path + "."|];
      } else {
        EntriesFromKeys(dest, i + 1, path, methods, k);
      }
    }
  }

  // ----- applying the chain -----

  /** `getClass().getMethod(name)` among the namespace accessors: the object it returns. */
  function FindAccessor(accessors: seq<Accessor>, name: string): (r: Option<Obj>)
    ensures r.None? <==> forall i :: 0 <= i < |accessors| ==> accessors[i].methodName != name
    ensures r.Some? ==> exists i :: 0 <= i < |accessors| && accessors[i].methodName == name && accessors[i].target == r.value
  {
    if |accessors| == 0 then None
    else if accessors[0].methodName == name then Some(accessors[0].target)
    else
      var r := FindAccessor(accessors[1..], name);
      assert r.Some? ==> accessors[1..][0..] == accessors[1..];
      r
  }

  /** Invokes the cached accessors in order, skipping the empty names. */
  function Walk(dest: Obj, chain: seq<string>): (r: Result<Obj, ResolveError>)
    ensures r.Failure? ==> r.error.NoSuchMethod? && r.error.name in chain && r.error.name != ""
    decreases |chain|
  {
    if |chain| == 0 then Success(dest)
    else if chain[0] == "" then Walk(dest, chain[1..])
    else match FindAccessor(dest.accessors, chain[0])
      case None => Failure(NoSuchMethod(chain[0]))
      case Some(next) => Walk(next, chain[1..])
  }

  // ----- _get -----

  /** `_get(destination, path)` against `cache`: populate on a miss, fail if the key is
      still missing, otherwise apply the chain and pair the object with the leaf name. */
  function Get(cache: Cache, dest: Obj, path: string): (r: Resolution)
    ensures var key := FullPath(dest.className, ReducedPath(path));
            && (key in cache ==> r.cache == cache)
            && (key !in cache ==> r.cache == cache + Entries(dest, dest.className, ""))
            && (key !in r.cache <==> r.result == Failure(NonResolvable(key)))
    ensures r.result.Success? ==> r.result.value.methodName == ReducedMethod(path)
  {
    var key := FullPath(dest.className, ReducedPath(path));
    var c := if key in cache then cache else Populate(dest, dest.className, "", cache);
    ApplyCached(c, dest, key, ReducedMethod(path))
  }

  /** The lookup half of `_get`, on a cache already populated: a missing key is
      non-resolvable, otherwise the chain is walked and the object paired with `name`. */
  function ApplyCached(c: Cache, dest: Obj, key: string, name: string): (r: Resolution)
    ensures r.cache == c
    ensures key !in c <==> r.result == Failure(NonResolvable(key))
    ensures r.result.Success? ==> r.result.value.methodName == name
  {
    if key !in c then Resolution(c, Failure(NonResolvable(key)))
    else match Walk(dest, c[key])
      case Failure(e) => Resolution(c, Failure(e))
      case Success(target) => Resolution(c, Success(CallTuple(target, name)))
  }

  /** Resolving the same path again, with the cache the first resolution left behind,
      changes nothing and gives the same answer. */
  lemma ResolveTwice(cache: Cache, dest: Obj, path: string)
    ensures var first := Get(cache, dest, path);
            Get(first.cache, dest, path) == first
  {
    var first := Get(cache, dest, path);
    var key := FullPath(dest.className, ReducedPath(path));
    var name := ReducedMethod(path);
    var e := Entries(dest, dest.className, "");
    var c := first.cache;
    assert first == ApplyCached(c, dest, key, name);
    if key !in c {
      assert key !in cache;
      assert c == cache + e;
      OverwriteTwice(cache, e);
    }
  }

  lemma OverwriteTwice(c: Cache, e: Cache)
    ensures (c + e) + e == c + e
  {
  }

  // ----- what resolution means on a well-formed object graph -----

  /** Namespace values and accessor names are non-empty, dot-free, and distinct among the
      accessors of one object (Java cannot declare two zero-argument methods of one name). */
  predicate WellFormed(dest: Obj)
    decreases dest
  {
    && (forall i :: 0 <= i < |dest.accessors| ==>
          var a := dest.accessors[i];
          a.namespace != "" && Free(a.namespace, '.') && a.methodName != "" && Free(a.methodName, '.'))
    && (forall i, j :: 0 <= i < j < |dest.accessors| ==>
          dest.accessors[i].namespace != dest.accessors[j].namespace
          && dest.accessors[i].methodName != dest.accessors[j].methodName)
    && (forall i :: 0 <= i < |dest.accessors| ==> WellFormed(dest.accessors[i].target))
  }

  /** The first accessor declaring namespace `ns`, or -1. */
  function NamespaceIndex(accessors: seq<Accessor>, ns: string): (r: int)
    ensures -1 <= r < |accessors|
    ensures r == -1 <==> forall i :: 0 <= i < |accessors| ==> accessors[i].namespace != ns
    ensures r != -1 ==> accessors[r].namespace == ns
  {
    if |accessors| == 0 then -1
    else if accessors[0].namespace == ns then 0
    else
      var r := NamespaceIndex(accessors[1..], ns);
      if r == -1 then -1 else r + 1
  }

  /** Reference semantics: follow the namespaces `ns` from `dest` by name, giving the object
      reached and the accessor names passed on the way. */
  function Follow(dest: Obj, ns: seq<string>): Option<(Obj, seq<string>)>
    decreases |ns|
  {
    if |ns| == 0 then Some((dest, []))
    else
      var j := NamespaceIndex(dest.accessors, ns[0]);
      if j == -1 then None
      else match Follow(dest.accessors[j].target, ns[1..])
        case None => None
        case Some((t, names)) => Some((t, [dest.accessors[j].methodName] + names))
  }

  /** "." + x for every x, concatenated: how population extends paths and method lists. */
  function Dotted(xs: seq<string>): (r: string)
    ensures r == "" || r[0] == '.'
  {
    if |xs| == 0 then "" else "." + xs[0] + Dotted(xs[1..])
  }

  lemma DottedCons(name: string, xs: seq<string>)
    ensures Dotted([name] + xs) == "." + name + Dotted(xs)
  {
    assert ([name] + xs)[1..] == xs;
  }

  /** Every entry of `c` is an entry of `e`. */
  predicate Within(c: Cache, e: Cache) {
    forall k :: k in c ==> k in e && c[k] == e[k]
  }

  /** A cache that holds nothing but entries of this object graph (the empty cache, or one
      left by resolutions on it). */
  predicate CacheOf(cache: Cache, dest: Obj) {
    Within(cache, Entries(dest, dest.className, ""))
  }

  /** Whether `k` is the cache key of class `cls` itself or of one of its namespaces. */
  predicate UnderClass(k: string, cls: string) {
    k == cls || StartsWith(k, cls + ".")
  }

  /** The static cache is shared by every class: this graph's part of it, the keys under its
      class name, holds only this graph's entries, whatever other classes have cached. */
  predicate ClassCacheOf(cache: Cache, dest: Obj) {
    WithinUnder(cache, Entries(dest, dest.className, ""), dest.className)
  }

  /** Every entry of `c` under class `cls` is an entry of `e`. */
  predicate WithinUnder(c: Cache, e: Cache, cls: string) {
    forall k :: k in c && UnderClass(k, cls) ==> k in e && c[k] == e[k]
  }

  /** Adding the entries a cache's part for `cls` lies within keeps that part within them. */
  lemma WithinUnderUnion(c: Cache, e: Cache, cls: string)
    requires WithinUnder(c, e, cls)
    ensures WithinUnder(c + e, e, cls)
  {
  }

  /** A cache of this graph alone is in particular one whose part for this class is right. */
  lemma CacheOfIsClassCacheOf(cache: Cache, dest: Obj)
    requires CacheOf(cache, dest)
    ensures ClassCacheOf(cache, dest)
  {
  }

  /** Another class's resolutions leave this class's part of the cache as it was: an entry
      cached for class "B" does not disturb a graph of class "A". */
  lemma ForeignEntryKeepsClassCacheOf(dest: Obj, chain: seq<string>)
    requires dest.className == "A"
    ensures ClassCacheOf(map["B" := chain], dest)
    ensures !CacheOf(map["B" := chain], dest)
  {
    var e := Entries(dest, dest.className, "");
    if "B" in e {
      EntriesFromKeys(dest, 0, dest.className, "", "B");
    }
  }

  /** `_get` keeps this class's part of the cache right, whatever the rest holds. */
  lemma GetKeepsClassCacheOf(cache: Cache, dest: Obj, path: string)
    requires ClassCacheOf(cache, dest)
    ensures ClassCacheOf(Get(cache, dest, path).cache, dest)
  {
    var e := Entries(dest, dest.className, "");
    var key := FullPath(dest.className, ReducedPath(path));
    if key !in cache {
      WithinUnderUnion(cache, e, dest.className);
    }
  }

  /** Adding the entries a cache already lies within keeps it within them. */
  lemma WithinUnion(c: Cache, e: Cache)
    requires Within(c, e)
    ensures Within(c + e, e)
  {
  }

  lemma GetKeepsCacheOf(cache: Cache, dest: Obj, path: string)
    requires CacheOf(cache, dest)
    ensures CacheOf(Get(cache, dest, path).cache, dest)
  {
    var e := Entries(dest, dest.className, "");
    var key := FullPath(dest.className, ReducedPath(path));
    if key !in cache {
      WithinUnion(cache, e);
    }
  }

  lemma {:induction false} JoinIsDotted(xs: seq<string>)
    requires |xs| >= 1
    ensures Join(xs, ".") == xs[0] + Dotted(xs[1..])
    decreases |xs|
  {
    if |xs| > 1 {
      JoinIsDotted(xs[1..]);
    }
  }

  /** The chain population stores for the accessor names `names`: `"" + Dotted(names)`
      split at the dots is the empty name followed by the accessor names. */
  lemma ChainOfNames(names: seq<string>)
    requires forall i :: 0 <= i < |names| ==> names[i] != "" && Free(names[i], '.')
    ensures Split(Dotted(names), '.', 0) == [""] + names
  {
    if |names| == 0 {
      assert Free(Dotted(names), '.');
    } else {
      var xs := [""] + names;
      assert Join(xs, ".") == Dotted(names) by {
        JoinIsDotted(xs);
        assert xs[1..] == names;
      }
      assert xs[|xs| - 1] == names[|names| - 1];
      EmptyThenFree(names);
      SplitZeroOfJoin(xs, '.');
    }
  }

  /** The empty name followed by dot-free names is a sequence of dot-free pieces. */
  lemma EmptyThenFree(names: seq<string>)
    requires forall i :: 0 <= i < |names| ==> Free(names[i], '.')
    ensures forall i :: 0 <= i < |[""] + names| ==> Free(([""] + names)[i], '.')
  {
    forall i | 0 <= i < |[""] + names|
      ensures Free(([""] + names)[i], '.')
    {
      if i > 0 {
        assert ([""] + names)[i] == names[i - 1];
      }
    }
  }

  /** Distinct dot-free segments cannot produce the same key, or one key under the other. */
  lemma SegmentsDiffer(n: string, rest: string, x: string)
    requires Free(n, '.') && Free(x, '.')
    requires rest == "" || rest[0] == '.'
    requires n + rest == x || StartsWith(n + rest, x + ".")
    ensures n == x
  {
    var s := n + rest;
    var k := IndexOf(s, '.');
    assert k == (if rest == "" then -1 else |n|) by {
      if rest != "" {
        assert s[|n|] == '.';
        assert s[..|n|] == n;
      } else {
        assert s == n;
      }
    }
    if s == x {
      assert k == -1;
      assert s == n;
    } else {
      assert s[|x|] == (x + ".")[|x|];
      assert s[..|x|] == x;
      assert k == |x|;
      assert s[..|n|] == n;
    }
  }

  /** The key `path + Dotted(ns)` is never written by the subtree of an accessor whose
      namespace differs from `ns[0]`. */
  lemma OtherSubtreeLacksKey(a: Accessor, path: string, methods: string, ns: seq<string>)
    requires |ns| >= 1 && Free(ns[0], '.') && Free(a.namespace, '.') && a.namespace != ns[0]
    ensures path + Dotted(ns) !in Entries(a.target, path + "." + a.namespace, methods + "." + a.methodName)
  {
    var key := path + Dotted(ns);
    var p' := path + "." + a.namespace;
    var m' := methods + "." + a.methodName;
    KeyNotUnder(path, ns, a.namespace);
    if key in Entries(a.target, p', m') {
      EntriesFromKeys(a.target, 0, p', m', key);
    }
  }

  /** The key of namespace path `ns` is neither the key of a sibling namespace `x` nor
      below it. */
  lemma KeyNotUnder(path: string, ns: seq<string>, x: string)
    requires |ns| >= 1 && Free(ns[0], '.') && Free(x, '.') && x != ns[0]
    ensures path + Dotted(ns) != path + "." + x
    ensures !StartsWith(path + Dotted(ns), path + "." + x + ".")
  {
    var key := path + Dotted(ns);
    var rest := Dotted(ns[1..]);
    var tail := ns[0] + rest;
    assert key == (path + ".") + tail;
    if key == path + "." + x || StartsWith(key, path + "." + x + ".") {
      assert path + "." + x == (path + ".") + x;
      KeyTailClash(path + ".", tail, x);
      SegmentsDiffer(ns[0], rest, x);
    }
  }

  /** Stripping a common prefix: a key `pre + tail` that is `pre + x` or lies under it
      has a tail that is `x` or lies under `x`. */
  lemma KeyTailClash(pre: string, tail: string, x: string)
    requires pre + tail == pre + x || StartsWith(pre + tail, pre + x + ".")
    ensures tail == x || StartsWith(tail, x + ".")
  {
    var key := pre + tail;
    assert key[|pre|..] == tail;
    if key != pre + x {
      assert key[..|pre + x + "."|] == pre + x + ".";
      assert tail[..|x + "."|] == key[|pre|..|pre + x + "."|];
      assert (pre + x + ".")[|pre|..] == x + ".";
    } else {
      assert (pre + x)[|pre|..] == x;
    }
  }

  /** The entries written by the subtree of accessor `l`. */
  function Subtree(dest: Obj, l: nat, path: string, methods: string): Cache
    requires l < |dest.accessors|
  {
    var a := dest.accessors[l];
    Entries(a.target, path + "." + a.namespace, methods + "." + a.methodName)
  }

  lemma UnionRight<K, V>(a: map<K, V>, b: map<K, V>, k: K)
    requires k !in a
    ensures k in a + b <==> k in b
    ensures k in b ==> (a + b)[k] == b[k]
  {
  }

  lemma UnionLeft<K, V>(a: map<K, V>, b: map<K, V>, k: K)
    requires k !in b
    ensures k in a + b <==> k in a
    ensures k in a ==> (a + b)[k] == a[k]
  {
  }

  /** The entries from accessor `i` on: its subtree's, then those of the accessors after it. */
  lemma EntriesFromStep(dest: Obj, i: nat, path: string, methods: string)
    requires i < |dest.accessors|
    ensures EntriesFrom(dest, i, path, methods) == Subtree(dest, i, path, methods) + EntriesFrom(dest, i + 1, path, methods)
  {
  }

  /** A key that no accessor from `i` on writes, and that is not `path`, is absent. */
  lemma {:induction false} EntriesFromLacks(dest: Obj, i: nat, path: string, methods: string, key: string)
    requires i <= |dest.accessors|
    requires key != path
    requires forall l :: i <= l < |dest.accessors| ==> key !in Subtree(dest, l, path, methods)
    ensures key !in EntriesFrom(dest, i, path, methods)
    decreases |dest.accessors| - i
  {
    if i < |dest.accessors| {
      var sub, rest := Subtree(dest, i, path, methods), EntriesFrom(dest, i + 1, path, methods);
      assert key !in sub;
      EntriesFromLacks(dest, i + 1, path, methods, key);
      assert key !in rest;
      EntriesFromStep(dest, i, path, methods);
    }
  }

  /** A key that only accessor `j` writes, and that is not `path`, holds what `j` wrote. */
  lemma {:induction false} EntriesFromOnly(dest: Obj, i: nat, j: nat, path: string, methods: string, key: string)
    requires i <= j < |dest.accessors|
    requires key != path
    requires forall l :: i <= l < |dest.accessors| && l != j ==> key !in Subtree(dest, l, path, methods)
    ensures key in EntriesFrom(dest, i, path, methods) <==> key in Subtree(dest, j, path, methods)
    ensures key in Subtree(dest, j, path, methods) ==>
              EntriesFrom(dest, i, path, methods)[key] == Subtree(dest, j, path, methods)[key]
    decreases j - i
  {
    if i < j {
      assert key !in Subtree(dest, i, path, methods);
      EntriesFromSkip(dest, i, path, methods, key);
      EntriesFromOnly(dest, i + 1, j, path, methods, key);
      Agrees(EntriesFrom(dest, i, path, methods), EntriesFrom(dest, i + 1, path, methods),
             Subtree(dest, j, path, methods), key);
    } else {
      EntriesFromOwn(dest, j, path, methods, key);
    }
  }

  /** Two maps that agree on `k` with a third agree with each other on it. */
  lemma Agrees<K, V>(a: map<K, V>, b: map<K, V>, c: map<K, V>, k: K)
    requires (k in a <==> k in b) && (k in b ==> a[k] == b[k])
    requires (k in b <==> k in c) && (k in c ==> b[k] == c[k])
    ensures (k in a <==> k in c) && (k in c ==> a[k] == c[k])
  {
  }

  /** An accessor whose subtree lacks `key` leaves the entry for `key` as later ones make it. */
  lemma EntriesFromSkip(dest: Obj, i: nat, path: string, methods: string, key: string)
    requires i < |dest.accessors|
    requires key !in Subtree(dest, i, path, methods)
    ensures key in EntriesFrom(dest, i, path, methods) <==> key in EntriesFrom(dest, i + 1, path, methods)
    ensures key in EntriesFrom(dest, i + 1, path, methods) ==>
              EntriesFrom(dest, i, path, methods)[key] == EntriesFrom(dest, i + 1, path, methods)[key]
  {
    EntriesFromStep(dest, i, path, methods);
    UnionRight(Subtree(dest, i, path, methods), EntriesFrom(dest, i + 1, path, methods), key);
  }

  /** When no later accessor writes `key`, the entries from accessor `j` on hold `key` as its
      subtree does. */
  lemma EntriesFromOwn(dest: Obj, j: nat, path: string, methods: string, key: string)
    requires j < |dest.accessors|
    requires key != path
    requires forall l :: j < l < |dest.accessors| ==> key !in Subtree(dest, l, path, methods)
    ensures key in EntriesFrom(dest, j, path, methods) <==> key in Subtree(dest, j, path, methods)
    ensures key in Subtree(dest, j, path, methods) ==>
              EntriesFrom(dest, j, path, methods)[key] == Subtree(dest, j, path, methods)[key]
  {
    EntriesFromLacks(dest, j + 1, path, methods, key);
    EntriesFromStep(dest, j, path, methods);
    UnionLeft(Subtree(dest, j, path, methods), EntriesFrom(dest, j + 1, path, methods), key);
  }

  /** Below `path`, the key of namespace path `ns` is written only by the subtree of the
      accessor declaring namespace `ns[0]`, if there is one. */
  lemma KeyOwner(dest: Obj, path: string, methods: string, ns: seq<string>)
    requires WellFormed(dest)
    requires |ns| >= 1 && Free(ns[0], '.')
    ensures var j := NamespaceIndex(dest.accessors, ns[0]);
            forall l :: 0 <= l < |dest.accessors| && l != j ==>
              path + Dotted(ns) !in Subtree(dest, l, path, methods)
  {
    var j := NamespaceIndex(dest.accessors, ns[0]);
    forall l | 0 <= l < |dest.accessors| && l != j
      ensures path + Dotted(ns) !in Subtree(dest, l, path, methods)
    {
      var a := dest.accessors[l];
      assert a.namespace != ns[0] by {
        if j != -1 && l < j {
          assert dest.accessors[l].namespace != dest.accessors[j].namespace;
        } else if j != -1 {
          assert dest.accessors[j].namespace != dest.accessors[l].namespace;
        }
      }
      OtherSubtreeLacksKey(a, path, methods, ns);
    }
  }

  /** On a well-formed graph, population writes the key of a namespace path exactly when the
      path can be followed, and then stores the accessor names along it. */
  lemma {:induction false} EntryOfNamespacePath(dest: Obj, path: string, methods: string, ns: seq<string>)
    requires WellFormed(dest)
    requires forall i :: 0 <= i < |ns| ==> Free(ns[i], '.')
    ensures path + Dotted(ns) in Entries(dest, path, methods) <==> Follow(dest, ns).Some?
    ensures Follow(dest, ns).Some? ==>
              Entries(dest, path, methods)[path + Dotted(ns)] == Split(methods + Dotted(Follow(dest, ns).value.1), '.', 0)
    decreases |ns|
  {
    if |ns| == 0 {
      EntriesFromRoot(dest, 0, path, methods);
      assert path + Dotted(ns) == path;
      assert Follow(dest, ns) == Some((dest, []));
      assert methods + Dotted([]) == methods;
    } else {
      var j := NamespaceIndex(dest.accessors, ns[0]);
      if j == -1 {
        EntryOfMissingNamespace(dest, path, methods, ns);
      } else {
        var a := dest.accessors[j];
        EntryOfNamespacePath(a.target, path + "." + a.namespace, methods + "." + a.methodName, ns[1..]);
        EntryThroughAccessor(dest, path, methods, ns);
      }
    }
  }

  /** A namespace path whose first namespace no accessor declares has no entry. */
  lemma EntryOfMissingNamespace(dest: Obj, path: string, methods: string, ns: seq<string>)
    requires WellFormed(dest)
    requires |ns| >= 1 && Free(ns[0], '.')
    requires NamespaceIndex(dest.accessors, ns[0]) == -1
    ensures path + Dotted(ns) !in Entries(dest, path, methods)
    ensures Follow(dest, ns).None?
  {
    var key := path + Dotted(ns);
    assert key == path + "." + ns[0] + Dotted(ns[1..]);
    assert key != path;
    KeyOwner(dest, path, methods, ns);
    EntriesFromLacks(dest, 0, path, methods, key);
  }

  /** One step of the walk down a namespace path: what holds for the rest of the path below
      the accessor declaring `ns[0]` holds for the whole path here. */
  lemma EntryThroughAccessor(dest: Obj, path: string, methods: string, ns: seq<string>)
    requires WellFormed(dest)
    requires |ns| >= 1 && Free(ns[0], '.')
    requires NamespaceIndex(dest.accessors, ns[0]) != -1
    requires var a := dest.accessors[NamespaceIndex(dest.accessors, ns[0])];
             var sub := Entries(a.target, path + "." + a.namespace, methods + "." + a.methodName);
             var key := path + "." + a.namespace + Dotted(ns[1..]);
             var rest := Follow(a.target, ns[1..]);
             && (key in sub <==> rest.Some?)
             && (rest.Some? ==> sub[key] == Split(methods + "." + a.methodName + Dotted(rest.value.1), '.', 0))
    ensures path + Dotted(ns) in Entries(dest, path, methods) <==> Follow(dest, ns).Some?
    ensures Follow(dest, ns).Some? ==>
              Entries(dest, path, methods)[path + Dotted(ns)] == Split(methods + Dotted(Follow(dest, ns).value.1), '.', 0)
  {
    var j := NamespaceIndex(dest.accessors, ns[0]);
    var a := dest.accessors[j];
    EntryInOwner(dest, path, methods, ns);
    FollowThrough(dest, ns);
    ChainStep(Entries(dest, path, methods), Subtree(dest, j, path, methods), path + Dotted(ns),
              Follow(dest, ns), Follow(a.target, ns[1..]), methods, a.methodName);
  }

  /** The bookkeeping of one step, over plain values: an entry that agrees with the owning
      subtree's, where following agrees with following the rest, stores the longer chain. */
  lemma ChainStep(e: Cache, sub: Cache, key: string, f: Option<(Obj, seq<string>)>,
                  rest: Option<(Obj, seq<string>)>, methods: string, name: string)
    requires (key in e <==> key in sub) && (key in sub ==> e[key] == sub[key])
    requires (f.Some? <==> rest.Some?) && (rest.Some? ==> f.value == (rest.value.0, [name] + rest.value.1))
    requires key in sub <==> rest.Some?
    requires rest.Some? ==> sub[key] == Split(methods + "." + name + Dotted(rest.value.1), '.', 0)
    ensures key in e <==> f.Some?
    ensures f.Some? ==> e[key] == Split(methods + Dotted(f.value.1), '.', 0)
  {
    if rest.Some? {
      DottedCons(name, rest.value.1);
      assert methods + "." + name + Dotted(rest.value.1) == methods + Dotted(f.value.1);
    }
  }

  /** The key of a namespace path is found in the subtree of the accessor declaring its
      first namespace, with the same chain. */
  lemma EntryInOwner(dest: Obj, path: string, methods: string, ns: seq<string>)
    requires WellFormed(dest)
    requires |ns| >= 1 && Free(ns[0], '.')
    requires NamespaceIndex(dest.accessors, ns[0]) != -1
    ensures var j := NamespaceIndex(dest.accessors, ns[0]);
            var sub := Subtree(dest, j, path, methods);
            var key := path + Dotted(ns);
            && key == path + "." + dest.accessors[j].namespace + Dotted(ns[1..])
            && (key in Entries(dest, path, methods) <==> key in sub)
            && (key in sub ==> Entries(dest, path, methods)[key] == sub[key])
  {
    var j := NamespaceIndex(dest.accessors, ns[0]);
    var key := path + Dotted(ns);
    assert key == path + "." + ns[0] + Dotted(ns[1..]);
    assert key != path;
    KeyOwner(dest, path, methods, ns);
    EntriesFromOnly(dest, 0, j, path, methods, key);
  }

  /** Following a namespace path goes through the accessor declaring its first namespace. */
  lemma FollowThrough(dest: Obj, ns: seq<string>)
    requires |ns| >= 1
    requires NamespaceIndex(dest.accessors, ns[0]) != -1
    ensures var a := dest.accessors[NamespaceIndex(dest.accessors, ns[0])];
            var rest := Follow(a.target, ns[1..]);
            && (Follow(dest, ns).Some? <==> rest.Some?)
            && (rest.Some? ==> Follow(dest, ns).value == (rest.value.0, [a.methodName] + rest.value.1))
  {
  }

  /** Following a namespace path and walking the accessor names it passes reach the same object. */
  lemma {:induction false} WalkFollowsNames(dest: Obj, ns: seq<string>)
    requires WellFormed(dest)
    requires Follow(dest, ns).Some?
    ensures Walk(dest, Follow(dest, ns).value.1) == Success(Follow(dest, ns).value.0)
    decreases |ns|
  {
    if |ns| > 0 {
      var j := NamespaceIndex(dest.accessors, ns[0]);
      var a := dest.accessors[j];
      var names := Follow(dest, ns).value.1;
      assert names == [a.methodName] + Follow(a.target, ns[1..]).value.1;
      assert names[1..] == Follow(a.target, ns[1..]).value.1;
      assert FindAccessor(dest.accessors, a.methodName) == Some(a.target);
      WalkFollowsNames(a.target, ns[1..]);
    }
  }

  /** The names passed when following a path are accessor names: non-empty and dot-free. */
  lemma {:induction false} FollowNamesWellFormed(dest: Obj, ns: seq<string>)
    requires WellFormed(dest)
    requires Follow(dest, ns).Some?
    ensures var names := Follow(dest, ns).value.1;
            forall i :: 0 <= i < |names| ==> names[i] != "" && Free(names[i], '.')
    decreases |ns|
  {
    if |ns| > 0 {
      var j := NamespaceIndex(dest.accessors, ns[0]);
      FollowNamesWellFormed(dest.accessors[j].target, ns[1..]);
    }
  }

  /** Splitting "j.m" at its last dot, for a dot-free non-empty `m`. */
  lemma LastSegment(j: string, m: string)
    requires j != "" && m != "" && Free(m, '.')
    ensures ReducedMethod(j + "." + m) == m
    ensures ReducedPath(j + "." + m) == j
  {
    var path := j + "." + m;
    assert path == j + ['.'] + m;
    LastIndexOfBefore(j, '.', m);
    assert path[|j| + 1..] == m;
    assert path[..|j|] == j;
  }

  /** The call path "ns1...nsk.m" names the cache key of the namespaces and the leaf `m`. */
  lemma CallPathParts(cls: string, ns: seq<string>, m: string)
    requires forall i :: 0 <= i < |ns| ==> ns[i] != "" && Free(ns[i], '.')
    requires m != "" && Free(m, '.')
    ensures ReducedMethod(Join(ns + [m], ".")) == m
    ensures FullPath(cls, ReducedPath(Join(ns + [m], "."))) == cls + Dotted(ns)
  {
    if |ns| == 0 {
      assert ns + [m] == [m];
      assert cls + Dotted(ns) == cls;
    } else {
      NestedCallPath(cls, ns, m);
    }
  }

  /** The call path "ns1...nsk.m" as the first namespace, the dotted rest, and the leaf. */
  lemma CallPathJoin(ns: seq<string>, m: string)
    requires |ns| >= 1
    ensures Join(ns + [m], ".") == ns[0] + Dotted(ns[1..]) + "." + m
  {
    JoinSnoc(ns, m, ".");
    JoinIsDotted(ns);
  }

  /** A call path with at least one namespace: the key is the class extended by the dotted
      namespaces. */
  lemma NestedCallPath(cls: string, ns: seq<string>, m: string)
    requires |ns| >= 1 && ns[0] != ""
    requires m != "" && Free(m, '.')
    ensures ReducedMethod(Join(ns + [m], ".")) == m
    ensures FullPath(cls, ReducedPath(Join(ns + [m], "."))) == cls + Dotted(ns)
  {
    var d := Dotted(ns[1..]);
    var j := ns[0] + d;
    var path := Join(ns + [m], ".");
    CallPathJoin(ns, m);
    assert path == j + "." + m;
    LastSegment(j, m);
    assert FullPath(cls, j) == cls + "." + j;
    assert Dotted(ns) == "." + ns[0] + d;
    Regroup(cls, ".", ns[0], d);
  }

  lemma Regroup(a: string, b: string, c: string, d: string)
    ensures a + b + (c + d) == a + (b + c + d)
  {
  }

  /** Resolving "ns1...nsk.m" on a well-formed graph, with a cache whose part for this class
      holds only this graph's entries: it succeeds exactly when the namespaces can be followed, and then yields the
      object reached paired with `m`; otherwise it fails as non-resolvable. With no
      namespaces at all this is the destination itself. */
  lemma ResolveNamespacePath(cache: Cache, dest: Obj, ns: seq<string>, m: string)
    requires WellFormed(dest) && ClassCacheOf(cache, dest)
    requires forall i :: 0 <= i < |ns| ==> ns[i] != "" && Free(ns[i], '.')
    requires m != "" && Free(m, '.')
    ensures var r := Get(cache, dest, Join(ns + [m], ".")).result;
            && (Follow(dest, ns).Some? ==> r == Success(CallTuple(Follow(dest, ns).value.0, m)))
            && (Follow(dest, ns).None? ==>
                  r == Failure(NonResolvable(dest.className + Dotted(ns))))
  {
    var path := Join(ns + [m], ".");
    var cls := dest.className;
    CallPathParts(cls, ns, m);
    var key := cls + Dotted(ns);
    EntryOfNamespacePath(dest, cls, "", ns);
    CachedEntry(cache, dest, path);
    if Follow(dest, ns).Some? {
      var names := Follow(dest, ns).value.1;
      FollowNamesWellFormed(dest, ns);
      ChainOfNames(names);
      assert "" + Dotted(names) == Dotted(names);
      WalkFollowsNames(dest, ns);
      WalkSkipsEmpty(dest, names);
      ApplyChain(cache, dest, path, [""] + names, Follow(dest, ns).value.0);
    }
  }

  /** After `_get`, the key of the path holds exactly what population writes for it. */
  lemma CachedEntry(cache: Cache, dest: Obj, path: string)
    requires ClassCacheOf(cache, dest)
    ensures var key := FullPath(dest.className, ReducedPath(path));
            var e := Entries(dest, dest.className, "");
            var c := Get(cache, dest, path).cache;
            && (key in c <==> key in e)
            && (key in c ==> c[key] == e[key])
  {
    var key := FullPath(dest.className, ReducedPath(path));
    var e := Entries(dest, dest.className, "");
    var c := Get(cache, dest, path).cache;
    if key in cache {
      assert UnderClass(key, dest.className);
      assert c == cache;
    } else {
      assert c == cache + e;
      UnionRight(cache, e, key);
    }
  }

  /** The empty first name of a chain is skipped. */
  lemma WalkSkipsEmpty(dest: Obj, names: seq<string>)
    ensures Walk(dest, [""] + names) == Walk(dest, names)
  {
    assert ([""] + names)[1..] == names;
  }

  /** When the cached chain walks to `target`, `_get` answers `target` with the leaf name. */
  lemma ApplyChain(cache: Cache, dest: Obj, path: string, chain: seq<string>, target: Obj)
    requires var key := FullPath(dest.className, ReducedPath(path));
             var c := Get(cache, dest, path).cache;
             key in c && c[key] == chain
    requires Walk(dest, chain) == Success(target)
    ensures Get(cache, dest, path).result == Success(CallTuple(target, ReducedMethod(path)))
  {
  }
}
