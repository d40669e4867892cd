/**
 * The decisions `LibZResolver` takes when the runtime asks for an assembly: which resource
 * names to try and in what order, which container answers, how an entry becomes a loaded
 * assembly, and the short-name fallback. The runtime's loaders, MD5 and the temp folder are the
 * `Host`; a loaded assembly is an opaque value and `None` stands for null.
 */
module Resolution {
  import opened Wrappers
  import opened Sequences
  import opened Errors
  import opened Binary
  import opened Text
  import opened Codecs
  import opened ContainerFormat

  /** A loaded assembly, as the runtime identifies it. */
  datatype Assembly = Assembly(handle: nat)

  /**
   * What the resolver asks of its environment:
   * `pointerSize` is `IntPtr.Size`; `md5` is the MD5 digest of a byte string as a GUID;
   * `loadImage` is `Assembly.Load(byte[])`; `loadFile` is `Assembly.LoadFile` given the bytes
   * the file holds; `cachedFile(containerId, hash)` is what `%TEMP%/<containerId>/<hash>.dll`
   * holds, if it exists. A loader that throws is `None`.
   */
  datatype Host = Host(
    pointerSize: int,
    md5: seq<byte> -> Guid,
    loadImage: seq<byte> -> Option<Assembly>,
    loadFile: seq<byte> -> Option<Assembly>,
    cachedFile: (Guid, Guid) -> Option<seq<byte>>)

  /** `Hash.MD5(string)`: the digest of the UTF-8 bytes of the lower-cased name. */
  function ResourceHash(host: Host, name: string): Guid {
    host.md5(Utf8(Lower(name)))
  }

  /** `a ?? b` on possibly-null assemblies. */
  function OrElse(a: Option<Assembly>, b: Option<Assembly>): Option<Assembly> {
    if a.Some? then a else b
  }

  /** `s.Select(f).FirstOrDefault(a => a != null)`. */
  function FirstLoaded<T>(s: seq<T>, f: T -> Option<Assembly>): Option<Assembly> {
    if s == [] then None
    else if f(s[0]).Some? then f(s[0])
    else FirstLoaded(s[1..], f)
  }

  /** The first element whose attempt succeeds decides, and no earlier attempt succeeded. */
  lemma {:induction false} FirstLoadedIsFirst<T>(s: seq<T>, f: T -> Option<Assembly>)
    ensures FirstLoaded(s, f).Some? <==> exists i :: 0 <= i < |s| && f(s[i]).Some?
    ensures FirstLoaded(s, f).Some? ==>
      exists i :: 0 <= i < |s| && FirstLoaded(s, f) == f(s[i]) && forall j :: 0 <= j < i ==> f(s[j]).None?
  {
    if s != [] && f(s[0]).None? {
      FirstLoadedIsFirst(s[1..], f);
      if FirstLoaded(s, f).Some? {
        var i :| 0 <= i < |s[1..]| && FirstLoaded(s[1..], f) == f(s[1..][i])
          && forall j :: 0 <= j < i ==> f(s[1..][j]).None?;
        assert FirstLoaded(s, f) == f(s[i + 1]);
        assert forall j :: 0 <= j < i + 1 ==> f(s[j]).None? by {
          forall j | 0 <= j < i + 1
            ensures f(s[j]).None?
          {
            if j > 0 {
              assert s[j] == s[1..][j - 1];
            }
          }
        }
      }
      if exists i :: 0 <= i < |s| && f(s[i]).Some? {
        var i :| 0 <= i < |s| && f(s[i]).Some?;
        assert s[1..][i - 1] == s[i];
      }
    }
  }

  /** The cache-write condition: write unless a file of the same length is already there. */
  predicate ShouldWriteCache(existing: Option<seq<byte>>, data: seq<byte>) {
    existing.None? || |existing.value| != |data|
  }

  /** What the cached file holds once the cache step is done. */
  function CachedImage(existing: Option<seq<byte>>, data: seq<byte>): (r: seq<byte>)
    ensures ShouldWriteCache(existing, data) ==> r == data
    ensures !ShouldWriteCache(existing, data) ==> r == existing.value && |r| == |data|
  {
    if ShouldWriteCache(existing, data) then data else existing.value
  }

  /**
   * `TryLoadAssembly(container, guid)`: no entry is null; otherwise the decoded bytes load from
   * memory for a managed entry, and through the cached file for a native one. Every exception
   * on the way is caught and becomes null.
   */
  function TryLoadFrom(host: Host, c: Container, hash: Guid, decoders: DecoderTable): Option<Assembly> {
    if !HasEntry(c, hash) then None
    else
      match GetBytes(c, hash, decoders)
      case Err(_) => None
      case Ok(data) =>
        if IsManaged(c, hash).value then host.loadImage(data)
        else host.loadFile(CachedImage(host.cachedFile(c.containerId, hash), data))
  }

  /**
   * How an entry loads: absent or unreadable is null; a managed entry loads its decoded bytes;
   * a native entry loads the file, which holds the decoded bytes unless a file of the same
   * length was already there, in which case that file is loaded unchanged, stale or not.
   */
  lemma TryLoadFromCases(host: Host, c: Container, hash: Guid, decoders: DecoderTable)
    ensures !HasEntry(c, hash) ==> TryLoadFrom(host, c, hash, decoders).None?
    ensures HasEntry(c, hash) && GetBytes(c, hash, decoders).Err? ==> TryLoadFrom(host, c, hash, decoders).None?
    ensures HasEntry(c, hash) && GetBytes(c, hash, decoders).Ok? ==>
      var data := GetBytes(c, hash, decoders).value;
      var existing := host.cachedFile(c.containerId, hash);
      && (c.entries[hash].flags & Unmanaged == 0 ==> TryLoadFrom(host, c, hash, decoders) == host.loadImage(data))
      && (c.entries[hash].flags & Unmanaged != 0 && ShouldWriteCache(existing, data) ==>
            TryLoadFrom(host, c, hash, decoders) == host.loadFile(data))
      && (c.entries[hash].flags & Unmanaged != 0 && !ShouldWriteCache(existing, data) ==>
            TryLoadFrom(host, c, hash, decoders) == host.loadFile(existing.value))
  {
  }

  /** `TryLoadAssembly(resourceName)`: the containers in registration order, first non-null wins. */
  function TryLoadAssembly(host: Host, containers: seq<Container>, decoders: DecoderTable,
                           resourceName: string): Option<Assembly>
  {
    var hash := ResourceHash(host, resourceName);
    FirstLoaded(containers, (c: Container) => TryLoadFrom(host, c, hash, decoders))
  }

  /**
   * A resource loads exactly when some container loads it, and then it comes from the first
   * such container in registration order.
   */
  lemma TryLoadAssemblyFirstContainer(host: Host, containers: seq<Container>, decoders: DecoderTable,
                                      resourceName: string)
    ensures var hash := ResourceHash(host, resourceName);
      var r := TryLoadAssembly(host, containers, decoders, resourceName);
      && (r.Some? <==> exists i :: 0 <= i < |containers| && TryLoadFrom(host, containers[i], hash, decoders).Some?)
      && (r.Some? ==> exists i :: (0 <= i < |containers|
            && r == TryLoadFrom(host, containers[i], hash, decoders)
            && forall j :: 0 <= j < i ==> TryLoadFrom(host, containers[j], hash, decoders).None?))
  {
    var hash := ResourceHash(host, resourceName);
    FirstLoadedIsFirst(containers, (c: Container) => TryLoadFrom(host, c, hash, decoders));
  }

  /** Resource names are hashed lower-cased, so names equal but for case find the same entry. */
  lemma TryLoadAssemblyIgnoresCase(host: Host, containers: seq<Container>, decoders: DecoderTable,
                                   a: string, b: string)
    requires EqualsIgnoreCase(a, b)
    ensures TryLoadAssembly(host, containers, decoders, a) == TryLoadAssembly(host, containers, decoders, b)
  {
    assert ResourceHash(host, a) == ResourceHash(host, b);
  }

  /** `TryLoadAssembly3(name)`: the native platform, then AnyCPU, then x86 on a 64-bit host. */
  function TryLoadAssembly3(host: Host, containers: seq<Container>, decoders: DecoderTable,
                            name: string): Option<Assembly>
  {
    OrElse(TryLoadAssembly(host, containers, decoders, (if host.pointerSize == 4 then "x86:" else "x64:") + name),
      OrElse(TryLoadAssembly(host, containers, decoders, name),
        if host.pointerSize == 8 then TryLoadAssembly(host, containers, decoders, "x86:" + name) else None))
  }

  /** The resource names tried for `name`, in order. */
  function PlatformCandidates(pointerSize: int, name: string): (r: seq<string>)
    ensures pointerSize == 4 ==> r == ["x86:" + name, name]
    ensures pointerSize == 8 ==> r == ["x64:" + name, name, "x86:" + name]
    ensures pointerSize != 4 && pointerSize != 8 ==> r == ["x64:" + name, name]
  {
    [(if pointerSize == 4 then "x86:" else "x64:") + name, name]
      + (if pointerSize == 8 then ["x86:" + name] else [])
  }

  /** `TryLoadAssembly3` is the first hit over `PlatformCandidates`, each tried over all containers. */
  lemma TryLoadAssembly3Order(host: Host, containers: seq<Container>, decoders: DecoderTable, name: string)
    ensures TryLoadAssembly3(host, containers, decoders, name)
      == FirstLoaded(PlatformCandidates(host.pointerSize, name),
                     (n: string) => TryLoadAssembly(host, containers, decoders, n))
  {
    var cands := PlatformCandidates(host.pointerSize, name);
    var f := (n: string) => TryLoadAssembly(host, containers, decoders, n);
    var rest := if host.pointerSize == 8 then ["x86:" + name] else [];
    assert cands[1..][1..] == rest;
    assert FirstLoaded(rest, f) == if host.pointerSize == 8 then f("x86:" + name) else None by {
      if host.pointerSize == 8 {
        assert rest[1..] == [];
      }
    }
  }

  /** `Comparer<Version>.Default`: versions compare component by component. */
  predicate VersionLess(a: Version, b: Version) {
    if a.major != b.major then a.major < b.major
    else if a.minor != b.minor then a.minor < b.minor
    else if a.build != b.build then a.build < b.build
    else a.revision < b.revision
  }

  /** The order `OrderByDescending(an => an.Version)` sorts by: a missing version is the lowest. */
  predicate Below(a: Option<Version>, b: Option<Version>) {
    match (a, b)
    case (None, Some(_)) => true
    case (_, None) => false
    case (Some(x), Some(y)) => VersionLess(x, y)
  }

  /** `Below` is a strict total order on versions. */
  lemma BelowOrder(a: Option<Version>, b: Option<Version>, c: Option<Version>)
    ensures !Below(a, a)
    ensures Below(a, b) ==> !Below(b, a)
    ensures Below(a, b) && Below(b, c) ==> Below(a, c)
    ensures a == b || Below(a, b) || Below(b, a)
  {
  }

  /** Inserts `x` after every name whose version is not below its own. */
  function InsertDescending(x: AssemblyName, s: seq<AssemblyName>): (r: seq<AssemblyName>)
    ensures |r| == |s| + 1
  {
    if s == [] then [x]
    else if Below(s[0].version, x.version) then [x] + s
    else [s[0]] + InsertDescending(x, s[1..])
  }

  /** `OrderByDescending(an => an.Version)`, a stable sort: each name is inserted in input order. */
  function OrderByVersionDescending(s: seq<AssemblyName>): (r: seq<AssemblyName>)
    ensures |r| == |s|
  {
    if s == [] then []
    else InsertDescending(s[|s| - 1], OrderByVersionDescending(s[..|s| - 1]))
  }

  /** Inserting adds `x` and loses nothing. */
  lemma {:induction false} InsertPermutes(x: AssemblyName, s: seq<AssemblyName>)
    ensures multiset(InsertDescending(x, s)) == multiset(s) + multiset{x}
  {
    if s != [] && !Below(s[0].version, x.version) {
      InsertPermutes(x, s[1..]);
      assert s == [s[0]] + s[1..];
    }
  }

  /** The sort is a permutation of its input. */
  lemma {:induction false} OrderByVersionPermutes(s: seq<AssemblyName>)
    ensures multiset(OrderByVersionDescending(s)) == multiset(s)
  {
    if s != [] {
      OrderByVersionPermutes(s[..|s| - 1]);
      InsertPermutes(s[|s| - 1], OrderByVersionDescending(s[..|s| - 1]));
      assert s == s[..|s| - 1] + [s[|s| - 1]];
    }
  }

  predicate SortedDescending(s: seq<AssemblyName>) {
    forall i, j :: 0 <= i < j < |s| ==> !Below(s[i].version, s[j].version)
  }

  /** A name not below any name of a descending sequence can head it. */
  lemma PrependSorted(x: AssemblyName, s: seq<AssemblyName>)
    requires SortedDescending(s)
    requires forall k :: 0 <= k < |s| ==> !Below(x.version, s[k].version)
    ensures SortedDescending([x] + s)
  {
    var r := [x] + s;
    forall i, j | 0 <= i < j < |r|
      ensures !Below(r[i].version, r[j].version)
    {
      assert r[j] == s[j - 1];
      if 0 < i {
        assert r[i] == s[i - 1];
      }
    }
  }

  /** Inserting into a descending sequence keeps it descending. */
  lemma {:induction false} InsertSorted(x: AssemblyName, s: seq<AssemblyName>)
    requires SortedDescending(s)
    ensures SortedDescending(InsertDescending(x, s))
  {
    if s == [] {
      assert InsertDescending(x, s) == [x];
    } else if Below(s[0].version, x.version) {
      forall k | 0 <= k < |s|
        ensures !Below(x.version, s[k].version)
      {
        BelowOrder(s[0].version, x.version, s[k].version);
      }
      PrependSorted(x, s);
    } else {
      var tail := s[1..];
      assert SortedDescending(tail);
      InsertSorted(x, tail);
      var t := InsertDescending(x, tail);
      InsertPermutes(x, tail);
      forall k | 0 <= k < |t|
        ensures !Below(s[0].version, t[k].version)
      {
        assert t[k] in multiset(t);
        if t[k] != x {
          assert t[k] in multiset(tail);
          var m :| 0 <= m < |tail| && tail[m] == t[k];
          assert s[m + 1] == t[k];
        }
      }
      PrependSorted(s[0], t);
    }
  }

  /** The result of the sort is in descending version order. */
  lemma {:induction false} OrderByVersionSorted(s: seq<AssemblyName>)
    ensures SortedDescending(OrderByVersionDescending(s))
  {
    if s != [] {
      OrderByVersionSorted(s[..|s| - 1]);
      InsertSorted(s[|s| - 1], OrderByVersionDescending(s[..|s| - 1]));
    }
  }

  /** The names of `s` that carry version `v`, in their order in `s`. */
  function WithVersion(s: seq<AssemblyName>, v: Option<Version>): (r: seq<AssemblyName>)
    ensures |r| <= |s|
  {
    if s == [] then []
    else (if s[0].version == v then [s[0]] else []) + WithVersion(s[1..], v)
  }

  /** `WithVersion` of a sequence with a known first name. */
  lemma WithVersionCons(x: AssemblyName, s: seq<AssemblyName>, v: Option<Version>)
    ensures WithVersion([x] + s, v) == (if x.version == v then [x] else []) + WithVersion(s, v)
  {
    var xs := [x] + s;
    assert xs[0] == x && xs[1..] == s;
  }

  lemma {:induction false} WithVersionAppend(a: seq<AssemblyName>, b: seq<AssemblyName>, v: Option<Version>)
    ensures WithVersion(a + b, v) == WithVersion(a, v) + WithVersion(b, v)
  {
    if a == [] {
      assert a + b == b;
    } else {
      assert a == [a[0]] + a[1..];
      assert a + b == [a[0]] + (a[1..] + b);
      WithVersionCons(a[0], a[1..] + b, v);
      WithVersionCons(a[0], a[1..], v);
      WithVersionAppend(a[1..], b, v);
      ConcatAssociative(if a[0].version == v then [a[0]] else [], WithVersion(a[1..], v), WithVersion(b, v));
    }
  }

  /** In a descending sequence headed by a version below `v`, no name carries `v`. */
  lemma {:induction false} NoneWithHigher(s: seq<AssemblyName>, v: Option<Version>)
    requires SortedDescending(s)
    requires s != [] ==> Below(s[0].version, v)
    ensures WithVersion(s, v) == []
  {
    if s != [] {
      if 1 < |s| {
        BelowOrder(s[1].version, s[0].version, v);
        BelowOrder(s[0].version, s[1].version, v);
      }
      assert SortedDescending(s[1..]);
      NoneWithHigher(s[1..], v);
    }
  }

  /** A name placed in front of lower versions comes after every name of its own version. */
  lemma InsertStableFront(x: AssemblyName, s: seq<AssemblyName>, v: Option<Version>)
    requires SortedDescending(s)
    requires s != [] ==> Below(s[0].version, x.version)
    ensures WithVersion([x] + s, v) == WithVersion(s, v) + (if x.version == v then [x] else [])
  {
    WithVersionCons(x, s, v);
    if x.version == v {
      NoneWithHigher(s, v);
    }
  }

  /** Inserting `x` puts it after every name of its own version. */
  lemma {:induction false} InsertStable(x: AssemblyName, s: seq<AssemblyName>, v: Option<Version>)
    requires SortedDescending(s)
    ensures WithVersion(InsertDescending(x, s), v)
      == WithVersion(s, v) + (if x.version == v then [x] else [])
  {
    if s == [] || Below(s[0].version, x.version) {
      assert InsertDescending(x, s) == [x] + s;
      InsertStableFront(x, s, v);
    } else {
      var head := if s[0].version == v then [s[0]] else [];
      var tail := if x.version == v then [x] else [];
      assert SortedDescending(s[1..]);
      InsertStable(x, s[1..], v);
      WithVersionCons(s[0], InsertDescending(x, s[1..]), v);
      assert WithVersion(s, v) == head + WithVersion(s[1..], v);
      ConcatAssociative(head, WithVersion(s[1..], v), tail);
    }
  }

  /** The sort is stable: names of equal version keep their input order. */
  lemma {:induction false} OrderByVersionStable(s: seq<AssemblyName>, v: Option<Version>)
    ensures WithVersion(OrderByVersionDescending(s), v) == WithVersion(s, v)
  {
    if s != [] {
      var init := s[..|s| - 1];
      var last := s[|s| - 1];
      var sorted := OrderByVersionDescending(init);
      assert OrderByVersionDescending(s) == InsertDescending(last, sorted);
      OrderByVersionSorted(init);
      InsertStable(last, sorted, v);
      OrderByVersionStable(init, v);
      assert s == init + [last];
      WithVersionAppend(init, [last], v);
      WithVersionCons(last, [], v);
      assert [last] + [] == [last];
    }
  }

  /** `GetAssemblyNames` of every container, in registration order (`SelectMany`). */
  function AllNames(containers: seq<Container>): seq<AssemblyName> {
    if containers == [] then []
    else AssemblyNames(containers[0].entries, containers[0].order) + AllNames(containers[1..])
  }

  /** The names whose short name equals `shortName` ignoring case, in order. */
  function NamedLike(names: seq<AssemblyName>, shortName: string): (r: seq<AssemblyName>)
    ensures forall an :: an in r ==> an in names && EqualsIgnoreCase(an.name, shortName)
    ensures forall an :: multiset(r)[an] == if EqualsIgnoreCase(an.name, shortName) then multiset(names)[an] else 0
  {
    if names == [] then []
    else
      assert names == [names[0]] + names[1..];
      (if EqualsIgnoreCase(names[0].name, shortName) then [names[0]] else [])
        + NamedLike(names[1..], shortName)
  }

  /** Filtering a concatenation filters each part and keeps them in order. */
  lemma {:induction false} NamedLikeAppend(a: seq<AssemblyName>, b: seq<AssemblyName>, shortName: string)
    ensures NamedLike(a + b, shortName) == NamedLike(a, shortName) + NamedLike(b, shortName)
  {
    if a != [] {
      assert (a + b)[1..] == a[1..] + b;
      NamedLikeAppend(a[1..], b, shortName);
      ConcatAssociative(if EqualsIgnoreCase(a[0].name, shortName) then [a[0]] else [],
        NamedLike(a[1..], shortName), NamedLike(b, shortName));
    } else {
      assert a + b == b;
    }
  }

  /**
   * Across containers, the matches of the first container come first, in its entry order,
   * then those of the rest.
   */
  lemma NamedLikeContainers(containers: seq<Container>, shortName: string)
    requires containers != []
    ensures NamedLike(AllNames(containers), shortName)
      == NamedLike(AssemblyNames(containers[0].entries, containers[0].order), shortName)
         + NamedLike(AllNames(containers[1..]), shortName)
  {
    NamedLikeAppend(AssemblyNames(containers[0].entries, containers[0].order),
      AllNames(containers[1..]), shortName);
  }

  /** Every name of `names` that matches is kept. */
  lemma {:induction false} NamedLikeComplete(names: seq<AssemblyName>, shortName: string, an: AssemblyName)
    requires an in names && EqualsIgnoreCase(an.name, shortName)
    ensures an in NamedLike(names, shortName)
  {
    if names[0] != an {
      NamedLikeComplete(names[1..], shortName, an);
    }
  }

  /**
   * The names `MatchByShortName` returns, before taking the full names. `Distinct()` compares
   * `AssemblyName` objects by reference and every entry owns its own object, so it removes
   * nothing.
   */
  function Matches(containers: seq<Container>, shortName: string): seq<AssemblyName> {
    OrderByVersionDescending(NamedLike(AllNames(containers), shortName))
  }

  /** `MatchByShortName(shortName)`: the full names of the matches. */
  function MatchByShortName(containers: seq<Container>, shortName: string): (r: seq<string>)
    ensures |r| == |Matches(containers, shortName)|
    ensures forall i :: 0 <= i < |r| ==> r[i] == Matches(containers, shortName)[i].fullName
  {
    var m := Matches(containers, shortName);
    seq(|m|, i requires 0 <= i < |m| => m[i].fullName)
  }

  /**
   * The matches are exactly the names, across all containers, whose short name equals the
   * request ignoring case (each as often as it occurs), in descending version order, names of
   * equal version in container-then-entry order.
   */
  lemma MatchesSpec(containers: seq<Container>, shortName: string)
    ensures var m := Matches(containers, shortName);
      && (forall an :: an in m <==> an in AllNames(containers) && EqualsIgnoreCase(an.name, shortName))
      && multiset(m) == multiset(NamedLike(AllNames(containers), shortName))
      && (forall an :: multiset(m)[an] ==
            if EqualsIgnoreCase(an.name, shortName) then multiset(AllNames(containers))[an] else 0)
      && SortedDescending(m)
      && (forall v :: WithVersion(m, v) == WithVersion(NamedLike(AllNames(containers), shortName), v))
  {
    var names := NamedLike(AllNames(containers), shortName);
    var m := Matches(containers, shortName);
    OrderByVersionSorted(names);
    OrderByVersionPermutes(names);
    forall v
      ensures WithVersion(m, v) == WithVersion(names, v)
    {
      OrderByVersionStable(names, v);
    }
    forall an
      ensures an in m <==> an in AllNames(containers) && EqualsIgnoreCase(an.name, shortName)
    {
      assert an in m <==> an in multiset(m);
      assert an in names <==> an in multiset(names);
      if an in AllNames(containers) && EqualsIgnoreCase(an.name, shortName) {
        NamedLikeComplete(AllNames(containers), shortName, an);
      }
    }
  }

  /**
   * `Resolve`: the exact name through `TryLoadAssembly3`, and only if that is null, each
   * short-name match in turn through `TryLoadAssembly3`; the first success, or null.
   */
  function Resolve(host: Host, containers: seq<Container>, decoders: DecoderTable, name: string)
    : Option<Assembly>
  {
    OrElse(TryLoadAssembly3(host, containers, decoders, name),
      FirstLoaded(MatchByShortName(containers, name),
                  (n: string) => TryLoadAssembly3(host, containers, decoders, n)))
  }

  /**
   * The exact attempt wins when it loads; otherwise the result is the first match, in the
   * order `MatchByShortName` gives, that loads, and null when none does.
   */
  lemma ResolveOrder(host: Host, containers: seq<Container>, decoders: DecoderTable, name: string)
    ensures var exact := TryLoadAssembly3(host, containers, decoders, name);
      var matches := MatchByShortName(containers, name);
      var r := Resolve(host, containers, decoders, name);
      && (exact.Some? ==> r == exact)
      && (exact.None? ==>
            && (r.Some? <==> exists i :: (0 <= i < |matches|
                  && TryLoadAssembly3(host, containers, decoders, matches[i]).Some?))
            && (r.Some? ==> exists i :: (0 <= i < |matches|
                  && r == TryLoadAssembly3(host, containers, decoders, matches[i])
                  && forall j :: 0 <= j < i ==> TryLoadAssembly3(host, containers, decoders, matches[j]).None?)))
  {
    FirstLoadedIsFirst(MatchByShortName(containers, name),
                       (n: string) => TryLoadAssembly3(host, containers, decoders, n));
  }
}
