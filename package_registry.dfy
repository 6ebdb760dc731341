/**
 * The package registry of `PackageContainer` (flopy/mf6/mfbase.py): an
 * ordered list of packages, three case-insensitive indexes over it (by name,
 * by type, by file name), and the simulation's shared data store, which
 * `remove_package` and `_rename_package` keep in step with the registry.
 */
module PackageRegistry {
  import opened Wrappers
  import opened Strings
  import opened StoreKeys

  /** A package as the registry sees it. It is a reference, so membership in
      the list and the buckets is by identity, as Python's `in` is on objects
      without `__eq__`; the registry never changes these attributes. */
  class Package {
    const packageName: Option<string>
    const filename: Option<string>
    const packageType: string
    const path: Key

    constructor (packageName: Option<string>, filename: Option<string>, packageType: string, path: Key)
      ensures this.packageName == packageName && this.filename == filename
      ensures this.packageType == packageType && this.path == path
    {
      this.packageName := packageName;
      this.filename := filename;
      this.packageType := packageType;
      this.path := path;
    }
  }

  /** The part of the simulation data that the registry uses: the store
      `mfdata`, shared by every container of the simulation. */
  class SimulationData<V> {
    var mfdata: map<Key, V>

    constructor ()
      ensures mfdata == map[]
    {
      mfdata := map[];
    }
  }

  /** The result of `get_package`: `None`, one package, or a list. */
  datatype Found = NotFound | One(package: Package) | Many(packages: seq<Package>)

  // ---------------------------------------------------------------------------
  // list.remove
  // ---------------------------------------------------------------------------

  /** The index of the first occurrence of `x`. */
  function FirstIndex<T(==)>(s: seq<T>, x: T): (i: nat)
    requires x in s
    ensures i < |s| && s[i] == x && x !in s[..i]
    decreases |s|
  {
    if s[0] == x then 0
    else
      var j := FirstIndex(s[1..], x);
      assert s[..j + 1] == [s[0]] + s[1..][..j];
      j + 1
  }

  /** `s.remove(x)`: only the first occurrence goes, the order of the rest is
      kept. */
  function RemoveFirst<T(==)>(s: seq<T>, x: T): (r: seq<T>)
    requires x in s
    ensures |r| == |s| - 1
    ensures multiset(r) == multiset(s) - multiset{x}
    ensures r == s[..FirstIndex(s, x)] + s[FirstIndex(s, x) + 1..]
  {
    var i := FirstIndex(s, x);
    assert s == s[..i] + [s[i]] + s[i + 1..];
    s[..i] + s[i + 1..]
  }

  // ---------------------------------------------------------------------------
  // The indexes as values
  // ---------------------------------------------------------------------------

  ghost predicate LowerKeys<T>(m: map<string, T>) {
    forall k :: k in m ==> IsLower(k)
  }

  /** The type index is keyed by lower-cased types and every bucket is a
      non-empty list of packages of its type. */
  ghost predicate TypeIndexValid(types: map<string, seq<Package>>) {
    forall k :: k in types ==> IsLower(k) && BucketOfType(k, types[k])
  }

  ghost predicate BucketOfType(k: string, bucket: seq<Package>) {
    |bucket| > 0 && forall q :: q in bucket ==> Lower(q.packageType) == k
  }

  /** No bucket holds a package more often than the list does. */
  ghost predicate BucketsWithinList(types: map<string, seq<Package>>, list: seq<Package>) {
    forall k :: k in types ==> multiset(types[k]) <= multiset(list)
  }

  /** A name or file-name index after `add_package`: the lower-cased key, if
      there is one, indexes the package, overwriting an earlier entry. */
  function IndexAfterAdd(d: map<string, Package>, key: Option<string>, p: Package): map<string, Package> {
    if key.Some? then d[Lower(key.value) := p] else d
  }

  /** A name or file-name index after `remove_package`: the entry under the
      lower-cased key goes, whichever package it indexes. */
  function IndexAfterRemove(d: map<string, Package>, key: Option<string>): map<string, Package> {
    if key.Some? then d - {Lower(key.value)} else d
  }

  /** The type index after `add_package`. The guard tests the type AS GIVEN
      while the buckets are keyed by the lower-cased type, so a type with an
      upper-case letter never finds its bucket and starts a fresh one on
      every add. */
  function TypesAfterAdd(types: map<string, seq<Package>>, p: Package): map<string, seq<Package>> {
    types[Lower(p.packageType) := (if p.packageType in types then types[p.packageType] else []) + [p]]
  }

  /** `remove` on a list when the package is in it, else no change. */
  function ListAfterRemove(list: seq<Package>, p: Package): seq<Package> {
    if p in list then RemoveFirst(list, p) else list
  }

  /** The type index after `remove_package`: the package leaves its bucket
      and an emptied bucket is deleted. */
  function TypesAfterRemove(types: map<string, seq<Package>>, p: Package): map<string, seq<Package>> {
    var k := Lower(p.packageType);
    if k !in types then types
    else
      var b := ListAfterRemove(types[k], p);
      if |b| == 0 then types - {k} else types[k := b]
  }

  /** The name or file-name step of `add_package`: a package with a key is
      indexed under the lower-cased key. */
  method AddIndexEntry(d: map<string, Package>, key: Option<string>, p: Package) returns (r: map<string, Package>)
    ensures r == IndexAfterAdd(d, key, p)
  {
    r := d;
    if key.Some? {
      r := r[Lower(key.value) := p];
    }
  }

  /** The type step of `add_package`: start an empty bucket when the type,
      as given, is not a key, then append the package to the bucket of the
      lower-cased type. */
  method AddToTypeIndex(types: map<string, seq<Package>>, p: Package) returns (r: map<string, seq<Package>>)
    requires TypeIndexValid(types)
    ensures r == TypesAfterAdd(types, p)
  {
    r := types;
    var t := Lower(p.packageType);
    if p.packageType !in r {
      r := r[t := []];
    } else {
      LowerFixes(p.packageType);
    }
    r := r[t := r[t] + [p]];
  }

  /** The `del` of a name or file-name entry in `remove_package`, guarded
      by the key being present. */
  method DropIndexEntry(d: map<string, Package>, key: Option<string>) returns (r: map<string, Package>)
    ensures r == IndexAfterRemove(d, key)
  {
    r := d;
    if key.Some? && Lower(key.value) in r {
      r := r - {Lower(key.value)};
    }
  }

  /** The type-bucket step of `remove_package`: remove the package from its
      bucket if it is there, and delete the bucket once it is empty. */
  method DropFromTypeIndex(types: map<string, seq<Package>>, p: Package) returns (r: map<string, seq<Package>>)
    ensures r == TypesAfterRemove(types, p)
  {
    r := types;
    var t := Lower(p.packageType);
    if t in r {
      var bucket := r[t];
      if p in bucket {
        bucket := RemoveFirst(bucket, p);
      }
      if |bucket| == 0 {
        r := r - {t};
      } else {
        r := r[t := bucket];
      }
    }
  }

  lemma {:induction false} AddKeepsTypeIndex(types: map<string, seq<Package>>, p: Package)
    requires TypeIndexValid(types)
    ensures TypeIndexValid(TypesAfterAdd(types, p))
    ensures IsLower(p.packageType) && p.packageType in types ==>
      TypesAfterAdd(types, p)[p.packageType] == types[p.packageType] + [p]
    ensures !IsLower(p.packageType) ==> TypesAfterAdd(types, p)[Lower(p.packageType)] == [p]
  {
    if IsLower(p.packageType) {
      LowerFixes(p.packageType);
    }
  }

  lemma {:induction false} RemoveKeepsTypeIndex(types: map<string, seq<Package>>, p: Package)
    requires TypeIndexValid(types)
    ensures TypeIndexValid(TypesAfterRemove(types, p))
  {
    var t := Lower(p.packageType);
    if t in types && p in types[t] {
      var b := RemoveFirst(types[t], p);
      assert forall q :: q in b ==> q in types[t] by {
        assert multiset(b) <= multiset(types[t]);
      }
    }
  }

  /** The package ends up as the last element of its bucket, and no bucket
      outgrows the list. */
  lemma {:induction false} AddKeepsBucketsWithinList(types: map<string, seq<Package>>, list: seq<Package>, p: Package)
    requires BucketsWithinList(types, list)
    ensures BucketsWithinList(TypesAfterAdd(types, p), list + [p])
    ensures var b := TypesAfterAdd(types, p)[Lower(p.packageType)]; |b| > 0 && b[|b| - 1] == p
  {
    var t := Lower(p.packageType);
    var r := TypesAfterAdd(types, p);
    forall k | k in r ensures multiset(r[k]) <= multiset(list + [p]) {
      if k == t {
        var old' := if p.packageType in types then types[p.packageType] else [];
        assert multiset(r[k]) == multiset(old') + multiset{p};
      }
    }
  }

  /** `remove` takes exactly one copy of the package, if there is one. */
  lemma {:induction false} RemoveMultiset(s: seq<Package>, p: Package)
    ensures multiset(ListAfterRemove(s, p)) == multiset(s) - multiset{p}
  {
    if p !in s {
      assert multiset(s)[p] == 0;
    }
  }

  /** Removing the same package from a bucket and from the list keeps the
      bucket within the list. */
  lemma {:induction false} RemoveKeepsWithin(b: seq<Package>, list: seq<Package>, p: Package)
    requires multiset(b) <= multiset(list)
    ensures multiset(ListAfterRemove(b, p)) <= multiset(ListAfterRemove(list, p))
  {
    RemoveMultiset(b, p);
    RemoveMultiset(list, p);
    var mb := multiset(b) - multiset{p};
    var ml := multiset(list) - multiset{p};
    forall q ensures mb[q] <= ml[q] {
      assert multiset(b)[q] <= multiset(list)[q];
    }
  }

  lemma {:induction false} RemoveKeepsBucketsWithinList(types: map<string, seq<Package>>, list: seq<Package>, p: Package)
    requires TypeIndexValid(types) && BucketsWithinList(types, list)
    ensures BucketsWithinList(TypesAfterRemove(types, p), ListAfterRemove(list, p))
  {
    var t := Lower(p.packageType);
    var r := TypesAfterRemove(types, p);
    var list' := ListAfterRemove(list, p);
    forall k | k in r ensures multiset(r[k]) <= multiset(list') {
      RemoveKeepsWithin(types[k], list, p);
      if k != t {
        assert p !in types[k];
      }
    }
  }

  /** Adding or removing a package touches only the bucket of its
      lower-cased type. */
  lemma {:induction false} OtherBucketsUnchanged(types: map<string, seq<Package>>, p: Package, k: string)
    requires k != Lower(p.packageType)
    ensures k in TypesAfterAdd(types, p) <==> k in types
    ensures k in TypesAfterRemove(types, p) <==> k in types
    ensures k in types ==> TypesAfterAdd(types, p)[k] == types[k] && TypesAfterRemove(types, p)[k] == types[k]
  {
  }

  /** Removing a package that was just appended to a list gives the list
      back. */
  lemma {:induction false} RemoveLastAdded(list: seq<Package>, p: Package)
    requires p !in list
    ensures ListAfterRemove(list + [p], p) == list
  {
    assert (list + [p])[..|list|] == list;
  }

  /** The name and file-name halves of `RemoveUndoesAdd`. */
  lemma {:induction false} IndexRemoveUndoesAdd(d: map<string, Package>, key: Option<string>, p: Package)
    requires key.None? || Lower(key.value) !in d
    ensures IndexAfterRemove(IndexAfterAdd(d, key, p), key) == d
  {
    if key.Some? {
      var k := Lower(key.value);
      assert d[k := p] - {k} == d;
    }
  }

  /** A package missing from the list is in no bucket. */
  lemma {:induction false} NotListedNotBucketed(types: map<string, seq<Package>>, list: seq<Package>, p: Package, k: string)
    requires BucketsWithinList(types, list) && k in types && p !in list
    ensures p !in types[k]
  {
    var b := types[k];
    assert multiset(b) <= multiset(list);
    assert multiset(list)[p] == 0;
    assert multiset(b)[p] == 0;
  }

  /** The type-index half of `RemoveUndoesAdd` when the bucket exists. */
  lemma {:induction false} RemoveUndoesAddToBucket(types: map<string, seq<Package>>, p: Package)
    requires IsLower(p.packageType) && p.packageType in types
    requires |types[p.packageType]| > 0 && p !in types[p.packageType]
    ensures TypesAfterRemove(TypesAfterAdd(types, p), p) == types
  {
    var t := p.packageType;
    LowerFixes(t);
    var b := types[t];
    var added := types[t := b + [p]];
    assert TypesAfterAdd(types, p) == added;
    RemoveLastAdded(b, p);
    assert TypesAfterRemove(added, p) == added[t := b];
    assert added[t := b] == types;
  }

  /** The type-index half of `RemoveUndoesAdd` when the add starts a new
      bucket. */
  lemma {:induction false} RemoveUndoesAddNewBucket(types: map<string, seq<Package>>, p: Package)
    requires TypeIndexValid(types)
    requires Lower(p.packageType) !in types
    ensures TypesAfterRemove(TypesAfterAdd(types, p), p) == types
  {
    var t := Lower(p.packageType);
    assert p.packageType !in types by {
      if p.packageType in types {
        LowerFixes(p.packageType);
      }
    }
    var added := types[t := [p]];
    var none: seq<Package> := [];
    assert none + [p] == [p];
    assert TypesAfterAdd(types, p) == added;
    assert |ListAfterRemove([p], p)| == 0;
    assert added - {t} == types;
  }

  lemma {:induction false} RemoveUndoesAddTypes(types: map<string, seq<Package>>, list: seq<Package>, p: Package)
    requires TypeIndexValid(types) && BucketsWithinList(types, list)
    requires p !in list
    requires IsLower(p.packageType) || Lower(p.packageType) !in types
    ensures TypesAfterRemove(TypesAfterAdd(types, p), p) == types
  {
    if Lower(p.packageType) in types {
      LowerFixes(p.packageType);
      NotListedNotBucketed(types, list, p, p.packageType);
      RemoveUndoesAddToBucket(types, p);
    } else {
      RemoveUndoesAddNewBucket(types, p);
    }
  }

  /** `remove_package` undoes `add_package` of a package that is not yet
      registered, unless the package's type has an upper-case letter and its
      lower-cased bucket already exists (the add then replaced that
      bucket). */
  lemma {:induction false} RemoveUndoesAdd(list: seq<Package>, names: map<string, Package>,
                                           files: map<string, Package>, types: map<string, seq<Package>>, p: Package)
    requires TypeIndexValid(types) && BucketsWithinList(types, list)
    requires p !in list
    requires p.packageName.None? || Lower(p.packageName.value) !in names
    requires p.filename.None? || Lower(p.filename.value) !in files
    requires IsLower(p.packageType) || Lower(p.packageType) !in types
    ensures ListAfterRemove(list + [p], p) == list
    ensures IndexAfterRemove(IndexAfterAdd(names, p.packageName, p), p.packageName) == names
    ensures IndexAfterRemove(IndexAfterAdd(files, p.filename, p), p.filename) == files
    ensures TypesAfterRemove(TypesAfterAdd(types, p), p) == types
  {
    RemoveLastAdded(list, p);
    IndexRemoveUndoesAdd(names, p.packageName, p);
    IndexRemoveUndoesAdd(files, p.filename, p);
    RemoveUndoesAddTypes(types, list, p);
  }

  /** The quirk of `add_package`: adding a package whose type has an
      upper-case letter replaces the bucket of the lower-cased type, so the
      packages that were in it drop out of the type index. */
  lemma {:induction false} AddResetsMixedCaseBucket(types: map<string, seq<Package>>, p: Package, q: Package)
    requires TypeIndexValid(types)
    requires !IsLower(p.packageType) && Lower(p.packageType) in types && q in types[Lower(p.packageType)]
    requires q != p
    ensures forall k :: k in TypesAfterAdd(types, p) ==> q !in TypesAfterAdd(types, p)[k]
  {
    AddKeepsTypeIndex(types, p);
    var t := Lower(p.packageType);
    assert Lower(q.packageType) == t;
  }

  // ---------------------------------------------------------------------------
  // The partial-name fallback of get_package
  // ---------------------------------------------------------------------------

  /** Step 5 of `get_package`: the package has a name whose lower-cased form
      starts with the lower-cased query. */
  predicate NamePrefixMatch(p: Package, query: string) {
    p.packageName.Some? && |query| <= |p.packageName.value|
    && Lower(p.packageName.value)[..|query|] == Lower(query)
  }

  /** The first package in list order that matches by name prefix. */
  function FirstPrefixMatch(s: seq<Package>, query: string): Found
    decreases |s|
  {
    if |s| == 0 then NotFound
    else if NamePrefixMatch(s[0], query) then One(s[0])
    else FirstPrefixMatch(s[1..], query)
  }

  lemma {:induction false} FirstPrefixMatchIsFirst(s: seq<Package>, query: string)
    ensures FirstPrefixMatch(s, query) == NotFound <==> forall i :: 0 <= i < |s| ==> !NamePrefixMatch(s[i], query)
    ensures FirstPrefixMatch(s, query).One? ==>
      exists i :: 0 <= i < |s| && s[i] == FirstPrefixMatch(s, query).package && NamePrefixMatch(s[i], query)
        && forall j :: 0 <= j < i ==> !NamePrefixMatch(s[j], query)
    ensures !FirstPrefixMatch(s, query).Many?
    decreases |s|
  {
    if |s| > 0 {
      var rest := s[1..];
      FirstPrefixMatchIsFirst(rest, query);
      assert forall i :: 0 <= i < |rest| ==> rest[i] == s[i + 1];
      if !NamePrefixMatch(s[0], query) && FirstPrefixMatch(rest, query).One? {
        var i :| 0 <= i < |rest| && rest[i] == FirstPrefixMatch(rest, query).package
          && NamePrefixMatch(rest[i], query) && forall j :: 0 <= j < i ==> !NamePrefixMatch(rest[j], query);
        assert s[i + 1] == rest[i];
        forall j | 0 <= j < i + 1 ensures !NamePrefixMatch(s[j], query) {
          if j > 0 { assert s[j] == rest[j - 1]; }
        }
      }
    }
  }

  /** The loop body's comparison (truncate the lower-cased name to the query's
      length, lower-case both and compare) is the prefix test. */
  lemma {:induction false} TruncatedCompare(name: string, query: string)
    ensures (var pn := Lower(name);
             var t := if |pn| > |query| then pn[..|query|] else pn;
             Lower(t) == Lower(query))
            <==> (|query| <= |name| && Lower(name)[..|query|] == Lower(query))
  {
    var pn := Lower(name);
    var t := if |pn| > |query| then pn[..|query|] else pn;
    LowerFixes(t);
    if |pn| <= |query| {
      assert pn[..|pn|] == pn;
    }
  }

  /** What step 3 of `get_package` returns for a bucket. */
  function BucketFound(bucket: seq<Package>): (r: Found)
    ensures r == NotFound <==> |bucket| == 0
    ensures r.One? <==> |bucket| == 1
    ensures r.One? ==> r.package == bucket[0]
    ensures r.Many? <==> |bucket| > 1
    ensures r.Many? ==> r.packages == bucket
  {
    if |bucket| == 0 then NotFound
    else if |bucket| == 1 then One(bucket[0])
    else Many(bucket)
  }

  // ---------------------------------------------------------------------------
  // The container
  // ---------------------------------------------------------------------------

  class PackageContainer<V> {
    const simulationData: SimulationData<V>
    var packageList: seq<Package>
    var packageNameDict: map<string, Package>
    var packageTypeDict: map<string, seq<Package>>
    var packageFilenameDict: map<string, Package>

    /** What every operation keeps: all index keys are lower-case and the type
        index is valid. (That every listed package is in its bucket does NOT
        hold: see `TypesAfterAdd`.) */
    ghost predicate Valid()
      reads this
    {
      LowerKeys(packageNameDict) && LowerKeys(packageFilenameDict) && TypeIndexValid(packageTypeDict)
    }

    constructor (simulationData: SimulationData<V>)
      ensures Valid()
      ensures this.simulationData == simulationData
      ensures packageList == [] && packageNameDict == map[] && packageTypeDict == map[] && packageFilenameDict == map[]
    {
      this.simulationData := simulationData;
      packageList := [];
      packageNameDict := map[];
      packageTypeDict := map[];
      packageFilenameDict := map[];
    }

    /** `package_dict`: the name index (a map is a value, so this is the copy
        the source makes); its keys are the lower-cased names. */
    function PackageDict(): (d: map<string, Package>)
      reads this
      requires Valid()
      ensures d.Keys == packageNameDict.Keys
      ensures forall k :: k in d ==> IsLower(k) && d[k] == packageNameDict[k]
    {
      packageNameDict
    }

    /** `package_names`: every indexed name once (the order of a Python dict's
        keys is not modelled). */
    method PackageNames() returns (names: seq<string>)
      requires Valid()
      ensures forall k :: k in names <==> k in packageNameDict
      ensures Distinct(names)
      ensures forall i :: 0 <= i < |names| ==> IsLower(names[i])
    {
      names := [];
      var rest := packageNameDict.Keys;
      while rest != {}
        invariant rest <= packageNameDict.Keys
        invariant Distinct(names)
        invariant forall k :: k in names <==> k in packageNameDict && k !in rest
        decreases rest
      {
        var k :| k in rest;
        names := names + [k];
        rest := rest - {k};
      }
      forall i | 0 <= i < |names| ensures IsLower(names[i]) {
        assert names[i] in names;
      }
    }

    /** `add_package`: append to the list, index by lower-cased name, file
        name and type. */
    method AddPackage(package: Package)
      requires Valid()
      modifies this
      ensures Valid()
      ensures packageList == old(packageList) + [package]
      ensures packageNameDict == IndexAfterAdd(old(packageNameDict), package.packageName, package)
      ensures packageFilenameDict == IndexAfterAdd(old(packageFilenameDict), package.filename, package)
      ensures packageTypeDict == TypesAfterAdd(old(packageTypeDict), package)
    {
      AddKeepsTypeIndex(packageTypeDict, package);
      var names := AddIndexEntry(packageNameDict, package.packageName, package);
      var files := AddIndexEntry(packageFilenameDict, package.filename, package);
      var types := AddToTypeIndex(packageTypeDict, package);
      packageList, packageNameDict, packageFilenameDict, packageTypeDict := packageList + [package], names, files, types;
    }

    /** `remove_package`. It never fails for an absent package: only the first
        occurrence leaves the list; the name and file-name entries under the
        package's lower-cased name and file name are deleted whichever package
        they index; the package leaves its type bucket; every store key the
        package owns is deleted. */
    method RemovePackage(package: Package)
      requires Valid()
      modifies this, simulationData
      ensures Valid()
      ensures packageList == ListAfterRemove(old(packageList), package)
      ensures multiset(packageList) == multiset(old(packageList)) - multiset{package}
      ensures packageNameDict == IndexAfterRemove(old(packageNameDict), package.packageName)
      ensures packageFilenameDict == IndexAfterRemove(old(packageFilenameDict), package.filename)
      ensures packageTypeDict == TypesAfterRemove(old(packageTypeDict), package)
      ensures simulationData.mfdata == PruneStore(old(simulationData.mfdata), package.path)
    {
      RemoveKeepsTypeIndex(packageTypeDict, package);
      RemoveMultiset(packageList, package);
      var list := packageList;
      if package in list {
        list := RemoveFirst(list, package);
      }
      var names := DropIndexEntry(packageNameDict, package.packageName);
      var files := DropIndexEntry(packageFilenameDict, package.filename);
      var types := DropFromTypeIndex(packageTypeDict, package);
      packageList, packageNameDict, packageFilenameDict, packageTypeDict := list, names, files, types;
      var pruned := PruneOwnedKeys(simulationData.mfdata, package.path);
      simulationData.mfdata := pruned;
    }

    /** `_rename_package`. The old lower-cased name leaves the name index and
        the new one indexes the package; list, type buckets, file-name index
        and the package itself are untouched. Every store key the package
        owns is re-keyed by `RenamedKey`, one after the other in the order of
        the ghost result `itemsToFix` (see `RenameRekeysOwnedKeys` for what
        holds whatever that order is). */
    method RenamePackage(package: Package, newName: string) returns (ghost itemsToFix: seq<Key>)
      requires Valid()
      modifies this, simulationData
      ensures Valid()
      ensures packageNameDict == IndexAfterAdd(IndexAfterRemove(old(packageNameDict), package.packageName), Some(newName), package)
      ensures packageList == old(packageList)
      ensures packageTypeDict == old(packageTypeDict)
      ensures packageFilenameDict == old(packageFilenameDict)
      ensures IsEnumeration(itemsToFix, OwnedKeys(old(simulationData.mfdata), package.path))
      ensures forall i :: 0 <= i < |itemsToFix| ==> itemsToFix[i] in old(simulationData.mfdata)
      ensures simulationData.mfdata == RekeyAll(old(simulationData.mfdata), itemsToFix, package.path, newName)
    {
      if package.packageName.Some? && Lower(package.packageName.value) in packageNameDict {
        packageNameDict := packageNameDict - {Lower(package.packageName.value)};
      }
      packageNameDict := packageNameDict[Lower(newName) := package];

      var mainDict := simulationData.mfdata;
      var items := CollectOwnedKeys(mainDict, package.path);
      itemsToFix := items;
      mainDict := RekeyKeys(mainDict, items, package.path, newName);
      simulationData.mfdata := mainDict;
    }

    /** `get_package`: the layered lookup, in this order. No name gives the
        whole list. Unless `typeOnly`, the name index. Unless `nameOnly`, the
        type index (`None`, the package or the bucket, by bucket size).
        Unless `typeOnly`, the file-name index. Unless `typeOnly`, the first
        package in list order whose name starts with the query, ignoring
        case. Otherwise `None`. */
    method GetPackage(name: Option<string>, typeOnly: bool, nameOnly: bool) returns (r: Found)
      ensures name.None? ==> r == Many(packageList)
      ensures name.Some? && !typeOnly && Lower(name.value) in packageNameDict ==>
        r == One(packageNameDict[Lower(name.value)])
      ensures (name.Some? && !(!typeOnly && Lower(name.value) in packageNameDict)
               && !nameOnly && Lower(name.value) in packageTypeDict) ==>
        r == BucketFound(packageTypeDict[Lower(name.value)])
      ensures (name.Some? && !(!typeOnly && Lower(name.value) in packageNameDict)
               && !(!nameOnly && Lower(name.value) in packageTypeDict)
               && !typeOnly && Lower(name.value) in packageFilenameDict) ==>
        r == One(packageFilenameDict[Lower(name.value)])
      ensures (name.Some? && !(!typeOnly && Lower(name.value) in packageNameDict)
               && !(!nameOnly && Lower(name.value) in packageTypeDict)
               && !(!typeOnly && Lower(name.value) in packageFilenameDict)) ==>
        r == (if typeOnly then NotFound else FirstPrefixMatch(packageList, name.value))
    {
      if name.None? {
        return Many(packageList);
      }
      var query := name.value;
      var key := Lower(query);
      if key in packageNameDict && !typeOnly {
        return One(packageNameDict[key]);
      }
      if key in packageTypeDict && !nameOnly {
        var bucket := packageTypeDict[key];
        if |bucket| == 0 {
          return NotFound;
        } else if |bucket| == 1 {
          return One(bucket[0]);
        } else {
          return Many(bucket);
        }
      }
      if key in packageFilenameDict && !typeOnly {
        return One(packageFilenameDict[key]);
      }
      if !typeOnly {
        var i := 0;
        while i < |packageList|
          invariant 0 <= i <= |packageList|
          invariant FirstPrefixMatch(packageList, query) == FirstPrefixMatch(packageList[i..], query)
        {
          var pp := packageList[i];
          assert packageList[i..][0] == pp && packageList[i..][1..] == packageList[i + 1..];
          if pp.packageName.Some? {
            var packageName := Lower(pp.packageName.value);
            if |packageName| > |query| {
              packageName := packageName[..|query|];
            }
            TruncatedCompare(pp.packageName.value, query);
            if Lower(packageName) == Lower(query) {
              return One(pp);
            }
          }
          i := i + 1;
        }
      }
      return NotFound;
    }
  }
}
