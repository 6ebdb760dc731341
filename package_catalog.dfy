/**
 * The class-level package catalog of `PackageContainer`
 * (flopy/mf6/mfbase.py): `packages_by_abbr` maps an abbreviation such as
 * "gwfwel" to a package class. `package_factory` looks a class up by
 * model type and package type, falling back to the utility packages, and
 * `package_list` lists the classes in abbreviation order without the
 * "group" classes. The catalog is given as a map from abbreviation to an
 * opaque class value.
 */
module PackageCatalog {
  import opened Wrappers
  import opened Strings

  /** `dict.get`. */
  function Get<F>(m: map<string, F>, k: string): (r: Option<F>)
    ensures r.Some? <==> k in m
    ensures r.Some? ==> r.value == m[k]
  {
    if k in m then Some(m[k]) else None
  }

  /** `package_factory(package_type, model_type)`: the class registered under
      model type followed by package type; failing that, the one under "utl"
      followed by package type; failing that, `None`. */
  function PackageFactory<F>(catalog: map<string, F>, packageType: string, modelType: string): (r: Option<F>)
    ensures r.Some? <==> (modelType + packageType in catalog || "utl" + packageType in catalog)
    ensures modelType + packageType in catalog ==> r == Some(catalog[modelType + packageType])
    ensures modelType + packageType !in catalog ==> r == Get(catalog, "utl" + packageType)
  {
    var factory := Get(catalog, modelType + packageType);
    if factory.None? then Get(catalog, "utl" + packageType) else factory
  }

  /** Whatever the model type, a utility package is always found once no
      model-specific class shadows it, and the result is one of the
      catalog's classes. */
  lemma {:induction false} FactoryFallsBackToUtility<F>(catalog: map<string, F>, packageType: string, modelType: string)
    requires "utl" + packageType in catalog
    ensures PackageFactory(catalog, packageType, modelType).Some?
    ensures PackageFactory(catalog, packageType, modelType).value in catalog.Values
    ensures modelType + packageType !in catalog ==>
      PackageFactory(catalog, packageType, modelType) == PackageFactory(catalog, packageType, "utl")
  {
    var r := PackageFactory(catalog, packageType, modelType);
    if modelType + packageType in catalog {
      assert r.value == catalog[modelType + packageType];
    } else {
      assert r.value == catalog["utl" + packageType];
    }
  }

  // ---------------------------------------------------------------------------
  // package_list
  // ---------------------------------------------------------------------------

  /** Strictly increasing in Python's string order. */
  predicate StrictlySorted(s: seq<string>) {
    forall i, j :: 0 <= i < j < |s| ==> StrLt(s[i], s[j])
  }

  /** The least string of a non-empty set. */
  method Least(xs: set<string>) returns (m: string)
    requires xs != {}
    ensures m in xs && forall k :: k in xs && k != m ==> StrLt(m, k)
  {
    m :| m in xs;
    var rest := xs - {m};
    while rest != {}
      invariant rest <= xs && m in xs && m !in rest
      invariant forall k :: k in xs && k !in rest && k != m ==> StrLt(m, k)
      decreases rest
    {
      var k :| k in rest;
      if StrLt(k, m) {
        forall j | j in xs && j !in rest && j != k ensures StrLt(k, j) {
          if j != m {
            StrLtTransitive(k, m, j);
          }
        }
        m := k;
      } else {
        StrLtTotal(k, m);
      }
      rest := rest - {k};
    }
  }

  /** `sorted` on the abbreviations: every key once, in increasing order
      (keys are distinct, so sorting the items sorts by key). */
  method SortedKeys(keys: set<string>) returns (s: seq<string>)
    ensures StrictlySorted(s)
    ensures forall k :: k in s <==> k in keys
  {
    s := [];
    var rest := keys;
    while rest != {}
      invariant rest <= keys
      invariant StrictlySorted(s)
      invariant forall k :: k in s <==> k in keys && k !in rest
      invariant forall i, k :: 0 <= i < |s| && k in rest ==> StrLt(s[i], k)
      decreases rest
    {
      var m := Least(rest);
      forall i, k | 0 <= i < |s| && k in rest - {m} ensures StrLt(s[i], k) {
        assert StrLt(s[i], m);
        StrLtTransitive(s[i], m, k);
      }
      s := s + [m];
      rest := rest - {m};
    }
  }

  /** `package_list()`: the classes of every abbreviation that does not end
      in "packages", in increasing abbreviation order; the ghost `abbrs` is
      that order. */
  method PackageList<F>(catalog: map<string, F>) returns (r: seq<F>, ghost abbrs: seq<string>)
    ensures StrictlySorted(abbrs)
    ensures forall k :: k in abbrs <==> k in catalog && !EndsWith(k, "packages")
    ensures |r| == |abbrs| && forall i :: 0 <= i < |abbrs| ==> abbrs[i] in catalog && r[i] == catalog[abbrs[i]]
  {
    var sorted := SortedKeys(catalog.Keys);
    r := [];
    abbrs := [];
    var i := 0;
    while i < |sorted|
      invariant 0 <= i <= |sorted|
      invariant forall k :: k in abbrs <==> k in sorted[..i] && !EndsWith(k, "packages")
      invariant forall a, j :: 0 <= a < |abbrs| && i <= j < |sorted| ==> StrLt(abbrs[a], sorted[j])
      invariant StrictlySorted(abbrs)
      invariant |r| == |abbrs| && forall j :: 0 <= j < |abbrs| ==> abbrs[j] in catalog && r[j] == catalog[abbrs[j]]
    {
      var abbr := sorted[i];
      assert sorted[..i + 1] == sorted[..i] + [abbr];
      if !EndsWith(abbr, "packages") {
        r := r + [catalog[abbr]];
        abbrs := abbrs + [abbr];
      }
      i := i + 1;
    }
    assert sorted[..i] == sorted;
  }

  /** Only one strictly sorted sequence lists a given set, so `abbrs`, and
      with it the result of `package_list`, is determined by the catalog. */
  lemma {:induction false} SortedIsUnique(a: seq<string>, b: seq<string>)
    requires StrictlySorted(a) && StrictlySorted(b)
    requires forall k :: k in a <==> k in b
    ensures a == b
    decreases |a|
  {
    if |a| > 0 {
      assert a[0] in b;
    }
    if |b| > 0 {
      assert b[0] in a;
    }
    if |a| > 0 && |b| > 0 {
      assert a[0] == b[0] by {
        if a[0] != b[0] {
          StrLtTotal(a[0], b[0]);
          ExceedsHead(a, b[0]);
          ExceedsHead(b, a[0]);
          StrLtAsymmetric(a[0], b[0]);
        }
      }
      forall k ensures k in a[1..] <==> k in b[1..] {
        TailMembers(a, k);
        TailMembers(b, k);
      }
      SortedIsUnique(a[1..], b[1..]);
      assert a == [a[0]] + a[1..] && b == [b[0]] + b[1..];
    }
  }

  /** In a strictly sorted sequence every other member is above the head. */
  lemma {:induction false} ExceedsHead(s: seq<string>, k: string)
    requires StrictlySorted(s) && |s| > 0 && k in s && k != s[0]
    ensures StrLt(s[0], k)
  {
    var j :| 0 <= j < |s| && s[j] == k;
  }

  /** The tail of a strictly sorted sequence holds every member but the
      head. */
  lemma {:induction false} TailMembers(s: seq<string>, k: string)
    requires StrictlySorted(s) && |s| > 0
    ensures k in s[1..] <==> k in s && k != s[0]
  {
    if k in s[1..] {
      var j :| 0 <= j < |s[1..]| && s[1..][j] == k;
      assert StrLt(s[0], s[j + 1]);
      StrLtIrreflexive(s[0]);
    }
    if k in s && k != s[0] {
      var j :| 0 <= j < |s| && s[j] == k;
      assert s[1..][j - 1] == k;
    }
  }
}
