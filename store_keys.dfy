/**
 * The keys of the simulation's shared data store and the two rewrites that
 * `PackageContainer.remove_package` and `PackageContainer._rename_package`
 * (flopy/mf6/mfbase.py) apply to it: the keys are tuples that start with a
 * package's path, and a package owns the keys that agree with its path.
 */
module StoreKeys {

  /** One component of a store key: package paths and data keys mix names and
      integers (a stress period number, for one). */
  datatype Id = Name(name: string) | Number(n: int)

  /** A key of the simulation's data store, and a package's path. */
  type Key = seq<Id>

  ghost predicate Distinct<T>(s: seq<T>) {
    forall i, j :: 0 <= i < j < |s| ==> s[i] != s[j]
  }

  lemma {:induction false} DistinctSuffix<T>(s: seq<T>, i: nat)
    requires Distinct(s) && i <= |s|
    ensures Distinct(s[i..])
  {
    assert forall a :: 0 <= a < |s| - i ==> s[i..][a] == s[i + a];
  }

  // ---------------------------------------------------------------------------
  // Which keys a package owns
  // ---------------------------------------------------------------------------

  /** The test both operations apply to each store key: the key agrees with
      the path on every position both have. Python's `zip` stops at the
      shorter of the two, so keys SHORTER than the path (the empty key among
      them) match as well. */
  predicate IsSubkey(path: Key, key: Key) {
    forall i :: 0 <= i < |path| && i < |key| ==> path[i] == key[i]
  }

  /** The inner `for pitem, ditem in zip(package.path, key)` loop with its
      `is_subkey` flag and early `break`. */
  method ZipMatch(path: Key, key: Key) returns (isSubkey: bool)
    ensures isSubkey <==> IsSubkey(path, key)
  {
    isSubkey := true;
    var i := 0;
    while i < |path| && i < |key|
      invariant 0 <= i <= |path| && i <= |key|
      invariant forall j :: 0 <= j < i ==> path[j] == key[j]
    {
      if path[i] != key[i] {
        isSubkey := false;
        break;
      }
      i := i + 1;
    }
  }

  /** The store keys that match `path`. */
  ghost function OwnedKeys<V>(m: map<Key, V>, path: Key): set<Key> {
    set k | k in m && IsSubkey(path, k)
  }

  /** `items` lists every key of `keys` exactly once, in some order. */
  ghost predicate IsEnumeration(items: seq<Key>, keys: set<Key>) {
    Distinct(items) && forall k :: k in items <==> k in keys
  }

  /** The outer loop that collects `items_to_remove` / `items_to_fix`. The
      store is walked in an unspecified order (Python walks it in insertion
      order). */
  method CollectOwnedKeys<V>(m: map<Key, V>, path: Key) returns (items: seq<Key>)
    ensures IsEnumeration(items, OwnedKeys(m, path))
    ensures forall i :: 0 <= i < |items| ==> items[i] in m && IsSubkey(path, items[i])
  {
    items := [];
    var rest := m.Keys;
    while rest != {}
      invariant rest <= m.Keys
      invariant Distinct(items)
      invariant forall k :: k in items <==> k in m && k !in rest && IsSubkey(path, k)
      decreases rest
    {
      var key :| key in rest;
      var isSubkey := ZipMatch(path, key);
      if isSubkey {
        items := items + [key];
      }
      rest := rest - {key};
    }
    forall i | 0 <= i < |items| ensures items[i] in m && IsSubkey(path, items[i]) {
      assert items[i] in items;
    }
  }

  // ---------------------------------------------------------------------------
  // remove_package
  // ---------------------------------------------------------------------------

  /** The store after `remove_package`: every matching key is deleted. */
  ghost function PruneStore<V>(m: map<Key, V>, path: Key): map<Key, V> {
    map k | k in m && !IsSubkey(path, k) :: m[k]
  }

  /** The `del` loop of `remove_package`: the listed keys are deleted and
      nothing else changes. */
  method DeleteKeys<V>(m: map<Key, V>, items: seq<Key>) returns (r: map<Key, V>)
    ensures forall k :: k in r <==> k in m && k !in items
    ensures forall k :: k in r ==> r[k] == m[k]
  {
    r := m;
    var i := 0;
    while i < |items|
      invariant 0 <= i <= |items|
      invariant forall k :: k in r <==> k in m && k !in items[..i]
      invariant forall k :: k in r ==> r[k] == m[k]
    {
      assert items[..i + 1] == items[..i] + [items[i]];
      r := r - {items[i]};
      i := i + 1;
    }
    assert items[..i] == items;
  }

  /** The store part of `remove_package`: collect the keys the path owns,
      then delete them. */
  method PruneOwnedKeys<V>(m: map<Key, V>, path: Key) returns (r: map<Key, V>)
    ensures r == PruneStore(m, path)
  {
    var items := CollectOwnedKeys(m, path);
    r := DeleteKeys(m, items);
  }

  /** After `remove_package` the store holds exactly the keys that differ
      from the path at some position both have, each with its old value; in
      particular every key extending the path, and every key that is a prefix
      of it, is gone. */
  lemma {:induction false} PruneStoreKeeps<V>(m: map<Key, V>, path: Key)
    ensures forall k :: k in PruneStore(m, path) <==>
      k in m && exists i :: 0 <= i < |path| && i < |k| && path[i] != k[i]
    ensures forall k :: k in PruneStore(m, path) ==> PruneStore(m, path)[k] == m[k]
    ensures forall k :: k in m && |k| <= |path| && k == path[..|k|] ==> k !in PruneStore(m, path)
    ensures forall k :: k in m && |path| <= |k| && k[..|path|] == path ==> k !in PruneStore(m, path)
  {
    forall k | k in m && |path| <= |k| && k[..|path|] == path ensures IsSubkey(path, k) {
      assert forall i :: 0 <= i < |path| ==> k[..|path|][i] == k[i];
    }
  }

  // ---------------------------------------------------------------------------
  // _rename_package
  // ---------------------------------------------------------------------------

  /** Python's `s[:j]` for any integer `j` (a negative `j` counts from the end). */
  function PyPrefix<T>(s: seq<T>, j: int): (r: seq<T>)
    ensures 0 <= j <= |s| ==> r == s[..j]
    ensures 0 < |s| && j == -1 ==> r == s[..|s| - 1]
    ensures |s| == 0 ==> r == []
  {
    var e := if j < 0 then |s| + j else j;
    if e <= 0 then [] else if e >= |s| then s else s[..e]
  }

  /** Python's `s[j:]` for any integer `j`. */
  function PySuffix<T>(s: seq<T>, j: int): (r: seq<T>)
    ensures 0 <= j <= |s| ==> r == s[j..]
    ensures j >= |s| ==> r == []
    ensures j == -1 && |s| > 0 ==> r == [s[|s| - 1]]
  {
    var b := if j < 0 then |s| + j else j;
    if b <= 0 then s else if b >= |s| then [] else s[b..]
  }

  /** The key formula of `_rename_package`:
      `package.path[:-1] + (new_name,) + key[len(package.path) - 1:]`. It
      INSERTS the new name before position `|path| - 1` of the key and keeps
      the old name component that sits there. */
  function RenamedKey(path: Key, newName: string, key: Key): (r: Key)
    ensures |path| >= 1 && |key| >= |path| - 1 ==>
      |r| == |key| + 1 && r[|path| - 1] == Name(newName) &&
      r[..|path| - 1] == path[..|path| - 1] && r[|path|..] == key[|path| - 1..]
  {
    PyPrefix(path, -1) + [Name(newName)] + PySuffix(key, |path| - 1)
  }

  /** `main_dict[new_key] = main_dict.pop(key)` for one key: the value is
      popped first, then stored under the new key. */
  function RekeyOne<V>(m: map<Key, V>, key: Key, path: Key, newName: string): map<Key, V>
    requires key in m
  {
    (m - {key})[RenamedKey(path, newName, key) := m[key]]
  }

  /** The fix-up loop of `_rename_package`: the keys are re-keyed one after
      the other, so a later assignment overwrites an earlier one. */
  function RekeyAll<V>(m: map<Key, V>, items: seq<Key>, path: Key, newName: string): map<Key, V>
    requires Distinct(items)
    requires forall i :: 0 <= i < |items| ==> items[i] in m
    decreases |items|
  {
    if |items| == 0 then m
    else
      DistinctSuffix(items, 1);
      RekeyAll(RekeyOne(m, items[0], path, newName), items[1..], path, newName)
  }

  /** The fix-up loop itself. */
  method RekeyKeys<V>(m: map<Key, V>, items: seq<Key>, path: Key, newName: string) returns (r: map<Key, V>)
    requires Distinct(items)
    requires forall i :: 0 <= i < |items| ==> items[i] in m
    ensures r == RekeyAll(m, items, path, newName)
  {
    r := m;
    var i := 0;
    while i < |items|
      invariant 0 <= i <= |items|
      invariant forall j :: i <= j < |items| ==> items[j] in r
      invariant Distinct(items[i..])
      invariant RekeyAll(m, items, path, newName) == RekeyAll(r, items[i..], path, newName)
    {
      var key := items[i];
      assert items[i..][0] == key && items[i..][1..] == items[i + 1..];
      DistinctSuffix(items, i + 1);
      var newKey := RenamedKey(path, newName, key);
      var value := r[key];
      r := r - {key};
      r := r[newKey := value];
      i := i + 1;
    }
  }

  /** The new keys that re-keying `items` writes. */
  ghost function Targets(items: seq<Key>, path: Key, newName: string): set<Key>
    decreases |items|
  {
    if |items| == 0 then {} else {RenamedKey(path, newName, items[0])} + Targets(items[1..], path, newName)
  }

  lemma {:induction false} TargetsOf(items: seq<Key>, path: Key, newName: string)
    ensures forall k :: k in Targets(items, path, newName) <==> exists x :: x in items && RenamedKey(path, newName, x) == k
    decreases |items|
  {
    if |items| > 0 {
      TargetsOf(items[1..], path, newName);
      assert items == [items[0]] + items[1..];
    }
  }

  /** Whatever the order: a key that is neither re-keyed nor a target keeps
      its value. */
  lemma {:induction false} RekeyKeepsUntouched<V>(m: map<Key, V>, items: seq<Key>, path: Key, newName: string, k: Key)
    requires Distinct(items)
    requires forall i :: 0 <= i < |items| ==> items[i] in m
    requires k in m && k !in items && k !in Targets(items, path, newName)
    ensures var r := RekeyAll(m, items, path, newName); k in r && r[k] == m[k]
    decreases |items|
  {
    if |items| > 0 {
      DistinctSuffix(items, 1);
      assert items == [items[0]] + items[1..];
      RekeyKeepsUntouched(RekeyOne(m, items[0], path, newName), items[1..], path, newName, k);
    }
  }

  /** Whatever the order: every key of the result is an untouched key of the
      old store or one of the targets. */
  lemma {:induction false} RekeyNewKeys<V>(m: map<Key, V>, items: seq<Key>, path: Key, newName: string, k: Key)
    requires Distinct(items)
    requires forall i :: 0 <= i < |items| ==> items[i] in m
    requires k in RekeyAll(m, items, path, newName)
    ensures (k in m && k !in items) || k in Targets(items, path, newName)
    decreases |items|
  {
    if |items| > 0 {
      DistinctSuffix(items, 1);
      assert items == [items[0]] + items[1..];
      RekeyNewKeys(RekeyOne(m, items[0], path, newName), items[1..], path, newName, k);
    }
  }

  /** No two re-keyed keys share a target and no target is itself re-keyed. */
  ghost predicate NoCollision(items: seq<Key>, path: Key, newName: string) {
    && (forall a, b :: 0 <= a < b < |items| ==> RenamedKey(path, newName, items[a]) != RenamedKey(path, newName, items[b]))
    && (forall a, b :: 0 <= a < |items| && 0 <= b < |items| ==> RenamedKey(path, newName, items[a]) != items[b])
  }

  lemma {:induction false} NoCollisionSuffix(items: seq<Key>, path: Key, newName: string)
    requires |items| > 0 && NoCollision(items, path, newName)
    ensures NoCollision(items[1..], path, newName)
    ensures RenamedKey(path, newName, items[0]) !in items[1..]
    ensures RenamedKey(path, newName, items[0]) !in Targets(items[1..], path, newName)
    ensures items[0] !in Targets(items[1..], path, newName)
  {
    var rest := items[1..];
    assert forall a :: 0 <= a < |rest| ==> rest[a] == items[a + 1];
    TargetsOf(rest, path, newName);
  }

  /** Without collisions every re-keyed entry carries its value to its
      target and leaves its old key, whatever the order. */
  lemma {:induction false} RekeyMovesValues<V>(m: map<Key, V>, items: seq<Key>, path: Key, newName: string, i: nat)
    requires Distinct(items)
    requires forall a :: 0 <= a < |items| ==> items[a] in m
    requires NoCollision(items, path, newName)
    requires i < |items|
    ensures var r := RekeyAll(m, items, path, newName);
      items[i] !in r && RenamedKey(path, newName, items[i]) in r && r[RenamedKey(path, newName, items[i])] == m[items[i]]
    decreases |items|
  {
    DistinctSuffix(items, 1);
    NoCollisionSuffix(items, path, newName);
    var m1 := RekeyOne(m, items[0], path, newName);
    var rest := items[1..];
    if i == 0 {
      var t0 := RenamedKey(path, newName, items[0]);
      assert items[0] != t0;
      assert items[0] !in rest;
      RekeyKeepsUntouched(m1, rest, path, newName, t0);
      if items[0] in RekeyAll(m1, rest, path, newName) {
        RekeyNewKeys(m1, rest, path, newName, items[0]);
      }
    } else {
      assert rest[i - 1] == items[i];
      assert items[i] != items[0];
      RekeyMovesValues(m1, rest, path, newName, i - 1);
    }
  }

  /** A matching key at least `|path| - 1` long is the path's first
      `|path| - 1` components followed by the rest of the key. */
  lemma {:induction false} RenamedKeyShape(path: Key, newName: string, key: Key)
    requires |path| >= 1 && IsSubkey(path, key) && |key| >= |path| - 1
    ensures key == path[..|path| - 1] + key[|path| - 1..]
    ensures RenamedKey(path, newName, key) == path[..|path| - 1] + [Name(newName)] + key[|path| - 1..]
  {
    assert key[..|path| - 1] == path[..|path| - 1];
    assert key == key[..|path| - 1] + key[|path| - 1..];
  }

  /** Under the conditions of `RenameRekeysOwnedKeys` no two owned keys
      collide. */
  lemma {:induction false} OwnedKeysDoNotCollide(path: Key, newName: string, items: seq<Key>)
    requires |path| >= 1 && path[|path| - 1] != Name(newName)
    requires forall i :: 0 <= i < |items| ==> IsSubkey(path, items[i]) && |items[i]| >= |path| - 1
    requires Distinct(items)
    ensures NoCollision(items, path, newName)
  {
    var p := |path| - 1;
    forall a | 0 <= a < |items|
      ensures RenamedKey(path, newName, items[a]) == path[..p] + [Name(newName)] + items[a][p..]
      ensures items[a] == path[..p] + items[a][p..]
    {
      RenamedKeyShape(path, newName, items[a]);
    }
    forall a, b | 0 <= a < b < |items|
      ensures RenamedKey(path, newName, items[a]) != RenamedKey(path, newName, items[b])
    {
      var ta := RenamedKey(path, newName, items[a]);
      var tb := RenamedKey(path, newName, items[b]);
      assert items[a][p..] == ta[p + 1..];
      assert items[b][p..] == tb[p + 1..];
      assert items[a] != items[b];
    }
    forall a, b | 0 <= a < |items| && 0 <= b < |items|
      ensures RenamedKey(path, newName, items[a]) != items[b]
    {
      var ta := RenamedKey(path, newName, items[a]);
      assert ta[p] == Name(newName);
      assert !IsSubkey(path, ta);
    }
  }

  /** The rename formula. When the path is not empty, the new name differs
      from the path's last component and no matching key is shorter than
      `|path| - 1`, the result does not depend on the order in which the keys
      are visited: every matching key `k` is replaced by
      `path[..|path| - 1] + [new_name] + k[|path| - 1..]` carrying its value
      (overwriting an entry already stored there), every other key keeps its
      value unless it is such a target, and nothing else is in the store. */
  lemma {:induction false} RenameRekeysOwnedKeys<V>(m: map<Key, V>, items: seq<Key>, path: Key, newName: string)
    requires IsEnumeration(items, OwnedKeys(m, path))
    requires forall i :: 0 <= i < |items| ==> items[i] in m
    requires |path| >= 1 && path[|path| - 1] != Name(newName)
    requires forall k :: k in m && IsSubkey(path, k) ==> |k| >= |path| - 1
    ensures var r := RekeyAll(m, items, path, newName);
      var targets := set k | k in m && IsSubkey(path, k) :: RenamedKey(path, newName, k);
      && (forall k :: k in m && IsSubkey(path, k) ==>
            k !in r && RenamedKey(path, newName, k) in r && r[RenamedKey(path, newName, k)] == m[k])
      && (forall k :: k in m && !IsSubkey(path, k) && k !in targets ==> k in r && r[k] == m[k])
      && (forall k :: k in r ==> (k in m && !IsSubkey(path, k)) || k in targets)
  {
    var targets := set k | k in m && IsSubkey(path, k) :: RenamedKey(path, newName, k);
    forall i | 0 <= i < |items| ensures IsSubkey(path, items[i]) && |items[i]| >= |path| - 1 {
      assert items[i] in items;
    }
    OwnedKeysDoNotCollide(path, newName, items);
    TargetsOf(items, path, newName);
    assert Targets(items, path, newName) == targets;
    var r := RekeyAll(m, items, path, newName);
    forall k | k in m && IsSubkey(path, k)
      ensures k !in r && RenamedKey(path, newName, k) in r && r[RenamedKey(path, newName, k)] == m[k]
    {
      assert k in items;
      var i :| 0 <= i < |items| && items[i] == k;
      RekeyMovesValues(m, items, path, newName, i);
    }
    forall k | k in m && !IsSubkey(path, k) && k !in targets
      ensures k in r && r[k] == m[k]
    {
      RekeyKeepsUntouched(m, items, path, newName, k);
    }
    forall k | k in r
      ensures (k in m && !IsSubkey(path, k)) || k in targets
    {
      RekeyNewKeys(m, items, path, newName, k);
    }
  }

  /** A worked example: renaming the package at
      ("gwf1", "wel", "WEL-1") to "WEL-2" moves the key
      ("gwf1", "wel", "WEL-1", "period", 1). As written the new name is
      inserted, so the old name component survives after it. */
  lemma RenamedKeyExample()
    ensures RenamedKey([Name("gwf1"), Name("wel"), Name("WEL-1")], "WEL-2",
                       [Name("gwf1"), Name("wel"), Name("WEL-1"), Name("period"), Number(1)])
         == [Name("gwf1"), Name("wel"), Name("WEL-2"), Name("WEL-1"), Name("period"), Number(1)]
  {
  }

  /** A key that is a proper prefix of the path (a model-level entry) matches
      too, and its re-keyed form is the path with its last component
      replaced. */
  lemma {:induction false} ShortKeyIsRenamed(path: Key, newName: string, k: nat)
    requires 1 <= |path| && k <= |path| - 1
    ensures IsSubkey(path, path[..k])
    ensures RenamedKey(path, newName, path[..k]) == path[..|path| - 1] + [Name(newName)]
  {
  }

  /** With an empty path every key matches, and `path[:-1]` and
      `key[-1:]` make the re-keyed form the new name followed by the key's
      last component. */
  lemma {:induction false} EmptyPathRename(newName: string, key: Key)
    requires |key| > 0
    ensures IsSubkey([], key)
    ensures RenamedKey([], newName, key) == [Name(newName), key[|key| - 1]]
  {
  }
}
