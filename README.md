# flopy MODFLOW 6 package registry and path manager, in Dafny

This project models two cooperating parts of flopy's MODFLOW 6 support and
proves properties of them.

- **The package registry**, `PackageContainer` in `flopy/mf6/mfbase.py`.
  - It keeps an ordered list of packages and three case-insensitive indexes over it: by package name, by package type (each type has a bucket of packages), and by file name.
  - It keeps the simulation's shared data store `mfdata` in step when a package is removed or renamed. The store's keys are tuples.
  - It has a layered lookup, `get_package`, and two helpers: `_in_pkg_list`, a membership test that tolerates a version digit, and `_load_only_dict`, which normalises a filter.
  - It models the class-level catalog lookups `package_factory` and `package_list`.
- **The path manager**, `MFFileMgmt` and `MFFilePath` in `flopy/mf6/_file_management.py`.
  - It holds a simulation root, each model's path relative to that root, and a "last loaded" snapshot of both.
  - It holds a table of external files, each with the set of models that use it.
  - It resolves paths, strips a model's relative path from a path, and builds unique file names.

Paths are POSIX strings:
- `isabs` means "starts with `/`".
- `os.path.join` drops the left side when the right side is absolute. Otherwise it inserts a `/` unless the left side is empty or already ends in one.
- `PurePosixPath` is modelled by its parts: the anchor `/`, then the non-empty components other than `.`.

Each file is one module:

| file | module | what it holds |
|---|---|---|
| `wrappers.dfy` | `Wrappers` | `Option`, `Result`, and the Python exceptions the core can raise |
| `strings.dfy` | `Strings` | the `str` built-ins the core uses: ASCII `lower`, `split`, `join`, `replace`, `endswith`, `s[0:-1]`, decimal `str(int)`, the order `<` |
| `posix_path.dfy` | `PosixPath` | `os.path.isabs` / `join` / `splitext`; `PurePosixPath` parts, string form and `relative_to` |
| `store_keys.dfy` | `StoreKeys` | store keys, the `zip` prefix test, the delete and re-key rewrites of `mfdata` |
| `package_registry.dfy` | `PackageRegistry` | `Package`, `SimulationData`, the class `PackageContainer` and the index invariants |
| `package_filters.dfy` | `PackageFilters` | `_in_pkg_list` and `_load_only_dict` |
| `package_catalog.dfy` | `PackageCatalog` | `package_factory` and `package_list` over a catalog map |
| `file_management.dfy` | `FileManagement` | `resolve_path`, `get_model_path`, the snapshot, `strip_model_relative_path`, unique names, external files, and the classes `FilePath` and `FileMgmt` |

The code is modelled as written, quirks included:
- **The type bucket reset in `add_package`.** The guard tests the type as given, but the bucket is stored under the lower-cased type. So adding a package whose type has upper-case letters starts a fresh one-element bucket every time. The lemma `AddResetsMixedCaseBucket` states this.
- **The rename key formula.** `_rename_package` builds `path[:-1] + (new_name,) + key[len(path) - 1:]`. That formula inserts `new_name` in front of the old last component and keeps that component; it does not replace it. The model follows the code. `RenamedKeyExample` shows the result on a concrete key.
- **The `zip` prefix test.** It also matches keys shorter than the path, and the empty key. `ShortKeyIsRenamed` and `PruneStoreKeeps` state the consequences.
- **No fallback in `get_model_path(key, last_loaded_path=True)`.** An unknown key raises `KeyError`. If the key is known but there is no snapshot root yet, `os.path.join(None, ...)` raises `TypeError`.
- **`set_last_accessed_model_path` merges.** It copies the live entries into the snapshot and keeps entries that are only in the snapshot.

Python's exceptions are values of `Result`:
- `AttributeError` occurs when `_in_pkg_list` splits a `None` type.
- `IndexError` occurs when a type is empty or starts with `-`, because its first segment is empty and `pkg_type[0][-1]` fails.
- `FlopyException` occurs when the `load_only` argument is not iterable.
- `KeyError` and `TypeError` come from the path lookups.

Where Python walks a dict or a set in an order the model does not fix, the model walks it in any order (`:|`). The contracts hold for every order. `RenamePackage` returns the order it used as a ghost value.

## Model

| member | source | states |
|---|---|---|
| PosixPath.JoinParts | flopy/mf6/_file_management.py:238-240 | `os.path.join` of a relative path onto any root has the root's parts followed by the path's parts |
| PosixPath.RelativeTo | flopy/mf6/_file_management.py:114-120 | `relative_to` succeeds exactly when the base's parts are a prefix of the path's parts, and then the path is the base followed by the result |
| PosixPath.Join | flopy/mf6/_file_management.py:168-173 | `os.path.join`: an absolute right side is the result; a relative right side joined onto an absolute left side stays absolute |
| PosixPath.SplitExt | flopy/mf6/_file_management.py:134 | `splitext` splits the name into stem and extension that concatenate back to it; a non-empty extension is a dot followed by no other dot and no `/`, so it starts at the last dot |
| PosixPath.SplitExtDecides | flopy/mf6/_file_management.py:134-138 | an extension is split off exactly when the last component holds a dot with a non-dot character before it, and then it starts at the name's last dot |
| PosixPath.SplitExtLastDot | flopy/mf6/_file_management.py:134 | "a.tar.gz" splits into "a.tar" and ".gz" |
| PosixPath.SplitExtLeadingDot | flopy/mf6/_file_management.py:134 | ".bashrc" has no extension |
| PosixPath.SplitExtDirectoryDot | flopy/mf6/_file_management.py:134 | "d.x/f" has no extension: the dot is in a directory name |
| StoreKeys.ZipMatch | flopy/mf6/mfbase.py:318-322 | the `is_subkey` flag with early `break` is true exactly when key and path agree on every position both have |
| StoreKeys.CollectOwnedKeys | flopy/mf6/mfbase.py:316-324 | `items_to_remove` lists every matching store key exactly once, and nothing else |
| StoreKeys.DeleteKeys | flopy/mf6/mfbase.py:327-328 | the `del` loop leaves exactly the keys not listed, each with its old value |
| StoreKeys.PruneOwnedKeys | flopy/mf6/mfbase.py:315-328 | the store part of `remove_package` yields the store without the matching keys |
| StoreKeys.PruneStoreKeeps | flopy/mf6/mfbase.py:315-328 | after removal a key survives iff it differs from the path at a position both have; survivors keep their values; keys extending the path and keys that are prefixes of it are gone |
| StoreKeys.PyPrefix | flopy/mf6/mfbase.py:353 | the slice `path[:-1]`: all but the last component, empty for an empty path |
| StoreKeys.PySuffix | flopy/mf6/mfbase.py:353 | the slice `key[j:]`, including `j == -1` (the last component) for an empty path |
| StoreKeys.RekeyKeys | flopy/mf6/mfbase.py:351-355 | the re-key loop (pop, then assign, one key after another) equals the sequential rewrite `RekeyAll` |
| StoreKeys.RekeyKeepsUntouched | flopy/mf6/mfbase.py:339-355 | a key that is neither re-keyed nor the target of a re-key keeps its value |
| StoreKeys.RekeyNewKeys | flopy/mf6/mfbase.py:339-355 | every key after the rewrite was an untouched old key or a target of a re-keyed one |
| StoreKeys.RekeyMovesValues | flopy/mf6/mfbase.py:351-355 | without collisions each re-keyed key is gone and its value sits under its new key |
| StoreKeys.RenamedKey | flopy/mf6/mfbase.py:352-354 | the new key is one component longer than the old key: the path without its last component, then the new name, then the old key from position `len(path) - 1` on |
| StoreKeys.RenamedKeyShape | flopy/mf6/mfbase.py:352-354 | a matching key is `path[:-1]` plus its tail, and its new key puts the new name between the two |
| StoreKeys.OwnedKeysDoNotCollide | flopy/mf6/mfbase.py:352-354 | when the new name differs from the path's last component, the new keys of distinct matching keys differ from each other and from every matching key |
| StoreKeys.RenameRekeysOwnedKeys | flopy/mf6/mfbase.py:339-355 | after the rename every matching key has moved with its value to its new key; other keys are kept unless one is a target; nothing else appears |
| StoreKeys.RenamedKeyExample | flopy/mf6/mfbase.py:352-354 | the new key of ("gwf1","wel","WEL-1","period",1) under "WEL-2" is ("gwf1","wel","WEL-2","WEL-1","period",1) |
| StoreKeys.ShortKeyIsRenamed | flopy/mf6/mfbase.py:341-354 | a key that is a proper prefix of the path matches, and is re-keyed to the path with its last component replaced by the new name |
| StoreKeys.EmptyPathRename | flopy/mf6/mfbase.py:341-354 | with an empty path every key matches and becomes the new name followed by the key's last component |
| PackageRegistry.FirstIndex | flopy/mf6/mfbase.py:297 | the first position of the package in the list |
| PackageRegistry.RemoveFirst | flopy/mf6/mfbase.py:297 | `list.remove` drops only the first occurrence, keeping the order of the rest, and removes exactly one copy |
| PackageRegistry.AddIndexEntry | flopy/mf6/mfbase.py:287-290 | a package with a name (file name) is stored under its lower-cased key, overwriting any earlier entry; without one the index is unchanged |
| PackageRegistry.AddToTypeIndex | flopy/mf6/mfbase.py:291-293 | the type step of `add_package`, guard on the un-lowered type included |
| PackageRegistry.DropIndexEntry | flopy/mf6/mfbase.py:298-307 | the entry under the lower-cased name (file name) is deleted when there is one, whatever package it holds |
| PackageRegistry.DropFromTypeIndex | flopy/mf6/mfbase.py:308-313 | the package leaves its bucket if it is there, and an emptied bucket is deleted |
| PackageRegistry.AddKeepsTypeIndex | flopy/mf6/mfbase.py:291-293 | adding keeps the type index keyed by lower-cased types with matching buckets; a lower-case type extends its bucket; a mixed-case type's bucket becomes `[package]` |
| PackageRegistry.RemoveKeepsTypeIndex | flopy/mf6/mfbase.py:308-313 | removing keeps the type index keyed by lower-cased types, with no empty bucket left behind |
| PackageRegistry.AddKeepsBucketsWithinList | flopy/mf6/mfbase.py:284-293 | after adding, the package is the last element of its bucket and no bucket holds a package more often than the list |
| PackageRegistry.RemoveMultiset | flopy/mf6/mfbase.py:296-297 | removing from the list takes exactly one copy of the package if there is one |
| PackageRegistry.RemoveKeepsWithin | flopy/mf6/mfbase.py:296-311 | removing the same package from a bucket and from the list keeps the bucket within the list |
| PackageRegistry.RemoveKeepsBucketsWithinList | flopy/mf6/mfbase.py:295-313 | after removal no bucket holds a package more often than the list |
| PackageRegistry.OtherBucketsUnchanged | flopy/mf6/mfbase.py:291-313 | adding or removing a package touches only the bucket of its lower-cased type |
| PackageRegistry.RemoveLastAdded | flopy/mf6/mfbase.py:286-297 | removing a package just appended to a list that lacked it gives the list back |
| PackageRegistry.IndexRemoveUndoesAdd | flopy/mf6/mfbase.py:287-307 | removing undoes adding in the name and file-name indexes when the key was free |
| PackageRegistry.NotListedNotBucketed | flopy/mf6/mfbase.py:291-313 | a package missing from the list is in no bucket |
| PackageRegistry.RemoveUndoesAddToBucket | flopy/mf6/mfbase.py:291-313 | removing undoes adding to an existing non-empty bucket of a lower-case type |
| PackageRegistry.RemoveUndoesAddNewBucket | flopy/mf6/mfbase.py:291-313 | removing undoes an add that started a new bucket |
| PackageRegistry.RemoveUndoesAddTypes | flopy/mf6/mfbase.py:291-313 | removing undoes adding in the type index, unless the add reset an existing mixed-case bucket |
| PackageRegistry.RemoveUndoesAdd | flopy/mf6/mfbase.py:284-313 | `remove_package` after `add_package` of a new package restores the list and all three indexes |
| PackageRegistry.AddResetsMixedCaseBucket | flopy/mf6/mfbase.py:291-292 | adding a package whose type has upper-case letters drops every other package of that type from the type index |
| PackageRegistry.FirstPrefixMatchIsFirst | flopy/mf6/mfbase.py:398-406 | the partial-name scan finds nothing iff no package matches, and otherwise finds the first match in list order |
| PackageRegistry.TruncatedCompare | flopy/mf6/mfbase.py:402-405 | truncating the lower-cased name to the query's length and comparing case-insensitively means the query is a prefix of the name, ignoring case |
| PackageRegistry.BucketFound | flopy/mf6/mfbase.py:385-391 | a bucket gives `None` when empty, its one package at size 1, and the whole list when larger |
| PackageRegistry.PackageContainer.constructor | flopy/mf6/mfbase.py:195-200 | a new container is empty and valid |
| PackageRegistry.PackageContainer.PackageDict | flopy/mf6/mfbase.py:274-277 | the copy of the name index has the same lower-case keys and packages |
| PackageRegistry.PackageContainer.PackageNames | flopy/mf6/mfbase.py:279-282 | every indexed name exactly once, all lower-case |
| PackageRegistry.PackageContainer.AddPackage | flopy/mf6/mfbase.py:284-293 | appends to the list and updates the three indexes as `add_package` does, keeping the index invariants; the store is unchanged |
| PackageRegistry.PackageContainer.RemovePackage | flopy/mf6/mfbase.py:295-328 | never fails; removes one copy from the list, the indexed name and file-name entries and the package from its bucket (deleting an empty bucket), and every matching store key |
| PackageRegistry.PackageContainer.RenamePackage | flopy/mf6/mfbase.py:330-355 | moves the name index entry to the lower-cased new name, leaves list, type and file-name indexes unchanged, and re-keys exactly the matching store keys in the order it returns |
| PackageRegistry.PackageContainer.GetPackage | flopy/mf6/mfbase.py:357-408 | the layered lookup in its fixed order: no name, name index, type bucket, file-name index, first prefix match, `None` |
| PackageFilters.InPkgListResult | flopy/mf6/mfbase.py:428-453 | the reference result of `_in_pkg_list`: a lower-cased name hit is found; `AttributeError` exactly for a `None` type without a name hit; the only errors are `AttributeError` and `IndexError` |
| PackageFilters.SegmentsMatch | flopy/mf6/mfbase.py:444-448 | the `matches` flag is true iff every key segment equals the query segment or the query segment minus its last character |
| PackageFilters.InPkgList | flopy/mf6/mfbase.py:428-453 | direct lower-cased hit; otherwise the errors for a `None` type or an empty first segment; then false without a trailing digit, else whether some key matches segment by segment |
| PackageFilters.VersionedQueryFound | flopy/mf6/mfbase.py:436-450 | a versioned query of any case whose lower-cased segments match a listed key segment by segment is found |
| PackageFilters.TrailingDigitFound | flopy/mf6/mfbase.py:439-450 | a listed key followed by any one digit is found |
| PackageFilters.GwfExample | flopy/mf6/mfbase.py:428-450 | `{"gwf"}` with type "gwf6" gives true |
| PackageFilters.SingleSegmentMatch | flopy/mf6/mfbase.py:443-448 | a one-segment query matches a one-segment key iff the key is the query or the query without its last character |
| PackageFilters.SingleSegmentNotFound | flopy/mf6/mfbase.py:436-453 | a versioned one-segment query whose forms with and without the digit are both unlisted is not found |
| PackageFilters.RivExample | flopy/mf6/mfbase.py:428-453 | `{"riv"}` with type "gwf6" and name "wel" gives false |
| PackageFilters.NoTypeExample | flopy/mf6/mfbase.py:429-437 | a `None` type without a name hit raises `AttributeError` |
| PackageFilters.EmptyFirstSegmentRaises | flopy/mf6/mfbase.py:437-441 | an empty type, or one starting with `-`, with no direct hit raises `IndexError` |
| PackageFilters.EmptyTypeExample | flopy/mf6/mfbase.py:437-441 | `{"riv"}` with the empty type raises `IndexError` |
| PackageFilters.LeadingHyphenExample | flopy/mf6/mfbase.py:437-441 | `{"riv"}` with type "-riv" raises `IndexError` |
| PackageFilters.Iterated | flopy/mf6/mfbase.py:423 | iterating a list visits its items; iterating a string visits its characters |
| PackageFilters.LoadOnlyToDict | flopy/mf6/mfbase.py:411-425 | `None` gives `None`; a dict comes back as it is; a non-iterable raises `FlopyException`; otherwise the keys are exactly the lower-cased items, all mapped to true |
| PackageFilters.TextIsIteratedByCharacter | flopy/mf6/mfbase.py:422-424 | a string of two or more characters yields one-character keys, none of them the lower-cased string itself |
| PackageCatalog.Get | flopy/mf6/mfbase.py:236 | `dict.get`: the value under a present key, `None` otherwise |
| PackageCatalog.PackageFactory | flopy/mf6/mfbase.py:217-240 | found iff the model-type key or the "utl" key is present; the model-type class wins; otherwise the utility class |
| PackageCatalog.FactoryFallsBackToUtility | flopy/mf6/mfbase.py:235-240 | a registered utility class is always found, is a catalog class, and is what the "utl" lookup gives when nothing shadows it |
| PackageCatalog.SortedKeys | flopy/mf6/mfbase.py:211 | `sorted` on the abbreviations: every key once, strictly increasing |
| PackageCatalog.PackageList | flopy/mf6/mfbase.py:202-215 | the classes of exactly the abbreviations not ending in "packages", in increasing abbreviation order |
| PackageCatalog.SortedIsUnique | flopy/mf6/mfbase.py:211-215 | only one strictly sorted sequence lists a given set, so the order of `package_list` is determined |
| FileManagement.CleanQuotes | flopy/mf6/_file_management.py:229-230 | no quote is left and every other character that occurs stays |
| FileManagement.CleanQuotesLaws | flopy/mf6/_file_management.py:229-230 | quote removal distributes over concatenation, deletes a single quote and keeps any other single character, so the kept characters keep their order and number |
| FileManagement.Resolve | flopy/mf6/_file_management.py:215-240 | an absolute path is kept, or becomes the root when moving; a relative path is joined onto the root; `TypeError` exactly when it is relative and there is no root |
| FileManagement.ResolveRelative | flopy/mf6/_file_management.py:238-240 | a relative path resolves to the root's parts followed by its own, absolute under an absolute root |
| FileManagement.ResolveIdempotent | flopy/mf6/_file_management.py:215-240 | under an absolute root without quotes, a resolved path resolves to itself |
| FileManagement.ModelPath | flopy/mf6/_file_management.py:172-175 | an unknown model gives the root; a relative model path gives the root's parts followed by its own; an absolute root gives an absolute result |
| FileManagement.LastModelPath | flopy/mf6/_file_management.py:167-171 | `KeyError` for a model missing from the snapshot, then `TypeError` without a snapshot root; success only with both |
| FileManagement.Snapshot | flopy/mf6/_file_management.py:146-149 | the snapshot holds every live entry with its live value and keeps the entries only it has |
| FileManagement.SnapshotAgrees | flopy/mf6/_file_management.py:140-175 | right after a snapshot the last-loaded path of a live model is its current path; a snapshot-only model keeps its old path; any other model raises `KeyError` where the live lookup gives the root |
| FileManagement.MergeSnapshot | flopy/mf6/_file_management.py:148-149 | the copy loop equals the merged snapshot |
| FileManagement.PathStrNonEmpty | flopy/mf6/_file_management.py:109 | the string form of a path is never empty |
| FileManagement.StripModelRelative | flopy/mf6/_file_management.py:100-122 | the path is returned unchanged when stripping is skipped, and in POSIX form when it does not start with the model's path |
| FileManagement.StripJoined | flopy/mf6/_file_management.py:100-122 | whenever stripping applies to the model, its relative path `rel` joined with any relative `tail` strips to the POSIX form of `tail`, and `rel` itself strips to "." |
| FileManagement.PathStrOfSegments | flopy/mf6/_file_management.py:122 | a normal-form relative path is its own POSIX form, so a normal-form tail comes back unchanged |
| FileManagement.BuildFile | flopy/mf6/_file_management.py:132-138 | the name is the stem, `_`, the number and the extension; with no extension it ends in the number |
| FileManagement.BuildFileInjective | flopy/mf6/_file_management.py:132-138 | different numbers build different names |
| FileManagement.FreshName | flopy/mf6/_file_management.py:127-129 | the name for a number is not among the names for smaller numbers |
| FileManagement.UniqueFileName | flopy/mf6/_file_management.py:124-130 | the result is not in `lookup` and is the name for the least number whose name is free |
| FileManagement.ModelsAfterAdd | flopy/mf6/_file_management.py:186-193 | the table gains the file's record |
| FileManagement.AddExtFileProperties | flopy/mf6/_file_management.py:186-193 | `add_ext_file` is idempotent, records the model, removes no record or model and leaves other records alone |
| FileManagement.AbsoluteRecordsStay | flopy/mf6/_file_management.py:66-75 | an absolute record resolves to itself under both roots, so it is never copied whatever `copy_relative_only` says |
| FileManagement.AbsolutePath | flopy/mf6/_file_management.py:213 | `Path(path).absolute()` taken from an absolute working directory is absolute |
| FileManagement.FilePath.IsAbsolute | flopy/mf6/_file_management.py:22-23 | `isabs()`: the record's path starts with `/` (no contract; defined by `IsAbs`) |
| FileManagement.FilePath.constructor | flopy/mf6/_file_management.py:18-20 | a record holds its path and exactly one model |
| FileManagement.FileMgmt.constructor | flopy/mf6/_file_management.py:44-55 | the root is the absolute form of the path; every table is empty; there is no snapshot root |
| FileManagement.FileMgmt.SetSimPath | flopy/mf6/_file_management.py:195-213 | the root becomes the absolute form of the path and nothing else changes |
| FileManagement.FileMgmt.GetSimPath | flopy/mf6/_file_management.py:177-184 | the snapshot root or the current root by the flag; every root given is absolute |
| FileManagement.FileMgmt.GetModelPath | flopy/mf6/_file_management.py:151-175 | the snapshot lookup with its errors, or the live lookup, which never fails and is absolute |
| FileManagement.FileMgmt.ResolvePath | flopy/mf6/_file_management.py:215-240 | resolution against the root the flag selects; against the current root it always succeeds with an absolute path; the state is unchanged |
| FileManagement.FileMgmt.StripModelRelativePath | flopy/mf6/_file_management.py:100-122 | stripping against the live relative paths; an unknown model gets the path back |
| FileManagement.FileMgmt.CopyDecision | flopy/mf6/_file_management.py:66-75 | the per-record copy decision; an absolute record is never copied |
| FileManagement.FileMgmt.AddExtFile | flopy/mf6/_file_management.py:186-193 | the model sets of the table become `ModelsAfterAdd` of the old ones, the file is in the table, and the rest of the state is unchanged |
| FileManagement.FileMgmt.SetLastAccessedModelPath | flopy/mf6/_file_management.py:146-149 | the snapshot becomes the merge of the old snapshot and the live paths; nothing else changes |
| FileManagement.FileMgmt.SetLastAccessedPath | flopy/mf6/_file_management.py:140-144 | the snapshot root becomes the current root and the relative paths are merged into the snapshot |

## Left out

- The order of Python dicts and sets: loops over `mfdata`, the model-path map and the `load_only` keys take any order. `RenamePackage` exposes the order it used, and the lemmas hold for every order.
- `copy_files`: the filesystem calls (`isfile`, `makedirs`, `copyfile`), the count of copied files and the exception it raises. Only the per-record decision is modelled (`CopyDecision`, `ShouldCopy`), with "the old location is a file" as a parameter.
- `set_sim_path`: `expanduser` is not modelled. `absolute()` takes the working directory as a parameter.
- `get_module_val` and `model_factory`: Python reflection and a plain second-map lookup.
- The exception classes and the building of `MFDataException` messages.
- The warning of `strip_model_relative_path` is not emitted; the predicate `StripWarns` says when it would be.
- Windows path rules (drives, backslashes) and the `//` anchor of `PurePosixPath`: paths are POSIX, and a leading `//` is treated like `/`.
- `str.lower` is modelled for ASCII letters only, and `int(c)` only for ASCII digits.
- `_load_only_dict` items are strings; a non-string item (whose `lower` would raise) is not modelled. The values of a `load_only` dict are modelled as flags.
- `MFFilePath.model_name` is a dict whose values are always 0; it is modelled as the set of its keys.
- `MFFileMgmt._sim_path` is a `Path` object in the source; the model keeps its string form, which is what `os.path.join` uses.
- `PackageContainer.GetPackage` returns a copy of the type bucket. In the source the returned list is the type index's own list, so later adds and removes show through it, and a caller who changes it changes the index.
- `Package` objects: only the four attributes the registry reads are modelled, as constants.
- `StoreKeys.RenameRekeysOwnedKeys`: the exact result is stated only when the new name differs from the path's last component and every matching key has at least `|path| - 1` components; otherwise re-keys can collide, and only `RekeyKeepsUntouched` and `RekeyNewKeys` are stated.
- `PackageRegistry.RemoveUndoesAdd`: stated only when the added package's type is lower-case or has no bucket yet, because an add with a mixed-case type drops the existing bucket (see `AddResetsMixedCaseBucket`).
