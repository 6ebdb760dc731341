/**
 * The path manager of a simulation (flopy/mf6/_file_management.py): the
 * simulation root, each model's path relative to it, a "last loaded"
 * snapshot of both, and the table of external files with the models that
 * use each. Paths are POSIX strings; resolution, stripping and unique names
 * are lexical.
 */
module FileManagement {
  import opened Wrappers
  import opened Strings
  import opened PosixPath

  // ---------------------------------------------------------------------------
  // resolve_path
  // ---------------------------------------------------------------------------

  /** `path.replace("'", "").replace('"', "")`. */
  function CleanQuotes(path: string): (r: string)
    ensures '\'' !in r && '"' !in r
    ensures forall c :: c != '\'' && c != '"' ==> (c in r <==> c in path)
  {
    RemoveAll(RemoveAll(path, '\''), '"')
  }

  /** Quote removal works character by character: it distributes over
      concatenation, deletes each quote and keeps every other character, so
      the kept characters stay in order and none is repeated or dropped. */
  lemma {:induction false} CleanQuotesLaws(a: string, b: string, x: char)
    ensures CleanQuotes(a + b) == CleanQuotes(a) + CleanQuotes(b)
    ensures CleanQuotes([x]) == if x == '\'' || x == '"' then "" else [x]
    ensures CleanQuotes("") == ""
  {
    RemoveAllAppend(a, b, '\'');
    RemoveAllAppend(RemoveAll(a, '\''), RemoveAll(b, '\''), '"');
    RemoveAllChar(x, '\'');
    if x != '\'' {
      RemoveAllChar(x, '"');
    }
  }

  /** `resolve_path` given the root that `get_sim_path(last_loaded_path)`
      returns: quotes are deleted; an absolute path is kept, or replaced
      by the root (which may be `None`) when `move_abs_paths`; a relative
      path is joined onto the root, a `TypeError` when there is none. */
  function Resolve(root: Option<string>, path: string, moveAbsPaths: bool): (r: Result<Option<string>, PyError>)
    ensures r.Err? <==> !IsAbs(CleanQuotes(path)) && root.None?
    ensures r.Err? ==> r.error == TypeError
    ensures IsAbs(CleanQuotes(path)) && !moveAbsPaths ==> r == Ok(Some(CleanQuotes(path)))
    ensures IsAbs(CleanQuotes(path)) && moveAbsPaths ==> r == Ok(root)
    ensures !IsAbs(CleanQuotes(path)) && root.Some? ==> r.Ok? && r.value.Some?
  {
    var filePath := CleanQuotes(path);
    if IsAbs(filePath) then
      if moveAbsPaths then Ok(root) else Ok(Some(filePath))
    else if root.None? then Err(TypeError)
    else Ok(Some(Join(root.value, filePath)))
  }

  /** A relative path resolves to the root's components followed by its
      own; under an absolute root the result is absolute. */
  lemma {:induction false} ResolveRelative(root: string, path: string, moveAbsPaths: bool)
    requires !IsAbs(CleanQuotes(path))
    ensures Resolve(Some(root), path, moveAbsPaths) == Ok(Some(Join(root, CleanQuotes(path))))
    ensures Parts(Join(root, CleanQuotes(path))) == Parts(root) + Parts(CleanQuotes(path))
    ensures IsAbs(root) ==> IsAbs(Join(root, CleanQuotes(path)))
  {
    JoinParts(root, CleanQuotes(path));
  }

  /** Resolving is idempotent under an absolute root without quotes: the
      result of a resolution resolves to itself. */
  lemma {:induction false} ResolveIdempotent(root: string, path: string)
    requires IsAbs(root) && '\'' !in root && '"' !in root
    ensures var r := Resolve(Some(root), path, false);
      r.Ok? && r.value.Some? && Resolve(Some(root), r.value.value, false) == r
  {
    var c := CleanQuotes(path);
    var p := if IsAbs(c) then c else Join(root, c);
    assert '\'' !in p && '"' !in p by {
      if !IsAbs(c) {
        assert Join(root, c) == root + c || Join(root, c) == root + "/" + c;
      }
    }
    RemoveAllAbsent(p, '\'');
    RemoveAllAbsent(p, '"');
    assert CleanQuotes(p) == p;
  }

  // ---------------------------------------------------------------------------
  // get_model_path and the last-loaded snapshot
  // ---------------------------------------------------------------------------

  /** `get_model_path(key)`: the model's relative path joined onto the root,
      or the root itself for an unknown model. */
  function ModelPath(simPath: string, rel: map<string, string>, key: string): (r: string)
    ensures key !in rel ==> r == simPath
    ensures key in rel && !IsAbs(rel[key]) ==> Parts(r) == Parts(simPath) + Parts(rel[key])
    ensures IsAbs(simPath) ==> IsAbs(r)
  {
    if key !in rel then simPath
    else if IsAbs(rel[key]) then Join(simPath, rel[key])
    else
      JoinParts(simPath, rel[key]);
      Join(simPath, rel[key])
  }

  /** `get_model_path(key, last_loaded_path=True)`: the snapshot lookup comes
      first (`KeyError` for an unknown model, with no fallback), then
      `os.path.join` of a missing root (`TypeError`). */
  function LastModelPath(lastSimPath: Option<string>, lastRel: map<string, string>, key: string): (r: Result<string, PyError>)
    ensures key !in lastRel ==> r == Err(KeyError)
    ensures key in lastRel && lastSimPath.None? ==> r == Err(TypeError)
    ensures r.Ok? ==> key in lastRel && lastSimPath.Some?
  {
    if key !in lastRel then Err(KeyError)
    else if lastSimPath.None? then Err(TypeError)
    else Ok(Join(lastSimPath.value, lastRel[key]))
  }

  /** `set_last_accessed_model_path`: every live entry is copied into the
      snapshot, which keeps its other entries. */
  function Snapshot(lastRel: map<string, string>, rel: map<string, string>): (r: map<string, string>)
    ensures forall k :: k in r <==> k in lastRel || k in rel
    ensures forall k :: k in rel ==> r[k] == rel[k]
    ensures forall k :: k in lastRel && k !in rel ==> r[k] == lastRel[k]
  {
    lastRel + rel
  }

  /** Right after `set_last_accessed_path` the last-loaded path of every
      live model is its current path; a model only in the old snapshot keeps
      its old path; a model in neither raises `KeyError` where the live
      lookup returns the root. */
  lemma {:induction false} SnapshotAgrees(simPath: string, rel: map<string, string>, lastRel: map<string, string>, key: string)
    ensures key in rel ==> LastModelPath(Some(simPath), Snapshot(lastRel, rel), key) == Ok(ModelPath(simPath, rel, key))
    ensures key !in rel && key in lastRel ==>
      LastModelPath(Some(simPath), Snapshot(lastRel, rel), key) == Ok(Join(simPath, lastRel[key]))
    ensures key !in rel && key !in lastRel ==>
      LastModelPath(Some(simPath), Snapshot(lastRel, rel), key) == Err(KeyError) && ModelPath(simPath, rel, key) == simPath
  {
    var s := Snapshot(lastRel, rel);
    if key in rel {
      assert s[key] == rel[key];
    } else if key in lastRel {
      assert s[key] == lastRel[key];
    }
  }

  /** The snapshot loop, item by item in some order of the live map. */
  method MergeSnapshot(lastRel: map<string, string>, rel: map<string, string>) returns (r: map<string, string>)
    ensures r == Snapshot(lastRel, rel)
  {
    r := lastRel;
    var rest := rel.Keys;
    while rest != {}
      invariant rest <= rel.Keys
      invariant forall k :: k in r <==> k in lastRel || (k in rel && k !in rest)
      invariant forall k :: k in rel && k !in rest ==> r[k] == rel[k]
      invariant forall k :: k in lastRel && (k !in rel || k in rest) ==> r[k] == lastRel[k]
      decreases rest
    {
      var key :| key in rest;
      r := r[key := rel[key]];
      rest := rest - {key};
    }
  }

  // ---------------------------------------------------------------------------
  // strip_model_relative_path
  // ---------------------------------------------------------------------------

  /** `str(PurePosixPath(s))`. */
  function PathStr(s: string): string {
    FromParts(Parts(s))
  }

  /** The string of a path is never empty, so the `not any(str(...))` guard
      never fires. */
  lemma {:induction false} PathStrNonEmpty(s: string)
    ensures |PathStr(s)| > 0
  {
    var parts := Parts(s);
    if |parts| > 0 && parts[0] != "/" {
      assert parts[0] != "";
      JoinWithStartsWithFirst(parts);
    }
  }

  /** A relative path in normal form is its own POSIX form, so stripping a
      normal-form `rel/tail` gives back `tail` itself. */
  lemma {:induction false} PathStrOfSegments(segs: seq<string>)
    requires |segs| >= 1
    requires forall i :: 0 <= i < |segs| ==> IsSegment(segs[i])
    ensures PathStr(JoinWith(segs, '/')) == JoinWith(segs, '/')
  {
    PartsOfSegments(segs);
  }

  /** A join starts with its first segment. */
  lemma {:induction false} JoinWithStartsWithFirst(segs: seq<string>)
    requires |segs| > 0
    ensures |JoinWith(segs, '/')| >= |segs[0]|
    ensures JoinWith(segs, '/')[..|segs[0]|] == segs[0]
  {
    if |segs| > 1 {
      var rest := JoinWith(segs[1..], '/');
      assert JoinWith(segs, '/') == segs[0] + ['/'] + rest;
      assert (segs[0] + ['/'] + rest)[..|segs[0]|] == segs[0];
    }
  }

  /** Whether stripping leaves `path` untouched: an unknown model, or a
      relative path that is absolute, empty or ".". */
  predicate StripSkipped(rel: map<string, string>, modelName: string) {
    modelName !in rel
    || (var relPath := PathStr(rel[modelName]);
        IsAbs(rel[modelName]) || |relPath| == 0 || relPath == ".")
  }

  /** Whether stripping warns: the path does not start with the model's
      relative path. */
  predicate StripWarns(rel: map<string, string>, modelName: string, path: string) {
    !StripSkipped(rel, modelName) && RelativeTo(Parts(path), Parts(rel[modelName])).None?
  }

  /** `strip_model_relative_path(model_name, path)`: the components of
      `path` after the model's relative path, in POSIX form; the path's own
      POSIX form (after a warning) when it does not start there; `path`
      itself when stripping is skipped. It never raises. */
  function StripModelRelative(rel: map<string, string>, modelName: string, path: string): (r: string)
    ensures StripSkipped(rel, modelName) ==> r == path
    ensures StripWarns(rel, modelName, path) ==> r == PathStr(path)
  {
    if modelName !in rel then path
    else
      var relParts := Parts(rel[modelName]);
      var relPath := FromParts(relParts);
      if IsAbs(rel[modelName]) || |relPath| == 0 || relPath == "." then path
      else
        match RelativeTo(Parts(path), relParts)
        case Some(tail) => FromParts(tail)
        case None => PathStr(path)
  }

  /** Stripping undoes joining: when stripping applies to the model, the
      model's relative path joined with any relative `tail` strips to the
      POSIX form of `tail`, and the relative path itself strips to ".". */
  lemma {:induction false} StripJoined(rel: map<string, string>, modelName: string, tail: string)
    requires !StripSkipped(rel, modelName) && !IsAbs(tail)
    ensures StripModelRelative(rel, modelName, Join(rel[modelName], tail)) == PathStr(tail)
    ensures StripModelRelative(rel, modelName, rel[modelName]) == "."
  {
    var r := rel[modelName];
    JoinParts(r, tail);
    var all := Parts(r) + Parts(tail);
    assert all[..|Parts(r)|] == Parts(r) && all[|Parts(r)|..] == Parts(tail);
    assert Parts(r)[..|Parts(r)|] == Parts(r) && Parts(r)[|Parts(r)|..] == [];
  }

  // ---------------------------------------------------------------------------
  // unique_file_name and _build_file
  // ---------------------------------------------------------------------------

  /** `_build_file(file_name, num)`: `stem_num.ext`, or `stem_num` when the
      name has no extension. */
  function BuildFile(fileName: string, num: nat): (r: string)
    ensures var (stem, ext) := SplitExt(fileName); r == stem + "_" + NatToString(num) + ext
  {
    var (file, ext) := SplitExt(fileName);
    if ext != "" then file + "_" + NatToString(num) + ext
    else file + "_" + NatToString(num)
  }

  /** Different numbers build different names. */
  lemma {:induction false} BuildFileInjective(fileName: string, a: nat, b: nat)
    requires BuildFile(fileName, a) == BuildFile(fileName, b)
    ensures a == b
  {
    var (stem, ext) := SplitExt(fileName);
    var sa, sb := NatToString(a), NatToString(b);
    var x, y := stem + "_" + sa + ext, stem + "_" + sb + ext;
    assert |sa| == |sb|;
    var lo := |stem| + 1;
    assert x[lo..lo + |sa|] == sa;
    assert y[lo..lo + |sb|] == sb;
    NatToStringInjective(a, b);
  }

  /** The names built for the numbers below `n`. */
  ghost function Names(fileName: string, n: nat): set<string>
    decreases n
  {
    if n == 0 then {} else Names(fileName, n - 1) + {BuildFile(fileName, n - 1)}
  }

  /** The name for `n` is not among those for smaller numbers. */
  lemma {:induction false} FreshName(fileName: string, n: nat, m: nat)
    requires n <= m
    ensures BuildFile(fileName, m) !in Names(fileName, n)
    decreases n
  {
    if n > 0 {
      FreshName(fileName, n - 1, m);
      if BuildFile(fileName, n - 1) == BuildFile(fileName, m) {
        BuildFileInjective(fileName, n - 1, m);
      }
    }
  }

  /** `unique_file_name(file_name, lookup)`: the name for the least number
      not yet taken. */
  method UniqueFileName(fileName: string, lookup: set<string>) returns (r: string)
    ensures r !in lookup
    ensures exists k: nat :: r == BuildFile(fileName, k) && forall j: nat :: j < k ==> BuildFile(fileName, j) in lookup
  {
    var num: nat := 0;
    ghost var seen: set<string> := {};
    while BuildFile(fileName, num) in lookup
      invariant seen == Names(fileName, num) && seen <= lookup
      invariant forall j: nat :: j < num ==> BuildFile(fileName, j) in lookup
      decreases |lookup - seen|
    {
      var name := BuildFile(fileName, num);
      FreshName(fileName, num, num);
      assert lookup - (seen + {name}) == (lookup - seen) - {name};
      seen := seen + {name};
      num := num + 1;
    }
    r := BuildFile(fileName, num);
  }

  // ---------------------------------------------------------------------------
  // The external-file table
  // ---------------------------------------------------------------------------

  /** The model sets of the table after `add_ext_file(file_path,
      model_name)`: the file's record gains the model, a new record is
      created for a new file, and nothing else changes. */
  function ModelsAfterAdd(models: map<string, set<string>>, filePath: string, modelName: string): (r: map<string, set<string>>)
    ensures r.Keys == models.Keys + {filePath}
  {
    models[filePath := (if filePath in models then models[filePath] else {}) + {modelName}]
  }

  /** `add_ext_file` is idempotent, never removes a record or a model, and
      touches only the named file's record. */
  lemma {:induction false} AddExtFileProperties(models: map<string, set<string>>, filePath: string, modelName: string)
    ensures ModelsAfterAdd(ModelsAfterAdd(models, filePath, modelName), filePath, modelName) == ModelsAfterAdd(models, filePath, modelName)
    ensures modelName in ModelsAfterAdd(models, filePath, modelName)[filePath]
    ensures forall f :: f in models ==>
      (f in ModelsAfterAdd(models, filePath, modelName) && models[f] <= ModelsAfterAdd(models, filePath, modelName)[f])
    ensures forall f :: f in models && f != filePath ==> ModelsAfterAdd(models, filePath, modelName)[f] == models[f]
  {
    var once := ModelsAfterAdd(models, filePath, modelName);
    assert once[filePath] + {modelName} == once[filePath];
    assert once[filePath := once[filePath]] == once;
  }

  // ---------------------------------------------------------------------------
  // copy_files
  // ---------------------------------------------------------------------------

  /** The per-record decision of `copy_files`, given the resolved old and new
      locations and whether the old one is a file: copy when the old file
      exists, the record is relative or all files are copied, and the two
      locations differ. */
  predicate ShouldCopy(oldPath: string, newPath: string, oldIsFile: bool, rawIsAbs: bool, copyRelativeOnly: bool) {
    oldIsFile && (!rawIsAbs || !copyRelativeOnly) && oldPath != newPath
  }

  /** An absolute record resolves to itself under both roots, so it is never
      copied and `copy_relative_only` changes nothing. */
  lemma {:induction false} AbsoluteRecordsStay(lastRoot: string, root: string, raw: string, oldIsFile: bool, copyRelativeOnly: bool)
    requires IsAbs(raw)
    ensures Resolve(Some(lastRoot), raw, false) == Resolve(Some(root), raw, false)
    ensures var o := Resolve(Some(lastRoot), raw, false).value.value;
      !ShouldCopy(o, o, oldIsFile, true, copyRelativeOnly)
  {
    assert raw[0] != '\'' && raw[0] != '"';
    assert IsAbs(CleanQuotes(raw));
  }

  // ---------------------------------------------------------------------------
  // The classes
  // ---------------------------------------------------------------------------

  /** `MFFilePath`: an external file and the models that use it (the source
      keeps them as the keys of a dict whose values are always 0). */
  class FilePath {
    const filePath: string
    var modelNames: set<string>

    constructor (filePath: string, modelName: string)
      ensures this.filePath == filePath && modelNames == {modelName}
    {
      this.filePath := filePath;
      modelNames := {modelName};
    }

    /** `isabs()`. */
    predicate IsAbsolute() {
      IsAbs(filePath)
    }
  }

  /** `str(PurePosixPath(path).expanduser().absolute())` without the home
      directory: a relative path is taken from `cwd`. */
  function AbsolutePath(path: string, cwd: string): (r: string)
    requires IsAbs(cwd)
    ensures IsAbs(r)
  {
    var p := PathStr(Join(cwd, path));
    assert Parts(Join(cwd, path))[0] == "/";
    p
  }

  /** `MFFileMgmt`. */
  class FileMgmt {
    var simPath: string
    var existingFileDict: map<string, FilePath>
    var modelRelativePath: map<string, string>
    var lastLoadedSimPath: Option<string>
    var lastLoadedModelRelativePath: map<string, string>

    /** The roots are absolute and every record is filed under its own
        path (so distinct files have distinct records). */
    ghost predicate Valid()
      reads this
    {
      IsAbs(simPath)
      && (lastLoadedSimPath.Some? ==> IsAbs(lastLoadedSimPath.value))
      && forall f :: f in existingFileDict ==> existingFileDict[f].filePath == f
    }

    /** The model sets of the external-file table. */
    ghost function Models(): map<string, set<string>>
      reads this, existingFileDict.Values
    {
      map f | f in existingFileDict :: existingFileDict[f].modelNames
    }

    constructor (path: string, cwd: string)
      requires IsAbs(cwd)
      ensures Valid()
      ensures simPath == AbsolutePath(path, cwd)
      ensures existingFileDict == map[] && modelRelativePath == map[]
      ensures lastLoadedSimPath == None && lastLoadedModelRelativePath == map[]
    {
      simPath := AbsolutePath(path, cwd);
      existingFileDict := map[];
      modelRelativePath := map[];
      lastLoadedSimPath := None;
      lastLoadedModelRelativePath := map[];
    }

    /** `set_sim_path(path)`. */
    method SetSimPath(path: string, cwd: string)
      requires Valid() && IsAbs(cwd)
      modifies this
      ensures Valid()
      ensures simPath == AbsolutePath(path, cwd)
      ensures existingFileDict == old(existingFileDict) && modelRelativePath == old(modelRelativePath)
      ensures lastLoadedSimPath == old(lastLoadedSimPath)
      ensures lastLoadedModelRelativePath == old(lastLoadedModelRelativePath)
    {
      simPath := AbsolutePath(path, cwd);
    }

    /** `get_sim_path(last_loaded_path)`: the snapshot root (absent until a
        snapshot is taken) or the current one; every root is absolute. */
    function GetSimPath(lastLoadedPath: bool): (r: Option<string>)
      reads this
      requires Valid()
      ensures lastLoadedPath ==> r == lastLoadedSimPath
      ensures !lastLoadedPath ==> r == Some(simPath)
      ensures r.Some? ==> IsAbs(r.value)
    {
      if lastLoadedPath then lastLoadedSimPath else Some(simPath)
    }

    /** `get_model_path(key, last_loaded_path)`. The current lookup never
        fails and gives an absolute path. */
    function GetModelPath(key: string, lastLoadedPath: bool): (r: Result<string, PyError>)
      reads this
      requires Valid()
      ensures lastLoadedPath ==> r == LastModelPath(lastLoadedSimPath, lastLoadedModelRelativePath, key)
      ensures !lastLoadedPath ==> r == Ok(ModelPath(simPath, modelRelativePath, key)) && IsAbs(r.value)
    {
      if lastLoadedPath then LastModelPath(lastLoadedSimPath, lastLoadedModelRelativePath, key)
      else Ok(ModelPath(simPath, modelRelativePath, key))
    }

    /** `resolve_path(path, last_loaded_path, move_abs_paths)`; it changes
        nothing. */
    function ResolvePath(path: string, lastLoadedPath: bool, moveAbsPaths: bool): (r: Result<Option<string>, PyError>)
      reads this
      requires Valid()
      ensures r == Resolve(GetSimPath(lastLoadedPath), path, moveAbsPaths)
      ensures !lastLoadedPath ==> r.Ok? && r.value.Some? && IsAbs(r.value.value)
    {
      var root := GetSimPath(lastLoadedPath);
      if !lastLoadedPath && !IsAbs(CleanQuotes(path)) then
        ResolveRelative(simPath, path, moveAbsPaths);
        Resolve(root, path, moveAbsPaths)
      else
        Resolve(root, path, moveAbsPaths)
    }

    /** `strip_model_relative_path(model_name, path)`. */
    function StripModelRelativePath(modelName: string, path: string): (r: string)
      reads this
      ensures r == StripModelRelative(modelRelativePath, modelName, path)
      ensures modelName !in modelRelativePath ==> r == path
    {
      StripModelRelative(modelRelativePath, modelName, path)
    }

    /** The decision `copy_files` takes for the record of `filePath` once a
        snapshot exists, given whether its old location is a file. */
    function CopyDecision(record: FilePath, oldIsFile: bool, copyRelativeOnly: bool): (r: bool)
      reads this
      requires Valid() && lastLoadedSimPath.Some?
      ensures record.IsAbsolute() ==> !r
    {
      var old' := ResolvePath(record.filePath, true, false);
      var new' := ResolvePath(record.filePath, false, false);
      if record.IsAbsolute() then
        AbsoluteRecordsStay(lastLoadedSimPath.value, simPath, record.filePath, oldIsFile, copyRelativeOnly);
        ShouldCopy(old'.value.value, new'.value.value, oldIsFile, true, copyRelativeOnly)
      else
        ShouldCopy(old'.value.value, new'.value.value, oldIsFile, false, copyRelativeOnly)
    }

    /** `add_ext_file(file_path, model_name)`. */
    method AddExtFile(filePath: string, modelName: string)
      requires Valid()
      modifies this, existingFileDict.Values
      ensures Valid()
      ensures Models() == ModelsAfterAdd(old(Models()), filePath, modelName)
      ensures existingFileDict.Keys == old(existingFileDict.Keys) + {filePath}
      ensures simPath == old(simPath) && modelRelativePath == old(modelRelativePath)
      ensures lastLoadedSimPath == old(lastLoadedSimPath)
      ensures lastLoadedModelRelativePath == old(lastLoadedModelRelativePath)
    {
      ghost var before := Models();
      if filePath in existingFileDict {
        var record := existingFileDict[filePath];
        assert forall f :: f in existingFileDict && f != filePath ==> existingFileDict[f] != record;
        if modelName !in record.modelNames {
          record.modelNames := record.modelNames + {modelName};
        }
        assert forall f :: f in existingFileDict && f != filePath ==> existingFileDict[f].modelNames == before[f];
        assert record.modelNames == before[filePath] + {modelName};
        assert Models().Keys == before.Keys;
        assert Models() == before[filePath := before[filePath] + {modelName}];
      } else {
        var record := new FilePath(filePath, modelName);
        existingFileDict := existingFileDict[filePath := record];
        assert filePath !in before;
        assert Models() == before[filePath := {modelName}];
        assert ModelsAfterAdd(before, filePath, modelName) == before[filePath := {modelName}] by {
          var empty: set<string> := {};
          assert empty + {modelName} == {modelName};
        }
      }
    }

    /** `set_last_accessed_model_path()`: merge the live relative paths into
        the snapshot. */
    method SetLastAccessedModelPath()
      requires Valid()
      modifies this
      ensures Valid()
      ensures lastLoadedModelRelativePath == Snapshot(old(lastLoadedModelRelativePath), modelRelativePath)
      ensures simPath == old(simPath) && existingFileDict == old(existingFileDict)
      ensures modelRelativePath == old(modelRelativePath) && lastLoadedSimPath == old(lastLoadedSimPath)
    {
      var merged := MergeSnapshot(lastLoadedModelRelativePath, modelRelativePath);
      lastLoadedModelRelativePath := merged;
    }

    /** `set_last_accessed_path()`: the snapshot root becomes the current
        root and the relative paths are merged into the snapshot. */
    method SetLastAccessedPath()
      requires Valid()
      modifies this
      ensures Valid()
      ensures lastLoadedSimPath == Some(simPath)
      ensures lastLoadedModelRelativePath == Snapshot(old(lastLoadedModelRelativePath), modelRelativePath)
      ensures simPath == old(simPath) && existingFileDict == old(existingFileDict)
      ensures modelRelativePath == old(modelRelativePath)
    {
      lastLoadedSimPath := Some(simPath);
      SetLastAccessedModelPath();
    }
  }
}
