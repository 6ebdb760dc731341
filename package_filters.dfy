/**
 * The two static filters of `PackageContainer` (flopy/mf6/mfbase.py):
 * `_in_pkg_list`, a membership test of a package type or name in a dict of
 * package keys that tolerates a trailing version digit ("gwf6" is found
 * under "gwf"), and `_load_only_dict`, which normalises a `load_only`
 * argument into a dict.
 */
module PackageFilters {
  import opened Wrappers
  import opened Strings

  // ---------------------------------------------------------------------------
  // _in_pkg_list
  // ---------------------------------------------------------------------------

  /** One segment of a key matches the query segment as it is, or with its
      last character dropped (`pkg_item[0:-1]`). */
  predicate SegmentMatch(keySeg: string, querySeg: string) {
    keySeg == querySeg || keySeg == DropLast(querySeg)
  }

  /** A key, split on "-", has as many segments as the query and each
      matches. */
  predicate KeyMatches(key: string, querySegs: seq<string>) {
    var ks := Split(key, '-');
    |ks| == |querySegs| && forall i :: 0 <= i < |ks| ==> SegmentMatch(ks[i], querySegs[i])
  }

  /** What `_in_pkg_list` returns or raises. A lower-cased type or name that
      is a key is found. Past that test a missing type raises
      `AttributeError` (`None.split`), an empty first segment raises
      `IndexError` (`""[-1]`), a first segment that does not end in a digit
      is not found (the `ValueError` of `int`), and otherwise the query is
      found when some key matches segment by segment. */
  function InPkgListResult(keys: set<string>, pkgType: Option<string>, pkgName: Option<string>): (r: Result<bool, PyError>)
    ensures pkgName.Some? && Lower(pkgName.value) in keys ==> r == Ok(true)
    ensures r == Err(AttributeError) <==>
      pkgType.None? && !(pkgName.Some? && Lower(pkgName.value) in keys)
    ensures r.Err? ==> r.error == AttributeError || r.error == IndexError
  {
    if (pkgType.Some? && Lower(pkgType.value) in keys) || (pkgName.Some? && Lower(pkgName.value) in keys) then Ok(true)
    else if pkgType.None? then Err(AttributeError)
    else
      var segs := Split(Lower(pkgType.value), '-');
      if |segs[0]| == 0 then Err(IndexError)
      else if !IsDigit(segs[0][|segs[0]| - 1]) then Ok(false)
      else Ok(exists k :: k in keys && KeyMatches(k, segs))
  }

  /** The segment loop: `matches` ends true exactly when every pair of
      segments matches. */
  method SegmentsMatch(ks: seq<string>, segs: seq<string>) returns (matches: bool)
    requires |ks| == |segs|
    ensures matches <==> forall i :: 0 <= i < |ks| ==> SegmentMatch(ks[i], segs[i])
  {
    matches := true;
    var i := 0;
    while i < |ks|
      invariant 0 <= i <= |ks|
      invariant matches <==> forall j :: 0 <= j < i ==> SegmentMatch(ks[j], segs[j])
    {
      if DropLast(segs[i]) != ks[i] && segs[i] != ks[i] {
        matches := false;
      }
      i := i + 1;
    }
  }

  /** `_in_pkg_list(pkg_list, pkg_type, pkg_name)`. The keys are visited in
      some order; the answer does not depend on it. */
  method InPkgList<V>(pkgList: map<string, V>, pkgType: Option<string>, pkgName: Option<string>)
    returns (r: Result<bool, PyError>)
    ensures r == InPkgListResult(pkgList.Keys, pkgType, pkgName)
  {
    var t := if pkgType.Some? then Some(Lower(pkgType.value)) else None;
    var n := if pkgName.Some? then Some(Lower(pkgName.value)) else None;
    if (t.Some? && t.value in pkgList) || (n.Some? && n.value in pkgList) {
      return Ok(true);
    }
    if t.None? {
      return Err(AttributeError);
    }
    var segs := Split(t.value, '-');
    if |segs[0]| == 0 {
      return Err(IndexError);
    }
    if !IsDigit(segs[0][|segs[0]| - 1]) {
      return Ok(false);
    }
    var rest := pkgList.Keys;
    while rest != {}
      invariant rest <= pkgList.Keys
      invariant forall k :: k in pkgList.Keys && k !in rest ==> !KeyMatches(k, segs)
      decreases rest
    {
      var key :| key in rest;
      var ks := Split(key, '-');
      if |ks| == |segs| {
        var matches := SegmentsMatch(ks, segs);
        if matches {
          return Ok(true);
        }
      }
      rest := rest - {key};
    }
    return Ok(false);
  }

  /** Version digits are tolerated: a query whose lower-cased segments are
      those of a key, the first followed by a digit and each of the others
      possibly followed by one more character, is found under that key. */
  lemma {:induction false} VersionedQueryFound(keys: set<string>, ks: seq<string>, qs: seq<string>, t: string, pkgName: Option<string>)
    requires |ks| == |qs| >= 1
    requires forall i :: 0 <= i < |ks| ==> '-' !in ks[i] && '-' !in qs[i]
    requires forall i :: 0 <= i < |ks| ==> qs[i] == ks[i] || (|qs[i]| > 0 && DropLast(qs[i]) == ks[i])
    requires |qs[0]| > 0 && IsDigit(qs[0][|qs[0]| - 1])
    requires Lower(t) == JoinWith(qs, '-')
    requires JoinWith(ks, '-') in keys
    ensures InPkgListResult(keys, Some(t), pkgName) == Ok(true)
  {
    SplitJoin(qs, '-');
    SplitJoin(ks, '-');
    assert KeyMatches(JoinWith(ks, '-'), qs);
  }

  /** The single-segment case: "gwf6" is found under "gwf". */
  lemma {:induction false} TrailingDigitFound(keys: set<string>, key: string, d: char, pkgName: Option<string>)
    requires key in keys && IsLower(key) && '-' !in key
    requires IsDigit(d)
    ensures InPkgListResult(keys, Some(key + [d]), pkgName) == Ok(true)
  {
    var q := key + [d];
    assert JoinWith([key], '-') == key;
    assert JoinWith([q], '-') == q;
    assert DropLast(q) == key;
    assert forall i :: 0 <= i < |q| ==> q[i] == if i < |key| then key[i] else d;
    LowerFixes(q);
    VersionedQueryFound(keys, [key], [q], q, pkgName);
  }

  /** The source's own example: "gwf6" is found under "gwf". */
  lemma GwfExample()
    ensures InPkgListResult({"gwf"}, Some("gwf6"), None) == Ok(true)
  {
    TrailingDigitFound({"gwf"}, "gwf", '6', None);
    assert "gwf" + ['6'] == "gwf6";
  }

  /** Without hyphens a key matches a query exactly when it is the query or
      the query less its last character. */
  lemma {:induction false} SingleSegmentMatch(key: string, q: string)
    requires '-' !in key && '-' !in q
    ensures KeyMatches(key, [q]) <==> key == q || key == DropLast(q)
  {
    SplitNoSep(key, '-');
    var ks := Split(key, '-');
    assert ks[0] == key && [q][0] == q;
    if SegmentMatch(key, q) {
      assert forall i :: 0 <= i < |ks| ==> SegmentMatch(ks[i], [q][i]);
    }
  }

  /** A hyphen-free, lower-case type ending in a digit that is found neither
      as it is, nor by name, nor under a key that is it less its last
      character, is not found. */
  lemma {:induction false} SingleSegmentNotFound(keys: set<string>, t: string, pkgName: Option<string>)
    requires IsLower(t) && '-' !in t && |t| > 0 && IsDigit(t[|t| - 1])
    requires t !in keys && DropLast(t) !in keys
    requires pkgName.None? || Lower(pkgName.value) !in keys
    requires forall k :: k in keys ==> '-' !in k
    ensures InPkgListResult(keys, Some(t), pkgName) == Ok(false)
  {
    LowerFixes(t);
    SplitNoSep(t, '-');
    forall k | k in keys ensures !KeyMatches(k, [t]) {
      SingleSegmentMatch(k, t);
    }
  }

  /** The source's other example: neither type "gwf6" nor name "wel" is
      found under "riv". */
  lemma RivExample()
    ensures InPkgListResult({"riv"}, Some("gwf6"), Some("wel")) == Ok(false)
  {
    var t := "gwf6";
    assert IsLower(t) && '-' !in t;
    assert DropLast(t) == "gwf";
    assert Lower("wel") == "wel" by { LowerFixes("wel"); }
    SingleSegmentNotFound({"riv"}, t, Some("wel"));
  }

  /** `_in_pkg_list` raises `AttributeError` for a missing type that is not
      found by name. */
  lemma NoTypeExample()
    ensures InPkgListResult({"riv"}, None, Some("wel")) == Err(AttributeError)
  {
    LowerFixes("wel");
  }

  /** An empty type, or one that starts with "-", that is not found as it
      is or by name has an empty first segment: `IndexError`. */
  lemma {:induction false} EmptyFirstSegmentRaises(keys: set<string>, t: string, pkgName: Option<string>)
    requires |t| == 0 || t[0] == '-'
    requires Lower(t) !in keys
    requires pkgName.None? || Lower(pkgName.value) !in keys
    ensures InPkgListResult(keys, Some(t), pkgName) == Err(IndexError)
  {
    var l := Lower(t);
    if |t| == 0 {
      assert Split(l, '-')[0] == "";
    } else {
      assert l[0] == '-';
      assert Split(l, '-')[0] == "";
    }
  }

  lemma EmptyTypeExample()
    ensures InPkgListResult({"riv"}, Some(""), None) == Err(IndexError)
  {
    EmptyFirstSegmentRaises({"riv"}, "", None);
  }

  lemma LeadingHyphenExample()
    ensures InPkgListResult({"riv"}, Some("-riv"), None) == Err(IndexError)
  {
    var t := "-riv";
    assert Lower(t) == t by { LowerFixes(t); }
    EmptyFirstSegmentRaises({"riv"}, t, None);
  }

  // ---------------------------------------------------------------------------
  // _load_only_dict
  // ---------------------------------------------------------------------------

  /** The shapes of a `load_only` argument: `None`, a dict (its values are
      never read, so they are kept as flags), a string (an iterable of its
      characters), any other iterable of strings, or a value that is not
      iterable. */
  datatype LoadOnly =
    | NoLoadOnly
    | LoadOnlyDict(dict: map<string, bool>)
    | LoadOnlyText(text: string)
    | LoadOnlyItems(items: seq<string>)
    | NotIterable

  /** The items a `for` loop over an iterable argument visits. */
  function Iterated(arg: LoadOnly): seq<string>
    requires arg.LoadOnlyText? || arg.LoadOnlyItems?
    ensures arg.LoadOnlyItems? ==> Iterated(arg) == arg.items
    ensures arg.LoadOnlyText? ==>
      (|Iterated(arg)| == |arg.text| && forall i :: 0 <= i < |arg.text| ==> Iterated(arg)[i] == [arg.text[i]])
  {
    if arg.LoadOnlyItems? then arg.items else seq(|arg.text|, i requires 0 <= i < |arg.text| => [arg.text[i]])
  }

  /** `_load_only_dict(load_only)`: `None` stays `None`; a dict comes back
      as it is; a value that is not iterable raises `FlopyException`;
      otherwise the result maps the lower-cased form of every item, and
      nothing else, to `True`. */
  method LoadOnlyToDict(arg: LoadOnly) returns (r: Result<Option<map<string, bool>>, PyError>)
    ensures arg.NoLoadOnly? ==> r == Ok(None)
    ensures arg.LoadOnlyDict? ==> r == Ok(Some(arg.dict))
    ensures arg.NotIterable? ==> r == Err(FlopyException)
    ensures (arg.LoadOnlyText? || arg.LoadOnlyItems?) ==>
      r.Ok? && r.value.Some?
      && (forall k :: k in r.value.value <==> exists i :: 0 <= i < |Iterated(arg)| && Lower(Iterated(arg)[i]) == k)
      && (forall k :: k in r.value.value ==> r.value.value[k] && IsLower(k))
  {
    match arg {
      case NoLoadOnly => return Ok(None);
      case LoadOnlyDict(d) => return Ok(Some(d));
      case NotIterable => return Err(FlopyException);
      case _ =>
        var items := Iterated(arg);
        var d: map<string, bool> := map[];
        var i := 0;
        while i < |items|
          invariant 0 <= i <= |items|
          invariant forall k :: k in d <==> exists j :: 0 <= j < i && Lower(items[j]) == k
          invariant forall k :: k in d ==> d[k] && IsLower(k)
        {
          d := d[Lower(items[i]) := true];
          i := i + 1;
        }
        return Ok(Some(d));
    }
  }

  /** A string argument filters by its single characters: "wel" keeps the
      packages named "w", "e" and "l", not the package "wel". */
  lemma {:induction false} TextIsIteratedByCharacter(s: string)
    requires |s| >= 2
    ensures forall i :: 0 <= i < |Iterated(LoadOnlyText(s))| ==> |Iterated(LoadOnlyText(s))[i]| == 1
    ensures forall i :: 0 <= i < |Iterated(LoadOnlyText(s))| ==> Lower(Iterated(LoadOnlyText(s))[i]) != Lower(s)
  {
    var it := Iterated(LoadOnlyText(s));
    forall i | 0 <= i < |it| ensures Lower(it[i]) != Lower(s) {
      assert |Lower(it[i])| == 1;
    }
  }
}
