/**
 * Lexical POSIX path handling: `os.path.isabs`, `os.path.join` and
 * `os.path.splitext` as `posixpath` defines them, and the `parts`, `str()`
 * and `relative_to` of `pathlib.PurePosixPath`. Nothing here touches a
 * filesystem.
 */
module PosixPath {
  import opened Wrappers
  import opened Strings

  /** `os.path.isabs(p)`: the path starts with a slash. */
  predicate IsAbs(p: string) { |p| > 0 && p[0] == '/' }

  /** `os.path.join(a, b)`: an absolute `b` discards `a`; otherwise a slash is
      inserted unless `a` is empty or already ends with one. */
  function Join(a: string, b: string): (r: string)
    ensures IsAbs(b) ==> r == b
    ensures !IsAbs(b) && IsAbs(a) ==> IsAbs(r)
  {
    if IsAbs(b) then b
    else if |a| == 0 || a[|a| - 1] == '/' then a + b
    else a + "/" + b
  }

  // ---------------------------------------------------------------------------
  // PurePosixPath
  // ---------------------------------------------------------------------------

  /** Drops the empty and "." components that PurePosixPath collapses. */
  function Clean(segs: seq<string>): (r: seq<string>)
    ensures forall i :: 0 <= i < |r| ==> r[i] != "" && r[i] != "."
    decreases |segs|
  {
    if |segs| == 0 then []
    else (if segs[0] == "" || segs[0] == "." then [] else [segs[0]]) + Clean(segs[1..])
  }

  lemma {:induction false} CleanAppend(x: seq<string>, y: seq<string>)
    ensures Clean(x + y) == Clean(x) + Clean(y)
    decreases |x|
  {
    if |x| > 0 {
      assert (x + y)[1..] == x[1..] + y;
      CleanAppend(x[1..], y);
    } else {
      assert x + y == y;
    }
  }

  lemma {:induction false} CleanIdentity(segs: seq<string>)
    requires forall i :: 0 <= i < |segs| ==> segs[i] != "" && segs[i] != "."
    ensures Clean(segs) == segs
    decreases |segs|
  {
    if |segs| > 0 {
      CleanIdentity(segs[1..]);
      assert [segs[0]] + segs[1..] == segs;
    }
  }

  /** `PurePosixPath(s).parts`: the anchor "/" of an absolute path, then the
      non-empty components other than ".". */
  function Parts(s: string): (r: seq<string>)
    ensures IsAbs(s) ==> |r| >= 1 && r[0] == "/"
  {
    (if IsAbs(s) then ["/"] else []) + Clean(Split(s, '/'))
  }

  /** `str(PurePosixPath(*parts))`, which is also its `as_posix()`. */
  function FromParts(parts: seq<string>): string {
    if |parts| == 0 then "."
    else if parts[0] == "/" then "/" + JoinWith(parts[1..], '/')
    else JoinWith(parts, '/')
  }

  /** A component of a relative path in normal form. */
  predicate IsSegment(seg: string) {
    seg != "" && seg != "." && '/' !in seg
  }

  /** `PurePosixPath(path).relative_to(base)` on the parts of both: the
      remaining components when `base` is a component-wise prefix, otherwise
      the `ValueError` case. */
  function RelativeTo(path: seq<string>, base: seq<string>): (r: Option<seq<string>>)
    ensures r.Some? <==> (|base| <= |path| && path[..|base|] == base)
    ensures r.Some? ==> path == base + r.value
  {
    if |base| <= |path| && path[..|base|] == base then Some(path[|base|..]) else None
  }

  /** Joining a relative path onto another concatenates their components. */
  lemma {:induction false} JoinParts(a: string, b: string)
    requires !IsAbs(b)
    ensures Parts(Join(a, b)) == Parts(a) + Parts(b)
  {
    if |a| == 0 {
      assert Join(a, b) == b;
      assert Split(a, '/') == [""];
    } else if a[|a| - 1] == '/' {
      JoinPartsAfterSlash(a[..|a| - 1], b);
      assert a[..|a| - 1] + "/" == a;
    } else {
      JoinPartsInsertSlash(a, b);
    }
  }

  lemma {:induction false} JoinPartsAfterSlash(a': string, b: string)
    requires !IsAbs(b)
    ensures Parts(a' + "/" + b) == Parts(a' + "/") + Parts(b)
  {
    SplitAround(a', '/', "");
    SplitAround(a', '/', b);
    assert a' + "/" + b == a' + ['/'] + b;
    assert a' + "/" == a' + ['/'] + "";
    CleanAppend(Split(a', '/'), [""]);
    CleanAppend(Split(a', '/'), Split(b, '/'));
    assert Clean([""]) == [];
    assert IsAbs(a' + "/" + b) == IsAbs(a' + "/");
  }

  lemma {:induction false} JoinPartsInsertSlash(a: string, b: string)
    requires !IsAbs(b) && |a| > 0
    ensures Parts(a + "/" + b) == Parts(a) + Parts(b)
  {
    var s := a + "/" + b;
    assert IsAbs(s) == IsAbs(a) by {
      assert s[0] == a[0];
    }
    CleanSplitAround(a, b);
    AnchorConcat(if IsAbs(a) then ["/"] else [], Clean(Split(a, '/')), Clean(Split(b, '/')));
  }

  /** Re-associates the anchor and the two component lists of a join; kept
      apart from `JoinPartsInsertSlash`, where the same step is costly. */
  lemma {:induction false} AnchorConcat(anchor: seq<string>, x: seq<string>, y: seq<string>)
    ensures anchor + (x + y) == (anchor + x) + ([] + y)
  {
    assert [] + y == y;
  }

  lemma {:induction false} CleanSplitAround(a: string, b: string)
    ensures Clean(Split(a + "/" + b, '/')) == Clean(Split(a, '/')) + Clean(Split(b, '/'))
  {
    assert a + "/" + b == a + ['/'] + b;
    SplitAround(a, '/', b);
    CleanAppend(Split(a, '/'), Split(b, '/'));
  }

  /** A relative path written in normal form reads back as its components. */
  lemma {:induction false} PartsOfSegments(segs: seq<string>)
    requires |segs| >= 1
    requires forall i :: 0 <= i < |segs| ==> IsSegment(segs[i])
    ensures Parts(JoinWith(segs, '/')) == segs
    ensures FromParts(segs) == JoinWith(segs, '/')
  {
    SplitJoin(segs, '/');
    CleanIdentity(segs);
    var s := JoinWith(segs, '/');
    assert s[0] == segs[0][0];
    assert segs[0][0] in segs[0];
  }

  // ---------------------------------------------------------------------------
  // os.path.splitext
  // ---------------------------------------------------------------------------

  /** `s.rfind(c)`: the last index of `c`, or -1. */
  function LastIndex(s: string, c: char): (r: int)
    ensures -1 <= r < |s|
    ensures r >= 0 ==> s[r] == c && c !in s[r + 1..]
    ensures r == -1 ==> c !in s
    decreases |s|
  {
    if |s| == 0 then -1
    else if s[|s| - 1] == c then |s| - 1
    else
      var r := LastIndex(s[..|s| - 1], c);
      assert s == s[..|s| - 1] + [s[|s| - 1]];
      r
  }

  /** The last component holds a dot with some character other than a dot
      before it. */
  predicate HasExtension(p: string) {
    exists i, j :: LastIndex(p, '/') < i < j < |p| && p[i] != '.' && p[j] == '.'
  }

  /** `os.path.splitext(p)`: the extension starts at the last dot of the last
      component, unless every character before that dot in the component is
      itself a dot (".bashrc" and "..x" have no extension). The second clause
      places the split at the last dot; `SplitExtDecides` says when there is
      one. */
  function SplitExt(p: string): (r: (string, string))
    ensures r.0 + r.1 == p
    ensures r.1 == "" || (r.1[0] == '.' && '/' !in r.1 && '.' !in r.1[1..])
  {
    var sepIndex := LastIndex(p, '/');
    var dotIndex := LastIndex(p, '.');
    if dotIndex > sepIndex && exists i :: sepIndex + 1 <= i < dotIndex && p[i] != '.' then
      assert p[..dotIndex] + p[dotIndex..] == p;
      assert p[dotIndex..][1..] == p[dotIndex + 1..];
      SuffixAvoids(p, '/', sepIndex, dotIndex);
      (p[..dotIndex], p[dotIndex..])
    else
      (p, "")
  }

  /** `splitext` finds an extension exactly when the last component holds a
      dot with a character other than a dot somewhere before it. */
  lemma {:induction false} SplitExtDecides(p: string)
    ensures SplitExt(p).1 != "" <==> HasExtension(p)
    ensures SplitExt(p).1 != "" ==> SplitExt(p).1 == p[LastIndex(p, '.')..]
  {
    var sepIndex := LastIndex(p, '/');
    if HasExtension(p) {
      var i, j :| sepIndex < i < j < |p| && p[i] != '.' && p[j] == '.';
      LastIndexAtLeast(p, '.', j);
      assert sepIndex + 1 <= i < LastIndex(p, '.') && p[i] != '.';
    }
  }

  /** Every occurrence of `c` lies at or before `s.rfind(c)`. */
  lemma {:induction false} LastIndexAtLeast(s: string, c: char, j: int)
    requires 0 <= j < |s| && s[j] == c
    ensures j <= LastIndex(s, c)
  {
  }

  /** Only the last dot splits: "a.tar.gz" has the extension ".gz". */
  lemma SplitExtLastDot()
    ensures SplitExt("a.tar.gz") == ("a.tar", ".gz")
  {
    var p := "a.tar.gz";
    assert LastIndex(p, '/') == -1;
    assert LastIndex(p, '.') == 5;
    assert 0 <= 0 < 5 && p[0] != '.';
    assert p[..5] == "a.tar" && p[5..] == ".gz";
  }

  /** Leading dots stay in the stem: ".bashrc" has no extension. */
  lemma SplitExtLeadingDot()
    ensures SplitExt(".bashrc") == (".bashrc", "")
  {
    var p := ".bashrc";
    assert LastIndex(p, '/') == -1;
    assert LastIndex(p, '.') == 0;
  }

  /** A dot in a directory name is no extension: "d.x/f" has none. */
  lemma SplitExtDirectoryDot()
    ensures SplitExt("d.x/f") == ("d.x/f", "")
  {
    var p := "d.x/f";
    assert LastIndex(p, '/') == 3;
    assert LastIndex(p, '.') == 1;
  }

  /** A character absent after index `k` (or from the whole string when `k`
      is -1) is absent from every later suffix. */
  lemma {:induction false} SuffixAvoids(s: string, c: char, k: int, j: int)
    requires -1 <= k < j <= |s|
    requires k >= 0 ==> c !in s[k + 1..]
    requires k == -1 ==> c !in s
    ensures c !in s[j..]
  {
    forall x | j <= x < |s| ensures s[x] != c {
      if k >= 0 {
        assert s[x] == s[k + 1..][x - k - 1];
      }
    }
  }
}
