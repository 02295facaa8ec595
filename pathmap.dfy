/** The path arithmetic that each conversion unit of sass-css.go performs
    (lines 96-105) before it starts the compiler: from the input path of one
    file it derives the path relative to the input root, the output path under
    the output root and the directory handed to MkdirAll.

    Paths use '/' as the separator, so filepath.ToSlash changes nothing, and
    filepath.Join of two already clean elements is their '/'-concatenation. */
module PathMap {
  import opened Optional
  import opened GoStrings

  /** filepath.Join of a clean directory path and a clean non-empty element. */
  function JoinPath(dir: string, elem: string): string {
    dir + "/" + elem
  }

  /** What one conversion unit does with the file it was given: the compiler's
      input path, its output path, and the directory MkdirAll is asked to
      create (None when the split of the joined path has a single piece). */
  datatype Dispatch = Dispatch(inPath: string, outPath: string, mkdir: Option<string>)

  /** The input path relative to the input root (line 96). */
  function LocalPath(sassDir: string, path: string): string {
    TrimPrefix(path, sassDir + "/")
  }

  /** The relative path re-rooted under the output root (lines 98 and 105). */
  function CssTarget(cssDir: string, local: string): string {
    JoinPath(cssDir, local)
  }

  /** A suffix without '/' is a suffix of `a + "/" + r` exactly when it is one of
      `r`, and trimming it there trims it from `r`. */
  lemma SuffixPastSlash(a: string, r: string, suffix: string)
    requires '/' !in suffix
    ensures HasSuffix(a + "/" + r, suffix) <==> HasSuffix(r, suffix)
    ensures TrimSuffix(a + "/" + r, suffix) == a + "/" + TrimSuffix(r, suffix)
  {
    var s := a + "/" + r;
    if |suffix| <= |r| {
      assert s[|s| - |suffix|..] == r[|r| - |suffix|..];
      if HasSuffix(r, suffix) {
        assert s[..|s| - |suffix|] == a + "/" + r[..|r| - |suffix|];
      }
    } else if |suffix| <= |s| {
      var k := |suffix| - |r| - 1;
      assert s[|s| - |suffix|..][k] == s[|a|] == '/';
      assert !HasSuffix(s, suffix);
    }
  }

  /** One conversion unit (lines 96-105) for the file at `path`: the input path,
      the joined target with one trailing ".sass" replaced by ".css", and the
      directory part of the joined target. ConvertSpec states what it yields. */
  function Convert(sassDir: string, cssDir: string, path: string): Dispatch {
    var target := CssTarget(cssDir, LocalPath(sassDir, path));
    Dispatch(path, TrimSuffix(target, ".sass") + ".css", ParentDir(target))
  }

  /** The output path lies under `cssDir`, ends in ".css" and is the path
      relative to `sassDir` with one trailing ".sass" removed and ".css"
      appended; MkdirAll is asked for exactly the directory that output path
      lies in. A path outside `sassDir + "/"` (the input root itself, when it
      is a file) is kept whole as the relative path. */
  lemma ConvertSpec(sassDir: string, cssDir: string, path: string)
    ensures var d := Convert(sassDir, cssDir, path);
      && d.inPath == path
      && HasPrefix(d.outPath, cssDir + "/") && HasSuffix(d.outPath, ".css")
      && (HasPrefix(path, sassDir + "/") ==>
            var rel := path[|sassDir| + 1..];
            if HasSuffix(rel, ".sass") then d.outPath == cssDir + "/" + rel[..|rel| - 5] + ".css"
            else d.outPath == cssDir + "/" + rel + ".css")
      && (!HasPrefix(path, sassDir + "/") ==>
            d.outPath == cssDir + "/" + TrimSuffix(path, ".sass") + ".css")
      && d.mkdir.Some? && d.mkdir == ParentDir(d.outPath)
  {
    ConvertPaths(sassDir, cssDir, path);
  }

  /** MirroredPath's companion for the directory: MkdirAll is asked for the
      directory part of the output path. */
  lemma ConvertMkdir(sassDir: string, cssDir: string, path: string)
    ensures Convert(sassDir, cssDir, path).mkdir == ParentDir(Convert(sassDir, cssDir, path).outPath)
  {
    ConvertPaths(sassDir, cssDir, path);
  }

  /** The facts behind Convert's contract, about the expressions it is built from. */
  lemma ConvertPaths(sassDir: string, cssDir: string, path: string)
    ensures var local := LocalPath(sassDir, path);
      var target := CssTarget(cssDir, local);
      var outPath := TrimSuffix(target, ".sass") + ".css";
      && outPath == cssDir + "/" + TrimSuffix(local, ".sass") + ".css"
      && (HasPrefix(path, sassDir + "/") ==> local == path[|sassDir| + 1..])
      && (!HasPrefix(path, sassDir + "/") ==> local == path)
      && HasPrefix(outPath, cssDir + "/") && HasSuffix(outPath, ".css")
      && ParentDir(target).Some?
      && ParentDir(target) == ParentDir(outPath)
  {
    var local := LocalPath(sassDir, path);
    var target := CssTarget(cssDir, local);
    var outPath := TrimSuffix(target, ".sass") + ".css";
    SuffixPastSlash(cssDir, local, ".sass");
    assert outPath == cssDir + "/" + TrimSuffix(local, ".sass") + ".css";
    assert outPath[..|cssDir| + 1] == cssDir + "/";
    assert outPath[|outPath| - 4..] == ".css";
    if HasSuffix(target, ".sass") {
      var u := TrimSuffix(target, ".sass");
      ParentDirExtend(u, ".sass");
      ParentDirExtend(u, ".css");
    } else {
      ParentDirExtend(target, ".css");
    }
    assert '/' in target by { assert target[|cssDir|] == '/'; }
  }

  /** The conversion units of one pass, one per dispatched path, in dispatch order. */
  function Conversions(sassDir: string, cssDir: string, paths: seq<string>): seq<Dispatch> {
    seq(|paths|, i requires 0 <= i < |paths| => Convert(sassDir, cssDir, paths[i]))
  }

  lemma ConversionsAppend(sassDir: string, cssDir: string, p: seq<string>, q: seq<string>)
    ensures Conversions(sassDir, cssDir, p + q)
         == Conversions(sassDir, cssDir, p) + Conversions(sassDir, cssDir, q)
  {
  }

  /** The relative path is the input path with the input root and one '/' removed,
      so a file `sassDir + "/" + rel` maps to `cssDir + "/" + rel` with the
      extension swapped. */
  lemma MirroredPath(sassDir: string, cssDir: string, rel: string)
    ensures LocalPath(sassDir, sassDir + "/" + rel) == rel
    ensures Convert(sassDir, cssDir, sassDir + "/" + rel).outPath
         == cssDir + "/" + TrimSuffix(rel, ".sass") + ".css"
  {
    var path := sassDir + "/" + rel;
    assert HasPrefix(path, sassDir + "/") by { assert path[..|sassDir| + 1] == sassDir + "/"; }
    assert path[|sassDir| + 1..] == rel;
    ConvertSpec(sassDir, cssDir, path);
  }
}
