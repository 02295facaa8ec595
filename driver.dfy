/** One conversion pass of sass-css.go as the program runs it: the package
    state that `init` and `main` set up, the visitor handed to filepath.Walk
    (lines 79-117), filepath.Walk's traversal calling it, and
    `convertSASSToCSS` (lines 78-119).

    Each goroutine the visitor starts is recorded, in start order, as the
    Dispatch it acts on; the WaitGroup that the pass waits on for them is not
    modelled (see the README). */
module Driver {
  import opened Optional
  import opened GoStrings
  import opened PathMap
  import opened TreeWalk
  import opened Config

  /** What the visitor returns to filepath.Walk: nil, filepath.SkipDir, or the
      error it was handed for the entry at `at`. */
  datatype Signal = Proceed | SkipDir | Abort(at: string)

  /** The package-level state used by a pass. */
  class Pass {
    /** `ignoreDirs`, `sassDir` and `cssDir`: fixed before the first pass. */
    const ignoreDirs: seq<string>
    const sassDir: string
    const cssDir: string
    /** The paths handed to the conversion units started so far, in the order
        they were started; each unit computes its Dispatch from its path. */
    var started: seq<string>

    /** The conversion units started so far. */
    function Units(): seq<Dispatch>
      reads this
    {
      Conversions(sassDir, cssDir, started)
    }

    /** The state after `init` and `main`'s set-up, where `ignoreOption` is the
        `--ignore` value, if given, and the two directories are already resolved. */
    constructor (ignoreOption: Option<string>, sassDir: string, cssDir: string)
      ensures this.ignoreDirs == IgnoreDirs(ignoreOption)
      ensures this.sassDir == sassDir && this.cssDir == cssDir
      ensures started == []
    {
      this.ignoreDirs := IgnoreDirs(ignoreOption);
      this.sassDir := sassDir;
      this.cssDir := cssDir;
      started := [];
    }

    /** The visitor, for the entry `e` at `path`: an error is returned as is;
        a directory whose name is in `ignoreDirs` is skipped, any other
        directory entered; every other entry starts one conversion unit. */
    method Visit(path: string, e: Entry) returns (signal: Signal)
      modifies this`started
      ensures e.Unreadable? ==> signal == Abort(path)
      ensures e.Dir? ==> signal == if e.name in ignoreDirs then SkipDir else Proceed
      ensures e.File? ==> signal == Proceed
      ensures started == old(started) + if e.File? then [path] else []
    {
      if e.Unreadable? {
        return Abort(path);
      }
      if e.Dir? {
        var i := 0;
        while i < |ignoreDirs|
          invariant 0 <= i <= |ignoreDirs|
          invariant e.name !in ignoreDirs[..i]
        {
          if e.name == ignoreDirs[i] {
            return SkipDir;
          }
          i := i + 1;
        }
        assert ignoreDirs[..i] == ignoreDirs;
      }
      if !e.Dir? {
        started := started + [path];
      }
      return Proceed;
    }

    /** filepath.Walk's traversal of the entry `e` at `path`: Visit it, and when
        it is a directory the visitor did not skip, walk its children. */
    method WalkEntry(path: string, e: Entry) returns (signal: Signal)
      modifies this`started
      ensures started == old(started) + Walk(path, e, ignoreDirs).dispatched
      ensures signal.Abort? <==> Walk(path, e, ignoreDirs).Stopped?
      ensures signal.Abort? ==> signal.at == Walk(path, e, ignoreDirs).at
      ensures signal.SkipDir? <==> e.Dir? && e.name in ignoreDirs
      decreases e, 1
    {
      signal := Visit(path, e);
      if signal == Proceed && e.Dir? {
        signal := WalkChildrenOf(path, e.children);
      }
    }

    /** The loop over the children `cs` of the directory at `path`, in order:
        SkipDir from a child directory passes over it, any error ends the walk. */
    method WalkChildrenOf(path: string, cs: seq<Entry>) returns (signal: Signal)
      modifies this`started
      ensures started == old(started) + WalkChildren(path, cs, ignoreDirs).dispatched
      ensures signal.Abort? <==> WalkChildren(path, cs, ignoreDirs).Stopped?
      ensures signal.Abort? ==> signal.at == WalkChildren(path, cs, ignoreDirs).at
      ensures !signal.SkipDir?
      decreases cs, 0
    {
      var i := 0;
      while i < |cs|
        invariant 0 <= i <= |cs|
        invariant WalkChildren(path, cs[..i], ignoreDirs).Done?
        invariant started == old(started) + WalkChildren(path, cs[..i], ignoreDirs).dispatched
      {
        var child := cs[i];
        ghost var before := WalkChildren(path, cs[..i], ignoreDirs).dispatched;
        ghost var r := Walk(JoinPath(path, child.name), child, ignoreDirs);
        var s := WalkEntry(JoinPath(path, child.name), child);
        WalkChildrenStep(path, cs, i, ignoreDirs);
        if s.Abort? || (s.SkipDir? && !child.Dir?) {
          StoppedStaysStopped(path, cs, i + 1, ignoreDirs);
          return s;
        }
        i := i + 1;
      }
      assert cs[..i] == cs;
      signal := Proceed;
    }

    /** `convertSASSToCSS`: walk the tree rooted at `sassDir`, whose root entry
        is the one filepath.Walk obtains by Lstat of `sassDir` and so carries its
        base name. The result is the error filepath.Walk returns (its SkipDir for
        an ignored root becomes nil), which the program discards. */
    method Run(tree: Entry) returns (walkError: Option<string>)
      requires tree.name == BaseName(sassDir)
      modifies this`started
      ensures started == old(started) + Walk(sassDir, tree, ignoreDirs).dispatched
      ensures Units() == old(Units()) + Conversions(sassDir, cssDir, Walk(sassDir, tree, ignoreDirs).dispatched)
      ensures walkError.Some? <==> Walk(sassDir, tree, ignoreDirs).Stopped?
      ensures walkError.Some? ==> walkError.value == Walk(sassDir, tree, ignoreDirs).at
      ensures tree.Dir? && BaseName(sassDir) in ignoreDirs ==> started == old(started) && walkError == None
    {
      var s := WalkEntry(sassDir, tree);
      ConversionsAppend(sassDir, cssDir, old(started), Walk(sassDir, tree, ignoreDirs).dispatched);
      walkError := if s.Abort? then Some(s.at) else None;
    }
  }

  /** Over a root directory, every conversion unit of a pass reads a file below
      `sassDir` and writes `cssDir` followed by the file's path relative to
      `sassDir`, one trailing ".sass" removed and ".css" appended; MkdirAll is
      given the directory part of that output. */
  lemma PassMirrorsTree(sassDir: string, cssDir: string, tree: Entry, ignore: seq<string>)
    requires tree.Dir?
    ensures forall d :: d in Conversions(sassDir, cssDir, Walk(sassDir, tree, ignore).dispatched) ==>
      && HasPrefix(d.inPath, sassDir + "/")
      && d.outPath == cssDir + "/" + TrimSuffix(d.inPath[|sassDir| + 1..], ".sass") + ".css"
      && d.mkdir == ParentDir(d.outPath)
  {
    var ps := Walk(sassDir, tree, ignore).dispatched;
    DispatchedBelowRoot(sassDir, tree, ignore);
    forall d | d in Conversions(sassDir, cssDir, ps)
      ensures HasPrefix(d.inPath, sassDir + "/")
      ensures d.outPath == cssDir + "/" + TrimSuffix(d.inPath[|sassDir| + 1..], ".sass") + ".css"
      ensures d.mkdir == ParentDir(d.outPath)
    {
      var i :| 0 <= i < |ps| && d == Convert(sassDir, cssDir, ps[i]);
      assert ps[i] in ps;
      ConvertSpec(sassDir, cssDir, ps[i]);
      var rel := ps[i][|sassDir| + 1..];
      if HasSuffix(rel, ".sass") {
        assert TrimSuffix(rel, ".sass") == rel[..|rel| - 5];
      }
    }
  }
}
