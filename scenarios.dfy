/** Worked instances of a pass over a small tree, for any input root
    `sassDir` and output root `cssDir`. */
module Scenarios {
  import opened Optional
  import opened GoStrings
  import opened PathMap
  import opened TreeWalk
  import opened Config

  /** The tree a.sass, lib/b.sass, sub/c.sass and a plain file inc named like
      an ignored directory. */
  function SampleTree(): Entry {
    Dir("sass", [File("a.sass"), Dir("lib", [File("b.sass")]), Dir("sub", [File("c.sass")]), File("inc")])
  }

  /** With the default ignore list the walk dispatches a.sass, sub/c.sass and
      the file inc, and skips lib. */
  lemma SampleWalk(sassDir: string)
    ensures Walk(sassDir, SampleTree(), IgnoreDirs(None))
         == Done([sassDir + "/" + "a.sass", sassDir + "/" + "sub" + "/" + "c.sass", sassDir + "/" + "inc"])
  {
    var t := SampleTree();
    var ignore := IgnoreDirs(None);
    assert "lib" in ignore && "sub" !in ignore && "sass" !in ignore;
    var cs := t.children;
    var sub := JoinPath(sassDir, "sub");
    assert cs[..0] == [];
    WalkChildrenStep(sassDir, cs, 0, ignore);
    WalkChildrenStep(sassDir, cs, 1, ignore);
    assert cs[2].children[..0] == [] && cs[2].children[..1] == cs[2].children;
    WalkChildrenStep(sub, cs[2].children, 0, ignore);
    assert Walk(sub, cs[2], ignore) == Done([JoinPath(sub, "c.sass")]);
    WalkChildrenStep(sassDir, cs, 2, ignore);
    WalkChildrenStep(sassDir, cs, 3, ignore);
    assert cs[..4] == cs;
  }

  /** A root holding a.sass, an entry bad that cannot be read, and c.sass: the
      unit for a.sass is started, the walk stops at bad, and c.sass is never
      reached. */
  lemma StopsAtUnreadable(sassDir: string)
    ensures Walk(sassDir, Dir("sass", [File("a.sass"), Unreadable("bad"), File("c.sass")]), IgnoreDirs(None))
         == Stopped([sassDir + "/" + "a.sass"], sassDir + "/" + "bad")
  {
    var cs := [File("a.sass"), Unreadable("bad"), File("c.sass")];
    var ignore := IgnoreDirs(None);
    assert "sass" !in ignore;
    assert cs[..0] == [];
    WalkChildrenStep(sassDir, cs, 0, ignore);
    WalkChildrenStep(sassDir, cs, 1, ignore);
    StoppedStaysStopped(sassDir, cs, 2, ignore);
  }

  /** A file `name` directly below the input root is written to `out` directly
      below the output root, and MkdirAll is asked for the output root. */
  lemma TopLevelConverts(sassDir: string, cssDir: string, name: string, out: string)
    requires '/' !in out
    requires out == TrimSuffix(name, ".sass") + ".css"
    ensures Convert(sassDir, cssDir, sassDir + "/" + name)
         == Dispatch(sassDir + "/" + name, cssDir + "/" + out, Some(cssDir))
  {
    ConvertsTo(sassDir, cssDir, name, out);
    ConvertMkdir(sassDir, cssDir, sassDir + "/" + name);
    ParentDirOf(cssDir, out);
  }

  /** A file `name` in the sub directory `dir` of the input root is written in
      the same sub directory of the output root, and MkdirAll is given that
      sub directory. */
  lemma SubDirMkdir(sassDir: string, cssDir: string, dir: string, name: string, out: string)
    requires '/' !in out
    requires out == TrimSuffix(name, ".sass") + ".css"
    ensures Convert(sassDir, cssDir, sassDir + "/" + (dir + "/" + name)).mkdir == Some(cssDir + "/" + dir)
  {
    var path := sassDir + "/" + (dir + "/" + name);
    var o := cssDir + "/" + (dir + "/" + out);
    SubDirOutPath(sassDir, cssDir, dir, name, out);
    ConvertMkdir(sassDir, cssDir, path);
    ParentDirOf(cssDir + "/" + dir, out);
    SlashAssoc(cssDir, dir, out);
  }

  /** A file `name` in the sub directory `dir` of the input root is written to
      `out` in the same sub directory of the output root. */
  lemma SubDirOutPath(sassDir: string, cssDir: string, dir: string, name: string, out: string)
    requires out == TrimSuffix(name, ".sass") + ".css"
    ensures Convert(sassDir, cssDir, sassDir + "/" + (dir + "/" + name)).outPath
         == cssDir + "/" + (dir + "/" + out)
  {
    SuffixPastSlash(dir, name, ".sass");
    ConvertsTo(sassDir, cssDir, dir + "/" + name, dir + "/" + out);
  }

  /** A file without the ".sass" suffix keeps its name and gains ".css". */
  lemma OtherSuffixKept(sassDir: string, cssDir: string)
    ensures Convert(sassDir, cssDir, sassDir + "/" + "x.scss").outPath == cssDir + "/" + "x.scss.css"
  {
    assert "x.scss"[1..] == ".scss" != ".sass";
    ConvertsTo(sassDir, cssDir, "x.scss", "x.scss.css");
  }

  /** The file at `rel` below the input root is written to `out` below the output root. */
  lemma ConvertsTo(sassDir: string, cssDir: string, rel: string, out: string)
    requires out == TrimSuffix(rel, ".sass") + ".css"
    ensures Convert(sassDir, cssDir, sassDir + "/" + rel).outPath == cssDir + "/" + out
  {
    MirroredPath(sassDir, cssDir, rel);
  }

  /** Regrouping a path of three components. */
  lemma SlashAssoc(a: string, b: string, c: string)
    ensures a + "/" + b + "/" + c == a + "/" + (b + "/" + c)
  {
  }
}
