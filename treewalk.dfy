/** The one directory walk that a conversion pass performs (sass-css.go lines
    79-117): filepath.Walk from the input root, with a visitor that stops at the
    first error, prunes every directory whose base name is in the ignore list
    (the root included) and dispatches every entry that is not a directory.

    The input tree is a value. Children are visited in the order they are
    listed, which stands for the lexical order filepath.Walk reads them in. */
module TreeWalk {
  import opened Optional
  import opened GoStrings
  import opened PathMap
  import opened Config

  /** An entry of the input tree as the walk meets it. `Unreadable` is an entry
      the walk hands to the visitor with an error instead of its information: one
      that cannot be stat'ed, or a directory that cannot be listed. Since Go 1.10
      filepath.Walk lists a directory before calling the visitor on it, so an
      unlistable directory ends the walk even when its name is ignored. */
  datatype Entry =
    | File(name: string)
    | Dir(name: string, children: seq<Entry>)
    | Unreadable(name: string)

  /** The outcome of a walk: the paths dispatched, in order, and whether it ran
      to the end or stopped at the error of the entry at path `at`. */
  datatype Walked =
    | Done(dispatched: seq<string>)
    | Stopped(dispatched: seq<string>, at: string)

  /** `r`, after `before` was already dispatched. */
  function Then(before: seq<string>, r: Walked): Walked {
    match r
    case Done(ps) => Done(before + ps)
    case Stopped(ps, at) => Stopped(before + ps, at)
  }

  /** The walk of the entry `e` at `path`: the paths it dispatches. */
  function Walk(path: string, e: Entry, ignore: seq<string>): Walked
    decreases e
  {
    match e
    case Unreadable(_) => Stopped([], path)
    case File(_) => Done([path])
    case Dir(n, cs) => if n in ignore then Done([]) else WalkChildren(path, cs, ignore)
  }

  /** The walk of the children `cs` of the directory at `path`, in order, up to
      the first error. */
  function WalkChildren(path: string, cs: seq<Entry>, ignore: seq<string>): Walked
    decreases cs
  {
    if |cs| == 0 then Done([])
    else
      var before := WalkChildren(path, cs[..|cs| - 1], ignore);
      if before.Stopped? then before
      else Then(before.dispatched, Walk(JoinPath(path, cs[|cs| - 1].name), cs[|cs| - 1], ignore))
  }

  // ---------------------------------------------------------------------------
  // A reference for the walk: every file of the tree, pruned or not, with the
  // directories it lies in.

  /** A file of the tree: its path, the names leading to it from the root of the
      listing (`rel`), its own name, and the names of the directories that
      enclose it, outermost first. */
  datatype Found = Found(path: string, rel: seq<string>, name: string, enclosing: seq<string>)

  /** Every file of the tree at `path`, in walk order, ignoring nothing. */
  function Files(path: string, e: Entry): seq<Found>
    decreases e
  {
    match e
    case File(n) => [Found(path, [], n, [])]
    case Unreadable(_) => []
    case Dir(n, cs) => FilesIn(path, n, cs)
  }

  /** Every file below the children `cs` of the directory `dir` at `path`. */
  function FilesIn(path: string, dir: string, cs: seq<Entry>): seq<Found>
    decreases cs
  {
    if |cs| == 0 then []
    else
      var last := cs[|cs| - 1];
      FilesIn(path, dir, cs[..|cs| - 1]) + Inside(dir, last.name, Files(JoinPath(path, last.name), last))
  }

  /** The files `fs` of the child `child`, seen from its parent directory `dir`. */
  function Inside(dir: string, child: string, fs: seq<Found>): seq<Found> {
    seq(|fs|, i requires 0 <= i < |fs| => Found(fs[i].path, [child] + fs[i].rel, fs[i].name, [dir] + fs[i].enclosing))
  }

  /** A file is eligible when none of the directories enclosing it is ignored;
      its own name plays no part. */
  predicate Eligible(f: Found, ignore: seq<string>) {
    forall k :: 0 <= k < |f.enclosing| ==> f.enclosing[k] !in ignore
  }

  /** The paths of the eligible files among `fs`, in order. */
  function EligiblePaths(fs: seq<Found>, ignore: seq<string>): seq<string> {
    if |fs| == 0 then []
    else (if Eligible(fs[0], ignore) then [fs[0].path] else []) + EligiblePaths(fs[1..], ignore)
  }

  /** The paths of all of `fs`. */
  function Paths(fs: seq<Found>): seq<string> {
    seq(|fs|, i requires 0 <= i < |fs| => fs[i].path)
  }

  /** No entry of the tree fails. */
  predicate Readable(e: Entry)
    decreases e
  {
    match e
    case Unreadable(_) => false
    case File(_) => true
    case Dir(_, cs) => forall i :: 0 <= i < |cs| ==> Readable(cs[i])
  }

  lemma {:induction false} EligibleAppend(a: seq<Found>, b: seq<Found>, ignore: seq<string>)
    ensures EligiblePaths(a + b, ignore) == EligiblePaths(a, ignore) + EligiblePaths(b, ignore)
    decreases |a|
  {
    if |a| > 0 {
      assert (a + b)[0] == a[0];
      assert (a + b)[1..] == a[1..] + b;
      EligibleAppend(a[1..], b, ignore);
    } else {
      assert a + b == b;
    }
  }

  lemma {:induction false} EligibleInside(dir: string, child: string, fs: seq<Found>, ignore: seq<string>)
    ensures EligiblePaths(Inside(dir, child, fs), ignore) == if dir in ignore then [] else EligiblePaths(fs, ignore)
    decreases |fs|
  {
    var ins := Inside(dir, child, fs);
    if |fs| > 0 {
      assert ins[1..] == Inside(dir, child, fs[1..]);
      EligibleInside(dir, child, fs[1..], ignore);
      assert ins[0].enclosing == [dir] + fs[0].enclosing;
      assert dir in ignore ==> !Eligible(ins[0], ignore) by {
        if dir in ignore { assert ins[0].enclosing[0] == dir; }
      }
      assert dir !in ignore ==> (Eligible(ins[0], ignore) <==> Eligible(fs[0], ignore)) by {
        if dir !in ignore {
          if Eligible(fs[0], ignore) {
            forall k | 0 <= k < |ins[0].enclosing| ensures ins[0].enclosing[k] !in ignore {
              if k > 0 { assert ins[0].enclosing[k] == fs[0].enclosing[k - 1]; }
            }
          }
          if Eligible(ins[0], ignore) {
            forall k | 0 <= k < |fs[0].enclosing| ensures fs[0].enclosing[k] !in ignore {
              assert ins[0].enclosing[k + 1] == fs[0].enclosing[k];
            }
          }
        }
      }
    }
  }

  /** The walk dispatches exactly the eligible files of the tree, in order and
      each once; when it stops at an error it has dispatched a prefix of them
      (WalkStopsAtFirstFailure says which); and a tree without failing entries
      is walked to the end. */
  lemma {:induction false} WalkDispatchesEligible(path: string, e: Entry, ignore: seq<string>)
    ensures var w := Walk(path, e, ignore);
      && (w.Done? ==> w.dispatched == EligiblePaths(Files(path, e), ignore))
      && (w.Stopped? ==> w.dispatched <= EligiblePaths(Files(path, e), ignore))
      && (Readable(e) ==> w.Done?)
    decreases e
  {
    match e
    case Unreadable(_) =>
    case File(n) =>
      assert EligiblePaths(Files(path, e), ignore) == [path];
    case Dir(n, cs) =>
      if n in ignore {
        EligibleInsideAll(path, n, cs, ignore);
      } else {
        WalkChildrenDispatchesEligible(path, n, cs, ignore);
      }
  }

  /** Every file below an ignored directory is dropped. */
  lemma {:induction false} EligibleInsideAll(path: string, dir: string, cs: seq<Entry>, ignore: seq<string>)
    requires dir in ignore
    ensures EligiblePaths(FilesIn(path, dir, cs), ignore) == []
    decreases |cs|
  {
    if |cs| > 0 {
      var last := cs[|cs| - 1];
      EligibleInsideAll(path, dir, cs[..|cs| - 1], ignore);
      EligibleAppend(FilesIn(path, dir, cs[..|cs| - 1]), Inside(dir, last.name, Files(JoinPath(path, last.name), last)), ignore);
      EligibleInside(dir, last.name, Files(JoinPath(path, last.name), last), ignore);
    }
  }

  lemma {:induction false} WalkChildrenDispatchesEligible(path: string, dir: string, cs: seq<Entry>, ignore: seq<string>)
    requires dir !in ignore
    ensures var w := WalkChildren(path, cs, ignore);
      && (w.Done? ==> w.dispatched == EligiblePaths(FilesIn(path, dir, cs), ignore))
      && (w.Stopped? ==> w.dispatched <= EligiblePaths(FilesIn(path, dir, cs), ignore))
      && ((forall i :: 0 <= i < |cs| ==> Readable(cs[i])) ==> w.Done?)
    decreases cs
  {
    if |cs| > 0 {
      var init, last := cs[..|cs| - 1], cs[|cs| - 1];
      var lastPath := JoinPath(path, last.name);
      WalkChildrenDispatchesEligible(path, dir, init, ignore);
      WalkDispatchesEligible(lastPath, last, ignore);
      EligibleAppend(FilesIn(path, dir, init), Inside(dir, last.name, Files(lastPath, last)), ignore);
      EligibleInside(dir, last.name, Files(lastPath, last), ignore);
      var ePre := EligiblePaths(FilesIn(path, dir, init), ignore);
      var eLast := EligiblePaths(Files(lastPath, last), ignore);
      assert EligiblePaths(FilesIn(path, dir, cs), ignore) == ePre + eLast;
      PrefixStep(WalkChildren(path, init, ignore), Walk(lastPath, last, ignore), ePre, eLast);
      if forall i :: 0 <= i < |cs| ==> Readable(cs[i]) {
        assert forall i :: 0 <= i < |init| ==> init[i] == cs[i];
      }
    }
  }

  /** A walk that meets `ePre` and then one that meets `eLast` meets `ePre + eLast`. */
  lemma PrefixStep(before: Walked, r: Walked, ePre: seq<string>, eLast: seq<string>)
    requires before.Done? ==> before.dispatched == ePre
    requires before.Stopped? ==> before.dispatched <= ePre
    requires r.Done? ==> r.dispatched == eLast
    requires r.Stopped? ==> r.dispatched <= eLast
    ensures var w := if before.Stopped? then before else Then(before.dispatched, r);
      && (w.Done? ==> w.dispatched == ePre + eLast)
      && (w.Stopped? ==> w.dispatched <= ePre + eLast)
  {
    if before.Stopped? {
      assert (ePre + eLast)[..|ePre|] == ePre;
    } else if r.Stopped? {
      assert (ePre + eLast)[..|ePre| + |r.dispatched|] == ePre + eLast[..|r.dispatched|];
    }
  }

  /** The paths of the dispatched files all come from eligible files of the tree. */
  lemma DispatchedOnlyEligible(path: string, e: Entry, ignore: seq<string>)
    ensures forall p :: p in Walk(path, e, ignore).dispatched ==>
      exists f :: f in Files(path, e) && Eligible(f, ignore) && f.path == p
  {
    WalkDispatchesEligible(path, e, ignore);
    var fs := Files(path, e);
    forall p | p in Walk(path, e, ignore).dispatched
      ensures exists f :: f in fs && Eligible(f, ignore) && f.path == p
    {
      assert p in EligiblePaths(fs, ignore);
      EligibleSource(fs, ignore, p);
    }
  }

  lemma {:induction false} EligibleSource(fs: seq<Found>, ignore: seq<string>, p: string)
    requires p in EligiblePaths(fs, ignore)
    ensures exists f :: f in fs && Eligible(f, ignore) && f.path == p
    decreases |fs|
  {
    if !(Eligible(fs[0], ignore) && fs[0].path == p) {
      EligibleSource(fs[1..], ignore, p);
      var f :| f in fs[1..] && Eligible(f, ignore) && f.path == p;
      assert f in fs;
    }
  }

  lemma {:induction false} EligibleMember(fs: seq<Found>, ignore: seq<string>, i: nat)
    requires i < |fs| && Eligible(fs[i], ignore)
    ensures fs[i].path in EligiblePaths(fs, ignore)
    decreases i
  {
    if i > 0 {
      EligibleMember(fs[1..], ignore, i - 1);
    }
  }

  /** The ignore check applies to directories only: in a tree without failing
      entries every file outside ignored directories is dispatched, whatever its
      own name, even one that is itself in the ignore list. */
  lemma IgnoreAppliesToDirectoriesOnly(path: string, e: Entry, ignore: seq<string>, f: Found)
    requires Readable(e)
    requires f in Files(path, e) && Eligible(f, ignore)
    ensures f.path in Walk(path, e, ignore).dispatched
  {
    WalkDispatchesEligible(path, e, ignore);
    var fs := Files(path, e);
    var i :| 0 <= i < |fs| && fs[i] == f;
    EligibleMember(fs, ignore, i);
  }

  // ---------------------------------------------------------------------------
  // A second reference, for walks that stop: every entry the walk would meet
  // that is not a directory, the failing ones included, in walk order.

  /** A file or a failing entry of the tree: its path, the names of the
      directories that enclose it, outermost first, and whether the walk
      reports an error for it. */
  datatype Item = Item(path: string, enclosing: seq<string>, fails: bool)

  /** Every file and failing entry of the tree at `path`, in walk order,
      ignoring nothing. */
  function Items(path: string, e: Entry): seq<Item>
    decreases e
  {
    match e
    case File(_) => [Item(path, [], false)]
    case Unreadable(_) => [Item(path, [], true)]
    case Dir(n, cs) => ItemsIn(path, n, cs)
  }

  /** Every file and failing entry below the children `cs` of the directory
      `dir` at `path`. */
  function ItemsIn(path: string, dir: string, cs: seq<Entry>): seq<Item>
    decreases cs
  {
    if |cs| == 0 then []
    else
      var last := cs[|cs| - 1];
      ItemsIn(path, dir, cs[..|cs| - 1]) + Within(dir, Items(JoinPath(path, last.name), last))
  }

  /** The items `its` of a child, seen from its parent directory `dir`. */
  function Within(dir: string, its: seq<Item>): seq<Item> {
    seq(|its|, i requires 0 <= i < |its| => Item(its[i].path, [dir] + its[i].enclosing, its[i].fails))
  }

  /** An item the walk reaches: none of the directories enclosing it is ignored. */
  predicate Reached(it: Item, ignore: seq<string>) {
    forall k :: 0 <= k < |it.enclosing| ==> it.enclosing[k] !in ignore
  }

  /** An item at which the walk fails: a failing entry it reaches. */
  predicate Fails(it: Item, ignore: seq<string>) {
    it.fails && Reached(it, ignore)
  }

  /** `k` is the first item of `its` at which the walk fails. */
  predicate FirstFailure(its: seq<Item>, ignore: seq<string>, k: int) {
    && 0 <= k < |its|
    && Fails(its[k], ignore)
    && forall j :: 0 <= j < k ==> !Fails(its[j], ignore)
  }

  /** The paths of the files among `its` that the walk reaches, in order. */
  function ReachedFiles(its: seq<Item>, ignore: seq<string>): seq<string> {
    if |its| == 0 then []
    else (if Reached(its[0], ignore) && !its[0].fails then [its[0].path] else []) + ReachedFiles(its[1..], ignore)
  }

  /** The flat walk over the items `its`: pass over the items not reached,
      stop at the first failing one, dispatch the files. */
  function Scan(its: seq<Item>, ignore: seq<string>): Walked {
    if |its| == 0 then Done([])
    else if !Reached(its[0], ignore) then Scan(its[1..], ignore)
    else if its[0].fails then Stopped([], its[0].path)
    else Then([its[0].path], Scan(its[1..], ignore))
  }

  /** The flat walk either fails at the first failing item it reaches, having
      dispatched exactly the files it reached before that item, or meets no
      failing item and dispatches every file it reaches. */
  lemma {:induction false} ScanSpec(its: seq<Item>, ignore: seq<string>)
    ensures var w := Scan(its, ignore);
      && (w.Done? ==> (forall j :: 0 <= j < |its| ==> !Fails(its[j], ignore)) && w.dispatched == ReachedFiles(its, ignore))
      && (w.Stopped? ==> exists k :: FirstFailure(its, ignore, k) && w.dispatched == ReachedFiles(its[..k], ignore) && w.at == its[k].path)
    decreases |its|
  {
    if |its| > 0 {
      var rest := its[1..];
      ScanSpec(rest, ignore);
      var w, r := Scan(its, ignore), Scan(rest, ignore);
      var head := if Reached(its[0], ignore) && !its[0].fails then [its[0].path] else [];
      if Fails(its[0], ignore) {
        assert FirstFailure(its, ignore, 0);
        assert ReachedFiles(its[..0], ignore) == [];
      } else {
        assert forall j :: 0 < j < |its| ==> its[j] == rest[j - 1];
        if r.Stopped? {
          var k :| FirstFailure(rest, ignore, k) && r.dispatched == ReachedFiles(rest[..k], ignore) && r.at == rest[k].path;
          assert its[..k + 1][1..] == rest[..k];
          assert ReachedFiles(its[..k + 1], ignore) == head + ReachedFiles(rest[..k], ignore);
          assert FirstFailure(its, ignore, k + 1);
        }
      }
    }
  }

  lemma ThenThen(a: seq<string>, b: seq<string>, r: Walked)
    ensures Then(a, Then(b, r)) == Then(a + b, r)
  {
    assert a + (b + r.dispatched) == (a + b) + r.dispatched;
  }

  /** The flat walk of two runs of items: the first, and the second only when
      the first did not stop. */
  lemma {:induction false} ScanAppend(a: seq<Item>, b: seq<Item>, ignore: seq<string>)
    ensures Scan(a + b, ignore) == if Scan(a, ignore).Stopped? then Scan(a, ignore) else Then(Scan(a, ignore).dispatched, Scan(b, ignore))
    decreases |a|
  {
    if |a| == 0 {
      assert a + b == b;
    } else {
      assert (a + b)[0] == a[0];
      assert (a + b)[1..] == a[1..] + b;
      ScanAppend(a[1..], b, ignore);
      if Reached(a[0], ignore) && !a[0].fails && !Scan(a[1..], ignore).Stopped? {
        ThenThen([a[0].path], Scan(a[1..], ignore).dispatched, Scan(b, ignore));
      }
    }
  }

  lemma ReachedWithin(dir: string, it: Item, ignore: seq<string>)
    ensures Reached(Item(it.path, [dir] + it.enclosing, it.fails), ignore) <==> dir !in ignore && Reached(it, ignore)
  {
    var enc := [dir] + it.enclosing;
    assert enc[0] == dir;
    assert forall k :: 0 <= k < |it.enclosing| ==> enc[k + 1] == it.enclosing[k];
    if dir !in ignore && Reached(it, ignore) {
      forall k | 0 <= k < |enc| ensures enc[k] !in ignore {
        if k > 0 { assert enc[k] == it.enclosing[k - 1]; }
      }
    }
  }

  /** The items of a child seen from its parent `dir` are all passed over when
      `dir` is ignored, and walked as they are otherwise. */
  lemma {:induction false} ScanWithin(dir: string, its: seq<Item>, ignore: seq<string>)
    ensures Scan(Within(dir, its), ignore) == if dir in ignore then Done([]) else Scan(its, ignore)
    decreases |its|
  {
    var ws := Within(dir, its);
    if |its| > 0 {
      assert ws[1..] == Within(dir, its[1..]);
      ScanWithin(dir, its[1..], ignore);
      ReachedWithin(dir, its[0], ignore);
    }
  }

  /** Nothing below an ignored directory is reached. */
  lemma {:induction false} ScanIgnoredDir(path: string, dir: string, cs: seq<Entry>, ignore: seq<string>)
    requires dir in ignore
    ensures Scan(ItemsIn(path, dir, cs), ignore) == Done([])
    decreases |cs|
  {
    if |cs| > 0 {
      var last := cs[|cs| - 1];
      var its := Items(JoinPath(path, last.name), last);
      ScanIgnoredDir(path, dir, cs[..|cs| - 1], ignore);
      ScanAppend(ItemsIn(path, dir, cs[..|cs| - 1]), Within(dir, its), ignore);
      ScanWithin(dir, its, ignore);
    }
  }

  /** The walk of the tree is the flat walk of its items. */
  lemma {:induction false} WalkIsScan(path: string, e: Entry, ignore: seq<string>)
    ensures Walk(path, e, ignore) == Scan(Items(path, e), ignore)
    decreases e
  {
    match e
    case File(_) =>
    case Unreadable(_) =>
    case Dir(n, cs) =>
      if n in ignore {
        ScanIgnoredDir(path, n, cs, ignore);
      } else {
        WalkChildrenIsScan(path, n, cs, ignore);
      }
  }

  /** The walk of the children of a directory that is not ignored is the flat
      walk of the items below them. */
  lemma {:induction false} WalkChildrenIsScan(path: string, dir: string, cs: seq<Entry>, ignore: seq<string>)
    requires dir !in ignore
    ensures WalkChildren(path, cs, ignore) == Scan(ItemsIn(path, dir, cs), ignore)
    decreases cs
  {
    if |cs| > 0 {
      var init, last := cs[..|cs| - 1], cs[|cs| - 1];
      var lastPath := JoinPath(path, last.name);
      WalkChildrenIsScan(path, dir, init, ignore);
      WalkIsScan(lastPath, last, ignore);
      ScanAppend(ItemsIn(path, dir, init), Within(dir, Items(lastPath, last)), ignore);
      ScanWithin(dir, Items(lastPath, last), ignore);
    }
  }

  /** A walk that stops does so at the path of the first failing entry with no
      ignored directory around it, having dispatched exactly the files with no
      ignored directory around them that come before that entry; a walk that
      finishes met no such entry and dispatched all such files. */
  lemma WalkStopsAtFirstFailure(path: string, e: Entry, ignore: seq<string>)
    ensures var w := Walk(path, e, ignore);
      && (w.Done? ==> forall j :: 0 <= j < |Items(path, e)| ==> !Fails(Items(path, e)[j], ignore))
      && (w.Done? ==> w.dispatched == ReachedFiles(Items(path, e), ignore))
      && (w.Stopped? ==> exists k :: (FirstFailure(Items(path, e), ignore, k)
            && w == Stopped(ReachedFiles(Items(path, e)[..k], ignore), Items(path, e)[k].path)))
  {
    WalkIsScan(path, e, ignore);
    ScanSpec(Items(path, e), ignore);
  }

  /** The same for the children of a directory that is not ignored. */
  lemma WalkChildrenStopsAtFirstFailure(path: string, dir: string, cs: seq<Entry>, ignore: seq<string>)
    requires dir !in ignore
    ensures var w := WalkChildren(path, cs, ignore);
      && (w.Done? ==> forall j :: 0 <= j < |ItemsIn(path, dir, cs)| ==> !Fails(ItemsIn(path, dir, cs)[j], ignore))
      && (w.Done? ==> w.dispatched == ReachedFiles(ItemsIn(path, dir, cs), ignore))
      && (w.Stopped? ==> exists k :: (FirstFailure(ItemsIn(path, dir, cs), ignore, k)
            && w == Stopped(ReachedFiles(ItemsIn(path, dir, cs)[..k], ignore), ItemsIn(path, dir, cs)[k].path)))
  {
    WalkChildrenIsScan(path, dir, cs, ignore);
    ScanSpec(ItemsIn(path, dir, cs), ignore);
  }

  // ---------------------------------------------------------------------------
  // Each file once: in a well-formed tree the files have distinct paths.

  /** Names the directory listing can produce: non-empty, without a separator. */
  predicate NameOk(n: string) {
    n != "" && '/' !in n
  }

  /** Every name is a proper base name and no directory lists a name twice. */
  predicate WellFormed(e: Entry)
    decreases e
  {
    NameOk(e.name) &&
    match e
    case Dir(_, cs) =>
      && (forall i :: 0 <= i < |cs| ==> WellFormed(cs[i]))
      && (forall i, j :: 0 <= i < j < |cs| ==> cs[i].name != cs[j].name)
    case _ => true
  }

  /** The path of the entry reached from `base` by the names `rel`. */
  function Render(base: string, rel: seq<string>): string {
    if |rel| == 0 then base else base + "/" + Join(rel, "/")
  }

  lemma RenderChild(base: string, child: string, rel: seq<string>)
    ensures Render(base, [child] + rel) == Render(JoinPath(base, child), rel)
  {
  }

  /** Every file's path is its root's path followed by its names; below a directory
      there is at least one name, and the first is that of a child. */
  lemma {:induction false} FilesRendered(path: string, e: Entry)
    ensures forall i :: 0 <= i < |Files(path, e)| ==> Files(path, e)[i].path == Render(path, Files(path, e)[i].rel)
    ensures e.Dir? ==> forall i :: 0 <= i < |Files(path, e)| ==> |Files(path, e)[i].rel| >= 1
    decreases e
  {
    if e.Dir? {
      FilesInRendered(path, e.name, e.children);
    }
  }

  lemma {:induction false} FilesInRendered(path: string, dir: string, cs: seq<Entry>)
    ensures forall i :: 0 <= i < |FilesIn(path, dir, cs)| ==>
      && FilesIn(path, dir, cs)[i].path == Render(path, FilesIn(path, dir, cs)[i].rel)
      && |FilesIn(path, dir, cs)[i].rel| >= 1
      && exists j :: 0 <= j < |cs| && FilesIn(path, dir, cs)[i].rel[0] == cs[j].name
    decreases cs
  {
    if |cs| > 0 {
      var init, last := cs[..|cs| - 1], cs[|cs| - 1];
      var lastPath := JoinPath(path, last.name);
      FilesInRendered(path, dir, init);
      FilesRendered(lastPath, last);
      var a := FilesIn(path, dir, init);
      assert forall i :: 0 <= i < |a| ==> a[i].path == Render(path, a[i].rel);
      var sub := Files(lastPath, last);
      var b := Inside(dir, last.name, sub);
      var fs: seq<Found> := a + b;
      assert FilesIn(path, dir, cs) == fs;
      forall i | 0 <= i < |fs|
        ensures fs[i].path == Render(path, fs[i].rel)
        ensures |fs[i].rel| >= 1
        ensures exists j :: 0 <= j < |cs| && fs[i].rel[0] == cs[j].name
      {
        if i < |a| {
          assert fs[i] == a[i];
          assert a[i].path == Render(path, a[i].rel);
          assert |a[i].rel| >= 1;
          var j :| 0 <= j < |init| && a[i].rel[0] == init[j].name;
          assert init[j] == cs[j];
        } else {
          var k := i - |a|;
          assert fs[i] == b[k];
          RenderChild(path, last.name, sub[k].rel);
          assert b[k].rel[0] == cs[|cs| - 1].name;
        }
      }
    }
  }

  /** The names of every file are proper base names and no two files have the same names. */
  ghost predicate DistinctNames(fs: seq<Found>) {
    && (forall i :: 0 <= i < |fs| ==> forall k :: 0 <= k < |fs[i].rel| ==> NameOk(fs[i].rel[k]))
    && (forall i, j :: 0 <= i < j < |fs| ==> fs[i].rel != fs[j].rel)
  }

  /** In a well-formed tree the files have proper, distinct names. */
  lemma {:induction false} FilesDistinct(path: string, e: Entry)
    requires WellFormed(e)
    ensures DistinctNames(Files(path, e))
    decreases e
  {
    if e.Dir? {
      FilesInDistinct(path, e.name, e.children);
    }
  }

  lemma {:induction false} FilesInDistinct(path: string, dir: string, cs: seq<Entry>)
    requires forall i :: 0 <= i < |cs| ==> WellFormed(cs[i])
    requires forall i, j :: 0 <= i < j < |cs| ==> cs[i].name != cs[j].name
    ensures DistinctNames(FilesIn(path, dir, cs))
    decreases cs
  {
    if |cs| > 0 {
      var init, last := cs[..|cs| - 1], cs[|cs| - 1];
      var lastPath := JoinPath(path, last.name);
      FilesInDistinct(path, dir, init);
      FilesDistinct(lastPath, last);
      FilesInRendered(path, dir, init);
      var a := FilesIn(path, dir, init);
      var sub := Files(lastPath, last);
      var b := Inside(dir, last.name, sub);
      var fs := a + b;
      assert FilesIn(path, dir, cs) == fs;
      forall i | 0 <= i < |fs| ensures forall k :: 0 <= k < |fs[i].rel| ==> NameOk(fs[i].rel[k]) {
        if i >= |a| {
          var m := i - |a|;
          assert fs[i] == b[m];
          forall k | 0 <= k < |b[m].rel| ensures NameOk(b[m].rel[k]) {
            if k > 0 { assert b[m].rel[k] == sub[m].rel[k - 1]; }
          }
        } else {
          assert fs[i] == a[i];
        }
      }
      forall i, j | 0 <= i < j < |fs| ensures fs[i].rel != fs[j].rel {
        if j < |a| {
          assert fs[i] == a[i] && fs[j] == a[j];
        } else if i >= |a| {
          assert fs[i] == b[i - |a|] && fs[j] == b[j - |a|];
          assert b[i - |a|].rel[1..] == sub[i - |a|].rel;
          assert b[j - |a|].rel[1..] == sub[j - |a|].rel;
        } else {
          assert fs[i] == a[i] && fs[j] == b[j - |a|];
          var q :| 0 <= q < |init| && a[i].rel[0] == init[q].name;
          assert init[q] == cs[q];
          assert b[j - |a|].rel[0] == cs[|cs| - 1].name;
        }
      }
    }
  }

  /** In a well-formed tree no two files have the same path. */
  lemma DistinctPaths(path: string, e: Entry)
    requires WellFormed(e)
    ensures forall i, j :: 0 <= i < j < |Files(path, e)| ==> Files(path, e)[i].path != Files(path, e)[j].path
  {
    var fs := Files(path, e);
    if e.Dir? {
      FilesRendered(path, e);
      FilesDistinct(path, e);
      forall i, j | 0 <= i < j < |fs| ensures fs[i].path != fs[j].path {
        if fs[i].path == fs[j].path {
          var ji, jj := Join(fs[i].rel, "/"), Join(fs[j].rel, "/");
          assert (path + "/" + ji)[|path| + 1..] == ji;
          assert (path + "/" + jj)[|path| + 1..] == jj;
          JoinInjective(fs[i].rel, fs[j].rel, '/');
        }
      }
    }
  }

  lemma {:induction false} AbsentPath(fs: seq<Found>, ignore: seq<string>, p: string)
    requires forall k :: 0 <= k < |fs| ==> fs[k].path != p
    ensures p !in EligiblePaths(fs, ignore)
    decreases |fs|
  {
    if |fs| > 0 {
      AbsentPath(fs[1..], ignore, p);
    }
  }

  lemma {:induction false} CountEligible(fs: seq<Found>, ignore: seq<string>, i: nat)
    requires i < |fs|
    requires forall a, b :: 0 <= a < b < |fs| ==> fs[a].path != fs[b].path
    ensures multiset(EligiblePaths(fs, ignore))[fs[i].path] == if Eligible(fs[i], ignore) then 1 else 0
    decreases |fs|
  {
    var head := if Eligible(fs[0], ignore) then [fs[0].path] else [];
    assert EligiblePaths(fs, ignore) == head + EligiblePaths(fs[1..], ignore);
    if i == 0 {
      assert forall k :: 0 <= k < |fs[1..]| ==> fs[1..][k] == fs[k + 1];
      AbsentPath(fs[1..], ignore, fs[0].path);
    } else {
      CountEligible(fs[1..], ignore, i - 1);
      assert fs[1..][i - 1] == fs[i];
    }
  }

  /** In a well-formed tree without failing entries, one pass dispatches every
      file exactly once when no directory enclosing it is ignored, and never
      when one is, at whatever depth. */
  lemma DispatchedExactlyOnce(root: string, e: Entry, ignore: seq<string>, f: Found)
    requires WellFormed(e) && Readable(e)
    requires f in Files(root, e)
    ensures Walk(root, e, ignore).Done?
    ensures multiset(Walk(root, e, ignore).dispatched)[f.path] == if Eligible(f, ignore) then 1 else 0
  {
    WalkDispatchesEligible(root, e, ignore);
    DistinctPaths(root, e);
    var fs := Files(root, e);
    var i :| 0 <= i < |fs| && fs[i] == f;
    CountEligible(fs, ignore, i);
  }

  // ---------------------------------------------------------------------------
  // Pruning: what lies below an ignored directory is never looked at.

  /** The entry reached from `e` by following child indices. */
  function Subtree(e: Entry, pos: seq<nat>): Option<Entry>
    decreases |pos|
  {
    if |pos| == 0 then Some(e)
    else if e.Dir? && pos[0] < |e.children| then Subtree(e.children[pos[0]], pos[1..])
    else None
  }

  /** `e` with the entry at `pos` replaced by `sub`. */
  function Graft(e: Entry, pos: seq<nat>, sub: Entry): Entry
    requires Subtree(e, pos).Some?
    decreases |pos|
  {
    if |pos| == 0 then sub
    else Dir(e.name, e.children[pos[0] := Graft(e.children[pos[0]], pos[1..], sub)])
  }

  lemma {:induction false} WalkChildrenAgree(path: string, cs: seq<Entry>, ds: seq<Entry>, ignore: seq<string>)
    requires |cs| == |ds|
    requires forall j :: 0 <= j < |cs| ==>
      cs[j].name == ds[j].name && Walk(JoinPath(path, cs[j].name), cs[j], ignore) == Walk(JoinPath(path, ds[j].name), ds[j], ignore)
    ensures WalkChildren(path, cs, ignore) == WalkChildren(path, ds, ignore)
    decreases |cs|
  {
    if |cs| > 0 {
      WalkChildrenAgree(path, cs[..|cs| - 1], ds[..|ds| - 1], ignore);
    }
  }

  /** Whatever lies below a directory whose name is ignored, at any depth, the
      walk's outcome is the same: its contents, failing entries included, are
      never read. */
  lemma {:induction false} IgnoredContentsNeverRead(path: string, e: Entry, pos: seq<nat>, ignore: seq<string>, other: seq<Entry>)
    requires Subtree(e, pos).Some? && Subtree(e, pos).value.Dir?
    requires Subtree(e, pos).value.name in ignore
    ensures Walk(path, Graft(e, pos, Dir(Subtree(e, pos).value.name, other)), ignore) == Walk(path, e, ignore)
    decreases |pos|
  {
    if |pos| > 0 && e.name !in ignore {
      var sub := Dir(Subtree(e, pos).value.name, other);
      var i := pos[0];
      var cs := e.children;
      var g := Graft(cs[i], pos[1..], sub);
      IgnoredContentsNeverRead(JoinPath(path, cs[i].name), cs[i], pos[1..], ignore, other);
      assert g.name == cs[i].name;
      WalkChildrenAgree(path, cs[i := g], cs, ignore);
    }
  }

  // ---------------------------------------------------------------------------
  // An ignore list that names no directory of the tree skips nothing.

  /** No directory of the tree has an ignored name. */
  predicate NoDirIgnored(e: Entry, ignore: seq<string>)
    decreases e
  {
    match e
    case Dir(n, cs) => n !in ignore && forall i :: 0 <= i < |cs| ==> NoDirIgnored(cs[i], ignore)
    case _ => true
  }

  lemma {:induction false} AllEligible(path: string, e: Entry, ignore: seq<string>)
    requires NoDirIgnored(e, ignore)
    ensures EligiblePaths(Files(path, e), ignore) == Paths(Files(path, e))
    decreases e
  {
    if e.Dir? {
      AllEligibleIn(path, e.name, e.children, ignore);
    }
  }

  lemma {:induction false} AllEligibleIn(path: string, dir: string, cs: seq<Entry>, ignore: seq<string>)
    requires dir !in ignore
    requires forall i :: 0 <= i < |cs| ==> NoDirIgnored(cs[i], ignore)
    ensures EligiblePaths(FilesIn(path, dir, cs), ignore) == Paths(FilesIn(path, dir, cs))
    decreases cs
  {
    if |cs| > 0 {
      var init, last := cs[..|cs| - 1], cs[|cs| - 1];
      var lastPath := JoinPath(path, last.name);
      AllEligibleIn(path, dir, init, ignore);
      AllEligible(lastPath, last, ignore);
      var a := FilesIn(path, dir, init);
      var sub := Files(lastPath, last);
      var b := Inside(dir, last.name, sub);
      EligibleAppend(a, b, ignore);
      EligibleInside(dir, last.name, sub, ignore);
      assert Paths(a + b) == Paths(a) + Paths(b);
      assert Paths(b) == Paths(sub);
    }
  }

  lemma {:induction false} WellFormedNamesNonEmpty(e: Entry)
    requires WellFormed(e)
    ensures NoDirIgnored(e, [""])
    decreases e
  {
    if e.Dir? {
      forall i | 0 <= i < |e.children| ensures NoDirIgnored(e.children[i], [""]) {
        WellFormedNamesNonEmpty(e.children[i]);
      }
    }
  }

  /** With `--ignore ""` the ignore list is `[""]`, which is no directory's
      name: a pass over a tree without failing entries dispatches every file,
      those in directories named lib or inc included. */
  lemma EmptyOverrideSkipsNothing(root: string, e: Entry)
    requires WellFormed(e) && Readable(e)
    ensures Walk(root, e, IgnoreDirs(Some(""))) == Done(Paths(Files(root, e)))
  {
    assert IgnoreDirs(Some("")) == [""];
    WellFormedNamesNonEmpty(e);
    AllEligible(root, e, [""]);
    WalkDispatchesEligible(root, e, [""]);
  }

  /** A root directory whose own name is ignored is pruned before anything
      below it is read: the pass dispatches nothing and meets no error, though
      the eligible-file reference has nothing to dispatch either. */
  lemma IgnoredRootDispatchesNothing(root: string, name: string, children: seq<Entry>, ignore: seq<string>)
    requires name in ignore
    ensures Walk(root, Dir(name, children), ignore) == Done([])
    ensures EligiblePaths(Files(root, Dir(name, children)), ignore) == []
  {
    EligibleInsideAll(root, name, children, ignore);
  }

  /** The root entry filepath.Walk hands the visitor is named by the last
      piece of the root path, so an input root such as `d/lib` with `lib`
      ignored dispatches nothing, whatever lies below it. */
  lemma IgnoredRootPath(d: string, base: string, children: seq<Entry>, ignore: seq<string>)
    requires '/' !in base && base in ignore
    ensures Walk(d + "/" + base, Dir(BaseName(d + "/" + base), children), ignore) == Done([])
  {
    BaseNameOf(d, base);
  }

  /** Below a root directory every dispatched path extends the root's path by '/'. */
  lemma DispatchedBelowRoot(root: string, e: Entry, ignore: seq<string>)
    requires e.Dir?
    ensures forall p :: p in Walk(root, e, ignore).dispatched ==>
      HasPrefix(p, root + "/")
  {
    DispatchedOnlyEligible(root, e, ignore);
    FilesRendered(root, e);
    var fs := Files(root, e);
    forall p | p in Walk(root, e, ignore).dispatched ensures HasPrefix(p, root + "/") {
      var f :| f in fs && Eligible(f, ignore) && f.path == p;
      var i :| 0 <= i < |fs| && fs[i] == f;
      var j := Join(f.rel, "/");
      assert p == root + "/" + j;
      assert p[..|root| + 1] == root + "/";
    }
  }

  /** Once the walk of a directory's first children has stopped at an error,
      the walk of all its children has stopped there too. */
  lemma {:induction false} StoppedStaysStopped(path: string, cs: seq<Entry>, k: nat, ignore: seq<string>)
    requires k <= |cs|
    requires WalkChildren(path, cs[..k], ignore).Stopped?
    ensures WalkChildren(path, cs, ignore) == WalkChildren(path, cs[..k], ignore)
    decreases |cs|
  {
    if k < |cs| {
      var init := cs[..|cs| - 1];
      assert init[..k] == cs[..k];
      StoppedStaysStopped(path, init, k, ignore);
    } else {
      assert cs[..k] == cs;
    }
  }

  /** One more child walked, when the walk so far has not stopped. */
  lemma WalkChildrenStep(path: string, cs: seq<Entry>, i: nat, ignore: seq<string>)
    requires i < |cs|
    requires WalkChildren(path, cs[..i], ignore).Done?
    ensures WalkChildren(path, cs[..i + 1], ignore)
         == Then(WalkChildren(path, cs[..i], ignore).dispatched, Walk(JoinPath(path, cs[i].name), cs[i], ignore))
  {
    assert cs[..i + 1][..i] == cs[..i];
  }
}
