# sass-css in Dafny

`sass-css` is a small Go command (`sass-css.go`) that compiles a tree of SASS
files into CSS. One pass walks the input directory `sassDir` with
`filepath.Walk`. The walk skips every directory whose base name is in
`ignoreDirs`, and starts one conversion unit per file it meets. Each unit
computes the path of the file relative to `sassDir` and re-roots it under
`cssDir`. It then asks `MkdirAll` for the directory of that target, trims one
trailing `.sass` from it, appends `.css`, and runs the `sass` compiler from the
input path to that output path.

This project models three parts of the program and proves properties of them:
- the ignore list;
- the walk and its visitor;
- the path arithmetic of a conversion unit.

Modules:

- `GoStrings` (`gostrings.dfy`) holds the parts of Go's `strings` package that
  the pass uses: `HasPrefix`, `HasSuffix`, `TrimPrefix`, `TrimSuffix`, `Split`
  and `Join`.
  - `Split` and `Join` are proved inverse to each other.
  - `ParentDir` is the split / drop-last / join step that computes the
    `MkdirAll` argument. It is proved to be everything before the last `/`.
  - `Optional` supplies the `Option` type.
- `Config` (`config.dfy`) is the ignore list that `init` sets up: the default
  `["lib", "inc"]`, or the comma-split of the `--ignore` value.
- `PathMap` (`pathmap.dfy`) is one conversion unit's path computation.
  `Convert` maps an input path to a `Dispatch`: the compiler's input path, its
  output path and the `MkdirAll` directory.
- `TreeWalk` (`treewalk.dfy`) gives the walk as a function over an input tree:
  - `Entry` has a file, a directory with ordered children, or an entry the walk
    gets an error for.
  - `Walk` returns the paths dispatched, and `Stopped` if an error ended the
    walk early.
  - Its reference is `Files`: every file of the tree with the directories
    around it. The lemmas prove that the walk dispatches exactly the files
    with no ignored directory around them.
  - A second reference, `Items`, lists the files and the failing entries
    together in walk order, and `Scan` walks that flat list. The walk is
    proved equal to `Scan`. So a walk that stops does so at the first failing
    entry with no ignored directory around it, after dispatching exactly the
    eligible files before that entry.
- `Driver` (`driver.dfy`) is the imperative side, a class `Pass` that holds the
  package state:
  - `Visit` is the visitor handed to `filepath.Walk`, including its loop over
    `ignoreDirs` with an early `SkipDir` return.
  - `WalkEntry` and `WalkChildrenOf` are `filepath.Walk`'s traversal calling
    that visitor.
  - `Run` is `convertSASSToCSS`.
  - `WalkEntry`, `WalkChildrenOf` and `Run` are proved equal to the
    `TreeWalk` specification. `Visit` is proved to return the visitor's signal
    for each kind of entry and to start exactly one unit per non-directory.
    The constructor's contract states the state that `init` leaves. Starting
    a goroutine appends its path to `started`; `Units()` turns those paths
    into conversion units.
- `Scenarios` (`scenarios.dfy`) holds worked instances:
  - a sample tree with `lib/` pruned and a plain file named `inc`
    dispatched;
  - a `.scss` file that becomes `.scss.css`;
  - files at the top level and in sub-directories, with their `MkdirAll`
    directories.

Assumptions, stated on the model:
- The path separator is `/`, so `filepath.ToSlash` is the identity.
- `filepath.Join` of a clean directory and a clean base name is their
  concatenation with `/` between them.
- A directory's children are visited in the order the tree lists them; this
  stands for `filepath.Walk`'s lexical order.
- The root entry's name is the last `/`-piece of `sassDir` (`BaseName`), as
  `filepath.Walk` obtains it by `Lstat` of the root. `Driver.Pass.Run`
  requires this, so an input root such as `/w/lib` with `lib` ignored
  dispatches nothing.
- The tree stays fixed during the walk. The conversion units run concurrently
  with the walk, and their `MkdirAll` and compiler output would appear in the
  walk if `cssDir` lay below `sassDir`. The model does not capture that.
- An entry the walk reports an error for ends the walk. This holds even for a
  directory whose name is ignored, because since Go 1.10 `filepath.Walk` lists
  a directory before calling the visitor on it, and the visitor returns the
  error before its ignore check.

A walk error ends the walk, but the program does not report it.
`convertSASSToCSS` ignores the value `filepath.Walk` returns: the pass prints
its banner like any other, and in watch mode the next pass runs. The model
follows the code. `Driver.Pass.Run` returns the error only so that its contract
can say when the walk stopped early. The `--ignore` value *replaces* the
default list; it does not extend it.

## Model

| member | source | states |
|---|---|---|
| GoStrings.TrimPrefix | sass-css.go:96 | the result is `s` with a leading `prefix` removed when `s` starts with it, otherwise `s` unchanged |
| GoStrings.TrimSuffix | sass-css.go:105 | the result is `s` with one trailing `suffix` removed when `s` ends with it, otherwise `s` unchanged |
| GoStrings.Split | sass-css.go:98 | at least one piece; no piece contains the separator; a string without the separator is its own single piece; a string with one has several pieces |
| GoStrings.JoinSplit | sass-css.go:98-100 | joining the pieces of a split with the separator gives back the string that was split |
| GoStrings.SplitJoin | sass-css.go:49 | splitting the join of a non-empty list of separator-free pieces gives back that list |
| GoStrings.JoinInjective | sass-css.go:49 | two non-empty lists of separator-free pieces with the same join are equal |
| GoStrings.SplitExtendLast | sass-css.go:98-105 | appending separator-free text to a string only extends the last piece of its split |
| GoStrings.ParentDirSpec | sass-css.go:98-101 | split, drop the last piece, rejoin: there is a directory exactly when the path contains '/', and it is the text before the last '/' (the path is `d + "/"` followed by '/'-free text) |
| GoStrings.ParentDirExtend | sass-css.go:98-105 | appending '/'-free text (such as ".css") to a path does not change its directory part |
| GoStrings.ParentDirOf | sass-css.go:98-101 | the directory part of `d + "/" + name`, for a `name` without '/', is `d` |
| GoStrings.Join | sass-css.go:100 | no contract of its own; specified by GoStrings.JoinSplit, GoStrings.SplitJoin and GoStrings.JoinInjective |
| GoStrings.ParentDir | sass-css.go:98-101 | no contract of its own; specified by GoStrings.ParentDirSpec, GoStrings.ParentDirOf and GoStrings.ParentDirExtend |
| GoStrings.BaseName | sass-css.go:86 | no contract of its own (the base name `info.Name()` of the root entry); specified by GoStrings.BaseNameSpec and GoStrings.BaseNameOf |
| GoStrings.BaseNameSpec | sass-css.go:86 | the base name has no '/'; a path without '/' is its own base name; a path with a directory part is that directory, '/', and the base name |
| GoStrings.BaseNameOf | sass-css.go:86 | the base name of `d + "/" + name`, for a `name` without '/', is `name` |
| GoStrings.LastSepUnique | sass-css.go:98-101 | at most one prefix of a string is followed by a separator and then only separator-free text |
| Config.IgnoreDirs | sass-css.go:48-50 | no `--ignore` option: the list is `["lib", "inc"]` (line 31); with a value: a non-empty list of comma-free names whose comma-join is exactly that value, replacing the default |
| Config.IgnoreDirsDetermined | sass-css.go:48-50 | the `--ignore` value determines the list: any non-empty list of comma-free names joining to the value is the list |
| Config.IgnoreDirsEdgeCases | sass-css.go:48-50 | `--ignore ""` gives `[""]`; a value with no comma gives that one name; `a,a` keeps the repeat |
| PathMap.JoinPath | sass-css.go:98 | no contract of its own: `filepath.Join` of clean components as `dir + "/" + elem`, an assumption; used through PathMap.ConvertSpec |
| PathMap.LocalPath | sass-css.go:96 | no contract of its own; PathMap.MirroredPath states that `sassDir/rel` gives `rel`, and GoStrings.TrimPrefix's contract covers the rest |
| PathMap.CssTarget | sass-css.go:98 | no contract of its own; the joined target's output and directory are stated by PathMap.ConvertSpec |
| PathMap.Convert | sass-css.go:96-105 | no contract of its own; specified by PathMap.ConvertSpec, PathMap.ConvertMkdir and PathMap.MirroredPath |
| PathMap.Conversions | sass-css.go:93-114 | no contract of its own (the units started by one pass, in start order); specified by PathMap.ConversionsAppend and Driver.PassMirrorsTree |
| PathMap.SuffixPastSlash | sass-css.go:105 | for a '/'-free suffix, `a/r` ends with it exactly when `r` does, and trimming it from `a/r` trims it from `r` |
| PathMap.ConvertSpec | sass-css.go:96-105 | the unit reads `path`; the output starts with `cssDir/` and ends in `.css`; for a path below `sassDir/` it is `cssDir/` + relative path with one trailing `.sass` removed + `.css`; any other path is kept whole; a `MkdirAll` directory is always computed and equals the directory part of the output path |
| PathMap.ConvertMkdir | sass-css.go:98-105 | the directory given to `MkdirAll` is the directory part of the final output path |
| PathMap.ConversionsAppend | sass-css.go:93-114 | the conversion units of two runs of paths are the units of the first run followed by those of the second |
| PathMap.MirroredPath | sass-css.go:96-105 | the relative path of `sassDir/rel` is `rel`, and its output is `cssDir/` + `rel` with the extension swapped |
| TreeWalk.Walk | sass-css.go:79-117 | no contract of its own (what the visitor driven by `filepath.Walk` dispatches); specified against the reference `Files` by TreeWalk.WalkDispatchesEligible and against the reference `Items` by TreeWalk.WalkStopsAtFirstFailure, and by the lemmas below; Driver.Pass.WalkEntry is proved equal to it |
| TreeWalk.WalkChildren | sass-css.go:79-117 | no contract of its own; specified by TreeWalk.WalkChildrenDispatchesEligible, TreeWalk.WalkChildrenStopsAtFirstFailure, TreeWalk.WalkChildrenStep and TreeWalk.StoppedStaysStopped; Driver.Pass.WalkChildrenOf is proved equal to it |
| TreeWalk.WalkDispatchesEligible | sass-css.go:79-117 | a walk that finishes dispatches exactly the paths of the files with no ignored directory around them, in order; one that stops has dispatched a prefix of them (TreeWalk.WalkStopsAtFirstFailure says which); a tree without failing entries always finishes |
| TreeWalk.WalkChildrenDispatchesEligible | sass-css.go:84-89 | the same for the children of a directory that is not ignored |
| TreeWalk.ScanSpec | sass-css.go:79-94 | the flat walk of a run of files and failing entries stops exactly at the first failing entry with no ignored directory around it, having dispatched exactly the files reached before it; otherwise it meets no such entry and dispatches every reached file |
| TreeWalk.ScanAppend | sass-css.go:79-82 | the flat walk of two runs is the first, followed by the second only when the first did not stop |
| TreeWalk.ScanWithin | sass-css.go:84-89 | the entries of a child are all passed over when the parent directory is ignored, and walked unchanged otherwise |
| TreeWalk.WalkIsScan | sass-css.go:79-117 | the walk of the tree equals the flat walk of its files and failing entries in walk order |
| TreeWalk.WalkChildrenIsScan | sass-css.go:79-117 | the same for the children of a directory that is not ignored |
| TreeWalk.WalkStopsAtFirstFailure | sass-css.go:79-94 | a walk that stops does so at the path of the first failing entry with no ignored directory around it, after dispatching exactly the eligible files before it; a walk that finishes met no such entry and dispatched every eligible file |
| TreeWalk.WalkChildrenStopsAtFirstFailure | sass-css.go:79-94 | the same for the children of a directory that is not ignored |
| TreeWalk.EligibleInsideAll | sass-css.go:84-89 | below an ignored directory no file is eligible |
| TreeWalk.DispatchedOnlyEligible | sass-css.go:84-92 | every dispatched path is the path of a file of the tree with no ignored directory around it |
| TreeWalk.IgnoreAppliesToDirectoriesOnly | sass-css.go:84-92 | in a tree without failing entries, every file with no ignored directory around it is dispatched, even one whose own name is in the list |
| TreeWalk.DistinctPaths | sass-css.go:79 | in a well-formed tree (proper base names, no name twice in a directory) no two files have the same path |
| TreeWalk.DispatchedExactlyOnce | sass-css.go:92-115 | in a well-formed tree without failing entries, the pass finishes and dispatches each file once if no directory around it is ignored, and never if one is |
| TreeWalk.IgnoredContentsNeverRead | sass-css.go:84-89 | replacing the contents of any ignored directory, at any depth, with anything (failing entries included) does not change the outcome of the walk |
| TreeWalk.EmptyOverrideSkipsNothing | sass-css.go:48-50 | with `--ignore ""` a pass over a well-formed tree without failing entries dispatches every file, those in `lib` and `inc` included |
| TreeWalk.IgnoredRootDispatchesNothing | sass-css.go:84-88 | a root directory whose own name is ignored dispatches nothing and meets no error, and none of its files is eligible |
| TreeWalk.IgnoredRootPath | sass-css.go:79-88 | an input root `d/base` whose base name is ignored dispatches nothing, whatever lies below it |
| TreeWalk.DispatchedBelowRoot | sass-css.go:79-96 | when the root is a directory, every dispatched path starts with `sassDir/`, so the prefix trim at line 96 applies |
| TreeWalk.StoppedStaysStopped | sass-css.go:79-81 | once the walk of a directory's first children has stopped at an error, no later child is visited |
| TreeWalk.WalkChildrenStep | sass-css.go:79-117 | when the walk so far has not stopped, visiting the next child appends exactly that child's walk |
| Driver.Pass.constructor | sass-css.go:48-61 | `ignoreDirs` is the list `init` builds from the `--ignore` option; the roots are the given resolved directories; no unit has been started |
| Driver.Pass.Visit | sass-css.go:79-117 | an entry with an error returns that error before the ignore check; a directory returns SkipDir exactly when its name is in `ignoreDirs`, found by the loop over the list, and nil otherwise; a non-directory returns nil after starting exactly one unit for its path; nothing else is started |
| Driver.Pass.WalkEntry | sass-css.go:79-117 | the visitor driven by the walk starts exactly the units of `Walk`, in order; it returns an error exactly when `Walk` stops, at the same path; it returns SkipDir exactly for an ignored directory |
| Driver.Pass.WalkChildrenOf | sass-css.go:79-117 | the loop over a directory's children starts exactly the units of `WalkChildren`, ends at the first error, and never passes SkipDir up |
| Driver.Pass.Run | sass-css.go:78-119 | the pass starts exactly the conversion units of the walk's dispatched paths, appended to those already started; the walk's error is reported exactly when `Walk` stops; a root directory whose base name (as the root entry's name) is in `ignoreDirs` starts nothing and gives no error |
| Driver.PassMirrorsTree | sass-css.go:96-105 | over a root directory, every unit of a pass reads a file below `sassDir/`; it writes `cssDir/` + the relative path with one trailing `.sass` removed + `.css`, and `MkdirAll` is given the directory part of that output |
| Scenarios.SampleWalk | sass-css.go:84-92 | with the default list, the tree `a.sass`, `lib/b.sass`, `sub/c.sass`, `inc` dispatches `a.sass`, `sub/c.sass` and the plain file `inc`, in that order |
| Scenarios.StopsAtUnreadable | sass-css.go:79-94 | for a root holding `a.sass`, an unreadable `bad` and `c.sass`, the unit for `a.sass` starts, the walk stops at `bad`, and `c.sass` is never reached |
| Scenarios.TopLevelConverts | sass-css.go:96-105 | a file directly below `sassDir` is written directly below `cssDir`, and `MkdirAll` is asked for `cssDir` |
| Scenarios.SubDirOutPath | sass-css.go:96-105 | `sassDir/dir/name` is written to `cssDir/dir/` + `name` with the extension swapped |
| Scenarios.SubDirMkdir | sass-css.go:98-101 | for `sassDir/dir/name`, `MkdirAll` is asked for `cssDir/dir` |
| Scenarios.OtherSuffixKept | sass-css.go:105 | a file `x.scss` keeps its name and gains `.css`: `cssDir/x.scss.css` |

## Left out

- Option parsing by go-flags, the help exit and `log.Fatal` (lines 39-46) belong to a third-party library. The `--ignore` value enters the model as an `Option<string>`.
- `os.Getwd` and the joining of the working directory with `--input` and `--output` (lines 55-61) are environment I/O. `sassDir` and `cssDir` are parameters.
- The goroutines and the `sync.WaitGroup` (lines 93-95, 118) are concurrency. Starting a unit appends its path to a sequence, in start order; the units' interleaving is not modelled.
- `os.MkdirAll` (line 101) is filesystem I/O. Only the directory string it is given is modelled, as `Dispatch.mkdir`.
- Running the `sass` compiler with `exec.Command` and discarding its error (lines 109-113) is an external process. Only its input and output paths are modelled.
- The `fmt.Println` output and the watch loop with `time.Sleep` (lines 63-75, 107) are output and timing. One pass is modelled.
- Path cleaning by `filepath.Join` is not modelled. Join is `/`-concatenation of clean components, which leaves out:
  - a root path ending in `/`;
  - names such as `..`;
  - the doubled `/` that Go's Join would remove when the input root is itself a file. In that case the relative path is the whole input path.
- `filepath.ToSlash` with a separator other than `/` is not modelled, because the separator is taken to be `/`.
- The sorting of directory entries by `filepath.Walk` is not modelled; the tree's own child order stands for it.
- Symbolic links are not followed by `filepath.Walk`, which uses `Lstat`. They appear in the model as plain files.
- Go strings are byte sequences; the model's are sequences of characters. The two agree for valid UTF-8 paths, because every separator and suffix the pass uses (`/`, `,`, `.sass`, `.css`) is ASCII. Invalid UTF-8 in file names is not modelled.
- `filepath.Base` of an empty path or one ending in `/` is not modelled, because `sassDir` is a clean absolute path. `GoStrings.BaseName` is the last `/`-piece.
- The order of `MkdirAll` (line 101) before the compiler run (line 109) within a unit is not modelled. A `Dispatch` records both paths without an order.
- Error values are not modelled: an error is represented by the path of the entry it was reported for. `convertSASSToCSS` discards the result of `filepath.Walk`; `Driver.Pass.Run` returns it so that the contract can state it.
