/** An optional value: `sass-css` uses it for an option that may be absent
    and for a directory that `MkdirAll` may not be asked to create. */
module Optional {
  datatype Option<+T> = None | Some(value: T)
}

/** The few functions of Go's `strings` package that the conversion pass uses,
    on strings seen as sequences of characters. */
module GoStrings {
  import opened Optional

  predicate HasPrefix(s: string, prefix: string) {
    |prefix| <= |s| && s[..|prefix|] == prefix
  }

  predicate HasSuffix(s: string, suffix: string) {
    |suffix| <= |s| && s[|s| - |suffix|..] == suffix
  }

  /** strings.TrimPrefix: `s` without a leading `prefix`, or `s` itself when it does not start with one. */
  function TrimPrefix(s: string, prefix: string): (r: string)
    ensures HasPrefix(s, prefix) ==> prefix + r == s
    ensures !HasPrefix(s, prefix) ==> r == s
  {
    if HasPrefix(s, prefix) then s[|prefix|..] else s
  }

  /** strings.TrimSuffix: `s` without one trailing `suffix`, or `s` itself when it does not end with one. */
  function TrimSuffix(s: string, suffix: string): (r: string)
    ensures HasSuffix(s, suffix) ==> r + suffix == s
    ensures !HasSuffix(s, suffix) ==> r == s
  {
    if HasSuffix(s, suffix) then s[..|s| - |suffix|] else s
  }

  /** strings.Split with a one-character separator: the pieces of `s` between
      the occurrences of `sep`; never empty, and `[s]` when `sep` does not occur. */
  function Split(s: string, sep: char): (parts: seq<string>)
    ensures |parts| >= 1
    ensures forall i :: 0 <= i < |parts| ==> sep !in parts[i]
    ensures sep !in s ==> parts == [s]
    ensures sep in s ==> |parts| > 1
    decreases |s|
  {
    if |s| == 0 then [""]
    else
      var rest := Split(s[1..], sep);
      if s[0] == sep then [""] + rest
      else
        assert s == [s[0]] + s[1..];
        [[s[0]] + rest[0]] + rest[1..]
  }

  /** strings.Join: the parts with `sep` between consecutive ones. */
  function Join(parts: seq<string>, sep: string): string
  {
    if |parts| == 0 then ""
    else if |parts| == 1 then parts[0]
    else parts[0] + sep + Join(parts[1..], sep)
  }

  /** Joining the pieces of a split gives back the string that was split. */
  lemma {:induction false} JoinSplit(s: string, sep: char)
    ensures Join(Split(s, sep), [sep]) == s
    decreases |s|
  {
    if |s| > 0 {
      var c, w := s[0], s[1..];
      assert s == [c] + w;
      var r := Split(w, sep);
      JoinSplit(w, sep);
      SplitCons(c, w, sep);
      if c == sep {
        assert ([""] + r)[1..] == r;
      } else if |r| > 1 {
        var parts := [[c] + r[0]] + r[1..];
        assert parts[1..] == r[1..];
        assert Join(r, [sep]) == r[0] + [sep] + Join(r[1..], [sep]);
      }
    }
  }

  /** A string without the separator splits into itself alone. */
  lemma SplitNoSep(x: string, sep: char)
    requires sep !in x
    ensures Split(x, sep) == [x]
  {
  }

  /** Splitting at the first separator. */
  lemma {:induction false} SplitAtFirst(x: string, sep: char, y: string)
    requires sep !in x
    ensures Split(x + [sep] + y, sep) == [x] + Split(y, sep)
    decreases |x|
  {
    var s := x + [sep] + y;
    if |x| == 0 {
      assert s[0] == sep && s[1..] == y;
    } else {
      assert s[0] == x[0] && s[1..] == x[1..] + [sep] + y;
      SplitAtFirst(x[1..], sep, y);
      var rest := Split(s[1..], sep);
      assert rest == [x[1..]] + Split(y, sep);
      assert [x[0]] + x[1..] == x;
    }
  }

  /** Splitting the join of separator-free parts gives back the parts: together
      with JoinSplit, Split and Join are inverse bijections. */
  lemma {:induction false} SplitJoin(parts: seq<string>, sep: char)
    requires |parts| >= 1
    requires forall i :: 0 <= i < |parts| ==> sep !in parts[i]
    ensures Split(Join(parts, [sep]), sep) == parts
    decreases |parts|
  {
    if |parts| == 1 {
      SplitNoSep(parts[0], sep);
    } else {
      SplitJoin(parts[1..], sep);
      SplitAtFirst(parts[0], sep, Join(parts[1..], [sep]));
      assert [parts[0]] + parts[1..] == parts;
    }
  }

  /** Join is one-to-one on lists of separator-free parts. */
  lemma JoinInjective(p: seq<string>, q: seq<string>, sep: char)
    requires |p| >= 1 && |q| >= 1
    requires forall i :: 0 <= i < |p| ==> sep !in p[i]
    requires forall i :: 0 <= i < |q| ==> sep !in q[i]
    requires Join(p, [sep]) == Join(q, [sep])
    ensures p == q
  {
    SplitJoin(p, sep);
    SplitJoin(q, sep);
  }

  /** The last part of a join is the text after the last separator. */
  lemma {:induction false} JoinLast(parts: seq<string>, sep: string)
    requires |parts| >= 2
    ensures Join(parts, sep) == Join(parts[..|parts| - 1], sep) + sep + parts[|parts| - 1]
    decreases |parts|
  {
    if |parts| > 2 {
      JoinLast(parts[1..], sep);
      assert parts[1..][..|parts| - 2] == parts[..|parts| - 1][1..];
    }
  }

  /** `parts` with `t` appended to its last piece. */
  function ExtendLast(parts: seq<string>, t: string): seq<string>
    requires |parts| >= 1
  {
    parts[..|parts| - 1] + [parts[|parts| - 1] + t]
  }

  /** Splitting one character in front of `w`: a separator opens a new first
      piece, any other character joins the first piece. */
  lemma SplitCons(c: char, w: string, sep: char)
    ensures var r := Split(w, sep);
      Split([c] + w, sep) == if c == sep then [""] + r else [[c] + r[0]] + r[1..]
  {
  }

  /** Appending text without a separator only extends the last piece. */
  lemma {:induction false} SplitExtendLast(s: string, sep: char, t: string)
    requires sep !in t
    ensures Split(s + t, sep) == ExtendLast(Split(s, sep), t)
    decreases |s|
  {
    if |s| == 0 {
      assert s + t == t;
      SplitNoSep(t, sep);
    } else {
      var c, w := s[0], s[1..];
      assert s == [c] + w && s + t == [c] + (w + t);
      var r := Split(w, sep);
      SplitExtendLast(w, sep, t);
      SplitCons(c, w, sep);
      SplitCons(c, w + t, sep);
      if c == sep {
        assert ExtendLast([""] + r, t) == [""] + ExtendLast(r, t);
      } else {
        ExtendLastHead(c, r, t);
      }
    }
  }

  /** ExtendLast commutes with prefixing the first piece by a character. */
  lemma ExtendLastHead(c: char, r: seq<string>, t: string)
    requires |r| >= 1
    ensures var e := ExtendLast(r, t);
      ExtendLast([[c] + r[0]] + r[1..], t) == [[c] + e[0]] + e[1..]
  {
    var e := ExtendLast(r, t);
    if |r| == 1 {
      assert [c] + r[0] + t == [c] + (r[0] + t);
    } else {
      assert e[0] == r[0] && e[1..] == r[1..|r| - 1] + [r[|r| - 1] + t];
      assert ([[c] + r[0]] + r[1..])[..|r| - 1] == [[c] + r[0]] + r[1..|r| - 1];
    }
  }

  /** The directory part of a slash-separated path as sass-css.go computes it
      before MkdirAll: split at '/', drop the last piece, join the rest with '/';
      None when the path has a single piece. ParentDirSpec states what it is. */
  function ParentDir(p: string): Option<string> {
    var parts := Split(p, '/');
    if |parts| > 1 then Some(Join(parts[..|parts| - 1], "/")) else None
  }

  /** There is a directory part exactly when the path contains a '/', and it is
      everything before the last '/'. */
  lemma ParentDirSpec(p: string)
    ensures ParentDir(p).Some? <==> '/' in p
    ensures ParentDir(p).Some? ==>
      var d := ParentDir(p).value;
      HasPrefix(p, d + "/") && '/' !in p[|d| + 1..]
  {
    var parts := Split(p, '/');
    if |parts| > 1 {
      var d := Join(parts[..|parts| - 1], "/");
      JoinSplit(p, '/');
      JoinLast(parts, "/");
      assert p == d + "/" + parts[|parts| - 1];
      assert p[|d| + 1..] == parts[|parts| - 1];
    }
  }

  /** filepath.Base of a clean path without a trailing '/': its last piece. */
  function BaseName(p: string): string {
    var parts := Split(p, '/');
    parts[|parts| - 1]
  }

  /** The base name has no '/'; a path without '/' is its own base name; and a
      path with a directory part is that directory, '/', and the base name. */
  lemma BaseNameSpec(p: string)
    ensures '/' !in BaseName(p)
    ensures '/' !in p ==> BaseName(p) == p
    ensures ParentDir(p).Some? ==> p == ParentDir(p).value + "/" + BaseName(p)
  {
    var parts := Split(p, '/');
    if |parts| > 1 {
      JoinSplit(p, '/');
      JoinLast(parts, "/");
    }
  }

  /** The base name of `d + "/" + name` is `name` when `name` has no '/'. */
  lemma BaseNameOf(d: string, name: string)
    requires '/' !in name
    ensures BaseName(d + "/" + name) == name
  {
    var p := d + "/" + name;
    ParentDirOf(d, name);
    BaseNameSpec(p);
    assert p[|d| + 1..] == name;
    assert (d + "/" + BaseName(p))[|d| + 1..] == BaseName(p);
  }

  /** Everything before the last separator is determined by the string: two
      prefixes each followed by a separator and then only separator-free text
      are the same prefix. */
  lemma LastSepUnique(p: string, a: string, b: string, sep: char)
    requires HasPrefix(p, a + [sep]) && sep !in p[|a| + 1..]
    requires HasPrefix(p, b + [sep]) && sep !in p[|b| + 1..]
    ensures a == b
  {
    assert p[|a|] == sep by { assert (a + [sep])[|a|] == sep; }
    assert p[|b|] == sep by { assert (b + [sep])[|b|] == sep; }
    assert a == p[..|a|] && b == p[..|b|];
  }

  /** Text without a '/' appended to a path does not change its directory part. */
  lemma ParentDirExtend(s: string, t: string)
    requires '/' !in t
    ensures ParentDir(s + t) == ParentDir(s)
  {
    SplitExtendLast(s, '/', t);
    var p := Split(s, '/');
    assert Split(s + t, '/') == ExtendLast(p, t);
    var q := Split(s + t, '/');
    assert |q| == |p|;
    if |p| > 1 {
      assert q[..|q| - 1] == p[..|p| - 1];
    }
  }

  /** The directory part of `d + "/" + name` is `d` when `name` has no '/'. */
  lemma ParentDirOf(d: string, name: string)
    requires '/' !in name
    ensures ParentDir(d + "/" + name) == Some(d)
  {
    var p := d + "/" + name;
    assert '/' in p by { assert p[|d|] == '/'; }
    ParentDirSpec(p);
    var v := ParentDir(p).value;
    assert p[..|d| + 1] == d + "/" && p[|d| + 1..] == name;
    LastSepUnique(p, v, d, '/');
  }
}
