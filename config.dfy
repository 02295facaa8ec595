/** The package-level configuration that `init` sets up in sass-css.go:
    the list of directory names the walk skips. */
module Config {
  import opened Optional
  import opened GoStrings

  /** The ignore list in force when no `--ignore` option is given. */
  const DefaultIgnoreDirs: seq<string> := ["lib", "inc"]

  /** The value `ignoreDirs` holds once `init` has run: the default list when
      `--ignore` is absent, otherwise the comma-separated pieces of its value,
      which replace the default entirely. */
  function IgnoreDirs(ignoreOption: Option<string>): (dirs: seq<string>)
    ensures ignoreOption.None? ==> dirs == ["lib", "inc"]
    ensures ignoreOption.Some? ==>
      && |dirs| >= 1
      && (forall i :: 0 <= i < |dirs| ==> ',' !in dirs[i])
      && Join(dirs, ",") == ignoreOption.value
  {
    match ignoreOption
    case None => DefaultIgnoreDirs
    case Some(v) =>
      JoinSplit(v, ',');
      Split(v, ',')
  }

  /** The `--ignore` value determines the list: it is the one list of comma-free
      names whose comma-join is that value. */
  lemma IgnoreDirsDetermined(v: string, dirs: seq<string>)
    requires |dirs| >= 1
    requires forall i :: 0 <= i < |dirs| ==> ',' !in dirs[i]
    requires Join(dirs, ",") == v
    ensures IgnoreDirs(Some(v)) == dirs
  {
    JoinInjective(IgnoreDirs(Some(v)), dirs, ',');
  }

  /** An empty `--ignore` value yields the single empty name, and an option
      that names one directory yields exactly that directory. */
  lemma IgnoreDirsEdgeCases(name: string)
    requires ',' !in name
    ensures IgnoreDirs(Some("")) == [""]
    ensures IgnoreDirs(Some(name)) == [name]
    ensures IgnoreDirs(Some(name + "," + name)) == [name, name]
  {
    IgnoreDirsDetermined(name + "," + name, [name, name]);
  }
}
