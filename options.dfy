/** The default service name of `load_options`: the last component of the working directory.
    The separator is a parameter: `/` on POSIX systems, `\` on Windows. */
module Options {
  import opened Strings

  /** `base_path.rstrip(os.sep).rsplit(os.sep, 1)[-1]`, with `os.sep` given as `sep`. */
  function DefaultServiceName(basePath: string, sep: char): (r: string)
    ensures sep !in r
    ensures var p := RStrip(basePath, sep);
            && |r| <= |p| && p[|p| - |r|..] == r
            && (|r| < |p| ==> p[..|p| - |r|] == p[..|p| - |r| - 1] + [sep])
            && (|r| == |p| ==> sep !in p)
  {
    var p := RStrip(basePath, sep);
    var r := AfterLast(p, sep);
    assert |r| == |p| ==> p == r;
    r
  }

  /** The name is empty exactly when the path is made of separators only (`/` for POSIX), or is empty. */
  lemma DefaultServiceNameEmpty(basePath: string, sep: char)
    ensures DefaultServiceName(basePath, sep) == [] <==> forall k :: 0 <= k < |basePath| ==> basePath[k] == sep
  {
    var p := RStrip(basePath, sep);
    if p != [] {
      assert p[|p| - 1] != sep;
      assert basePath[|p| - 1] == p[|p| - 1];
    }
  }

  /** Trailing separators do not change the name: `/srv/app/` names the service `app` as `/srv/app` does. */
  lemma DefaultServiceNameTrailing(basePath: string, sep: char)
    ensures DefaultServiceName(basePath + [sep], sep) == DefaultServiceName(basePath, sep)
  {
    var s := basePath + [sep];
    assert s[..|s| - 1] == basePath;
    assert RStrip(s, sep) == RStrip(basePath, sep);
  }

  /** The name of `dir/name` is `name` whenever `name` is a plain component. */
  lemma DefaultServiceNameOfJoin(dir: string, name: string, sep: char)
    requires name != [] && sep !in name
    ensures DefaultServiceName(dir + [sep] + name, sep) == name
  {
    var p := dir + [sep] + name;
    assert p[|p| - 1] == name[|name| - 1];
    assert p[|p| - |name| - 1] == sep;
    assert p[|p| - |name|..] == name;
  }
}
