/** The environment under which the LaTeX compiler runs: a copy of the
    process environment whose `TEXINPUTS` search path also covers the
    directory the user was working in. */
module TexInputs {
  import opened PyStr

  const Key := "TEXINPUTS"

  /** The directories a `TEXINPUTS` value lists, in search order; an empty
      entry stands for the compiler's default search path. */
  function SearchPath(value: string, pathsep: char): seq<string>
  {
    Split(value, [pathsep])
  }

  /** `env = os.environ.copy()` followed by the `TEXINPUTS` update:
      `current_dir` is put in front of an existing search path; without one,
      the search path becomes `.`, `current_dir` and two empty trailing
      entries (the value ends in a doubled separator; an empty entry stands
      for the default path). No other variable changes. */
  method LatexEnvironment(environ: map<string, string>, currentDir: string, pathsep: char)
    returns (env: map<string, string>)
    ensures env.Keys == environ.Keys + {Key}
    ensures forall k :: k in environ && k != Key ==> env[k] == environ[k]
    ensures Key in environ ==> env[Key] == currentDir + [pathsep] + environ[Key]
    ensures Key !in environ ==> env[Key] == "." + [pathsep] + currentDir + [pathsep, pathsep]
    ensures pathsep != '.' && pathsep !in currentDir ==>
      SearchPath(env[Key], pathsep) ==
        if Key in environ then [currentDir] + SearchPath(environ[Key], pathsep)
        else [".", currentDir, "", ""]
  {
    env := environ;
    if Key in env {
      env := env[Key := currentDir + [pathsep] + env[Key]];
    } else {
      env := env[Key := "." + [pathsep] + currentDir + [pathsep, pathsep]];
    }
    if pathsep != '.' && pathsep !in currentDir {
      if Key in environ {
        SplitAtFirst(currentDir, pathsep, environ[Key]);
      } else {
        SearchPathWithoutTexInputs(currentDir, pathsep);
        assert "." + [pathsep] + currentDir + [pathsep, pathsep] == "." + [pathsep] + (currentDir + [pathsep, pathsep]);
      }
    }
  }

  /** Without an existing `TEXINPUTS`, the compiler searches `.`, then the
      user's directory, then (through the empty entries) its defaults. */
  lemma SearchPathWithoutTexInputs(currentDir: string, pathsep: char)
    requires pathsep != '.' && pathsep !in currentDir
    ensures SearchPath("." + [pathsep] + (currentDir + [pathsep, pathsep]), pathsep) == [".", currentDir, "", ""]
  {
    var c := pathsep;
    DirThenDefaults(currentDir, c);
    SplitAtFirst(".", c, currentDir + [c, c]);
    ConsThree(".", Split(currentDir + [c, c], [c]));
  }

  lemma ConsThree(a: string, xs: seq<string>)
    requires |xs| == 3
    ensures [a] + xs == [a, xs[0], xs[1], xs[2]]
  {
  }

  /** `dir` followed by two separators splits into `dir` and two empty entries. */
  lemma DirThenDefaults(dir: string, c: char)
    requires c !in dir
    ensures Split(dir + [c, c], [c]) == [dir, "", ""]
  {
    TwoEmptyEntries(c);
    assert dir + [c, c] == dir + [c] + [c];
    SplitAtFirst(dir, c, [c]);
  }

  /** A lone separator splits into two empty entries. */
  lemma TwoEmptyEntries(c: char)
    ensures Split([c], [c]) == ["", ""]
  {
    FindCharAbsent("", c);
    SplitAtFirst("", c, "");
    assert "" + [c] + "" == [c];
  }
}
