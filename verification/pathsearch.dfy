/**
 * The POSIX branch of `find_executable` in execute.c: resolve a program name
 * to `dir/name` for the first directory of the search path that holds a
 * usable executable, skipping symlinks to the program called `exclude`.
 *
 * The environment is a map from variable names to values, and the file
 * system is a record of the four queries the code makes.
 */
module PathSearch {
  import opened Nullable
  import opened CString

  /** The directory-list separator of the search path. */
  const ListSep: char := ':'
  /** `PATH_SEP` between a directory and a file name. */
  const PathSep: char := '/'

  // ---------------------------------------------------------------------
  // Splitting the search path
  // ---------------------------------------------------------------------

  /** The fields between consecutive ':' of `p`, empty ones included. */
  function Fields(p: string): (r: seq<string>)
    ensures |r| >= 1
    decreases |p|
  {
    if p == [] then [[]]
    else if p[0] == ListSep then [[]] + Fields(p[1..])
    else var f := Fields(p[1..]); [[p[0]] + f[0]] + f[1..]
  }

  /** Fields glued back together with ':' between them. */
  function JoinFields(fs: seq<string>): string
    requires |fs| >= 1
    decreases |fs|
  {
    if |fs| == 1 then fs[0] else fs[0] + [ListSep] + JoinFields(fs[1..])
  }

  /** Splitting at every ':' loses nothing: joining the fields gives the path back. */
  lemma {:induction false} FieldsRoundTrip(p: string)
    ensures JoinFields(Fields(p)) == p
    decreases |p|
  {
    if p != [] {
      FieldsRoundTrip(p[1..]);
      var f := Fields(p[1..]);
      if p[0] == ListSep {
        assert ([[]] + f)[1..] == f;
      } else if |f| == 1 {
        assert p == [p[0]] + p[1..];
      } else {
        var g := [[p[0]] + f[0]] + f[1..];
        assert g[1..] == f[1..];
        assert JoinFields(f) == f[0] + [ListSep] + JoinFields(f[1..]);
        assert p == [p[0]] + p[1..];
      }
    }
  }

  /** No field holds the separator. */
  lemma {:induction false} FieldsHaveNoSeparator(p: string)
    ensures forall i :: 0 <= i < |Fields(p)| ==> ListSep !in Fields(p)[i]
    decreases |p|
  {
    if p != [] {
      FieldsHaveNoSeparator(p[1..]);
      var f := Fields(p[1..]);
      if p[0] != ListSep {
        assert ListSep !in [p[0]] + f[0] by {
          assert ListSep !in f[0];
        }
      }
    }
  }

  /** The fields that are not empty, in order. */
  function NonEmpty(fs: seq<string>): seq<string>
    decreases |fs|
  {
    if fs == [] then [] else (if fs[0] == [] then [] else [fs[0]]) + NonEmpty(fs[1..])
  }

  /** Length of the run of non-separator characters that starts `p`. */
  function SpanLen(p: string): (n: nat)
    ensures n <= |p| && ListSep !in p[..n] && (n < |p| ==> p[n] == ListSep)
    decreases |p|
  {
    if p == [] || p[0] == ListSep then 0 else 1 + SpanLen(p[1..])
  }

  /**
   * The tokens the `strtok(path, ":")` loop visits: separators in front of a
   * token are skipped, a token runs up to the next separator.
   */
  function Strtok(p: string): (r: seq<string>)
    decreases |p|
  {
    if p == [] then []
    else if p[0] == ListSep then Strtok(p[1..])
    else var n := SpanLen(p); [p[..n]] + Strtok(p[n..])
  }

  /** A path that starts with a token: its first field is that token. */
  lemma {:induction false} FieldsOfSpan(p: string)
    requires p != [] && p[0] != ListSep
    ensures SpanLen(p) == |p| ==> Fields(p) == [p]
    ensures SpanLen(p) < |p| ==> Fields(p) == [p[..SpanLen(p)]] + Fields(p[SpanLen(p) + 1..])
    decreases |p|
  {
    var q := p[1..];
    assert Fields(p) == [[p[0]] + Fields(q)[0]] + Fields(q)[1..];
    if q == [] {
      assert Fields(q) == [[]];
      assert SpanLen(q) == 0 && SpanLen(p) == 1;
      assert p == [p[0]] && [p[0]] + [] == [p[0]];
      assert Fields(p) == [p];
    } else if q[0] == ListSep {
      assert SpanLen(q) == 0 && SpanLen(p) == 1;
      var f := Fields(q);
      assert f == [[]] + Fields(q[1..]);
      assert f[0] == [] && f[1..] == Fields(q[1..]);
      assert [p[0]] + f[0] == [p[0]];
      assert p[..1] == [p[0]];
      assert q[1..] == p[2..];
    } else {
      FieldsOfSpan(q);
      assert SpanLen(p) == 1 + SpanLen(q);
      if SpanLen(q) == |q| {
        assert p == [p[0]] + q;
      } else {
        assert p[..SpanLen(p)] == [p[0]] + q[..SpanLen(q)];
        assert q[SpanLen(q) + 1..] == p[SpanLen(p) + 1..];
      }
    }
  }

  /**
   * strtok's tokens are the fields between ':' with the empty ones (leading,
   * trailing or between adjacent separators) left out, in their order.
   */
  lemma {:induction false} StrtokSkipsEmptyFields(p: string)
    ensures Strtok(p) == NonEmpty(Fields(p))
    decreases |p|
  {
    if p == [] {
      assert NonEmpty([[]]) == [];
    } else if p[0] == ListSep {
      StrtokSkipsEmptyFields(p[1..]);
      var fs := [[]] + Fields(p[1..]);
      assert Fields(p) == fs;
      assert fs[1..] == Fields(p[1..]);
      assert NonEmpty(fs) == NonEmpty(Fields(p[1..]));
      assert Strtok(p) == Strtok(p[1..]);
    } else {
      var n := SpanLen(p);
      FieldsOfSpan(p);
      assert n >= 1;
      assert Strtok(p) == [p[..n]] + Strtok(p[n..]);
      if n == |p| {
        assert p[..n] == p;
        assert p[n..] == [];
        assert Fields(p) == [p];
        assert NonEmpty([p]) == [p] + NonEmpty([]);
      } else {
        StrtokSkipsEmptyFields(p[n + 1..]);
        assert p[n..][0] == ListSep && p[n..][1..] == p[n + 1..];
        assert Strtok(p[n..]) == Strtok(p[n + 1..]);
        var fs := [p[..n]] + Fields(p[n + 1..]);
        assert Fields(p) == fs;
        assert fs[1..] == Fields(p[n + 1..]);
        assert fs[0] != [];
        assert NonEmpty(fs) == [p[..n]] + NonEmpty(Fields(p[n + 1..]));
      }
    }
  }

  /** Every token is a non-empty directory name without ':'. */
  lemma {:induction false} StrtokTokens(p: string)
    ensures forall i :: 0 <= i < |Strtok(p)| ==> Strtok(p)[i] != [] && ListSep !in Strtok(p)[i]
    decreases |p|
  {
    if p != [] {
      if p[0] == ListSep {
        StrtokTokens(p[1..]);
      } else {
        StrtokTokens(p[SpanLen(p)..]);
      }
    }
  }

  // ---------------------------------------------------------------------
  // The environment and the file system
  // ---------------------------------------------------------------------

  /** `getenv("CCACHE_PATH")`, falling back to `getenv("PATH")`. */
  function SearchPath(env: map<string, string>): Option<string> {
    if "CCACHE_PATH" in env then Some(env["CCACHE_PATH"])
    else if "PATH" in env then Some(env["PATH"])
    else None
  }

  /** The kind of file `lstat` or `stat` reports in `st_mode`. */
  datatype FileKind = Regular | Directory | Symlink | OtherKind

  /**
   * The file-system queries `find_executable` makes: `access(f, X_OK) == 0`,
   * `lstat` and `stat` (None when the call fails) and `x_realpath`.
   */
  datatype FileSystem = FileSystem(
    executable: string -> bool,
    lstat: string -> Option<FileKind>,
    stat: string -> Option<FileKind>,
    realpath: string -> Option<string>)

  /** `dir PATH_SEP name`. */
  function Candidate(dir: string, name: string): string {
    dir + [PathSep] + name
  }

  /**
   * The candidate is accepted: executable, both `lstat` and `stat` succeed,
   * the target is a regular file, and it is not a symlink whose canonical
   * path ends in `exclude`. A symlink whose realpath fails is accepted.
   */
  predicate Accepted(fs: FileSystem, fname: string, exclude: string) {
    && fs.executable(fname)
    && fs.lstat(fname).Some?
    && fs.stat(fname).Some?
    && fs.stat(fname).value == Regular
    && !(fs.lstat(fname).value == Symlink
         && fs.realpath(fname).Some?
         && Basename(fs.realpath(fname).value) == exclude)
  }

  /**
   * The search loop over the tokens: the candidate of the first accepted
   * directory, or None when no directory passes.
   */
  function FirstMatch(dirs: seq<string>, name: string, exclude: string, fs: FileSystem): (r: Option<string>)
    ensures r.None? <==> forall i :: 0 <= i < |dirs| ==> !Accepted(fs, Candidate(dirs[i], name), exclude)
    ensures r.Some? ==> exists i :: 0 <= i < |dirs| && r.value == Candidate(dirs[i], name)
                          && Accepted(fs, r.value, exclude)
                          && forall j :: 0 <= j < i ==> !Accepted(fs, Candidate(dirs[j], name), exclude)
    decreases |dirs|
  {
    if dirs == [] then None
    else if Accepted(fs, Candidate(dirs[0], name), exclude) then Some(Candidate(dirs[0], name))
    else
      var r := FirstMatch(dirs[1..], name, exclude, fs);
      assert forall i :: 1 <= i < |dirs| ==> dirs[i] == dirs[1..][i - 1];
      assert r.Some? ==> exists i :: 1 <= i < |dirs| && r.value == Candidate(dirs[i], name)
                          && Accepted(fs, r.value, exclude)
                          && forall j :: 0 <= j < i ==> !Accepted(fs, Candidate(dirs[j], name), exclude);
      r
  }

  /** `*name == '/'`. */
  predicate IsAbsolute(name: string) {
    |name| > 0 && name[0] == PathSep
  }

  /** find_executable (POSIX branch). */
  function FindExecutable(name: string, exclude: string, env: map<string, string>, fs: FileSystem): (r: Option<string>)
    ensures IsAbsolute(name) ==> r == Some(name)
    ensures !IsAbsolute(name) && "CCACHE_PATH" !in env && "PATH" !in env ==> r.None?
  {
    if IsAbsolute(name) then Some(name)
    else match SearchPath(env)
      case None => None
      case Some(path) => FirstMatch(Strtok(path), name, exclude, fs)
  }

  /**
   * For a relative name and a search path `p` (CCACHE_PATH when set, PATH
   * otherwise), the result is `dir/name` for the first non-empty field `dir`
   * of `p` whose candidate is accepted, and None when there is none.
   */
  lemma FindExecutableSearches(name: string, exclude: string, env: map<string, string>, fs: FileSystem, p: string)
    requires !IsAbsolute(name)
    requires "CCACHE_PATH" in env || "PATH" in env
    requires p == if "CCACHE_PATH" in env then env["CCACHE_PATH"] else env["PATH"]
    ensures var dirs := NonEmpty(Fields(p));
            var r := FindExecutable(name, exclude, env, fs);
            && (r.None? <==> forall i :: 0 <= i < |dirs| ==> !Accepted(fs, Candidate(dirs[i], name), exclude))
            && (r.Some? ==> exists i :: 0 <= i < |dirs| && r.value == Candidate(dirs[i], name)
                              && Accepted(fs, r.value, exclude)
                              && forall j :: 0 <= j < i ==> !Accepted(fs, Candidate(dirs[j], name), exclude))
  {
    StrtokSkipsEmptyFields(p);
  }

  /** When CCACHE_PATH is set, the value of PATH does not matter. */
  lemma CcachePathPreferred(name: string, exclude: string, env: map<string, string>, fs: FileSystem, other: string)
    requires "CCACHE_PATH" in env
    ensures FindExecutable(name, exclude, env["PATH" := other], fs) == FindExecutable(name, exclude, env, fs)
  {
  }

  lemma TokensOfTwoDirs()
    ensures Strtok("a:b") == ["a", "b"]
  {
    var p := "a:b";
    assert SpanLen(p) == 1 && p[..1] == "a";
    assert p[1..] == ":b" && p[1..][1..] == "b";
    assert SpanLen("b") == 1 && "b"[..1] == "b" && "b"[1..] == [];
    assert Strtok("b") == ["b"];
    assert Strtok(":b") == ["b"];
  }

  lemma BasenameOfCc()
    ensures Basename("/usr/bin/cc") == "cc"
  {
    assert Basename("/usr/bin/") == "";
    assert Basename("/usr/bin/c") == "c";
  }

  /**
   * Self-exclusion: with the search path `a:b`, where `a/cc` is a symlink
   * resolving to a program called `cc` and `b/cc` is a regular executable,
   * looking up `cc` while excluding `cc` yields `b/cc`.
   */
  lemma SelfExclusion(fs: FileSystem, env: map<string, string>)
    requires env == map["PATH" := "a:b"]
    requires fs.executable("a/cc") && fs.lstat("a/cc") == Some(Symlink) && fs.stat("a/cc") == Some(Regular)
    requires fs.realpath("a/cc") == Some("/usr/bin/cc")
    requires fs.executable("b/cc") && fs.lstat("b/cc") == Some(Regular) && fs.stat("b/cc") == Some(Regular)
    ensures FindExecutable("cc", "cc", env, fs) == Some("b/cc")
  {
    TokensOfTwoDirs();
    BasenameOfCc();
    var dirs := ["a", "b"];
    assert Candidate("a", "cc") == "a/cc" && Candidate("b", "cc") == "b/cc";
    assert "CCACHE_PATH" !in env && SearchPath(env) == Some("a:b");
    assert !Accepted(fs, "a/cc", "cc") && Accepted(fs, "b/cc", "cc");
    assert dirs[1..] == ["b"];
    assert FirstMatch(dirs[1..], "cc", "cc", fs) == Some("b/cc");
    assert FirstMatch(dirs, "cc", "cc", fs) == Some("b/cc");
  }

  /**
   * A symlink to a regular executable whose realpath fails, in the first
   * directory, is accepted: the exclusion test only applies when realpath
   * yields a path.
   */
  lemma UnresolvableSymlinkAccepted(name: string, exclude: string, env: map<string, string>, fs: FileSystem, dir: string)
    requires !IsAbsolute(name) && "CCACHE_PATH" in env
    requires |Strtok(env["CCACHE_PATH"])| > 0 && Strtok(env["CCACHE_PATH"])[0] == dir
    requires fs.executable(Candidate(dir, name)) && fs.lstat(Candidate(dir, name)) == Some(Symlink)
    requires fs.stat(Candidate(dir, name)) == Some(Regular) && fs.realpath(Candidate(dir, name)).None?
    ensures FindExecutable(name, exclude, env, fs) == Some(Candidate(dir, name))
  {
    assert Accepted(fs, Candidate(dir, name), exclude);
    assert SearchPath(env) == Some(env["CCACHE_PATH"]);
  }

  /**
   * A dangling symlink (it has no target, so `stat` fails) in the first
   * directory is skipped: the search goes on with the remaining directories.
   */
  lemma DanglingSymlinkSkipped(name: string, exclude: string, env: map<string, string>, fs: FileSystem, dir: string)
    requires !IsAbsolute(name) && "CCACHE_PATH" in env
    requires |Strtok(env["CCACHE_PATH"])| > 0 && Strtok(env["CCACHE_PATH"])[0] == dir
    requires fs.lstat(Candidate(dir, name)) == Some(Symlink) && fs.stat(Candidate(dir, name)).None?
    ensures FindExecutable(name, exclude, env, fs)
            == FirstMatch(Strtok(env["CCACHE_PATH"])[1..], name, exclude, fs)
  {
    assert !Accepted(fs, Candidate(dir, name), exclude);
    assert SearchPath(env) == Some(env["CCACHE_PATH"]);
  }
}
