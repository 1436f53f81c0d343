/**
 The type-checker invocation of mypy/private/mypy.py: the argument vector
 handed to the checker, and the run that skips the checker and the cache
 entirely when there are no sources.

 The checker itself is a parameter, a function from argument vector to
 report, diagnostics and status.
 */
module MypyRun {
  import opened Fs
  import opened CacheMerge
  import opened CacheScope

  /* What the type checker returns. */
  datatype Outcome = Outcome(report: string, errors: string, status: int)

  /* What an argument vector asks the checker to do. */
  datatype Invocation = Invocation(config: Option<string>, cacheDir: string, srcs: seq<string>)

  const ConfigFlag := "--config-file"
  const CacheDirFlag := "--cache-dir="

  /* The fixed flags, with the cache directory in the middle. */
  function FixedFlags(cacheDir: string): (r: seq<string>)
    ensures |r| == 5
    ensures r[2] == CacheDirFlag + cacheDir
  {
    ["--skip-cache-mtime-checks", "--incremental", CacheDirFlag + cacheDir,
     "--explicit-package-bases", "--fast-module-lookup"]
  }

  /* The configuration flag and file, present only for a truthy ini path. */
  function ConfigArgs(mypyIni: Option<string>): (r: seq<string>)
    ensures |r| == if Truthy(mypyIni) then 2 else 0
    ensures Truthy(mypyIni) ==> r[0] == ConfigFlag && r[1] == mypyIni.value
  {
    if Truthy(mypyIni) then [ConfigFlag, mypyIni.value] else []
  }

  /* The argument vector run_mypy hands to the type checker. */
  function Argv(mypyIni: Option<string>, cacheDir: string, srcs: seq<string>): (r: seq<string>)
    ensures |r| == |ConfigArgs(mypyIni)| + 5 + |srcs|
    ensures r[0] == ConfigFlag <==> Truthy(mypyIni)
    ensures Truthy(mypyIni) ==> r[..2] == [ConfigFlag, mypyIni.value]
    ensures r[|ConfigArgs(mypyIni)|..|r| - |srcs|] == FixedFlags(cacheDir)
    ensures r[|r| - |srcs|..] == srcs
  {
    var r := ConfigArgs(mypyIni) + FixedFlags(cacheDir) + srcs;
    assert r[|ConfigArgs(mypyIni)|..|r| - |srcs|] == FixedFlags(cacheDir);
    r
  }

  predicate StartsWith(s: string, prefix: string)
  {
    |prefix| <= |s| && s[..|prefix|] == prefix
  }

  /* Reads back what an argument vector asks for; None if it does not have
     the shape run_mypy builds. */
  function ParseArgv(argv: seq<string>): (r: Option<Invocation>)
    ensures r.Some? ==> |argv| >= 5 + |r.value.srcs| && argv[|argv| - |r.value.srcs|..] == r.value.srcs
  {
    var config := if 2 <= |argv| && argv[0] == ConfigFlag then Some(argv[1]) else None;
    var rest := if config.Some? then argv[2..] else argv;
    if 5 <= |rest| && rest[0] == "--skip-cache-mtime-checks" && rest[1] == "--incremental"
       && StartsWith(rest[2], CacheDirFlag) && rest[3] == "--explicit-package-bases"
       && rest[4] == "--fast-module-lookup"
    then Some(Invocation(config, rest[2][|CacheDirFlag|..], rest[5..]))
    else None
  }

  /* The argument vector carries the configuration (when truthy), the cache
     directory and the sources, and nothing is lost in building it. */
  lemma ParseArgvRoundTrip(mypyIni: Option<string>, cacheDir: string, srcs: seq<string>)
    ensures ParseArgv(Argv(mypyIni, cacheDir, srcs))
         == Some(Invocation(if Truthy(mypyIni) then mypyIni else None, cacheDir, srcs))
  {
    var argv := Argv(mypyIni, cacheDir, srcs);
    var rest := FixedFlags(cacheDir) + srcs;
    assert argv == ConfigArgs(mypyIni) + rest;
    assert (CacheDirFlag + cacheDir)[..|CacheDirFlag|] == CacheDirFlag;
    assert (CacheDirFlag + cacheDir)[|CacheDirFlag|..] == cacheDir;
    if Truthy(mypyIni) {
      assert argv[2..] == rest;
    }
    assert rest[5..] == srcs;
  }

  /* Two arguments vectors built from different requests differ. */
  lemma ArgvInjective(i1: Option<string>, c1: string, s1: seq<string>,
                      i2: Option<string>, c2: string, s2: seq<string>)
    requires Argv(i1, c1, s1) == Argv(i2, c2, s2)
    ensures c1 == c2 && s1 == s2
    ensures Truthy(i1) <==> Truthy(i2)
    ensures Truthy(i1) ==> i1 == i2
  {
    ParseArgvRoundTrip(i1, c1, s1);
    ParseArgvRoundTrip(i2, c2, s2);
  }

  /* run: with sources, type-check them inside the managed cache scope; with
     none, report success without touching any cache directory. */
  method Run(cacheDir: Option<string>, ups: seq<Tree>, mypyIni: Option<string>, srcs: seq<string>,
             engine: seq<string> -> Outcome, scope: Scope, target: CacheDir?)
    returns (out: Outcome)
    requires scope.Valid()
    requires |srcs| > 0 && Truthy(cacheDir) ==> target != null && target.Valid() && target.Accepts(ups)
    modifies scope, target
    ensures scope.Valid()
    ensures srcs == [] ==> out == Outcome("", "", 0) && unchanged(scope) && (target != null ==> unchanged(target))
    ensures srcs != [] ==>
      && scope.live == old(scope.live)
      && out == engine(Argv(mypyIni, if Truthy(cacheDir) then cacheDir.value else TempPath(old(scope.next)), srcs))
    ensures srcs != [] && Truthy(cacheDir) ==>
      && target.files == Merged(old(target.files), ups)
      && target.dirs == MergedDirs(old(target.dirs), ups)
      && scope.next == old(scope.next) && scope.issued == old(scope.issued)
    ensures srcs != [] && !Truthy(cacheDir) ==>
      && scope.next == old(scope.next) + 1
      && old(scope.next) !in old(scope.issued)
      && (target != null ==> unchanged(target))
  {
    if |srcs| > 0 {
      var lease := scope.Acquire(cacheDir, target, ups);
      out := engine(Argv(mypyIni, lease.Path(), srcs));
      scope.Release(lease);
    } else {
      out := Outcome("", "", 0);
    }
  }
}
