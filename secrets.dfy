/**
 * The data the `/` and `/json` pages show (`generateData` and
 * `readVarFromFile`): a map with the process environment under "envs" and,
 * when `SECRETS_DIRS` names directories, the secret files found in them under
 * "file", each keyed by its upper-cased base name.
 *
 * The filesystem and the environment are inputs: `walks[i]` is the sequence
 * of paths `filepath.Walk` visits under the i-th directory, each paired with
 * what `os.Stat` and `ioutil.ReadFile` would report for it, and `environ` is
 * what `os.Environ` returns.
 */
module Secrets {
  import opened GoLib

  /** What stat-ing and reading a path gives: a stat error, a directory, or
      anything else `os.Stat` succeeds on (a regular file, but also a FIFO,
      a device or a symlink to a file, since only `IsDir` is tested), whose
      read either failed (`None`) or produced its contents. */
  datatype PathInfo = StatFailed | Directory | NonDirectory(data: Option<string>)

  datatype WalkEntry = WalkEntry(path: string, info: PathInfo)

  /** The {"key", "val"} map `readVarFromFile` returns. */
  datatype Pair = Pair(key: string, val: string)

  /** `readVarFromFile`: nothing for a path that cannot be stat-ed, that is a
      directory or that cannot be read; otherwise the upper-cased base name
      and the file's full contents. */
  function ReadVarFromFile(e: WalkEntry): (pair: Option<Pair>)
    ensures pair.Some? <==> e.info.NonDirectory? && e.info.data.Some?
    ensures pair.Some? ==> pair.value == Pair(ToUpper(Base(e.path)), e.info.data.value)
  {
    match e.info
    case StatFailed => None
    case Directory => None
    case NonDirectory(data) =>
      match data
      case None => None
      case Some(contents) => Some(Pair(ToUpper(Base(e.path)), contents))
  }

  /** Every key is a non-empty name with no lower-case ASCII letter and no
      '/', except the key "/" of a path made of slashes. */
  lemma ReadVarKeyShape(e: WalkEntry)
    requires ReadVarFromFile(e).Some?
    ensures var key := ReadVarFromFile(e).value.key;
      && key != ""
      && (key != "/" ==> '/' !in key)
      && (forall i :: 0 <= i < |key| ==> !IsLowerAscii(key[i]))
  {
    var name := Base(e.path);
    BaseShape(e.path);
    ToUpperProperties(name);
    assert forall i :: 0 <= i < |name| ==> (ToUpper(name)[i] == '/' <==> name[i] == '/');
    assert name == "/" ==> ToUpper(name) == "/";
  }

  /** A readable file "dir/name" is keyed by its upper-cased name, whatever
      the directory it was found in. */
  lemma ReadVarOfNamedFile(dir: string, name: string, contents: string)
    requires name != "" && '/' !in name
    ensures ReadVarFromFile(WalkEntry(dir + "/" + name, NonDirectory(Some(contents))))
         == Some(Pair(ToUpper(name), contents))
  {
    BaseOfJoinedPath(dir, name);
  }

  /** The paths visited in all walks, walk after walk. */
  function Flatten(walks: seq<seq<WalkEntry>>): seq<WalkEntry>
  {
    if |walks| == 0 then [] else Flatten(walks[..|walks| - 1]) + walks[|walks| - 1]
  }

  /** What `readVarFromFile` gives for each visited path. */
  function Reads(files: seq<WalkEntry>): (rs: seq<Option<Pair>>)
    ensures |rs| == |files|
  {
    seq(|files|, i requires 0 <= i < |files| => ReadVarFromFile(files[i]))
  }

  /** The pairs among `opts`, in order. */
  function Present(opts: seq<Option<Pair>>): seq<Pair>
  {
    if |opts| == 0 then []
    else
      var n := |opts| - 1;
      Present(opts[..n]) + (match opts[n] case Some(p) => [p] case None => [])
  }

  /** The pairs the visited paths yield, in visiting order. */
  function FilePairs(files: seq<WalkEntry>): seq<Pair>
  {
    Present(Reads(files))
  }

  /** The map built by storing the pairs one after the other. */
  function MapOf(pairs: seq<Pair>): map<string, string>
  {
    if |pairs| == 0 then map[]
    else
      var n := |pairs| - 1;
      MapOf(pairs[..n])[pairs[n].key := pairs[n].val]
  }

  lemma MapOfSnoc(pairs: seq<Pair>, p: Pair)
    ensures MapOf(pairs + [p]) == MapOf(pairs)[p.key := p.val]
  {
    assert (pairs + [p])[..|pairs|] == pairs;
  }

  lemma FilePairsSnoc(files: seq<WalkEntry>, i: nat)
    requires i < |files|
    ensures FilePairs(files[..i + 1])
         == FilePairs(files[..i]) + (match ReadVarFromFile(files[i]) case Some(p) => [p] case None => [])
  {
    var r := Reads(files[..i + 1]);
    assert r[..i] == Reads(files[..i]);
    assert r[i] == ReadVarFromFile(files[i]);
  }

  lemma {:induction false} PresentNonEmptyIff(opts: seq<Option<Pair>>)
    ensures Present(opts) != [] <==> exists i :: 0 <= i < |opts| && opts[i].Some?
  {
    if |opts| > 0 {
      var n := |opts| - 1;
      PresentNonEmptyIff(opts[..n]);
      if opts[n].None? && Present(opts) != [] {
        assert Present(opts[..n]) != [];
        var i :| 0 <= i < n && opts[..n][i].Some?;
        assert opts[i].Some?;
      }
    }
  }

  /** The visited paths yield some pair exactly when one of them is a
      readable file. */
  lemma FilePairsNonEmptyIff(files: seq<WalkEntry>)
    ensures FilePairs(files) != [] <==> exists i :: 0 <= i < |files| && ReadVarFromFile(files[i]).Some?
  {
    var r := Reads(files);
    PresentNonEmptyIff(r);
    if FilePairs(files) != [] {
      var i :| 0 <= i < |r| && r[i].Some?;
      assert ReadVarFromFile(files[i]).Some?;
    } else {
      forall i | 0 <= i < |files| ensures ReadVarFromFile(files[i]).None? {
        assert r[i] == ReadVarFromFile(files[i]);
      }
    }
  }

  lemma {:induction false} PresentLastWins(opts: seq<Option<Pair>>, j: nat)
    requires j < |opts| && opts[j].Some?
    requires forall i :: j < i < |opts| && opts[i].Some? ==> opts[i].value.key != opts[j].value.key
    ensures var p := opts[j].value; p.key in MapOf(Present(opts)) && MapOf(Present(opts))[p.key] == p.val
  {
    var n := |opts| - 1;
    var prefix := opts[..n];
    if j < n {
      assert forall i :: j < i < n ==> prefix[i] == opts[i];
      PresentLastWins(prefix, j);
      if opts[n].Some? {
        assert opts[n].value.key != opts[j].value.key;
        assert Present(opts) == Present(prefix) + [opts[n].value];
        MapOfSnoc(Present(prefix), opts[n].value);
      } else {
        assert Present(opts) == Present(prefix);
      }
    } else {
      assert Present(opts) == Present(prefix) + [opts[n].value];
      MapOfSnoc(Present(prefix), opts[n].value);
    }
  }

  /** Among files with the same key, the one visited last provides the value. */
  lemma FileMapLastWins(files: seq<WalkEntry>, j: nat)
    requires j < |files| && ReadVarFromFile(files[j]).Some?
    requires forall i :: j < i < |files| && ReadVarFromFile(files[i]).Some?
               ==> ReadVarFromFile(files[i]).value.key != ReadVarFromFile(files[j]).value.key
    ensures var p := ReadVarFromFile(files[j]).value;
      p.key in MapOf(FilePairs(files)) && MapOf(FilePairs(files))[p.key] == p.val
  {
    PresentLastWins(Reads(files), j);
  }

  /** What `os.Environ` returns: every entry has the form NAME=value. */
  predicate WellFormedEnviron(environ: seq<string>)
  {
    forall i :: 0 <= i < |environ| ==> '=' in environ[i]
  }

  /** An environment entry split at its first '='. */
  function EnvPair(entry: string): Pair
    requires '=' in entry
  {
    var halves := Cut(entry, '=');
    Pair(halves.0, halves.1)
  }

  function EnvPairs(environ: seq<string>): seq<Pair>
    requires WellFormedEnviron(environ)
  {
    if |environ| == 0 then []
    else
      var n := |environ| - 1;
      assert forall i :: 0 <= i < n ==> environ[..n][i] == environ[i];
      EnvPairs(environ[..n]) + [EnvPair(environ[n])]
  }

  lemma EnvPairsSnoc(environ: seq<string>, i: nat)
    requires WellFormedEnviron(environ)
    requires i < |environ|
    ensures EnvPairs(environ[..i + 1]) == EnvPairs(environ[..i]) + [EnvPair(environ[i])]
  {
    assert environ[..i + 1][..i] == environ[..i];
  }

  /** Storing pairs one after the other: a key is present iff some pair has it. */
  lemma {:induction false} MapOfKeys(pairs: seq<Pair>, k: string)
    ensures k in MapOf(pairs) <==> exists i :: 0 <= i < |pairs| && pairs[i].key == k
  {
    if |pairs| > 0 {
      var n := |pairs| - 1;
      var init := pairs[..n];
      MapOfKeys(init, k);
      if pairs[n].key != k && k in MapOf(pairs) {
        var i :| 0 <= i < n && init[i].key == k;
        assert pairs[i].key == k;
      }
    }
  }

  /** Storing pairs one after the other: the value of a key is that of the
      last pair with that key. */
  lemma {:induction false} MapOfLastWins(pairs: seq<Pair>, j: nat)
    requires j < |pairs|
    requires forall i :: j < i < |pairs| ==> pairs[i].key != pairs[j].key
    ensures pairs[j].key in MapOf(pairs) && MapOf(pairs)[pairs[j].key] == pairs[j].val
  {
    var n := |pairs| - 1;
    if j < n {
      var init := pairs[..n];
      assert forall i :: j < i < n ==> init[i] == pairs[i];
      MapOfLastWins(init, j);
    }
  }

  lemma {:induction false} EnvPairsAt(environ: seq<string>, i: nat)
    requires WellFormedEnviron(environ)
    requires i < |environ|
    ensures |EnvPairs(environ)| == |environ|
    ensures EnvPairs(environ)[i] == EnvPair(environ[i])
  {
    var n := |environ| - 1;
    if i < n {
      EnvPairsAt(environ[..n], i);
    } else if n > 0 {
      EnvPairsAt(environ[..n], 0);
    }
  }

  /** An entry "NAME=value", with no '=' in NAME, sets NAME to value when
      no later entry sets NAME again. */
  lemma EnvEntryLastWins(environ: seq<string>, j: nat, name: string, value: string)
    requires WellFormedEnviron(environ)
    requires j < |environ| && environ[j] == name + "=" + value && '=' !in name
    requires forall i :: j < i < |environ| ==> Cut(environ[i], '=').0 != name
    ensures name in MapOf(EnvPairs(environ)) && MapOf(EnvPairs(environ))[name] == value
  {
    assert environ[j] == name + ['='] + value;
    CutUnique(environ[j], '=', name, value);
    var pairs := EnvPairs(environ);
    EnvPairsAt(environ, j);
    assert pairs[j] == Pair(name, value);
    forall i | j < i < |environ| ensures pairs[i].key != name {
      EnvPairsAt(environ, i);
    }
    MapOfLastWins(pairs, j);
  }

  /** The walks the directories of `dirs` gave: one per directory, each
      starting at that directory, as `filepath.Walk` visits its root first. */
  predicate WalksOf(dirs: seq<string>, walks: seq<seq<WalkEntry>>)
  {
    |walks| == |dirs| && forall i :: 0 <= i < |walks| ==> |walks[i]| >= 1 && walks[i][0].path == dirs[i]
  }

  /** The paths `generateData` collects: `filepath.Walk` of each directory
      in turn, its callback appending every visited path. */
  method CollectPaths(dirs: seq<string>, walks: seq<seq<WalkEntry>>) returns (files: seq<WalkEntry>)
    requires WalksOf(dirs, walks)
    ensures files == Flatten(walks)
  {
    files := [];
    var idx := 0;
    while idx < |dirs|
      invariant 0 <= idx <= |dirs|
      invariant files == Flatten(walks[..idx])
    {
      assert walks[..idx + 1][..idx] == walks[..idx];
      files := files + walks[idx];
      idx := idx + 1;
    }
    assert walks[..idx] == walks;
  }

  /** The secret-file loop of `generateData`: each pair read from a visited
      path is stored under "file", the sub-map being created with the first. */
  method StoreFiles(vars0: map<string, map<string, string>>, files: seq<WalkEntry>)
    returns (vars: map<string, map<string, string>>)
    requires vars0 == map["envs" := map[]]
    ensures vars.Keys <= {"envs", "file"}
    ensures "envs" in vars && vars["envs"] == map[]
    ensures "file" in vars <==> FilePairs(files) != []
    ensures "file" in vars ==> vars["file"] == MapOf(FilePairs(files))
  {
    vars := vars0;
    var idx := 0;
    while idx < |files|
      invariant 0 <= idx <= |files|
      invariant vars.Keys <= {"envs", "file"}
      invariant "envs" in vars && vars["envs"] == map[]
      invariant "file" in vars <==> FilePairs(files[..idx]) != []
      invariant "file" in vars ==> vars["file"] == MapOf(FilePairs(files[..idx]))
    {
      FilePairsSnoc(files, idx);
      ghost var before := FilePairs(files[..idx]);
      var pair := ReadVarFromFile(files[idx]);
      if pair.Some? {
        assert FilePairs(files[..idx + 1]) == before + [pair.value];
        MapOfSnoc(before, pair.value);
        if "file" !in vars {
          assert before == [];
          assert MapOf(before + [pair.value]) == map[pair.value.key := pair.value.val];
          vars := vars["file" := map[pair.value.key := pair.value.val]];
        } else {
          vars := vars["file" := vars["file"][pair.value.key := pair.value.val]];
        }
      } else {
        assert FilePairs(files[..idx + 1]) == before;
      }
      idx := idx + 1;
    }
    assert files[..idx] == files;
  }

  /** The environment loop of `generateData`: each entry is stored under
      "envs", split at its first '='; the "file" sub-map is left alone. */
  method StoreEnvs(vars0: map<string, map<string, string>>, environ: seq<string>)
    returns (vars: map<string, map<string, string>>)
    requires WellFormedEnviron(environ)
    requires vars0.Keys <= {"envs", "file"} && "envs" in vars0 && vars0["envs"] == map[]
    ensures vars.Keys <= {"envs", "file"}
    ensures "envs" in vars && vars["envs"] == MapOf(EnvPairs(environ))
    ensures ("file" in vars <==> "file" in vars0) && ("file" in vars ==> vars["file"] == vars0["file"])
  {
    vars := vars0;
    var i := 0;
    while i < |environ|
      invariant 0 <= i <= |environ|
      invariant vars.Keys <= {"envs", "file"}
      invariant "envs" in vars && vars["envs"] == MapOf(EnvPairs(environ[..i]))
      invariant ("file" in vars <==> "file" in vars0) && ("file" in vars ==> vars["file"] == vars0["file"])
    {
      EnvPairsSnoc(environ, i);
      var pair := Cut(environ[i], '=');
      MapOfSnoc(EnvPairs(environ[..i]), Pair(pair.0, pair.1));
      vars := vars["envs" := vars["envs"][pair.0 := pair.1]];
      i := i + 1;
    }
    assert environ[..i] == environ;
  }

  /** `generateData`. */
  method GenerateData(secretsDirs: string, walks: seq<seq<WalkEntry>>, environ: seq<string>)
    returns (vars: map<string, map<string, string>>)
    requires secretsDirs != "" ==> WalksOf(Split(secretsDirs, ','), walks)
    requires WellFormedEnviron(environ)
    ensures vars.Keys <= {"envs", "file"}
    ensures "envs" in vars && vars["envs"] == MapOf(EnvPairs(environ))
    ensures var pairs := if secretsDirs == "" then [] else FilePairs(Flatten(walks));
      && ("file" in vars <==> pairs != [])
      && ("file" in vars ==> vars["file"] == MapOf(pairs))
  {
    vars := map["envs" := map[]];
    if secretsDirs != "" {
      var dirs := Split(secretsDirs, ',');
      var files := CollectPaths(dirs, walks);
      vars := StoreFiles(vars, files);
    }
    vars := StoreEnvs(vars, environ);
  }
}
