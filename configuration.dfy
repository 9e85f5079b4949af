/**
 * `Config::new`: validate the command-line arguments, expand directories
 * into the files below them and keep the paths with a supported extension.
 */
module Configuration {
  import opened Wrappers
  import opened FileTree
  import opened Extensions

  /**
   * The filesystem as the program queries it: a key is a path string that
   * `Path::exists` accepts, mapped to the entry it names (with the paths of
   * everything below it as `fs::read_dir` reports them through that
   * string). `Path::exists` follows symbolic links, so a dangling link is
   * not a key, and neither is any other string that does not exist.
   */
  type FileSystem = map<string, Entry>

  /** The two ways `Config::new` fails: "No Paths Given", and "Invalid path(s) given" naming the path. */
  datatype ConfigError = NoPathsGiven | InvalidPath(path: string)

  /** The validated list of files to process. */
  datatype Config = Config(paths: seq<string>)

  /** Where the existence check stops: the index of the first raw path that does not exist, if any. */
  function FirstMissing(fs: FileSystem, raw: seq<string>): (r: Option<nat>)
    ensures r.None? <==> forall j :: 0 <= j < |raw| ==> raw[j] in fs
    ensures r.Some? ==> r.value < |raw| && raw[r.value] !in fs
    ensures r.Some? ==> forall j :: 0 <= j < r.value ==> raw[j] in fs
  {
    if raw == [] then None
    else if raw[0] !in fs then Some(0)
    else
      match FirstMissing(fs, raw[1..])
      case None => None
      case Some(k) => Some(k + 1)
  }

  /** What the expansion step adds for one raw path: a file itself, a directory's listing, nothing for any other entry. */
  function Expansion(fs: FileSystem, path: string): (r: seq<string>)
    ensures path in fs && fs[path].Dir? ==> r == NonDirPaths(Descendants(fs[path]))
    ensures path in fs && fs[path].File? ==> r == [path]
    ensures path !in fs || fs[path].Other? ==> r == []
  {
    if path !in fs then []
    else
      ListingIsNonDirDescendants(fs[path]);
      match fs[path]
      case File(_) => [path]
      case Dir(_, _) => Listing(fs[path])
      case Other(_) => []
  }

  /** The paths gathered by the expansion step for all raw paths, in argument order. */
  function Expand(fs: FileSystem, raw: seq<string>): (r: seq<string>)
    ensures forall i, p :: 0 <= i < |raw| && p in Expansion(fs, raw[i]) ==> p in r
  {
    if raw == [] then []
    else Expand(fs, raw[..|raw| - 1]) + Expansion(fs, raw[|raw| - 1])
  }

  /** Everything `Config::new` does after its length check, for the raw paths `raw`. */
  function ConfigFrom(fs: FileSystem, raw: seq<string>): (r: Result<Config, ConfigError>)
    ensures r.Success? <==> forall j :: 0 <= j < |raw| ==> raw[j] in fs
    ensures r.Failure? ==> r.error.InvalidPath? && r.error.path in raw && r.error.path !in fs
    ensures r.Success? ==> forall p :: p in r.value.paths <==> IsSupported(p) && p in Expand(fs, raw)
    ensures r.Success? ==>
              forall p :: multiset(r.value.paths)[p] == if IsSupported(p) then multiset(Expand(fs, raw))[p] else 0
  {
    match FirstMissing(fs, raw)
    case Some(k) => Failure(InvalidPath(raw[k]))
    case None => Success(Config(KeepSupported(Expand(fs, raw))))
  }

  /**
   * The result of `Config::new(args)`. All of `args`, the executable path
   * `args[0]` included, is taken as raw paths.
   */
  function ConfigOf(fs: FileSystem, args: seq<string>): (r: Result<Config, ConfigError>)
    ensures r == Failure(NoPathsGiven) <==> |args| <= 1
    ensures r.Failure? && r.error.InvalidPath? ==>
              exists k :: 0 <= k < |args| && args[k] == r.error.path && args[k] !in fs &&
                          forall j :: 0 <= j < k ==> args[j] in fs
    ensures |args| > 1 && (exists a :: a in args && a !in fs) ==> r.Failure? && r.error.InvalidPath?
    ensures r.Success? ==> forall a :: a in args ==> a in fs
    ensures r.Success? ==> forall p :: p in r.value.paths <==> p in Expand(fs, args) && IsSupported(p)
    ensures r.Success? ==>
              forall p :: multiset(r.value.paths)[p] == if IsSupported(p) then multiset(Expand(fs, args))[p] else 0
  {
    if |args| <= 1 then Failure(NoPathsGiven)
    else
      assert args[0..] == args;
      ConfigFrom(fs, args[0..])
  }

  /**
   * Nothing removes duplicates: an argument given twice is expanded twice,
   * so every supported path it reaches is configured twice.
   */
  lemma RepeatedArgumentIsListedTwice(fs: FileSystem, d: string)
    requires d in fs
    ensures ConfigOf(fs, [d, d])
            == Success(Config(KeepSupported(Expansion(fs, d)) + KeepSupported(Expansion(fs, d))))
  {
    var args := [d, d];
    assert args[0..] == args;
    assert FirstMissing(fs, args) == None;
    assert Expand(fs, args) == Expansion(fs, d) + Expansion(fs, d) by {
      assert args[..1] == [d] && [d][..0] == [];
      assert Expand(fs, [d]) == Expansion(fs, d);
    }
    KeepSupportedAppend(Expansion(fs, d), Expansion(fs, d));
  }

  /** A supported file named twice is configured twice, so `run` processes it twice. */
  lemma RepeatedFileIsConfiguredTwice(fs: FileSystem, f: string)
    requires f in fs && fs[f].File? && IsSupported(f)
    ensures ConfigOf(fs, [f, f]) == Success(Config([f, f]))
  {
    assert Expansion(fs, f) == [f];
    KeepSupportedSingle(f);
    RepeatedArgumentIsListedTwice(fs, f);
    assert [f] + [f] == [f, f];
  }

  /** A path is gathered exactly when it is in the expansion of one of the raw paths. */
  lemma {:induction false} ExpandMembership(fs: FileSystem, raw: seq<string>, p: string)
    ensures p in Expand(fs, raw) <==> exists i :: 0 <= i < |raw| && p in Expansion(fs, raw[i])
  {
    if raw != [] {
      var front := raw[..|raw| - 1];
      ExpandMembership(fs, front, p);
      if exists i :: 0 <= i < |front| && p in Expansion(fs, front[i]) {
        var i :| 0 <= i < |front| && p in Expansion(fs, front[i]);
        assert raw[i] == front[i];
      }
      if exists i :: 0 <= i < |raw| && p in Expansion(fs, raw[i]) {
        var i :| 0 <= i < |raw| && p in Expansion(fs, raw[i]);
        if i < |front| { assert front[i] == raw[i]; }
      }
    }
  }

  /**
   * On success the configuration holds exactly the supported paths that are
   * either an argument naming a file or listed below an argument naming a
   * directory.
   */
  lemma ConfigPathsOrigin(fs: FileSystem, args: seq<string>, p: string)
    requires ConfigOf(fs, args).Success?
    ensures p in ConfigOf(fs, args).value.paths <==>
              IsSupported(p) &&
              exists i :: 0 <= i < |args| &&
                ((fs[args[i]].File? && p == args[i]) || (fs[args[i]].Dir? && p in Listing(fs[args[i]])))
  {
    ExpandMembership(fs, args, p);
    forall i | 0 <= i < |args|
      ensures p in Expansion(fs, args[i]) <==>
                (fs[args[i]].File? && p == args[i]) || (fs[args[i]].Dir? && p in Listing(fs[args[i]]))
    {
      assert args[i] in args;
    }
  }

  /** On success the configured paths keep the order in which expansion gathered them. */
  lemma ConfigPathsInOrder(fs: FileSystem, args: seq<string>)
    requires ConfigOf(fs, args).Success?
    ensures IsSubsequence(ConfigOf(fs, args).value.paths, Expand(fs, args))
  {
    assert args[0..] == args;
    KeepSupportedIsSubsequence(Expand(fs, args));
  }

  /**
   * `Config::new(args)`. Fails when there are fewer than two arguments; then
   * checks that every raw path exists, stopping at the first that does not,
   * before expanding any of them; then expands files and directories and
   * filters the result by extension.
   */
  method NewConfig(fs: FileSystem, args: seq<string>) returns (r: Result<Config, ConfigError>)
    ensures r == ConfigOf(fs, args)
  {
    var paths: seq<string> := [];
    if |args| <= 1 {
      return Failure(NoPathsGiven);
    }
    // the slice starts at 0: the executable path is a raw path too
    var raw := args[0..];
    for i := 0 to |raw|
      invariant forall j :: 0 <= j < i ==> raw[j] in fs
    {
      if raw[i] !in fs {
        return Failure(InvalidPath(raw[i]));
      }
    }
    for i := 0 to |raw|
      invariant paths == Expand(fs, raw[..i])
    {
      var path := raw[i];
      assert raw[..i + 1][..i] == raw[..i];
      match fs[path]
      case File(_) =>
        paths := paths + [path];
      case Dir(_, _) =>
        var listed := ListFiles(fs[path]);
        paths := paths + listed;
      case Other(_) =>
    }
    assert raw[..|raw|] == raw;
    paths := KeepSupported(paths);
    return Success(Config(paths));
  }

  /**
   * The executable path is checked like any other: when it does not name an
   * existing entry (the program was started by a name found on the search
   * path), the configuration fails on it even though every real argument exists.
   */
  lemma ExecutableNameIsChecked()
    ensures ConfigOf(map["music" := Dir("music", [])], ["update-album-artist", "music"])
            == Failure(InvalidPath("update-album-artist"))
  {
    var fs := map["music" := Dir("music", [])];
    var args := ["update-album-artist", "music"];
    assert args[0] !in fs;
    assert args[0..] == args;
    assert FirstMissing(fs, args) == Some(0);
  }

  /**
   * `Config::new` as its comment describes it: the executable path
   * `args[0]` is skipped, and only the arguments after it are raw paths.
   */
  function ConfigSkippingExecutable(fs: FileSystem, args: seq<string>): (r: Result<Config, ConfigError>)
    ensures r == Failure(NoPathsGiven) <==> |args| <= 1
    ensures r.Failure? && r.error.InvalidPath? ==>
              exists k :: 1 <= k < |args| && args[k] == r.error.path && args[k] !in fs
    ensures |args| > 1 && (forall k :: 1 <= k < |args| ==> args[k] in fs) ==> r.Success?
    ensures r.Success? ==> forall p :: p in r.value.paths <==> IsSupported(p) && p in Expand(fs, args[1..])
  {
    if |args| <= 1 then Failure(NoPathsGiven)
    else
      var raw := args[1..];
      var r := ConfigFrom(fs, raw);
      assert r.Failure? ==> args[1 + FirstMissing(fs, raw).value] == raw[FirstMissing(fs, raw).value];
      r
  }

  /** Skipping the executable path, the result no longer depends on it. */
  lemma ExecutableNameIsIgnored(fs: FileSystem, exe: string, exe': string, rest: seq<string>)
    ensures ConfigSkippingExecutable(fs, [exe] + rest) == ConfigSkippingExecutable(fs, [exe'] + rest)
    ensures ConfigSkippingExecutable(map["music" := Dir("music", [])], ["update-album-artist", "music"])
            == Success(Config([]))
  {
    assert ([exe] + rest)[1..] == rest == ([exe'] + rest)[1..];
    var fs0 := map["music" := Dir("music", [])];
    var args := ["update-album-artist", "music"];
    assert args[1..] == ["music"];
    assert FirstMissing(fs0, ["music"]) == None;
    assert Expand(fs0, ["music"]) == [] by {
      assert ["music"][..0] == [];
      assert Listing(Dir("music", [])) == [];
    }
  }
}
