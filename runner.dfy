/**
 * `run`: for each configured path, read the tag, derive the album artist
 * from the artist field, and write the tag back. Unreadable tags and missing
 * artists skip the file; a failed write ends the whole run.
 */
module Runner {
  import opened Wrappers
  import opened Artist
  import opened Configuration
  import opened FileTree
  import opened Extensions

  /** The two fields of an ID3 tag that the program reads or sets; the rest of the tag is not modelled. */
  datatype Tag = Tag(artist: Option<string>, albumArtist: Option<string>)

  /** The outcome of `Tag::read_from_path`. */
  datatype TagRead = ReadFailed | ReadOk(tag: Tag)

  /**
   * How the filesystem and the tag library answer for one file: what the
   * tag read returns, and whether `write_to_path` would succeed.
   */
  datatype FileIo = FileIo(read: TagRead, writeSucceeds: bool)

  /** What one iteration of the loop did to the file at `path`. */
  datatype Step =
    | SkippedUnreadable(path: string)
    | SkippedNoArtist(path: string)
    | Written(path: string, tag: Tag)
    | WriteFailed(path: string, tag: Tag)

  /** The error `run` returns: the failed write of the file at `path`. */
  datatype RunError = WriteError(path: string)

  /**
   * The decision the loop body takes for one file. Only a file whose tag
   * reads and has an artist is written, and it is written with its artist
   * kept and its album artist replaced by the derived one.
   */
  function StepOf(path: string, io: FileIo): (s: Step)
    ensures s.path == path
    ensures s.SkippedUnreadable? <==> io.read.ReadFailed?
    ensures s.SkippedNoArtist? <==> io.read.ReadOk? && io.read.tag.artist.None?
    ensures s.WriteFailed? <==> io.read.ReadOk? && io.read.tag.artist.Some? && !io.writeSucceeds
    ensures s.Written? || s.WriteFailed? ==>
              s.tag.artist == io.read.tag.artist &&
              s.tag.albumArtist == Some(AlbumArtist(io.read.tag.artist.value))
  {
    match io.read
    case ReadFailed => SkippedUnreadable(path)
    case ReadOk(tag) =>
      match tag.artist
      case None => SkippedNoArtist(path)
      case Some(artist) =>
        var updated := tag.(albumArtist := Some(AlbumArtist(artist)));
        if io.writeSucceeds then Written(path, updated) else WriteFailed(path, updated)
  }

  /**
   * `run(config)`, where `env[i]` is how the i-th configured file answers.
   * The files are taken in order, each as `StepOf` decides; skipped files do
   * not stop the run, and the first failed write ends it with an error, so
   * no later file is read or written.
   */
  method Run(config: Config, env: seq<FileIo>) returns (steps: seq<Step>, r: Result<(), RunError>)
    requires |env| == |config.paths|
    ensures |steps| <= |config.paths|
    ensures forall i :: 0 <= i < |steps| ==> steps[i] == StepOf(config.paths[i], env[i])
    ensures forall i :: 0 <= i < |steps| - 1 ==> !steps[i].WriteFailed?
    ensures r.Success? <==> |steps| == |config.paths| && forall i :: 0 <= i < |steps| ==> !steps[i].WriteFailed?
    ensures r.Failure? ==>
              |steps| > 0 && steps[|steps| - 1].WriteFailed? &&
              r.error == WriteError(config.paths[|steps| - 1])
  {
    steps := [];
    for i := 0 to |config.paths|
      invariant |steps| == i
      invariant forall j :: 0 <= j < i ==> steps[j] == StepOf(config.paths[j], env[j])
      invariant forall j :: 0 <= j < i ==> !steps[j].WriteFailed?
    {
      var path := config.paths[i];
      if env[i].read.ReadFailed? {
        steps := steps + [SkippedUnreadable(path)];
        continue;
      }
      var tag := env[i].read.tag;
      if tag.artist.None? {
        steps := steps + [SkippedNoArtist(path)];
        continue;
      }
      var albumArtist := AlbumArtist(tag.artist.value);
      tag := tag.(albumArtist := Some(albumArtist));
      if !env[i].writeSucceeds {
        steps := steps + [WriteFailed(path, tag)];
        return steps, Failure(WriteError(path));
      }
      steps := steps + [Written(path, tag)];
    }
    r := Success(());
  }

  /** A plain name: one path component that is neither `.` nor `..`. */
  predicate PlainName(name: string)
  {
    '/' !in name && name != "" && name != "." && name != ".."
  }

  /** `a.mp3` passes the extension filter wherever it lies. */
  lemma Mp3InDirectoryIsSupported(dir: string)
    ensures IsSupported(dir + "/" + "a.mp3")
  {
    assert EqIgnoreAsciiCase(SupportedExtensions[0], "mp3");
    ListedExtensionPasses("a", "mp3", 0);
    assert "a" + "." + "mp3" == "a.mp3";
    LastComponentDecides(dir, "a.mp3");
  }

  /** Any `stem.txt` is dropped by the extension filter. */
  lemma TextIsDropped(stem: string)
    requires stem != "" && stem != "." && '/' !in stem
    ensures !IsSupported(stem + "." + "txt")
  {
    assert AsciiLower("txt"[0]) != AsciiLower(SupportedExtensions[0][0]);
    assert AsciiLower("txt"[0]) != AsciiLower(SupportedExtensions[1][0]);
    UnlistedExtensionIsDropped(stem, "txt");
  }

  /** `b.txt` does not pass the extension filter, wherever it lies. */
  lemma TextInDirectoryIsDropped(dir: string)
    ensures !IsSupported(dir + "/" + "b.txt")
  {
    TextIsDropped("b");
    assert "b" + "." + "txt" == "b.txt";
    LastComponentDecides(dir, "b.txt");
  }

  /** The worked scenario's filesystem: an executable `exe`, and a directory `dir` holding `a.mp3` and `b.txt`. */
  function ScenarioFs(exe: string, dir: string): FileSystem
  {
    map[exe := File(exe), dir := Dir(dir, [File(dir + "/" + "a.mp3"), File(dir + "/" + "b.txt")])]
  }

  /** Expanding the scenario's arguments gathers the executable, then the directory's two files. */
  lemma ScenarioExpansion(exe: string, dir: string)
    requires exe != dir
    ensures Expand(ScenarioFs(exe, dir), [exe, dir]) == [exe, dir + "/" + "a.mp3", dir + "/" + "b.txt"]
  {
    var fs := ScenarioFs(exe, dir);
    var mp3, txt := dir + "/" + "a.mp3", dir + "/" + "b.txt";
    var args := [exe, dir];
    assert Listing(fs[dir]) == [mp3, txt] by {
      assert ListingUpTo(fs[dir], 1) == [mp3];
    }
    assert args[..1] == [exe] && args[..1][..0] == [];
    assert Expansion(fs, exe) == [exe];
    assert Expand(fs, [exe]) == [exe];
  }

  /** Both of the scenario's arguments exist. */
  lemma ScenarioArgumentsExist(exe: string, dir: string)
    ensures FirstMissing(ScenarioFs(exe, dir), [exe, dir]) == None
  {
    var args := [exe, dir];
    assert args[1..] == [dir] && args[1..][1..] == [];
  }

  /** Filtering three paths of which only the middle one is supported keeps that one. */
  lemma KeepOnlyMiddleOfThree(a: string, b: string, c: string)
    requires !IsSupported(a) && IsSupported(b) && !IsSupported(c)
    ensures KeepSupported([a, b, c]) == [b]
  {
    var s := [a, b, c];
    assert KeepSupported([c]) == [] by { assert [c][1..] == []; }
    assert KeepSupported([b, c]) == [b] by { assert [b, c][1..] == [c]; }
    assert s[1..] == [b, c];
  }

  /**
   * The worked scenario: the program is started as `exe` (a file name
   * without a dot) on a directory `dir` holding `a.mp3` and `b.txt`. Only
   * `dir/a.mp3` is configured; the executable and the text file are
   * filtered out.
   */
  lemma OnlyTheMp3IsConfigured(exe: string, dir: string)
    requires PlainName(exe) && '.' !in exe && PlainName(dir) && exe != dir
    ensures ConfigOf(ScenarioFs(exe, dir), [exe, dir]) == Success(Config([dir + "/" + "a.mp3"]))
  {
    var mp3, txt := dir + "/" + "a.mp3", dir + "/" + "b.txt";
    var fs := ScenarioFs(exe, dir);
    var args := [exe, dir];
    var expanded := [exe, mp3, txt];
    ScenarioExpansion(exe, dir);
    Mp3InDirectoryIsSupported(dir);
    TextInDirectoryIsDropped(dir);
    NameWithoutDotIsDropped(exe);
    KeepOnlyMiddleOfThree(exe, mp3, txt);
    ScenarioArgumentsExist(exe, dir);
    assert ConfigFrom(fs, args) == Success(Config([mp3]));
    assert args[0..] == args;
  }

  /** In the worked scenario, the file whose artist is "X,Y" is written with album artist "X". */
  lemma FirstArtistBecomesAlbumArtist()
    ensures StepOf("music/a.mp3", FileIo(ReadOk(Tag(Some("X,Y"), None)), true))
            == Written("music/a.mp3", Tag(Some("X,Y"), Some("X")))
  {
    AlbumArtistIsFirstField("X,Y", "X");
  }
}
