/**
 * The allow-list filter: a path is kept when its extension equals one of the
 * supported extensions, ignoring ASCII case. `Path::file_name` and
 * `Path::extension` are modelled on Unix paths.
 */
module Extensions {
  import opened Wrappers
  import opened Strings

  /** The allow-list, in the order the filter tries it. */
  const SupportedExtensions: seq<string> := ["mp3", "wav"]

  /**
   * The segments of a `/`-split path that `Path::components` reports as
   * named components: empty segments (from a leading, doubled or trailing
   * `/`) and `.` segments are dropped; `..` is kept.
   */
  function Components(parts: seq<string>): (r: seq<string>)
    ensures forall i :: 0 <= i < |r| ==> r[i] in parts && r[i] != "" && r[i] != "."
  {
    if parts == [] then []
    else if parts[0] == "" || parts[0] == "." then Components(parts[1..])
    else [parts[0]] + Components(parts[1..])
  }

  /** `Path::file_name`: the last component, or none when the path ends in `..` or has no component. */
  function FileName(path: string): (r: Option<string>)
    ensures r.Some? ==> '/' !in r.value && r.value != "" && r.value != "." && r.value != ".."
    ensures '/' !in path && path != "" && path != "." && path != ".." ==> r == Some(path)
  {
    var comps := Components(Split(path, '/'));
    if comps == [] || comps[|comps| - 1] == ".." then None else Some(comps[|comps| - 1])
  }

  /**
   * The extension part of a file name: the text after its last `.`, and none
   * when the name has no `.` or its only `.` is the first character.
   */
  function NameExtension(name: string): (r: Option<string>)
    ensures r.Some? <==> exists i :: 0 < i < |name| && name[i] == '.'
    ensures r.Some? ==> '.' !in r.value && |r.value| < |name| - 1
    ensures r.Some? ==> name == name[..|name| - |r.value| - 1] + "." + r.value
  {
    if '.' !in name then None
    else
      var k := LastIndexOf(name, '.');
      if k == 0 then None
      else
        assert name == name[..k] + "." + name[k + 1..];
        Some(name[k + 1..])
  }

  /** `Path::extension`: the extension of the file name, if there is a file name. */
  function Extension(path: string): (r: Option<string>)
    ensures FileName(path).None? ==> r.None?
    ensures r.Some? ==> FileName(path).Some? && '.' !in r.value && '/' !in r.value
  {
    match FileName(path)
    case None => None
    case Some(name) => NameExtension(name)
  }

  /** `u8::to_ascii_lowercase` on one character: only `A`..`Z` change. */
  function AsciiLower(c: char): char
  {
    if 'A' <= c <= 'Z' then (c as int + 32) as char else c
  }

  /** The whole string with its ASCII capitals made lower case. */
  function LowerAscii(s: string): (r: string)
    ensures |r| == |s|
    ensures forall i :: 0 <= i < |s| ==> r[i] == AsciiLower(s[i])
  {
    seq(|s|, i requires 0 <= i < |s| => AsciiLower(s[i]))
  }

  /** `OsStr::eq_ignore_ascii_case`: same length, and equal position by position once lowered. */
  predicate EqIgnoreAsciiCase(a: string, b: string)
  {
    |a| == |b| && forall i :: 0 <= i < |a| ==> AsciiLower(a[i]) == AsciiLower(b[i])
  }

  /** The predicate handed to `filter`: the path has an extension that matches an allow-listed one. */
  predicate IsSupported(path: string)
  {
    match Extension(path)
    case None => false
    case Some(ext) => exists i :: 0 <= i < |SupportedExtensions| && EqIgnoreAsciiCase(SupportedExtensions[i], ext)
  }

  /** Case-insensitive equality is equality of the lowered strings. */
  lemma EqIgnoreAsciiCaseIsLoweredEquality(a: string, b: string)
    ensures EqIgnoreAsciiCase(a, b) <==> LowerAscii(a) == LowerAscii(b)
  {
    if LowerAscii(a) == LowerAscii(b) {
      forall i | 0 <= i < |a| ensures AsciiLower(a[i]) == AsciiLower(b[i]) {
        assert LowerAscii(a)[i] == LowerAscii(b)[i];
      }
    }
  }

  /** The allow-listed extensions are written in lower case. */
  lemma AllowListIsLowerCase()
    ensures LowerAscii(SupportedExtensions[0]) == SupportedExtensions[0]
    ensures LowerAscii(SupportedExtensions[1]) == SupportedExtensions[1]
  {
    assert LowerAscii("mp3") == "mp3";
    assert LowerAscii("wav") == "wav";
  }

  /** An extension matches an allow-listed one exactly when its lowered form is allow-listed. */
  lemma MatchesAllowListIff(ext: string)
    ensures (exists i :: 0 <= i < |SupportedExtensions| && EqIgnoreAsciiCase(SupportedExtensions[i], ext))
              <==> LowerAscii(ext) in SupportedExtensions
  {
    AllowListIsLowerCase();
    EqIgnoreAsciiCaseIsLoweredEquality(SupportedExtensions[0], ext);
    EqIgnoreAsciiCaseIsLoweredEquality(SupportedExtensions[1], ext);
    assert LowerAscii(ext) in SupportedExtensions <==>
             LowerAscii(ext) == SupportedExtensions[0] || LowerAscii(ext) == SupportedExtensions[1];
  }

  /**
   * A path is supported exactly when it has an extension whose lowered form
   * is one of the allow-listed extensions.
   */
  lemma IsSupportedIff(path: string)
    ensures IsSupported(path) <==>
              Extension(path).Some? && LowerAscii(Extension(path).value) in SupportedExtensions
  {
    if Extension(path).Some? {
      MatchesAllowListIff(Extension(path).value);
    }
  }

  /**
   * `config.paths.into_iter().filter(..).collect()`: the supported paths, in
   * their original order, each occurrence kept.
   */
  function KeepSupported(paths: seq<string>): (r: seq<string>)
    ensures |r| <= |paths|
    ensures forall p :: p in r <==> p in paths && IsSupported(p)
    ensures forall p :: multiset(r)[p] == if IsSupported(p) then multiset(paths)[p] else 0
  {
    if paths == [] then []
    else
      assert paths == [paths[0]] + paths[1..];
      if IsSupported(paths[0]) then [paths[0]] + KeepSupported(paths[1..])
      else KeepSupported(paths[1..])
  }

  /** `xs` is `ys` with some elements removed and the rest in their original order. */
  ghost predicate IsSubsequence(xs: seq<string>, ys: seq<string>)
  {
    xs == [] ||
    (ys != [] &&
     ((xs[0] == ys[0] && IsSubsequence(xs[1..], ys[1..])) || IsSubsequence(xs, ys[1..])))
  }

  /** The filter keeps the relative order of the paths it keeps. */
  lemma {:induction false} KeepSupportedIsSubsequence(paths: seq<string>)
    ensures IsSubsequence(KeepSupported(paths), paths)
  {
    if paths != [] {
      KeepSupportedIsSubsequence(paths[1..]);
      var r := KeepSupported(paths);
      if IsSupported(paths[0]) {
        assert r[0] == paths[0] && r[1..] == KeepSupported(paths[1..]);
      }
    }
  }

  /** Filtering an already filtered list changes nothing. */
  lemma {:induction false} KeepSupportedIdempotent(paths: seq<string>)
    ensures KeepSupported(KeepSupported(paths)) == KeepSupported(paths)
  {
    if paths != [] {
      KeepSupportedIdempotent(paths[1..]);
      if IsSupported(paths[0]) {
        var r := KeepSupported(paths);
        assert r[0] == paths[0] && r[1..] == KeepSupported(paths[1..]);
      }
    }
  }

  /** The filter works element by element, so it distributes over concatenation. */
  lemma {:induction false} KeepSupportedAppend(a: seq<string>, b: seq<string>)
    ensures KeepSupported(a + b) == KeepSupported(a) + KeepSupported(b)
  {
    if a != [] {
      assert (a + b)[1..] == a[1..] + b;
      KeepSupportedAppend(a[1..], b);
    } else {
      assert a + b == b;
    }
  }

  /** A single supported path passes the filter unchanged. */
  lemma KeepSupportedSingle(p: string)
    requires IsSupported(p)
    ensures KeepSupported([p]) == [p]
  {
    assert [p][1..] == [];
  }

  /** A bare file name `stem.ext`, with a non-empty stem and no `.` in `ext`, has extension `ext`. */
  lemma {:induction false} ExtensionOfBareName(stem: string, ext: string)
    requires stem != "" && stem != "." && '/' !in stem && '/' !in ext && '.' !in ext
    ensures Extension(stem + "." + ext) == Some(ext)
  {
    var name := stem + "." + ext;
    assert name[|stem|] == '.';
    assert '/' !in name by {
      forall i | 0 <= i < |name| ensures name[i] != '/' {
        if i < |stem| { assert name[i] == stem[i]; }
        else if i > |stem| { assert name[i] == ext[i - |stem| - 1]; }
      }
    }
    assert name != "." && name != ".." by {
      if |name| == 2 { assert stem == [name[0]]; }
    }
    assert name[|stem| + 1..] == ext;
  }

  /** A plain name without a dot has no extension, so it is dropped. */
  lemma NameWithoutDotIsDropped(name: string)
    requires '/' !in name && name != "" && '.' !in name
    ensures !IsSupported(name)
  {
    assert name != "." && name != ".." by { assert '.' !in name; }
  }

  /** `stem.ext` with an extension that is not allow-listed, whatever its case, is dropped. */
  lemma UnlistedExtensionIsDropped(stem: string, ext: string)
    requires stem != "" && stem != "." && '/' !in stem && '/' !in ext && '.' !in ext
    requires !EqIgnoreAsciiCase(SupportedExtensions[0], ext) && !EqIgnoreAsciiCase(SupportedExtensions[1], ext)
    ensures !IsSupported(stem + "." + ext)
  {
    ExtensionOfBareName(stem, ext);
  }

  /** `stem.ext` whose extension matches an allow-listed one, whatever its case, is kept. */
  lemma ListedExtensionPasses(stem: string, ext: string, i: nat)
    requires stem != "" && stem != "." && '/' !in stem && '/' !in ext && '.' !in ext
    requires i < |SupportedExtensions| && EqIgnoreAsciiCase(SupportedExtensions[i], ext)
    ensures IsSupported(stem + "." + ext)
  {
    ExtensionOfBareName(stem, ext);
  }

  /** `MP3` matches the allow-listed `mp3` once its capitals are lowered. */
  lemma UpperMp3Matches()
    ensures EqIgnoreAsciiCase(SupportedExtensions[0], "MP3")
  {
    assert AsciiLower('M') == 'm' && AsciiLower('P') == 'p' && AsciiLower('3') == '3';
  }

  /** `Wav` matches the allow-listed `wav` once its capital is lowered. */
  lemma MixedWavMatches()
    ensures EqIgnoreAsciiCase(SupportedExtensions[1], "Wav")
  {
    assert AsciiLower('W') == 'w' && AsciiLower('a') == 'a' && AsciiLower('v') == 'v';
  }

  /** Extensions match whatever their ASCII case: any `stem.MP3` is kept. */
  lemma UpperCaseExtensionPasses(stem: string)
    requires stem != "" && stem != "." && '/' !in stem
    ensures IsSupported(stem + "." + "MP3")
  {
    UpperMp3Matches();
    ListedExtensionPasses(stem, "MP3", 0);
  }

  /** Mixed case matches too, here against the second allow-listed extension: any `stem.Wav` is kept. */
  lemma MixedCaseExtensionPasses(stem: string)
    requires stem != "" && stem != "." && '/' !in stem
    ensures IsSupported(stem + "." + "Wav")
  {
    MixedWavMatches();
    ListedExtensionPasses(stem, "Wav", 1);
  }

  /** An extension outside the allow-list is dropped: any `stem.flac`. */
  lemma OtherExtensionIsDropped(stem: string)
    requires stem != "" && stem != "." && '/' !in stem
    ensures !IsSupported(stem + "." + "flac")
  {
    assert |SupportedExtensions[0]| != |"flac"| && |SupportedExtensions[1]| != |"flac"|;
    UnlistedExtensionIsDropped(stem, "flac");
  }

  /** A name without a dot, or whose only dot leads, has no extension and is dropped. */
  lemma NamesWithoutExtensionAreDropped()
    ensures !IsSupported("song") && !IsSupported(".mp3")
  {
    assert FileName("song") == Some("song");
    assert '.' !in "song";
    assert FileName(".mp3") == Some(".mp3");
    assert LastIndexOf(".mp3", '.') == 0;
  }

  /** Splitting `dir/name` gives the segments of `dir` followed by `name`, whatever `dir` holds. */
  lemma {:induction false} SplitChild(dir: string, name: string)
    requires '/' !in name
    ensures Split(dir + "/" + name, '/') == Split(dir, '/') + [name]
    decreases |dir|
  {
    var s := dir + "/" + name;
    assert s[|dir|] == '/';
    if '/' !in dir {
      assert s[..|dir|] == dir;
      assert IndexOf(s, '/') == |dir|;
      assert s[|dir| + 1..] == name;
    } else {
      var k := IndexOf(dir, '/');
      assert s[k] == dir[k];
      assert s[..k] == dir[..k];
      assert IndexOf(s, '/') == k;
      assert s[k + 1..] == dir[k + 1..] + "/" + name;
      SplitChild(dir[k + 1..], name);
    }
  }

  /** Dropping empty and `.` segments works segment by segment, so it distributes over concatenation. */
  lemma {:induction false} ComponentsAppend(xs: seq<string>, ys: seq<string>)
    ensures Components(xs + ys) == Components(xs) + Components(ys)
  {
    if xs == [] {
      assert xs + ys == ys;
    } else {
      assert (xs + ys)[0] == xs[0] && (xs + ys)[1..] == xs[1..] + ys;
      ComponentsAppend(xs[1..], ys);
    }
  }

  /**
   * The file name of `dir/name`, for a plain name `name`, is `name`: only
   * the last component counts, however many components `dir` has.
   */
  lemma FileNameOfChild(dir: string, name: string)
    requires '/' !in name && name != "" && name != "." && name != ".."
    ensures FileName(dir + "/" + name) == Some(name)
  {
    SplitChild(dir, name);
    ComponentsAppend(Split(dir, '/'), [name]);
    assert Components([name]) == [name] by { assert [name][1..] == []; }
  }

  /** Only the last component of a path decides: the directory part, dots included, does not count. */
  lemma LastComponentDecides(dir: string, name: string)
    requires '/' !in name && name != "" && name != "." && name != ".."
    ensures IsSupported(dir + "/" + name) == IsSupported(name)
    ensures Extension(dir + "/" + name) == Extension(name)
  {
    FileNameOfChild(dir, name);
  }

  /** A trailing `/` does not change the file name of any path, so it does not change the filter's verdict. */
  lemma TrailingSeparatorIsIgnored(path: string)
    ensures FileName(path + "/") == FileName(path)
    ensures IsSupported(path + "/") == IsSupported(path)
  {
    SplitChild(path, "");
    assert path + "/" + "" == path + "/";
    ComponentsAppend(Split(path, '/'), [""]);
    assert Components([""]) == [] by { assert [""][1..] == []; }
    assert Components(Split(path, '/')) + [] == Components(Split(path, '/'));
  }
}
