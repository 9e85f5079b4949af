# update-album-artist, modelled in Dafny

The program walks the files and directories named on its command line and
collects every file below them. It keeps the files whose extension is `mp3`
or `wav`, in any ASCII case. For each kept file it reads the ID3 tag and takes
the artist field. It sets the album artist to the first entry of the
comma-separated artist list and writes the tag back. A file whose tag cannot
be read, or that has no artist, is skipped. A failed write ends the run.

This project models the core of `src/lib.rs`:

- `artist.dfy` (module `Artist`): how the album artist is derived (`split(',').next()`).
- `extensions.dfy` (module `Extensions`): `Path::file_name`, `Path::extension`,
  `eq_ignore_ascii_case` and the extension filter.
- `file_tree.dfy` (module `FileTree`): `list_files` / `_list_files` over an
  abstract directory tree.
- `configuration.dfy` (module `Configuration`): `Config::new`.
- `runner.dfy` (module `Runner`): the per-file loop of `run`.
- `strings.dfy` and `wrappers.dfy`: the `str` searching and splitting the
  program relies on, and `Option` / `Result`.

The filesystem is an input. An `Entry` is a file, a directory with its
entries in the order `fs::read_dir` yields them, or another kind of entry
(FIFO, socket, device). The keys of a `FileSystem` are the path strings that
`Path::exists` accepts, each mapped to the entry it names. `Path::exists`
follows symbolic links, so a dangling link given as an argument is not a key
and is rejected as an invalid path. Inside a directory a dangling link is an
`Other` entry: its `is_dir` is false, so the listing keeps its path. The tree
is inductive, so it is finite and acyclic by construction.

The `&mut Vec` accumulator of `_list_files` is passed into `ListFilesInto` and
returned from it. A unique borrow allows no aliasing, so threading the value
through changes nothing observable.

The tag library's answers are also inputs. `Run` receives one `FileIo` per
configured path: the outcome of the tag read, and whether the write would
succeed. `Run` returns one `Step` per file it processed. A step says whether
the file was skipped, written, or failed to write, and holds the tag it wrote.

In one place the code contradicts its own comments, and the model follows
the code. The comment on src/lib.rs:30 says "skip the first one", and the
comment at src/main.rs:9 says the first argument is the executable's
location. The usage text at src/lib.rs:139-141 lists only paths as
arguments. Yet `Config::new` takes its raw paths from `args[0..]`, so the
executable path is checked for existence and expanded like any argument. It
usually disappears only because it has no supported extension. See Findings.

Nothing removes duplicates. Each argument's expansion is appended in turn
(src/lib.rs:41-48), so a file reached from two arguments is configured once
per argument and `run` rewrites it that many times. Examples are a directory
given twice, or a directory and a file below it. `ConfigOf` states the count
of every configured path, and `RepeatedArgumentIsListedTwice` shows the
repetition.

## Model

| member | source | states |
|---|---|---|
| `Artist.AlbumArtist` | src/lib.rs:91 | the album artist is a prefix of the artist field with no comma; it is the whole field when the field has no comma, and otherwise stops exactly at the first comma, with no trimming |
| `Artist.AlbumArtistIsFirstField` | src/lib.rs:91 | any comma-free prefix that ends at the end of the field or at a comma is the album artist, so the contract determines the result |
| `Artist.AlbumArtistIsHeadOfList` | src/lib.rs:91 | the album artist is the first segment of the comma split, and joining the segments with commas gives the artist field back |
| `Artist.AlbumArtistExamples` | src/lib.rs:91 | "A,B,C" gives "A", "A, B" gives "A", " A,B" gives " A", "Solo" gives "Solo", "" gives "", ",B" gives "" |
| `Strings.Split` | src/lib.rs:91 | `str::split`: always at least one segment, and no segment contains the separator; `JoinSplit` and `SplitJoin` below show it loses nothing |
| `Strings.JoinSplit` | src/lib.rs:91 | splitting on a separator loses nothing: the segments joined with it give the original text |
| `Strings.SplitJoin` | src/lib.rs:91 | segments without the separator, joined and split again, come back unchanged |
| `Extensions.Components` | src/lib.rs:52 | the named components of a `/`-split path: every one is a segment of the path and none is empty or `.` (`ComponentsAppend` below: it works segment by segment) |
| `Extensions.FileName` | src/lib.rs:52 | `Path::file_name`, the last component: never empty, `.` or `..` and free of `/`; a plain name is its own file name; below, `FileNameOfChild` gives `name` for `d/name` whatever `d` is, and `TrailingSeparatorIsIgnored` shows a trailing `/` changes nothing |
| `Extensions.SplitChild` | src/lib.rs:52 | splitting `d/name` on `/` gives the segments of `d` followed by `name`, for any `d` |
| `Extensions.ComponentsAppend` | src/lib.rs:52 | the components of two runs of segments are the components of each, concatenated |
| `Extensions.FileNameOfChild` | src/lib.rs:52 | for any directory prefix `d`, the file name of `d/name` is `name` |
| `Extensions.Extension` | src/lib.rs:52 | `Path::extension`: none without a file name; when present it contains no `.` and no `/`; `NameExtension` says which part of the file name it is |
| `Extensions.NameExtension` | src/lib.rs:52 | a name has an extension exactly when it has a `.` after its first character; the extension is the dot-free text after the last `.`, behind a non-empty stem |
| `Extensions.ExtensionOfBareName` | src/lib.rs:52 | `stem.ext` with a non-empty stem and a dot-free `ext` has extension `ext` |
| `Extensions.LastComponentDecides` | src/lib.rs:52 | for any directory prefix `d`, `d/name` has the same extension as `name` and passes the filter exactly when `name` does |
| `Extensions.TrailingSeparatorIsIgnored` | src/lib.rs:52 | for any path, a trailing `/` changes neither the file name nor the filter's verdict |
| `Extensions.EqIgnoreAsciiCase` | src/lib.rs:53 | `eq_ignore_ascii_case`, characterised by `EqIgnoreAsciiCaseIsLoweredEquality` below |
| `Extensions.EqIgnoreAsciiCaseIsLoweredEquality` | src/lib.rs:53 | ASCII case-insensitive equality holds exactly when the two strings are equal after lowering ASCII capitals |
| `Extensions.IsSupported` | src/lib.rs:52-57 | the filter's predicate, characterised by `IsSupportedIff` below |
| `Extensions.MatchesAllowListIff` | src/lib.rs:53 | an extension matches an allow-listed one, ignoring ASCII case, exactly when its lowered form is allow-listed |
| `Extensions.IsSupportedIff` | src/lib.rs:52-57 | a path is kept exactly when it has an extension whose ASCII-lowered form is `mp3` or `wav` |
| `Extensions.ListedExtensionPasses` | src/lib.rs:52-57 | `stem.ext` whose extension matches an allow-listed one, ignoring ASCII case, is kept |
| `Extensions.UpperCaseExtensionPasses` | src/lib.rs:9-12 | `stem.MP3` is kept for every plain stem |
| `Extensions.MixedCaseExtensionPasses` | src/lib.rs:9-12 | `stem.Wav` is kept for every plain stem |
| `Extensions.UnlistedExtensionIsDropped` | src/lib.rs:52-57 | `stem.ext` whose extension matches neither allow-listed one is dropped |
| `Extensions.OtherExtensionIsDropped` | src/lib.rs:52-57 | `stem.flac` is dropped for every plain stem |
| `Extensions.NamesWithoutExtensionAreDropped` | src/lib.rs:52-57 | `song` and `.mp3` have no extension and are dropped |
| `Extensions.NameWithoutDotIsDropped` | src/lib.rs:52-57 | every plain name without a dot is dropped |
| `Extensions.KeepSupported` | src/lib.rs:51-58 | the filter's output holds exactly the supported input paths, each with its number of occurrences, and is no longer than the input |
| `Extensions.KeepSupportedIsSubsequence` | src/lib.rs:51-58 | the filter's output is an order-preserving subsequence of its input |
| `Extensions.KeepSupportedIdempotent` | src/lib.rs:51-58 | filtering twice gives the same result as filtering once |
| `Extensions.KeepSupportedSingle` | src/lib.rs:51-58 | a single supported path passes the filter unchanged |
| `Extensions.KeepSupportedAppend` | src/lib.rs:51-58 | filtering a concatenation is concatenating the filtered parts |
| `FileTree.Listing` | src/lib.rs:120-132 | what `_list_files` appends, characterised by `ListingIsNonDirDescendants` below |
| `FileTree.ListingUpTo` | src/lib.rs:123-130 | what the loop has appended after the first `k` entries, characterised by `ListingUpToIsNonDirDescendants` |
| `FileTree.ListFilesInto` | src/lib.rs:120-132 | `_list_files` appends to the accumulator exactly the listing of the entry: nothing for a non-directory, and for a directory its entries in order, recursing into subdirectories |
| `FileTree.ListFiles` | src/lib.rs:115-119 | `list_files` returns the paths of all entries below the directory that are not directories, in depth-first pre-order |
| `FileTree.ListingIsNonDirDescendants` | src/lib.rs:120-132 | the recursive listing equals the non-directory entries of the pre-order traversal of the tree |
| `FileTree.ListingUpToIsNonDirDescendants` | src/lib.rs:123-130 | after the first `k` entries, the loop has appended the non-directory paths of the pre-order traversal of those entries |
| `FileTree.NonDirPathsMembership` | src/lib.rs:124-129 | a path is listed exactly when some non-directory entry has it |
| `FileTree.NonDirPathsOfDistinct` | src/lib.rs:124-129 | when entries have distinct paths, each non-directory path is listed once and no directory path is listed |
| `FileTree.ListingComplete` | src/lib.rs:115-132 | over a tree with distinct paths, `list_files` returns every non-directory entry below the directory, each once, and never a directory |
| `Configuration.FirstMissing` | src/lib.rs:34-38 | the existence check stops at the first raw path that does not exist, and finds none only when every raw path exists |
| `Configuration.Expansion` | src/lib.rs:41-48 | a raw path naming a file contributes itself; one naming a directory contributes every non-directory entry below it in pre-order; anything else contributes nothing |
| `Configuration.Expand` | src/lib.rs:41-48 | every path contributed by any raw path is gathered |
| `Configuration.ExpandMembership` | src/lib.rs:41-48 | a path is gathered exactly when it comes from expanding one of the raw paths |
| `Configuration.ConfigFrom` | src/lib.rs:30-58 | succeeds exactly when every raw path exists; a failure is an invalid-path error naming a raw path that does not exist; on success the paths are exactly the supported gathered ones, each as often as it was gathered |
| `Configuration.ConfigOf` | src/lib.rs:18-62 | "No Paths Given" exactly when there is at most one argument; otherwise an invalid-path error names the first missing argument, and any missing argument gives that error whatever the tree holds; on success every argument exists and the paths are exactly the supported expanded ones; each configured path occurs exactly as often as expansion gathered it, so nothing is deduplicated |
| `Configuration.RepeatedArgumentIsListedTwice` | src/lib.rs:41-58 | an existing argument given twice contributes its supported paths twice, one copy after the other |
| `Configuration.RepeatedFileIsConfiguredTwice` | src/lib.rs:41-58 | a supported file named twice is configured twice |
| `Configuration.NewConfig` | src/lib.rs:18-62 | the method with its two loops (check every raw path, then expand) and the filter returns `ConfigOf` |
| `Configuration.ConfigPathsOrigin` | src/lib.rs:41-58 | a configured path is a supported path that is either an argument naming a file or listed below an argument naming a directory, and every such path is configured |
| `Configuration.ConfigPathsInOrder` | src/lib.rs:41-58 | the configured paths keep the order in which expansion gathered them |
| `Configuration.ExecutableNameIsChecked` | src/lib.rs:30-38 | started by a name that is not a path in the working directory, the program fails on that name although its real argument exists |
| `Configuration.ConfigSkippingExecutable` | src/lib.rs:30 | skipping `args[0]`: an invalid-path error names one of the real arguments, and when all real arguments exist the configuration succeeds; on success the paths are exactly the supported ones gathered from the real arguments |
| `Configuration.ExecutableNameIsIgnored` | src/lib.rs:30 | skipping `args[0]`, the result no longer depends on it, and the failing start above succeeds |
| `Runner.StepOf` | src/lib.rs:74-99 | an unreadable tag or a missing artist skips the file; otherwise the tag is written with its artist kept and its album artist set to the derived value, and the step fails exactly when the write fails |
| `Runner.Run` | src/lib.rs:70-103 | files are processed in order, each as `StepOf` decides; skips never stop the run; it succeeds exactly when every file was processed without a failed write; otherwise it stops at the first failed write, returns its error and processes no later file |
| `Runner.Mp3InDirectoryIsSupported` | src/lib.rs:52-57 | `a.mp3` is kept below any directory |
| `Runner.TextIsDropped` | src/lib.rs:52-57 | `stem.txt` is dropped for every plain stem |
| `Runner.TextInDirectoryIsDropped` | src/lib.rs:52-57 | `b.txt` is dropped below any directory |
| `Runner.OnlyTheMp3IsConfigured` | src/lib.rs:18-62 | run on a directory holding `a.mp3` and `b.txt`, only `dir/a.mp3` is configured; the executable and the text file are filtered out |
| `Runner.FirstArtistBecomesAlbumArtist` | src/lib.rs:83-95 | a file with artist "X,Y" is written with album artist "X" and its artist unchanged |

## Left out

- Real filesystem access (`Path::exists`, `is_file`, `is_dir`, `fs::read_dir`). These are replaced by the `FileSystem` map and the `Entry` tree, a fixed snapshot. Changes made while the program runs are not modelled.
- The panics of `fs::read_dir(..).unwrap()` and `path_result.unwrap()`: every listed directory is assumed readable.
- Symbolic links. `is_file` and `is_dir` follow them. A link cycle would make the recursion unbounded, and an inductive tree cannot express one.
- The order `fs::read_dir` yields entries in is an input (the order of `entries`), not something the model decides.
- `OsString` and its encoding: paths and extensions are strings of characters. Only Unix path syntax is modelled (`/` separators, no Windows prefixes or `\`).
- The `id3` library (`Tag::read_from_path`, `tag.artist()`, `set_album_artist`, `write_to_path` with `Version::Id3v24`). Only its outcomes are modelled: read failure or a tag, the artist `Option`, write success or failure. Tag fields other than artist and album artist, and the on-disk encoding, are not modelled.
- Runner.Run: the per-file answers come as a sequence the same length as the configured paths. This is a condition on the model's input, not a demand of the source. A path listed twice gets an answer per occurrence.
- The error values: `ConfigError` and `RunError` carry the kind and the path, not the text of the messages.
- `println!` and `eprintln!` output and the `help()` usage text (src/lib.rs:134-145): pure I/O.
- `src/main.rs`: argument collection, exit codes and the wiring of `Config::new` to `run` are not part of this model.

## Findings

| source | as written | input that shows it | evidently intended | confidence | as-written member | corrected member |
|---|---|---|---|---|---|---|
| src/lib.rs:30 | the raw paths are `args[0..]`, so the executable path must exist as a path and is expanded like an argument | args `["update-album-artist", "music"]`, where `music` is an existing directory and the working directory holds no entry named `update-album-artist` (the program was found on the search path): result "Invalid path(s) given" naming `update-album-artist` | skip the executable path, as the comment on that line says: raw paths are `args[1..]` | high; not executed | `Configuration.ExecutableNameIsChecked` | `Configuration.ConfigSkippingExecutable` |

`Configuration.NewConfig` and `Configuration.ConfigOf` model the code as
written. The corrected definition stands beside them, with
`Configuration.ExecutableNameIsIgnored` proving that its result does not
depend on `args[0]`.
