/**
 * The recursive directory listing (`list_files` / `_list_files`) over an
 * abstract, finite and acyclic directory tree.
 */
module FileTree {

  /**
   * One entry of the filesystem, with the path under which the program sees
   * it. A directory holds its entries in the order `fs::read_dir` yields
   * them. `Other` is an entry that is neither a regular file nor a
   * directory: a FIFO, a socket or a device. Inside a directory it is also
   * a dangling symbolic link, whose `is_dir` is false and whose path the
   * listing therefore keeps; a dangling link named on the command line
   * does not exist at all (see `Configuration.FileSystem`).
   */
  datatype Entry =
    | File(path: string)
    | Dir(path: string, entries: seq<Entry>)
    | Other(path: string)

  /**
   * What `_list_files(vec, path)` appends to `vec`: nothing unless `e` is a
   * directory; for a directory, each of its entries in turn, recursing into
   * subdirectories and appending every other entry's path.
   */
  function Listing(e: Entry): seq<string>
    decreases e, 1
  {
    if e.Dir? then ListingUpTo(e, |e.entries|) else []
  }

  /** What the loop of `_list_files` has appended after visiting the first `k` entries of `d`. */
  function ListingUpTo(d: Entry, k: nat): seq<string>
    requires d.Dir? && k <= |d.entries|
    decreases d, 0, k
  {
    if k == 0 then []
    else
      var child := d.entries[k - 1];
      ListingUpTo(d, k - 1) + (if child.Dir? then Listing(child) else [child.path])
  }

  /** Every entry strictly below `e`, in depth-first pre-order (each entry before its contents). */
  function Descendants(e: Entry): seq<Entry>
    decreases e, 1
  {
    if e.Dir? then DescendantsUpTo(e, |e.entries|) else []
  }

  /** The entries below the first `k` entries of `d`, those entries included, in pre-order. */
  function DescendantsUpTo(d: Entry, k: nat): seq<Entry>
    requires d.Dir? && k <= |d.entries|
    decreases d, 0, k
  {
    if k == 0 then []
    else
      var child := d.entries[k - 1];
      DescendantsUpTo(d, k - 1) + [child] + Descendants(child)
  }

  /** The paths of the entries of `s` that are not directories, in order. */
  function NonDirPaths(s: seq<Entry>): seq<string>
  {
    if s == [] then []
    else
      var last := s[|s| - 1];
      NonDirPaths(s[..|s| - 1]) + (if last.Dir? then [] else [last.path])
  }

  /** No two entries in `s` share a path, as on a real filesystem. */
  ghost predicate DistinctPaths(s: seq<Entry>)
  {
    forall i, j :: 0 <= i < j < |s| ==> s[i].path != s[j].path
  }

  /** `NonDirPaths` works entry by entry, so it distributes over concatenation. */
  lemma {:induction false} NonDirPathsAppend(a: seq<Entry>, b: seq<Entry>)
    ensures NonDirPaths(a + b) == NonDirPaths(a) + NonDirPaths(b)
    decreases |b|
  {
    if b == [] {
      assert a + b == a;
    } else {
      var b' := b[..|b| - 1];
      assert (a + b)[..|a + b| - 1] == a + b';
      NonDirPathsAppend(a, b');
    }
  }

  /** A path is listed exactly when some entry of `s` that is not a directory has it. */
  lemma {:induction false} NonDirPathsMembership(s: seq<Entry>, p: string)
    ensures p in NonDirPaths(s) <==> exists i :: 0 <= i < |s| && !s[i].Dir? && s[i].path == p
  {
    if s != [] {
      var s' := s[..|s| - 1];
      NonDirPathsMembership(s', p);
      if p in NonDirPaths(s') {
        var i :| 0 <= i < |s'| && !s'[i].Dir? && s'[i].path == p;
        assert s[i] == s'[i];
      }
      if exists i :: 0 <= i < |s| && !s[i].Dir? && s[i].path == p {
        var i :| 0 <= i < |s| && !s[i].Dir? && s[i].path == p;
        if i < |s| - 1 { assert s'[i] == s[i]; }
      }
    }
  }

  /** Among entries with distinct paths, every non-directory path is listed once and no directory's path is listed. */
  lemma {:induction false} NonDirPathsOfDistinct(s: seq<Entry>)
    requires DistinctPaths(s)
    ensures forall i, j :: 0 <= i < j < |NonDirPaths(s)| ==> NonDirPaths(s)[i] != NonDirPaths(s)[j]
    ensures forall i :: 0 <= i < |s| && s[i].Dir? ==> s[i].path !in NonDirPaths(s)
  {
    if s != [] {
      var s' := s[..|s| - 1];
      var last := s[|s| - 1];
      assert DistinctPaths(s') by {
        forall i, j | 0 <= i < j < |s'| ensures s'[i].path != s'[j].path {
          assert s'[i] == s[i] && s'[j] == s[j];
        }
      }
      NonDirPathsOfDistinct(s');
      NonDirPathsMembership(s', last.path);
      forall i | 0 <= i < |s| && s[i].Dir? ensures s[i].path !in NonDirPaths(s) {
        NonDirPathsMembership(s, s[i].path);
      }
    }
  }

  /**
   * The listing is exactly the paths of the entries below `e` that are not
   * directories, in depth-first pre-order.
   */
  lemma {:induction false} ListingIsNonDirDescendants(e: Entry)
    ensures Listing(e) == NonDirPaths(Descendants(e))
    decreases e, 1
  {
    if e.Dir? {
      ListingUpToIsNonDirDescendants(e, |e.entries|);
    }
  }

  /** `ListingIsNonDirDescendants` for the first `k` entries of a directory. */
  lemma {:induction false} ListingUpToIsNonDirDescendants(d: Entry, k: nat)
    requires d.Dir? && k <= |d.entries|
    ensures ListingUpTo(d, k) == NonDirPaths(DescendantsUpTo(d, k))
    decreases d, 0, k
  {
    if k > 0 {
      var child := d.entries[k - 1];
      var before := DescendantsUpTo(d, k - 1);
      ListingUpToIsNonDirDescendants(d, k - 1);
      ChildListing(child);
      calc {
        NonDirPaths(DescendantsUpTo(d, k));
        { assert DescendantsUpTo(d, k) == before + ([child] + Descendants(child)); }
        NonDirPaths(before + ([child] + Descendants(child)));
        { NonDirPathsAppend(before, [child] + Descendants(child)); }
        NonDirPaths(before) + NonDirPaths([child] + Descendants(child));
      }
    }
  }

  /** What visiting one entry contributes: its own path if it is not a directory, else its listing. */
  lemma {:induction false} ChildListing(child: Entry)
    ensures NonDirPaths([child] + Descendants(child)) == if child.Dir? then Listing(child) else [child.path]
    decreases child, 2
  {
    ListingIsNonDirDescendants(child);
    NonDirPathsAppend([child], Descendants(child));
    assert [child][..0] == [];
  }

  /**
   * `list_files` over a tree whose entries have distinct paths returns every
   * entry below `e` that is not a directory, each once, and no directory.
   */
  lemma ListingComplete(e: Entry)
    requires DistinctPaths(Descendants(e))
    ensures forall p :: p in Listing(e) <==>
              exists i :: 0 <= i < |Descendants(e)| && !Descendants(e)[i].Dir? && Descendants(e)[i].path == p
    ensures forall i, j :: 0 <= i < j < |Listing(e)| ==> Listing(e)[i] != Listing(e)[j]
    ensures forall i :: 0 <= i < |Descendants(e)| && Descendants(e)[i].Dir? ==> Descendants(e)[i].path !in Listing(e)
  {
    ListingIsNonDirDescendants(e);
    NonDirPathsOfDistinct(Descendants(e));
    forall p ensures p in Listing(e) <==>
        exists i :: 0 <= i < |Descendants(e)| && !Descendants(e)[i].Dir? && Descendants(e)[i].path == p {
      NonDirPathsMembership(Descendants(e), p);
    }
  }

  /**
   * `_list_files(vec, path)`: when `e` is a directory, walk its entries in
   * order, recursing into subdirectories and appending every other entry's
   * path to the accumulator. The `&mut Vec` accumulator is passed in and
   * returned.
   */
  method ListFilesInto(vec: seq<string>, e: Entry) returns (out: seq<string>)
    ensures out == vec + Listing(e)
    decreases e
  {
    out := vec;
    if e.Dir? {
      var i := 0;
      while i < |e.entries|
        invariant 0 <= i <= |e.entries|
        invariant out == vec + ListingUpTo(e, i)
      {
        var child := e.entries[i];
        if child.Dir? {
          out := ListFilesInto(out, child);
        } else {
          out := out + [child.path];
        }
        i := i + 1;
      }
    }
  }

  /**
   * `list_files(path)`: the listing of `e` collected into a fresh vector,
   * which is every entry below `e` that is not a directory, in depth-first
   * pre-order.
   */
  method ListFiles(e: Entry) returns (files: seq<string>)
    ensures files == Listing(e)
    ensures files == NonDirPaths(Descendants(e))
  {
    files := ListFilesInto([], e);
    ListingIsNonDirDescendants(e);
  }
}
