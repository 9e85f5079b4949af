/**
 * How the album artist is derived from a track's artist field: the first
 * entry of the comma-separated artist list, taken verbatim.
 */
module Artist {
  import opened Wrappers
  import opened Strings

  /** `Iterator::next` on the segments of a split: the first one, if any. */
  function FirstSegment(parts: seq<string>): Option<string>
  {
    if |parts| > 0 then Some(parts[0]) else None
  }

  /**
   * `artist.split(',').next().unwrap_or_else(|| "")`. The result is the text
   * before the first ASCII comma, or the whole field when it has no comma;
   * nothing is trimmed.
   */
  function AlbumArtist(artist: string): (r: string)
    ensures r <= artist
    ensures ',' !in r
    ensures ',' !in artist ==> r == artist
    ensures ',' in artist ==> |r| < |artist| && artist[|r|] == ','
  {
    FirstSegment(Split(artist, ',')).UnwrapOr("")
  }

  /** The two halves of `AlbumArtist`'s contract pin the result down: it is the only such prefix. */
  lemma AlbumArtistIsFirstField(artist: string, prefix: string)
    requires prefix <= artist && ',' !in prefix
    requires |prefix| == |artist| || artist[|prefix|] == ','
    ensures AlbumArtist(artist) == prefix
  {
  }

  /** The field is a list: re-joining the album artist with the remaining entries gives the field back. */
  lemma AlbumArtistIsHeadOfList(artist: string)
    ensures var parts := Split(artist, ',');
            AlbumArtist(artist) == parts[0] && Join(parts, ',') == artist
  {
    JoinSplit(artist, ',');
  }

  /** The worked cases: no trimming after the comma nor before the first entry. */
  lemma AlbumArtistExamples()
    ensures AlbumArtist("A,B,C") == "A"
    ensures AlbumArtist("A, B") == "A"
    ensures AlbumArtist(" A,B") == " A"
    ensures AlbumArtist("Solo") == "Solo"
    ensures AlbumArtist("") == ""
    ensures AlbumArtist(",B") == ""
  {
    AlbumArtistIsFirstField("A,B,C", "A");
    AlbumArtistIsFirstField("A, B", "A");
    AlbumArtistIsFirstField(" A,B", " A");
    AlbumArtistIsFirstField(",B", "");
  }
}
