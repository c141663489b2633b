/**
  The "normalized string" the unique library view stores on each node row.
  Rows are sorted by it, so an artist's key starts its albums' keys and an
  album's key starts its tracks' keys.
 */
module NormalizedKeys {
  import opened Options
  import opened Separated
  import opened LibraryDaos

  /** Artist key: the normalized title followed by a bar, so its fields are the title and an empty field. */
  function ArtistKey(a: ArtistDao): (k: string)
    ensures k == Join(ArtistFields(a))
  {
    a.titleNormalized + [Bar]
  }

  /**
    Album key: year and title, with the artist's normalized title prepended
    when there is an artist; the bar-join of its 2 or 3 fields.
   */
  function AlbumKey(al: AlbumDao): (k: string)
    ensures k == Join(AlbumFields(al))
    ensures |AlbumFields(al)| == (if al.artist.Some? then 3 else 2)
  {
    var normalized := al.year + [Bar] + al.title;
    JoinTwo(al.year, al.title);
    match al.artist
    case None => normalized
    case Some(artist) =>
      JoinCons(artist.titleNormalized, [al.year, al.title]);
      assert AlbumFields(al) == [artist.titleNormalized] + [al.year, al.title];
      artist.titleNormalized + [Bar] + normalized
  }

  /**
    Track key: disc, number and title, with the album's year and title and
    then the artist prepended; the bar-join of its 3, 5 or 6 fields.
   */
  function TrackKey(t: TrackDao): (k: string)
    ensures k == Join(TrackFields(t))
    ensures |TrackFields(t)| == (if t.album.None? then 3 else if t.album.value.artist.None? then 5 else 6)
  {
    var own := [t.disc, t.trackNumber, t.title];
    var normalized := t.disc + [Bar] + t.trackNumber + [Bar] + t.title;
    JoinThree(t.disc, t.trackNumber, t.title);
    match t.album
    case None =>
      assert TrackFields(t) == own;
      normalized
    case Some(album) =>
      AlbumFieldsInFront(album, own);
      var withAlbum := album.year + [Bar] + album.title + [Bar] + normalized;
      match album.artist
      case None => withAlbum
      case Some(artist) => artist.titleNormalized + [Bar] + withAlbum
  }

  /** The key of a node of one of the three handled kinds. */
  function NodeKey(node: Node): string
    requires !node.OtherNode?
  {
    match node
    case TrackNode(t) => TrackKey(t)
    case AlbumNode(al) => AlbumKey(al)
    case ArtistNode(a) => ArtistKey(a)
  }

  // The fields each key is made of, in order, as an independent description.

  function ArtistFields(a: ArtistDao): seq<string>
  {
    [a.titleNormalized, ""]
  }

  function AlbumFields(al: AlbumDao): seq<string>
  {
    (if al.artist.Some? then [al.artist.value.titleNormalized] else []) + [al.year, al.title]
  }

  function TrackFields(t: TrackDao): seq<string>
  {
    (if t.album.Some? then AlbumFields(t.album.value) else []) + [t.disc, t.trackNumber, t.title]
  }

  /** No text field the keys are made of contains a bar. */
  predicate PlainArtist(a: ArtistDao)
  {
    Bar !in a.titleNormalized
  }

  predicate PlainAlbum(al: AlbumDao)
  {
    && Bar !in al.year && Bar !in al.title
    && (al.artist.Some? ==> PlainArtist(al.artist.value))
  }

  predicate PlainTrack(t: TrackDao)
  {
    && Bar !in t.disc && Bar !in t.trackNumber && Bar !in t.title
    && (t.album.Some? ==> PlainAlbum(t.album.value))
  }

  /** Three fields join with a bar between each neighbouring pair. */
  lemma JoinThree(a: string, b: string, c: string)
    ensures Join([a, b, c]) == a + [Bar] + b + [Bar] + c
  {
    JoinCons(b, [c]);
    JoinCons(a, [b, c]);
  }

  /** Two fields join with one bar between them. */
  lemma JoinTwo(a: string, b: string)
    ensures Join([a, b]) == a + [Bar] + b
  {
  }

  /** Joining an album's fields in front of further fields puts the album key and a bar in front. */
  lemma {:induction false} AlbumFieldsInFront(al: AlbumDao, own: seq<string>)
    requires |own| >= 1
    ensures Join(AlbumFields(al) + own) == AlbumKey(al) + [Bar] + Join(own)
  {
    var withAlbum := [al.year, al.title] + own;
    JoinCons(al.title, own);
    assert [al.title] + own == withAlbum[1..];
    JoinCons(al.year, withAlbum[1..]);
    assert [al.year] + withAlbum[1..] == withAlbum;
    if al.artist.Some? {
      JoinCons(al.artist.value.titleNormalized, withAlbum);
      assert AlbumFields(al) + own == [al.artist.value.titleNormalized] + withAlbum;
    } else {
      assert AlbumFields(al) + own == withAlbum;
    }
  }

  /** A key splits back into the fields it was built from when none of them holds a bar. */
  lemma TrackKeyDecodes(t: TrackDao)
    requires PlainTrack(t)
    ensures Split(TrackKey(t)) == TrackFields(t)
  {
    SplitJoin(TrackFields(t));
  }

  lemma AlbumKeyDecodes(al: AlbumDao)
    requires PlainAlbum(al)
    ensures Split(AlbumKey(al)) == AlbumFields(al)
  {
    SplitJoin(AlbumFields(al));
  }

  lemma ArtistKeyDecodes(a: ArtistDao)
    requires PlainArtist(a)
    ensures Split(ArtistKey(a)) == ArtistFields(a)
  {
    SplitJoin(ArtistFields(a));
  }

  /** An artist's key is a proper prefix of the key of each album of that artist. */
  lemma ArtistKeyPrefixesAlbumKey(al: AlbumDao)
    requires al.artist.Some?
    ensures ArtistKey(al.artist.value) < AlbumKey(al)
  {
  }

  /** An album's key followed by a bar is a prefix of the key of each of its tracks. */
  lemma AlbumKeyPrefixesTrackKey(t: TrackDao)
    requires t.album.Some?
    ensures AlbumKey(t.album.value) + [Bar] < TrackKey(t)
  {
  }

  /** The artist's key is a proper prefix of each of its tracks' keys, through their album. */
  lemma ArtistKeyPrefixesTrackKey(t: TrackDao)
    requires t.album.Some? && t.album.value.artist.Some?
    ensures ArtistKey(t.album.value.artist.value) < TrackKey(t)
  {
    ArtistKeyPrefixesAlbumKey(t.album.value);
    AlbumKeyPrefixesTrackKey(t);
  }

  /** Two bar-free fields each followed by a bar: one starts the other only when they are equal. */
  lemma {:induction false} BarredFieldPrefix(x: string, y: string, rest: string)
    requires Bar !in x && Bar !in y
    requires x + [Bar] <= y + [Bar] + rest
    ensures x == y
  {
    var s := y + [Bar] + rest;
    // Compare the two strings at the first position where one of the fields ends.
    var k := if |x| < |y| then |x| else |y|;
    assert (x + [Bar])[k] == s[k];
    assert |x| == |y|;
    assert x == (x + [Bar])[..|x|];
    assert y == s[..|y|];
  }

  /**
    With bar-free normalized titles, an artist's key starts an album's key
    only when the album's artist has the same normalized title: sorting by
    key never puts one artist's album into another artist's group.
   */
  lemma ArtistGroupIsExact(a: ArtistDao, al: AlbumDao)
    requires al.artist.Some?
    requires PlainArtist(a) && PlainArtist(al.artist.value)
    requires ArtistKey(a) <= AlbumKey(al)
    ensures a.titleNormalized == al.artist.value.titleNormalized
  {
    BarredFieldPrefix(a.titleNormalized, al.artist.value.titleNormalized, al.year + [Bar] + al.title);
  }

  /**
    Without an artist the grouping is not exact: an album whose year equals
    an artist's normalized title has a key that starts with that artist's key,
    so it sorts inside that artist's group.
   */
  lemma ArtistlessAlbumJoinsGroup(a: ArtistDao, al: AlbumDao)
    requires al.artist.None? && al.year == a.titleNormalized
    ensures ArtistKey(a) <= AlbumKey(al)
  {
  }

  /** Likewise a track without an album whose disc equals an artist's normalized title. */
  lemma AlbumlessTrackJoinsGroup(a: ArtistDao, t: TrackDao)
    requires t.album.None? && t.disc == a.titleNormalized
    ensures ArtistKey(a) < TrackKey(t)
  {
  }

  /** The same for a track and the artist of its album. */
  lemma TrackArtistGroupIsExact(a: ArtistDao, t: TrackDao)
    requires t.album.Some? && t.album.value.artist.Some?
    requires PlainArtist(a) && PlainArtist(t.album.value.artist.value)
    requires ArtistKey(a) <= TrackKey(t)
    ensures a.titleNormalized == t.album.value.artist.value.titleNormalized
  {
    var al := t.album.value;
    BarredFieldPrefix(a.titleNormalized, al.artist.value.titleNormalized,
      al.year + [Bar] + al.title + [Bar] + t.disc + [Bar] + t.trackNumber + [Bar] + t.title);
  }

}
