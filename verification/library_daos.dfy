/**
  The data-access records that the unique library view receives. Every text
  field is opaque: it is whatever the record's accessor returns (for a track,
  `trackNumber` is the already formatted number).
 */
module LibraryDaos {
  import opened Options

  datatype ArtistDao = ArtistDao(title: string, titleNormalized: string)

  /** `artist` is the album's parent node, absent when it has none. */
  datatype AlbumDao = AlbumDao(title: string, year: string, artist: Option<ArtistDao>)

  /** `album` is the track's parent node, absent when it has none. */
  datatype TrackDao = TrackDao(
    title: string, disc: string, trackNumber: string, uri: string, album: Option<AlbumDao>)

  /** A generic node: one of the three handled kinds, or any other kind of record. */
  datatype Node =
    | TrackNode(track: TrackDao)
    | AlbumNode(album: AlbumDao)
    | ArtistNode(artist: ArtistDao)
    | OtherNode

}
