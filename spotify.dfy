/**
 * Turning a catalog search response into song records. The request itself is
 * not modelled: the response it would receive is an input.
 */
module Spotify {
  import opened Wrappers

  datatype SearchKind = Track | Playlist

  /**
   * One item of a response: its name, the names of its artists (tracks), its
   * owner's display name (playlists) and its Spotify link.
   */
  datatype Item = Item(name: string, artistNames: seq<string>, ownerDisplayName: string, spotifyUrl: string)

  /** A search response: the status code and the track and playlist item lists. */
  datatype SearchResponse = SearchResponse(statusCode: int, trackItems: seq<Item>, playlistItems: seq<Item>)

  datatype Song = Song(name: string, artist: string, url: string)

  /** The item list read from the response for the requested kind. */
  function ItemsOf(response: SearchResponse, kind: SearchKind): seq<Item>
  {
    if kind == Track then response.trackItems else response.playlistItems
  }

  /** An item can be attributed: a track must list at least one artist. */
  predicate Attributable(item: Item, kind: SearchKind)
  {
    kind == Playlist || item.artistNames != []
  }

  /** The attribution of a song: its first artist for a track, the owner for a playlist. */
  function Attribution(item: Item, kind: SearchKind): string
    requires Attributable(item, kind)
  {
    if kind == Track then item.artistNames[0] else item.ownerDisplayName
  }

  /**
   * `songs` holds one record per item, in item order: the item's name and link,
   * and as artist the first artist of a track or the owner of a playlist.
   */
  predicate RecordsOf(songs: seq<Song>, items: seq<Item>, kind: SearchKind)
  {
    |songs| == |items| &&
    forall i :: 0 <= i < |items| ==>
      songs[i].name == items[i].name &&
      songs[i].url == items[i].spotifyUrl &&
      (kind == Track ==> items[i].artistNames != [] && songs[i].artist == items[i].artistNames[0]) &&
      (kind == Playlist ==> songs[i].artist == items[i].ownerDisplayName)
  }

  /**
   * The song records of a search response. A status other than 200 gives an
   * empty list. Otherwise each item yields one record, in item order; a track
   * that lists no artist makes the lookup of its first artist fail, and then
   * there is no list at all (None).
   */
  method GetSongsByMood(response: SearchResponse, kind: SearchKind) returns (songs: Option<seq<Song>>)
    ensures response.statusCode != 200 ==> songs == Some([])
    ensures response.statusCode == 200 ==>
      (songs.Some? <==> forall i :: 0 <= i < |ItemsOf(response, kind)| ==> Attributable(ItemsOf(response, kind)[i], kind))
    ensures response.statusCode == 200 && songs.Some? ==> RecordsOf(songs.value, ItemsOf(response, kind), kind)
  {
    if response.statusCode != 200 {
      return Some([]);
    }
    var items := ItemsOf(response, kind);
    var acc: seq<Song> := [];
    for n := 0 to |items|
      invariant |acc| == n
      invariant forall i :: 0 <= i < n ==> Attributable(items[i], kind)
      invariant forall i :: 0 <= i < n ==>
        acc[i] == Song(items[i].name, Attribution(items[i], kind), items[i].spotifyUrl)
    {
      var item := items[n];
      if kind == Track && item.artistNames == [] {
        return None;
      }
      var artist := if kind == Track then item.artistNames[0] else item.ownerDisplayName;
      acc := acc + [Song(item.name, artist, item.spotifyUrl)];
    }
    return Some(acc);
  }
}
