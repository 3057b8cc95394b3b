/** The relational store the playlist and song services share, as an
    immutable value: playlists by id, the song table and the playlist
    membership table in row order, with the constraints the schema enforces
    stated as predicates. */
module Store {
  import opened Common

  datatype Playlist = Playlist(userId: Id, isPublic: bool, isActive: bool)

  /** A catalogue song. `spotifyId` is absent for songs created directly. */
  datatype Song = Song(
    id: Id,
    spotifyId: Option<string>,
    title: string,
    artist: string,
    album: string,
    duration: Option<int>,
    releaseDate: Option<int>,
    imageUrl: Option<string>,
    previewUrl: Option<string>,
    spotifyUrl: Option<string>,
    popularity: Option<int>,
    isActive: bool)

  /** One membership row: `songId` is in playlist `playlistId` at position `order`. */
  datatype PlaylistSong = PlaylistSong(playlistId: Id, songId: Id, order: int)

  datatype Db = Db(playlists: map<Id, Playlist>, songs: seq<Song>, playlistSongs: seq<PlaylistSong>)

  /** The outcome of a call whose writes are not wrapped in a transaction:
      the store after every write that ran, and the id of the song added, or
      the error that stopped the call. */
  datatype Effect = Effect(db: Db, status: Result<Id>)

  // ---------------------------------------------------------------------------
  // Song table
  // ---------------------------------------------------------------------------

  predicate HasSongId(songs: seq<Song>, id: Id) {
    exists i :: 0 <= i < |songs| && songs[i].id == id
  }

  predicate UniqueSongIds(songs: seq<Song>) {
    forall i, j :: 0 <= i < j < |songs| ==> songs[i].id != songs[j].id
  }

  /** The unique index on `spotifyId`: at most one song per external id. */
  predicate UniqueSpotifyIds(songs: seq<Song>) {
    forall i, j :: 0 <= i < j < |songs| && songs[i].spotifyId.Some? ==> songs[i].spotifyId != songs[j].spotifyId
  }

  function SongWithId(songs: seq<Song>, id: Id): (r: Option<nat>)
    ensures r.Some? ==> r.value < |songs| && songs[r.value].id == id
    ensures r.None? <==> !HasSongId(songs, id)
  {
    FirstIndex(songs, (s: Song) => s.id == id)
  }

  function SongWithSpotifyId(songs: seq<Song>, spotifyId: string): (r: Option<nat>)
    ensures r.Some? ==> r.value < |songs| && songs[r.value].spotifyId == Some(spotifyId)
    ensures r.None? <==> forall i :: 0 <= i < |songs| ==> songs[i].spotifyId != Some(spotifyId)
  {
    FirstIndex(songs, (s: Song) => s.spotifyId == Some(spotifyId))
  }

  // ---------------------------------------------------------------------------
  // Membership table
  // ---------------------------------------------------------------------------

  predicate IsMember(rows: seq<PlaylistSong>, playlistId: Id, songId: Id) {
    exists i :: 0 <= i < |rows| && rows[i].playlistId == playlistId && rows[i].songId == songId
  }

  /** The composite unique key (playlistId, songId): a song is in a playlist at most once. */
  predicate UniqueMembership(rows: seq<PlaylistSong>) {
    forall i, j :: 0 <= i < j < |rows| && rows[i].playlistId == rows[j].playlistId ==> rows[i].songId != rows[j].songId
  }

  /** The largest `order` among a playlist's rows; None when it has none. */
  function MaxOrder(rows: seq<PlaylistSong>, playlistId: Id): (r: Option<int>)
    ensures r.None? <==> forall i :: 0 <= i < |rows| ==> rows[i].playlistId != playlistId
    ensures r.Some? ==> exists i :: 0 <= i < |rows| && rows[i].playlistId == playlistId && rows[i].order == r.value
    ensures r.Some? ==> forall i :: 0 <= i < |rows| && rows[i].playlistId == playlistId ==> rows[i].order <= r.value
  {
    if |rows| == 0 then None
    else
      var rest := MaxOrder(rows[1..], playlistId);
      assert forall i :: 1 <= i < |rows| ==> rows[i] == rows[1..][i - 1];
      if rows[0].playlistId != playlistId then rest
      else match rest
        case None => Some(rows[0].order)
        case Some(m) => Some(if rows[0].order >= m then rows[0].order else m)
  }

  /** The position given to a song appended to a playlist: one past the
      current largest, or 1 for an empty playlist. */
  function NextOrder(rows: seq<PlaylistSong>, playlistId: Id): (n: int)
    ensures forall i :: 0 <= i < |rows| && rows[i].playlistId == playlistId ==> rows[i].order < n
    ensures (forall i :: 0 <= i < |rows| ==> rows[i].playlistId != playlistId) ==> n == 1
    ensures (exists i :: 0 <= i < |rows| && rows[i].playlistId == playlistId) ==>
              exists i :: 0 <= i < |rows| && rows[i].playlistId == playlistId && rows[i].order == n - 1
  {
    match MaxOrder(rows, playlistId)
    case None => 1
    case Some(m) => m + 1
  }

  /** The membership table after appending `songId` at the end of the playlist. */
  function AppendSong(rows: seq<PlaylistSong>, playlistId: Id, songId: Id): (r: seq<PlaylistSong>)
    ensures |r| == |rows| + 1 && r[..|rows|] == rows
    ensures r[|rows|].playlistId == playlistId && r[|rows|].songId == songId
    ensures r[|rows|].order == NextOrder(rows, playlistId)
    ensures forall i :: 0 <= i < |rows| && rows[i].playlistId == playlistId ==> rows[i].order < r[|rows|].order
    ensures (forall i :: 0 <= i < |rows| ==> rows[i].playlistId != playlistId) ==> r[|rows|].order == 1
    ensures UniqueMembership(rows) && !IsMember(rows, playlistId, songId) ==> UniqueMembership(r)
  {
    rows + [PlaylistSong(playlistId, songId, NextOrder(rows, playlistId))]
  }

  // ---------------------------------------------------------------------------
  // Schema constraints
  // ---------------------------------------------------------------------------

  /** Every membership row points at an existing playlist and song. */
  predicate References(db: Db) {
    forall i :: 0 <= i < |db.playlistSongs| ==>
      db.playlistSongs[i].playlistId in db.playlists && HasSongId(db.songs, db.playlistSongs[i].songId)
  }

  predicate Valid(db: Db) {
    && UniqueSongIds(db.songs)
    && UniqueSpotifyIds(db.songs)
    && UniqueMembership(db.playlistSongs)
    && References(db)
  }
}
