/** The song catalogue service: active-only listing and lookup, soft removal,
    case-insensitive search, and resolution of a Spotify track to the one
    local song carrying its id. */
module Songs {
  import opened Common
  import opened Store
  import Spotify

  const PlaylistNotFound := "Playlist not found"
  const NotOwner := "You can only add songs to your own playlists"
  const AlreadyInPlaylist := "Song is already in this playlist"

  // ---------------------------------------------------------------------------
  // Listing, lookup, removal, search
  // ---------------------------------------------------------------------------

  predicate IsActive(s: Song) { s.isActive }

  /** The active songs, in the order the table lists them. */
  function FindAll(songs: seq<Song>): (r: seq<Song>)
    ensures forall k :: 0 <= k < |r| ==> r[k] in songs && r[k].isActive
    ensures forall k :: 0 <= k < |songs| && songs[k].isActive ==> songs[k] in r
  {
    Filter(songs, IsActive)
  }

  /** The active song with the given id, if there is one. */
  function FindOne(songs: seq<Song>, id: Id): (r: Option<Song>)
    ensures r.Some? ==> r.value in songs && r.value.id == id && r.value.isActive
    ensures r.None? <==> forall k :: 0 <= k < |songs| ==> !(songs[k].id == id && songs[k].isActive)
  {
    match FirstIndex(songs, (s: Song) => s.id == id && s.isActive)
    case None => None
    case Some(i) => Some(songs[i])
  }

  /** Soft removal: the rows with that id are kept but marked inactive; the
      store refuses the update when there is no such row. */
  function Remove(songs: seq<Song>, id: Id): (r: Result<seq<Song>>)
    ensures r.Err? <==> !HasSongId(songs, id)
    ensures r.Err? ==> r.error == RecordMissing
    ensures r.Ok? ==> |r.value| == |songs|
    ensures r.Ok? ==> forall k :: 0 <= k < |songs| ==> r.value[k].(isActive := songs[k].isActive) == songs[k]
    ensures r.Ok? ==> forall k :: 0 <= k < |songs| ==> r.value[k].isActive == (songs[k].isActive && songs[k].id != id)
    ensures r.Ok? ==> FindOne(r.value, id).None?
    ensures r.Ok? ==> forall x :: HasSongId(r.value, x) <==> HasSongId(songs, x)
    ensures r.Ok? && UniqueSongIds(songs) ==> UniqueSongIds(r.value)
    ensures r.Ok? && UniqueSpotifyIds(songs) ==> UniqueSpotifyIds(r.value)
  {
    if !HasSongId(songs, id) then Err(RecordMissing)
    else Ok(seq(|songs|, k requires 0 <= k < |songs| =>
      if songs[k].id == id then songs[k].(isActive := false) else songs[k]))
  }

  /** Soft removal keeps a consistent store consistent: no id, key or
      reference changes. */
  lemma RemoveKeepsValid(db: Db, id: Id)
    requires Valid(db) && Remove(db.songs, id).Ok?
    ensures Valid(db.(songs := Remove(db.songs, id).value))
  {
  }

  /** After removal the song is neither found nor listed; every other song
      is listed exactly as before. */
  lemma RemoveHides(songs: seq<Song>, id: Id)
    requires HasSongId(songs, id)
    ensures FindOne(Remove(songs, id).value, id).None?
    ensures forall s :: s in FindAll(Remove(songs, id).value) <==> s in FindAll(songs) && s.id != id
    ensures forall other :: other != id ==> FindOne(Remove(songs, id).value, other) == FindOne(songs, other)
  {
    var r := Remove(songs, id).value;
    forall s | s in FindAll(r) ensures s in FindAll(songs) && s.id != id {
      var k :| 0 <= k < |r| && r[k] == s;
      assert songs[k] == s;
    }
    forall s | s in FindAll(songs) && s.id != id ensures s in FindAll(r) {
      var k :| 0 <= k < |songs| && songs[k] == s;
      assert r[k] == s;
    }
    forall other | other != id ensures FindOne(r, other) == FindOne(songs, other) {
      FirstIndexAgree(songs, r, other);
    }
  }

  lemma {:induction false} FirstIndexAgree(songs: seq<Song>, r: seq<Song>, other: Id)
    requires |r| == |songs|
    requires forall k :: 0 <= k < |songs| && songs[k].id == other ==> r[k] == songs[k]
    requires forall k :: 0 <= k < |songs| && songs[k].id != other ==> r[k].id == songs[k].id
    ensures FindOne(r, other) == FindOne(songs, other)
  {
    var p := (s: Song) => s.id == other && s.isActive;
    var a := FirstIndex(songs, p);
    var b := FirstIndex(r, p);
    assert forall k :: 0 <= k < |songs| ==> p(songs[k]) == p(r[k]);
    if a.Some? && b.Some? {
      assert a.value == b.value;
    }
  }

  /** The search condition: the query occurs in the title, the artist or
      the album, ignoring case. */
  predicate Matches(s: Song, query: string) {
    ContainsIgnoringCase(s.title, query)
    || ContainsIgnoringCase(s.artist, query)
    || ContainsIgnoringCase(s.album, query)
  }

  function Search(songs: seq<Song>, query: string): (r: seq<Song>)
    ensures forall k :: 0 <= k < |r| ==> r[k] in songs && r[k].isActive && Matches(r[k], query)
    ensures forall k :: 0 <= k < |songs| && songs[k].isActive && Matches(songs[k], query) ==> songs[k] in r
  {
    Filter(songs, (s: Song) => s.isActive && Matches(s, query))
  }

  /** The empty query occurs in every string, so searching for it lists
      every active song. */
  lemma SearchEmptyListsAll(songs: seq<Song>)
    ensures Search(songs, "") == FindAll(songs)
  {
    forall s: Song ensures Matches(s, "") {
      assert StartsWith(Lower(s.title), Lower(""));
    }
    FilterAgree(songs, (s: Song) => s.isActive && Matches(s, ""), IsActive);
  }

  // ---------------------------------------------------------------------------
  // Spotify identity resolution
  // ---------------------------------------------------------------------------

  const ArtistSeparator := ", "

  /** Milliseconds to whole seconds, rounding down. */
  function MsToSeconds(ms: int): (s: int)
    ensures s * 1000 <= ms < (s + 1) * 1000
  {
    FloorDiv(ms, 1000)
  }

  function FirstImageUrl(urls: seq<string>): (r: Option<string>)
    ensures r.None? <==> |urls| == 0
    ensures r.Some? ==> r.value == urls[0]
  {
    if |urls| == 0 then None else Some(urls[0])
  }

  /** The song created for a track seen for the first time. */
  function SongFromTrack(track: Spotify.Track, id: Id): Song {
    Song(
      id := id,
      spotifyId := Some(track.id),
      title := track.name,
      artist := Join(track.artists, ArtistSeparator),
      album := track.album.name,
      duration := Some(MsToSeconds(track.durationMs)),
      releaseDate := Some(track.album.releaseDate),
      imageUrl := FirstImageUrl(track.album.imageUrls),
      previewUrl := track.previewUrl,
      spotifyUrl := Some(track.spotifyUrl),
      popularity := Some(track.popularity),
      isActive := true)
  }

  /** The artist line lists the track's artists in order: splitting it at
      the separator gives them back, as long as no artist name contains the
      separator. The duration is the whole seconds of the track's length. */
  lemma SongFromTrackSpec(track: Spotify.Track, id: Id)
    requires |track.artists| > 0
    requires forall k, i :: 0 <= k < |track.artists| ==> !OccursAt(track.artists[k], ArtistSeparator, i)
    ensures Split(SongFromTrack(track, id).artist, ArtistSeparator) == track.artists
    ensures var d := SongFromTrack(track, id).duration.value;
      d * 1000 <= track.durationMs < (d + 1) * 1000
  {
    SplitJoin(track.artists);
  }

  datatype Saved = Saved(songs: seq<Song>, song: Song)

  /** Get-or-create keyed on the Spotify id: an existing song is returned as
      it is and the table is left alone; otherwise exactly one song, mapped
      from the track, is added. */
  function SaveSpotifyTrack(songs: seq<Song>, track: Spotify.Track, newId: Id): (r: Saved)
    ensures r.song.spotifyId == Some(track.id)
    ensures r.song in r.songs
    ensures SongWithSpotifyId(songs, track.id).Some? ==> r.songs == songs
    ensures SongWithSpotifyId(songs, track.id).None? ==>
      r.songs == songs + [r.song] && r.song == SongFromTrack(track, newId)
    ensures UniqueSpotifyIds(songs) ==> UniqueSpotifyIds(r.songs)
    ensures UniqueSongIds(songs) && !HasSongId(songs, newId) ==> UniqueSongIds(r.songs)
  {
    match SongWithSpotifyId(songs, track.id)
    case Some(i) => Saved(songs, songs[i])
    case None =>
      var song := SongFromTrack(track, newId);
      var r := songs + [song];
      assert forall k :: 0 <= k < |songs| ==> r[k] == songs[k];
      Saved(r, song)
  }

  /** Saving the same track twice gives the same song and the same table as
      saving it once, whatever id the second call would have used. */
  lemma SaveSpotifyTrackIdempotent(songs: seq<Song>, track: Spotify.Track, id1: Id, id2: Id)
    ensures var once := SaveSpotifyTrack(songs, track, id1);
      SaveSpotifyTrack(once.songs, track, id2) == once
  {
    var once := SaveSpotifyTrack(songs, track, id1);
    match SongWithSpotifyId(songs, track.id)
    case Some(i) =>
    case None =>
      assert SongWithSpotifyId(once.songs, track.id) == Some(|songs|);
  }

  /** Resolving a track keeps a consistent store consistent when the id a
      new song would get is unused. */
  lemma ResolutionKeepsValid(db: Db, track: Spotify.Track, newSongId: Id)
    ensures Valid(db) && !HasSongId(db.songs, newSongId) ==>
              Valid(db.(songs := SaveSpotifyTrack(db.songs, track, newSongId).songs))
  {
    var saved := SaveSpotifyTrack(db.songs, track, newSongId);
    var db1 := db.(songs := saved.songs);
    if Valid(db) && !HasSongId(db.songs, newSongId) {
      forall i | 0 <= i < |db.playlistSongs| ensures HasSongId(db1.songs, db.playlistSongs[i].songId) {
        assert References(db);
        assert HasSongId(db.songs, db.playlistSongs[i].songId);
        var j :| 0 <= j < |db.songs| && db.songs[j].id == db.playlistSongs[i].songId;
        assert db1.songs[j] == db.songs[j];
      }
    }
  }

  // ---------------------------------------------------------------------------
  // Adding to a playlist (this service's own copy of the rule)
  // ---------------------------------------------------------------------------

  /** Checks the playlist, its owner and membership, reporting each failure
      as a plain error, then appends the song at the end of the playlist.
      The song itself is not looked up: a missing song is refused only by
      the store's reference from membership row to song. */
  function AddSongToPlaylist(db: Db, playlistId: Id, songId: Id, userId: Id): (r: Result<Db>)
    ensures playlistId !in db.playlists ==> r == Err(Internal(PlaylistNotFound))
    ensures playlistId in db.playlists && db.playlists[playlistId].userId != userId ==>
              r == Err(Internal(NotOwner))
    ensures (playlistId in db.playlists && db.playlists[playlistId].userId == userId
             && IsMember(db.playlistSongs, playlistId, songId)) ==> r == Err(Internal(AlreadyInPlaylist))
    ensures r.Ok? <==> playlistId in db.playlists && db.playlists[playlistId].userId == userId
                       && !IsMember(db.playlistSongs, playlistId, songId) && HasSongId(db.songs, songId)
    ensures r.Ok? ==> r.value.playlists == db.playlists && r.value.songs == db.songs
    ensures r.Ok? ==> r.value.playlistSongs == AppendSong(db.playlistSongs, playlistId, songId)
    ensures r.Ok? && Valid(db) ==> Valid(r.value)
  {
    if playlistId !in db.playlists then Err(Internal(PlaylistNotFound))
    else if db.playlists[playlistId].userId != userId then Err(Internal(NotOwner))
    else if IsMember(db.playlistSongs, playlistId, songId) then Err(Internal(AlreadyInPlaylist))
    else if !HasSongId(db.songs, songId) then Err(MissingReference)
    else Ok(db.(playlistSongs := AppendSong(db.playlistSongs, playlistId, songId)))
  }

  /** Fetches the track, saves it, then adds the saved song. The save is
      not undone when the add fails: a failing add still leaves the
      resolved song in the table. */
  function AddSpotifyTrackToPlaylist(db: Db, client: Spotify.Client, playlistId: Id, spotifyTrackId: string,
                                     userId: Id, newSongId: Id): (r: Effect)
    ensures Spotify.TrackById(client, spotifyTrackId).Err? ==>
              r == Effect(db, Err(Spotify.TrackById(client, spotifyTrackId).error))
    ensures Spotify.TrackById(client, spotifyTrackId).Ok? ==>
              r.db.songs == SaveSpotifyTrack(db.songs, Spotify.TrackById(client, spotifyTrackId).value, newSongId).songs
    ensures r.db.playlists == db.playlists
    ensures r.status.Ok? ==> exists k :: 0 <= k < |r.db.songs| && r.db.songs[k].id == r.status.value
                               && r.db.songs[k].spotifyId == Some(Spotify.TrackById(client, spotifyTrackId).value.id)
    ensures r.status.Ok? ==> IsMember(r.db.playlistSongs, playlistId, r.status.value)
    ensures Spotify.TrackById(client, spotifyTrackId).Ok? ==>
              var saved := SaveSpotifyTrack(db.songs, Spotify.TrackById(client, spotifyTrackId).value, newSongId);
              && (r.status.Ok? <==>
                    (playlistId in db.playlists && db.playlists[playlistId].userId == userId
                     && !IsMember(db.playlistSongs, playlistId, saved.song.id)))
              && (r.status.Ok? ==> r.status.value == saved.song.id
                                   && r.db.playlistSongs == AppendSong(db.playlistSongs, playlistId, saved.song.id))
    ensures r.status.Err? ==> r.db.playlistSongs == db.playlistSongs
    ensures Valid(db) && !HasSongId(db.songs, newSongId) ==> Valid(r.db)
  {
    match Spotify.TrackById(client, spotifyTrackId)
    case Err(e) => Effect(db, Err(e))
    case Ok(track) =>
      var saved := SaveSpotifyTrack(db.songs, track, newSongId);
      var db1 := db.(songs := saved.songs);
      ResolutionKeepsValid(db, track, newSongId);
      assert HasSongId(db1.songs, saved.song.id);
      match AddSongToPlaylist(db1, playlistId, saved.song.id, userId)
      case Err(e) => Effect(db1, Err(e))
      case Ok(db2) =>
        assert db2.playlistSongs[|db1.playlistSongs|].songId == saved.song.id;
        Effect(db2, Ok(saved.song.id))
  }
}
