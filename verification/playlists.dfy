/** The playlist service: visibility-checked reads, owner-checked soft
    removal, and the membership operations (add, remove, reorder, add a
    Spotify track), each a transition of the shared store. */
module Playlists {
  import opened Common
  import opened Sorting
  import opened Store
  import Spotify
  import Songs

  const PlaylistNotFound := "Playlist not found"
  const NoAccess := "You do not have access to this playlist"
  const NotOwnerDelete := "You can only delete your own playlists"
  const NotOwnerAdd := "You can only add songs to your own playlists"
  const NotOwnerRemove := "You can only remove songs from your own playlists"
  const NotOwnerReorder := "You can only reorder songs in your own playlists"
  const SongNotFound := "Song not found"
  const AlreadyInPlaylist := "Song is already in this playlist"

  // ---------------------------------------------------------------------------
  // Reads
  // ---------------------------------------------------------------------------

  /** A viewer id that counts as signed in: the listing tests the id for
      truthiness, so the empty id counts as nobody. */
  predicate SignedIn(viewer: Option<Id>) { viewer.Some? && viewer.value != "" }

  /** The ids of the playlists listed to the viewer: with a viewer, the
      active playlists that are theirs or public; without one, the active
      public ones. */
  function FindAll(db: Db, viewer: Option<Id>): (r: set<Id>)
    ensures forall id :: id in r ==> id in db.playlists && db.playlists[id].isActive
    ensures forall id :: id in db.playlists && db.playlists[id].isActive && db.playlists[id].isPublic ==> id in r
    ensures forall id :: id in r && !db.playlists[id].isPublic ==> viewer == Some(db.playlists[id].userId)
    ensures !SignedIn(viewer) ==> forall id :: id in r ==> db.playlists[id].isPublic
    ensures SignedIn(viewer) ==>
              forall id :: id in db.playlists && db.playlists[id].isActive && db.playlists[id].userId == viewer.value ==> id in r
  {
    if SignedIn(viewer) then
      set id | id in db.playlists && db.playlists[id].isActive
                && (db.playlists[id].userId == viewer.value || db.playlists[id].isPublic)
    else
      set id | id in db.playlists && db.playlists[id].isActive && db.playlists[id].isPublic
  }

  /** A playlist with its membership rows, in ascending `order`. */
  datatype Listing = Listing(playlist: Playlist, rows: seq<PlaylistSong>)

  function OrderKey(row: PlaylistSong): int { row.order }

  predicate InPlaylist(playlistId: Id, row: PlaylistSong) { row.playlistId == playlistId }

  /** The membership rows of one playlist, in ascending `order`. */
  function OrderedRows(rows: seq<PlaylistSong>, playlistId: Id): (r: seq<PlaylistSong>)
    ensures SortedBy(r, OrderKey)
    ensures multiset(r) == multiset(Filter(rows, (row: PlaylistSong) => InPlaylist(playlistId, row)))
  {
    SortBy(Filter(rows, (row: PlaylistSong) => InPlaylist(playlistId, row)), OrderKey)
  }

  /** Nothing for a missing or inactive playlist; a refusal for a private
      playlist seen by anyone but its owner (or by nobody); otherwise the
      playlist with its rows in order. */
  function FindOne(db: Db, id: Id, viewer: Option<Id>): (r: Result<Option<Listing>>)
    ensures r == Ok(None) <==> id !in db.playlists || !db.playlists[id].isActive
    ensures r.Err? <==> id in db.playlists && db.playlists[id].isActive && !db.playlists[id].isPublic
                        && viewer != Some(db.playlists[id].userId)
    ensures r.Err? ==> r.error == Forbidden(NoAccess)
    ensures r.Ok? && r.value.Some? ==> r.value.value.playlist == db.playlists[id]
    ensures r.Ok? && r.value.Some? ==> SortedBy(r.value.value.rows, OrderKey)
    ensures r.Ok? && r.value.Some? ==>
              forall row :: row in r.value.value.rows <==> row in db.playlistSongs && row.playlistId == id
  {
    if id !in db.playlists || !db.playlists[id].isActive then Ok(None)
    else
      var p := db.playlists[id];
      if !p.isPublic && viewer != Some(p.userId) then Err(Forbidden(NoAccess))
      else
        var rows := OrderedRows(db.playlistSongs, id);
        assert forall row :: row in rows <==> row in multiset(rows);
        Ok(Some(Listing(p, rows)))
  }

  /** The listing and the single read agree: a signed-in viewer sees a
      playlist in the listing exactly when reading it returns it. */
  lemma FindAllAgreesWithFindOne(db: Db, viewer: Option<Id>, id: Id)
    requires viewer.None? || SignedIn(viewer)
    ensures id in FindAll(db, viewer) <==> FindOne(db, id, viewer).Ok? && FindOne(db, id, viewer).value.Some?
  {
  }

  // ---------------------------------------------------------------------------
  // Soft removal
  // ---------------------------------------------------------------------------

  /** The owner marks the playlist inactive; nothing else changes. The
      lookup does not filter on activity. */
  function Remove(db: Db, id: Id, userId: Id): (r: Result<Db>)
    ensures id !in db.playlists ==> r == Err(NotFound(PlaylistNotFound))
    ensures id in db.playlists && db.playlists[id].userId != userId ==> r == Err(Forbidden(NotOwnerDelete))
    ensures r.Ok? <==> id in db.playlists && db.playlists[id].userId == userId
    ensures r.Ok? ==> r.value.playlists.Keys == db.playlists.Keys
    ensures r.Ok? ==> r.value.playlists[id] == db.playlists[id].(isActive := false)
    ensures r.Ok? ==> forall other :: other in db.playlists && other != id ==> r.value.playlists[other] == db.playlists[other]
    ensures r.Ok? ==> r.value.songs == db.songs && r.value.playlistSongs == db.playlistSongs
    ensures r.Ok? && Valid(db) ==> Valid(r.value)
  {
    if id !in db.playlists then Err(NotFound(PlaylistNotFound))
    else if db.playlists[id].userId != userId then Err(Forbidden(NotOwnerDelete))
    else Ok(db.(playlists := db.playlists[id := db.playlists[id].(isActive := false)]))
  }

  /** A removed playlist is no longer read nor listed, for any viewer,
      while every other playlist reads as before. */
  lemma RemoveHides(db: Db, id: Id, userId: Id, viewer: Option<Id>)
    requires Remove(db, id, userId).Ok?
    ensures FindOne(Remove(db, id, userId).value, id, viewer) == Ok(None)
    ensures id !in FindAll(Remove(db, id, userId).value, viewer)
    ensures forall other :: other != id ==>
              FindOne(Remove(db, id, userId).value, other, viewer) == FindOne(db, other, viewer)
  {
  }

  // ---------------------------------------------------------------------------
  // Adding a song
  // ---------------------------------------------------------------------------

  /** Checks the playlist, its owner, the song and membership, in that
      order, then appends the song at the end of the playlist. The
      playlist's own activity is not checked. */
  function AddSong(db: Db, playlistId: Id, songId: Id, userId: Id): (r: Result<Db>)
    ensures playlistId !in db.playlists ==> r == Err(NotFound(PlaylistNotFound))
    ensures playlistId in db.playlists && db.playlists[playlistId].userId != userId ==>
              r == Err(Forbidden(NotOwnerAdd))
    ensures (playlistId in db.playlists && db.playlists[playlistId].userId == userId
             && !HasSongId(db.songs, songId)) ==> r == Err(NotFound(SongNotFound))
    ensures (playlistId in db.playlists && db.playlists[playlistId].userId == userId
             && HasSongId(db.songs, songId) && IsMember(db.playlistSongs, playlistId, songId)) ==>
              r == Err(Forbidden(AlreadyInPlaylist))
    ensures r.Ok? <==> playlistId in db.playlists && db.playlists[playlistId].userId == userId
                       && HasSongId(db.songs, songId) && !IsMember(db.playlistSongs, playlistId, songId)
    ensures r.Ok? ==> r.value.playlists == db.playlists && r.value.songs == db.songs
    ensures r.Ok? ==> r.value.playlistSongs == AppendSong(db.playlistSongs, playlistId, songId)
    ensures r.Ok? && Valid(db) ==> Valid(r.value)
  {
    if playlistId !in db.playlists then Err(NotFound(PlaylistNotFound))
    else if db.playlists[playlistId].userId != userId then Err(Forbidden(NotOwnerAdd))
    else if !HasSongId(db.songs, songId) then Err(NotFound(SongNotFound))
    else if IsMember(db.playlistSongs, playlistId, songId) then Err(Forbidden(AlreadyInPlaylist))
    else Ok(db.(playlistSongs := AppendSong(db.playlistSongs, playlistId, songId)))
  }

  /** The added song comes last in the playlist's ordered rows, behind the
      rows it already had, which keep their order. */
  lemma {:induction false} AddSongListsLast(db: Db, playlistId: Id, songId: Id, userId: Id)
    requires AddSong(db, playlistId, songId, userId).Ok?
    ensures OrderedRows(AddSong(db, playlistId, songId, userId).value.playlistSongs, playlistId)
            == OrderedRows(db.playlistSongs, playlistId)
               + [PlaylistSong(playlistId, songId, NextOrder(db.playlistSongs, playlistId))]
  {
    var rows := db.playlistSongs;
    var added := PlaylistSong(playlistId, songId, NextOrder(rows, playlistId));
    var p := (row: PlaylistSong) => InPlaylist(playlistId, row);
    assert AppendSong(rows, playlistId, songId) == rows + [added];
    FilterAppend(rows, added, p);
    var before := Filter(rows, p);
    forall k | 0 <= k < |before| ensures OrderKey(before[k]) < OrderKey(added) {
      var i :| 0 <= i < |rows| && rows[i] == before[k];
    }
    SortAppendLargest(before, added, OrderKey);
  }

  /** The songs service's copy of the rule succeeds exactly when this one
      does and then writes the same rows; the two differ only in how they
      report a failure. */
  lemma AddSongAgreesWithSongsService(db: Db, playlistId: Id, songId: Id, userId: Id)
    ensures AddSong(db, playlistId, songId, userId).Ok? <==> Songs.AddSongToPlaylist(db, playlistId, songId, userId).Ok?
    ensures AddSong(db, playlistId, songId, userId).Ok? ==>
              AddSong(db, playlistId, songId, userId) == Songs.AddSongToPlaylist(db, playlistId, songId, userId)
  {
  }

  // ---------------------------------------------------------------------------
  // Removing a song
  // ---------------------------------------------------------------------------

  predicate IsRow(row: PlaylistSong, playlistId: Id, songId: Id) {
    row.playlistId == playlistId && row.songId == songId
  }

  /** The owner deletes the song's row from the playlist; a song that is
      not a member is no error. The other rows keep their orders. */
  function RemoveSong(db: Db, playlistId: Id, songId: Id, userId: Id): (r: Result<Db>)
    ensures playlistId !in db.playlists ==> r == Err(NotFound(PlaylistNotFound))
    ensures playlistId in db.playlists && db.playlists[playlistId].userId != userId ==>
              r == Err(Forbidden(NotOwnerRemove))
    ensures r.Ok? <==> playlistId in db.playlists && db.playlists[playlistId].userId == userId
    ensures r.Ok? ==> r.value.playlists == db.playlists && r.value.songs == db.songs
    ensures r.Ok? ==> !IsMember(r.value.playlistSongs, playlistId, songId)
    ensures r.Ok? ==> forall row :: row in r.value.playlistSongs <==>
                                     row in db.playlistSongs && !IsRow(row, playlistId, songId)
    ensures r.Ok? && !IsMember(db.playlistSongs, playlistId, songId) ==> r.value == db
    ensures r.Ok? && Valid(db) ==> Valid(r.value)
  {
    if playlistId !in db.playlists then Err(NotFound(PlaylistNotFound))
    else if db.playlists[playlistId].userId != userId then Err(Forbidden(NotOwnerRemove))
    else
      var keep := (row: PlaylistSong) => !IsRow(row, playlistId, songId);
      var after := db.(playlistSongs := Filter(db.playlistSongs, keep));
      assert Valid(db) ==> Valid(after) by {
        if Valid(db) {
          assert Pairwise(db.playlistSongs, DistinctMembers);
          FilterKeepsPairwise(db.playlistSongs, keep, DistinctMembers);
        }
      }
      if !IsMember(db.playlistSongs, playlistId, songId) then
        FilterAgree(db.playlistSongs, keep, (row: PlaylistSong) => true);
        FilterAll(db.playlistSongs);
        Ok(after)
      else
        Ok(after)
  }

  /** The membership uniqueness rule between two rows. */
  predicate DistinctMembers(a: PlaylistSong, b: PlaylistSong) {
    a.playlistId == b.playlistId ==> a.songId != b.songId
  }

  /** A filter that passes everything returns its input. */
  lemma {:induction false} FilterAll<T>(xs: seq<T>)
    ensures Filter(xs, (x: T) => true) == xs
  {
    if |xs| > 0 {
      FilterAll(xs[1..]);
      assert xs == [xs[0]] + xs[1..];
    }
  }

  // ---------------------------------------------------------------------------
  // Reordering
  // ---------------------------------------------------------------------------

  /** One requested position: song `songId` goes to `order`. */
  datatype SongOrder = SongOrder(songId: Id, order: int)

  /** The order the last request naming the song asks for, if any does. */
  function LastOrderFor(orders: seq<SongOrder>, songId: Id): (r: Option<int>)
    ensures r.None? <==> forall k :: 0 <= k < |orders| ==> orders[k].songId != songId
    ensures r.Some? ==> exists k :: 0 <= k < |orders| && orders[k] == SongOrder(songId, r.value)
                                    && forall j :: k < j < |orders| ==> orders[j].songId != songId
  {
    if |orders| == 0 then None
    else if orders[|orders| - 1].songId == songId then Some(orders[|orders| - 1].order)
    else
      var init := orders[..|orders| - 1];
      assert orders == init + [orders[|orders| - 1]];
      LastOrderFor(init, songId)
  }

  /** A row after all requests: the playlist's rows named by some request
      take the last order asked for them; every other row is as it was. */
  function Reordered(row: PlaylistSong, playlistId: Id, orders: seq<SongOrder>): PlaylistSong {
    if row.playlistId != playlistId then row
    else match LastOrderFor(orders, row.songId)
      case None => row
      case Some(o) => row.(order := o)
  }

  /** One request: every row of the playlist for that song takes the order,
      which is the reordering by that single request. */
  function UpdateOrder(rows: seq<PlaylistSong>, playlistId: Id, request: SongOrder): (r: seq<PlaylistSong>)
    ensures |r| == |rows|
    ensures forall i :: 0 <= i < |rows| ==> r[i] == Reordered(rows[i], playlistId, [request])
  {
    seq(|rows|, i requires 0 <= i < |rows| =>
      if IsRow(rows[i], playlistId, request.songId) then rows[i].(order := request.order) else rows[i])
  }

  /** The owner applies the requests one after another. Later requests for
      the same song win, rows of songs not named keep their order, and
      requests naming songs outside the playlist change nothing. */
  method ReorderSongs(db: Db, playlistId: Id, orders: seq<SongOrder>, userId: Id) returns (r: Result<Db>)
    ensures playlistId !in db.playlists ==> r == Err(NotFound(PlaylistNotFound))
    ensures playlistId in db.playlists && db.playlists[playlistId].userId != userId ==>
              r == Err(Forbidden(NotOwnerReorder))
    ensures r.Ok? <==> playlistId in db.playlists && db.playlists[playlistId].userId == userId
    ensures r.Ok? ==> r.value.playlists == db.playlists && r.value.songs == db.songs
    ensures r.Ok? ==> |r.value.playlistSongs| == |db.playlistSongs|
    ensures r.Ok? ==> forall i :: 0 <= i < |db.playlistSongs| ==>
              r.value.playlistSongs[i] == Reordered(db.playlistSongs[i], playlistId, orders)
    ensures r.Ok? && Valid(db) ==> Valid(r.value)
  {
    if playlistId !in db.playlists {
      return Err(NotFound(PlaylistNotFound));
    }
    if db.playlists[playlistId].userId != userId {
      return Err(Forbidden(NotOwnerReorder));
    }
    var rows := db.playlistSongs;
    var n := 0;
    while n < |orders|
      invariant 0 <= n <= |orders|
      invariant |rows| == |db.playlistSongs|
      invariant forall i :: 0 <= i < |rows| ==> rows[i] == Reordered(db.playlistSongs[i], playlistId, orders[..n])
    {
      assert orders[..n + 1] == orders[..n] + [orders[n]];
      forall i | 0 <= i < |rows|
        ensures Reordered(rows[i], playlistId, [orders[n]]) == Reordered(db.playlistSongs[i], playlistId, orders[..n + 1])
      {
        ReorderedStep(db.playlistSongs[i], playlistId, orders[..n], orders[n]);
      }
      rows := UpdateOrder(rows, playlistId, orders[n]);
      n := n + 1;
    }
    assert orders[..n] == orders;
    r := Ok(db.(playlistSongs := rows));
    assert Valid(db) ==> Valid(r.value) by {
      if Valid(db) {
        forall i, j | 0 <= i < j < |rows| && rows[i].playlistId == rows[j].playlistId
          ensures rows[i].songId != rows[j].songId
        {
          assert rows[i].songId == db.playlistSongs[i].songId && rows[j].songId == db.playlistSongs[j].songId;
        }
      }
    }
  }

  /** Applying one more request to a reordered row is reordering by the
      longer list of requests. */
  lemma ReorderedStep(row: PlaylistSong, playlistId: Id, done: seq<SongOrder>, request: SongOrder)
    ensures Reordered(Reordered(row, playlistId, done), playlistId, [request])
            == Reordered(row, playlistId, done + [request])
  {
    var all := done + [request];
    assert all[..|all| - 1] == done;
    assert all[|all| - 1] == request;
    assert [request][..0] == [];
  }

  /** Reordering changes positions only: the same songs are in the same
      playlists afterwards. */
  lemma ReorderedKeepsMembership(rows: seq<PlaylistSong>, playlistId: Id, orders: seq<SongOrder>, pid: Id, sid: Id)
    ensures IsMember(seq(|rows|, i requires 0 <= i < |rows| => Reordered(rows[i], playlistId, orders)), pid, sid)
            <==> IsMember(rows, pid, sid)
  {
    var after := seq(|rows|, i requires 0 <= i < |rows| => Reordered(rows[i], playlistId, orders));
    if IsMember(rows, pid, sid) {
      var i :| 0 <= i < |rows| && rows[i].playlistId == pid && rows[i].songId == sid;
      assert after[i].playlistId == pid && after[i].songId == sid;
    }
  }

  // ---------------------------------------------------------------------------
  // Adding a Spotify track
  // ---------------------------------------------------------------------------

  /** Checks the playlist and its owner, fetches the track, resolves it to
      the local song (creating it at most once), then applies the duplicate
      and order rules of `AddSong`. The song created by the resolution is
      kept when the duplicate check then fails. */
  function AddSpotifyTrackToPlaylist(db: Db, client: Spotify.Client, playlistId: Id, spotifyTrackId: string,
                                     userId: Id, newSongId: Id): (r: Effect)
    ensures playlistId !in db.playlists ==> r == Effect(db, Err(NotFound(PlaylistNotFound)))
    ensures playlistId in db.playlists && db.playlists[playlistId].userId != userId ==>
              r == Effect(db, Err(Forbidden(NotOwnerAdd)))
    ensures (playlistId in db.playlists && db.playlists[playlistId].userId == userId
             && Spotify.TrackById(client, spotifyTrackId).Err?) ==>
              r == Effect(db, Err(Spotify.TrackById(client, spotifyTrackId).error))
    ensures (playlistId in db.playlists && db.playlists[playlistId].userId == userId
             && Spotify.TrackById(client, spotifyTrackId).Ok?) ==>
              r.db.songs == Songs.SaveSpotifyTrack(db.songs, Spotify.TrackById(client, spotifyTrackId).value, newSongId).songs
    ensures r.db.playlists == db.playlists
    ensures r.status.Ok? ==> exists k :: 0 <= k < |r.db.songs| && r.db.songs[k].id == r.status.value
                               && r.db.songs[k].spotifyId == Some(Spotify.TrackById(client, spotifyTrackId).value.id)
    ensures (playlistId in db.playlists && db.playlists[playlistId].userId == userId
             && Spotify.TrackById(client, spotifyTrackId).Ok?) ==>
              var saved := Songs.SaveSpotifyTrack(db.songs, Spotify.TrackById(client, spotifyTrackId).value, newSongId);
              && (r.status.Ok? <==> !IsMember(db.playlistSongs, playlistId, saved.song.id))
              && (r.status.Ok? ==> r.status.value == saved.song.id)
              && (r.status.Err? ==> r.status == Err(Forbidden(AlreadyInPlaylist)))
    ensures r.status.Ok? ==> !IsMember(db.playlistSongs, playlistId, r.status.value)
    ensures r.status.Ok? ==> r.db.playlistSongs == AppendSong(db.playlistSongs, playlistId, r.status.value)
    ensures r.status.Err? ==> r.db.playlistSongs == db.playlistSongs
    ensures r.status.Err? && r.db != db ==> r.status == Err(Forbidden(AlreadyInPlaylist))
    ensures Valid(db) && !HasSongId(db.songs, newSongId) ==> Valid(r.db)
  {
    if playlistId !in db.playlists then Effect(db, Err(NotFound(PlaylistNotFound)))
    else if db.playlists[playlistId].userId != userId then Effect(db, Err(Forbidden(NotOwnerAdd)))
    else match Spotify.TrackById(client, spotifyTrackId)
      case Err(e) => Effect(db, Err(e))
      case Ok(track) =>
        var saved := Songs.SaveSpotifyTrack(db.songs, track, newSongId);
        var db1 := db.(songs := saved.songs);
        Songs.ResolutionKeepsValid(db, track, newSongId);
        if IsMember(db1.playlistSongs, playlistId, saved.song.id) then
          Effect(db1, Err(Forbidden(AlreadyInPlaylist)))
        else
          var db2 := db1.(playlistSongs := AppendSong(db1.playlistSongs, playlistId, saved.song.id));
          assert Valid(db1) ==> Valid(db2) by {
            if Valid(db1) {
              AppendKeepsValid(db1, playlistId, saved.song.id);
            }
          }
          Effect(db2, Ok(saved.song.id))
  }

  /** Appending an existing song that is not yet a member of an existing
      playlist keeps the store consistent. */
  lemma AppendKeepsValid(db: Db, playlistId: Id, songId: Id)
    requires Valid(db) && playlistId in db.playlists && HasSongId(db.songs, songId)
    requires !IsMember(db.playlistSongs, playlistId, songId)
    ensures Valid(db.(playlistSongs := AppendSong(db.playlistSongs, playlistId, songId)))
  {
    var after := db.(playlistSongs := AppendSong(db.playlistSongs, playlistId, songId));
    forall i | 0 <= i < |after.playlistSongs|
      ensures after.playlistSongs[i].playlistId in after.playlists && HasSongId(after.songs, after.playlistSongs[i].songId)
    {
      if i < |db.playlistSongs| {
        assert after.playlistSongs[i] == db.playlistSongs[i];
      }
    }
  }

  /** In a consistent store, a duplicate is only ever reported for a song
      that already existed: the resolution then created nothing. */
  lemma DuplicateCreatesNothing(db: Db, client: Spotify.Client, playlistId: Id, spotifyTrackId: string,
                                userId: Id, newSongId: Id)
    requires Valid(db) && !HasSongId(db.songs, newSongId)
    requires AddSpotifyTrackToPlaylist(db, client, playlistId, spotifyTrackId, userId, newSongId).status
             == Err(Forbidden(AlreadyInPlaylist))
    ensures AddSpotifyTrackToPlaylist(db, client, playlistId, spotifyTrackId, userId, newSongId).db == db
  {
    var track := Spotify.TrackById(client, spotifyTrackId).value;
    var saved := Songs.SaveSpotifyTrack(db.songs, track, newSongId);
    if SongWithSpotifyId(db.songs, track.id).None? {
      assert false;
    }
  }

  /** Once the playlist and owner checks pass, this service and the songs
      service leave the same store and succeed together, with the same song. */
  lemma AddSpotifyTrackAgreesWithSongsService(db: Db, client: Spotify.Client, playlistId: Id,
                                              spotifyTrackId: string, userId: Id, newSongId: Id)
    requires playlistId in db.playlists && db.playlists[playlistId].userId == userId
    ensures AddSpotifyTrackToPlaylist(db, client, playlistId, spotifyTrackId, userId, newSongId).db
            == Songs.AddSpotifyTrackToPlaylist(db, client, playlistId, spotifyTrackId, userId, newSongId).db
    ensures AddSpotifyTrackToPlaylist(db, client, playlistId, spotifyTrackId, userId, newSongId).status.Ok?
            <==> Songs.AddSpotifyTrackToPlaylist(db, client, playlistId, spotifyTrackId, userId, newSongId).status.Ok?
    ensures AddSpotifyTrackToPlaylist(db, client, playlistId, spotifyTrackId, userId, newSongId).status.Ok? ==>
              AddSpotifyTrackToPlaylist(db, client, playlistId, spotifyTrackId, userId, newSongId).status
              == Songs.AddSpotifyTrackToPlaylist(db, client, playlistId, spotifyTrackId, userId, newSongId).status
  {
    if Spotify.TrackById(client, spotifyTrackId).Ok? {
      var track := Spotify.TrackById(client, spotifyTrackId).value;
      var saved := Songs.SaveSpotifyTrack(db.songs, track, newSongId);
      var k :| 0 <= k < |saved.songs| && saved.songs[k] == saved.song;
      assert HasSongId(saved.songs, saved.song.id);
    }
  }
}
