# nest-kpop service core, modelled in Dafny

nest-kpop is a NestJS back end for a K-pop music community. Users register
and keep playlists of songs. Songs come from a local catalogue, which is
filled by importing tracks from the Spotify Web API. Users also write posts
that others like and comment on.

This project models the service layer of that back end as pure functions
over immutable values:

- **Store** (`store.dfy`): the playlist/song/membership store. Playlists are
  a map from id. Songs and membership rows are sequences in row order. The
  schema's unique keys and references are predicates, and every write to
  this store is proved to keep them.
- **Playlists** (`playlists.dfy`): visibility-checked reads, soft removal,
  and adding, removing and reordering songs, with the order rule "one past
  the largest, or 1". Adding a Spotify track chains identity resolution with
  the same rules.
- **Songs** (`songs.dfy`): active-only listing, lookup and search, soft
  removal, and resolution of a Spotify track to the single local song with
  its Spotify id, including the field mapping. It also holds the songs
  service's own copy of the add-to-playlist rule.
- **Spotify** (`spotify.dfy`): the list logic around the Web API. This is
  ordered fallback over fixed query lists, de-duplication keeping each id's
  first occurrence, ranking by popularity, the recency filter and the
  padding of recent releases with popular tracks. The API is a value of
  oracles, so Spotify.SearchTracks and Spotify.TrackById pass its answers
  through; their properties are stated by the operations built on them.
- **Posts** (`posts.dfy`): the like toggle, comments, owner-checked soft
  deletion, and page arithmetic (`skip`, `totalPages`).
- **PostMedia** (`media.dfy`): the upload filter on MIME types, the size
  limit, and the media-type classifier.
- **Users** (`users.dfy`): registration with email and username
  uniqueness, the password re-hash rule on update, and deletion.
- **Common** and **Sorting** (`common.dfy`, `sorting.dfy`): the JavaScript
  operations the services rely on, each with its meaning. These cover
  `findIndex`, `filter`, `slice` with a negative end, `join`/`split`,
  `Math.ceil`/`Math.floor`, and a stable sort by an integer key.

Every operation returns either a new state or an error. The error carries the
message the service throws. A plain `Error` or a store failure appears as
`Internal`, `RecordMissing`, `UniqueViolation` or `MissingReference`, which
the application's exception filter turns into a 500. Two operations write
before they can fail: `addSpotifyTrackToPlaylist` in both services. They
return an `Effect`, which is the store after every write that ran together
with the outcome. `reorderSongs` also writes without a transaction, one
`updateMany` per request, but in the model no single request can fail, so
it is a plain function of the store.

The surrounding system appears only through parameters:

- the Spotify client: whether authentication succeeds, and what each search
  or lookup answers;
- the current time: the cutoff for recent releases;
- the password hash: a function on strings;
- the ids the store generates for new records.

## Model

| member | source | states |
|---|---|---|
| Store.MaxOrder | src/modules/playlists/playlists.service.ts:210-213 | the largest order among the playlist's rows, attained by one of them; none exactly when the playlist has no rows |
| Store.NextOrder | src/modules/playlists/playlists.service.ts:210-215 | the order for a new entry is greater than every order in the playlist, is 1 for an empty playlist, and otherwise is one past an order that exists |
| Store.AppendSong | src/modules/playlists/playlists.service.ts:209-223 | exactly one row (playlist, song, order) is added after the unchanged rows, and its order is the next order: one past the largest of that playlist, or 1 in an empty one; membership stays unique when the song was not a member |
| Playlists.FindAll | src/modules/playlists/playlists.service.ts:17-46 | only active playlists are listed; every active public one is listed; a private one only to its owner; without a viewer every listed playlist is public; a signed-in viewer sees all their active playlists; the empty user id counts as no viewer |
| Playlists.OrderedRows | src/modules/playlists/playlists.service.ts:60-65 | a playlist's rows in ascending order, as a permutation of that playlist's rows |
| Playlists.FindOne | src/modules/playlists/playlists.service.ts:48-79 | null exactly for a missing or inactive playlist; Forbidden exactly for a private playlist read by anyone but its owner; otherwise the playlist with exactly its rows, ordered |
| Playlists.FindAllAgreesWithFindOne | src/modules/playlists/playlists.service.ts:17-79 | for no viewer or a signed-in viewer, a playlist is listed exactly when reading it returns it |
| Playlists.Remove | src/modules/playlists/playlists.service.ts:149-166 | NotFound for a missing playlist, Forbidden for a non-owner; otherwise only that playlist's active flag is cleared, and the store stays consistent |
| Playlists.RemoveHides | src/modules/playlists/playlists.service.ts:149-166 | after removal the playlist reads as null and is not listed for any viewer; every other playlist reads as before |
| Playlists.AddSong | src/modules/playlists/playlists.service.ts:168-224 | NotFound for a missing playlist, Forbidden for a non-owner, NotFound for a missing song, Forbidden for a song already in the playlist, in that order; success exactly otherwise, appending one row with the next order and keeping the store consistent |
| Playlists.AddSongListsLast | src/modules/playlists/playlists.service.ts:209-223 | after an add, the playlist's ordered rows are the previous ordered rows followed by the new entry |
| Playlists.AddSongAgreesWithSongsService | src/modules/songs/songs.service.ts:158-205 | the songs service's copy of the rule succeeds exactly when the playlist service's does, and then writes the same store |
| Playlists.RemoveSong | src/modules/playlists/playlists.service.ts:226-251 | NotFound/Forbidden checks; otherwise the song is no longer a member, exactly the other rows remain with their orders, an absent song changes nothing, and the store stays consistent |
| Playlists.LastOrderFor | src/modules/playlists/playlists.service.ts:273-281 | the order of the last request naming the song, so later duplicates win; none when no request names it |
| Playlists.UpdateOrder | src/modules/playlists/playlists.service.ts:274-280 | one request gives every row exactly the order that reordering by that single request assigns: the named song's rows in the playlist take the requested order, every other row is left as it was |
| Playlists.ReorderedStep | src/modules/playlists/playlists.service.ts:273-281 | applying one more request to rows already reordered by the earlier requests is the same as reordering by the whole list, so the per-request writes compose to the last-request-wins rule |
| Playlists.ReorderSongs | src/modules/playlists/playlists.service.ts:253-282 | NotFound/Forbidden checks; otherwise each row of the playlist named by a request takes the last order requested for it, all other rows are untouched, and the store stays consistent |
| Playlists.ReorderedKeepsMembership | src/modules/playlists/playlists.service.ts:273-281 | reordering changes no membership: the same songs are in the same playlists |
| Playlists.AddSpotifyTrackToPlaylist | src/modules/playlists/playlists.service.ts:284-360 | playlist and owner checks come before any fetch and leave the store alone; a failed fetch changes nothing; otherwise the songs become those of get-or-create resolution, and the add succeeds exactly when the resolved song is not yet in the playlist, returning that song and appending it with the next order; the only failure left is the duplicate error, which keeps the membership rows; a consistent store stays consistent |
| Playlists.DuplicateCreatesNothing | src/modules/playlists/playlists.service.ts:306-343 | in a consistent store, a duplicate error is only reported for a song that already existed, so the failed call leaves the store as it was |
| Playlists.AddSpotifyTrackAgreesWithSongsService | src/modules/songs/songs.service.ts:143-156 | once the playlist and owner checks pass, the two services' Spotify adds leave the same store and succeed together with the same song |
| Songs.FindAll | src/modules/songs/songs.service.ts:13-18 | exactly the active songs are listed |
| Songs.FindOne | src/modules/songs/songs.service.ts:20-24 | returns an active song with that id, and nothing exactly when no active song has it |
| Songs.Remove | src/modules/songs/songs.service.ts:82-87 | refused exactly for an unknown id; otherwise each song differs from before at most in its active flag, which is cleared exactly for the songs with that id, so the song is no longer found while every id stays present, and unique ids and unique Spotify ids are kept |
| Songs.RemoveKeepsValid | src/modules/songs/songs.service.ts:82-87 | soft removal of a song keeps a consistent store consistent: ids and Spotify ids stay unique and the membership rows still reference existing songs |
| Songs.RemoveHides | src/modules/songs/songs.service.ts:13-24 | after removal the song is neither found nor listed, the other songs are listed as before, and lookups of other ids are unchanged |
| Songs.Search | src/modules/songs/songs.service.ts:46-61 | exactly the active songs whose title, artist or album contains the query, ignoring case |
| Songs.SearchEmptyListsAll | src/modules/songs/songs.service.ts:46-61 | searching for the empty query lists exactly what the plain listing lists |
| Songs.MsToSeconds | src/modules/songs/songs.service.ts:130 | the whole seconds of a duration in milliseconds, rounding down: s*1000 <= ms < (s+1)*1000 |
| Songs.FirstImageUrl | src/modules/songs/songs.service.ts:132 | the first album image, absent exactly when the album has none |
| Songs.SongFromTrackSpec | src/modules/songs/songs.service.ts:125-136 | splitting the artist line at ", " gives back the track's artists in order when no name contains the separator, and the duration is the floor of the track length in seconds |
| Songs.SaveSpotifyTrack | src/modules/songs/songs.service.ts:114-141 | the result carries the track's Spotify id and is stored; an existing song is returned with the table unchanged; otherwise exactly one song mapped from the track is appended; at most one song per Spotify id is kept, and ids stay unique |
| Songs.SaveSpotifyTrackIdempotent | src/modules/songs/songs.service.ts:115-122 | saving the same track again returns the same song and table |
| Songs.AddSongToPlaylist | src/modules/songs/songs.service.ts:158-205 | plain errors for a missing playlist, a non-owner and a duplicate, in that order; the song itself is not checked, so a missing song is refused only by the store's reference; success appends the next order and keeps the store consistent |
| Songs.AddSpotifyTrackToPlaylist | src/modules/songs/songs.service.ts:143-156 | a failed fetch changes nothing; otherwise the resolved song is saved even when the add then fails; the add succeeds exactly when the playlist exists, belongs to the caller and does not yet hold the resolved song, and then returns that song, which carries the track's id, and appends it with the next order; a failure keeps the membership rows; a consistent store stays consistent |
| Spotify.SearchTracks | src/modules/spotify/spotify.service.ts:99-116 | authentication failure and request failure raise their messages; the search succeeds exactly when authentication succeeds and the request answers, and then returns that answer |
| Spotify.TrackById | src/modules/spotify/spotify.service.ts:118-128 | authentication failure and request failure raise their messages; the lookup succeeds exactly when authentication succeeds and the request answers, and then returns that track |
| Spotify.ArtistTopTracks | src/modules/spotify/spotify.service.ts:183-196 | authentication failure and request failure raise their messages; success exactly when authentication succeeds and the request answers; the result is a prefix of the answer, of length min(limit, list length) for a non-negative limit |
| Spotify.FirstYielding | src/modules/spotify/spotify.service.ts:67-88 | the first query whose search answers a non-empty list; none exactly when no query does |
| Spotify.SearchKPopTracks | src/modules/spotify/spotify.service.ts:49-97 | only authentication fails; a non-empty result is the answer to the first query yielding tracks, all earlier ones having failed or answered nothing; the result is empty exactly when no query yields |
| Spotify.CollectAll | src/modules/spotify/spotify.service.ts:148-166 | a track is collected exactly when some query that did not fail answered it |
| Spotify.CollectAllAppend | src/modules/spotify/spotify.service.ts:148-166 | collecting over two query lists in turn is collecting over their concatenation, and one query collects exactly its own answer, so answers are concatenated in query order |
| Spotify.FindIndexById | src/modules/spotify/spotify.service.ts:171 | the first position holding the id, or -1 exactly when none does |
| Spotify.KeepFirstByIdDistinct | src/modules/spotify/spotify.service.ts:169-172 | the de-duplicated list has pairwise distinct ids, and each track in it is its id's first occurrence in the input |
| Spotify.KeepFirstByIdComplete | src/modules/spotify/spotify.service.ts:169-172 | every id of the input survives through its first occurrence, and the survivors keep input order |
| Spotify.PerQueryLimit | src/modules/spotify/spotify.service.ts:153 | the per-query request size is ceil(limit / 10) + 5 |
| Spotify.RankByPopularity | src/modules/spotify/spotify.service.ts:168-176 | the limit most popular of the de-duplicated input: min(limit, de-duplicated count) tracks for a non-negative limit, each from the input, most popular first, with distinct ids, and no track left out is more popular than one kept |
| Spotify.PopularKPopTracks | src/modules/spotify/spotify.service.ts:130-181 | fails exactly when authentication fails, and otherwise always succeeds; the answer is exactly min(limit, pool size) tracks of the de-duplicated answers to the popular queries for a non-negative limit, all from that pool, most popular first, none left out more popular than one kept |
| Spotify.PopularKPopTracksSpec | src/modules/spotify/spotify.service.ts:130-181 | min(limit, pool size) tracks for a non-negative limit, distinct ids, each answered by a popular query, most popular first, and no answered track left out is more popular than one returned |
| Spotify.PopularNegativeLimit | src/modules/spotify/spotify.service.ts:174-176 | a negative limit drops that many tracks from the end of the ranking, so the answer can be longer than the limit |
| Spotify.FilterReleasedSince | src/modules/spotify/spotify.service.ts:270-274 | exactly the tracks released on or after the cutoff, keeping distinct ids |
| Spotify.RecentCandidates | src/modules/spotify/spotify.service.ts:243-280 | the limit newest of the de-duplicated recent answers released since the cutoff: min(limit, pool size) tracks for a non-negative limit, each from that pool, newest first, distinct ids, and none left out is newer than one kept |
| Spotify.PadWithPopular | src/modules/spotify/spotify.service.ts:283-290 | the recent tracks, then a prefix of the popular tracks, min(limit, recent + popular count) tracks in all |
| Spotify.RecentKPopReleases | src/modules/spotify/spotify.service.ts:214-298 | fails exactly when authentication fails, and otherwise always succeeds; the recent candidates come first; at most limit tracks; no padding when enough are recent; otherwise the rest is a prefix of the popular ranking and the answer has min(limit, recent + popular count) tracks |
| Sorting.SortBy | src/modules/spotify/spotify.service.ts:174-176 | a permutation of the input, in ascending key order |
| Sorting.SortByStable | src/modules/spotify/spotify.service.ts:174-176 | the sort is stable, as JavaScript's `sort` is: for every key, the entries holding it keep their input order, which decides which tied tracks survive the slice that follows |
| Sorting.SortedPrefixIsTop | src/modules/spotify/spotify.service.ts:174-176 | sorting by a key and keeping the first end entries keeps only entries of the input, min(end, n) of them for a non-negative end, and no entry left out has a smaller key than one kept |
| Common.SplitJoin | src/modules/songs/songs.service.ts:128 | splitting at ", " undoes joining with ", " for a non-empty list of parts that do not contain ", " |
| Common.FilterIsSubsequence | src/modules/songs/songs.service.ts:13-18 | a filtered list is a subsequence of its input: each kept element sits at a strictly later input position than the one before |
| Common.JsTake | src/modules/spotify/spotify.service.ts:191 | slice(0, end) keeps a prefix of length min(end, n), or of n + end clipped at 0 for a negative end |
| Common.CeilDiv | src/modules/posts/posts.service.ts:78 | the least integer whose multiple of the divisor reaches the dividend |
| Common.FloorDiv | src/modules/songs/songs.service.ts:130 | the greatest integer whose multiple of the divisor does not exceed the dividend |
| Posts.LikePost | src/modules/posts/posts.service.ts:127-163 | NotFound exactly for a missing or inactive post; otherwise the returned flag is true exactly when the pair was not liked, a like is appended or one like removed accordingly, no other pair changes, and one like per pair is kept |
| Posts.LikeTwiceRestores | src/modules/posts/posts.service.ts:137-162 | two toggles in a row give back the set of liked pairs, and the original table when the first toggle added the like |
| Posts.CreateComment | src/modules/posts/posts.service.ts:165-197 | NotFound exactly for a missing or inactive post; otherwise one active comment with the given post, author and content is appended and nothing else changes |
| Posts.DeletePost | src/modules/posts/posts.service.ts:236-253 | NotFound for a missing post; Forbidden for an existing post of another user; otherwise only that post's active flag is cleared; consistency is kept |
| Posts.DeletePostOwnership | src/modules/posts/posts.service.ts:237-247 | with unique post ids, deletion succeeds exactly when the post exists and belongs to the caller |
| Posts.DeletedPostIsClosed | src/modules/posts/posts.service.ts:129-135 | after deletion, liking or commenting on the post is refused with NotFound |
| Posts.Skip | src/modules/posts/posts.service.ts:41 | a page skips no rows exactly when it is page 1, and never a negative number |
| Posts.TotalPages | src/modules/posts/posts.service.ts:78 | the number of pages is ceil(total / limit): (n-1)*limit < total <= n*limit, and 0 exactly when there are no rows |
| Posts.PageOf | src/modules/posts/posts.service.ts:64-65 | the rows from position skip on, min(limit, rows left) of them, and none past the end |
| Posts.PageNonEmpty | src/modules/posts/posts.service.ts:41-78 | a page has rows exactly when its number is at most the page count |
| Posts.FirstPagesArePrefix | src/modules/posts/posts.service.ts:41-78 | the first n pages together are the first n*limit rows |
| Posts.PagesCoverAll | src/modules/posts/posts.service.ts:41-78 | reading pages 1 to totalPages yields every row once, in order |
| Posts.Paginate | src/modules/posts/posts.service.ts:72-80 | the response reports the given page and limit, the row count as total and ceil(total / limit) pages; its rows are the ones at positions skip, skip+1, ... of the input, min(limit, rows left) of them; it has rows exactly when the page is at most the page count |
| Posts.GetPosts | src/modules/posts/posts.service.ts:40-81 | exactly that page of the active posts, with the total counting exactly the active posts and the page count derived from it |
| Posts.GetUserPosts | src/modules/posts/posts.service.ts:255-296 | exactly that page of the user's active posts, with their count and page count |
| Posts.GetComments | src/modules/posts/posts.service.ts:199-234 | exactly that page of the post's active comments, with their count and page count; the post itself is not looked up |
| Posts.NewCommentListedLast | src/modules/posts/posts.service.ts:199-234 | a new comment is the last row of the last page of its post's comments |
| PostMedia.ClassifyIsTopLevel | src/modules/posts/posts.controller.ts:134-140 | the prefix classifier reports image, video or audio exactly for that top-level type, and unknown otherwise |
| PostMedia.AcceptedYetUnknown | src/modules/posts/posts.controller.ts:106-118 | the filter accepts "application/ogg", which the classifier reports as unknown |
| PostMedia.UploadMedia | src/modules/posts/posts.controller.ts:106-150 | a rejected MIME type is a BadRequest, an accepted file over 50 MiB is too large, a missing file is a BadRequest; success exactly otherwise, with the URL "/uploads/post-media/" + filename and the kind of the top-level type |
| Users.Create | src/modules/users/users.service.ts:22-47 | succeeds exactly when no account shares the email or the username; a conflict names the email or the username; success appends one user storing the hash of the password; uniqueness is kept |
| Users.CreateSingleClash | src/modules/users/users.service.ts:24-36 | when exactly one account clashes, the outcome does not depend on which clashing row is read: a shared email is an email conflict, a shared username alone a username conflict |
| Users.CreateConflictIsReal | src/modules/users/users.service.ts:30-37 | a reported conflict names a field that some account really holds |
| Users.ValidatePasswordOnlyOwn | src/modules/users/users.service.ts:68-73 | a password validates against the hash made from it, and under an injective hash a stored hash validates no second password |
| Users.CreatedPasswordValidates | src/modules/users/users.service.ts:39-46 | for an injective hash, the stored password validates exactly the registered password |
| Users.StoredPassword | src/modules/users/users.service.ts:55-58 | only a non-empty plain-text password is hashed; an empty text or a "set" operation is stored as given; no password keeps the old one |
| Users.Update | src/modules/users/users.service.ts:49-66 | refused for an unknown id; for an existing user in a consistent table, success exactly when the changed account clashes with no other account on email or username; otherwise only that user changes, every supplied field takes the given value, every field not supplied keeps its value, the password follows the re-hash rule, and uniqueness is kept |
| Users.UpdateKeepingKeysSucceeds | src/modules/users/users.service.ts:60-63 | in a consistent store, an update of an existing user that changes neither email nor username always succeeds |
| Users.Remove | src/modules/users/users.service.ts:75-77 | refused for an unknown id; otherwise exactly that user is gone and every other user is kept |
| Users.CreateThenRemove | src/modules/users/users.service.ts:75-77 | removing a freshly registered account restores the previous table |

## Left out

- Friendship operations (`getFriends`, `addFriend`, `removeFriend`,
  `getFriendStatus`, `getFriendRecommendations`) and `updateProfile`. The
  users controller calls them, but `src/modules/users/users.service.ts` does
  not define them, so there is no behaviour to model.
- Spotify authentication and networking. The client is a value that says
  whether authentication succeeds and what each request answers. Token
  expiry, the `market` parameter, the request's own use of `limit`, and the
  logging are not modelled.
- `searchArtists` (`src/modules/spotify/spotify.service.ts:198-212`). It is
  a pass-through with no list logic.
- Spotify.RecentKPopReleases: the `catch` fallback at lines 293-297 has no
  counterpart. With a deterministic client, nothing inside the `try` can
  throw, because authentication already succeeded before it. The outer
  `catch` blocks of `searchKPopTracks` and `getPopularKPopTracks` are absent
  for the same reason.
- Dates are abstract integers. The cutoff "now minus 90 days" is a
  parameter, and `new Date(...)` parsing is not modelled. The "year:2024"
  queries are kept as the constants they are.
- Concurrency. The read-then-write sequences in `addSong`,
  `saveSpotifyTrack` and `create` are modelled as atomic, sequential steps.
  Nothing is claimed about races.
- Prisma `include`/`select` projections are not modelled: user summaries,
  the song records joined to playlist rows, and `_count` of likes and
  comments. Playlists.FindOne returns the membership rows, not the joined
  songs.
- Ordering by `createdAt`. Posts are kept newest first and comments oldest
  first, the orders their listings use, so their pages are read in sequence
  order; a new comment is appended, which agrees with the ascending order,
  and posts are not created in the model. Songs are kept in insertion
  order, whereas the song listing is newest first: Songs.FindAll states
  which songs are listed, not their order. Playlists.FindAll returns a set
  of ids for the same reason.
- Songs.Search: the result is in table order. The `releaseDate`
  descending order is not modelled, because where null dates go depends on
  the database.
- Songs.Search: case is folded for ASCII letters only. The database's
  insensitive mode also folds other scripts.
- Users.Create: `findFirst` has no `orderBy`, so when several accounts
  clash the store may return any of them. The model reads the first in
  table order, and only what does not depend on that choice is claimed:
  Users.CreateSingleClash and Users.CreateConflictIsReal.
- Playlists.ReorderSongs: orders are integers. The body is unvalidated JSON,
  so a fractional, missing or non-numeric order is not modelled, and
  neither is a store that rejects one `updateMany` after earlier ones have
  committed.
- Limits are integers. `parseInt` of a non-numeric `limit` query gives NaN
  (`src/modules/spotify/spotify.controller.ts`,
  `src/modules/songs/songs.controller.ts`), which is not modelled.
- Posts.Paginate: requires page >= 1 and limit >= 1. A smaller page or
  limit makes `skip` or `take` negative, which the store either rejects or
  reads backwards, and a zero limit makes `totalPages` Infinity or NaN.
  Posts.Skip, Posts.PageOf, Posts.GetPosts, Posts.GetUserPosts and
  Posts.GetComments share this precondition.
- Users.ValidatePassword: bcrypt salts each hash, and `compare` re-hashes
  with the stored salt. The model uses one deterministic hash function, so
  validation is hash equality.
- PostMedia.UploadMedia: the upload middleware checks the size while the
  file streams in; the model checks the final size. Disk storage and the
  random stored filename are not modelled; the filename is an input.
- Services outside the modelled core: `findByArtist`, `findByGenre`,
  `create` and `update` of songs; `findByUser`, `create` and `update` of
  playlists; `createPost` and `getPostById`; `findAll`, `findOne` and
  `findByEmail` of users; the auth service, the guards, the DTOs and the
  exception filter.
