/** The list logic of the Spotify integration. The Web API client is a value
    of oracles: each request either answers or throws, and authentication
    either succeeds or fails. What remains is pure: ordered fallback over
    fixed query lists, de-duplication by track id keeping the first
    occurrence, ranking by popularity or release date, truncation to the
    caller's limit, and padding of recent releases with popular tracks. */
module Spotify {
  import opened Common
  import opened Sorting

  /** Release dates are abstract instants, compared as integers. */
  datatype Album = Album(name: string, imageUrls: seq<string>, releaseDate: int)

  datatype Track = Track(
    id: string,
    name: string,
    artists: seq<string>,
    album: Album,
    durationMs: int,
    spotifyUrl: string,
    previewUrl: Option<string>,
    popularity: int)

  /** The Web API as the service sees it. A lookup answers None when the
      request throws; a search answers the result's track items, an answer
      without a track list being the empty list. */
  datatype Client = Client(
    authenticates: bool,
    searchTracks: (string, int) -> Option<seq<Track>>,
    artistTopTracks: string -> Option<seq<Track>>,
    getTrack: string -> Option<Track>)

  const AuthFailed := "Failed to authenticate with Spotify"
  const SearchFailed := "Failed to search Spotify tracks"
  const TrackFailed := "Failed to get track from Spotify"
  const TopTracksFailed := "Failed to get artist top tracks from Spotify"

  // ---------------------------------------------------------------------------
  // Pass-through requests
  // ---------------------------------------------------------------------------

  /** A single search, with its failures reported. */
  function SearchTracks(client: Client, query: string, limit: int): (r: Result<seq<Track>>)
    ensures !client.authenticates ==> r == Err(Internal(AuthFailed))
    ensures client.authenticates && client.searchTracks(query, limit).None? ==> r == Err(Internal(SearchFailed))
    ensures r.Ok? <==> client.authenticates && client.searchTracks(query, limit).Some?
    ensures r.Ok? ==> client.searchTracks(query, limit) == Some(r.value)
  {
    if !client.authenticates then Err(Internal(AuthFailed))
    else match client.searchTracks(query, limit)
      case None => Err(Internal(SearchFailed))
      case Some(ts) => Ok(ts)
  }

  function TrackById(client: Client, trackId: string): (r: Result<Track>)
    ensures !client.authenticates ==> r == Err(Internal(AuthFailed))
    ensures client.authenticates && client.getTrack(trackId).None? ==> r == Err(Internal(TrackFailed))
    ensures r.Ok? <==> client.authenticates && client.getTrack(trackId).Some?
    ensures r.Ok? ==> client.getTrack(trackId) == Some(r.value)
  {
    if !client.authenticates then Err(Internal(AuthFailed))
    else match client.getTrack(trackId)
      case None => Err(Internal(TrackFailed))
      case Some(t) => Ok(t)
  }

  /** An artist's top tracks, cut to `limit` with JavaScript slice semantics. */
  function ArtistTopTracks(client: Client, artistId: string, limit: int): (r: Result<seq<Track>>)
    ensures !client.authenticates ==> r == Err(Internal(AuthFailed))
    ensures client.authenticates && client.artistTopTracks(artistId).None? ==> r == Err(Internal(TopTracksFailed))
    ensures r.Ok? <==> client.authenticates && client.artistTopTracks(artistId).Some?
    ensures r.Ok? ==> client.artistTopTracks(artistId).Some? && r.value <= client.artistTopTracks(artistId).value
    ensures r.Ok? && limit >= 0 ==> |r.value| == Min(limit, |client.artistTopTracks(artistId).value|)
  {
    if !client.authenticates then Err(Internal(AuthFailed))
    else match client.artistTopTracks(artistId)
      case None => Err(Internal(TopTracksFailed))
      case Some(ts) => Ok(JsTake(ts, limit))
  }

  // ---------------------------------------------------------------------------
  // K-pop search: first query with a non-empty answer wins
  // ---------------------------------------------------------------------------

  /** The search strategies, most specific first, the bare query last. */
  function KPopQueries(query: string): seq<string> {
    [ "genre:k-pop " + query,
      "genre:kpop " + query,
      "genre:korean " + query,
      query + " k-pop",
      query + " kpop",
      query + " korean pop",
      query ]
  }

  /** A search answered with at least one track. */
  predicate Yields(answer: Option<seq<Track>>) {
    answer.Some? && |answer.value| > 0
  }

  function FirstYielding(queries: seq<string>, limit: int, search: (string, int) -> Option<seq<Track>>): (r: Option<nat>)
    ensures r.Some? ==> r.value < |queries| && Yields(search(queries[r.value], limit))
    ensures r.Some? ==> forall j :: 0 <= j < r.value ==> !Yields(search(queries[j], limit))
    ensures r.None? <==> forall j :: 0 <= j < |queries| ==> !Yields(search(queries[j], limit))
  {
    FirstIndex(queries, (q: string) => Yields(search(q, limit)))
  }

  /** Tries the strategies in order; a failing request is skipped, the first
      non-empty answer is returned as it is, and no answer at all gives []. */
  function SearchKPopTracks(client: Client, query: string, limit: int): (r: Result<seq<Track>>)
    ensures !client.authenticates <==> r == Err(Internal(AuthFailed))
    ensures client.authenticates ==> r.Ok?
    ensures r.Ok? && r.value != [] ==>
      exists i :: 0 <= i < |KPopQueries(query)|
        && client.searchTracks(KPopQueries(query)[i], limit) == Some(r.value)
        && forall j :: 0 <= j < i ==> !Yields(client.searchTracks(KPopQueries(query)[j], limit))
    ensures r.Ok? ==> (r.value == [] <==>
      forall j :: 0 <= j < |KPopQueries(query)| ==> !Yields(client.searchTracks(KPopQueries(query)[j], limit)))
  {
    if !client.authenticates then Err(Internal(AuthFailed))
    else
      var queries := KPopQueries(query);
      match FirstYielding(queries, limit, client.searchTracks)
      case None => Ok([])
      case Some(i) => Ok(client.searchTracks(queries[i], limit).value)
  }

  // ---------------------------------------------------------------------------
  // Collecting and de-duplicating
  // ---------------------------------------------------------------------------

  function Answered(answer: Option<seq<Track>>): seq<Track> {
    if answer.Some? then answer.value else []
  }

  /** The answers of every query that did not fail, concatenated in query order. */
  function CollectAll(queries: seq<string>, size: int, search: (string, int) -> Option<seq<Track>>): (r: seq<Track>)
    ensures forall t :: t in r <==> exists i :: 0 <= i < |queries| && t in Answered(search(queries[i], size))
  {
    if |queries| == 0 then []
    else
      var rest := CollectAll(queries[1..], size, search);
      assert forall i :: 1 <= i < |queries| ==> queries[i] == queries[1..][i - 1];
      Answered(search(queries[0], size)) + rest
  }

  /** Collecting over two query lists one after the other is collecting over
      their concatenation: answers keep query order, which decides the
      first occurrence of an id and the order of ties. A single query
      collects exactly its own answer. */
  lemma {:induction false} CollectAllAppend(q1: seq<string>, q2: seq<string>, size: int,
                                            search: (string, int) -> Option<seq<Track>>)
    ensures CollectAll(q1 + q2, size, search) == CollectAll(q1, size, search) + CollectAll(q2, size, search)
    ensures |q1| == 1 ==> CollectAll(q1, size, search) == Answered(search(q1[0], size))
  {
    if |q1| == 0 {
      assert q1 + q2 == q2;
    } else {
      assert (q1 + q2)[0] == q1[0];
      assert (q1 + q2)[1..] == q1[1..] + q2;
      CollectAllAppend(q1[1..], q2, size, search);
      if |q1| == 1 {
        assert q1[1..] == [];
      }
    }
  }

  /** JavaScript `findIndex` by id: the first position holding `id`, or -1. */
  function FindIndexById(xs: seq<Track>, id: string): (r: int)
    ensures -1 <= r < |xs|
    ensures r == -1 <==> forall j :: 0 <= j < |xs| ==> xs[j].id != id
    ensures r >= 0 ==> xs[r].id == id && forall j :: 0 <= j < r ==> xs[j].id != id
  {
    match FirstIndex(xs, (t: Track) => t.id == id)
    case None => -1
    case Some(i) => i
  }

  /** Position `i` holds the first track with its id. */
  predicate IsFirstOfId(xs: seq<Track>, i: int)
    requires 0 <= i < |xs|
  {
    forall j :: 0 <= j < i ==> xs[j].id != xs[i].id
  }

  predicate DifferentIds(a: Track, b: Track) { a.id != b.id }

  predicate DistinctIds(xs: seq<Track>) {
    forall i, j :: 0 <= i < j < |xs| ==> xs[i].id != xs[j].id
  }

  /** The filter keeping track `k` onward only where its index is the index
      `findIndex` reports for its id. */
  function KeepFirstFrom(xs: seq<Track>, k: nat): seq<Track>
    requires k <= |xs|
    decreases |xs| - k
  {
    if k == |xs| then []
    else if FindIndexById(xs, xs[k].id) == k then [xs[k]] + KeepFirstFrom(xs, k + 1)
    else KeepFirstFrom(xs, k + 1)
  }

  /** De-duplication by id, keeping each id's first occurrence. */
  function KeepFirstById(xs: seq<Track>): seq<Track>
  {
    KeepFirstFrom(xs, 0)
  }

  /** The positions the filter keeps from `k` on: the first occurrences at
      `k` or later, in increasing order. */
  predicate KeptFrom(xs: seq<Track>, k: nat, kept: seq<Track>, pos: seq<nat>)
    requires k <= |xs|
  {
    && |pos| == |kept|
    && (forall a :: 0 <= a < |pos| ==> k <= pos[a] < |xs| && IsFirstOfId(xs, pos[a]) && kept[a] == xs[pos[a]])
    && (forall a, b :: 0 <= a < b < |pos| ==> pos[a] < pos[b])
    && (forall i :: k <= i < |xs| && IsFirstOfId(xs, i) ==> i in pos)
  }

  lemma {:induction false} KeptPositions(xs: seq<Track>, k: nat) returns (pos: seq<nat>)
    requires k <= |xs|
    ensures KeptFrom(xs, k, KeepFirstFrom(xs, k), pos)
    decreases |xs| - k
  {
    if k == |xs| {
      pos := [];
    } else {
      var rest := KeptPositions(xs, k + 1);
      FirstOfIdIffFound(xs, k);
      if IsFirstOfId(xs, k) {
        pos := [k] + rest;
        assert KeepFirstFrom(xs, k) == [xs[k]] + KeepFirstFrom(xs, k + 1);
        KeptStep(xs, k, KeepFirstFrom(xs, k + 1), rest);
      } else {
        pos := rest;
        assert KeepFirstFrom(xs, k) == KeepFirstFrom(xs, k + 1);
        assert forall i :: k <= i < |xs| && IsFirstOfId(xs, i) ==> k + 1 <= i;
      }
    }
  }

  lemma KeptStep(xs: seq<Track>, k: nat, kept: seq<Track>, rest: seq<nat>)
    requires k < |xs| && IsFirstOfId(xs, k)
    requires KeptFrom(xs, k + 1, kept, rest)
    ensures KeptFrom(xs, k, [xs[k]] + kept, [k] + rest)
  {
    var pos := [k] + rest;
    var r := [xs[k]] + kept;
    forall a | 0 <= a < |pos| ensures k <= pos[a] < |xs| && IsFirstOfId(xs, pos[a]) && r[a] == xs[pos[a]] {
      if a > 0 {
        assert pos[a] == rest[a - 1] && r[a] == kept[a - 1];
      }
    }
    forall a, b | 0 <= a < b < |pos| ensures pos[a] < pos[b] {
      assert pos[b] == rest[b - 1];
      if a > 0 {
        assert pos[a] == rest[a - 1];
      }
    }
    forall i | k <= i < |xs| && IsFirstOfId(xs, i) ensures i in pos {
      if i > k {
        assert i in rest;
      }
    }
  }

  lemma FirstOfIdIffFound(xs: seq<Track>, k: nat)
    requires k < |xs|
    ensures IsFirstOfId(xs, k) <==> FindIndexById(xs, xs[k].id) == k
  {
  }

  /** The de-duplicated list has pairwise distinct ids, and each of its
      tracks is the first occurrence of its id in the input. */
  lemma KeepFirstByIdDistinct(xs: seq<Track>)
    ensures DistinctIds(KeepFirstById(xs))
    ensures forall a :: 0 <= a < |KeepFirstById(xs)| ==>
              0 <= FindIndexById(xs, KeepFirstById(xs)[a].id)
              && KeepFirstById(xs)[a] == xs[FindIndexById(xs, KeepFirstById(xs)[a].id)]
    ensures forall t :: t in KeepFirstById(xs) ==> t in xs
  {
    var r := KeepFirstById(xs);
    var pos := KeptPositions(xs, 0);
    forall a, b | 0 <= a < b < |r| ensures r[a].id != r[b].id {
      assert IsFirstOfId(xs, pos[b]);
    }
    forall a | 0 <= a < |r|
      ensures 0 <= FindIndexById(xs, r[a].id) && r[a] == xs[FindIndexById(xs, r[a].id)]
    {
      assert IsFirstOfId(xs, pos[a]);
    }
  }

  /** Every id of the input survives de-duplication, and the survivors keep
      the order of their first occurrences. */
  lemma KeepFirstByIdComplete(xs: seq<Track>)
    ensures forall i :: 0 <= i < |xs| ==> xs[FindIndexById(xs, xs[i].id)] in KeepFirstById(xs)
    ensures forall a, b :: 0 <= a < b < |KeepFirstById(xs)| ==>
              FindIndexById(xs, KeepFirstById(xs)[a].id) < FindIndexById(xs, KeepFirstById(xs)[b].id)
  {
    var r := KeepFirstById(xs);
    var pos := KeptPositions(xs, 0);
    forall i | 0 <= i < |xs| ensures xs[FindIndexById(xs, xs[i].id)] in r {
      var f := FindIndexById(xs, xs[i].id);
      assert IsFirstOfId(xs, f);
      var a :| 0 <= a < |pos| && pos[a] == f;
      assert r[a] == xs[f];
    }
    forall a, b | 0 <= a < b < |r|
      ensures FindIndexById(xs, r[a].id) < FindIndexById(xs, r[b].id)
    {
      assert IsFirstOfId(xs, pos[a]) && IsFirstOfId(xs, pos[b]);
      assert FindIndexById(xs, r[a].id) == pos[a];
      assert FindIndexById(xs, r[b].id) == pos[b];
    }
  }

  // ---------------------------------------------------------------------------
  // Popular tracks
  // ---------------------------------------------------------------------------

  const PopularQueries: seq<string> := [
    "genre:k-pop", "genre:kpop", "genre:korean", "k-pop", "kpop", "korean pop",
    "BTS", "BLACKPINK", "NewJeans", "aespa" ]

  /** Tracks requested per query: a share of `limit` rounded up, plus five
      to make up for duplicates. */
  function PerQueryLimit(limit: int): (n: int)
    ensures (n - 6) * |PopularQueries| < limit <= (n - 5) * |PopularQueries|
  {
    CeilDiv(limit, |PopularQueries|) + 5
  }

  function Popularity(t: Track): int { -t.popularity }

  predicate MostPopularFirst(xs: seq<Track>) {
    forall i, j :: 0 <= i < j < |xs| ==> xs[i].popularity >= xs[j].popularity
  }

  /** Sorting by any key keeps the tracks and their distinct ids. */
  lemma SortKeepsTracks(xs: seq<Track>, key: Track -> int)
    ensures forall t :: t in SortBy(xs, key) ==> t in xs
    ensures DistinctIds(xs) ==> DistinctIds(SortBy(xs, key))
  {
    forall t | t in SortBy(xs, key) ensures t in xs {
      assert t in multiset(SortBy(xs, key));
    }
    if DistinctIds(xs) {
      assert Pairwise(xs, DifferentIds);
      SortKeepsPairwise(xs, key, DifferentIds);
      assert Pairwise(SortBy(xs, key), DifferentIds);
    }
  }

  /** A prefix keeps distinct ids and any key order. */
  lemma PrefixKeeps(xs: seq<Track>, r: seq<Track>, key: Track -> int)
    requires r <= xs
    ensures forall t :: t in r ==> t in xs
    ensures DistinctIds(xs) ==> DistinctIds(r)
    ensures SortedBy(xs, key) ==> SortedBy(r, key)
  {
    assert forall i :: 0 <= i < |r| ==> r[i] == xs[i];
  }

  /** No track of `pool` left out of `r` is more popular than one kept. */
  predicate NoMorePopularLeftOut(pool: seq<Track>, r: seq<Track>) {
    forall t, u :: t in pool && t !in r && u in r ==> u.popularity >= t.popularity
  }

  /** De-duplicates, orders by popularity, highest first, and cuts to
      `limit`: the result is the `limit` most popular of the de-duplicated
      tracks, or all of them when there are fewer. */
  function RankByPopularity(tracks: seq<Track>, limit: int): (r: seq<Track>)
    ensures MostPopularFirst(r)
    ensures DistinctIds(r)
    ensures forall t :: t in r ==> t in KeepFirstById(tracks) && t in tracks
    ensures limit >= 0 ==> |r| == Min(limit, |KeepFirstById(tracks)|)
    ensures NoMorePopularLeftOut(KeepFirstById(tracks), r)
  {
    RankFacts(tracks, limit);
    JsTake(SortBy(KeepFirstById(tracks), Popularity), limit)
  }

  lemma RankFacts(tracks: seq<Track>, limit: int)
    ensures var r := JsTake(SortBy(KeepFirstById(tracks), Popularity), limit);
      && MostPopularFirst(r)
      && DistinctIds(r)
      && (forall t :: t in r ==> t in KeepFirstById(tracks) && t in tracks)
      && (limit >= 0 ==> |r| == Min(limit, |KeepFirstById(tracks)|))
      && NoMorePopularLeftOut(KeepFirstById(tracks), r)
  {
    var unique := KeepFirstById(tracks);
    KeepFirstByIdDistinct(tracks);
    var sorted := SortBy(unique, Popularity);
    SortKeepsTracks(unique, Popularity);
    var r := JsTake(sorted, limit);
    PrefixKeeps(sorted, r, Popularity);
    SortedPrefixIsTop(unique, Popularity, limit);
    assert SortedBy(r, Popularity);
    forall t, u | t in unique && t !in r && u in r ensures u.popularity >= t.popularity {
      assert Popularity(u) <= Popularity(t);
    }
  }

  /** The collected answers of all popular-track queries, ranked. Failing
      queries are skipped. */
  function PopularRanking(client: Client, limit: int): seq<Track> {
    RankByPopularity(CollectAll(PopularQueries, PerQueryLimit(limit), client.searchTracks), limit)
  }

  /** The tracks every popular-track query answered, de-duplicated by id. */
  function PopularPool(client: Client, limit: int): seq<Track> {
    KeepFirstById(CollectAll(PopularQueries, PerQueryLimit(limit), client.searchTracks))
  }

  /** Only authentication fails; the answer is the `limit` most popular of
      the de-duplicated answers, most popular first. */
  function PopularKPopTracks(client: Client, limit: int): (r: Result<seq<Track>>)
    ensures !client.authenticates <==> r == Err(Internal(AuthFailed))
    ensures client.authenticates ==> r.Ok?
    ensures r.Ok? ==> forall t :: t in r.value ==> t in PopularPool(client, limit)
    ensures r.Ok? && limit >= 0 ==> |r.value| == Min(limit, |PopularPool(client, limit)|)
    ensures r.Ok? ==> NoMorePopularLeftOut(PopularPool(client, limit), r.value) && MostPopularFirst(r.value)
  {
    if !client.authenticates then Err(Internal(AuthFailed))
    else Ok(PopularRanking(client, limit))
  }

  /** The service's answer is the ranking of the collected answers. */
  lemma PopularKPopTracksIsRanking(client: Client, limit: int)
    requires client.authenticates
    ensures PopularKPopTracks(client, limit) == Ok(PopularRanking(client, limit))
  {
  }

  /** For a non-negative limit the answer has `limit` tracks, or every
      distinct track when fewer were found, with distinct ids, each returned
      by one of the popular-track queries, most popular first, and no track
      left out is more popular than one returned. */
  lemma PopularKPopTracksSpec(client: Client, limit: int)
    requires client.authenticates
    ensures var r := PopularKPopTracks(client, limit).value;
      && (limit >= 0 ==> |r| == Min(limit, |PopularPool(client, limit)|))
      && MostPopularFirst(r)
      && DistinctIds(r)
      && (forall t :: t in r ==>
            (exists i :: 0 <= i < |PopularQueries| && t in Answered(client.searchTracks(PopularQueries[i], PerQueryLimit(limit)))))
      && NoMorePopularLeftOut(PopularPool(client, limit), r)
  {
  }

  /** A negative limit is a JavaScript slice end counted from the back: the
      answer is every ranked track but the last `-limit`, so its length
      exceeds the limit. */
  lemma PopularNegativeLimit(client: Client, limit: int)
    requires client.authenticates && limit < 0
    ensures var unique := KeepFirstById(CollectAll(PopularQueries, PerQueryLimit(limit), client.searchTracks));
      |PopularKPopTracks(client, limit).value| == Max(|unique| + limit, 0)
  {
  }

  // ---------------------------------------------------------------------------
  // Recent releases
  // ---------------------------------------------------------------------------

  const RecentQueries: seq<string> := [
    "genre:k-pop year:2024", "genre:kpop year:2024", "genre:korean year:2024",
    "k-pop 2024", "kpop 2024", "korean pop 2024",
    "BTS year:2024", "BLACKPINK year:2024", "NewJeans year:2024", "aespa year:2024",
    "LE SSERAFIM year:2024", "ITZY year:2024", "Stray Kids year:2024", "TWICE year:2024" ]

  predicate ReleasedSince(t: Track, cutoff: int) {
    t.album.releaseDate >= cutoff
  }

  function FilterReleasedSince(xs: seq<Track>, cutoff: int): (r: seq<Track>)
    ensures forall t :: t in r <==> t in xs && ReleasedSince(t, cutoff)
    ensures DistinctIds(xs) ==> DistinctIds(r)
    ensures |r| <= |xs|
  {
    if |xs| == 0 then []
    else
      var rest := FilterReleasedSince(xs[1..], cutoff);
      assert DistinctIds(xs) ==> DistinctIds(xs[1..]) by {
        if DistinctIds(xs) {
          forall i, j | 0 <= i < j < |xs[1..]| ensures xs[1..][i].id != xs[1..][j].id {
            assert xs[1..][i] == xs[i + 1] && xs[1..][j] == xs[j + 1];
          }
        }
      }
      if ReleasedSince(xs[0], cutoff) then
        assert DistinctIds(xs) ==> forall a :: 0 <= a < |rest| ==> rest[a].id != xs[0].id by {
          if DistinctIds(xs) {
            forall a | 0 <= a < |rest| ensures rest[a].id != xs[0].id {
              assert rest[a] in xs[1..];
              var m :| 0 <= m < |xs[1..]| && xs[1..][m] == rest[a];
              assert xs[m + 1] == rest[a];
            }
          }
        }
        var r := [xs[0]] + rest;
        assert forall a :: 1 <= a < |r| ==> r[a] == rest[a - 1];
        r
      else rest
  }

  function NewestFirstKey(t: Track): int { -t.album.releaseDate }

  predicate NewestFirst(xs: seq<Track>) {
    forall i, j :: 0 <= i < j < |xs| ==> xs[i].album.releaseDate >= xs[j].album.releaseDate
  }

  /** The de-duplicated answers of the recent-release queries that were
      released on or after `cutoff`. */
  function RecentPool(client: Client, limit: int, cutoff: int): seq<Track> {
    FilterReleasedSince(KeepFirstById(CollectAll(RecentQueries, 2 * limit, client.searchTracks)), cutoff)
  }

  /** No track of `pool` left out of `r` is newer than one kept. */
  predicate NoNewerLeftOut(pool: seq<Track>, r: seq<Track>) {
    forall t, u :: t in pool && t !in r && u in r ==> u.album.releaseDate >= t.album.releaseDate
  }

  /** The de-duplicated answers released on or after `cutoff`, newest first,
      cut to `limit`: the `limit` newest of them, or all when fewer. */
  function RecentCandidates(client: Client, limit: int, cutoff: int): (r: seq<Track>)
    ensures forall t :: t in r ==> ReleasedSince(t, cutoff)
    ensures forall t :: t in r ==> t in RecentPool(client, limit, cutoff)
    ensures forall t :: t in r ==> t in KeepFirstById(CollectAll(RecentQueries, 2 * limit, client.searchTracks))
    ensures NewestFirst(r)
    ensures DistinctIds(r)
    ensures limit >= 0 ==> |r| == Min(limit, |RecentPool(client, limit, cutoff)|)
    ensures NoNewerLeftOut(RecentPool(client, limit, cutoff), r)
  {
    RecentFacts(client, limit, cutoff);
    JsTake(SortBy(RecentPool(client, limit, cutoff), NewestFirstKey), limit)
  }

  lemma RecentFacts(client: Client, limit: int, cutoff: int)
    ensures var r := JsTake(SortBy(RecentPool(client, limit, cutoff), NewestFirstKey), limit);
      && (forall t :: t in r ==> ReleasedSince(t, cutoff))
      && (forall t :: t in r ==> t in RecentPool(client, limit, cutoff))
      && (forall t :: t in r ==> t in KeepFirstById(CollectAll(RecentQueries, 2 * limit, client.searchTracks)))
      && NewestFirst(r)
      && DistinctIds(r)
      && (limit >= 0 ==> |r| == Min(limit, |RecentPool(client, limit, cutoff)|))
      && NoNewerLeftOut(RecentPool(client, limit, cutoff), r)
  {
    var unique := KeepFirstById(CollectAll(RecentQueries, 2 * limit, client.searchTracks));
    KeepFirstByIdDistinct(CollectAll(RecentQueries, 2 * limit, client.searchTracks));
    var recent := FilterReleasedSince(unique, cutoff);
    assert recent == RecentPool(client, limit, cutoff);
    var sorted := SortBy(recent, NewestFirstKey);
    SortKeepsTracks(recent, NewestFirstKey);
    var r := JsTake(sorted, limit);
    PrefixKeeps(sorted, r, NewestFirstKey);
    SortedPrefixIsTop(recent, NewestFirstKey, limit);
    assert SortedBy(r, NewestFirstKey);
    forall t, u | t in recent && t !in r && u in r ensures u.album.releaseDate >= t.album.releaseDate {
      assert NewestFirstKey(u) <= NewestFirstKey(t);
    }
  }

  /** Recent tracks, followed, when there are fewer than `limit`, by the
      first popular tracks up to `limit` in all. */
  function PadWithPopular(recent: seq<Track>, popular: seq<Track>, limit: int): (r: seq<Track>)
    requires |recent| < limit
    ensures |r| == Min(limit, |recent| + |popular|)
    ensures r[..|recent|] == recent
    ensures r[|recent|..] <= popular
  {
    var r := JsTake(recent + JsTake(popular, limit - |recent|), limit);
    assert r == recent + JsTake(popular, limit - |recent|);
    assert r[|recent|..] == JsTake(popular, limit - |recent|);
    r
  }

  /** Recent releases, padded with popular tracks when too few are recent.
      Authentication is the only failure: a failing search is skipped, and
      the popular-track fallback authenticates with the same client. */
  function RecentKPopReleases(client: Client, limit: int, cutoff: int): (r: Result<seq<Track>>)
    ensures !client.authenticates <==> r == Err(Internal(AuthFailed))
    ensures client.authenticates ==> r.Ok?
    ensures r.Ok? ==> RecentCandidates(client, limit, cutoff) <= r.value
    ensures r.Ok? && limit >= 0 ==> |r.value| <= limit
    ensures r.Ok? && |RecentCandidates(client, limit, cutoff)| >= limit ==>
              r.value == RecentCandidates(client, limit, cutoff)
    ensures r.Ok? && |RecentCandidates(client, limit, cutoff)| < limit ==>
              r.value[|RecentCandidates(client, limit, cutoff)|..] <= PopularRanking(client, limit)
    ensures r.Ok? && |RecentCandidates(client, limit, cutoff)| < limit ==>
              |r.value| == Min(limit, |RecentCandidates(client, limit, cutoff)| + |PopularRanking(client, limit)|)
  {
    if !client.authenticates then Err(Internal(AuthFailed))
    else
      var recent := RecentCandidates(client, limit, cutoff);
      if |recent| < limit then
        match PopularKPopTracks(client, limit)
        case Ok(popular) => Ok(PadWithPopular(recent, popular, limit))
        case Err(e) => Err(e)
      else Ok(recent)
  }
}
