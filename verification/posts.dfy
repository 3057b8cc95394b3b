/** The social feed: posts, their likes and comments. A like is a toggle on
    the (post, user) pair, deletion of a post is owner-checked and soft, and
    the listings are cut into pages by `skip`/`take` arithmetic. Each table
    is a sequence in the order the listings return it (posts newest first,
    comments oldest first). */
module Posts {
  import opened Common

  const PostNotFound := "Post not found"
  const NotOwnerDelete := "You can only delete your own posts"

  datatype Post = Post(id: Id, userId: Id, content: string, isActive: bool)
  datatype Like = Like(id: Id, postId: Id, userId: Id)
  datatype Comment = Comment(id: Id, postId: Id, userId: Id, content: string, isActive: bool)

  datatype Feed = Feed(posts: seq<Post>, likes: seq<Like>, comments: seq<Comment>)

  predicate UniquePostIds(posts: seq<Post>) {
    forall i, j :: 0 <= i < j < |posts| ==> posts[i].id != posts[j].id
  }

  /** The composite unique key (postId, userId): one like per user and post. */
  predicate UniqueLikes(likes: seq<Like>) {
    forall i, j :: 0 <= i < j < |likes| ==>
      likes[i].postId != likes[j].postId || likes[i].userId != likes[j].userId
  }

  predicate Valid(feed: Feed) {
    UniquePostIds(feed.posts) && UniqueLikes(feed.likes)
  }

  /** The post lookup that also requires the post to be active. */
  predicate IsActivePost(posts: seq<Post>, postId: Id) {
    exists i :: 0 <= i < |posts| && posts[i].id == postId && posts[i].isActive
  }

  predicate HasLike(likes: seq<Like>, postId: Id, userId: Id) {
    exists i :: 0 <= i < |likes| && likes[i].postId == postId && likes[i].userId == userId
  }

  /** The (post, user) pairs the likes record. */
  function LikePairs(likes: seq<Like>): set<(Id, Id)> {
    set i | 0 <= i < |likes| :: (likes[i].postId, likes[i].userId)
  }

  // ---------------------------------------------------------------------------
  // Likes
  // ---------------------------------------------------------------------------

  datatype Toggled = Toggled(feed: Feed, liked: bool)

  /** On an active post, deletes the user's like if there is one and reports
      `liked` false, or records a new like and reports `liked` true. */
  function LikePost(feed: Feed, postId: Id, userId: Id, newLikeId: Id): (r: Result<Toggled>)
    ensures !IsActivePost(feed.posts, postId) ==> r == Err(NotFound(PostNotFound))
    ensures r.Ok? <==> IsActivePost(feed.posts, postId)
    ensures r.Ok? ==> (r.value.liked <==> !HasLike(feed.likes, postId, userId))
    ensures r.Ok? ==> r.value.feed.posts == feed.posts && r.value.feed.comments == feed.comments
    ensures r.Ok? && r.value.liked ==> r.value.feed.likes == feed.likes + [Like(newLikeId, postId, userId)]
    ensures r.Ok? && !r.value.liked ==> |r.value.feed.likes| == |feed.likes| - 1
    ensures r.Ok? ==> forall p, u :: (p, u) != (postId, userId) ==>
              (HasLike(r.value.feed.likes, p, u) <==> HasLike(feed.likes, p, u))
    ensures r.Ok? && UniqueLikes(feed.likes) ==>
              UniqueLikes(r.value.feed.likes) && (r.value.liked <==> HasLike(r.value.feed.likes, postId, userId))
  {
    if !IsActivePost(feed.posts, postId) then Err(NotFound(PostNotFound))
    else match FirstIndex(feed.likes, (l: Like) => l.postId == postId && l.userId == userId)
      case Some(i) =>
        var likes := RemoveAt(feed.likes, i);
        assert forall p, u :: (p, u) != (postId, userId) ==> (HasLike(likes, p, u) <==> HasLike(feed.likes, p, u)) by {
          forall p, u | (p, u) != (postId, userId) && HasLike(feed.likes, p, u) ensures HasLike(likes, p, u) {
            var k :| 0 <= k < |feed.likes| && feed.likes[k].postId == p && feed.likes[k].userId == u;
            if k < i { assert likes[k] == feed.likes[k]; } else { assert likes[k - 1] == feed.likes[k]; }
          }
        }
        assert UniqueLikes(feed.likes) ==> !HasLike(likes, postId, userId) by {
          if UniqueLikes(feed.likes) {
            forall k | 0 <= k < |likes| ensures !(likes[k].postId == postId && likes[k].userId == userId) {
              if k < i { assert likes[k] == feed.likes[k]; } else { assert likes[k] == feed.likes[k + 1]; }
            }
          }
        }
        Ok(Toggled(feed.(likes := likes), false))
      case None =>
        var likes := feed.likes + [Like(newLikeId, postId, userId)];
        assert likes[|feed.likes|].postId == postId && likes[|feed.likes|].userId == userId;
        assert forall k :: 0 <= k < |feed.likes| ==> likes[k] == feed.likes[k];
        Ok(Toggled(feed.(likes := likes), true))
  }

  /** Liking twice in a row gives back the original set of liked pairs; when
      the first call added the like, the second removes exactly that row. */
  lemma {:induction false} LikeTwiceRestores(feed: Feed, postId: Id, userId: Id, id1: Id, id2: Id)
    requires UniqueLikes(feed.likes)
    requires LikePost(feed, postId, userId, id1).Ok?
    ensures LikePost(LikePost(feed, postId, userId, id1).value.feed, postId, userId, id2).Ok?
    ensures LikePairs(LikePost(LikePost(feed, postId, userId, id1).value.feed, postId, userId, id2).value.feed.likes)
            == LikePairs(feed.likes)
    ensures !HasLike(feed.likes, postId, userId) ==>
              LikePost(LikePost(feed, postId, userId, id1).value.feed, postId, userId, id2).value.feed == feed
  {
    var once := LikePost(feed, postId, userId, id1).value;
    var twice := LikePost(once.feed, postId, userId, id2).value;
    assert twice.liked != once.liked;
    PairsAgree(feed.likes, twice.feed.likes, postId, userId);
    if !HasLike(feed.likes, postId, userId) {
      var n := |feed.likes|;
      assert FirstIndex(once.feed.likes, (l: Like) => l.postId == postId && l.userId == userId) == Some(n);
      assert once.feed.likes[..n] == feed.likes;
    }
  }

  /** Two like tables agreeing on which pairs they hold have the same pair set. */
  lemma PairsAgree(a: seq<Like>, b: seq<Like>, postId: Id, userId: Id)
    requires forall p, u :: HasLike(a, p, u) <==> HasLike(b, p, u)
    ensures LikePairs(a) == LikePairs(b)
  {
    forall pair | pair in LikePairs(a) ensures pair in LikePairs(b) {
      var i :| 0 <= i < |a| && pair == (a[i].postId, a[i].userId);
      assert HasLike(a, a[i].postId, a[i].userId);
      var j :| 0 <= j < |b| && b[j].postId == a[i].postId && b[j].userId == a[i].userId;
    }
    forall pair | pair in LikePairs(b) ensures pair in LikePairs(a) {
      var i :| 0 <= i < |b| && pair == (b[i].postId, b[i].userId);
      assert HasLike(b, b[i].postId, b[i].userId);
      var j :| 0 <= j < |a| && a[j].postId == b[i].postId && a[j].userId == b[i].userId;
    }
  }

  // ---------------------------------------------------------------------------
  // Comments
  // ---------------------------------------------------------------------------

  datatype Commented = Commented(feed: Feed, comment: Comment)

  /** Adds an active comment by the user to an active post. */
  function CreateComment(feed: Feed, postId: Id, userId: Id, content: string, newCommentId: Id): (r: Result<Commented>)
    ensures !IsActivePost(feed.posts, postId) ==> r == Err(NotFound(PostNotFound))
    ensures r.Ok? <==> IsActivePost(feed.posts, postId)
    ensures r.Ok? ==> r.value.comment.postId == postId && r.value.comment.userId == userId
                      && r.value.comment.content == content && r.value.comment.isActive
    ensures r.Ok? ==> r.value.feed.comments == feed.comments + [r.value.comment]
    ensures r.Ok? ==> r.value.feed.posts == feed.posts && r.value.feed.likes == feed.likes
  {
    if !IsActivePost(feed.posts, postId) then Err(NotFound(PostNotFound))
    else
      var c := Comment(newCommentId, postId, userId, content, true);
      Ok(Commented(feed.(comments := feed.comments + [c]), c))
  }

  // ---------------------------------------------------------------------------
  // Deleting a post
  // ---------------------------------------------------------------------------

  /** The owner marks the post inactive; the lookup does not filter on
      activity, so deleting twice succeeds twice. */
  function DeletePost(feed: Feed, postId: Id, userId: Id): (r: Result<Feed>)
    ensures FirstIndex(feed.posts, (p: Post) => p.id == postId).None? ==> r == Err(NotFound(PostNotFound))
    ensures r.Err? ==> r.error in {NotFound(PostNotFound), Forbidden(NotOwnerDelete)}
    ensures FirstIndex(feed.posts, (p: Post) => p.id == postId).Some?
            && feed.posts[FirstIndex(feed.posts, (p: Post) => p.id == postId).value].userId != userId ==>
              r == Err(Forbidden(NotOwnerDelete))
    ensures r.Ok? ==> r.value.likes == feed.likes && r.value.comments == feed.comments
    ensures r.Ok? ==> |r.value.posts| == |feed.posts|
    ensures r.Ok? ==> exists i :: 0 <= i < |feed.posts| && feed.posts[i].id == postId && feed.posts[i].userId == userId
                                 && r.value.posts == feed.posts[i := feed.posts[i].(isActive := false)]
    ensures r.Ok? && Valid(feed) ==> Valid(r.value)
  {
    match FirstIndex(feed.posts, (p: Post) => p.id == postId)
    case None => Err(NotFound(PostNotFound))
    case Some(i) =>
      if feed.posts[i].userId != userId then Err(Forbidden(NotOwnerDelete))
      else Ok(feed.(posts := feed.posts[i := feed.posts[i].(isActive := false)]))
  }

  /** A post is refused to its owner only when it does not exist; a post
      that exists is refused to everyone else. */
  lemma DeletePostOwnership(feed: Feed, postId: Id, userId: Id)
    requires UniquePostIds(feed.posts)
    ensures DeletePost(feed, postId, userId).Ok? <==>
              exists i :: 0 <= i < |feed.posts| && feed.posts[i].id == postId && feed.posts[i].userId == userId
    ensures (exists i :: 0 <= i < |feed.posts| && feed.posts[i].id == postId && feed.posts[i].userId != userId) ==>
              DeletePost(feed, postId, userId) == Err(Forbidden(NotOwnerDelete))
  {
    if exists i :: 0 <= i < |feed.posts| && feed.posts[i].id == postId && feed.posts[i].userId != userId {
      var i :| 0 <= i < |feed.posts| && feed.posts[i].id == postId && feed.posts[i].userId != userId;
      var f := FirstIndex(feed.posts, (p: Post) => p.id == postId);
      assert f.Some?;
      assert f.value == i;
    }
  }

  /** Once deleted, a post takes no more likes or comments. */
  lemma DeletedPostIsClosed(feed: Feed, postId: Id, userId: Id, liker: Id, likeId: Id, content: string, commentId: Id)
    requires UniquePostIds(feed.posts)
    requires DeletePost(feed, postId, userId).Ok?
    ensures LikePost(DeletePost(feed, postId, userId).value, postId, liker, likeId) == Err(NotFound(PostNotFound))
    ensures CreateComment(DeletePost(feed, postId, userId).value, postId, liker, content, commentId)
            == Err(NotFound(PostNotFound))
  {
    var after := DeletePost(feed, postId, userId).value;
    var i :| 0 <= i < |feed.posts| && feed.posts[i].id == postId && after.posts == feed.posts[i := feed.posts[i].(isActive := false)];
    assert !IsActivePost(after.posts, postId) by {
      forall k | 0 <= k < |after.posts| && after.posts[k].id == postId ensures !after.posts[k].isActive {
        assert k == i;
      }
    }
  }

  // ---------------------------------------------------------------------------
  // Pagination
  // ---------------------------------------------------------------------------

  /** The rows a page skips: those of all earlier pages. */
  function Skip(page: int, limit: int): (n: int)
    requires page >= 1 && limit >= 1
    ensures n >= 0
    ensures page == 1 <==> n == 0
  {
    (page - 1) * limit
  }

  /** The number of pages `total` rows fill, the last one possibly partial. */
  function TotalPages(total: nat, limit: int): (n: int)
    requires limit >= 1
    ensures (n - 1) * limit < total <= n * limit
    ensures n >= 0
    ensures total == 0 <==> n == 0
  {
    CeilDiv(total, limit)
  }

  /** The rows of page `page`: skip the earlier pages, take up to `limit`. */
  function PageOf<T>(xs: seq<T>, page: int, limit: int): (r: seq<T>)
    requires page >= 1 && limit >= 1
    ensures |r| <= limit
    ensures |r| == if Skip(page, limit) >= |xs| then 0 else Min(limit, |xs| - Skip(page, limit))
    ensures forall k :: 0 <= k < |r| ==> Skip(page, limit) + k < |xs| && r[k] == xs[Skip(page, limit) + k]
  {
    var from := Min(Skip(page, limit), |xs|);
    xs[from..Min(from + limit, |xs|)]
  }

  /** A page has rows exactly when its number is at most the page count. */
  lemma PageNonEmpty<T>(xs: seq<T>, page: int, limit: int)
    requires page >= 1 && limit >= 1
    ensures |PageOf(xs, page, limit)| > 0 <==> page <= TotalPages(|xs|, limit)
  {
    var n := TotalPages(|xs|, limit);
    if page <= n {
      MulMono(page - 1, n - 1, limit);
    } else {
      MulMono(n, page - 1, limit);
    }
  }

  lemma MulMono(a: int, b: int, c: int)
    requires a <= b && c >= 0
    ensures a * c <= b * c
  {
  }

  /** Pages 1 to n, one after another. */
  function FirstPages<T>(xs: seq<T>, n: nat, limit: int): seq<T>
    requires limit >= 1
  {
    if n == 0 then [] else FirstPages(xs, n - 1, limit) + PageOf(xs, n, limit)
  }

  /** The first n pages are the first n * limit rows. */
  lemma {:induction false} FirstPagesArePrefix<T>(xs: seq<T>, n: nat, limit: int)
    requires limit >= 1
    ensures FirstPages(xs, n, limit) == xs[..Min(n * limit, |xs|)]
  {
    if n > 0 {
      FirstPagesArePrefix(xs, n - 1, limit);
      assert Skip(n, limit) == (n - 1) * limit;
      var a := Min((n - 1) * limit, |xs|);
      var b := Min(n * limit, |xs|);
      assert xs[..a] + xs[a..b] == xs[..b];
    }
  }

  /** Reading every page in turn yields every row once, in order. */
  lemma PagesCoverAll<T>(xs: seq<T>, limit: int)
    requires limit >= 1
    ensures FirstPages(xs, TotalPages(|xs|, limit), limit) == xs
  {
    FirstPagesArePrefix(xs, TotalPages(|xs|, limit), limit);
  }

  /** One page of a listing with the counts the response reports. */
  datatype Paged<T> = Paged(items: seq<T>, page: int, limit: int, total: nat, totalPages: int)

  /** `r` reports page `page` of `rows` at `limit` rows a page: the page's
      rows, read consecutively after the earlier pages, and the counts. */
  ghost predicate IsPageOf<T>(r: Paged<T>, rows: seq<T>, page: int, limit: int)
    requires page >= 1 && limit >= 1
  {
    && r.page == page && r.limit == limit && r.total == |rows|
    && (r.totalPages - 1) * limit < |rows| <= r.totalPages * limit
    && |r.items| == (if Skip(page, limit) >= |rows| then 0 else Min(limit, |rows| - Skip(page, limit)))
    && (forall k :: 0 <= k < |r.items| ==> Skip(page, limit) + k < |rows| && r.items[k] == rows[Skip(page, limit) + k])
  }

  function Paginate<T>(rows: seq<T>, page: int, limit: int): (r: Paged<T>)
    requires page >= 1 && limit >= 1
    ensures IsPageOf(r, rows, page, limit)
    ensures |r.items| <= limit
    ensures |r.items| > 0 <==> page <= r.totalPages
  {
    PageNonEmpty(rows, page, limit);
    Paged(PageOf(rows, page, limit), page, limit, |rows|, TotalPages(|rows|, limit))
  }

  predicate ActivePost(p: Post) { p.isActive }

  /** The active posts, in listing order. */
  function ActivePosts(feed: Feed): seq<Post> {
    Filter(feed.posts, ActivePost)
  }

  /** One user's active posts, in listing order. */
  function UserPosts(feed: Feed, userId: Id): seq<Post> {
    Filter(feed.posts, (p: Post) => p.userId == userId && p.isActive)
  }

  /** A post's active comments, in listing order. */
  function PostComments(feed: Feed, postId: Id): seq<Comment> {
    Filter(feed.comments, (c: Comment) => c.postId == postId && c.isActive)
  }

  /** A page of the active posts. */
  function GetPosts(feed: Feed, page: int, limit: int): (r: Paged<Post>)
    requires page >= 1 && limit >= 1
    ensures forall k :: 0 <= k < |r.items| ==> r.items[k] in feed.posts && r.items[k].isActive
    ensures IsPageOf(r, ActivePosts(feed), page, limit)
    ensures |r.items| <= limit
  {
    Paginate(ActivePosts(feed), page, limit)
  }

  /** A page of one user's active posts. */
  function GetUserPosts(feed: Feed, userId: Id, page: int, limit: int): (r: Paged<Post>)
    requires page >= 1 && limit >= 1
    ensures forall k :: 0 <= k < |r.items| ==>
              r.items[k] in feed.posts && r.items[k].isActive && r.items[k].userId == userId
    ensures IsPageOf(r, UserPosts(feed, userId), page, limit)
    ensures |r.items| <= limit
  {
    Paginate(UserPosts(feed, userId), page, limit)
  }

  /** A page of a post's active comments. The post itself is not looked up:
      an unknown or deleted post has whatever comments the table holds for it. */
  function GetComments(feed: Feed, postId: Id, page: int, limit: int): (r: Paged<Comment>)
    requires page >= 1 && limit >= 1
    ensures forall k :: 0 <= k < |r.items| ==>
              r.items[k] in feed.comments && r.items[k].isActive && r.items[k].postId == postId
    ensures IsPageOf(r, PostComments(feed, postId), page, limit)
    ensures |r.items| <= limit
  {
    Paginate(PostComments(feed, postId), page, limit)
  }

  /** A new comment shows up in its post's listing on the last page. */
  lemma {:induction false} NewCommentListedLast(feed: Feed, postId: Id, userId: Id, content: string, commentId: Id, limit: int)
    requires limit >= 1
    requires CreateComment(feed, postId, userId, content, commentId).Ok?
    ensures var after := CreateComment(feed, postId, userId, content, commentId).value;
      var listed := GetComments(after.feed, postId, 1, limit);
      listed.totalPages >= 1 &&
      var lastPage := GetComments(after.feed, postId, listed.totalPages, limit);
      |lastPage.items| > 0 && lastPage.items[|lastPage.items| - 1] == after.comment
  {
    var after := CreateComment(feed, postId, userId, content, commentId).value;
    var p := (c: Comment) => c.postId == postId && c.isActive;
    FilterAppend(feed.comments, after.comment, p);
    var rows := Filter(after.feed.comments, p);
    var n := TotalPages(|rows|, limit);
    PageNonEmpty(rows, n, limit);
    var page := PageOf(rows, n, limit);
    assert Skip(n, limit) + |page| == |rows| by {
      var from := Skip(n, limit);
      assert from < |rows|;
      assert |rows| <= from + limit;
    }
  }
}
