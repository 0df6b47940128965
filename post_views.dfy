/**
  The social API's post views (social_media_api/posts/views.py): liking and
  unliking a post, creating a comment, the notifications both send to the
  post's author, the feed of followed authors' posts, and the page-size bounds
  of the default pagination. The tables are the fields of `SocialDb`; the
  requesting user is a parameter.
 */
module PostViews {
  import opened Wrappers
  import opened Notifications
  import opened Accounts

  type PostId = nat

  /** A stored Post row: what the views read of it. */
  datatype Post = Post(id: PostId, author: UserId, createdAt: int)

  /** A stored Like row; the table holds at most one per (post, user) pair. */
  datatype Like = Like(post: PostId, user: UserId)

  /** A stored Comment row. */
  datatype Comment = Comment(id: nat, post: PostId, author: UserId, content: string)

  /** A view's response: the 404 raised by `get_object_or_404`, or a status with a `detail` message. */
  datatype Response = NotFound | Reply(status: int, detail: string)

  /** The model name under which a post is a notification target. */
  const PostModel: string := "post"

  /** `get_object_or_404(Post, pk=pk)`: the post with that id, if there is one. */
  function FindPost(posts: seq<Post>, pk: PostId): (r: Option<Post>)
    ensures r.Some? ==> r.value in posts && r.value.id == pk
    ensures r.None? ==> forall i :: 0 <= i < |posts| ==> posts[i].id != pk
  {
    if posts == [] then None
    else if posts[0].id == pk then Some(posts[0])
    else FindPost(posts[1..], pk)
  }

  /** The Post, Like, Comment and follower tables. */
  class SocialDb {
    var posts: seq<Post>
    var likes: set<Like>
    var comments: seq<Comment>
    var nextCommentId: nat
    /** `followers[v]`: the users who follow `v` (the `followers` many-to-many of the User model). */
    var followers: map<UserId, set<UserId>>

    /** Post ids are unique and comment ids are issued in increasing order. */
    ghost predicate Valid()
      reads this
    {
      && (forall i, j :: 0 <= i < j < |posts| ==> posts[i].id != posts[j].id)
      && (forall i :: 0 <= i < |comments| ==> comments[i].id < nextCommentId)
    }

    /** Empty tables. */
    constructor ()
      ensures Valid()
      ensures posts == [] && likes == {} && comments == [] && followers == map[]
    {
      posts := [];
      likes := {};
      comments := [];
      nextCommentId := 0;
      followers := map[];
    }
  }

  /**
    `LikePostView.post`: an unknown post is not found and changes nothing; a
    repeated like changes nothing and answers 200; a first like inserts the
    (post, user) pair, answers 201, and notifies the post's author exactly once
    unless the liker is the author.
   */
  method LikePost(db: SocialDb, notes: NotificationTable, pk: PostId, user: UserId) returns (resp: Response)
    requires notes.Valid()
    modifies db`likes, notes
    ensures notes.Valid()
    ensures FindPost(db.posts, pk).None? ==>
              resp == NotFound && db.likes == old(db.likes)
              && notes.rows == old(notes.rows) && notes.nextId == old(notes.nextId)
    ensures FindPost(db.posts, pk).Some? && Like(pk, user) in old(db.likes) ==>
              resp == Reply(200, "Already liked.") && db.likes == old(db.likes)
              && notes.rows == old(notes.rows) && notes.nextId == old(notes.nextId)
    ensures FindPost(db.posts, pk).Some? && Like(pk, user) !in old(db.likes) ==>
              var post := FindPost(db.posts, pk).value;
              && resp == Reply(201, "Liked.")
              && db.likes == old(db.likes) + {Like(pk, user)}
              && (if post.author != user
                  then && NotifiedOnce(old(notes.rows), notes.rows, old(notes.nextId), post.author, user, "liked your post", Instance(PostModel, pk))
                       && notes.nextId == old(notes.nextId) + 1
                  else notes.rows == old(notes.rows) && notes.nextId == old(notes.nextId))
  {
    var found := FindPost(db.posts, pk);
    if found.None? {
      return NotFound;
    }
    var post := found.value;
    if Like(pk, user) in db.likes {
      return Reply(200, "Already liked.");
    }
    db.likes := db.likes + {Like(pk, user)};
    if post.author != user {
      var n := notes.Create(post.author, user, "liked your post", Instance(PostModel, post.id));
    }
    resp := Reply(201, "Liked.");
  }

  /**
    `UnlikePostView.post`: an unknown post is not found and changes nothing;
    otherwise the (post, user) like is removed if present, every other like is
    kept, and the answer is always 200, so unliking twice is unliking once.
   */
  method UnlikePost(db: SocialDb, pk: PostId, user: UserId) returns (resp: Response)
    modifies db`likes
    ensures FindPost(db.posts, pk).None? ==> resp == NotFound && db.likes == old(db.likes)
    ensures FindPost(db.posts, pk).Some? ==>
              resp == Reply(200, "Unliked.") && db.likes == old(db.likes) - {Like(pk, user)}
  {
    var found := FindPost(db.posts, pk);
    if found.None? {
      return NotFound;
    }
    db.likes := db.likes - {Like(pk, user)};
    resp := Reply(200, "Unliked.");
  }

  /**
    `CommentViewSet.perform_create`: the comment is saved with the requester as
    its author, and the post's author is notified unless they wrote it.
   */
  method CreateComment(db: SocialDb, notes: NotificationTable, post: PostId, user: UserId, content: string)
    returns (comment: Comment)
    requires db.Valid()
    requires FindPost(db.posts, post).Some?
    requires notes.Valid()
    modifies db`comments, db`nextCommentId, notes
    ensures db.Valid() && notes.Valid()
    ensures comment == Comment(old(db.nextCommentId), post, user, content)
    ensures db.comments == old(db.comments) + [comment] && db.nextCommentId == old(db.nextCommentId) + 1
    ensures var author := FindPost(db.posts, post).value.author;
            if author != user
            then && NotifiedOnce(old(notes.rows), notes.rows, old(notes.nextId), author, user, "commented on your post", Instance(PostModel, post))
                 && notes.nextId == old(notes.nextId) + 1
            else notes.rows == old(notes.rows) && notes.nextId == old(notes.nextId)
  {
    comment := Comment(db.nextCommentId, post, user, content);
    db.comments := db.comments + [comment];
    db.nextCommentId := db.nextCommentId + 1;
    var target := FindPost(db.posts, post).value;
    if target.author != user {
      var n := notes.Create(target.author, user, "commented on your post", Instance(PostModel, target.id));
    }
  }

  /** `Post.objects.filter(author__in=authors)`, in table order. */
  function PostsBy(posts: seq<Post>, authors: set<UserId>): (r: seq<Post>)
    ensures forall p :: multiset(r)[p] == if p.author in authors then multiset(posts)[p] else 0
  {
    if posts == [] then []
    else
      assert posts == [posts[0]] + posts[1..];
      (if posts[0].author in authors then [posts[0]] else []) + PostsBy(posts[1..], authors)
  }

  /** Newest first: `created_at` never increases along the sequence. */
  predicate NewestFirst(s: seq<Post>) {
    forall i, j :: 0 <= i < j < |s| ==> s[i].createdAt >= s[j].createdAt
  }

  /** Insert `p` into a newest-first sequence, keeping it newest first. */
  function InsertNewestFirst(p: Post, s: seq<Post>): (r: seq<Post>)
    requires NewestFirst(s)
    ensures NewestFirst(r)
    ensures multiset(r) == multiset(s) + multiset{p}
  {
    if s == [] || p.createdAt >= s[0].createdAt then [p] + s
    else
      var rest := InsertNewestFirst(p, s[1..]);
      InsertBehindHead(p, s, rest);
      [s[0]] + rest
  }

  /** The recursive step of the insertion: the head of `s` is newer than everything inserted behind it. */
  lemma InsertBehindHead(p: Post, s: seq<Post>, rest: seq<Post>)
    requires NewestFirst(s) && s != [] && p.createdAt < s[0].createdAt
    requires NewestFirst(rest) && multiset(rest) == multiset(s[1..]) + multiset{p}
    ensures NewestFirst([s[0]] + rest)
    ensures multiset([s[0]] + rest) == multiset(s) + multiset{p}
  {
    assert s == [s[0]] + s[1..];
    forall j | 0 <= j < |rest| ensures s[0].createdAt >= rest[j].createdAt {
      assert rest[j] in multiset(rest);
      if rest[j] != p {
        assert rest[j] in multiset(s[1..]);
        var k :| 0 <= k < |s[1..]| && s[1..][k] == rest[j];
        assert s[k + 1] == rest[j];
      }
    }
    var r := [s[0]] + rest;
    forall i, j | 0 <= i < j < |r| ensures r[i].createdAt >= r[j].createdAt {
      assert r[j] == rest[j - 1];
      if i > 0 {
        assert r[i] == rest[i - 1];
      }
    }
  }

  /** `order_by("-created_at")`: the same posts, newest first. */
  function SortNewestFirst(s: seq<Post>): (r: seq<Post>)
    ensures NewestFirst(r)
    ensures multiset(r) == multiset(s)
  {
    if s == [] then []
    else
      assert s == [s[0]] + s[1..];
      InsertNewestFirst(s[0], SortNewestFirst(s[1..]))
  }

  /**
    `FeedView.get_queryset`: exactly the posts whose author the user follows,
    each as often as in the table, newest first.
   */
  function Feed(posts: seq<Post>, followers: map<UserId, set<UserId>>, user: UserId): (r: seq<Post>)
    ensures NewestFirst(r)
    ensures forall p :: multiset(r)[p] == if p.author in Following(followers, user) then multiset(posts)[p] else 0
    ensures forall p :: p in r <==> p in posts && p.author in followers && user in followers[p.author]
  {
    SortNewestFirst(PostsBy(posts, Following(followers, user)))
  }

  /** `DefaultPagination.page_size`. */
  const DefaultPageSize: nat := 10

  /** `DefaultPagination.max_page_size`. */
  const MaxPageSize: nat := 100

  /** The `page_size` query parameter: absent, not an integer, or an integer. */
  datatype PageSizeParam = Absent | Malformed | Given(n: int)

  /**
    The page size DRF takes for `DefaultPagination`: the requested size capped
    at 100 when it is a positive integer; otherwise (absent, not an integer,
    zero or negative) the default of 10.
   */
  function PageSize(param: PageSizeParam): (size: nat)
    ensures 1 <= size <= MaxPageSize
    ensures !(param.Given? && param.n > 0) ==> size == DefaultPageSize
    ensures param.Given? && 0 < param.n <= MaxPageSize ==> size == param.n
    ensures param.Given? && param.n > MaxPageSize ==> size == MaxPageSize
  {
    match param
    case Given(n) =>
      if n <= 0 then DefaultPageSize
      else if n > MaxPageSize then MaxPageSize
      else n
    case _ => DefaultPageSize
  }

  /** The number of pages of `count` items; an empty list still has its first page. */
  function PageCount(count: nat, size: nat): (pages: nat)
    requires size >= 1
    ensures pages >= 1 && count <= pages * size
    ensures count == 0 ==> pages == 1
    ensures count > 0 ==> (pages - 1) * size < count
  {
    if count == 0 then 1 else (count + size - 1) / size
  }

  /**
    Page `number` (1-based) of `items`: the slice from `(number - 1) * size`,
    at most `size` items; a number outside `1..PageCount` is not found.
   */
  function Page<T>(items: seq<T>, number: int, size: nat): (r: Option<seq<T>>)
    requires size >= 1
    ensures r.Some? <==> 1 <= number <= PageCount(|items|, size)
    ensures r.Some? ==> |r.value| <= size
    ensures r.Some? ==> forall i :: 0 <= i < |r.value| ==>
              (number - 1) * size + i < |items| && r.value[i] == items[(number - 1) * size + i]
  {
    if 1 <= number <= PageCount(|items|, size) then
      var start := (number - 1) * size;
      var end := if start + size <= |items| then start + size else |items|;
      if start <= end then Some(items[start..end]) else Some([])
    else None
  }

  /** Every item is on exactly the page its index says: item `k` is entry `k % size` of page `k / size + 1`. */
  lemma PageHoldsEveryItem<T>(items: seq<T>, size: nat, k: nat)
    requires size >= 1 && k < |items|
    ensures var p := Page(items, k / size + 1, size);
            p.Some? && k % size < |p.value| && p.value[k % size] == items[k]
  {
    PagePosition(k, size, |items|);
    var start := (k / size + 1 - 1) * size;
    var end := if start + size <= |items| then start + size else |items|;
    assert Page(items, k / size + 1, size) == Some(items[start..end]);
  }

  /** Index `k` of `count` items falls on page `k / size + 1`, at offset `k % size` from that page's start. */
  lemma PagePosition(k: nat, size: nat, count: nat)
    requires size >= 1 && k < count
    ensures 1 <= k / size + 1 <= PageCount(count, size)
    ensures (k / size + 1 - 1) * size + k % size == k && k % size < size
  {
    var pages := PageCount(count, size);
    QuotientBelow(k, size, pages);
  }

  /** An index below `pages * size` lies on one of the first `pages` pages. */
  lemma QuotientBelow(k: nat, size: nat, pages: nat)
    requires size >= 1 && k < pages * size
    ensures k / size < pages
  {
  }
}
