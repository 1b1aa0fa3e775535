/**
  The five tables of the social-network store, the constraints their rows keep, and the
  `serialize` views of each row. Relationship back-references of the ORM
  (a user's followers, posts and comments, a post's medium and comments) are
  filtered queries over the tables, evaluated at serialization time.
*/
module Models {
  import opened Wrappers
  import opened Json
  import opened Text

  // ---------------------------------------------------------------------------
  // Rows
  // ---------------------------------------------------------------------------

  /** A row of the Users table. */
  datatype User = User(
    id: int,
    email: string,
    password: string,
    isActive: bool,
    isAdmin: bool,
    firstName: Option<string>,
    lastName: Option<string>)

  /** A row of the Followers table: `followerId` follows `followingId`. */
  datatype Edge = Edge(id: int, followingId: int, followerId: int)

  /** A calendar date (the `Date` column type). */
  datatype Date = Date(year: int, month: int, day: int)

  /** A row of the Posts table. */
  datatype Post = Post(
    id: int,
    title: Option<string>,
    description: Option<string>,
    body: Option<string>,
    date: Date,
    userId: int)

  /** The enumerated `medium_type` column. */
  datatype MediumType = Image | Video | Audio

  /** A row of the Media table. */
  datatype Medium = Medium(id: int, mediumType: MediumType, url: string, postId: int)

  /** A row of the Comments table. */
  datatype Comment = Comment(id: int, body: Option<string>, userId: int, postId: int)

  /** The whole store: one sequence of rows per table, in table order. */
  datatype Db = Db(
    users: seq<User>,
    followers: seq<Edge>,
    posts: seq<Post>,
    media: seq<Medium>,
    comments: seq<Comment>)

  // ---------------------------------------------------------------------------
  // The medium_type enumeration
  // ---------------------------------------------------------------------------

  const MediumTypeNames: seq<string> := ["image", "video", "audio"]

  function TypeName(t: MediumType): (s: string)
    ensures s in MediumTypeNames
  {
    match t
    case Image => "image"
    case Video => "video"
    case Audio => "audio"
  }

  /** Reads a requested `medium_type`; only the three enumerated names are accepted. */
  function ParseMediumType(s: Option<string>): (r: Option<MediumType>)
    ensures r.Some? <==> s.Some? && s.value in MediumTypeNames
    ensures r.Some? ==> TypeName(r.value) == s.value
  {
    if s == Some("image") then Some(Image)
    else if s == Some("video") then Some(Video)
    else if s == Some("audio") then Some(Audio)
    else None
  }

  lemma TypeNameRoundTrip(t: MediumType)
    ensures ParseMediumType(Some(TypeName(t))) == Some(t)
  {
  }

  // ---------------------------------------------------------------------------
  // Dates, rendered as DD-MM-YYYY
  // ---------------------------------------------------------------------------

  predicate IsLeapYear(y: int) {
    (y % 4 == 0 && y % 100 != 0) || y % 400 == 0
  }

  function DaysInMonth(year: int, month: int): int
    requires 1 <= month <= 12
  {
    if month == 2 then (if IsLeapYear(year) then 29 else 28)
    else if month in {4, 6, 9, 11} then 30
    else 31
  }

  /** A date the clock can produce, restricted to four-digit years. */
  predicate ValidDate(d: Date) {
    && 1000 <= d.year <= 9999
    && 1 <= d.month <= 12
    && 1 <= d.day <= DaysInMonth(d.year, d.month)
  }

  /** `strftime("%d-%m-%Y")`: zero-padded day, month and four-digit year. */
  function FormatDate(d: Date): (s: string)
    requires ValidDate(d)
    ensures |s| == 10 && s[2] == '-' && s[5] == '-'
    ensures AllDigits(s[0..2]) && AllDigits(s[3..5]) && AllDigits(s[6..10])
    ensures ParseDate(s) == Some(d)
  {
    var dd := Decimal(d.day, 2);
    var mm := Decimal(d.month, 2);
    var yyyy := Decimal(d.year, 4);
    var s := dd + "-" + mm + "-" + yyyy;
    assert s[0..2] == dd && s[3..5] == mm && s[6..10] == yyyy;
    s
  }

  /** Reads a `DD-MM-YYYY` string back into a date. */
  function ParseDate(s: string): Option<Date> {
    if |s| == 10 && s[2] == '-' && s[5] == '-'
       && AllDigits(s[0..2]) && AllDigits(s[3..5]) && AllDigits(s[6..10])
    then Some(Date(ParseDecimal(s[6..10]), ParseDecimal(s[3..5]), ParseDecimal(s[0..2])))
    else None
  }

  // ---------------------------------------------------------------------------
  // Table invariants. Some are declared on the columns (primary keys, `unique`,
  // `nullable=False`, foreign keys); the others hold only because every handler
  // checks before it writes and each handler is one atomic change.
  // ---------------------------------------------------------------------------

  predicate IsUser(users: seq<User>, id: int) {
    exists i :: 0 <= i < |users| && users[i].id == id
  }

  predicate IsPost(posts: seq<Post>, id: int) {
    exists i :: 0 <= i < |posts| && posts[i].id == id
  }

  predicate EmailTaken(users: seq<User>, email: string) {
    exists i :: 0 <= i < |users| && users[i].email == email
  }

  predicate HasEdge(edges: seq<Edge>, follower: int, following: int) {
    exists i :: 0 <= i < |edges| && edges[i].followerId == follower && edges[i].followingId == following
  }

  predicate HasMedium(media: seq<Medium>, postId: int) {
    exists i :: 0 <= i < |media| && media[i].postId == postId
  }

  /**
    Declared: distinct primary keys, unique `email`. Kept by the counter that hands out
    keys: every key is positive.
  */
  predicate UsersWellFormed(users: seq<User>) {
    && (forall i :: 0 <= i < |users| ==> users[i].id > 0)
    && (forall i, j :: 0 <= i < j < |users| ==> users[i].id != users[j].id)
    && (forall i, j :: 0 <= i < j < |users| ==> users[i].email != users[j].email)
  }

  /**
    Declared: distinct primary keys; each end, when set, refers to a user. Kept by the
    follow handler, which checks both users and the pair before inserting: both ends are
    set, and each ordered pair occurs at most once (no unique constraint is declared).
  */
  predicate FollowersWellFormed(users: seq<User>, edges: seq<Edge>) {
    && (forall i :: 0 <= i < |edges| ==> edges[i].id > 0)
    && (forall i, j :: 0 <= i < j < |edges| ==> edges[i].id != edges[j].id)
    && (forall i :: 0 <= i < |edges| ==> IsUser(users, edges[i].followerId) && IsUser(users, edges[i].followingId))
    && (forall i, j :: 0 <= i < j < |edges| ==>
          edges[i].followerId != edges[j].followerId || edges[i].followingId != edges[j].followingId)
  }

  /**
    Declared: distinct primary keys, non-null `date`, `user_id` referring to a user when
    set. Kept by the post handler: the owner is always the (non-falsy) caller, and the date
    lies in the four-digit years.
  */
  predicate PostsWellFormed(users: seq<User>, posts: seq<Post>) {
    && (forall i :: 0 <= i < |posts| ==> posts[i].id > 0)
    && (forall i, j :: 0 <= i < j < |posts| ==> posts[i].id != posts[j].id)
    && (forall i :: 0 <= i < |posts| ==> ValidDate(posts[i].date) && IsUser(users, posts[i].userId))
  }

  /**
    Declared: distinct primary keys, non-null `url`, non-null `post_id` referring to a post,
    and unique `post_id`, so a post has at most one medium. Kept by the medium handler,
    which rejects a falsy url: the url is non-empty.
  */
  predicate MediaWellFormed(posts: seq<Post>, media: seq<Medium>) {
    && (forall i :: 0 <= i < |media| ==> media[i].id > 0)
    && (forall i, j :: 0 <= i < j < |media| ==> media[i].id != media[j].id)
    && (forall i :: 0 <= i < |media| ==> media[i].url != "" && IsPost(posts, media[i].postId))
    && (forall i, j :: 0 <= i < j < |media| ==> media[i].postId != media[j].postId)
  }

  /**
    Declared: distinct primary keys; `user_id` and `post_id` refer to rows when set. Kept
    by the comment handler, which looks the post up first and takes the caller as author:
    both are set.
  */
  predicate CommentsWellFormed(users: seq<User>, posts: seq<Post>, comments: seq<Comment>) {
    && (forall i :: 0 <= i < |comments| ==> comments[i].id > 0)
    && (forall i, j :: 0 <= i < j < |comments| ==> comments[i].id != comments[j].id)
    && (forall i :: 0 <= i < |comments| ==> IsUser(users, comments[i].userId) && IsPost(posts, comments[i].postId))
  }

  /** Every table keeps its invariant. */
  predicate WellFormed(db: Db) {
    && UsersWellFormed(db.users)
    && FollowersWellFormed(db.users, db.followers)
    && PostsWellFormed(db.users, db.posts)
    && MediaWellFormed(db.posts, db.media)
    && CommentsWellFormed(db.users, db.posts, db.comments)
  }

  // ---------------------------------------------------------------------------
  // Back-references: filtered queries over the tables, in table order
  // ---------------------------------------------------------------------------

  /** The edges pointing at user `uid` (the user's `following_to`, i.e. its followers). */
  function EdgesTo(edges: seq<Edge>, uid: int): (r: seq<Edge>)
    ensures |r| <= |edges|
    ensures forall e :: e in r <==> e in edges && e.followingId == uid
    decreases |edges|
  {
    if edges == [] then []
    else
      var n := |edges| - 1;
      assert edges == edges[..n] + [edges[n]];
      EdgesTo(edges[..n], uid) + (if edges[n].followingId == uid then [edges[n]] else [])
  }

  /** The edges leaving user `uid` (the user's `follower_to`, i.e. whom it follows). */
  function EdgesFrom(edges: seq<Edge>, uid: int): (r: seq<Edge>)
    ensures |r| <= |edges|
    ensures forall e :: e in r <==> e in edges && e.followerId == uid
    decreases |edges|
  {
    if edges == [] then []
    else
      var n := |edges| - 1;
      assert edges == edges[..n] + [edges[n]];
      EdgesFrom(edges[..n], uid) + (if edges[n].followerId == uid then [edges[n]] else [])
  }

  /** The posts owned by user `uid` (`user_posts`). */
  function PostsBy(posts: seq<Post>, uid: int): (r: seq<Post>)
    ensures |r| <= |posts|
    ensures forall p :: p in r <==> p in posts && p.userId == uid
    decreases |posts|
  {
    if posts == [] then []
    else
      var n := |posts| - 1;
      assert posts == posts[..n] + [posts[n]];
      PostsBy(posts[..n], uid) + (if posts[n].userId == uid then [posts[n]] else [])
  }

  /** The comments written by user `uid` (`user_comments`). */
  function CommentsBy(comments: seq<Comment>, uid: int): (r: seq<Comment>)
    ensures |r| <= |comments|
    ensures forall c :: c in r <==> c in comments && c.userId == uid
    decreases |comments|
  {
    if comments == [] then []
    else
      var n := |comments| - 1;
      assert comments == comments[..n] + [comments[n]];
      CommentsBy(comments[..n], uid) + (if comments[n].userId == uid then [comments[n]] else [])
  }

  /** The comments on post `pid` (`comments_to_post`). */
  function CommentsOn(comments: seq<Comment>, pid: int): (r: seq<Comment>)
    ensures |r| <= |comments|
    ensures forall c :: c in r <==> c in comments && c.postId == pid
    decreases |comments|
  {
    if comments == [] then []
    else
      var n := |comments| - 1;
      assert comments == comments[..n] + [comments[n]];
      CommentsOn(comments[..n], pid) + (if comments[n].postId == pid then [comments[n]] else [])
  }

  /** Each an edge pointing at the user appears in the view as often as in the table, and nothing else appears. */
  lemma {:induction false} EdgesToCount(edges: seq<Edge>, uid: int)
    ensures forall e :: multiset(EdgesTo(edges, uid))[e] == if e.followingId == uid then multiset(edges)[e] else 0
    decreases |edges|
  {
    if edges != [] {
      var n := |edges| - 1;
      EdgesToCount(edges[..n], uid);
      assert edges == edges[..n] + [edges[n]];
    }
  }

  /** Each an edge leaving the user appears in the view as often as in the table, and nothing else appears. */
  lemma {:induction false} EdgesFromCount(edges: seq<Edge>, uid: int)
    ensures forall e :: multiset(EdgesFrom(edges, uid))[e] == if e.followerId == uid then multiset(edges)[e] else 0
    decreases |edges|
  {
    if edges != [] {
      var n := |edges| - 1;
      EdgesFromCount(edges[..n], uid);
      assert edges == edges[..n] + [edges[n]];
    }
  }

  /** Each a post owned by the user appears in the view as often as in the table, and nothing else appears. */
  lemma {:induction false} PostsByCount(posts: seq<Post>, uid: int)
    ensures forall p :: multiset(PostsBy(posts, uid))[p] == if p.userId == uid then multiset(posts)[p] else 0
    decreases |posts|
  {
    if posts != [] {
      var n := |posts| - 1;
      PostsByCount(posts[..n], uid);
      assert posts == posts[..n] + [posts[n]];
    }
  }

  /** Each a comment written by the user appears in the view as often as in the table, and nothing else appears. */
  lemma {:induction false} CommentsByCount(comments: seq<Comment>, uid: int)
    ensures forall c :: multiset(CommentsBy(comments, uid))[c] == if c.userId == uid then multiset(comments)[c] else 0
    decreases |comments|
  {
    if comments != [] {
      var n := |comments| - 1;
      CommentsByCount(comments[..n], uid);
      assert comments == comments[..n] + [comments[n]];
    }
  }

  /** Each a comment on the post appears in the view as often as in the table, and nothing else appears. */
  lemma {:induction false} CommentsOnCount(comments: seq<Comment>, pid: int)
    ensures forall c :: multiset(CommentsOn(comments, pid))[c] == if c.postId == pid then multiset(comments)[c] else 0
    decreases |comments|
  {
    if comments != [] {
      var n := |comments| - 1;
      CommentsOnCount(comments[..n], pid);
      assert comments == comments[..n] + [comments[n]];
    }
  }

  /** The medium of post `pid` (`medium_to_post`): the first row whose `post_id` is `pid`. */
  function MediumOf(media: seq<Medium>, pid: int): (r: Option<Medium>)
    ensures r.None? <==> !HasMedium(media, pid)
    ensures r.Some? ==> r.value in media && r.value.postId == pid
    ensures forall i :: 0 <= i < |media| && media[i].postId == pid ==>
              (forall j :: 0 <= j < |media| && j != i ==> media[j].postId != pid) ==> r == Some(media[i])
    decreases |media|
  {
    if media == [] then None
    else if media[0].postId == pid then Some(media[0])
    else
      var r := MediumOf(media[1..], pid);
      assert HasMedium(media[1..], pid) ==> HasMedium(media, pid) by {
        if HasMedium(media[1..], pid) {
          var i :| 0 <= i < |media[1..]| && media[1..][i].postId == pid;
          assert media[i + 1].postId == pid;
        }
      }
      assert forall i :: 1 <= i < |media| ==> media[i] == media[1..][i - 1];
      r
  }

  // ---------------------------------------------------------------------------
  // serialize
  // ---------------------------------------------------------------------------

  const FollowerKeys: set<string> := {"id", "following_id", "follower_id"}
  const CommentKeys: set<string> := {"id", "body", "user_id", "post_id"}
  const MediumKeys: set<string> := {"id", "medium_type", "url", "post_id"}
  const PostKeys: set<string> :=
    {"id", "title", "description", "body", "date", "medium_to_post", "comments", "user_id"}
  const UserKeys: set<string> :=
    {"id", "email", "is_active", "is_admin", "first_name", "last_name", "followers", "following", "posts", "comments"}

  /** `Followers.serialize`: exactly the three columns, readable back into the same row. */
  function SerializeEdge(e: Edge): (j: Json)
    ensures j.Obj? && j.fields.Keys == FollowerKeys
    ensures ParseEdge(j) == Some(e)
  {
    Obj(map["id" := Int(e.id), "following_id" := Int(e.followingId), "follower_id" := Int(e.followerId)])
  }

  function ParseEdge(j: Json): Option<Edge> {
    if j.Obj? && FollowerKeys <= j.fields.Keys
       && j.fields["id"].Int? && j.fields["following_id"].Int? && j.fields["follower_id"].Int?
    then Some(Edge(j.fields["id"].n, j.fields["following_id"].n, j.fields["follower_id"].n))
    else None
  }

  /** `Comments.serialize`: exactly the four columns, readable back into the same row. */
  function SerializeComment(c: Comment): (j: Json)
    ensures j.Obj? && j.fields.Keys == CommentKeys
    ensures ParseComment(j) == Some(c)
  {
    Obj(map["id" := Int(c.id), "body" := OptStr(c.body), "user_id" := Int(c.userId), "post_id" := Int(c.postId)])
  }

  function ParseComment(j: Json): Option<Comment> {
    if j.Obj? && CommentKeys <= j.fields.Keys
       && j.fields["id"].Int? && j.fields["user_id"].Int? && j.fields["post_id"].Int?
       && (j.fields["body"].Null? || j.fields["body"].Str?)
    then
      var body := if j.fields["body"].Str? then Some(j.fields["body"].s) else None;
      Some(Comment(j.fields["id"].n, body, j.fields["user_id"].n, j.fields["post_id"].n))
    else None
  }

  /** `Media.serialize`: exactly the four columns, readable back into the same row. */
  function SerializeMedium(m: Medium): (j: Json)
    ensures j.Obj? && j.fields.Keys == MediumKeys
    ensures ParseMedium(j) == Some(m)
  {
    Obj(map["id" := Int(m.id), "medium_type" := Str(TypeName(m.mediumType)),
            "url" := Str(m.url), "post_id" := Int(m.postId)])
  }

  function ParseMedium(j: Json): Option<Medium> {
    if j.Obj? && MediumKeys <= j.fields.Keys
       && j.fields["id"].Int? && j.fields["medium_type"].Str? && j.fields["url"].Str? && j.fields["post_id"].Int?
       && ParseMediumType(Some(j.fields["medium_type"].s)).Some?
    then Some(Medium(j.fields["id"].n, ParseMediumType(Some(j.fields["medium_type"].s)).value,
                     j.fields["url"].s, j.fields["post_id"].n))
    else None
  }

  /** The serialized comments of a list, in list order. */
  function SerializeComments(cs: seq<Comment>): (r: seq<Json>)
    ensures |r| == |cs|
    ensures forall x :: x in r <==> exists c :: c in cs && x == SerializeComment(c)
  {
    var r := seq(|cs|, k requires 0 <= k < |cs| => SerializeComment(cs[k]));
    MappedMembers(SerializeComment, cs, r);
    r
  }

  /**
    `Posts.serialize`. The medium is rendered as its url, or null when the post has
    none; the comments as a list, or null (not an empty list) when there are none.
  */
  function SerializePost(db: Db, p: Post): (j: Json)
    requires ValidDate(p.date)
    ensures j.Obj? && j.fields.Keys == PostKeys
  {
    Obj(map[
      "id" := Int(p.id),
      "title" := OptStr(p.title),
      "description" := OptStr(p.description),
      "body" := OptStr(p.body),
      "date" := Str(FormatDate(p.date)),
      "medium_to_post" := MediumUrl(db.media, p.id),
      "comments" := PostComments(db.comments, p.id),
      "user_id" := Int(p.userId)])
  }

  /** The "medium_to_post" member: the url of the post's medium, or null when it has none. */
  function MediumUrl(media: seq<Medium>, pid: int): Json {
    match MediumOf(media, pid)
    case Some(m) => Str(m.url)
    case None => Null
  }

  /** The "comments" member of a post: its serialized comments, or null when it has none. */
  function PostComments(comments: seq<Comment>, pid: int): Json {
    var onPost := CommentsOn(comments, pid);
    if onPost != [] then Arr(SerializeComments(onPost)) else Null
  }

  /** The columns of a post that `Posts.serialize` renders itself, without the relationships. */
  datatype PostColumns = PostColumns(
    id: int,
    title: Option<string>,
    description: Option<string>,
    body: Option<string>,
    date: Date,
    userId: int)

  /** Reads the columns of a post back from a serialized post. */
  function ParsePostColumns(j: Json): Option<PostColumns> {
    if j.Obj? && {"id", "title", "description", "body", "date", "user_id"} <= j.fields.Keys
       && j.fields["id"].Int? && j.fields["user_id"].Int? && j.fields["date"].Str?
       && ParseOptStr(j.fields["title"]).Some?
       && ParseOptStr(j.fields["description"]).Some?
       && ParseOptStr(j.fields["body"]).Some?
       && ParseDate(j.fields["date"].s).Some?
    then Some(PostColumns(
      j.fields["id"].n,
      ParseOptStr(j.fields["title"]).value,
      ParseOptStr(j.fields["description"]).value,
      ParseOptStr(j.fields["body"]).value,
      ParseDate(j.fields["date"].s).value,
      j.fields["user_id"].n))
    else None
  }

  /** A serialized post reads back as the post's own columns and its owner. */
  lemma PostColumnsRoundTrip(db: Db, p: Post)
    requires ValidDate(p.date)
    ensures ParsePostColumns(SerializePost(db, p)) ==
              Some(PostColumns(p.id, p.title, p.description, p.body, p.date, p.userId))
  {
    var j := SerializePost(db, p);
    assert j.fields["id"] == Int(p.id) && j.fields["user_id"] == Int(p.userId);
    assert j.fields["title"] == OptStr(p.title);
    assert j.fields["description"] == OptStr(p.description);
    assert j.fields["body"] == OptStr(p.body);
    assert j.fields["date"] == Str(FormatDate(p.date));
  }

  /** A post's "date" is a `DD-MM-YYYY` string that reads back as the post's date. */
  lemma PostDateField(db: Db, p: Post)
    requires ValidDate(p.date)
    ensures SerializePost(db, p).fields["date"].Str?
    ensures |SerializePost(db, p).fields["date"].s| == 10
    ensures ParseDate(SerializePost(db, p).fields["date"].s) == Some(p.date)
  {
    assert SerializePost(db, p).fields["date"] == Str(FormatDate(p.date));
  }

  /** A post's "medium_to_post" is null exactly when no medium row points at the post, and otherwise the url of such a row. */
  lemma PostMediumField(db: Db, p: Post)
    requires ValidDate(p.date)
    ensures SerializePost(db, p).fields["medium_to_post"] == Null <==> !HasMedium(db.media, p.id)
    ensures SerializePost(db, p).fields["medium_to_post"] != Null ==>
              exists m :: m in db.media && m.postId == p.id && SerializePost(db, p).fields["medium_to_post"] == Str(m.url)
  {
    assert SerializePost(db, p).fields["medium_to_post"] == MediumUrl(db.media, p.id);
  }

  /** Under the unique `post_id` constraint, "medium_to_post" is the url of the post's one medium. */
  lemma PostMediumUrl(db: Db, p: Post, i: int)
    requires ValidDate(p.date) && MediaWellFormed(db.posts, db.media)
    requires 0 <= i < |db.media| && db.media[i].postId == p.id
    ensures SerializePost(db, p).fields["medium_to_post"] == Str(db.media[i].url)
  {
    assert MediumOf(db.media, p.id) == Some(db.media[i]);
    assert SerializePost(db, p).fields["medium_to_post"] == MediumUrl(db.media, p.id);
  }

  /**
    A post's "comments" is null exactly when no comment targets the post; otherwise it
    is a list holding the serialized form of exactly the comments on the post.
  */
  lemma PostCommentsField(db: Db, p: Post)
    requires ValidDate(p.date)
    ensures SerializePost(db, p).fields["comments"] == Null <==> forall c :: c in db.comments ==> c.postId != p.id
    ensures SerializePost(db, p).fields["comments"] != Null ==>
              SerializePost(db, p).fields["comments"].Arr? &&
              forall x :: x in SerializePost(db, p).fields["comments"].items <==>
                exists c :: c in db.comments && c.postId == p.id && x == SerializeComment(c)
  {
    var onPost := CommentsOn(db.comments, p.id);
    var field := SerializePost(db, p).fields["comments"];
    assert field == PostComments(db.comments, p.id);
    if forall c :: c in db.comments ==> c.postId != p.id {
      NoCommentsOn(db.comments, p.id);
    }
  }

  /** The follower ids of a list of edges, in list order. */
  function FollowerIdsOf(es: seq<Edge>): (r: seq<int>)
    ensures |r| == |es|
    ensures forall x :: x in r <==> exists e :: e in es && e.followerId == x
  {
    var r := seq(|es|, k requires 0 <= k < |es| => es[k].followerId);
    assert forall e :: e in es ==> e.followerId in r by {
      forall e | e in es ensures e.followerId in r {
        var k :| 0 <= k < |es| && es[k] == e;
        assert r[k] == e.followerId;
      }
    }
    r
  }

  /** The followed ids of a list of edges, in list order. */
  function FollowingIdsOf(es: seq<Edge>): (r: seq<int>)
    ensures |r| == |es|
    ensures forall x :: x in r <==> exists e :: e in es && e.followingId == x
  {
    var r := seq(|es|, k requires 0 <= k < |es| => es[k].followingId);
    assert forall e :: e in es ==> e.followingId in r by {
      forall e | e in es ensures e.followingId in r {
        var k :| 0 <= k < |es| && es[k] == e;
        assert r[k] == e.followingId;
      }
    }
    r
  }

  /** The ids of a list of posts, in list order. */
  function PostIdsOf(ps: seq<Post>): (r: seq<int>)
    ensures |r| == |ps|
    ensures forall x :: x in r <==> exists p :: p in ps && p.id == x
  {
    var r := seq(|ps|, k requires 0 <= k < |ps| => ps[k].id);
    assert forall p :: p in ps ==> p.id in r by {
      forall p | p in ps ensures p.id in r {
        var k :| 0 <= k < |ps| && ps[k] == p;
        assert r[k] == p.id;
      }
    }
    r
  }

  /**
    `Users.serialize`: the columns other than the password, plus the follower ids,
    the followed ids, the post ids and the serialized comments, each read from the
    tables at the time of serialization.
  */
  function SerializeUser(db: Db, u: User): (j: Json)
    ensures j.Obj? && j.fields.Keys == UserKeys
  {
    Obj(map[
      "id" := Int(u.id),
      "email" := Str(u.email),
      "is_active" := Bool(u.isActive),
      "is_admin" := Bool(u.isAdmin),
      "first_name" := OptStr(u.firstName),
      "last_name" := OptStr(u.lastName),
      "followers" := Arr(Ints(FollowerIdsOf(EdgesTo(db.followers, u.id)))),
      "following" := Arr(Ints(FollowingIdsOf(EdgesFrom(db.followers, u.id)))),
      "posts" := Arr(Ints(PostIdsOf(PostsBy(db.posts, u.id)))),
      "comments" := Arr(SerializeComments(CommentsBy(db.comments, u.id)))])
  }

  /** The columns of a user that `Users.serialize` renders: all of them except the password. */
  datatype UserColumns = UserColumns(
    id: int,
    email: string,
    isActive: bool,
    isAdmin: bool,
    firstName: Option<string>,
    lastName: Option<string>)

  /** Reads the columns of a user back from a serialized user. */
  function ParseUserColumns(j: Json): Option<UserColumns> {
    if j.Obj? && {"id", "email", "is_active", "is_admin", "first_name", "last_name"} <= j.fields.Keys
       && j.fields["id"].Int? && j.fields["email"].Str?
       && j.fields["is_active"].Bool? && j.fields["is_admin"].Bool?
       && ParseOptStr(j.fields["first_name"]).Some?
       && ParseOptStr(j.fields["last_name"]).Some?
    then Some(UserColumns(
      j.fields["id"].n,
      j.fields["email"].s,
      j.fields["is_active"].b,
      j.fields["is_admin"].b,
      ParseOptStr(j.fields["first_name"]).value,
      ParseOptStr(j.fields["last_name"]).value))
    else None
  }

  /** A serialized user reads back as the user's columns; the password is not among them. */
  lemma UserColumnsRoundTrip(db: Db, u: User)
    ensures ParseUserColumns(SerializeUser(db, u)) ==
              Some(UserColumns(u.id, u.email, u.isActive, u.isAdmin, u.firstName, u.lastName))
  {
    var j := SerializeUser(db, u);
    assert j.fields["id"] == Int(u.id) && j.fields["email"] == Str(u.email);
    assert j.fields["is_active"] == Bool(u.isActive) && j.fields["is_admin"] == Bool(u.isAdmin);
    assert j.fields["first_name"] == OptStr(u.firstName);
    assert j.fields["last_name"] == OptStr(u.lastName);
  }

  /** "followers" lists x exactly when some edge says x follows the user. */
  lemma UserFollowersField(db: Db, u: User, x: int)
    ensures SerializeUser(db, u).fields["followers"].Arr?
    ensures Int(x) in SerializeUser(db, u).fields["followers"].items <==>
              exists e :: e in db.followers && e.followingId == u.id && e.followerId == x
  {
    var es := EdgesTo(db.followers, u.id);
    assert SerializeUser(db, u).fields["followers"] == Arr(Ints(FollowerIdsOf(es)));
    if exists e :: e in db.followers && e.followingId == u.id && e.followerId == x {
      var e :| e in db.followers && e.followingId == u.id && e.followerId == x;
      assert e in es;
    }
  }

  /** "following" lists x exactly when some edge says the user follows x. */
  lemma UserFollowingField(db: Db, u: User, x: int)
    ensures SerializeUser(db, u).fields["following"].Arr?
    ensures Int(x) in SerializeUser(db, u).fields["following"].items <==>
              exists e :: e in db.followers && e.followerId == u.id && e.followingId == x
  {
    var es := EdgesFrom(db.followers, u.id);
    assert SerializeUser(db, u).fields["following"] == Arr(Ints(FollowingIdsOf(es)));
    if exists e :: e in db.followers && e.followerId == u.id && e.followingId == x {
      var e :| e in db.followers && e.followerId == u.id && e.followingId == x;
      assert e in es;
    }
  }

  /** "posts" lists x exactly when a post with id x is owned by the user. */
  lemma UserPostsField(db: Db, u: User, x: int)
    ensures SerializeUser(db, u).fields["posts"].Arr?
    ensures Int(x) in SerializeUser(db, u).fields["posts"].items <==>
              exists p :: p in db.posts && p.userId == u.id && p.id == x
  {
    var ps := PostsBy(db.posts, u.id);
    assert SerializeUser(db, u).fields["posts"] == Arr(Ints(PostIdsOf(ps)));
    if exists p :: p in db.posts && p.userId == u.id && p.id == x {
      var p :| p in db.posts && p.userId == u.id && p.id == x;
      assert p in ps;
    }
  }

  /** "comments" holds the serialized form of exactly the comments the user wrote. */
  lemma UserCommentsField(db: Db, u: User, x: Json)
    ensures SerializeUser(db, u).fields["comments"].Arr?
    ensures x in SerializeUser(db, u).fields["comments"].items <==>
              exists c :: c in db.comments && c.userId == u.id && x == SerializeComment(c)
  {
    var cs := CommentsBy(db.comments, u.id);
    assert SerializeUser(db, u).fields["comments"] == Arr(SerializeComments(cs));
    if exists c :: c in db.comments && c.userId == u.id && x == SerializeComment(c) {
      var c :| c in db.comments && c.userId == u.id && x == SerializeComment(c);
      assert c in cs;
    }
  }

  // ---------------------------------------------------------------------------
  // How the back-references react to table changes
  // ---------------------------------------------------------------------------

  lemma {:induction false} NoEdgesTo(edges: seq<Edge>, uid: int)
    requires forall e :: e in edges ==> e.followingId != uid
    ensures EdgesTo(edges, uid) == []
    decreases |edges|
  {
    if edges != [] {
      var n := |edges| - 1;
      assert edges[n] in edges;
      NoEdgesTo(edges[..n], uid);
    }
  }

  lemma {:induction false} NoEdgesFrom(edges: seq<Edge>, uid: int)
    requires forall e :: e in edges ==> e.followerId != uid
    ensures EdgesFrom(edges, uid) == []
    decreases |edges|
  {
    if edges != [] {
      var n := |edges| - 1;
      assert edges[n] in edges;
      NoEdgesFrom(edges[..n], uid);
    }
  }

  lemma {:induction false} NoPostsBy(posts: seq<Post>, uid: int)
    requires forall p :: p in posts ==> p.userId != uid
    ensures PostsBy(posts, uid) == []
    decreases |posts|
  {
    if posts != [] {
      var n := |posts| - 1;
      assert posts[n] in posts;
      NoPostsBy(posts[..n], uid);
    }
  }

  lemma {:induction false} NoCommentsBy(comments: seq<Comment>, uid: int)
    requires forall c :: c in comments ==> c.userId != uid
    ensures CommentsBy(comments, uid) == []
    decreases |comments|
  {
    if comments != [] {
      var n := |comments| - 1;
      assert comments[n] in comments;
      NoCommentsBy(comments[..n], uid);
    }
  }

  lemma {:induction false} NoCommentsOn(comments: seq<Comment>, pid: int)
    requires forall c :: c in comments ==> c.postId != pid
    ensures CommentsOn(comments, pid) == []
    decreases |comments|
  {
    if comments != [] {
      var n := |comments| - 1;
      assert comments[n] in comments;
      NoCommentsOn(comments[..n], pid);
    }
  }

  /** A user id that no row refers to has no followers, followed users, posts or comments. */
  lemma UnreferencedUserHasNoRelations(db: Db, uid: int)
    requires forall e :: e in db.followers ==> e.followerId != uid && e.followingId != uid
    requires forall p :: p in db.posts ==> p.userId != uid
    requires forall c :: c in db.comments ==> c.userId != uid
    ensures EdgesTo(db.followers, uid) == [] && EdgesFrom(db.followers, uid) == []
    ensures PostsBy(db.posts, uid) == [] && CommentsBy(db.comments, uid) == []
  {
    NoEdgesTo(db.followers, uid);
    NoEdgesFrom(db.followers, uid);
    NoPostsBy(db.posts, uid);
    NoCommentsBy(db.comments, uid);
  }
}
