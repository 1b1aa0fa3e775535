/**
  The request handlers of the API. Each handler checks the caller and its inputs,
  answers with a status code and a "results" payload, and on success changes at
  most one row of the store. The caller's identity, which the service reads from
  the claims of a verified access token, is the parameter `caller`; a falsy
  identity is 0. The current date is the parameter `today`.
*/
module Routes {
  import opened Wrappers
  import opened Json
  import opened Text
  import opened Models

  /** The status code and the "results" member of a response body. */
  datatype Response = Response(status: int, results: Json)

  // ---------------------------------------------------------------------------
  // Queries (`db.select(...).where(...).scalar()`: the first matching row)
  // ---------------------------------------------------------------------------

  /** The position of the first user with id `id`. */
  function FindUser(users: seq<User>, id: int): (r: Option<nat>)
    ensures r.None? <==> !IsUser(users, id)
    ensures r.Some? ==> r.value < |users| && users[r.value].id == id
    ensures r.Some? ==> forall k :: 0 <= k < r.value ==> users[k].id != id
    decreases |users|
  {
    if users == [] then None
    else if users[0].id == id then Some(0)
    else
      var r := FindUser(users[1..], id);
      assert IsUser(users[1..], id) <==> IsUser(users, id) by {
        if IsUser(users, id) {
          var i :| 0 <= i < |users| && users[i].id == id;
          assert users[1..][i - 1].id == id;
        }
        if IsUser(users[1..], id) {
          var i :| 0 <= i < |users[1..]| && users[1..][i].id == id;
          assert users[i + 1].id == id;
        }
      }
      if r.None? then None else Some(r.value + 1)
  }

  /** The position of the first post with id `id`. */
  function FindPost(posts: seq<Post>, id: int): (r: Option<nat>)
    ensures r.None? <==> !IsPost(posts, id)
    ensures r.Some? ==> r.value < |posts| && posts[r.value].id == id
    decreases |posts|
  {
    if posts == [] then None
    else if posts[0].id == id then Some(0)
    else
      var r := FindPost(posts[1..], id);
      assert IsPost(posts[1..], id) <==> IsPost(posts, id) by {
        if IsPost(posts, id) {
          var i :| 0 <= i < |posts| && posts[i].id == id;
          assert posts[1..][i - 1].id == id;
        }
        if IsPost(posts[1..], id) {
          var i :| 0 <= i < |posts[1..]| && posts[1..][i].id == id;
          assert posts[i + 1].id == id;
        }
      }
      if r.None? then None else Some(r.value + 1)
  }

  /** The position of the first edge saying that `follower` follows `following`. */
  function FindEdge(edges: seq<Edge>, follower: int, following: int): (r: Option<nat>)
    ensures r.None? <==> !HasEdge(edges, follower, following)
    ensures r.Some? ==> r.value < |edges|
    ensures r.Some? ==> edges[r.value].followerId == follower && edges[r.value].followingId == following
    decreases |edges|
  {
    if edges == [] then None
    else if edges[0].followerId == follower && edges[0].followingId == following then Some(0)
    else
      var r := FindEdge(edges[1..], follower, following);
      assert HasEdge(edges[1..], follower, following) <==> HasEdge(edges, follower, following) by {
        if HasEdge(edges, follower, following) {
          var i :| 0 <= i < |edges| && edges[i].followerId == follower && edges[i].followingId == following;
          assert edges[1..][i - 1] == edges[i];
        }
        if HasEdge(edges[1..], follower, following) {
          var i :| 0 <= i < |edges[1..]| && edges[1..][i].followerId == follower && edges[1..][i].followingId == following;
          assert edges[i + 1] == edges[1..][i];
        }
      }
      if r.None? then None else Some(r.value + 1)
  }

  /** The login query: a user with this email and password whose account is active. */
  predicate Credentials(u: User, email: string, password: string) {
    u.email == email && u.password == password && u.isActive
  }

  /** The position of the first user matching the login query. */
  function FindLogin(users: seq<User>, email: string, password: string): (r: Option<nat>)
    ensures r.None? <==> forall i :: 0 <= i < |users| ==> !Credentials(users[i], email, password)
    ensures r.Some? ==> r.value < |users| && Credentials(users[r.value], email, password)
    decreases |users|
  {
    if users == [] then None
    else if Credentials(users[0], email, password) then Some(0)
    else
      var r := FindLogin(users[1..], email, password);
      assert forall i :: 1 <= i < |users| ==> users[i] == users[1..][i - 1];
      if r.None? then None else Some(r.value + 1)
  }

  /** Another row than the one at `i` already uses `email`. */
  predicate EmailUsedByOther(users: seq<User>, i: int, email: string) {
    exists j :: 0 <= j < |users| && j != i && users[j].email == email
  }

  // ---------------------------------------------------------------------------
  // Handlers that only read
  // ---------------------------------------------------------------------------

  /**
    POST /login. The email is lower-cased; the query already demands an active
    account, so the handler's "no longer active" answer (403) can never be given.
  */
  function Login(db: Db, email: string, password: string): (r: Response)
    ensures r.status == 200 || r.status == 401
    ensures r.status == 200 <==>
              exists i :: 0 <= i < |db.users| && Credentials(db.users[i], Lower(email), password)
    ensures r.status == 401 ==> r.results == Null
    ensures r.status == 200 ==>
              exists i :: 0 <= i < |db.users| && Credentials(db.users[i], Lower(email), password)
                       && r.results == SerializeUser(db, db.users[i])
  {
    match FindLogin(db.users, Lower(email), password)
    case None => Response(401, Null)
    case Some(i) =>
      if !db.users[i].isActive then Response(403, Null)
      else Response(200, SerializeUser(db, db.users[i]))
  }

  /** GET /users/<id>: any authenticated caller may read any user. */
  function GetUser(db: Db, caller: int, userId: int): (r: Response)
    ensures caller == 0 ==> r == Response(401, Null)
    ensures caller != 0 && !IsUser(db.users, userId) ==> r == Response(404, Null)
    ensures caller != 0 && IsUser(db.users, userId) ==>
              r.status == 200 &&
              exists i :: 0 <= i < |db.users| && db.users[i].id == userId && r.results == SerializeUser(db, db.users[i])
  {
    if caller == 0 then Response(401, Null)
    else match FindUser(db.users, userId)
      case None => Response(404, Null)
      case Some(i) => Response(200, SerializeUser(db, db.users[i]))
  }

  /** The serialized edges of a list, in list order. */
  function SerializeEdges(es: seq<Edge>): (r: seq<Json>)
    ensures |r| == |es|
    ensures forall x :: x in r <==> exists e :: e in es && x == SerializeEdge(e)
  {
    var r := seq(|es|, k requires 0 <= k < |es| => SerializeEdge(es[k]));
    MappedMembers(SerializeEdge, es, r);
    r
  }

  /**
    GET /followers: the edges pointing at the caller ("followers") and the edges
    leaving the caller ("following"), both always present, possibly empty.
  */
  function ListFollowers(db: Db, caller: int): (r: Response)
    ensures caller == 0 ==> r == Response(401, Null)
    ensures caller != 0 ==>
              && r.status == 200 && r.results.Obj?
              && r.results.fields.Keys == {"following", "followers"}
              && r.results.fields["followers"].Arr? && r.results.fields["following"].Arr?
              && |r.results.fields["followers"].items| == |EdgesTo(db.followers, caller)|
              && |r.results.fields["following"].items| == |EdgesFrom(db.followers, caller)|
              && (forall x :: x in r.results.fields["followers"].items <==>
                    exists e :: e in db.followers && e.followingId == caller && x == SerializeEdge(e))
              && (forall x :: x in r.results.fields["following"].items <==>
                    exists e :: e in db.followers && e.followerId == caller && x == SerializeEdge(e))
  {
    if caller == 0 then Response(401, Null)
    else
      Response(200, Obj(map[
        "following" := Arr(SerializeEdges(EdgesFrom(db.followers, caller))),
        "followers" := Arr(SerializeEdges(EdgesTo(db.followers, caller)))]))
  }

  /** Every stored post has a date that can be rendered. */
  predicate PostDatesValid(posts: seq<Post>) {
    forall p :: p in posts ==> ValidDate(p.date)
  }

  /** The serialized posts of a list, in list order. */
  function SerializePosts(db: Db, ps: seq<Post>): (r: seq<Json>)
    requires PostDatesValid(ps)
    ensures |r| == |ps|
    ensures forall x :: x in r <==> exists p :: p in ps && x == SerializePost(db, p)
  {
    var render := (p: Post) requires ValidDate(p.date) => SerializePost(db, p);
    var r := seq(|ps|, k requires 0 <= k < |ps| => render(ps[k]));
    MappedMembers(render, ps, r);
    r
  }

  /** GET /posts: the caller's own posts, and no one else's. */
  function ListPosts(db: Db, caller: int): (r: Response)
    requires PostDatesValid(db.posts)
    ensures caller == 0 ==> r == Response(401, Null)
    ensures caller != 0 ==>
              && r.status == 200 && r.results.Arr?
              && |r.results.items| == |PostsBy(db.posts, caller)|
              && forall x :: x in r.results.items <==>
                   exists p :: p in db.posts && p.userId == caller && x == SerializePost(db, p)
  {
    if caller == 0 then Response(401, Null)
    else Response(200, Arr(SerializePosts(db, PostsBy(db.posts, caller))))
  }

  /** GET /posts/<id>/comments: the comments on an existing post, in table order. */
  function ListComments(db: Db, caller: int, postId: int): (r: Response)
    ensures caller == 0 ==> r == Response(401, Null)
    ensures caller != 0 && !IsPost(db.posts, postId) ==> r == Response(404, Null)
    ensures caller != 0 && IsPost(db.posts, postId) ==>
              && r.status == 200 && r.results.Arr?
              && |r.results.items| == |CommentsOn(db.comments, postId)|
              && forall x :: x in r.results.items <==>
                   exists c :: c in db.comments && c.postId == postId && x == SerializeComment(c)
  {
    if caller == 0 then Response(401, Null)
    else if FindPost(db.posts, postId).None? then Response(404, Null)
    else Response(200, Arr(SerializeComments(CommentsOn(db.comments, postId))))
  }

  /** GET /posts/<id>/media: the one medium of an existing post, or 404 with null results. */
  function GetMedium(db: Db, caller: int, postId: int): (r: Response)
    ensures caller == 0 ==> r == Response(401, Null)
    ensures caller != 0 && !IsPost(db.posts, postId) ==> r == Response(404, Null)
    ensures caller != 0 && IsPost(db.posts, postId) && !HasMedium(db.media, postId) ==> r == Response(404, Null)
    ensures caller != 0 && IsPost(db.posts, postId) && HasMedium(db.media, postId) ==>
              && r.status == 200
              && exists m :: m in db.media && m.postId == postId && r.results == SerializeMedium(m)
  {
    if caller == 0 then Response(401, Null)
    else if FindPost(db.posts, postId).None? then Response(404, Null)
    else match MediumOf(db.media, postId)
      case None => Response(404, Null)
      case Some(m) => Response(200, SerializeMedium(m))
  }

  // ---------------------------------------------------------------------------
  // The store and the handlers that change it
  // ---------------------------------------------------------------------------

  /** The last primary key handed out for each table (its auto-increment sequence). */
  datatype LastIds = LastIds(user: nat, edge: nat, post: nat, medium: nat, comment: nat)

  /** Every primary key in use was handed out by its table's sequence. */
  predicate IdsIssued(db: Db, last: LastIds) {
    && (forall i :: 0 <= i < |db.users| ==> db.users[i].id <= last.user)
    && (forall i :: 0 <= i < |db.followers| ==> db.followers[i].id <= last.edge)
    && (forall i :: 0 <= i < |db.posts| ==> db.posts[i].id <= last.post)
    && (forall i :: 0 <= i < |db.media| ==> db.media[i].id <= last.medium)
    && (forall i :: 0 <= i < |db.comments| ==> db.comments[i].id <= last.comment)
  }

  /** A caller is either falsy or, since tokens are issued only for stored rows, an existing user. */
  predicate KnownCaller(users: seq<User>, caller: int) {
    caller == 0 || IsUser(users, caller)
  }

  /** The store invariant: every table keeps its invariant and every key was handed out by its counter. */
  predicate Invariant(db: Db, last: LastIds) {
    WellFormed(db) && IdsIssued(db, last)
  }

  /** Replacing a user row by one with the same id keeps every reference to users intact. */
  lemma SameUserIds(users: seq<User>, users': seq<User>)
    requires |users'| == |users|
    requires forall k :: 0 <= k < |users| ==> users'[k].id == users[k].id
    ensures forall x :: IsUser(users, x) <==> IsUser(users', x)
  {
    forall x | IsUser(users, x) ensures IsUser(users', x) {
      var k :| 0 <= k < |users| && users[k].id == x;
      assert users'[k].id == x;
    }
    forall x | IsUser(users', x) ensures IsUser(users, x) {
      var k :| 0 <= k < |users'| && users'[k].id == x;
      assert users[k].id == x;
    }
  }

  /** Appending a user keeps every existing reference to users intact. */
  lemma MoreUsers(users: seq<User>, u: User)
    ensures forall x :: IsUser(users, x) ==> IsUser(users + [u], x)
    ensures IsUser(users + [u], u.id)
  {
    forall x | IsUser(users, x) ensures IsUser(users + [u], x) {
      var k :| 0 <= k < |users| && users[k].id == x;
      assert (users + [u])[k].id == x;
    }
    assert (users + [u])[|users|].id == u.id;
  }

  /** Appending a post keeps every existing reference to posts intact. */
  lemma MorePosts(posts: seq<Post>, p: Post)
    ensures forall x :: IsPost(posts, x) ==> IsPost(posts + [p], x)
  {
    forall x | IsPost(posts, x) ensures IsPost(posts + [p], x) {
      var k :| 0 <= k < |posts| && posts[k].id == x;
      assert (posts + [p])[k].id == x;
    }
  }

  /** Signup keeps the invariant: a fresh id and an email not yet on file. */
  lemma SignupKeepsInvariant(db: Db, last: LastIds, u: User)
    requires Invariant(db, last)
    requires u.id == last.user + 1 && !EmailTaken(db.users, u.email)
    ensures Invariant(db.(users := db.users + [u]), last.(user := u.id))
  {
    var users := db.users + [u];
    MoreUsers(db.users, u);
    assert forall k :: 0 <= k < |db.users| ==> users[k] == db.users[k];
    assert users[|db.users|] == u;
    assert UsersWellFormed(users);
  }

  /** No row refers to a user id the sequence has not handed out yet. */
  lemma FreshUserIdUnreferenced(db: Db, last: LastIds, uid: int)
    requires Invariant(db, last) && uid > last.user
    ensures forall e :: e in db.followers ==> e.followerId != uid && e.followingId != uid
    ensures forall p :: p in db.posts ==> p.userId != uid
    ensures forall c :: c in db.comments ==> c.userId != uid
  {
  }

  /** A user who has just signed up has no followers, follows no one, and has no posts and no comments. */
  lemma SignedUpUserIsBare(db: Db, last: LastIds, u: User)
    requires Invariant(db, last) && u.id == last.user + 1
    ensures SerializeUser(db.(users := db.users + [u]), u).fields["followers"] == Arr([])
    ensures SerializeUser(db.(users := db.users + [u]), u).fields["following"] == Arr([])
    ensures SerializeUser(db.(users := db.users + [u]), u).fields["posts"] == Arr([])
    ensures SerializeUser(db.(users := db.users + [u]), u).fields["comments"] == Arr([])
  {
    FreshUserIdUnreferenced(db, last, u.id);
    UnreferencedUserHasNoRelations(db.(users := db.users + [u]), u.id);
  }

  /** Logging in with the email and password just signed up with answers with the new user. */
  lemma SignedUpUserCanLogin(db: Db, last: LastIds, email: string, password: string,
                             firstName: Option<string>, lastName: Option<string>)
    requires Invariant(db, last) && !EmailTaken(db.users, Lower(email))
    ensures var u := User(last.user + 1, Lower(email), password, true, false, firstName, lastName);
            var db' := db.(users := db.users + [u]);
            Login(db', email, password) == Response(200, SerializeUser(db', u))
  {
    var u := User(last.user + 1, Lower(email), password, true, false, firstName, lastName);
    var users := db.users + [u];
    SignupKeepsInvariant(db, last, u);
    var n := |db.users|;
    assert users[n] == u && Credentials(users[n], Lower(email), password);
    var found := FindLogin(users, Lower(email), password);
    assert found == Some(n) by {
      var i := found.value;
      assert users[i].email == users[n].email;
    }
  }

  /** A profile update keeps the invariant when the id is kept and the email is not another row's. */
  lemma UpdateKeepsInvariant(db: Db, last: LastIds, i: int, u: User)
    requires Invariant(db, last)
    requires 0 <= i < |db.users| && u.id == db.users[i].id && !EmailUsedByOther(db.users, i, u.email)
    ensures Invariant(db.(users := db.users[i := u]), last)
  {
    SameUserIds(db.users, db.users[i := u]);
  }

  /** Follow keeps the invariant: a fresh id, both ends are users, and the pair is new. */
  lemma FollowKeepsInvariant(db: Db, last: LastIds, e: Edge)
    requires Invariant(db, last)
    requires e.id == last.edge + 1
    requires IsUser(db.users, e.followerId) && IsUser(db.users, e.followingId)
    requires !HasEdge(db.followers, e.followerId, e.followingId)
    ensures Invariant(db.(followers := db.followers + [e]), last.(edge := e.id))
  {
    var edges := db.followers + [e];
    assert forall k :: 0 <= k < |db.followers| ==> edges[k] == db.followers[k];
    assert edges[|db.followers|] == e;
    assert FollowersWellFormed(db.users, edges);
  }

  /** An appended edge joins the end of both of its endpoints' views, and nothing else changes in them. */
  lemma AppendedEdgeViews(edges: seq<Edge>, e: Edge)
    ensures EdgesTo(edges + [e], e.followingId) == EdgesTo(edges, e.followingId) + [e]
    ensures EdgesFrom(edges + [e], e.followerId) == EdgesFrom(edges, e.followerId) + [e]
  {
    assert (edges + [e])[..|edges|] == edges;
  }

  /** An appended post joins the end of its owner's posts. */
  lemma AppendedPostView(posts: seq<Post>, p: Post)
    ensures PostsBy(posts + [p], p.userId) == PostsBy(posts, p.userId) + [p]
  {
    assert (posts + [p])[..|posts|] == posts;
  }

  /** An appended comment joins the end of its post's and its author's views. */
  lemma AppendedCommentViews(comments: seq<Comment>, c: Comment)
    ensures CommentsOn(comments + [c], c.postId) == CommentsOn(comments, c.postId) + [c]
    ensures CommentsBy(comments + [c], c.userId) == CommentsBy(comments, c.userId) + [c]
  {
    assert (comments + [c])[..|comments|] == comments;
  }

  /** A post that has just been created has no medium and no comments. */
  lemma FreshPostIsBare(db: Db, last: LastIds, p: Post)
    requires Invariant(db, last) && p.id == last.post + 1 && ValidDate(p.date)
    ensures SerializePost(db.(posts := db.posts + [p]), p).fields["medium_to_post"] == Null
    ensures SerializePost(db.(posts := db.posts + [p]), p).fields["comments"] == Null
  {
    var db' := db.(posts := db.posts + [p]);
    forall i | 0 <= i < |db.media| ensures db.media[i].postId != p.id {
      assert IsPost(db.posts, db.media[i].postId);
      var k :| 0 <= k < |db.posts| && db.posts[k].id == db.media[i].postId;
    }
    forall c | c in db.comments ensures c.postId != p.id {
      var i :| 0 <= i < |db.comments| && db.comments[i] == c;
      assert IsPost(db.posts, c.postId);
      var k :| 0 <= k < |db.posts| && db.posts[k].id == c.postId;
    }
    NoCommentsOn(db.comments, p.id);
    assert SerializePost(db', p).fields["medium_to_post"] == MediumUrl(db.media, p.id);
    assert SerializePost(db', p).fields["comments"] == PostComments(db.comments, p.id);
  }

  /** Unfollow keeps the invariant: deleting an edge breaks no constraint. */
  lemma UnfollowKeepsInvariant(db: Db, last: LastIds, i: int)
    requires Invariant(db, last) && 0 <= i < |db.followers|
    ensures Invariant(db.(followers := db.followers[..i] + db.followers[i + 1..]), last)
  {
    var edges := db.followers;
    var rest := edges[..i] + edges[i + 1..];
    assert forall k :: 0 <= k < |rest| ==> rest[k] == edges[if k < i then k else k + 1];
  }

  /** Creating a post keeps the invariant: a fresh id, a valid date and an owner who is a user. */
  lemma PostKeepsInvariant(db: Db, last: LastIds, p: Post)
    requires Invariant(db, last)
    requires p.id == last.post + 1 && ValidDate(p.date) && IsUser(db.users, p.userId)
    ensures Invariant(db.(posts := db.posts + [p]), last.(post := p.id))
  {
    var posts := db.posts + [p];
    MorePosts(db.posts, p);
    assert forall k :: 0 <= k < |db.posts| ==> posts[k] == db.posts[k];
    assert posts[|db.posts|] == p;
    assert PostsWellFormed(db.users, posts);
  }

  /** Creating a comment keeps the invariant: a fresh id, an author who is a user, an existing post. */
  lemma CommentKeepsInvariant(db: Db, last: LastIds, c: Comment)
    requires Invariant(db, last)
    requires c.id == last.comment + 1 && IsUser(db.users, c.userId) && IsPost(db.posts, c.postId)
    ensures Invariant(db.(comments := db.comments + [c]), last.(comment := c.id))
  {
    var comments := db.comments + [c];
    assert forall k :: 0 <= k < |db.comments| ==> comments[k] == db.comments[k];
    assert comments[|db.comments|] == c;
    assert CommentsWellFormed(db.users, db.posts, comments);
  }

  /** Attaching a medium keeps the invariant: a fresh id, a url, an existing post without a medium. */
  lemma MediumKeepsInvariant(db: Db, last: LastIds, m: Medium)
    requires Invariant(db, last)
    requires m.id == last.medium + 1 && m.url != "" && IsPost(db.posts, m.postId)
    requires !HasMedium(db.media, m.postId)
    ensures Invariant(db.(media := db.media + [m]), last.(medium := m.id))
  {
    var media := db.media + [m];
    assert forall k :: 0 <= k < |db.media| ==> media[k] == db.media[k];
    assert media[|db.media|] == m;
    assert MediaWellFormed(db.posts, media);
  }

  class Store {
    var users: seq<User>
    var followers: seq<Edge>
    var posts: seq<Post>
    var media: seq<Medium>
    var comments: seq<Comment>
    var last: LastIds

    /** The tables as a value, for the serialization views. */
    function Tables(): Db
      reads this
    {
      Db(users, followers, posts, media, comments)
    }

    ghost predicate Valid()
      reads this
    {
      Invariant(Tables(), last)
    }

    constructor ()
      ensures Valid()
      ensures Tables() == Db([], [], [], [], [])
      ensures last == LastIds(0, 0, 0, 0, 0)
    {
      users, followers, posts, media, comments := [], [], [], [], [];
      last := LastIds(0, 0, 0, 0, 0);
    }

    /**
      POST /signup. The email is lower-cased; an email already on file is a conflict.
      Otherwise one active, non-admin user is added under the next user id
      (`SignedUpUserIsBare` and `SignedUpUserCanLogin` say what it then looks like).
    */
    method Signup(email: string, password: string, firstName: Option<string>, lastName: Option<string>)
      returns (r: Response)
      requires Valid()
      modifies this
      ensures Valid()
      ensures EmailTaken(users, Lower(email))
      ensures EmailTaken(old(users), Lower(email)) ==> r == Response(409, Null) && unchanged(this)
      ensures !EmailTaken(old(users), Lower(email)) ==>
                var u := User(old(last.user) + 1, Lower(email), password, true, false, firstName, lastName);
                && users == old(users) + [u]
                && followers == old(followers) && posts == old(posts)
                && media == old(media) && comments == old(comments)
                && last == old(last).(user := u.id)
                && r == Response(201, SerializeUser(Tables(), u))
    {
      var lowered := Lower(email);
      if EmailTaken(users, lowered) {
        return Response(409, Null);
      }
      var u := User(last.user + 1, lowered, password, true, false, firstName, lastName);
      SignupKeepsInvariant(Tables(), last, u);
      ghost var db' := Tables().(users := users + [u]);
      users := users + [u];
      last := last.(user := u.id);
      assert Tables() == db';
      assert users[|users| - 1] == u;
      r := Response(201, SerializeUser(Tables(), u));
    }

    /**
      PUT /users/<id>. Only the user itself may update; each of email, first name and
      last name is replaced when given and kept otherwise; the password and the flags
      are never touched. An email another row already uses violates the unique
      constraint, which the handler does not catch (500, nothing stored).
    */
    method PutUser(caller: int, userId: int, email: Option<string>,
                   firstName: Option<Option<string>>, lastName: Option<Option<string>>)
      returns (r: Response)
      requires Valid()
      modifies this
      ensures Valid()
      ensures caller == 0 ==> r == Response(401, Null) && unchanged(this)
      ensures caller != 0 && !IsUser(old(users), userId) ==> r == Response(404, Null) && unchanged(this)
      ensures caller != 0 && IsUser(old(users), userId) && caller != userId ==>
                r == Response(403, Null) && unchanged(this)
      ensures caller != 0 && caller == userId && IsUser(old(users), userId) ==>
                exists i :: 0 <= i < |old(users)| && old(users)[i].id == userId &&
                  var u := old(users)[i];
                  var u' := u.(email := email.GetOr(u.email),
                               firstName := firstName.GetOr(u.firstName),
                               lastName := lastName.GetOr(u.lastName));
                  if EmailUsedByOther(old(users), i, u'.email) then
                    r == Response(500, Null) && unchanged(this)
                  else
                    && users == old(users)[i := u']
                    && followers == old(followers) && posts == old(posts)
                    && media == old(media) && comments == old(comments) && last == old(last)
                    && r == Response(200, SerializeUser(Tables(), u'))
      ensures |users| == |old(users)|
      ensures forall k :: 0 <= k < |users| ==>
                && users[k].id == old(users)[k].id && users[k].password == old(users)[k].password
                && users[k].isActive == old(users)[k].isActive && users[k].isAdmin == old(users)[k].isAdmin
    {
      if caller == 0 {
        return Response(401, Null);
      }
      var found := FindUser(users, userId);
      if found.None? {
        return Response(404, Null);
      }
      var i := found.value;
      if caller != users[i].id {
        return Response(403, Null);
      }
      var u := users[i];
      var u' := u.(email := email.GetOr(u.email),
                   firstName := firstName.GetOr(u.firstName),
                   lastName := lastName.GetOr(u.lastName));
      if EmailUsedByOther(users, i, u'.email) {
        return Response(500, Null);
      }
      UpdateKeepsInvariant(Tables(), last, i, u');
      ghost var db' := Tables().(users := users[i := u']);
      users := users[i := u'];
      assert Tables() == db';
      r := Response(200, SerializeUser(Tables(), u'));
    }

    /**
      DELETE /users/<id>. Only the user itself may deactivate its account; the row is
      kept with `is_active` false.
    */
    method DeleteUser(caller: int, userId: int) returns (r: Response)
      requires Valid()
      modifies this
      ensures Valid()
      ensures caller == 0 ==> r == Response(401, Null) && unchanged(this)
      ensures caller != 0 && !IsUser(old(users), userId) ==> r == Response(404, Null) && unchanged(this)
      ensures caller != 0 && IsUser(old(users), userId) && caller != userId ==>
                r == Response(403, Null) && unchanged(this)
      ensures caller != 0 && caller == userId && IsUser(old(users), userId) ==>
                && r == Response(200, Null)
                && (exists i :: 0 <= i < |old(users)| && old(users)[i].id == userId
                      && users == old(users)[i := old(users)[i].(isActive := false)])
                && followers == old(followers) && posts == old(posts)
                && media == old(media) && comments == old(comments) && last == old(last)
    {
      if caller == 0 {
        return Response(401, Null);
      }
      var found := FindUser(users, userId);
      if found.None? {
        return Response(404, Null);
      }
      var i := found.value;
      if caller != users[i].id {
        return Response(403, Null);
      }
      UpdateKeepsInvariant(Tables(), last, i, users[i].(isActive := false));
      ghost var db' := Tables().(users := users[i := users[i].(isActive := false)]);
      users := users[i := users[i].(isActive := false)];
      assert Tables() == db';
      r := Response(200, Null);
    }

    /**
      POST /followers. The followed user must exist (404) and must not already be
      followed by the caller (409); then exactly one edge is added. Following
      oneself is not rejected.
    */
    method Follow(caller: int, followingId: Option<int>) returns (r: Response)
      requires Valid() && KnownCaller(users, caller)
      modifies this
      ensures Valid()
      ensures caller == 0 ==> r == Response(401, Null) && unchanged(this)
      ensures caller != 0 && (followingId.None? || !IsUser(old(users), followingId.value)) ==>
                r == Response(404, Null) && unchanged(this)
      ensures caller != 0 && followingId.Some? && IsUser(old(users), followingId.value)
              && HasEdge(old(followers), caller, followingId.value) ==>
                r == Response(409, Null) && unchanged(this)
      ensures caller != 0 && followingId.Some? && IsUser(old(users), followingId.value)
              && !HasEdge(old(followers), caller, followingId.value) ==>
                var e := Edge(old(last.edge) + 1, followingId.value, caller);
                && followers == old(followers) + [e]
                && users == old(users) && posts == old(posts)
                && media == old(media) && comments == old(comments)
                && last == old(last).(edge := e.id)
                && r == Response(201, SerializeEdge(e))
    {
      if caller == 0 {
        return Response(401, Null);
      }
      if followingId.None? || FindUser(users, followingId.value).None? {
        return Response(404, Null);
      }
      var target := followingId.value;
      if FindEdge(followers, caller, target).Some? {
        return Response(409, Null);
      }
      var e := Edge(last.edge + 1, target, caller);
      FollowKeepsInvariant(Tables(), last, e);
      ghost var db' := Tables().(followers := followers + [e]);
      followers := followers + [e];
      last := last.(edge := e.id);
      assert Tables() == db';
      r := Response(201, SerializeEdge(e));
    }

    /**
      DELETE /followers/<following_id>. Removes the caller's edge to `followingId`,
      and only that edge; a missing edge, and a falsy caller, are both answered 404.
    */
    method Unfollow(caller: int, followingId: int) returns (r: Response)
      requires Valid()
      modifies this
      ensures Valid()
      ensures caller == 0 ==> r == Response(404, Null) && unchanged(this)
      ensures caller != 0 && !HasEdge(old(followers), caller, followingId) ==>
                r == Response(404, Null) && unchanged(this)
      ensures caller != 0 && HasEdge(old(followers), caller, followingId) ==>
                && r == Response(200, Null)
                && (exists i :: 0 <= i < |old(followers)|
                      && old(followers)[i].followerId == caller && old(followers)[i].followingId == followingId
                      && followers == old(followers)[..i] + old(followers)[i + 1..])
                && users == old(users) && posts == old(posts)
                && media == old(media) && comments == old(comments) && last == old(last)
                && !HasEdge(followers, caller, followingId)
                && (forall e :: e in followers <==>
                      e in old(followers) && (e.followerId != caller || e.followingId != followingId))
    {
      if caller == 0 {
        return Response(404, Null);
      }
      var found := FindEdge(followers, caller, followingId);
      if found.None? {
        return Response(404, Null);
      }
      var i := found.value;
      RemovedEdge(followers, i);
      UnfollowKeepsInvariant(Tables(), last, i);
      ghost var db' := Tables().(followers := followers[..i] + followers[i + 1..]);
      followers := followers[..i] + followers[i + 1..];
      assert Tables() == db';
      r := Response(200, Null);
    }

    /**
      POST /posts. The new post always belongs to the caller and is dated today,
      whatever the request says (`FreshPostIsBare`: it has no medium and no comments yet).
    */
    method CreatePost(caller: int, title: Option<string>, description: Option<string>,
                      body: Option<string>, today: Date)
      returns (r: Response)
      requires Valid() && KnownCaller(users, caller) && ValidDate(today)
      modifies this
      ensures Valid()
      ensures caller == 0 ==> r == Response(401, Null) && unchanged(this)
      ensures caller != 0 ==>
                var p := Post(old(last.post) + 1, title, description, body, today, caller);
                && posts == old(posts) + [p]
                && users == old(users) && followers == old(followers)
                && media == old(media) && comments == old(comments)
                && last == old(last).(post := p.id)
                && r == Response(201, SerializePost(Tables(), p))
    {
      if caller == 0 {
        return Response(401, Null);
      }
      var p := Post(last.post + 1, title, description, body, today, caller);
      PostKeepsInvariant(Tables(), last, p);
      ghost var db' := Tables().(posts := posts + [p]);
      posts := posts + [p];
      last := last.(post := p.id);
      assert Tables() == db';
      r := Response(201, SerializePost(Tables(), p));
    }

    /**
      POST /posts/<id>/comments. Any authenticated caller may comment on an existing
      post; the comment is by the caller, on the post named in the path.
    */
    method CreateComment(caller: int, postId: int, body: Option<string>) returns (r: Response)
      requires Valid() && KnownCaller(users, caller)
      modifies this
      ensures Valid()
      ensures caller == 0 ==> r == Response(401, Null) && unchanged(this)
      ensures caller != 0 && !IsPost(old(posts), postId) ==> r == Response(404, Null) && unchanged(this)
      ensures caller != 0 && IsPost(old(posts), postId) ==>
                var c := Comment(old(last.comment) + 1, body, caller, postId);
                && comments == old(comments) + [c]
                && users == old(users) && followers == old(followers)
                && posts == old(posts) && media == old(media)
                && last == old(last).(comment := c.id)
                && r == Response(201, SerializeComment(c))
    {
      if caller == 0 {
        return Response(401, Null);
      }
      if FindPost(posts, postId).None? {
        return Response(404, Null);
      }
      var c := Comment(last.comment + 1, body, caller, postId);
      CommentKeepsInvariant(Tables(), last, c);
      ghost var db' := Tables().(comments := comments + [c]);
      comments := comments + [c];
      last := last.(comment := c.id);
      assert Tables() == db';
      r := Response(201, SerializeComment(c));
    }

    /**
      POST /posts/<id>/media. The checks run in this order: the post exists (404),
      the caller owns it (403), the type is image, video or audio (400), a url is
      given (400). A second medium for the same post violates the unique `post_id`
      constraint, which the handler does not catch (500, nothing stored).
    */
    method AddMedium(caller: int, postId: int, mediumType: Option<string>, url: Option<string>)
      returns (r: Response)
      requires Valid()
      modifies this
      ensures Valid()
      ensures caller == 0 ==> r == Response(401, Null) && unchanged(this)
      ensures caller != 0 && !IsPost(old(posts), postId) ==> r == Response(404, Null) && unchanged(this)
      ensures caller != 0 && IsPost(old(posts), postId) ==>
                var owner := old(posts)[FindPost(old(posts), postId).value].userId;
                if owner != caller then
                  r == Response(403, Null) && unchanged(this)
                else if ParseMediumType(mediumType).None? then
                  r == Response(400, Null) && unchanged(this)
                else if url.None? || url.value == "" then
                  r == Response(400, Null) && unchanged(this)
                else if HasMedium(old(media), postId) then
                  r == Response(500, Null) && unchanged(this)
                else
                  var m := Medium(old(last.medium) + 1, ParseMediumType(mediumType).value, url.value, postId);
                  && media == old(media) + [m]
                  && users == old(users) && followers == old(followers)
                  && posts == old(posts) && comments == old(comments)
                  && last == old(last).(medium := m.id)
                  && r == Response(201, SerializeMedium(m))
      ensures r.status == 201 ==>
                forall p :: p in posts && p.id == postId ==>
                  SerializePost(Tables(), p).fields["medium_to_post"] == Str(url.value)
    {
      if caller == 0 {
        return Response(401, Null);
      }
      var found := FindPost(posts, postId);
      if found.None? {
        return Response(404, Null);
      }
      if posts[found.value].userId != caller {
        return Response(403, Null);
      }
      var kind := ParseMediumType(mediumType);
      if kind.None? {
        return Response(400, Null);
      }
      if url.None? || url.value == "" {
        return Response(400, Null);
      }
      if MediumOf(media, postId).Some? {
        return Response(500, Null);
      }
      var m := Medium(last.medium + 1, kind.value, url.value, postId);
      MediumKeepsInvariant(Tables(), last, m);
      ghost var db' := Tables().(media := media + [m]);
      media := media + [m];
      last := last.(medium := m.id);
      assert Tables() == db';
      forall p | p in posts && p.id == postId
        ensures SerializePost(Tables(), p).fields["medium_to_post"] == Str(url.value)
      {
        PostMediumUrl(Tables(), p, |media| - 1);
      }
      r := Response(201, SerializeMedium(m));
    }
  }

  // ---------------------------------------------------------------------------
  // Properties that relate several handlers
  // ---------------------------------------------------------------------------

  /**
    Deleting the edge at `i` removes the only edge for its ordered pair and keeps
    every other edge, in order.
  */
  lemma RemovedEdge(edges: seq<Edge>, i: int)
    requires 0 <= i < |edges|
    requires forall a, b :: 0 <= a < b < |edges| ==>
               edges[a].followerId != edges[b].followerId || edges[a].followingId != edges[b].followingId
    ensures !HasEdge(edges[..i] + edges[i + 1..], edges[i].followerId, edges[i].followingId)
    ensures forall e :: e in edges[..i] + edges[i + 1..] <==>
              e in edges && (e.followerId != edges[i].followerId || e.followingId != edges[i].followingId)
  {
    var rest := edges[..i] + edges[i + 1..];
    assert forall k :: 0 <= k < |rest| ==> rest[k] == edges[if k < i then k else k + 1];
    forall e | e in edges && (e.followerId != edges[i].followerId || e.followingId != edges[i].followingId)
      ensures e in rest
    {
      var k :| 0 <= k < |edges| && edges[k] == e;
      assert rest[if k < i then k else k - 1] == e;
    }
  }

  /** After a follow, the followed user's serialized "followers" lists the caller. */
  lemma FollowListsFollower(db: Db, e: Edge, u: User)
    requires u.id == e.followingId
    ensures Int(e.followerId) in SerializeUser(db.(followers := db.followers + [e]), u).fields["followers"].items
  {
    var db' := db.(followers := db.followers + [e]);
    assert e in db'.followers;
    UserFollowersField(db', u, e.followerId);
  }

  /** After a follow, the caller's serialized "following" lists the followed user. */
  lemma FollowListsFollowing(db: Db, e: Edge, u: User)
    requires u.id == e.followerId
    ensures Int(e.followingId) in SerializeUser(db.(followers := db.followers + [e]), u).fields["following"].items
  {
    var db' := db.(followers := db.followers + [e]);
    assert e in db'.followers;
    UserFollowingField(db', u, e.followingId);
  }

  /**
    After an unfollow, the formerly followed user's serialized "followers" no longer
    lists the caller: ordered pairs are unique, so the deleted edge was the only one.
  */
  lemma UnfollowDropsFollower(db: Db, i: int, u: User)
    requires FollowersWellFormed(db.users, db.followers)
    requires 0 <= i < |db.followers| && u.id == db.followers[i].followingId
    ensures var db' := db.(followers := db.followers[..i] + db.followers[i + 1..]);
            Int(db.followers[i].followerId) !in SerializeUser(db', u).fields["followers"].items
  {
    var rest := db.followers[..i] + db.followers[i + 1..];
    var db' := db.(followers := rest);
    var x := db.followers[i].followerId;
    RemovedEdge(db.followers, i);
    UserFollowersField(db', u, x);
    forall e | e in rest && e.followingId == u.id
      ensures e.followerId != x
    {
      var k :| 0 <= k < |rest| && rest[k] == e;
    }
  }

  /** An account that has been deactivated can no longer log in, whatever the password. */
  lemma DeactivatedUserCannotLogin(db: Db, i: int, email: string, password: string)
    requires UsersWellFormed(db.users)
    requires 0 <= i < |db.users| && !db.users[i].isActive
    requires Lower(email) == db.users[i].email
    ensures Login(db, email, password) == Response(401, Null)
  {
    forall k | 0 <= k < |db.users|
      ensures !Credentials(db.users[k], Lower(email), password)
    {
      if k != i {
        assert db.users[k].email != db.users[i].email;
      }
    }
  }

  /** Removing the caller's edge and adding it again restores the same edge set. */
  lemma UnfollowThenFollow(edges: seq<Edge>, i: int, newId: int)
    requires 0 <= i < |edges|
    requires forall a, b :: 0 <= a < b < |edges| ==>
               edges[a].followerId != edges[b].followerId || edges[a].followingId != edges[b].followingId
    ensures var rest := edges[..i] + edges[i + 1..];
            && !HasEdge(rest, edges[i].followerId, edges[i].followingId)
            && forall e :: e in rest + [edges[i].(id := newId)] <==> e in edges[i := edges[i].(id := newId)]
  {
    RemovedEdge(edges, i);
    var rest := edges[..i] + edges[i + 1..];
    var e' := edges[i].(id := newId);
    var restored := edges[i := e'];
    assert restored[i] == e';
    forall e | e in restored
      ensures e in rest + [e']
    {
      var k :| 0 <= k < |restored| && restored[k] == e;
      if k != i {
        assert e == edges[k] && e in edges;
        assert e.followerId != edges[i].followerId || e.followingId != edges[i].followingId by {
          if k < i {
            assert edges[k].followerId != edges[i].followerId || edges[k].followingId != edges[i].followingId;
          } else {
            assert edges[i].followerId != edges[k].followerId || edges[i].followingId != edges[k].followingId;
          }
        }
        assert e in rest;
      }
    }
    forall e | e in rest + [e']
      ensures e in restored
    {
      if e in rest {
        assert e in edges;
        var k :| 0 <= k < |edges| && edges[k] == e;
        assert k != i;
        assert restored[k] == e;
      }
    }
  }

}
