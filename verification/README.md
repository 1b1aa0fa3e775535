# instagram-models in Dafny

A model of the backend of a small photo-sharing social network. The backend keeps
five tables:

- Users;
- Followers, where each row is an edge "follower follows following";
- Posts;
- Media, at most one per post;
- Comments.

The request handlers check the caller and the request, answer with a status code
and a `results` payload, and on success add, change or delete one row.

The Dafny project has five modules:

- `Wrappers`: `Option`.
- `Json`: the JSON values a handler returns.
- `Text`: ASCII lower-casing and zero-padded decimal numerals, used for emails and
  for `DD-MM-YYYY` dates.
- `Models`:
  - the row types and the store as a value (`Db`);
  - the table invariants (`WellFormed`): the constraints declared on the columns, and
    those that hold only because every handler checks before it writes;
  - the back-references of the ORM, modelled as filtered views over the tables
    (`EdgesTo`, `EdgesFrom`, `PostsBy`, `CommentsBy`, `CommentsOn`, `MediumOf`);
  - the `serialize` view of every row, with `Parse*` inverses for the flat rows.
- `Routes`:
  - the handlers that only read, as functions over a `Db`;
  - the class `Store`, whose sequence fields are the tables and whose `last` field
    holds the auto-increment counters;
  - one method per handler that changes the store;
  - lemmas showing that every change keeps the store invariant, and lemmas relating
    handlers to the serialized views.

The caller's identity is the parameter `caller`; an identity that is not truthy is
`0`. The current date is the parameter `today`.

## Model

| member | source | states |
|---|---|---|
| Text.Lower | routes.py:27 | lower-casing keeps the length, leaves no upper-case letter, keeps every other character and maps each upper-case letter to its lower-case partner |
| Text.LowerIdempotent | routes.py:66 | lower-casing an already lower-cased email changes nothing |
| Text.Decimal | models.py:66 | a number below 10^width is written with exactly `width` digits, zero-padded, and reads back as the same number |
| Json.OptStr | models.py:24-25 | a nullable text column renders as JSON null for no value and as its text otherwise, and reads back (`ParseOptStr`) as the same column value |
| Json.MappedMembers | models.py:29 | a list rendered row by row holds exactly the renderings of the rows |
| Json.Ints | models.py:26-28 | a list of ids becomes a JSON array of the same length holding exactly those ids |
| Models.TypeName | models.py:74-75 | every medium type is rendered as one of the three enumerated names |
| Models.ParseMediumType | routes.py:386-390 | a requested type is accepted exactly when it is "image", "video" or "audio", and then names that type |
| Models.TypeNameRoundTrip | models.py:74-75 | reading back a rendered medium type gives the same type |
| Models.FormatDate | models.py:66 | a date renders as ten characters `DD-MM-YYYY`: digit groups separated by dashes, which read back as the same date |
| Models.EdgesTo | models.py:34-36 | a user's `following_to` back-reference has as members exactly the edges whose `following_id` is the user, and is no longer than the table; multiplicity is stated by Models.EdgesToCount |
| Models.EdgesToCount | models.py:34-36 | each edge pointing at the user occurs in the back-reference exactly as often as in the table, and no other edge occurs |
| Models.EdgesFrom | models.py:37-39 | a user's `follower_to` back-reference has as members exactly the edges whose `follower_id` is the user; multiplicity is stated by Models.EdgesFromCount |
| Models.EdgesFromCount | models.py:37-39 | each edge leaving the user occurs in the back-reference exactly as often as in the table, and no other edge occurs |
| Models.PostsBy | models.py:56-58 | a user's `user_posts` back-reference has as members exactly the posts whose `user_id` is the user; multiplicity is stated by Models.PostsByCount |
| Models.PostsByCount | models.py:56-58 | each post owned by the user occurs in the back-reference exactly as often as in the table, and no other post occurs |
| Models.CommentsBy | models.py:92-94 | a user's `user_comments` back-reference has as members exactly the comments whose `user_id` is the user; multiplicity is stated by Models.CommentsByCount |
| Models.CommentsByCount | models.py:92-94 | each comment by the user occurs in the back-reference exactly as often as in the table, and no other comment occurs |
| Models.CommentsOn | models.py:95-97 | a post's `comments_to_post` back-reference has as members exactly the comments whose `post_id` is the post; multiplicity is stated by Models.CommentsOnCount |
| Models.CommentsOnCount | models.py:95-97 | each comment on the post occurs in the back-reference exactly as often as in the table, and no other comment occurs |
| Models.NoEdgesTo | models.py:34-36 | with no edge pointing at the user, its followers back-reference is empty |
| Models.NoEdgesFrom | models.py:37-39 | with no edge leaving the user, its followed back-reference is empty |
| Models.NoPostsBy | models.py:56-58 | with no post owned by the user, its posts back-reference is empty |
| Models.NoCommentsBy | models.py:92-94 | with no comment by the user, its comments back-reference is empty |
| Models.NoCommentsOn | models.py:95-97 | with no comment on the post, its comments back-reference is empty |
| Models.MediumOf | models.py:77-79 | a post's `medium_to_post` is absent exactly when no medium row points at the post; otherwise it is such a row, and the only one when `post_id` is unique |
| Models.UsersWellFormed | models.py:8-9 | declared: distinct ids and unique emails; kept by the id counter: ids are positive |
| Models.FollowersWellFormed | models.py:33-37 | declared: distinct ids, both ends refer to users; kept by the follow handler's checks (routes.py:220-231): both ends set and each ordered pair stored at most once |
| Models.PostsWellFormed | models.py:51-56 | declared: distinct ids, non-null date, owner refers to a user; kept by the post handler (routes.py:267-302): the owner is the non-falsy caller |
| Models.MediaWellFormed | models.py:73-77 | declared: distinct ids, non-null url, non-null unique `post_id` referring to a post; kept by the medium handler (routes.py:391-395): the url is non-empty |
| Models.CommentsWellFormed | models.py:90-95 | declared: distinct ids, references to a user and a post; kept by the comment handler (routes.py:319-344): both are set |
| Models.WellFormed | models.py:7-104 | every table keeps its invariant |
| Routes.IdsIssued | models.py:8 | every primary key in use is at most the last key its table's counter handed out |
| Routes.Invariant | models.py:7-104 | the tables keep their invariants and every key was handed out by its counter |
| Models.SerializeEdge | models.py:44-47 | a follower edge serializes to exactly its three columns and reads back as the same edge |
| Models.SerializeComment | models.py:99-104 | a comment serializes to exactly its four columns and reads back as the same comment |
| Models.SerializeMedium | models.py:81-86 | a medium serializes to exactly its four columns and reads back as the same medium |
| Models.SerializeComments | models.py:29 | a list of comments serializes to a list holding exactly their serialized forms |
| Models.SerializePost | models.py:60-69 | a serialized post has exactly the eight keys of `Posts.serialize` |
| Models.PostColumnsRoundTrip | models.py:60-69 | reading a serialized post back (`ParsePostColumns`) gives exactly its id, title, description, body, date and owner's id |
| Models.PostDateField | models.py:66 | a serialized post's date is a ten-character string that reads back as the post's date |
| Models.PostMediumField | models.py:67 | "medium_to_post" is null exactly when no medium points at the post, and otherwise the url of such a medium |
| Models.PostMediumUrl | models.py:67 | when `post_id` is unique in Media, "medium_to_post" is the url of the post's one medium |
| Models.PostCommentsField | models.py:68 | "comments" is null, not an empty list, exactly when no comment targets the post; otherwise it lists exactly the serialized comments on the post |
| Models.FollowerIdsOf | models.py:26 | projects each edge to its `follower_id`, and nothing else |
| Models.FollowingIdsOf | models.py:27 | projects each edge to its `following_id`, and nothing else |
| Models.PostIdsOf | models.py:28 | projects each post to its id, and nothing else |
| Models.SerializeUser | models.py:19-29 | a serialized user has exactly the ten keys of `Users.serialize`, with no password |
| Models.UserColumnsRoundTrip | models.py:19-25 | reading a serialized user back (`ParseUserColumns`) gives exactly its id, email, flags and names; the password is not among them |
| Models.UserFollowersField | models.py:26 | "followers" lists x exactly when an edge says that x follows the user |
| Models.UserFollowingField | models.py:27 | "following" lists x exactly when an edge says that the user follows x |
| Models.UserPostsField | models.py:28 | "posts" lists x exactly when the user owns a post with id x |
| Models.UserCommentsField | models.py:29 | "comments" holds exactly the serialized comments the user wrote |
| Models.UnreferencedUserHasNoRelations | models.py:26-29 | a user id that no row refers to has empty followers, following, posts and comments |
| Routes.FindUser | routes.py:109 | the user lookup finds a row exactly when the id exists, and then it is the first row with that id |
| Routes.FindPost | routes.py:319-320 | the post lookup finds a row exactly when the id exists, and then a row with that id |
| Routes.FindEdge | routes.py:253-254 | the edge lookup finds a row exactly when the caller follows the user, and then that edge |
| Routes.FindLogin | routes.py:68-70 | the login query finds a row exactly when some row has that email, that password and is active |
| Routes.Login | routes.py:62-96 | the answer is 200 or 401 and never 403; it is 200 exactly when an active row has the lower-cased email and the same password, and then the results are that user serialized; 401 has null results |
| Routes.GetUser | routes.py:104-118 | 401 for a falsy caller; 404 for an unknown id; otherwise 200 with that user serialized |
| Routes.SerializeEdges | routes.py:211-212 | a list of edges serializes to a list holding exactly their serialized forms |
| Routes.ListFollowers | routes.py:189-216 | 401 for a falsy caller; otherwise 200 with both keys present; "followers" has one item per edge pointing at the caller and as members exactly those edges serialized, and "following" likewise for the edges leaving the caller |
| Routes.SerializePosts | routes.py:284 | a list of posts serializes to a list holding exactly their serialized forms |
| Routes.ListPosts | routes.py:277-287 | 401 for a falsy caller; otherwise 200 with one item per post the caller owns, and as members exactly those posts serialized, possibly none |
| Routes.ListComments | routes.py:319-335 | 401 for a falsy caller; 404 for an unknown post; otherwise 200 with one item per comment on that post, and as members exactly those comments serialized |
| Routes.GetMedium | routes.py:361-377 | 401 for a falsy caller; 404 for an unknown post; 404 with null results when the post has no medium; otherwise 200 with a medium of the post |
| Routes.SameUserIds | models.py:34-39 | rewriting user rows without changing their ids keeps every user reference valid |
| Routes.MoreUsers | models.py:8 | adding a user keeps every user reference valid and makes the new id a user |
| Routes.MorePosts | models.py:51 | adding a post keeps every post reference valid |
| Routes.SignupKeepsInvariant | routes.py:34-40 | adding a user with the next id and an email not on file keeps the store invariant |
| Routes.FreshUserIdUnreferenced | models.py:32-104 | no edge, post or comment refers to a user id the counter has not handed out yet |
| Routes.SignedUpUserIsBare | routes.py:48-51 | a freshly signed-up user serializes with empty followers, following, posts and comments |
| Routes.SignedUpUserCanLogin | routes.py:62-96 | right after signup, logging in with the same email and password answers 200 with the new user |
| Routes.UpdateKeepsInvariant | routes.py:124-128 | replacing a user row with one of the same id, whose email no other row uses, keeps the store invariant |
| Routes.FollowKeepsInvariant | routes.py:232-236 | adding a new ordered pair between two users, with the next id, keeps the store invariant |
| Routes.AppendedEdgeViews | routes.py:232-236 | a new edge joins the end of the followed user's followers and of the follower's followed users, and changes nothing else in them |
| Routes.AppendedPostView | routes.py:295-302 | a new post joins the end of its owner's posts |
| Routes.AppendedCommentViews | routes.py:339-344 | a new comment joins the end of its post's comments and of its author's comments |
| Routes.FreshPostIsBare | routes.py:303 | a post just created serializes with null "medium_to_post" and null "comments" |
| Routes.UnfollowKeepsInvariant | routes.py:260-261 | deleting an edge keeps the store invariant |
| Routes.PostKeepsInvariant | routes.py:295-302 | adding a dated post owned by a user, with the next id, keeps the store invariant |
| Routes.CommentKeepsInvariant | routes.py:339-344 | adding a comment by a user on an existing post, with the next id, keeps the store invariant |
| Routes.MediumKeepsInvariant | routes.py:396-401 | adding a medium with a url to a post that has none, with the next id, keeps the store invariant |
| Routes.Store.Signup | routes.py:22-58 | 409 and nothing stored when the lower-cased email is on file; otherwise exactly one active, non-admin user is added with the lower-cased email, the next id and the given names, and 201 returns it serialized; afterwards the email is on file and the invariant holds |
| Routes.Store.PutUser | routes.py:99-131 | 401, 404 and 403 change nothing; otherwise the target row gets each given field and keeps the others; an email another row uses gives 500 and changes nothing; no row ever changes its id, password or flags |
| Routes.Store.DeleteUser | routes.py:99-141 | 401, 404 and 403 change nothing; otherwise only `is_active` of the target row becomes false, the row stays, and the results are null |
| Routes.Store.Follow | routes.py:179-240 | 401 for a falsy caller; 404 for a missing or unknown target; 409 when the caller already follows it; otherwise exactly one edge from caller to target is added with the next id and returned; following oneself is allowed |
| Routes.Store.Unfollow | routes.py:243-264 | 404 for a falsy caller or a missing edge, with nothing changed; otherwise exactly the caller's edge to the target is deleted and every other edge is kept |
| Routes.Store.CreatePost | routes.py:267-306 | 401 for a falsy caller; otherwise exactly one post is added, owned by the caller and dated today whatever the request says, and returned serialized |
| Routes.Store.CreateComment | routes.py:309-348 | 401 for a falsy caller; 404 for an unknown post; otherwise exactly one comment by the caller on the path's post is added and returned |
| Routes.Store.AddMedium | routes.py:351-405 | checks in order: 401, 404 unknown post, 403 not the owner, 400 bad type, 400 missing url, 500 post already has a medium, each changing nothing; otherwise exactly one medium is added and the post's "medium_to_post" becomes its url |
| Routes.RemovedEdge | routes.py:260 | deleting the edge of a unique ordered pair leaves no edge for that pair and keeps every other edge |
| Routes.FollowListsFollower | routes.py:232-236 | after a follow, the followed user's serialized "followers" lists the caller |
| Routes.FollowListsFollowing | routes.py:232-236 | after a follow, the caller's serialized "following" lists the followed user |
| Routes.UnfollowDropsFollower | routes.py:253-261 | after an unfollow, the formerly followed user's serialized "followers" no longer lists the caller |
| Routes.DeactivatedUserCannotLogin | routes.py:137 | once an account is deactivated, a login with its email answers 401 whatever the password |
| Routes.UnfollowThenFollow | routes.py:232-261 | unfollowing and following again gives back the same edges, with only the new edge's id changed |

## Left out

- Access tokens: minting and checking them, the claims built at routes.py:42-51 and routes.py:80-89, and the `access_token` member of a response. The caller's id is a parameter instead.
- HTTP plumbing: routing, CORS, parsing the JSON body, the human-readable `message` member of a response.
- `handle_favorites` (routes.py:144-176): it uses three favourites tables that are not defined anywhere in the repository, so it cannot be modelled.
- Sessions, transactions and lazy loading. Each handler is one atomic change of the in-memory tables. The rows of a query come back in table order, where the database leaves the order open.
- Integrity errors the code never catches. A second medium for a post, and a PUT whose email another row already uses, are answered 500 with nothing stored. This follows the code: it has no check of its own for either case, where a 409 might have been intended.
- Signup or login requests without an email: the source crashes on `None.lower()` (500). A signup without a password stores nothing, because the commit fails on the non-null `password` column (500). A login without a password answers 401, because no stored row has a null password. Here email and password are always strings.
- Concurrent requests. Each handler is one atomic change here. In the source, two follows of the same pair that both pass the check at routes.py:226-231 before either commits both store their edge: no unique constraint covers the pair, so `FollowersWellFormed`'s unique pair then fails. The same holds for two signups with the same email, except that the unique `email` column makes the second commit fail.
- Key sequences. A new key here is the table's last key plus one, and a rejected change hands out nothing. A database sequence may skip values, for instance after the insert of a second medium for a post fails (500). The model relies only on a new key exceeding every key in use, never on keys being consecutive.
- An explicit null email in a PUT, which violates the non-null column: the email is either given as a string or absent.
- Column length limits (`String(120)` and the like): the code never checks them.
- The truthiness branches of GET /followers (routes.py:194-210): they test query results, not lists, and all of them answer the same two lists. The model returns both lists directly.
- Text.Lower: only ASCII letters are lower-cased; Python's `str.lower` also folds other Unicode letters.
- Models.ValidDate: only years 1000 to 9999, so that `%Y` always has four digits.
- Routes.Store.Follow, Routes.Store.CreatePost, Routes.Store.CreateComment: the caller must be 0 or an existing user. A token is only minted for a stored row and rows are never deleted, but the source does not check this itself.
- Routes.ListPosts, Routes.SerializePosts: every stored post must have a valid date. The store invariant guarantees this.
- Routes.Store.Follow, Routes.Store.CreatePost, Routes.Store.CreateComment: what the new row does to the serialized views is stated by Routes.AppendedEdgeViews, Routes.FollowListsFollower, Routes.FollowListsFollowing, Routes.AppendedPostView, Routes.FreshPostIsBare and Routes.AppendedCommentViews about the new tables, not in the methods' own postconditions.
- Routes.Store.Signup: that the new user serializes with empty lists and can log in is stated by Routes.SignedUpUserIsBare and Routes.SignedUpUserCanLogin about the new tables, not in the method's postcondition.
