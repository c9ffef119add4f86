/** The four store-mutating and store-reading decisions of `PostService`,
    each a pure function of the stores (and of the clock reading `now`,
    passed in). A mutating operation answers an `Effect`: its answer and the
    store it leaves; a rejected operation leaves the store exactly as it was. */
module PostService {
  import opened Results
  import opened Entities

  const UserNotFound: string := "user not found"
  const MemberDoesNotExist: string := "member does not exist"

  /** `createPosts`: only an existing user may create a post. The stored post
      takes title, content and `updatedAt` from the transfer object but always
      starts with no thumbs and with `now` as its creation time; it gets a fresh
      id, is owned by the acting user and joins that user's collection. */
  function CreatePosts(db: Db, dto: PostDto, userId: UserId, now: Instant): (r: Effect<Result<PostDto, Error>>)
    ensures r.answer.Failure? <==> userId !in db.users
    ensures r.answer.Failure? ==> r.answer.error == InvalidArgument(UserNotFound) && r.store == db
    ensures r.answer.Success? ==>
      var out := r.answer.value;
      && out.id.Some?
      && out.id.value in r.store.posts
      && r.store.posts.Keys == db.posts.Keys + {out.id.value}
      && SamePostsExcept(db.posts, r.store.posts, out.id.value)
      && var p := r.store.posts[out.id.value];
         && out == FromPost(p)
         && p.thumbs == 0
         && p.createdAt == Some(now)
         && p.title == dto.title && p.content == dto.content && p.updatedAt == dto.updatedAt
         && p.owner == userId
         && r.store.users.Keys == db.users.Keys
         && SameUsersExcept(db.users, r.store.users, userId)
         && r.store.users[userId].posts == db.users[userId].posts + {p.id}
         && r.store.users[userId].role == db.users[userId].role
    ensures Valid(db) && r.answer.Success? ==> r.answer.value.id.value !in db.posts
    ensures Valid(db) ==> Valid(r.store)
  {
    if userId !in db.users then
      Effect(Failure(InvalidArgument(UserNotFound)), db)
    else
      var draft := ToPost(dto, db.nextId, userId);
      var saved := draft.(thumbs := 0, createdAt := Some(now));
      var user := db.users[userId];
      var store := Db(
        db.posts[saved.id := saved],
        db.users[userId := user.(posts := user.posts + {saved.id})],
        db.nextId + 1);
      Effect(Success(FromPost(saved)), store)
  }

  /** `getPostById`: a read that answers nothing exactly when no post has that id. */
  function GetPostById(db: Db, id: PostId): (r: Option<PostDto>)
    ensures r.None? <==> id !in db.posts
    ensures r.Some? ==> r.value == FromPost(db.posts[id])
  {
    if id in db.posts then Some(FromPost(db.posts[id])) else None
  }

  /** May `userId` edit this post? Only its owner may. */
  predicate MayUpdate(p: Post, userId: UserId) {
    p.owner == userId
  }

  /** May the acting user delete this post? Its owner or any admin may. */
  predicate MayDelete(p: Post, userId: UserId, actor: User) {
    p.owner == userId || actor.role == AdminRole
  }

  /** `updatePost`: absent post and foreign post both answer nothing and change
      nothing. The owner's update replaces title and content, stamps `now` as
      the update time and keeps everything else of that post and of the stores. */
  function UpdatePost(db: Db, postId: PostId, update: PostDto, userId: UserId, now: Instant): (r: Effect<Option<PostDto>>)
    ensures r.answer.None? <==> postId !in db.posts || db.posts[postId].owner != userId
    ensures r.answer.None? ==> r.store == db
    ensures r.answer.Some? ==>
      && postId in r.store.posts
      && var before, after := db.posts[postId], r.store.posts[postId];
         && after.title == update.title
         && after.content == update.content
         && after.updatedAt == Some(now)
         && after.id == before.id && after.owner == before.owner
         && after.thumbs == before.thumbs && after.createdAt == before.createdAt
         && r.answer.value == FromPost(after)
    ensures r.answer.Some? ==>
      && r.store.posts.Keys == db.posts.Keys
      && SamePostsExcept(db.posts, r.store.posts, postId)
      && r.store.users == db.users
      && r.store.nextId == db.nextId
    ensures Valid(db) ==> Valid(r.store)
  {
    if postId in db.posts && MayUpdate(db.posts[postId], userId) then
      var edited := db.posts[postId].(title := update.title, content := update.content, updatedAt := Some(now));
      Effect(Some(FromPost(edited)), db.(posts := db.posts[postId := edited]))
    else
      Effect(None, db)
  }

  /** `deletePosts`: an unknown acting user is rejected whatever the post.
      Otherwise the answer is true exactly when the post exists and the actor
      owns it or is an admin; then that post, and only it, is removed.
      Otherwise the answer is false and nothing changes. */
  function DeletePosts(db: Db, postId: PostId, userId: UserId): (r: Effect<Result<bool, Error>>)
    ensures r.answer.Failure? <==> userId !in db.users
    ensures r.answer.Failure? ==> r.answer.error == InvalidArgument(MemberDoesNotExist) && r.store == db
    ensures r.answer.Success? ==>
      (r.answer.value <==>
        postId in db.posts && (db.posts[postId].owner == userId || db.users[userId].role == AdminRole))
    ensures r.answer == Success(true) ==>
      && r.store.posts.Keys == db.posts.Keys - {postId}
      && SamePostsExcept(db.posts, r.store.posts, postId)
      && r.store.users == db.users
      && r.store.nextId == db.nextId
    ensures r.answer == Success(false) ==> r.store == db
    ensures Valid(db) ==> Valid(r.store)
  {
    if userId !in db.users then
      Effect(Failure(InvalidArgument(MemberDoesNotExist)), db)
    else if postId in db.posts && MayDelete(db.posts[postId], userId, db.users[userId]) then
      Effect(Success(true), db.(posts := db.posts - {postId}))
    else
      Effect(Success(false), db)
  }
}
