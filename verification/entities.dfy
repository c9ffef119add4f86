/** The records the post service works on, and the abstract stores behind the
    post and user repositories. */
module Entities {
  import opened Results

  /** Post identifiers are store-assigned `Long`s; user identifiers are strings. */
  type PostId = int
  type UserId = string

  /** An opaque point in time: the service only ever stores the clock's reading. */
  datatype Instant = Instant(epochNanos: int)

  /** The role that may delete any post, compared literally. */
  const AdminRole: string := "admin"

  /** A stored post. `owner` is the id of the owning user; it is set when the
      post is created and no operation reassigns it. */
  datatype Post = Post(
    id: PostId,
    title: string,
    content: string,
    thumbs: int,
    createdAt: Option<Instant>,
    updatedAt: Option<Instant>,
    owner: UserId)

  /** A stored user. `posts` is the user's post collection (a back-reference). */
  datatype User = User(userId: UserId, role: string, posts: set<PostId>)

  /** The transfer form of a post seen at the service boundary. */
  datatype PostDto = PostDto(
    id: Option<PostId>,
    title: string,
    content: string,
    thumbs: int,
    createdAt: Option<Instant>,
    updatedAt: Option<Instant>)

  /** Projection of a stored post to its transfer form. */
  function FromPost(p: Post): PostDto {
    PostDto(Some(p.id), p.title, p.content, p.thumbs, p.createdAt, p.updatedAt)
  }

  /** A transfer object turned into a post with the given store identity:
      every field the transfer form carries is copied as is. */
  function ToPost(d: PostDto, id: PostId, owner: UserId): Post {
    Post(id, d.title, d.content, d.thumbs, d.createdAt, d.updatedAt, owner)
  }

  /** Both stores together with the post store's identity generator. */
  datatype Db = Db(posts: map<PostId, Post>, users: map<UserId, User>, nextId: PostId)

  /** The consistency the stores keep between operations:
      every post is stored under its own id, below the next id to hand out;
      every post's owner is a stored user whose collection lists the post;
      every user is stored under its own id. */
  ghost predicate Valid(db: Db) {
    && (forall id :: id in db.posts ==> db.posts[id].id == id && id < db.nextId)
    && (forall id :: id in db.posts ==>
          db.posts[id].owner in db.users && id in db.users[db.posts[id].owner].posts)
    && (forall u :: u in db.users ==> db.users[u].userId == u)
  }

  /** The failure the service raises (`IllegalArgumentException`). */
  datatype Error = InvalidArgument(message: string)

  /** What an operation answers together with the store it leaves behind. */
  datatype Effect<T> = Effect(answer: T, store: Db)

  /** `after` agrees with `before` on every post id other than `id`. */
  ghost predicate SamePostsExcept(before: map<PostId, Post>, after: map<PostId, Post>, id: PostId) {
    forall k :: k != id ==> (k in before <==> k in after) && (k in before ==> before[k] == after[k])
  }

  /** `after` agrees with `before` on every user other than `u`. */
  ghost predicate SameUsersExcept(before: map<UserId, User>, after: map<UserId, User>, u: UserId) {
    forall k :: k != u ==> (k in before <==> k in after) && (k in before ==> before[k] == after[k])
  }
}
