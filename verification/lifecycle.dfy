/** Properties of the post lifecycle that relate several operations: what a
    read sees after a write, who may change what, and what holds along any
    sequence of service calls. */
module Lifecycle {
  import opened Results
  import opened Entities
  import opened PostService

  /** A mutating service call, with the clock reading it sees. */
  datatype Op =
    | Create(dto: PostDto, userId: UserId, now: Instant)
    | Update(postId: PostId, update: PostDto, userId: UserId, now: Instant)
    | Delete(postId: PostId, userId: UserId)

  /** The store a call leaves behind, whatever it answered. */
  function Apply(db: Db, op: Op): Db {
    match op
    case Create(dto, userId, now) => CreatePosts(db, dto, userId, now).store
    case Update(postId, update, userId, now) => UpdatePost(db, postId, update, userId, now).store
    case Delete(postId, userId) => DeletePosts(db, postId, userId).store
  }

  /** The store after a sequence of calls, each atomic, one after another. */
  function Run(db: Db, ops: seq<Op>): Db
    decreases |ops|
  {
    if ops == [] then db else Run(Apply(db, ops[0]), ops[1..])
  }

  /** Any sequence of calls keeps the stores consistent. */
  lemma {:induction false} RunPreservesValid(db: Db, ops: seq<Op>)
    requires Valid(db)
    ensures Valid(Run(db, ops))
    decreases |ops|
  {
    if ops != [] {
      var next := Apply(db, ops[0]);
      assert Valid(next);
      RunPreservesValid(next, ops[1..]);
    }
  }

  /** The identity generator never goes backwards. */
  lemma {:induction false} RunNextIdGrows(db: Db, ops: seq<Op>)
    ensures db.nextId <= Run(db, ops).nextId
    decreases |ops|
  {
    if ops != [] {
      RunNextIdGrows(Apply(db, ops[0]), ops[1..]);
    }
  }

  /** A handed-out id that no post holds any more is never held again: a
      deleted post does not come back, and its id is not reused. */
  lemma {:induction false} DeletedStaysDeleted(db: Db, ops: seq<Op>, id: PostId)
    requires id < db.nextId && id !in db.posts
    ensures id !in Run(db, ops).posts
    decreases |ops|
  {
    if ops != [] {
      var next := Apply(db, ops[0]);
      assert id < next.nextId && id !in next.posts;
      DeletedStaysDeleted(next, ops[1..], id);
    }
  }

  /** A post that survives a sequence of calls keeps its id, its owner, its
      thumbs and its creation time: only title, content and update time are
      ever edited, and the owner is never reassigned. */
  lemma {:induction false} SurvivorKeepsIdentity(db: Db, ops: seq<Op>, id: PostId)
    requires Valid(db)
    requires id in db.posts && id in Run(db, ops).posts
    ensures var before, after := db.posts[id], Run(db, ops).posts[id];
      && after.id == before.id
      && after.owner == before.owner
      && after.thumbs == before.thumbs
      && after.createdAt == before.createdAt
    decreases |ops|
  {
    if ops != [] {
      var next := Apply(db, ops[0]);
      assert Valid(next);
      if id in next.posts {
        assert next.posts[id].owner == db.posts[id].owner;
        SurvivorKeepsIdentity(next, ops[1..], id);
      } else {
        assert id < next.nextId;
        DeletedStaysDeleted(next, ops[1..], id);
        assert false;
      }
    }
  }

  /** Creating then reading the new post answers what creation answered, with
      the title and content that were supplied. */
  lemma CreateThenGet(db: Db, dto: PostDto, userId: UserId, now: Instant)
    requires userId in db.users
    ensures var r := CreatePosts(db, dto, userId, now);
      && r.answer.Success?
      && var got := GetPostById(r.store, r.answer.value.id.value);
         && got == Some(r.answer.value)
         && got.value.title == dto.title && got.value.content == dto.content
         && got.value.thumbs == 0 && got.value.createdAt == Some(now)
  {
  }

  /** A successful deletion makes the post unreachable; a refused one leaves
      every read as it was. */
  lemma DeleteThenGet(db: Db, postId: PostId, userId: UserId, id: PostId)
    ensures var r := DeletePosts(db, postId, userId);
      && (r.answer == Success(true) ==> GetPostById(r.store, postId) == None)
      && (r.answer == Success(true) && id != postId ==> GetPostById(r.store, id) == GetPostById(db, id))
      && (r.answer != Success(true) ==> GetPostById(r.store, id) == GetPostById(db, id))
  {
  }

  /** The owner's update is what a later read sees. */
  lemma UpdateThenGet(db: Db, postId: PostId, update: PostDto, userId: UserId, now: Instant)
    requires postId in db.posts && db.posts[postId].owner == userId
    ensures var r := UpdatePost(db, postId, update, userId, now);
      && r.answer.Some?
      && GetPostById(r.store, postId) == r.answer
      && r.answer.value.title == update.title && r.answer.value.content == update.content
  {
  }

  /** Repeating the same update at the same time changes nothing more. */
  lemma UpdateIdempotent(db: Db, postId: PostId, update: PostDto, userId: UserId, now: Instant)
    ensures var once := UpdatePost(db, postId, update, userId, now);
      UpdatePost(once.store, postId, update, userId, now) == once
  {
  }

  /** An admin may delete any existing post, whoever owns it. */
  lemma AdminDeletesAnyPost(db: Db, postId: PostId, userId: UserId)
    requires userId in db.users && db.users[userId].role == AdminRole
    requires postId in db.posts
    ensures DeletePosts(db, postId, userId).answer == Success(true)
  {
  }

  /** A user who neither owns the post nor is an admin can neither edit nor
      delete it, and each attempt leaves the stores untouched; the refused
      update answers exactly as an update of a missing post would. */
  lemma StrangerIsRefused(db: Db, postId: PostId, update: PostDto, userId: UserId, now: Instant)
    requires userId in db.users && db.users[userId].role != AdminRole
    requires postId in db.posts && db.posts[postId].owner != userId
    ensures UpdatePost(db, postId, update, userId, now) == Effect(None, db)
    ensures UpdatePost(db.(posts := db.posts - {postId}), postId, update, userId, now).answer == None
    ensures DeletePosts(db, postId, userId) == Effect(Success(false), db)
  {
  }

  /** Unlike deletion, editing has no admin exception: an admin who does not
      own a post cannot edit it, and the attempt changes nothing. */
  lemma AdminCannotEditOthersPost(db: Db, postId: PostId, update: PostDto, userId: UserId, now: Instant)
    requires userId in db.users && db.users[userId].role == AdminRole
    requires postId in db.posts && db.posts[postId].owner != userId
    ensures UpdatePost(db, postId, update, userId, now) == Effect(None, db)
    ensures DeletePosts(db, postId, userId).answer == Success(true)
  {
  }

  /** Editing a post does not change who may delete it. */
  lemma UpdateKeepsDeleteRights(db: Db, postId: PostId, update: PostDto, editor: UserId, now: Instant, deleter: UserId)
    ensures var edited := UpdatePost(db, postId, update, editor, now).store;
      DeletePosts(edited, postId, deleter).answer == DeletePosts(db, postId, deleter).answer
  {
  }
}
