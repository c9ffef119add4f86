/** The read-only listings of `PostService`: every post, and the posts whose
    title contains a keyword. The store decides the order, so the listing is
    built by picking the remaining posts in an unspecified order. */
module Queries {
  import opened Results
  import opened Entities

  /** `keyword` occurs somewhere in `text` (a title "containing" the keyword). */
  predicate Contains(text: string, keyword: string) {
    exists i :: 0 <= i <= |text| && keyword <= text[i..]
  }

  /** No entry of `s` occurs twice. */
  predicate Distinct<T(==)>(s: seq<T>) {
    forall i, j :: 0 <= i < j < |s| ==> s[i] != s[j]
  }

  /** A non-empty set of ids has a member to pick. */
  lemma NonEmptyHasMember(s: set<PostId>)
    requires s != {}
    ensures exists x :: x in s
  {
    if forall x :: x !in s {
      assert false;
    }
  }

  /** Part way through the store's walk: `listed` ids have been visited, in
      the order `ids`, producing `r`; `remaining` ids are still to come. */
  ghost predicate Walked(db: Db, listed: set<PostId>, remaining: set<PostId>, r: seq<PostDto>, ids: seq<PostId>) {
    && remaining + listed == db.posts.Keys
    && remaining !! listed
    && |r| == |ids| == |listed|
    && (forall id :: id in listed ==> id in ids)
    && (forall i :: 0 <= i < |ids| ==> ids[i] in listed && r[i] == FromPost(db.posts[ids[i]]))
    && Distinct(ids)
  }

  /** Visiting one more remaining id keeps the walk consistent. */
  lemma WalkStep(db: Db, listed: set<PostId>, remaining: set<PostId>, r: seq<PostDto>, ids: seq<PostId>, id: PostId)
    requires Walked(db, listed, remaining, r, ids) && id in remaining
    ensures Walked(db, listed + {id}, remaining - {id}, r + [FromPost(db.posts[id])], ids + [id])
  {
    var ids' := ids + [id];
    assert forall i :: 0 <= i < |ids| ==> ids'[i] == ids[i];
  }

  /** The store's walk over its posts: one transfer form per stored post, in
      the store's order, with the ids they were read from. */
  method ListPosts(db: Db) returns (r: seq<PostDto>, ghost ids: seq<PostId>)
    ensures |r| == |ids| == |db.posts|
    ensures forall id :: id in db.posts ==> id in ids
    ensures forall i :: 0 <= i < |ids| ==> ids[i] in db.posts && r[i] == FromPost(db.posts[ids[i]])
    ensures Distinct(ids)
  {
    var remaining := db.posts.Keys;
    ghost var listed: set<PostId> := {};
    ids := [];
    r := [];
    while remaining != {}
      invariant Walked(db, listed, remaining, r, ids)
      decreases remaining
    {
      NonEmptyHasMember(remaining);
      var id :| id in remaining;
      WalkStep(db, listed, remaining, r, ids, id);
      r := r + [FromPost(db.posts[id])];
      ids := ids + [id];
      listed := listed + {id};
      remaining := remaining - {id};
    }
  }

  /** `getAllPosts`: every stored post exactly once in transfer form, and
      nothing else. */
  method GetAllPosts(db: Db) returns (r: seq<PostDto>)
    ensures |r| == |db.posts|
    ensures forall id :: id in db.posts ==> FromPost(db.posts[id]) in r
    ensures forall d :: d in r ==> exists id :: id in db.posts && d == FromPost(db.posts[id])
    ensures Valid(db) ==> Distinct(r)
  {
    ghost var ids;
    r, ids := ListPosts(db);
    forall id | id in db.posts
      ensures FromPost(db.posts[id]) in r
    {
      var i :| 0 <= i < |ids| && ids[i] == id;
      assert r[i] == FromPost(db.posts[id]);
    }
    forall d | d in r
      ensures exists id :: id in db.posts && d == FromPost(db.posts[id])
    {
      var i :| 0 <= i < |r| && r[i] == d;
      var w := ids[i];
      assert w in db.posts && d == FromPost(db.posts[w]);
    }
    if Valid(db) {
      forall i, j | 0 <= i < j < |r|
        ensures r[i] != r[j]
      {
        assert r[i].id == Some(ids[i]) && r[j].id == Some(ids[j]);
      }
    }
  }

  /** Keeping the head of a distinct sequence in front of distinct entries
      drawn from its tail keeps them distinct. */
  lemma DistinctCons<T>(all: seq<T>, rest: seq<T>)
    requires |all| > 0
    requires forall d :: d in rest ==> d in all[1..]
    requires Distinct(all[1..]) ==> Distinct(rest)
    ensures Distinct(all) ==> Distinct([all[0]] + rest)
  {
    if Distinct(all) {
      assert Distinct(all[1..]);
      assert all[0] !in all[1..];
    }
  }

  /** The posts of `all` whose title contains `keyword`, in their order: each
      match kept as often as it occurs, every other entry dropped. */
  function FilterByTitle(all: seq<PostDto>, keyword: string): (r: seq<PostDto>)
    ensures forall d :: d in r <==> d in all && Contains(d.title, keyword)
    ensures forall d :: multiset(r)[d] == if Contains(d.title, keyword) then multiset(all)[d] else 0
    ensures Distinct(all) ==> Distinct(r)
    ensures |r| <= |all|
    decreases |all|
  {
    if all == [] then []
    else
      assert all == [all[0]] + all[1..];
      var rest := FilterByTitle(all[1..], keyword);
      if Contains(all[0].title, keyword) then
        DistinctCons(all, rest); [all[0]] + rest
      else rest
  }

  /** `getPostsByTitleContaining`: exactly the stored posts whose title
      contains the keyword, in transfer form. */
  method GetPostsByTitleContaining(db: Db, keyword: string) returns (r: seq<PostDto>)
    ensures forall d :: d in r ==>
      Contains(d.title, keyword) && exists id :: id in db.posts && d == FromPost(db.posts[id])
    ensures forall id :: id in db.posts && Contains(db.posts[id].title, keyword) ==> FromPost(db.posts[id]) in r
    ensures |r| <= |db.posts|
    ensures Valid(db) ==> Distinct(r)
  {
    var all := GetAllPosts(db);
    r := FilterByTitle(all, keyword);
  }
}
