# StoryWave post service, modelled in Dafny

This project models `PostService`, the service layer of the StoryWave blog.
The service sits over two stores: posts and users. It creates, reads, lists,
searches, edits, deletes and pages through posts. A post is owned by the user
who created it. Only the owner may edit a post. The owner or any user whose
role is the literal string `"admin"` may delete it.

The stores are immutable maps:
- posts: `map<PostId, Post>`
- users: `map<UserId, User>`
- plus the post store's identity generator, `nextId`

Each operation is a pure function of the stores. The clock reading `now` is
passed in as a parameter. A mutating operation answers an `Effect`: the
service's answer together with the store it leaves behind. A thrown
`IllegalArgumentException` is a `Failure(InvalidArgument(..))`, and it leaves
the store unchanged, as the rolled-back transaction does. `Optional` is
`Option`. Reads return only their answer, so they cannot change the store.

Files:
- `results.dfy`: `Option` and `Result`.
- `entities.dfy`: `Post`, `User`, the transfer form `PostDto`, the stores `Db`, and the store consistency `Valid`.
- `post_service.dfy`: `createPosts`, `getPostById`, `updatePost` and `deletePosts`.
- `queries.dfy`: `getAllPosts` and `getPostsByTitleContaining`.
- `paging.dfy`: `findPaginated` and the store's paging contract.
- `lifecycle.dfy`: properties that span several calls or whole call sequences.

Unlike deletion (PostService.java:83), editing has no admin exception
(PostService.java:65). An admin who does not own a post cannot edit it.

## Model

| member | source | states |
|---|---|---|
| PostService.CreatePosts | src/main/java/com/ormi/storywave/users/PostService.java:31-39 | fails with the "user not found" invalid-argument error exactly when the acting user is unknown, and then the store is unchanged; on success a fresh id is added and no other post changes; the stored post has thumbs 0 and `now` as creation time whatever the input said, takes title and content from the input, is owned by the actor and joins the actor's collection; the answer is that post's transfer form; consistency is preserved |
| PostService.GetPostById | src/main/java/com/ormi/storywave/users/PostService.java:41-45 | answers nothing exactly when no post has the id, and otherwise the transfer form of that post |
| PostService.UpdatePost | src/main/java/com/ormi/storywave/users/PostService.java:61-73 | answers nothing, with the store unchanged, exactly when the post is missing or the actor is not its owner; the owner's update sets title, content and update time, keeps id, owner, thumbs and creation time, leaves every other post, the users and the id generator alone, and answers the edited post |
| PostService.DeletePosts | src/main/java/com/ormi/storywave/users/PostService.java:75-90 | fails with an invalid-argument error exactly when the acting user is unknown, whatever the post; otherwise answers true exactly when the post exists and the actor owns it or has role "admin", and then only that post is removed; on false the store is unchanged |
| Queries.GetAllPosts | src/main/java/com/ormi/storywave/users/PostService.java:47-52 | lists as many entries as there are posts; each stored post's transfer form is in the list, and every entry is the transfer form of a stored post; in a consistent store no entry repeats |
| Queries.FilterByTitle | src/main/java/com/ormi/storywave/users/PostService.java:55-58 | keeps an entry exactly when its title contains the keyword, as many times as it occurs in the listing, drops every other entry, and keeps a repetition-free listing repetition-free |
| Queries.GetPostsByTitleContaining | src/main/java/com/ormi/storywave/users/PostService.java:54-59 | every answered post is a stored post whose title contains the keyword, every stored post whose title contains it is answered, and in a consistent store none is answered twice |
| Paging.FindPaginated | src/main/java/com/ormi/storywave/users/PostService.java:93-96 | requests the same page size and the page number one lower; page n at least 1 starts at offset (n-1)*size; with Java `int` wrap-around the lowest `int` page becomes the highest page number |
| Paging.PageWindow | src/main/java/com/ormi/storywave/users/PostService.java:95 | the store answers item i of the window as the listing's item at offset plus i; a window starting inside the listing is a full page or runs to the listing's end; a window starting past the end is empty |
| Paging.PageIsSlice | src/main/java/com/ormi/storywave/users/PostService.java:94-95 | page n is the listing's slice from where page n-1 ends to where page n ends |
| Paging.PageWindowLength | src/main/java/com/ormi/storywave/users/PostService.java:95 | a window starting inside the listing holds the smaller of a page size and the number of items from its offset to the end |
| Paging.PageEndIsProduct | src/main/java/com/ormi/storywave/users/PostService.java:94 | page n ends after n*size items, or at the end of a shorter listing |
| Paging.PagesReachPageEnd | src/main/java/com/ormi/storywave/users/PostService.java:93-95 | pages 1 to n cut from one and the same listing and joined are that listing up to where page n ends |
| Paging.FirstPageStartsAtZero | src/main/java/com/ormi/storywave/users/PostService.java:94 | page 1 maps to offset 0 and answers the first page-size items of the listing |
| Paging.NextPageFollows | src/main/java/com/ormi/storywave/users/PostService.java:94 | page n+1 starts exactly page-size items after page n |
| Paging.PagesTile | src/main/java/com/ormi/storywave/users/PostService.java:93-95 | pages 1 to n cut from one and the same listing and joined give exactly that listing's first n*size items (all of it if shorter) |
| Lifecycle.RunPreservesValid | src/main/java/com/ormi/storywave/users/PostService.java:31-90 | any sequence of create, update and delete calls keeps posts under their own ids and keeps owners existing users whose collections list their posts |
| Lifecycle.RunNextIdGrows | src/main/java/com/ormi/storywave/users/PostService.java:36 | the post store's identity generator never goes backwards over any sequence of calls |
| Lifecycle.DeletedStaysDeleted | src/main/java/com/ormi/storywave/users/PostService.java:36-86 | under the counter model of the store's id generator, a handed-out id that no post holds is never held again: deleted posts do not come back and ids are not reused |
| Lifecycle.SurvivorKeepsIdentity | src/main/java/com/ormi/storywave/users/PostService.java:34-70 | under the counter model of the store's id generator, a post that survives any sequence of calls keeps its id, owner, thumbs and creation time; the owner is never reassigned |
| Lifecycle.CreateThenGet | src/main/java/com/ormi/storywave/users/PostService.java:31-45 | for an existing user, creating and then reading the new id answers what creation answered, with the supplied title and content, thumbs 0 and creation time `now` |
| Lifecycle.DeleteThenGet | src/main/java/com/ormi/storywave/users/PostService.java:76-89 | after a successful delete the post reads as absent and every other post reads as before; after a refused or failed delete every read is as before |
| Lifecycle.UpdateThenGet | src/main/java/com/ormi/storywave/users/PostService.java:62-72 | after the owner's update, reading the post answers what the update answered, with the new title and content |
| Lifecycle.UpdateIdempotent | src/main/java/com/ormi/storywave/users/PostService.java:62-72 | repeating an update with the same data at the same time gives the same answer and store as doing it once |
| Lifecycle.AdminDeletesAnyPost | src/main/java/com/ormi/storywave/users/PostService.java:83 | an existing user with role "admin" deletes any existing post, whoever owns it |
| Lifecycle.StrangerIsRefused | src/main/java/com/ormi/storywave/users/PostService.java:62-89 | a user who is neither owner nor admin is refused both update and delete with the store untouched, and the refused update answers as an update of a missing post does |
| Lifecycle.AdminCannotEditOthersPost | src/main/java/com/ormi/storywave/users/PostService.java:62-83 | an admin who does not own a post is refused its edit with the store unchanged, although the same admin may delete it |
| Lifecycle.UpdateKeepsDeleteRights | src/main/java/com/ormi/storywave/users/PostService.java:65-83 | editing a post never changes the answer any user gets when deleting it |

## Left out

- Spring dependency injection and `@Transactional` demarcation are not modelled. Each operation is one atomic step on the stores, and a thrown error leaves the store as it was.
- Concurrency and isolation between an authorisation check and its mutation are not modelled. They belong to the store.
- `LocalDateTime.now()` is not modelled. The clock reading is the opaque parameter `now`.
- `PostDto.toPost`, `PostDto.fromPost` and `UsersDto.fromUsers` are not part of this model. They are taken as copying the fields of the same name. `toPost` is taken not to carry an id, so the store assigns a fresh one.
- `Users.addPost` is not part of this model. It is taken to set the post's owner and add the post's id to the user's collection.
- A delete leaves the owner's collection as it was, because the source does not touch it. The consistency invariant asks only that the collection lists every post the user owns.
- The delete error's message is rendered in English ("member does not exist"). The source's message is in Korean.
- Null arguments are not modelled. A null `postId` or `userId` makes the repositories' `findById` throw (PostService.java:33, 43, 64, 78 and 82). A null `postDto` fails at PostService.java:32. A null `updatePostDto` fails on an owned post at PostService.java:68. A null title or content in the update data would be stored as null at PostService.java:68-69, because update replaces both fields rather than patching them. In the model every id, transfer object, title and content is a value.
- A user whose role is null is not modelled. Roles are always strings, so the `NullPointerException` that a non-owner with a null role would raise on delete is left out.
- Lifecycle.DeletedStaysDeleted: the store's id generator is modelled as a counter that hands out increasing ids and never reuses a deleted post's id. How `postRepository.save` picks an id depends on the `Posts` entity and the database, which are not part of this model; a database that recomputes its counter from the highest remaining id could hand a deleted id out again. Lifecycle.SurvivorKeepsIdentity depends on the same assumption: under id reuse, a new post with an old id would count as a survivor.
- Post ids are unbounded integers. Overflow of the `Long` identity generator is not modelled.
- Queries.GetAllPosts: the store's listing order is not specified. Each next post is an arbitrary pick, so the contract speaks of contents and count, not order.
- Queries.GetPostsByTitleContaining: the title match is a case-sensitive substring test. The database's collation, which may ignore case in `LIKE`, is not modelled. The order of results is not specified.
- Paging.PagesTile: every page is taken to be cut from the same listing in the same order. That needs no create or delete between page reads and a store order that stays the same across queries. Each `findPaginated` call runs its own query, and an unsorted `PageRequest` guarantees neither, so pages read one after another may skip or repeat posts. Paging.PagesReachPageEnd rests on the same assumption.
- Paging.PageWindow: `PageRequest.of` rejects a negative page number and a page size below one. That rejection is library code and is not modelled, so the window is defined only for well-formed requests. Offsets beyond the Java `int` range are not modelled either: the window for such an offset is empty, whereas the repository cannot pass it on as an `int` first-result position. This is what page `Integer.MIN_VALUE`, wrapped to page `Integer.MAX_VALUE`, requests. The page's total count and total pages are not modelled.
