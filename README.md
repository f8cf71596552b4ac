# social_media client core, modelled in Dafny

The application is a React client for a small social network whose
backend is an Appwrite project: a document database (users, posts,
comments, follows), file storage for images, and accounts. Nearly all of
the logic the authors wrote sits in the data-access layer
`src/lib/appwrite/api.ts`. Around the SDK calls it adds:

- a follow graph kept as follow documents, with a check-then-insert
  follow and a delete-by-id unfollow;
- counts and lists over that graph;
- the join of comments to their authors;
- tag parsing and the `/preview` to `/view` link rewrite;
- the multi-step writes that upload an image, persist the post or profile
  document, and clean up the file again on failure.

Two pieces of client state are modelled as well: the people search on
the All Users page, and the authentication provider's session.

The backend is modelled as values with an explicit reply per SDK call
(common.dfy, `Outcome`):

- `Resolved`: the call takes effect and resolves to a document.
- `Falsy`: the call resolves to a falsy value without effect.
- `Rejected`: the call throws.

Document and file ids drawn from `ID.unique()` are parameters. An id
already in use is refused by the store. Lookups of user documents are
total functions `string -> Option<UserDoc>`.

Modules:

| file | module | what it is |
|---|---|---|
| common.dfy | `Common` | `Option`, `Result` (value or thrown failure), `Outcome`, the user document and its summary |
| text.dfy | `Text` | the JavaScript string operations used: `startsWith`, `includes`, ASCII `toLowerCase`, `replace(/ /g,"")`, `split`/`join` on one character, first-occurrence `replace` |
| media.dfy | `Media` | tag parsing, the `/view` link rewrite, `getFilePreview` |
| follow_graph.dfy | `FollowGraph` | the follow collection as `seq<Edge>`, its pure operations and lemmas, and the class `FollowStore` that updates it in place |
| comments.dfy | `CommentEnrichment` | `getCommentsByPost` as a method with the three passes of the source |
| post_lifecycle.dfy | `PostLifecycle` | the store of files, posts, users and requests sent; create, update and delete of posts, profile update, and `getPostById`/`getRecentPosts` rewriting; the class `Backend` doing the same steps in place |
| creator_search.dfy | `CreatorSearch` | `filteredCreators` and `showEmptyState` of the All Users page |
| auth_context.dfy | `Session` | `INITIAL_USER`, `getCurrentUser`, the redirect rule and the class `AuthProvider` with `checkAuthUser` and the mount effect |

## Model

| member | source | states |
|---|---|---|
| Media.ParseTagsEdgeCases | src/lib/appwrite/api.ts:162 | absent tags give `[]`; the empty string gives `[""]` |
| Media.ParseTagsShape | src/lib/appwrite/api.ts:162 | the parsed tags number one more than the commas; no tag holds a space or a comma; joined with commas they give the input without its spaces |
| Media.EditFormTagsRoundTrip | src/components/forms/Postform.tsx:32 | tags shown in the edit form as `tags.join(",")` and parsed again come back unchanged when there is at least one and none holds a space or comma |
| Media.EditFormEmptyTagsBecomeOneEmptyTag | src/components/forms/Postform.tsx:32 | a post with no tags saved again from the edit form gets the single tag `""` |
| Media.ViewUrlRewritesFirstPreview | src/lib/appwrite/api.ts:277 | only the leftmost `/preview` is replaced by `/view`; the text before and after it is kept |
| Media.ViewUrlWithoutPreview | src/lib/appwrite/api.ts:277 | a link without `/preview` is returned unchanged |
| Media.FilePreview | src/lib/appwrite/api.ts:266-282 | a link is returned exactly when storage gives a non-empty one, and it is that link rewritten to `/view` |
| Text.ContainsIffOccurs | src/_root/pages/AllUsers.tsx:29 | `includes` is true exactly when the pattern occurs at some index |
| Text.ReplaceFirstAt | src/lib/appwrite/api.ts:277 | `replace` with a string pattern replaces the leftmost occurrence and keeps the rest of the string |
| Text.JoinSplit | src/lib/appwrite/api.ts:162 | joining the pieces of a split with the separator gives the string back |
| Text.SplitJoin | src/components/forms/Postform.tsx:32 | splitting a join gives the parts back when there is at least one part and none holds the separator |
| Text.RemoveCharSpec | src/lib/appwrite/api.ts:162 | removing spaces leaves no space, keeps the count of every other character and adds nothing |
| FollowGraph.Select | src/lib/appwrite/api.ts:643-644 | the equality query returns only edges satisfying the test, and all of them |
| FollowGraph.SelectCountsIndices | src/lib/appwrite/api.ts:723 | the result size of a query is the number of indices whose edge satisfies the test |
| FollowGraph.FirstLink | src/lib/appwrite/api.ts:648 | gives the index of the first edge from `u` to `f`, or none when there is no such edge |
| FollowGraph.FollowStatus | src/lib/appwrite/api.ts:635-653 | an edge is returned exactly when both ids are non-empty, the query works and an edge from `u` to `f` exists; it is the first such edge |
| FollowGraph.FollowOutcome | src/lib/appwrite/api.ts:656-684 | an empty id rejects; an existing edge is returned with the collection unchanged; with no visible edge, a resolved create under an unused id appends exactly the edge `u -> f` and returns it, a thrown create or a used id rejects as a failed request, and a falsy create rejects as a falsy response, each leaving the collection unchanged |
| FollowGraph.FollowIsIdempotent | src/lib/appwrite/api.ts:662-666 | following a pair again after a successful follow, with a working status check, changes nothing and returns the edge of the first call |
| FollowGraph.FollowTwiceFromEmpty | src/lib/appwrite/api.ts:656-684 | two follows of the same pair from an empty collection leave exactly one edge |
| FollowGraph.FollowKeepsPairsUnique | src/lib/appwrite/api.ts:662-666 | with a working status check a follow keeps at most one edge per pair |
| FollowGraph.FollowDuplicatesWhenStatusCheckFails | src/lib/appwrite/api.ts:649-652 | when the status query throws it reports "not following", and the follow inserts a second edge for the same pair |
| FollowGraph.FollowKeepsIdsUnique | src/lib/appwrite/api.ts:671 | a follow never reuses a document id |
| FollowGraph.FollowCounts | src/lib/appwrite/api.ts:668-679 | a follow that creates an edge raises the follower count of `f` and the following count of `u` by one |
| FollowGraph.RemoveIdAt | src/lib/appwrite/api.ts:699-703 | with unique ids, deleting by the id of an edge removes exactly that edge and keeps the order of the others |
| FollowGraph.UnfollowOutcome | src/lib/appwrite/api.ts:685-710 | an empty id rejects; without a visible edge it succeeds with the collection unchanged; a resolved delete removes exactly the first edge from `u` to `f`; a thrown delete rejects and changes nothing; a falsy delete reply is not inspected and gives ok with nothing changed |
| FollowGraph.UnfollowKeepsInvariants | src/lib/appwrite/api.ts:685-710 | an unfollow keeps ids unique and keeps one edge per pair |
| FollowGraph.UnfollowCounts | src/lib/appwrite/api.ts:699-703 | a successful unfollow lowers the follower count of `f` and the following count of `u` by one |
| FollowGraph.UnfollowIsIdempotent | src/lib/appwrite/api.ts:694-696 | with one edge per pair, after one successful unfollow no edge is left and a second unfollow changes nothing |
| FollowGraph.FollowersCount | src/lib/appwrite/api.ts:713-728 | the number of edges whose `followingId` is `u`; 0 for an empty id or a failed query |
| FollowGraph.FollowingCount | src/lib/appwrite/api.ts:731-746 | the number of edges whose `followerId` is `u`; 0 for an empty id or a failed query |
| FollowGraph.ResolveAll | src/lib/appwrite/api.ts:765-787 | no more entries than ids; every entry is the summary of a successful lookup of one of the ids; when every lookup succeeds, one entry per id in order |
| FollowGraph.ResolveAllAppend | src/lib/appwrite/api.ts:765-787 | resolving `a + b` is resolving `a` followed by resolving `b`: a failed lookup drops only its own entry and the others stay in order |
| FollowGraph.ResolveAllSingle | src/lib/appwrite/api.ts:767-782 | one id contributes its summary when its lookup succeeds and nothing otherwise |
| FollowGraph.FollowersListByEdge | src/lib/appwrite/api.ts:748-792 | the follower list of `a + b` is the list of `a` followed by the list of `b`; one edge contributes its follower's summary exactly when it points at `u` and the lookup succeeds |
| FollowGraph.FollowingListByEdge | src/lib/appwrite/api.ts:795-838 | the same for the users `u` follows |
| FollowGraph.FollowersListSpec | src/lib/appwrite/api.ts:748-792 | the follower list is no longer than the follower count; each entry is the summary of someone with an edge into `u`; with all lookups working it has one entry per edge, in edge order |
| FollowGraph.FollowingListSpec | src/lib/appwrite/api.ts:795-838 | the same for the users `u` follows |
| FollowGraph.FollowStore.FollowUser | src/lib/appwrite/api.ts:656-684 | updates the stored edges as `Follow` says and keeps document ids unique |
| FollowGraph.FollowStore.UnfollowUser | src/lib/appwrite/api.ts:685-710 | updates the stored edges as `Unfollow` says and keeps document ids unique |
| CommentEnrichment.GetCommentsByPost | src/lib/appwrite/api.ts:441-497 | rejects when the collection is not configured or the listing throws; otherwise the same comments in the same order, each with the summary of its author or null; each distinct non-empty author id is looked up exactly once |
| PostLifecycle.UploadEffect | src/lib/appwrite/api.ts:253-265 | a new file id is returned exactly when storage stores the upload under an unused id, and the file set grows by that id alone |
| PostLifecycle.DeleteFileEffect | src/lib/appwrite/api.ts:284-292 | never rejects; succeeds exactly when the file exists and storage accepts, and only then removes it |
| PostLifecycle.CreatePostEffect | src/lib/appwrite/api.ts:148-188 | a post is created exactly when the upload stores a fresh file, a view link exists, the create resolves and the id is unused; it carries the creator, caption, location, parsed tags, the `/view` link and the fresh file; on failure no post document is added; without a file nothing but the upload is requested; a missing link or a falsy create is followed by a delete of the uploaded file; a thrown create sends no delete and the uploaded file stays |
| PostLifecycle.UpdatePostEffect | src/lib/appwrite/api.ts:190-251 | the post is updated exactly when it exists, the update resolves and, with a new file, the upload stores a fresh file with a view link; without a new file the old image id and link are kept and files are untouched; with one, the old file is deleted only after the update resolved, after the upload and the update request; on failure the post is unchanged and the old file kept; after a falsy update the new file is deleted again |
| PostLifecycle.UpdateUserEffect | src/lib/appwrite/api.ts:571-632 | succeeds exactly when the user exists, the update resolves and, with a new file, the upload stores a fresh file with a view link; a thrown update rejects as a failed request and any other failure as a falsy response; updates only name, bio and image link; failures reject and leave the user unchanged and the old file kept; after a falsy update the new file is deleted again; the old file is deleted only when its id is set and a new file was uploaded |
| PostLifecycle.DeletePostEffect | src/lib/appwrite/api.ts:842-863 | succeeds exactly when the id is non-empty, the post exists and the delete resolves; an empty id rejects with nothing sent; a thrown or falsy delete rejects after the delete request alone, with posts and files untouched; the document is deleted before the file; a deleted post succeeds even when its file deletion fails |
| PostLifecycle.GetPostById | src/lib/appwrite/api.ts:336-358 | an empty id rejects; a missing post or failed read gives undefined; otherwise the stored post with its link rewritten to `/view` and every other field kept |
| PostLifecycle.RecentPostsView | src/lib/appwrite/api.ts:301-304 | the same posts in the same order, each with its link rewritten and every other field kept |
| PostLifecycle.CreatePostWithoutFile | src/lib/appwrite/api.ts:151-153 | without a file the create fails after the upload request, before any document is requested |
| PostLifecycle.UpdatePostCompensates | src/lib/appwrite/api.ts:231-240 | a falsy update with a new file leaves files and posts as they were, after upload, update and delete requests |
| PostLifecycle.UpdatePostThrowLeavesNewFile | src/lib/appwrite/api.ts:248-250 | a thrown update skips the cleanup and the new file remains in storage |
| PostLifecycle.Backend.UploadFile | src/lib/appwrite/api.ts:253-265 | changes the backend as `UploadEffect` says and keeps every document filed under its own id |
| PostLifecycle.Backend.DeleteFile | src/lib/appwrite/api.ts:284-292 | changes the backend as `DeleteFileEffect` says and keeps every document filed under its own id |
| PostLifecycle.Backend.CreatePost | src/lib/appwrite/api.ts:148-188 | carries out the steps of `createPost` with the result and new state of `CreatePostEffect`, keeping every document filed under its own id |
| PostLifecycle.Backend.UpdatePost | src/lib/appwrite/api.ts:190-251 | carries out the steps of `updatePost` with the result and new state of `UpdatePostEffect`, keeping every document filed under its own id |
| PostLifecycle.Backend.UpdateUser | src/lib/appwrite/api.ts:571-632 | carries out the steps of `updateUser` with the result and new state of `UpdateUserEffect`, keeping every document filed under its own id |
| PostLifecycle.Backend.DeletePost | src/lib/appwrite/api.ts:842-863 | carries out the steps of `deletePost` with the result and new state of `DeletePostEffect`, keeping every document filed under its own id |
| CreatorSearch.FilterBy | src/_root/pages/AllUsers.tsx:24-30 | keeps exactly the creators that match, and never more creators than given |
| CreatorSearch.FilteredCreators | src/_root/pages/AllUsers.tsx:20-31 | `[]` without documents; all documents for an empty search; otherwise exactly the documents whose lower-cased name or username contains the lower-cased search |
| CreatorSearch.FilterByAppend | src/_root/pages/AllUsers.tsx:24 | filtering distributes over concatenation, so the kept creators stay in their order |
| CreatorSearch.FilterByAllMatch | src/_root/pages/AllUsers.tsx:24 | when every creator matches the list is returned unchanged |
| CreatorSearch.FilterByIdempotent | src/_root/pages/AllUsers.tsx:24-30 | filtering the result again with the same query changes nothing |
| CreatorSearch.SearchIgnoresCase | src/_root/pages/AllUsers.tsx:25 | a search and its lower-cased form give the same result |
| CreatorSearch.SearchIgnoresNameCase | src/_root/pages/AllUsers.tsx:26-29 | a creator whose lower-cased name contains the lower-cased search is found |
| CreatorSearch.AbsentFieldsNeverMatch | src/_root/pages/AllUsers.tsx:26-27 | with a non-empty search, a creator with neither name nor username is never found, and one with only one of them is found exactly through that one |
| CreatorSearch.EmptyStateIff | src/_root/pages/AllUsers.tsx:38 | the empty state shows exactly when loading is over and the documents are missing, empty, or none matches |
| Session.ProfileOf | src/context/AuthContext.tsx:48-55 | the session profile takes the document id as id and copies name, username, email, image link and bio |
| Session.GetCurrentUser | src/lib/appwrite/api.ts:118-137 | a user is returned only with an account and a working listing, and it is the first users document with that account id; one is returned whenever such a document exists |
| Session.RedirectOnlyWithoutSession | src/context/AuthContext.tsx:74-80 | a redirect needs a missing or `"[]"` cookie; no route starting with one of the five public prefixes redirects |
| Session.HomeRedirectsWithoutSession | src/context/AuthContext.tsx:78-80 | the home route redirects without a session cookie and not with one |
| Session.AuthProvider.constructor | src/context/AuthContext.tsx:16-23 | the provider starts with the all-empty initial user, not loading and not authenticated |
| Session.AuthProvider.CheckAuthUser | src/context/AuthContext.tsx:43-68 | returns true exactly when a user document is found, then sets the profile from it and marks the session authenticated; otherwise leaves profile and flag unchanged; loading is set on, then off, on every path |
| Session.AuthProvider.Mount | src/context/AuthContext.tsx:70-83 | redirects to `/sign-up` exactly when the redirect rule holds, and runs the session check either way |

Details the model keeps as the code has them:

- `getPostById` rejects an empty id before its `try` block
  (`src/lib/appwrite/api.ts:337`).
- `deletePost` answers `{ status: "Ok" }` with a capital O
  (`src/lib/appwrite/api.ts:858`). `unfollowUser` and `deleteFile` answer
  `"ok"`. The model has one acknowledgement, `StatusOk`, for all three.
- The tag text `""` parses to the single tag `""`, so a post saved from the
  edit form with no tags gets one empty tag
  (`Media.EditFormEmptyTagsBecomeOneEmptyTag`).
- A thrown post update skips the cleanup and leaves the newly uploaded file
  in storage (`PostLifecycle.UpdatePostThrowLeavesNewFile`); a thrown
  create does the same (`PostLifecycle.CreatePostEffect`).
- When the follow-status query throws, `followUser` sees no edge and
  inserts a duplicate (`FollowGraph.FollowDuplicatesWhenStatusCheckFails`).

## Left out

- The Appwrite SDK itself: accounts, sessions, avatars and the query
  language. Each SDK call is one reply parameter. Query ordering
  (`orderDesc`), page limits (`limit`, and the default page size of
  `listDocuments`), cursors and full-text `search` are not modelled. So
  are `getInfinitePosts`, `searchPosts` and the ordering of
  `getRecentPosts`. Only `getRecentPosts`' link rewrite is modelled.
- Sign-up, sign-in, sign-out, e-mail verification and password recovery,
  `likePost`, `savePost`, `deleteSavedPost`, `getUserById`, `getUsers`,
  `createComment` and `deleteComment`. They pass values straight to the
  SDK and add no logic of their own.
- Concurrency. The `Promise.all` fan-outs are modelled as sequential
  passes. Two concurrent `followUser` calls can both pass the status check.
  A sequential model cannot express that race.
  `FollowDuplicatesWhenStatusCheckFails` shows the same duplicate arising
  from a failed status check.
- Timestamps (`followedAt`, `$createdAt`) and date formatting: they depend
  on the wall clock.
- All rendering, toasts, navigation other than the mount-time redirect,
  and the forms. The e-mail-verification flag declared in the context type
  is never supplied by the provider, so it is not modelled.
- Form validation, `File` and `URL` objects, logging, and the build
  configuration.
- `Text.ToLower`: folds ASCII letters only. JavaScript's Unicode case
  mapping is not modelled.
- `PostLifecycle.UpdatePostEffect`: an absent `location` is stored as
  absent. JSON serialisation would instead drop the key and keep the old
  location.
- `PostLifecycle.GetPostById`: an id of the wrong shape rejected by the
  server counts as a failed read (`readOk` false).
- `CommentEnrichment.GetCommentsByPost`: the returned listing keeps only
  its documents. The other fields of the listing reply, such as `total`,
  are not carried.
- `Session.AuthProvider.CheckAuthUser`: the `catch` branch cannot be
  reached because `getCurrentUser` catches every error itself. The model
  has no separate thrown path.
