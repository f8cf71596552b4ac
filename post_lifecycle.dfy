/** The multi-step writes around posts and profiles: upload the media file,
    persist the document that refers to it, and delete the file again when
    persisting fails (compensation), or delete the replaced file once the
    new document is persisted. The backend is a value `Store` (file ids,
    post and user documents, and the log of requests sent, in order); each
    operation is a function from the store before to its reply and the
    store after, and the class `Backend` carries out the same steps one
    request at a time. Replies of the backend are parameters. */
module PostLifecycle {
  import opened Common
  import opened Media

  datatype Post = Post(
    id: string,
    creator: string,
    caption: string,
    imageUrl: string,
    imageId: string,
    location: Option<string>,
    tags: seq<string>)

  /** `INewPost` without its file: whether a file was chosen shows in the
      upload reply. */
  datatype NewPost = NewPost(userId: string, caption: string, location: Option<string>, tags: Option<string>)

  /** `IUpdatePost` without its file list. */
  datatype PostEdit = PostEdit(
    postId: string,
    caption: string,
    imageId: string,
    imageUrl: string,
    location: Option<string>,
    tags: Option<string>)

  /** `IUpdateUser` without its file list. */
  datatype ProfileEdit = ProfileEdit(
    userId: string,
    name: string,
    bio: string,
    imageId: Option<string>,
    imageUrl: string)

  /** A request sent to file storage or to the document database. */
  datatype Request =
    | UploadFile
    | DeleteFile(fileId: string)
    | CreateDocument(docId: string)
    | UpdateDocument(docId: string)
    | DeleteDocument(docId: string)

  /** What storage does with an upload: it stores a file under a fresh id,
      or `uploadFile` settles to undefined (no file given, or storage
      threw). */
  datatype Upload = Uploaded(fileId: string) | NotUploaded

  datatype Store = Store(
    files: set<string>,
    posts: map<string, Post>,
    users: map<string, UserDoc>,
    requests: seq<Request>)

  /** Every document is filed under its own id. */
  ghost predicate Consistent(s: Store) {
    (forall id :: id in s.posts ==> s.posts[id].id == id) &&
    (forall id :: id in s.users ==> s.users[id].id == id)
  }

  function Send(s: Store, q: Request): Store {
    s.(requests := s.requests + [q])
  }

  /** `uploadFile`: the id of the stored file, or undefined; an id already
      in use is refused by storage. */
  function UploadEffect(s: Store, upload: Upload): (res: (Option<string>, Store))
    ensures res.1.requests == s.requests + [UploadFile]
    ensures res.1.posts == s.posts && res.1.users == s.users
    ensures res.0.Some? ==> res.0.value !in s.files && res.1.files == s.files + {res.0.value}
    ensures res.0.None? ==> res.1.files == s.files
    ensures res.0.Some? <==> upload.Uploaded? && upload.fileId !in s.files
  {
    var s1 := Send(s, UploadFile);
    match upload
    case NotUploaded => (None, s1)
    case Uploaded(id) =>
      if id in s.files then (None, s1) else (Some(id), s1.(files := s.files + {id}))
  }

  /** `deleteFile`: never throws; settles to ok when the file existed and
      storage accepted (`ok`) the deletion, to undefined otherwise. */
  function DeleteFileEffect(s: Store, fileId: string, ok: bool): (res: (Option<Status>, Store))
    ensures res.1.requests == s.requests + [DeleteFile(fileId)]
    ensures res.1.posts == s.posts && res.1.users == s.users
    ensures res.0.Some? <==> ok && fileId in s.files
    ensures res.1.files == if res.0.Some? then s.files - {fileId} else s.files
  {
    var s1 := Send(s, DeleteFile(fileId));
    if ok && fileId in s.files then (Some(StatusOk), s1.(files := s.files - {fileId}))
    else (None, s1)
  }

  /** `createPost`: upload, derive the view link, persist the document,
      and delete the uploaded file when the link is missing or the create
      resolves falsy. A thrown create skips the cleanup; every failure
      settles to undefined. `cleanupOk` is storage's answer to that
      deletion. */
  function CreatePostEffect(s: Store, post: NewPost, upload: Upload, fileView: Option<string>,
                      newId: string, create: Outcome, cleanupOk: bool): (res: (Option<Post>, Store))
    ensures res.1.users == s.users
    ensures res.0.None? ==> res.1.posts == s.posts
    ensures res.0.Some? ==>
              var p := res.0.value;
              p.id == newId && newId !in s.posts && res.1.posts == s.posts[newId := p] &&
              p.creator == post.userId && p.caption == post.caption && p.location == post.location &&
              p.tags == ParseTags(post.tags) &&
              fileView.Some? && p.imageUrl == ViewUrl(fileView.value) &&
              p.imageId !in s.files && res.1.files == s.files + {p.imageId} &&
              res.1.requests == s.requests + [UploadFile, CreateDocument(newId)]
    ensures upload.NotUploaded? ==>
              res.0.None? && res.1.files == s.files && res.1.requests == s.requests + [UploadFile]
    ensures res.0.None? && create != Rejected && newId !in s.posts && cleanupOk ==> res.1.files == s.files
    ensures res.0.Some? <==>
              upload.Uploaded? && upload.fileId !in s.files && FilePreview(fileView).Some? &&
              create.Resolved? && newId !in s.posts
    ensures upload.Uploaded? && upload.fileId !in s.files && FilePreview(fileView).None? ==>
              res.1.requests == s.requests + [UploadFile, DeleteFile(upload.fileId)] &&
              res.1.files == if cleanupOk then s.files else s.files + {upload.fileId}
    ensures upload.Uploaded? && upload.fileId !in s.files && FilePreview(fileView).Some? &&
            create == Falsy && newId !in s.posts ==>
              res.1.requests == s.requests + [UploadFile, CreateDocument(newId), DeleteFile(upload.fileId)] &&
              res.1.files == if cleanupOk then s.files else s.files + {upload.fileId}
    ensures upload.Uploaded? && upload.fileId !in s.files && FilePreview(fileView).Some? &&
            (create == Rejected || newId in s.posts) ==>
              res.1.requests == s.requests + [UploadFile, CreateDocument(newId)] &&
              res.1.files == s.files + {upload.fileId}
    ensures Consistent(s) ==> Consistent(res.1)
  {
    var (fileId, s1) := UploadEffect(s, upload);
    if fileId.None? then (None, s1)
    else
      var url := FilePreview(fileView);
      if url.None? then (None, DeleteFileEffect(s1, fileId.value, cleanupOk).1)
      else
        var s2 := Send(s1, CreateDocument(newId));
        if create == Rejected || newId in s.posts then (None, s2)
        else if create == Falsy then (None, DeleteFileEffect(s2, fileId.value, cleanupOk).1)
        else
          var p := Post(newId, post.userId, post.caption, url.value, fileId.value,
                        post.location, ParseTags(post.tags));
          (Some(p), s2.(posts := s2.posts[newId := p]))
  }

  /** `updatePost`: with a new file (`hasFile`), upload it and derive its
      view link first (deleting it if there is no link); without one, keep
      the old image id and link. Then update the document; when that
      resolves falsy, delete the new file; only after the update resolves
      is the old file deleted. A thrown update skips the cleanup; failures
      settle to undefined. `deleteOk` is storage's answer to whichever
      deletion is sent. */
  function UpdatePostEffect(s: Store, edit: PostEdit, hasFile: bool, upload: Upload,
                      fileView: Option<string>, update: Outcome, deleteOk: bool): (res: (Option<Post>, Store))
    ensures res.1.users == s.users
    ensures res.0.None? ==> res.1.posts == s.posts
    ensures !hasFile ==> res.1.files == s.files
    ensures res.0.Some? ==>
              var p := res.0.value;
              edit.postId in s.posts && res.1.posts == s.posts[edit.postId := p] &&
              p.id == s.posts[edit.postId].id && p.creator == s.posts[edit.postId].creator &&
              p.caption == edit.caption && p.location == edit.location && p.tags == ParseTags(edit.tags)
    ensures res.0.Some? && !hasFile ==>
              res.0.value.imageId == edit.imageId && res.0.value.imageUrl == edit.imageUrl &&
              res.1.requests == s.requests + [UpdateDocument(edit.postId)]
    ensures res.0.Some? && hasFile ==>
              fileView.Some? && res.0.value.imageUrl == ViewUrl(fileView.value) &&
              res.0.value.imageId !in s.files &&
              res.1.files == (s.files + {res.0.value.imageId}) - (if deleteOk then {edit.imageId} else {}) &&
              res.1.requests == s.requests + [UploadFile, UpdateDocument(edit.postId), DeleteFile(edit.imageId)]
    ensures res.0.None? && edit.imageId in s.files ==> edit.imageId in res.1.files
    ensures res.0.None? && update != Rejected && edit.postId in s.posts && deleteOk ==> res.1.files == s.files
    ensures res.0.Some? <==>
              edit.postId in s.posts && update.Resolved? &&
              (hasFile ==> upload.Uploaded? && upload.fileId !in s.files && FilePreview(fileView).Some?)
    ensures Consistent(s) ==> Consistent(res.1)
  {
    var (image, s1) :=
      if !hasFile then (Some((edit.imageUrl, edit.imageId)), s)
      else
        var (fileId, su) := UploadEffect(s, upload);
        if fileId.None? then (None, su)
        else
          var url := FilePreview(fileView);
          if url.None? then (None, DeleteFileEffect(su, fileId.value, deleteOk).1)
          else (Some((url.value, fileId.value)), su);
    if image.None? then (None, s1)
    else
      var (imageUrl, imageId) := image.value;
      var s2 := Send(s1, UpdateDocument(edit.postId));
      if update == Rejected || edit.postId !in s.posts then (None, s2)
      else if update == Falsy then
        (None, if hasFile then DeleteFileEffect(s2, imageId, deleteOk).1 else s2)
      else
        var p := s.posts[edit.postId].(caption := edit.caption, imageUrl := imageUrl, imageId := imageId,
                                        location := edit.location, tags := ParseTags(edit.tags));
        var s3 := s2.(posts := s2.posts[edit.postId := p]);
        (Some(p), if hasFile then DeleteFileEffect(s3, edit.imageId, deleteOk).1 else s3)
  }

  /** `updateUser`: as `updatePost`, for the name, bio and image link of
      a user document, except that failures are rethrown, and the old file
      is deleted only when an old image id is known and a new file (with a
      non-empty id) was uploaded. */
  function UpdateUserEffect(s: Store, edit: ProfileEdit, hasFile: bool, upload: Upload,
                      fileView: Option<string>, update: Outcome, deleteOk: bool): (res: (Result<UserDoc>, Store))
    ensures res.1.posts == s.posts
    ensures res.0.Err? ==> res.1.users == s.users
    ensures !hasFile ==> res.1.files == s.files
    ensures res.0.Ok? ==>
              var d := res.0.value;
              edit.userId in s.users && res.1.users == s.users[edit.userId := d] &&
              d == s.users[edit.userId].(name := edit.name, bio := edit.bio, imageUrl := d.imageUrl) &&
              (if hasFile then fileView.Some? && d.imageUrl == ViewUrl(fileView.value)
               else d.imageUrl == edit.imageUrl)
    ensures res.0.Ok? && hasFile && upload.Uploaded? && Truthy(upload.fileId) ==>
              upload.fileId !in s.files &&
              res.1.files == (s.files + {upload.fileId}) -
                (if deleteOk && edit.imageId.Some? && Truthy(edit.imageId.value) then {edit.imageId.value} else {}) &&
              res.1.requests == s.requests + [UploadFile, UpdateDocument(edit.userId)] +
                (if edit.imageId.Some? && Truthy(edit.imageId.value) then [DeleteFile(edit.imageId.value)] else [])
    ensures res.0.Err? && edit.imageId.Some? && edit.imageId.value in s.files ==>
              edit.imageId.value in res.1.files
    ensures res.0.Err? && update != Rejected && edit.userId in s.users && deleteOk &&
            (upload.Uploaded? ==> Truthy(upload.fileId)) ==>
              res.1.files == s.files
    ensures res.0.Ok? <==>
              edit.userId in s.users && update.Resolved? &&
              (hasFile ==> upload.Uploaded? && upload.fileId !in s.files && FilePreview(fileView).Some?)
    ensures res.0.Err? ==>
              res.0.failure == if hasFile && (upload.NotUploaded? || upload.fileId in s.files || FilePreview(fileView).None?)
                               then FalsyResponse
                               else if update == Rejected || edit.userId !in s.users then RequestFailed
                               else FalsyResponse
    ensures Consistent(s) ==> Consistent(res.1)
  {
    var (image, s1) :=
      if !hasFile then (Some((edit.imageUrl, None)), s)
      else
        var (fileId, su) := UploadEffect(s, upload);
        if fileId.None? then (None, su)
        else
          var url := FilePreview(fileView);
          if url.None? then (None, DeleteFileEffect(su, fileId.value, deleteOk).1)
          else (Some((url.value, Some(fileId.value))), su);
    if image.None? then (Err(FalsyResponse), s1)
    else
      var (imageUrl, newImageId) := image.value;
      var uploadedNew := hasFile && newImageId.Some? && Truthy(newImageId.value);
      var s2 := Send(s1, UpdateDocument(edit.userId));
      if update == Rejected || edit.userId !in s.users then (Err(RequestFailed), s2)
      else if update == Falsy then
        (Err(FalsyResponse), if uploadedNew then DeleteFileEffect(s2, newImageId.value, deleteOk).1 else s2)
      else
        var d := s.users[edit.userId].(name := edit.name, bio := edit.bio, imageUrl := imageUrl);
        var s3 := s2.(users := s2.users[edit.userId := d]);
        if edit.imageId.Some? && Truthy(edit.imageId.value) && uploadedNew
        then (Ok(d), DeleteFileEffect(s3, edit.imageId.value, deleteOk).1)
        else (Ok(d), s3)
  }

  /** `deletePost`: an empty post id throws before anything is sent; the
      document is deleted first, and only then the image file. A failed
      file deletion is swallowed by `deleteFile`, so the reply is ok. */
  function DeletePostEffect(s: Store, postId: string, imageId: string, delete: Outcome,
                      fileOk: bool): (res: (Result<Status>, Store))
    ensures res.1.users == s.users
    ensures !Truthy(postId) ==> res == (Err(MissingArgument), s)
    ensures res.0.Err? ==> res.1.files == s.files && res.1.posts == s.posts
    ensures res.0.Ok? ==>
              postId in s.posts && res.1.posts == s.posts - {postId} &&
              res.1.requests == s.requests + [DeleteDocument(postId), DeleteFile(imageId)] &&
              res.1.files == if fileOk then s.files - {imageId} else s.files
    ensures res.0.Ok? <==> Truthy(postId) && postId in s.posts && delete.Resolved?
    ensures Truthy(postId) && (delete == Rejected || postId !in s.posts) ==>
              res == (Err(RequestFailed), Send(s, DeleteDocument(postId)))
    ensures Truthy(postId) && postId in s.posts && delete == Falsy ==>
              res == (Err(FalsyResponse), Send(s, DeleteDocument(postId)))
    ensures Consistent(s) ==> Consistent(res.1)
  {
    if !Truthy(postId) then (Err(MissingArgument), s)
    else
      var s1 := Send(s, DeleteDocument(postId));
      if delete == Rejected || postId !in s.posts then (Err(RequestFailed), s1)
      else if delete == Falsy then (Err(FalsyResponse), s1)
      else
        var s2 := s1.(posts := s1.posts - {postId});
        (Ok(StatusOk), DeleteFileEffect(s2, imageId, fileOk).1)
  }

  // ---------------------------------------------------------------------
  // Reads that rewrite the image link

  function WithViewUrl(p: Post): Post {
    p.(imageUrl := ViewUrl(p.imageUrl))
  }

  /** `getPostById`: an empty id throws; a missing document or a failed
      read (`readOk` false) settles to undefined; otherwise the post with
      its link rewritten to `/view` and every other field kept. */
  function GetPostById(posts: map<string, Post>, postId: string, readOk: bool): (r: Result<Option<Post>>)
    ensures !Truthy(postId) ==> r == Err(MissingArgument)
    ensures Truthy(postId) ==> r.Ok?
    ensures r.Ok? && r.value.Some? ==>
              readOk && postId in posts &&
              r.value.value == posts[postId].(imageUrl := ViewUrl(posts[postId].imageUrl))
    ensures Truthy(postId) && readOk && postId in posts ==> r.Ok? && r.value.Some?
  {
    if !Truthy(postId) then Err(MissingArgument)
    else if !readOk || postId !in posts then Ok(None)
    else Ok(Some(WithViewUrl(posts[postId])))
  }

  /** The mapping step of `getRecentPosts`: the same posts in the same
      order, each with its link rewritten to `/view`. */
  function RecentPostsView(posts: seq<Post>): (r: seq<Post>)
    ensures |r| == |posts|
    ensures forall i :: 0 <= i < |posts| ==>
              r[i].imageUrl == ViewUrl(posts[i].imageUrl) && r[i].(imageUrl := posts[i].imageUrl) == posts[i]
  {
    seq(|posts|, i requires 0 <= i < |posts| => WithViewUrl(posts[i]))
  }

  // ---------------------------------------------------------------------
  // Scenarios

  /** Creating a post without a media file fails before any document is
      requested, so no document can be left without its image. */
  lemma CreatePostWithoutFile(s: Store, post: NewPost, fileView: Option<string>,
                              newId: string, create: Outcome, cleanupOk: bool)
    ensures var res := CreatePostEffect(s, post, NotUploaded, fileView, newId, create, cleanupOk);
            res.0.None? && res.1 == Send(s, UploadFile) &&
            forall q :: q in res.1.requests[|s.requests|..] ==> !q.CreateDocument?
  {
    var res := CreatePostEffect(s, post, NotUploaded, fileView, newId, create, cleanupOk);
    assert res.1.requests[|s.requests|..] == [UploadFile];
  }

  /** Updating a post with a new file when the update resolves falsy: the
      new file is deleted again and the post document is as it was. */
  lemma UpdatePostCompensates(s: Store, edit: PostEdit, fileId: string, url: string)
    requires fileId !in s.files && Truthy(url) && edit.postId in s.posts
    ensures var res := UpdatePostEffect(s, edit, true, Uploaded(fileId), Some(url), Falsy, true);
            res.0.None? && res.1.files == s.files && res.1.posts == s.posts &&
            res.1.requests == s.requests + [UploadFile, UpdateDocument(edit.postId), DeleteFile(fileId)]
  {
  }

  /** The cleanup runs only on a falsy reply: when the update throws, the
      file just uploaded stays in storage with no document referring to
      it. */
  lemma UpdatePostThrowLeavesNewFile(s: Store, edit: PostEdit, fileId: string, url: string, deleteOk: bool)
    requires fileId !in s.files && Truthy(url)
    ensures var res := UpdatePostEffect(s, edit, true, Uploaded(fileId), Some(url), Rejected, deleteOk);
            res.0.None? && res.1.files == s.files + {fileId} && res.1.posts == s.posts
  {
  }

  // ---------------------------------------------------------------------
  // The backend as mutable state

  class Backend {
    var files: set<string>
    var posts: map<string, Post>
    var users: map<string, UserDoc>
    var requests: seq<Request>

    function Snapshot(): Store
      reads this
    {
      Store(files, posts, users, requests)
    }

    /** Every stored document is filed under its own id. */
    ghost predicate Valid()
      reads this
    {
      Consistent(Snapshot())
    }

    constructor (files0: set<string>, posts0: map<string, Post>, users0: map<string, UserDoc>)
      requires Consistent(Store(files0, posts0, users0, []))
      ensures Valid()
      ensures Snapshot() == Store(files0, posts0, users0, [])
    {
      files, posts, users, requests := files0, posts0, users0, [];
    }

    method UploadFile(upload: Upload) returns (fileId: Option<string>)
      requires Valid()
      modifies this
      ensures Valid()
      ensures (fileId, Snapshot()) == UploadEffect(old(Snapshot()), upload)
    {
      requests := requests + [Request.UploadFile];
      fileId := None;
      if upload.Uploaded? && upload.fileId !in files {
        files := files + {upload.fileId};
        fileId := Some(upload.fileId);
      }
    }

    method DeleteFile(fileId: string, ok: bool) returns (r: Option<Status>)
      requires Valid()
      modifies this
      ensures Valid()
      ensures (r, Snapshot()) == DeleteFileEffect(old(Snapshot()), fileId, ok)
    {
      requests := requests + [Request.DeleteFile(fileId)];
      r := None;
      if ok && fileId in files {
        files := files - {fileId};
        r := Some(StatusOk);
      }
    }

    method CreatePost(post: NewPost, upload: Upload, fileView: Option<string>,
                      newId: string, create: Outcome, cleanupOk: bool) returns (r: Option<Post>)
      requires Valid()
      modifies this
      ensures Valid()
      ensures (r, Snapshot()) == CreatePostEffect(old(Snapshot()), post, upload, fileView, newId, create, cleanupOk)
    {
      var uploaded := UploadFile(upload);
      if uploaded.None? {
        return None;
      }
      var fileUrl := FilePreview(fileView);
      if fileUrl.None? {
        var _ := DeleteFile(uploaded.value, cleanupOk);
        return None;
      }
      var tags := ParseTags(post.tags);
      requests := requests + [CreateDocument(newId)];
      if create == Rejected || newId in posts {
        return None;
      }
      if create == Falsy {
        var _ := DeleteFile(uploaded.value, cleanupOk);
        return None;
      }
      var p := Post(newId, post.userId, post.caption, fileUrl.value, uploaded.value, post.location, tags);
      posts := posts[newId := p];
      r := Some(p);
    }

    method UpdatePost(edit: PostEdit, hasFile: bool, upload: Upload, fileView: Option<string>,
                      update: Outcome, deleteOk: bool) returns (r: Option<Post>)
      requires Valid()
      modifies this
      ensures Valid()
      ensures (r, Snapshot()) == UpdatePostEffect(old(Snapshot()), edit, hasFile, upload, fileView, update, deleteOk)
    {
      var imageUrl, imageId := edit.imageUrl, edit.imageId;
      if hasFile {
        var uploaded := UploadFile(upload);
        if uploaded.None? {
          return None;
        }
        var fileUrl := FilePreview(fileView);
        if fileUrl.None? {
          var _ := DeleteFile(uploaded.value, deleteOk);
          return None;
        }
        imageUrl, imageId := fileUrl.value, uploaded.value;
      }
      var tags := ParseTags(edit.tags);
      requests := requests + [UpdateDocument(edit.postId)];
      if update == Rejected || edit.postId !in posts {
        return None;
      }
      if update == Falsy {
        if hasFile {
          var _ := DeleteFile(imageId, deleteOk);
        }
        return None;
      }
      var p := posts[edit.postId].(caption := edit.caption, imageUrl := imageUrl, imageId := imageId,
                                    location := edit.location, tags := tags);
      posts := posts[edit.postId := p];
      if hasFile {
        var _ := DeleteFile(edit.imageId, deleteOk);
      }
      r := Some(p);
    }

    method UpdateUser(edit: ProfileEdit, hasFile: bool, upload: Upload, fileView: Option<string>,
                      update: Outcome, deleteOk: bool) returns (r: Result<UserDoc>)
      requires Valid()
      modifies this
      ensures Valid()
      ensures (r, Snapshot()) == UpdateUserEffect(old(Snapshot()), edit, hasFile, upload, fileView, update, deleteOk)
    {
      var imageUrl := edit.imageUrl;
      var newImageId: Option<string> := None;
      if hasFile {
        var uploaded := UploadFile(upload);
        if uploaded.None? {
          return Err(FalsyResponse);
        }
        var fileUrl := FilePreview(fileView);
        if fileUrl.None? {
          var _ := DeleteFile(uploaded.value, deleteOk);
          return Err(FalsyResponse);
        }
        imageUrl, newImageId := fileUrl.value, uploaded;
      }
      var uploadedNew := hasFile && newImageId.Some? && Truthy(newImageId.value);
      requests := requests + [UpdateDocument(edit.userId)];
      if update == Rejected || edit.userId !in users {
        return Err(RequestFailed);
      }
      if update == Falsy {
        if uploadedNew {
          var _ := DeleteFile(newImageId.value, deleteOk);
        }
        return Err(FalsyResponse);
      }
      var d := users[edit.userId].(name := edit.name, bio := edit.bio, imageUrl := imageUrl);
      users := users[edit.userId := d];
      if edit.imageId.Some? && Truthy(edit.imageId.value) && uploadedNew {
        var _ := DeleteFile(edit.imageId.value, deleteOk);
      }
      r := Ok(d);
    }

    method DeletePost(postId: string, imageId: string, delete: Outcome, fileOk: bool)
      returns (r: Result<Status>)
      requires Valid()
      modifies this
      ensures Valid()
      ensures (r, Snapshot()) == DeletePostEffect(old(Snapshot()), postId, imageId, delete, fileOk)
    {
      if !Truthy(postId) {
        return Err(MissingArgument);
      }
      requests := requests + [DeleteDocument(postId)];
      if delete == Rejected || postId !in posts {
        return Err(RequestFailed);
      }
      if delete == Falsy {
        return Err(FalsyResponse);
      }
      posts := posts - {postId};
      var _ := DeleteFile(imageId, fileOk);
      r := Ok(StatusOk);
    }
  }
}
