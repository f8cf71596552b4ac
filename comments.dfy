/** `getCommentsByPost`: the comments of a post joined, on the client, to
    the profiles of their authors. The distinct non-empty author ids are
    collected first, each is looked up once into a map, and every comment
    then gets the profile of its author, or null. */
module CommentEnrichment {
  import opened Common

  /** A comment document; the fields `author` does not touch. */
  datatype Comment = Comment(id: string, post: string, userId: string, content: string, createdAt: string)

  /** `{ ...comment, author }`: the comment unchanged, plus its author. */
  datatype EnrichedComment = EnrichedComment(comment: Comment, author: Option<Summary>)

  /** The author a comment should carry: the summary of its user document
      when the id is non-empty and the lookup succeeds, null otherwise. */
  function AuthorOf(userId: string, lookup: string -> Option<UserDoc>): Option<Summary> {
    if Truthy(userId) && lookup(userId).Some? then Some(Summarize(lookup(userId).value)) else None
  }

  predicate NoDuplicates(s: seq<string>) {
    forall i, j :: 0 <= i < j < |s| ==> s[i] != s[j]
  }

  /** `getCommentsByPost(postId)`. `configured` says whether the comments
      collection id is set; `listing` is the store's reply to the listing
      of the post's comments (None when it throws); `lookup` answers the
      user-document lookups. Besides the reply, `looked` gives the ids
      looked up, in order. */
  method GetCommentsByPost(configured: bool, listing: Option<seq<Comment>>,
                           lookup: string -> Option<UserDoc>)
    returns (r: Result<seq<EnrichedComment>>, looked: seq<string>)
    ensures !configured ==> r == Err(NotConfigured) && looked == []
    ensures configured && listing.None? ==> r == Err(RequestFailed) && looked == []
    ensures configured && listing.Some? ==>
              r.Ok? && |r.value| == |listing.value| &&
              forall i :: 0 <= i < |listing.value| ==>
                r.value[i] == EnrichedComment(listing.value[i], AuthorOf(listing.value[i].userId, lookup))
    ensures NoDuplicates(looked)
    ensures configured && listing.Some? ==>
              forall id :: id in looked <==>
                Truthy(id) && exists i :: 0 <= i < |listing.value| && listing.value[i].userId == id
  {
    looked := [];
    if !configured {
      return Err(NotConfigured), looked;
    }
    if listing.None? {
      return Err(RequestFailed), looked;
    }
    var docs := listing.value;

    // Array.from(new Set(docs.map(c => c.userId).filter(Boolean)))
    var userIds: seq<string> := [];
    var i := 0;
    while i < |docs|
      invariant 0 <= i <= |docs|
      invariant NoDuplicates(userIds)
      invariant forall id :: id in userIds <==>
                  Truthy(id) && exists j :: 0 <= j < i && docs[j].userId == id
    {
      var id := docs[i].userId;
      if Truthy(id) && id !in userIds {
        userIds := userIds + [id];
      }
      i := i + 1;
    }

    // fill the user map, one lookup per distinct id
    var userMap: map<string, Summary> := map[];
    var k := 0;
    while k < |userIds|
      invariant 0 <= k <= |userIds|
      invariant looked == userIds[..k]
      invariant forall id :: id in userMap <==> id in userIds[..k] && lookup(id).Some?
      invariant forall id :: id in userMap ==> userMap[id] == Summarize(lookup(id).value)
    {
      var id := userIds[k];
      looked := looked + [id];
      match lookup(id) {
        case Some(user) => userMap := userMap[id := Summarize(user)];
        case None =>
      }
      k := k + 1;
    }
    assert userIds[..k] == userIds;

    // documents.map(c => ({ ...c, author: userMap.get(c.userId) ?? null }))
    var enriched: seq<EnrichedComment> := [];
    var n := 0;
    while n < |docs|
      invariant 0 <= n <= |docs|
      invariant |enriched| == n
      invariant forall j :: 0 <= j < n ==>
                  enriched[j] == EnrichedComment(docs[j], AuthorOf(docs[j].userId, lookup))
    {
      var c := docs[n];
      var author := if c.userId in userMap then Some(userMap[c.userId]) else None;
      assert Truthy(c.userId) ==> c.userId in userIds;
      enriched := enriched + [EnrichedComment(c, author)];
      n := n + 1;
    }
    r := Ok(enriched);
  }
}
