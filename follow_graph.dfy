/** The follow relationship: a collection of directed edges
    `{ $id, followerId, followingId }` kept in the document store, with a
    check-then-insert follow, an idempotent unfollow, counts and listings.
    The reads are functions of a snapshot of the edge collection; the two
    writes are methods of `FollowStore`, each proved equal to a function
    (`Follow`, `Unfollow`) about which the properties are stated. */
module FollowGraph {
  import opened Common

  /** A follow document; its `followedAt` timestamp is not modelled. */
  datatype Edge = Edge(id: string, followerId: string, followingId: string)

  /** `e` is the edge "u follows f". */
  predicate Links(e: Edge, u: string, f: string) {
    e.followerId == u && e.followingId == f
  }

  predicate HasLink(edges: seq<Edge>, u: string, f: string) {
    exists i :: 0 <= i < |edges| && Links(edges[i], u, f)
  }

  /** `i` is the first edge, in store order, from `u` to `f`. */
  predicate IsFirstLink(edges: seq<Edge>, u: string, f: string, i: int) {
    0 <= i < |edges| && Links(edges[i], u, f) &&
    forall j :: 0 <= j < i ==> !Links(edges[j], u, f)
  }

  /** Document ids are unique within the collection. */
  ghost predicate UniqueIds(edges: seq<Edge>) {
    forall i, j :: 0 <= i < j < |edges| ==> edges[i].id != edges[j].id
  }

  /** The relationship the application means to keep: at most one edge per
      ordered (follower, following) pair. The store does not enforce it. */
  ghost predicate AtMostOneLinkPerPair(edges: seq<Edge>) {
    forall i, j :: 0 <= i < j < |edges| ==>
      !Links(edges[j], edges[i].followerId, edges[i].followingId)
  }

  predicate IdInUse(edges: seq<Edge>, id: string) {
    exists i :: 0 <= i < |edges| && edges[i].id == id
  }

  // ---------------------------------------------------------------------
  // Filters over the edge collection (the `Query.equal` listings)

  /** The edges satisfying `p`, in store order. */
  function Select(edges: seq<Edge>, p: Edge -> bool): (r: seq<Edge>)
    ensures |r| <= |edges|
    ensures forall e :: e in r <==> e in edges && p(e)
    decreases |edges|
  {
    if |edges| == 0 then []
    else if p(edges[0]) then [edges[0]] + Select(edges[1..], p)
    else Select(edges[1..], p)
  }

  lemma {:induction false} SelectAppend(a: seq<Edge>, b: seq<Edge>, p: Edge -> bool)
    ensures Select(a + b, p) == Select(a, p) + Select(b, p)
    decreases |a|
  {
    if |a| > 0 {
      assert (a + b)[1..] == a[1..] + b;
      SelectAppend(a[1..], b, p);
    } else {
      assert a + b == b;
    }
  }

  /** The indices of the edges satisfying `p`. */
  ghost function IndicesWhere(edges: seq<Edge>, p: Edge -> bool): set<int> {
    set i | 0 <= i < |edges| && p(edges[i])
  }

  /** Taking the last edge off: its index joins the indices of the rest
      exactly when it satisfies `p`. */
  lemma IndicesWhereSnoc(edges: seq<Edge>, p: Edge -> bool)
    requires |edges| > 0
    ensures var n := |edges| - 1;
            IndicesWhere(edges, p) == IndicesWhere(edges[..n], p) + (if p(edges[n]) then {n} else {}) &&
            n !in IndicesWhere(edges[..n], p)
  {
    var n := |edges| - 1;
    var t := edges[..n];
    forall i
      ensures i in IndicesWhere(edges, p) <==> i in IndicesWhere(t, p) + (if p(edges[n]) then {n} else {})
    {
      if 0 <= i < n {
        assert edges[i] == t[i];
      }
    }
  }

  /** Taking the last edge off: the filter loses it exactly when it
      satisfies `p`. */
  lemma SelectSnocCount(edges: seq<Edge>, p: Edge -> bool)
    requires |edges| > 0
    ensures var n := |edges| - 1;
            |Select(edges, p)| == |Select(edges[..n], p)| + (if p(edges[n]) then 1 else 0)
  {
    var n := |edges| - 1;
    var t := edges[..n];
    assert t + [edges[n]] == edges;
    SelectAppend(t, [edges[n]], p);
    assert [edges[n]][1..] == [];
  }

  /** The filter has one element per index whose edge satisfies `p`. */
  lemma {:induction false} SelectCountsIndices(edges: seq<Edge>, p: Edge -> bool)
    ensures |Select(edges, p)| == |IndicesWhere(edges, p)|
    decreases |edges|
  {
    if |edges| > 0 {
      var n := |edges| - 1;
      var t := edges[..n];
      SelectSnocCount(edges, p);
      SelectCountsIndices(t, p);
      IndicesWhereSnoc(edges, p);
      var a := IndicesWhere(t, p);
      var b := if p(edges[n]) then {n} else {};
      assert |a + b| == |a| + |b|;
    } else {
      assert IndicesWhere(edges, p) == {};
    }
  }

  function IntoUser(u: string): Edge -> bool {
    (e: Edge) => e.followingId == u
  }

  function OutOfUser(u: string): Edge -> bool {
    (e: Edge) => e.followerId == u
  }

  function LinksPair(u: string, f: string): Edge -> bool {
    (e: Edge) => Links(e, u, f)
  }

  function OtherId(id: string): Edge -> bool {
    (e: Edge) => e.id != id
  }

  /** Edges into `u`: the ones saying someone follows `u`. */
  function Incoming(edges: seq<Edge>, u: string): seq<Edge> {
    Select(edges, IntoUser(u))
  }

  /** Edges out of `u`: the ones saying `u` follows someone. */
  function Outgoing(edges: seq<Edge>, u: string): seq<Edge> {
    Select(edges, OutOfUser(u))
  }

  /** Edges from `u` to `f`. */
  function Between(edges: seq<Edge>, u: string, f: string): seq<Edge> {
    Select(edges, LinksPair(u, f))
  }

  // ---------------------------------------------------------------------
  // checkUserFollowStatus

  /** Index of the first edge from `u` to `f`. */
  function FirstLink(edges: seq<Edge>, u: string, f: string): (r: Option<nat>)
    ensures r.Some? ==> IsFirstLink(edges, u, f, r.value)
    ensures r.None? ==> !HasLink(edges, u, f)
    decreases |edges|
  {
    if |edges| == 0 then None
    else if Links(edges[0], u, f) then Some(0)
    else match FirstLink(edges[1..], u, f)
      case None => None
      case Some(i) => Some(i + 1)
  }

  /** `checkUserFollowStatus(u, f)`: null when an id is empty or the
      listing throws (`queryOk` false); otherwise the first edge from `u`
      to `f`, or null when there is none. */
  function FollowStatus(edges: seq<Edge>, u: string, f: string, queryOk: bool): (r: Option<Edge>)
    ensures r.Some? <==> Truthy(u) && Truthy(f) && queryOk && HasLink(edges, u, f)
    ensures r.Some? ==> exists i :: IsFirstLink(edges, u, f, i) && r.value == edges[i]
  {
    if !Truthy(u) || !Truthy(f) || !queryOk then None
    else match FirstLink(edges, u, f)
      case None => None
      case Some(i) => Some(edges[i])
  }

  // ---------------------------------------------------------------------
  // followUser / unfollowUser as functions of the edge collection

  /** `followUser(u, f)`: rejects when an id is empty; returns the existing
      edge when the status check finds one; otherwise asks the store to
      create `{ followerId: u, followingId: f }` under the fresh id `newId`.
      The store rejects an id already in use; a falsy reply is turned into
      a rejection. Returns the reply and the collection afterwards. */
  function Follow(edges: seq<Edge>, u: string, f: string, statusOk: bool,
                  newId: string, create: Outcome): (Result<Edge>, seq<Edge>)
  {
    if !Truthy(u) || !Truthy(f) then (Err(MissingArgument), edges)
    else match FollowStatus(edges, u, f, statusOk)
      case Some(e) => (Ok(e), edges)
      case None =>
        if create == Rejected || IdInUse(edges, newId) then (Err(RequestFailed), edges)
        else if create == Falsy then (Err(FalsyResponse), edges)
        else (Ok(Edge(newId, u, f)), edges + [Edge(newId, u, f)])
  }

  /** The collection without the document whose id is `id`
      (`deleteDocument(..., id)`). */
  function RemoveId(edges: seq<Edge>, id: string): seq<Edge> {
    Select(edges, OtherId(id))
  }

  /** `unfollowUser(u, f)`: rejects when an id is empty; succeeds without
      change when the status check finds no edge; otherwise deletes the
      found edge by its id. A rejected delete is rethrown; the delete's
      reply is not otherwise inspected, so a falsy reply still gives ok. */
  function Unfollow(edges: seq<Edge>, u: string, f: string, statusOk: bool,
                    delete: Outcome): (Result<Status>, seq<Edge>)
  {
    if !Truthy(u) || !Truthy(f) then (Err(MissingArgument), edges)
    else match FollowStatus(edges, u, f, statusOk)
      case None => (Ok(StatusOk), edges)
      case Some(e) =>
        if delete == Rejected then (Err(RequestFailed), edges)
        else if delete == Falsy then (Ok(StatusOk), edges)
        else (Ok(StatusOk), RemoveId(edges, e.id))
  }

  // ---------------------------------------------------------------------
  // Counts and listings

  /** `getFollowersCount(u)`: the number of edges whose `followingId` is
      `u`; 0 for an empty id or when the listing throws. */
  function FollowersCount(edges: seq<Edge>, u: string, queryOk: bool): (n: nat)
    ensures n == if Truthy(u) && queryOk then |set i | 0 <= i < |edges| && edges[i].followingId == u| else 0
  {
    if !Truthy(u) || !queryOk then 0
    else
      SelectCountsIndices(edges, IntoUser(u));
      assert IndicesWhere(edges, IntoUser(u)) == set i | 0 <= i < |edges| && edges[i].followingId == u;
      |Incoming(edges, u)|
  }

  /** `getFollowingCount(u)`: the number of edges whose `followerId` is
      `u`; 0 for an empty id or when the listing throws. */
  function FollowingCount(edges: seq<Edge>, u: string, queryOk: bool): (n: nat)
    ensures n == if Truthy(u) && queryOk then |set i | 0 <= i < |edges| && edges[i].followerId == u| else 0
  {
    if !Truthy(u) || !queryOk then 0
    else
      SelectCountsIndices(edges, OutOfUser(u));
      assert IndicesWhere(edges, OutOfUser(u)) == set i | 0 <= i < |edges| && edges[i].followerId == u;
      |Outgoing(edges, u)|
  }

  /** Look each id up in the users collection, in order, dropping the ones
      whose lookup fails (`Promise.all` of the lookups, then
      `filter(x => x !== null)`). */
  function ResolveAll(ids: seq<string>, lookup: string -> Option<UserDoc>): (r: seq<Summary>)
    ensures |r| <= |ids|
    ensures forall s :: s in r ==>
              exists k :: 0 <= k < |ids| && lookup(ids[k]).Some? && Summarize(lookup(ids[k]).value) == s
    ensures (forall k :: 0 <= k < |ids| ==> lookup(ids[k]).Some?) ==>
              |r| == |ids| && forall k :: 0 <= k < |ids| ==> r[k] == Summarize(lookup(ids[k]).value)
    decreases |ids|
  {
    if |ids| == 0 then []
    else
      var rest := ResolveAll(ids[1..], lookup);
      match lookup(ids[0])
      case None => rest
      case Some(d) => [Summarize(d)] + rest
  }

  function FollowerIds(edges: seq<Edge>, u: string): seq<string> {
    var es := Incoming(edges, u);
    seq(|es|, k requires 0 <= k < |es| => es[k].followerId)
  }

  function FollowingIds(edges: seq<Edge>, u: string): seq<string> {
    var es := Outgoing(edges, u);
    seq(|es|, k requires 0 <= k < |es| => es[k].followingId)
  }

  /** `getFollowersList(u)`: the summaries of the followers of `u`, in edge
      order; [] for an empty id or when the listing throws. */
  function FollowersList(edges: seq<Edge>, u: string, queryOk: bool,
                         lookup: string -> Option<UserDoc>): seq<Summary>
  {
    if !Truthy(u) || !queryOk then [] else ResolveAll(FollowerIds(edges, u), lookup)
  }

  /** `getFollowingList(u)`: the summaries of the users `u` follows, in
      edge order; [] for an empty id or when the listing throws. */
  function FollowingList(edges: seq<Edge>, u: string, queryOk: bool,
                         lookup: string -> Option<UserDoc>): seq<Summary>
  {
    if !Truthy(u) || !queryOk then [] else ResolveAll(FollowingIds(edges, u), lookup)
  }

  // ---------------------------------------------------------------------
  // Properties of the reads

  /** The follower list never has more entries than the follower count;
      each entry is the summary of a follower of `u` whose lookup
      succeeded; when every lookup succeeds the list has exactly one entry
      per edge, in edge order, duplicates included. */
  lemma FollowersListSpec(edges: seq<Edge>, u: string, queryOk: bool,
                          lookup: string -> Option<UserDoc>)
    ensures |FollowersList(edges, u, queryOk, lookup)| <= FollowersCount(edges, u, queryOk)
    ensures forall s :: s in FollowersList(edges, u, queryOk, lookup) ==>
              exists e, d :: e in edges && e.followingId == u &&
                lookup(e.followerId) == Some(d) && Summarize(d) == s
    ensures Truthy(u) && queryOk && (forall e :: e in Incoming(edges, u) ==> lookup(e.followerId).Some?) ==>
              |FollowersList(edges, u, queryOk, lookup)| == FollowersCount(edges, u, queryOk) &&
              forall k :: 0 <= k < |Incoming(edges, u)| ==>
                FollowersList(edges, u, queryOk, lookup)[k] ==
                Summarize(lookup(Incoming(edges, u)[k].followerId).value)
  {
    var es := Incoming(edges, u);
    var ids := FollowerIds(edges, u);
    if Truthy(u) && queryOk {
      assert FollowersCount(edges, u, queryOk) == |es| == |ids|;
      assert FollowersList(edges, u, queryOk, lookup) == ResolveAll(ids, lookup);
      forall s | s in FollowersList(edges, u, queryOk, lookup)
        ensures exists e, d :: e in edges && e.followingId == u &&
                  lookup(e.followerId) == Some(d) && Summarize(d) == s
      {
        var k :| 0 <= k < |ids| && lookup(ids[k]).Some? && Summarize(lookup(ids[k]).value) == s;
        assert es[k] in es;
      }
      if forall e :: e in es ==> lookup(e.followerId).Some? {
        assert forall k :: 0 <= k < |ids| ==> es[k] in es;
      }
    }
  }

  /** The same for the following list. */
  lemma FollowingListSpec(edges: seq<Edge>, u: string, queryOk: bool,
                          lookup: string -> Option<UserDoc>)
    ensures |FollowingList(edges, u, queryOk, lookup)| <= FollowingCount(edges, u, queryOk)
    ensures forall s :: s in FollowingList(edges, u, queryOk, lookup) ==>
              exists e, d :: e in edges && e.followerId == u &&
                lookup(e.followingId) == Some(d) && Summarize(d) == s
    ensures Truthy(u) && queryOk && (forall e :: e in Outgoing(edges, u) ==> lookup(e.followingId).Some?) ==>
              |FollowingList(edges, u, queryOk, lookup)| == FollowingCount(edges, u, queryOk) &&
              forall k :: 0 <= k < |Outgoing(edges, u)| ==>
                FollowingList(edges, u, queryOk, lookup)[k] ==
                Summarize(lookup(Outgoing(edges, u)[k].followingId).value)
  {
    var es := Outgoing(edges, u);
    var ids := FollowingIds(edges, u);
    if Truthy(u) && queryOk {
      assert FollowingCount(edges, u, queryOk) == |es| == |ids|;
      assert FollowingList(edges, u, queryOk, lookup) == ResolveAll(ids, lookup);
      forall s | s in FollowingList(edges, u, queryOk, lookup)
        ensures exists e, d :: e in edges && e.followerId == u &&
                  lookup(e.followingId) == Some(d) && Summarize(d) == s
      {
        var k :| 0 <= k < |ids| && lookup(ids[k]).Some? && Summarize(lookup(ids[k]).value) == s;
        assert es[k] in es;
      }
      if forall e :: e in es ==> lookup(e.followingId).Some? {
        assert forall k :: 0 <= k < |ids| ==> es[k] in es;
      }
    }
  }

  /** Lookups are resolved id by id: a failed lookup drops its own entry
      and no other, so the successful ones are kept, in order. */
  lemma {:induction false} ResolveAllAppend(a: seq<string>, b: seq<string>, lookup: string -> Option<UserDoc>)
    ensures ResolveAll(a + b, lookup) == ResolveAll(a, lookup) + ResolveAll(b, lookup)
    decreases |a|
  {
    if |a| == 0 {
      assert a + b == b;
    } else {
      var ab := a + b;
      assert ab[0] == a[0];
      assert ab[1..] == a[1..] + b;
      ResolveAllAppend(a[1..], b, lookup);
      var head := if lookup(a[0]).Some? then [Summarize(lookup(a[0]).value)] else [];
      assert ResolveAll(ab, lookup) == head + ResolveAll(ab[1..], lookup);
      assert ResolveAll(a, lookup) == head + ResolveAll(a[1..], lookup);
    }
  }

  /** What a single id contributes: its summary when the lookup succeeds,
      nothing otherwise. */
  lemma ResolveAllSingle(id: string, lookup: string -> Option<UserDoc>)
    ensures ResolveAll([id], lookup) == if lookup(id).Some? then [Summarize(lookup(id).value)] else []
  {
    assert [id][1..] == [];
  }

  lemma FollowerIdsAppend(a: seq<Edge>, b: seq<Edge>, u: string)
    ensures FollowerIds(a + b, u) == FollowerIds(a, u) + FollowerIds(b, u)
  {
    SelectAppend(a, b, IntoUser(u));
  }

  lemma FollowingIdsAppend(a: seq<Edge>, b: seq<Edge>, u: string)
    ensures FollowingIds(a + b, u) == FollowingIds(a, u) + FollowingIds(b, u)
  {
    SelectAppend(a, b, OutOfUser(u));
  }

  /** The follower list is built edge by edge: the list for `a + b` is the
      list for `a` followed by the list for `b`, and one edge contributes
      the summary of its follower exactly when it points at `u` and the
      follower's lookup succeeds. */
  lemma FollowersListByEdge(a: seq<Edge>, b: seq<Edge>, u: string, lookup: string -> Option<UserDoc>)
    requires Truthy(u)
    ensures FollowersList(a + b, u, true, lookup) == FollowersList(a, u, true, lookup) + FollowersList(b, u, true, lookup)
    ensures forall e :: FollowersList([e], u, true, lookup) ==
              if e.followingId == u && lookup(e.followerId).Some? then [Summarize(lookup(e.followerId).value)] else []
  {
    FollowerIdsAppend(a, b, u);
    ResolveAllAppend(FollowerIds(a, u), FollowerIds(b, u), lookup);
    forall e
      ensures FollowersList([e], u, true, lookup) ==
                if e.followingId == u && lookup(e.followerId).Some? then [Summarize(lookup(e.followerId).value)] else []
    {
      assert [e][1..] == [];
      if e.followingId == u {
        assert FollowerIds([e], u) == [e.followerId];
        ResolveAllSingle(e.followerId, lookup);
      } else {
        assert FollowerIds([e], u) == [];
      }
    }
  }

  /** The same for the following list. */
  lemma FollowingListByEdge(a: seq<Edge>, b: seq<Edge>, u: string, lookup: string -> Option<UserDoc>)
    requires Truthy(u)
    ensures FollowingList(a + b, u, true, lookup) == FollowingList(a, u, true, lookup) + FollowingList(b, u, true, lookup)
    ensures forall e :: FollowingList([e], u, true, lookup) ==
              if e.followerId == u && lookup(e.followingId).Some? then [Summarize(lookup(e.followingId).value)] else []
  {
    FollowingIdsAppend(a, b, u);
    ResolveAllAppend(FollowingIds(a, u), FollowingIds(b, u), lookup);
    forall e
      ensures FollowingList([e], u, true, lookup) ==
                if e.followerId == u && lookup(e.followingId).Some? then [Summarize(lookup(e.followingId).value)] else []
    {
      assert [e][1..] == [];
      if e.followerId == u {
        assert FollowingIds([e], u) == [e.followingId];
        ResolveAllSingle(e.followingId, lookup);
      } else {
        assert FollowingIds([e], u) == [];
      }
    }
  }

  // ---------------------------------------------------------------------
  // Properties of follow and unfollow

  lemma FirstLinkUnique(edges: seq<Edge>, u: string, f: string, i: int, j: int)
    requires IsFirstLink(edges, u, f, i) && IsFirstLink(edges, u, f, j)
    ensures i == j
  {
  }

  lemma SelectAll(s: seq<Edge>, p: Edge -> bool)
    requires forall k :: 0 <= k < |s| ==> p(s[k])
    ensures Select(s, p) == s
    decreases |s|
  {
    if |s| > 0 {
      SelectAll(s[1..], p);
    }
  }

  /** What one follow does: an empty id rejects; with a working status
      check, an existing edge is returned and nothing changes; the only
      change ever made is appending the single edge `newId: u -> f`, and
      then that edge is returned; a rejection changes nothing. */
  lemma FollowOutcome(edges: seq<Edge>, u: string, f: string, statusOk: bool,
                      newId: string, create: Outcome)
    ensures !Truthy(u) || !Truthy(f) ==> Follow(edges, u, f, statusOk, newId, create).0 == Err(MissingArgument)
    ensures Truthy(u) && Truthy(f) && statusOk && HasLink(edges, u, f) ==>
              Follow(edges, u, f, statusOk, newId, create).1 == edges &&
              exists i :: IsFirstLink(edges, u, f, i) &&
                Follow(edges, u, f, statusOk, newId, create).0 == Ok(edges[i])
    ensures Follow(edges, u, f, statusOk, newId, create).1 == edges ||
            (Follow(edges, u, f, statusOk, newId, create).1 == edges + [Edge(newId, u, f)] &&
             Follow(edges, u, f, statusOk, newId, create).0 == Ok(Edge(newId, u, f)))
    ensures Follow(edges, u, f, statusOk, newId, create).0.Err? ==>
              Follow(edges, u, f, statusOk, newId, create).1 == edges
    ensures Follow(edges, u, f, statusOk, newId, create).0.Ok? ==>
              Links(Follow(edges, u, f, statusOk, newId, create).0.value, u, f)
    ensures Truthy(u) && Truthy(f) && (!statusOk || !HasLink(edges, u, f)) ==>
              Follow(edges, u, f, statusOk, newId, create) ==
                if create == Rejected || IdInUse(edges, newId) then (Err(RequestFailed), edges)
                else if create == Falsy then (Err(FalsyResponse), edges)
                else (Ok(Edge(newId, u, f)), edges + [Edge(newId, u, f)])
  {
  }

  /** Two follows of the same pair in a row, the second with a working
      status check: the second changes nothing. When the first status
      check worked too, both return the same edge. */
  lemma {:induction false} FollowIsIdempotent(edges: seq<Edge>, u: string, f: string,
                                              statusOk: bool, newId: string, create: Outcome,
                                              newId2: string, create2: Outcome)
    requires Follow(edges, u, f, statusOk, newId, create).0.Ok?
    ensures Follow(Follow(edges, u, f, statusOk, newId, create).1, u, f, true, newId2, create2).1 ==
            Follow(edges, u, f, statusOk, newId, create).1
    ensures statusOk ==>
              Follow(Follow(edges, u, f, statusOk, newId, create).1, u, f, true, newId2, create2).0 ==
              Follow(edges, u, f, statusOk, newId, create).0
  {
    var (r1, e1) := Follow(edges, u, f, statusOk, newId, create);
    FollowOutcome(edges, u, f, statusOk, newId, create);
    if e1 == edges {
      var i :| 0 <= i < |edges| && Links(edges[i], u, f) && r1 == Ok(edges[i]) by {
        assert FollowStatus(edges, u, f, statusOk).Some?;
      }
      assert HasLink(e1, u, f);
      if statusOk {
        var j :| IsFirstLink(edges, u, f, j) && r1 == Ok(edges[j]);
        var k := FirstLink(e1, u, f).value;
        FirstLinkUnique(e1, u, f, j, k);
      }
    } else {
      var n := |edges|;
      assert e1[n] == Edge(newId, u, f);
      assert HasLink(e1, u, f);
      if statusOk {
        assert !HasLink(edges, u, f);
        assert IsFirstLink(e1, u, f, n);
        var k := FirstLink(e1, u, f).value;
        FirstLinkUnique(e1, u, f, n, k);
      }
    }
  }

  lemma SelectAppendOne(s: seq<Edge>, e: Edge, p: Edge -> bool)
    ensures Select(s + [e], p) == Select(s, p) + (if p(e) then [e] else [])
  {
    SelectAppend(s, [e], p);
    assert [e][1..] == [];
  }

  /** A follow that creates an edge raises the follower count of `f` and
      the following count of `u` by one and changes no other pair's edges;
      a follow that creates nothing changes no count. */
  lemma FollowCounts(edges: seq<Edge>, u: string, f: string, statusOk: bool,
                     newId: string, create: Outcome, x: string, y: string)
    ensures var after := Follow(edges, u, f, statusOk, newId, create).1;
            var created := if after == edges then 0 else 1;
            FollowersCount(after, f, true) == FollowersCount(edges, f, true) + created &&
            FollowingCount(after, u, true) == FollowingCount(edges, u, true) + created &&
            |Between(after, u, f)| == |Between(edges, u, f)| + created &&
            ((x, y) != (u, f) ==> Between(after, x, y) == Between(edges, x, y))
  {
    var after := Follow(edges, u, f, statusOk, newId, create).1;
    FollowOutcome(edges, u, f, statusOk, newId, create);
    if after != edges {
      var e := Edge(newId, u, f);
      SelectAppendOne(edges, e, IntoUser(f));
      SelectAppendOne(edges, e, OutOfUser(u));
      SelectAppendOne(edges, e, LinksPair(u, f));
      SelectAppendOne(edges, e, LinksPair(x, y));
    }
  }

  /** Following `b` twice from `a` on an empty collection leaves exactly
      one edge: `a` follows one user and `b` has one follower. */
  lemma FollowTwiceFromEmpty(a: string, b: string, id1: string, id2: string, create2: Outcome)
    requires Truthy(a) && Truthy(b)
    ensures var once := Follow([], a, b, true, id1, Resolved).1;
            var twice := Follow(once, a, b, true, id2, create2).1;
            |twice| == 1 && FollowingCount(twice, a, true) == 1 && FollowersCount(twice, b, true) == 1
  {
    var once := Follow([], a, b, true, id1, Resolved).1;
    assert once == [Edge(id1, a, b)];
    FollowIsIdempotent([], a, b, true, id1, Resolved, id2, create2);
  }

  /** The check-then-insert keeps one edge per pair as long as the status
      check works. */
  lemma FollowKeepsPairsUnique(edges: seq<Edge>, u: string, f: string,
                               newId: string, create: Outcome)
    requires AtMostOneLinkPerPair(edges)
    ensures AtMostOneLinkPerPair(Follow(edges, u, f, true, newId, create).1)
  {
    var after := Follow(edges, u, f, true, newId, create).1;
    FollowOutcome(edges, u, f, true, newId, create);
    if after != edges {
      assert !HasLink(edges, u, f);
      var n := |edges|;
      forall i, j | 0 <= i < j < |after|
        ensures !Links(after[j], after[i].followerId, after[i].followingId)
      {
        if j == n {
          assert after[i] == edges[i];
          assert !Links(edges[i], u, f);
        } else {
          assert after[i] == edges[i] && after[j] == edges[j];
        }
      }
    }
  }

  /** When the status check throws it reports "not following", and the
      follow inserts a second edge for a pair that already has one. */
  lemma FollowDuplicatesWhenStatusCheckFails()
    ensures var edges := [Edge("e1", "a", "b")];
            var after := Follow(edges, "a", "b", false, "e2", Resolved).1;
            AtMostOneLinkPerPair(edges) && !AtMostOneLinkPerPair(after) &&
            |Between(after, "a", "b")| == 2
  {
    var after := Follow([Edge("e1", "a", "b")], "a", "b", false, "e2", Resolved).1;
    assert after == [Edge("e1", "a", "b"), Edge("e2", "a", "b")];
    assert Links(after[1], after[0].followerId, after[0].followingId);
  }

  /** A follow never reuses a document id. */
  lemma FollowKeepsIdsUnique(edges: seq<Edge>, u: string, f: string, statusOk: bool,
                             newId: string, create: Outcome)
    requires UniqueIds(edges)
    ensures UniqueIds(Follow(edges, u, f, statusOk, newId, create).1)
  {
    var after := Follow(edges, u, f, statusOk, newId, create).1;
    FollowOutcome(edges, u, f, statusOk, newId, create);
    if after != edges {
      assert !IdInUse(edges, newId);
      forall i, j | 0 <= i < j < |after|
        ensures after[i].id != after[j].id
      {
        assert after[i] == edges[i];
      }
    }
  }

  /** With unique ids, deleting by the id of edge `i` removes exactly that
      edge and keeps every other one, in order. */
  lemma {:induction false} RemoveIdAt(edges: seq<Edge>, i: int)
    requires UniqueIds(edges) && 0 <= i < |edges|
    ensures RemoveId(edges, edges[i].id) == edges[..i] + edges[i + 1..]
    decreases |edges|
  {
    var id := edges[i].id;
    if i == 0 {
      SelectAll(edges[1..], OtherId(id));
    } else {
      assert edges[0].id != id;
      assert UniqueIds(edges[1..]);
      RemoveIdAt(edges[1..], i - 1);
      assert edges[1..][i - 1].id == id;
      assert edges[1..][..i - 1] == edges[1..i];
      assert edges[1..][i..] == edges[i + 1..];
      assert [edges[0]] + edges[1..i] == edges[..i];
    }
  }

  /** Removing one edge keeps ids unique and pairs unique. */
  lemma RemoveAtKeepsInvariants(edges: seq<Edge>, i: int)
    requires 0 <= i < |edges|
    ensures UniqueIds(edges) ==> UniqueIds(edges[..i] + edges[i + 1..])
    ensures AtMostOneLinkPerPair(edges) ==> AtMostOneLinkPerPair(edges[..i] + edges[i + 1..])
  {
    var r := edges[..i] + edges[i + 1..];
    assert forall k :: 0 <= k < |r| ==> r[k] == edges[if k < i then k else k + 1];
  }

  /** What one unfollow does: an empty id rejects; when the status check
      finds no edge (none exists, or the check throws) it succeeds and
      changes nothing; otherwise a resolved delete removes exactly the
      first edge from `u` to `f` and keeps every other edge in order; a
      rejection changes nothing. */
  lemma UnfollowOutcome(edges: seq<Edge>, u: string, f: string, statusOk: bool, delete: Outcome)
    requires UniqueIds(edges)
    ensures !Truthy(u) || !Truthy(f) ==> Unfollow(edges, u, f, statusOk, delete).0 == Err(MissingArgument)
    ensures Truthy(u) && Truthy(f) && (!statusOk || !HasLink(edges, u, f)) ==>
              Unfollow(edges, u, f, statusOk, delete) == (Ok(StatusOk), edges)
    ensures Truthy(u) && Truthy(f) && statusOk && delete == Resolved ==>
              forall i :: IsFirstLink(edges, u, f, i) ==>
                Unfollow(edges, u, f, statusOk, delete) == (Ok(StatusOk), edges[..i] + edges[i + 1..])
    ensures Unfollow(edges, u, f, statusOk, delete).0.Err? ==> Unfollow(edges, u, f, statusOk, delete).1 == edges
    ensures Truthy(u) && Truthy(f) && statusOk && HasLink(edges, u, f) && delete != Resolved ==>
              Unfollow(edges, u, f, statusOk, delete) ==
                if delete == Rejected then (Err(RequestFailed), edges) else (Ok(StatusOk), edges)
  {
    var st := FollowStatus(edges, u, f, statusOk);
    if Truthy(u) && Truthy(f) && st.Some? && delete == Resolved {
      var j :| IsFirstLink(edges, u, f, j) && st.value == edges[j];
      RemoveIdAt(edges, j);
      forall i | IsFirstLink(edges, u, f, i)
        ensures Unfollow(edges, u, f, statusOk, delete) == (Ok(StatusOk), edges[..i] + edges[i + 1..])
      {
        FirstLinkUnique(edges, u, f, i, j);
      }
    }
  }

  /** An unfollow keeps document ids unique and keeps one edge per pair. */
  lemma UnfollowKeepsInvariants(edges: seq<Edge>, u: string, f: string, statusOk: bool, delete: Outcome)
    requires UniqueIds(edges)
    ensures UniqueIds(Unfollow(edges, u, f, statusOk, delete).1)
    ensures AtMostOneLinkPerPair(edges) ==> AtMostOneLinkPerPair(Unfollow(edges, u, f, statusOk, delete).1)
  {
    var st := FollowStatus(edges, u, f, statusOk);
    if Truthy(u) && Truthy(f) && st.Some? && delete == Resolved {
      var j :| IsFirstLink(edges, u, f, j) && st.value == edges[j];
      RemoveIdAt(edges, j);
      RemoveAtKeepsInvariants(edges, j);
    }
  }

  /** A successful unfollow lowers the follower count of `f` and the
      following count of `u` by one. */
  lemma UnfollowCounts(edges: seq<Edge>, u: string, f: string, i: int)
    requires UniqueIds(edges) && Truthy(u) && Truthy(f) && IsFirstLink(edges, u, f, i)
    ensures var after := Unfollow(edges, u, f, true, Resolved).1;
            FollowersCount(after, f, true) == FollowersCount(edges, f, true) - 1 &&
            FollowingCount(after, u, true) == FollowingCount(edges, u, true) - 1 &&
            |Between(after, u, f)| == |Between(edges, u, f)| - 1
  {
    UnfollowOutcome(edges, u, f, true, Resolved);
    var a, b := edges[..i], edges[i + 1..];
    assert edges == a + [edges[i]] + b;
    forall p: Edge -> bool
      ensures Select(edges, p) == Select(a, p) + (if p(edges[i]) then [edges[i]] else []) + Select(b, p)
      ensures Select(a + b, p) == Select(a, p) + Select(b, p)
    {
      SelectAppend(a + [edges[i]], b, p);
      SelectAppendOne(a, edges[i], p);
      SelectAppend(a, b, p);
    }
  }

  /** With one edge per pair, one successful unfollow leaves no edge from
      `u` to `f`, and unfollowing again succeeds without change. */
  lemma UnfollowIsIdempotent(edges: seq<Edge>, u: string, f: string,
                             statusOk2: bool, delete2: Outcome)
    requires UniqueIds(edges) && AtMostOneLinkPerPair(edges) && Truthy(u) && Truthy(f)
    ensures !HasLink(Unfollow(edges, u, f, true, Resolved).1, u, f)
    ensures var after := Unfollow(edges, u, f, true, Resolved).1;
            Unfollow(after, u, f, statusOk2, delete2) == (Ok(StatusOk), after)
  {
    UnfollowOutcome(edges, u, f, true, Resolved);
    var after := Unfollow(edges, u, f, true, Resolved).1;
    if HasLink(edges, u, f) {
      var i := FirstLink(edges, u, f).value;
      assert after == edges[..i] + edges[i + 1..];
      forall k | 0 <= k < |after|
        ensures !Links(after[k], u, f)
      {
        if k < i {
          assert after[k] == edges[k];
        } else {
          assert after[k] == edges[k + 1];
          assert !Links(edges[k + 1], edges[i].followerId, edges[i].followingId);
        }
      }
    }
    UnfollowOutcome(after, u, f, statusOk2, delete2);
  }

  // ---------------------------------------------------------------------
  // The follow collection as mutable state

  class FollowStore {
    var edges: seq<Edge>

    ghost predicate Valid()
      reads this
    {
      UniqueIds(edges)
    }

    constructor ()
      ensures Valid() && edges == []
    {
      edges := [];
    }

    /** `followUser`: check for an existing edge, then insert. */
    method FollowUser(u: string, f: string, statusOk: bool, newId: string, create: Outcome)
      returns (r: Result<Edge>)
      requires Valid()
      modifies this
      ensures Valid()
      ensures (r, edges) == Follow(old(edges), u, f, statusOk, newId, create)
    {
      FollowKeepsIdsUnique(edges, u, f, statusOk, newId, create);
      if !Truthy(u) || !Truthy(f) {
        return Err(MissingArgument);
      }
      var existing := FollowStatus(edges, u, f, statusOk);
      if existing.Some? {
        return Ok(existing.value);
      }
      if create == Rejected || IdInUse(edges, newId) {
        return Err(RequestFailed);
      }
      if create == Falsy {
        return Err(FalsyResponse);
      }
      var e := Edge(newId, u, f);
      edges := edges + [e];
      r := Ok(e);
    }

    /** `unfollowUser`: look the edge up, then delete it by its id. */
    method UnfollowUser(u: string, f: string, statusOk: bool, delete: Outcome)
      returns (r: Result<Status>)
      requires Valid()
      modifies this
      ensures Valid()
      ensures (r, edges) == Unfollow(old(edges), u, f, statusOk, delete)
    {
      UnfollowKeepsInvariants(edges, u, f, statusOk, delete);
      if !Truthy(u) || !Truthy(f) {
        return Err(MissingArgument);
      }
      var found := FollowStatus(edges, u, f, statusOk);
      if found.None? {
        return Ok(StatusOk);
      }
      if delete == Rejected {
        return Err(RequestFailed);
      }
      if delete == Resolved {
        edges := RemoveId(edges, found.value.id);
      }
      r := Ok(StatusOk);
    }
  }
}
