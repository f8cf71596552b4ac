/** The session held by the authentication provider: the signed-in user's
    profile, whether it is being loaded, whether the user is
    authenticated, and the redirect to sign-up on start-up. */
module Session {
  import opened Common
  import opened Text

  /** `IUser`: the profile kept in the session. */
  datatype User = User(id: string, name: string, username: string, email: string, imageUrl: string, bio: string)

  /** `INITIAL_USER`. */
  const InitialUser := User("", "", "", "", "", "")

  /** The session profile copied from a user document; the document's own
      id becomes the profile id. */
  function ProfileOf(d: UserDoc): (u: User)
    ensures u.id == d.id && u.name == d.name && u.username == d.username
    ensures u.email == d.email && u.imageUrl == d.imageUrl && u.bio == d.bio
  {
    User(d.id, d.name, d.username, d.email, d.imageUrl, d.bio)
  }

  /** `getCurrentUser`: no account (`account.get` failed) gives null, a
      failed listing gives null, otherwise the first user document whose
      `accountId` equals the account id, or undefined when there is none.
      `users` is the users collection in listing order. */
  function GetCurrentUser(accountId: Option<string>, listOk: bool, users: seq<UserDoc>): (r: Option<UserDoc>)
    ensures r.Some? ==> accountId.Some? && listOk && r.value in users && r.value.accountId == accountId.value
    ensures r.Some? ==> exists i :: 0 <= i < |users| && users[i] == r.value &&
                          forall j :: 0 <= j < i ==> users[j].accountId != accountId.value
    ensures accountId.Some? && listOk && (exists d :: d in users && d.accountId == accountId.value) ==> r.Some?
    decreases |users|
  {
    if accountId.None? || !listOk || |users| == 0 then None
    else if users[0].accountId == accountId.value then Some(users[0])
    else
      var rest := GetCurrentUser(accountId, listOk, users[1..]);
      if rest.Some? then
        assert users[1..][0] == users[1];
        Some(rest.value)
      else None
  }

  /** The routes that never redirect to sign-up. */
  const PublicPaths: seq<string> := ["/sign-in", "/sign-up", "/forgot-password", "/reset-password", "/verify"]

  /** `publicPaths.some(path => currentPath.startsWith(path))`. */
  predicate IsPublicPath(path: string) {
    exists i :: 0 <= i < |PublicPaths| && IsPrefix(PublicPaths[i], path)
  }

  /** No session cookie (missing or `"[]"`) on a non-public route. */
  predicate ShouldRedirect(cookieFallback: Option<string>, path: string) {
    (cookieFallback == None || cookieFallback == Some("[]")) && !IsPublicPath(path)
  }

  /** Public routes, and every route that merely starts like one, never
      redirect; a stored session cookie never redirects. */
  lemma RedirectOnlyWithoutSession(cookieFallback: Option<string>, path: string, suffix: string)
    ensures ShouldRedirect(cookieFallback, path) ==> cookieFallback.None? || cookieFallback.value == "[]"
    ensures forall i :: 0 <= i < |PublicPaths| ==> !ShouldRedirect(cookieFallback, PublicPaths[i] + suffix)
  {
    forall i | 0 <= i < |PublicPaths|
      ensures IsPublicPath(PublicPaths[i] + suffix)
    {
      assert (PublicPaths[i] + suffix)[..|PublicPaths[i]|] == PublicPaths[i];
    }
  }

  /** The home route, without a session, redirects. */
  lemma HomeRedirectsWithoutSession()
    ensures ShouldRedirect(None, "/") && ShouldRedirect(Some("[]"), "/")
    ensures !ShouldRedirect(Some("[{\"a_session\":\"x\"}]"), "/")
  {
    assert !IsPrefix(PublicPaths[0], "/");
    assert !IsPrefix(PublicPaths[1], "/");
    assert !IsPrefix(PublicPaths[2], "/");
    assert !IsPrefix(PublicPaths[3], "/");
    assert !IsPrefix(PublicPaths[4], "/");
  }

  /** The provider's state. `loadingLog` records each value `isLoading`
      was set to, in order. */
  class AuthProvider {
    var user: User
    var isLoading: bool
    var isAuthenticated: bool
    var loadingLog: seq<bool>

    constructor ()
      ensures user == InitialUser && !isLoading && !isAuthenticated && loadingLog == []
    {
      user, isLoading, isAuthenticated, loadingLog := InitialUser, false, false, [];
    }

    method SetIsLoading(value: bool)
      modifies this
      ensures isLoading == value && loadingLog == old(loadingLog) + [value]
      ensures user == old(user) && isAuthenticated == old(isAuthenticated)
    {
      isLoading := value;
      loadingLog := loadingLog + [value];
    }

    /** `checkAuthUser`, given what `getCurrentUser` settles to: loading is
        switched on and, whatever happens, off again; a user document
        becomes the session profile and marks the session authenticated;
        without one, profile and flag are left as they were. */
    method CheckAuthUser(current: Option<UserDoc>) returns (ok: bool)
      modifies this
      ensures ok <==> current.Some?
      ensures current.Some? ==> user == ProfileOf(current.value) && isAuthenticated
      ensures current.None? ==> user == old(user) && isAuthenticated == old(isAuthenticated)
      ensures !isLoading && loadingLog == old(loadingLog) + [true, false]
    {
      SetIsLoading(true);
      ok := false;
      if current.Some? {
        var d := current.value;
        user := User(d.id, d.name, d.username, d.email, d.imageUrl, d.bio);
        isAuthenticated := true;
        ok := true;
      }
      SetIsLoading(false);
    }

    /** The mount effect: redirect to sign-up when there is no session
        cookie and the route is not public, then check the session either
        way. */
    method Mount(cookieFallback: Option<string>, path: string, current: Option<UserDoc>)
      returns (redirect: Option<string>, ok: bool)
      modifies this
      ensures redirect == if ShouldRedirect(cookieFallback, path) then Some("/sign-up") else None
      ensures ok <==> current.Some?
      ensures current.Some? ==> user == ProfileOf(current.value) && isAuthenticated
      ensures current.None? ==> user == old(user) && isAuthenticated == old(isAuthenticated)
      ensures !isLoading && loadingLog == old(loadingLog) + [true, false]
    {
      var isPublic := IsPublicPath(path);
      redirect := None;
      if (cookieFallback == Some("[]") || cookieFallback == None) && !isPublic {
        redirect := Some("/sign-up");
      }
      ok := CheckAuthUser(current);
    }
  }
}
