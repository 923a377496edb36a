/**
 * The storage side of the authentication service. Each remote call is one step that receives the
 * call's outcome. The service keeps its token under `authToken`, while the session store and the
 * request interceptor use `token`; the model keeps that mismatch.
 */
module AuthService {
  import opened Wrappers
  import opened Types
  import opened Storage
  import AuthUser
  import Api

  /** `authService.login`: on success the session store takes the response, on failure nothing changes. */
  method Login(store: AuthUser.AuthStore, response: Outcome<LoginResponse>) returns (r: Outcome<LoginResponse>)
    requires store.storage.Valid()
    modifies store, store.storage
    ensures r == response
    ensures store.storage.Valid()
    ensures response.Success? ==>
              store.user == Some(response.value.user) && store.token == Some(response.value.token) &&
              store.storage.items ==
                old(store.storage.items)[UserKey := UserJson(response.value.user)][TokenKey := Raw(response.value.token)]
    ensures response.Failure? ==>
              store.user == old(store.user) && store.token == old(store.token) &&
              store.storage.items == old(store.storage.items)
  {
    match response {
      case Success(data) =>
        store.SetUser(data);
      case Failure =>
    }
    r := response;
  }

  /** `authService.logout`: whatever the remote call did, `authToken` and `user` are removed. */
  method Logout(storage: LocalStorage, remote: Outcome<()>)
    requires storage.Valid()
    modifies storage
    ensures storage.Valid()
    ensures storage.items == old(storage.items) - {AuthTokenKey, UserKey}
  {
    storage.RemoveItem(AuthTokenKey);
    storage.RemoveItem(UserKey);
    assert storage.items == old(storage.items) - {AuthTokenKey} - {UserKey};
  }

  /** `authService.isAuthenticated`: both `authToken` and `user` hold non-empty text. */
  predicate IsAuthenticated(items: map<string, Stored>)
  {
    Truthy(Lookup(items, AuthTokenKey)) && Truthy(Lookup(items, UserKey))
  }

  /** `authService.getToken`: the `authToken` text, or `null`. */
  function GetToken(items: map<string, Stored>): (r: Option<string>)
    requires WellFormed(items)
    ensures r.None? <==> AuthTokenKey !in items
    ensures r.Some? ==> items[AuthTokenKey] == Raw(r.value)
  {
    TextAt(items, AuthTokenKey)
  }

  /** `authService.getCurrentUser`: the parsed `user` key; `null` when it is missing, empty or not a user. */
  function GetCurrentUser(items: map<string, Stored>): (r: Option<User>)
    ensures r.Some? <==> UserKey in items && items[UserKey].UserJson?
    ensures r.Some? ==> r.value == items[UserKey].user
  {
    var userStr := Lookup(items, UserKey);
    if Truthy(userStr) then ParseUser(userStr.value) else None
  }

  /** `authService.validateToken`: the server's `valid` flag, and `false` when the call fails. */
  function ValidateToken(response: Outcome<bool>): (valid: bool)
    ensures valid <==> response == Success(true)
  {
    match response
    case Success(v) => v
    case Failure => false
  }

  /** `authService.refreshToken`: on success the new token is written to `authToken` and returned. */
  method RefreshToken(storage: LocalStorage, response: Outcome<string>) returns (r: Outcome<string>)
    requires storage.Valid()
    modifies storage
    ensures storage.Valid()
    ensures r == response
    ensures response.Success? ==> storage.items == old(storage.items)[AuthTokenKey := Raw(response.value)]
    ensures response.Failure? ==> storage.items == old(storage.items)
  {
    match response {
      case Success(newToken) =>
        storage.SetItem(AuthTokenKey, Raw(newToken));
      case Failure =>
    }
    r := response;
  }

  // ---------------------------------------------------------------------------------------------
  // How the service's view of storage relates to the session store's

  /**
   * The service reads exactly what the session store would hydrate as the user, except that where
   * hydration throws on unparseable text the service answers `null`.
   */
  lemma CurrentUserMatchesSession(items: map<string, Stored>)
    requires WellFormed(items)
    ensures AuthUser.Hydrate(items).Success? ==> GetCurrentUser(items) == AuthUser.Hydrate(items).value.user
    ensures AuthUser.Hydrate(items).Failure? ==> GetCurrentUser(items) == None
  {
  }

  /**
   * A login through the session store writes `user` and `token` but not `authToken`, so the service
   * still reports the visitor as signed out unless `authToken` was already set.
   */
  lemma SessionLoginNotSeenByService(items: map<string, Stored>, data: LoginResponse)
    requires WellFormed(items) && AuthTokenKey !in items
    ensures var after := items[UserKey := UserJson(data.user)][TokenKey := Raw(data.token)];
            !IsAuthenticated(after) && AuthUser.Hydrate(after) == Success(AuthUser.Session(Some(data.user), Some(data.token)))
  {
    var after := items[UserKey := UserJson(data.user)][TokenKey := Raw(data.token)];
    assert Lookup(after, AuthTokenKey) == None;
    AuthUser.ReloadAfterSetUser(items, data);
  }

  /** After a login and a successful refresh with a non-empty token, the service sees a signed-in visitor. */
  lemma RefreshAfterLoginAuthenticates(items: map<string, Stored>, data: LoginResponse, newToken: string)
    requires newToken != ""
    ensures IsAuthenticated(items[UserKey := UserJson(data.user)][TokenKey := Raw(data.token)][AuthTokenKey := Raw(newToken)])
  {
    var after := items[UserKey := UserJson(data.user)][TokenKey := Raw(data.token)][AuthTokenKey := Raw(newToken)];
    assert Lookup(after, UserKey) == Some(UserJson(data.user));
  }

  /** The service's logout signs the service out. */
  lemma LogoutSignsServiceOut(items: map<string, Stored>)
    ensures !IsAuthenticated(items - {AuthTokenKey, UserKey})
    ensures GetCurrentUser(items - {AuthTokenKey, UserKey}) == None
  {
    assert Lookup(items - {AuthTokenKey, UserKey}, UserKey) == None;
  }

  /**
   * The service's logout leaves the `token` key in place: the interceptor keeps sending the same
   * bearer header, while a reloaded session store starts without a user but with the old token.
   */
  lemma ServiceLogoutKeepsToken(items: map<string, Stored>, headers: Api.Headers)
    requires WellFormed(items)
    ensures WellFormed(items - {AuthTokenKey, UserKey})
    ensures Lookup(items - {AuthTokenKey, UserKey}, TokenKey) == Lookup(items, TokenKey)
    ensures Api.AuthorizedHeaders(headers, items - {AuthTokenKey, UserKey}) == Api.AuthorizedHeaders(headers, items)
    ensures AuthUser.Hydrate(items - {AuthTokenKey, UserKey}) ==
            Success(AuthUser.Session(None, TextAt(items, TokenKey)))
  {
    var after := items - {AuthTokenKey, UserKey};
    assert Lookup(after, TokenKey) == Lookup(items, TokenKey);
    Api.InterceptorReadsOnlyToken(headers, after, items);
  }
}
