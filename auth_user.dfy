/**
 * The session store: the signed-in user and the token, hydrated from the `user` and `token`
 * storage keys and written back by `setUser` and `logout`.
 */
module AuthUser {
  import opened Wrappers
  import opened Types
  import opened Storage

  /** The two fields of the store; `None` is `null`. */
  datatype Session = Session(user: Option<User>, token: Option<string>)

  /**
   * The fields the store starts with: `user` is the parsed `user` key when that key holds
   * non-empty text and `null` otherwise, and `token` is the `token` key's text as stored.
   * Hydration has no guard around `JSON.parse`: text that is not a serialised user throws.
   */
  function Hydrate(items: map<string, Stored>): (r: Outcome<Session>)
    requires WellFormed(items)
    ensures r.Failure? <==> UserKey in items && items[UserKey].Raw? && items[UserKey].text != ""
    ensures r.Success? ==> (r.value.user.Some? <==> UserKey in items && items[UserKey].UserJson?)
    ensures r.Success? && r.value.user.Some? ==> r.value.user.value == items[UserKey].user
    ensures r.Success? ==> (r.value.token.Some? <==> TokenKey in items)
    ensures r.Success? && r.value.token.Some? ==> items[TokenKey] == Raw(r.value.token.value)
  {
    var userLocale := Lookup(items, UserKey);
    var tokenLocale := TextAt(items, TokenKey);
    if !Truthy(userLocale) then Success(Session(None, tokenLocale))
    else
      match ParseUser(userLocale.value)
      case None => Failure
      case Some(u) => Success(Session(Some(u), tokenLocale))
  }

  /** Reloading after `setUser(r)` restores exactly `r`'s user and token. */
  lemma ReloadAfterSetUser(items: map<string, Stored>, data: LoginResponse)
    requires WellFormed(items)
    ensures WellFormed(items[UserKey := UserJson(data.user)][TokenKey := Raw(data.token)])
    ensures Hydrate(items[UserKey := UserJson(data.user)][TokenKey := Raw(data.token)]) ==
            Success(Session(Some(data.user), Some(data.token)))
  {
  }

  /** Reloading after `logout` starts signed out. */
  lemma ReloadAfterLogout(items: map<string, Stored>)
    requires WellFormed(items)
    ensures WellFormed(items - {UserKey, TokenKey})
    ensures Hydrate(items - {UserKey, TokenKey}) == Success(Session(None, None))
  {
  }

  /** Hydration looks at the `user` and `token` keys only. */
  lemma HydrateReadsSessionKeys(a: map<string, Stored>, b: map<string, Stored>)
    requires WellFormed(a) && WellFormed(b)
    requires Lookup(a, UserKey) == Lookup(b, UserKey) && Lookup(a, TokenKey) == Lookup(b, TokenKey)
    ensures Hydrate(a) == Hydrate(b)
  {
  }

  /**
   * Nothing ties the two keys together: a stored user without a stored token hydrates to a
   * signed-in session whose token is `null`.
   */
  lemma UserWithoutTokenHydratesSignedIn(u: User)
    ensures WellFormed(map[UserKey := UserJson(u)])
    ensures Hydrate(map[UserKey := UserJson(u)]) == Success(Session(Some(u), None))
  {
  }

  /** The `auth` store. */
  class AuthStore {
    var user: Option<User>
    var token: Option<string>
    const storage: LocalStorage

    constructor FromSession(storage: LocalStorage, session: Session)
      ensures this.storage == storage && user == session.user && token == session.token
    {
      this.storage := storage;
      user := session.user;
      token := session.token;
    }

    /** Creating the store reads both keys; a `user` key that does not parse makes creation throw. */
    static method Create(storage: LocalStorage) returns (r: Outcome<AuthStore>)
      requires storage.Valid()
      ensures r.Failure? <==> Hydrate(storage.items).Failure?
      ensures r.Success? ==> fresh(r.value) && r.value.storage == storage &&
                             Session(r.value.user, r.value.token) == Hydrate(storage.items).value
    {
      var userLocale := storage.GetItem(UserKey);
      var tokenLocale := TextAt(storage.items, TokenKey);
      var user: Option<User> := None;
      if Truthy(userLocale) {
        user := ParseUser(userLocale.value);
        if user.None? {
          return Failure;
        }
      }
      var store := new AuthStore.FromSession(storage, Session(user, tokenLocale));
      r := Success(store);
    }

    /** `isAuthenticated`: a user is present; the token plays no part. */
    predicate IsAuthenticated()
      reads this
    {
      user.Some?
    }

    /** `setUser`: take the login response in memory and write the `user` and `token` keys. */
    method SetUser(data: LoginResponse)
      requires storage.Valid()
      modifies this, storage
      ensures storage.Valid()
      ensures user == Some(data.user) && token == Some(data.token)
      ensures storage.items == old(storage.items)[UserKey := UserJson(data.user)][TokenKey := Raw(data.token)]
      ensures IsAuthenticated()
    {
      user := Some(data.user);
      token := Some(data.token);
      storage.SetItem(UserKey, UserJson(data.user));
      storage.SetItem(TokenKey, Raw(data.token));
    }

    /** `logout`: clear both fields and remove both keys. The store does not expose it. */
    method Logout()
      requires storage.Valid()
      modifies this, storage
      ensures storage.Valid()
      ensures user == None && token == None
      ensures storage.items == old(storage.items) - {UserKey, TokenKey}
      ensures !IsAuthenticated()
    {
      user := None;
      token := None;
      storage.RemoveItem(UserKey);
      storage.RemoveItem(TokenKey);
      assert storage.items == old(storage.items) - {UserKey} - {TokenKey};
    }
  }
}
