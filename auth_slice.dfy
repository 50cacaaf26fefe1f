/** The front end's session state (the `auth` slice) and its mirror in the
    browser's local storage. Local storage is modelled as a map from key to
    the already parsed value; the `window` check is taken to pass, and the
    cookie writes are not modelled. */
module AuthSlice {
  import opened Http

  /** The signed-in user as the slice keeps it. */
  datatype AuthUser = AuthUser(id: int, name: string, role: string)

  /** A local-storage value: the raw token string, or the user record that
      was stored as JSON. */
  datatype Stored = Token(text: string) | UserRecord(user: AuthUser)

  const TokenKey: string := "accessToken"
  const UserKey: string := "user"

  /** The two keys the slice writes hold values of their own kind. */
  predicate Shaped(storage: map<string, Stored>) {
    && (TokenKey in storage ==> storage[TokenKey].Token?)
    && (UserKey in storage ==> storage[UserKey].UserRecord?)
  }

  /** `if (token && user)`: a non-empty token and a user record are stored. */
  predicate Restorable(storage: map<string, Stored>) {
    && TokenKey in storage && storage[TokenKey].Token? && storage[TokenKey].text != ""
    && UserKey in storage && storage[UserKey].UserRecord?
  }

  class AuthState {
    var user: Option<AuthUser>
    var accessToken: Option<string>
    var isAuthenticated: bool
    var storage: map<string, Stored>

    /** The flag agrees with the user and token being set, and a signed-in
        state is mirrored in storage. */
    ghost predicate Valid()
      reads this
    {
      && (isAuthenticated <==> user.Some?)
      && (isAuthenticated <==> accessToken.Some?)
      && Shaped(storage)
      && (isAuthenticated ==>
            && TokenKey in storage && storage[TokenKey] == Token(accessToken.value)
            && UserKey in storage && storage[UserKey] == UserRecord(user.value))
    }

    /** `initialState`, in a browser whose storage is `storage`. */
    constructor (storage: map<string, Stored>)
      requires Shaped(storage)
      ensures Valid()
      ensures user == None && accessToken == None && !isAuthenticated
      ensures this.storage == storage
    {
      user := None;
      accessToken := None;
      isAuthenticated := false;
      this.storage := storage;
    }

    /** `setCredentials`: signs in and writes the token and the user to
        storage, leaving other keys alone. */
    method SetCredentials(newUser: AuthUser, token: string)
      requires Valid()
      modifies this
      ensures Valid()
      ensures user == Some(newUser) && accessToken == Some(token) && isAuthenticated
      ensures storage == old(storage)[TokenKey := Token(token)][UserKey := UserRecord(newUser)]
    {
      user := Some(newUser);
      accessToken := Some(token);
      isAuthenticated := true;
      storage := storage[TokenKey := Token(token)];
      storage := storage[UserKey := UserRecord(newUser)];
    }

    /** `logout`: signs out and removes both keys from storage. */
    method Logout()
      requires Valid()
      modifies this
      ensures Valid()
      ensures user == None && accessToken == None && !isAuthenticated
      ensures storage == old(storage) - {TokenKey, UserKey}
    {
      user := None;
      accessToken := None;
      isAuthenticated := false;
      storage := storage - {TokenKey};
      storage := storage - {UserKey};
    }

    /** `loadFromStorage`: when storage holds a non-empty token and a user,
        the state takes them and is signed in; otherwise nothing changes.
        Storage itself is only read. */
    method LoadFromStorage()
      requires Valid()
      modifies this
      ensures Valid()
      ensures storage == old(storage)
      ensures Restorable(storage) ==>
                && user == Some(storage[UserKey].user)
                && accessToken == Some(storage[TokenKey].text)
                && isAuthenticated
      ensures !Restorable(storage) ==>
                user == old(user) && accessToken == old(accessToken) && isAuthenticated == old(isAuthenticated)
    {
      var token := if TokenKey in storage && storage[TokenKey].Token? then storage[TokenKey].text else "";
      var stored := UserKey in storage && storage[UserKey].UserRecord?;
      if token != "" && stored {
        accessToken := Some(token);
        user := Some(storage[UserKey].user);
        isAuthenticated := true;
      }
    }
  }

  /** Signing in and then opening the app afresh on the same browser
      restores the same user and token, except that an empty token is not
      restored at all. */
  method SignInThenReload(initial: map<string, Stored>, who: AuthUser, token: string)
    returns (user: Option<AuthUser>, accessToken: Option<string>, isAuthenticated: bool)
    requires Shaped(initial)
    ensures token != "" ==> user == Some(who) && accessToken == Some(token) && isAuthenticated
    ensures token == "" ==> user == None && accessToken == None && !isAuthenticated
  {
    var tab := new AuthState(initial);
    tab.SetCredentials(who, token);
    var reloaded := new AuthState(tab.storage);
    reloaded.LoadFromStorage();
    user, accessToken, isAuthenticated := reloaded.user, reloaded.accessToken, reloaded.isAuthenticated;
  }

  /** Signing out and then opening the app afresh leaves it signed out,
      whatever storage held before. */
  method SignOutThenReload(initial: map<string, Stored>, who: AuthUser, token: string)
    returns (user: Option<AuthUser>, accessToken: Option<string>, isAuthenticated: bool)
    requires Shaped(initial)
    ensures user == None && accessToken == None && !isAuthenticated
  {
    var tab := new AuthState(initial);
    tab.SetCredentials(who, token);
    tab.Logout();
    var reloaded := new AuthState(tab.storage);
    reloaded.LoadFromStorage();
    user, accessToken, isAuthenticated := reloaded.user, reloaded.accessToken, reloaded.isAuthenticated;
  }

  /** Loading from storage a second time changes nothing more. */
  method ReloadTwice(initial: map<string, Stored>)
    returns (once: Option<AuthUser>, twice: Option<AuthUser>, onceToken: Option<string>, twiceToken: Option<string>)
    requires Shaped(initial)
    ensures once == twice && onceToken == twiceToken
    ensures Restorable(initial) <==> once.Some?
  {
    var tab := new AuthState(initial);
    tab.LoadFromStorage();
    once, onceToken := tab.user, tab.accessToken;
    tab.LoadFromStorage();
    twice, twiceToken := tab.user, tab.accessToken;
  }
}
