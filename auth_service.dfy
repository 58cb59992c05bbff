/** `authService.Authenticate` (internal/service/auth_service.go): find the
    account by username or create it with the starting balance, check the
    password, and sign a session token. The password hash, its check and the
    token signature belong to bcrypt and to the JWT library; they are
    parameters here:
      `hash(password)`      the stored form of a new password, or `None`
                            when hashing fails;
      `matches(h, p)`       whether password `p` fits stored hash `h`;
      `sign(claims)`        the signed token, or `None` when signing fails. */
module AuthService {
  import opened Wrappers
  import opened Enum
  import opened Model
  import opened Accounts
  import opened Database

  /** What authentication returns (a token or an error) and the state after. */
  datatype AuthOutcome = AuthOutcome(token: Result<string, ErrorType>, after: State)

  /** The last step: a token for the user's name and id. */
  function IssueToken(u: User, sign: Claims -> Option<string>, s: State): AuthOutcome
  {
    var t := sign(Claims(u.username, u.id));
    if t.None? then AuthOutcome(Err(ErrGeneratingToken), s) else AuthOutcome(Ok(t.value), s)
  }

  /** What `Authenticate` returns and leaves in the database. */
  ghost function AuthenticateResult(
    s: State, username: string, password: string,
    hash: string -> Option<string>, matches: (string, string) -> bool, sign: Claims -> Option<string>,
    faults: set<Call>): AuthOutcome
  {
    var found := Fetch(FindByUsername(s.users, username), FindAccount in faults);
    if found.Err? then
      if found.error == RecordNotFound then
        var h := hash(password);
        if h.None? then AuthOutcome(Err(ErrCreatingUser), s)
        else if CreateAccount in faults then AuthOutcome(Err(ErrCreatingUser), s)
        else
          var (created, s1) := Insert(s, User(0, username, h.value, InitialCoins));
          if created.Err? then AuthOutcome(Err(ErrCreatingUser), s)
          else IssueToken(created.value, sign, s1)
      else
        AuthOutcome(Err(ErrInternalServer), s)
    else if !matches(found.value.password, password) then AuthOutcome(Err(ErrWrongCredentials), s)
    else IssueToken(found.value, sign, s)
  }

  /** `Authenticate`. */
  method Authenticate(
    store: Store, username: string, password: string,
    hash: string -> Option<string>, matches: (string, string) -> bool, sign: Claims -> Option<string>,
    faults: set<Call>)
    returns (token: Result<string, ErrorType>)
    requires store.Constrained()
    modifies store
    ensures AuthOutcome(token, store.Snapshot())
            == AuthenticateResult(old(store.Snapshot()), username, password, hash, matches, sign, faults)
  {
    var found := store.FindByUsername(username, FindAccount in faults);
    var user: User;
    if found.Err? {
      if found.error == RecordNotFound {
        var h := hash(password);
        if h.None? {
          return Err(ErrCreatingUser);
        }
        var created := store.Create(User(0, username, h.value, InitialCoins), CreateAccount in faults);
        if created.Err? {
          return Err(ErrCreatingUser);
        }
        user := created.value;
      } else {
        return Err(ErrInternalServer);
      }
    } else {
      user := found.value;
      if !matches(user.password, password) {
        return Err(ErrWrongCredentials);
      }
    }
    var t := sign(Claims(user.username, user.id));
    if t.None? {
      return Err(ErrGeneratingToken);
    }
    token := Ok(t.value);
  }

  /** An unknown username creates exactly one account: the next id, the
      given name, the hash of the password and 1000 coins, with every
      existing row kept. The token, if signing succeeds, carries that name
      and id; if hashing or the insert fails, nothing is created and the
      error is `ErrCreatingUser`. */
  lemma AuthenticateNewUser(
    s: State, username: string, password: string,
    hash: string -> Option<string>, matches: (string, string) -> bool, sign: Claims -> Option<string>,
    faults: set<Call>)
    requires Valid(s) && FindAccount !in faults && !UsernameTaken(s.users, username)
    ensures var o := AuthenticateResult(s, username, password, hash, matches, sign, faults);
      && (hash(password).None? || CreateAccount in faults ==> o == AuthOutcome(Err(ErrCreatingUser), s))
      && (hash(password).Some? && CreateAccount !in faults ==>
            && s.nextId !in s.users
            && o.after == s.(users := s.users[s.nextId := User(s.nextId, username, hash(password).value, InitialCoins)],
                             nextId := s.nextId + 1)
            && Valid(o.after)
            && TotalCoins(o.after.users) == TotalCoins(s.users) + 1000
            && o.token == (if sign(Claims(username, s.nextId)).Some? then Ok(sign(Claims(username, s.nextId)).value)
                           else Err(ErrGeneratingToken)))
  {
    FindByUsernameExact(s.users, s.nextId, username);
    if hash(password).Some? {
      InsertFacts(s, User(0, username, hash(password).value, InitialCoins));
    }
  }

  /** A known username changes nothing: with a matching password the token
      carries the stored row's name and id, and with any other password the
      error is `ErrWrongCredentials`. */
  lemma AuthenticateExistingUser(
    s: State, username: string, password: string,
    hash: string -> Option<string>, matches: (string, string) -> bool, sign: Claims -> Option<string>,
    faults: set<Call>, id: int)
    requires Valid(s) && FindAccount !in faults && id in s.users && s.users[id].username == username
    ensures var o := AuthenticateResult(s, username, password, hash, matches, sign, faults);
      && o.after == s
      && (!matches(s.users[id].password, password) ==> o.token == Err(ErrWrongCredentials))
      && (matches(s.users[id].password, password) ==>
            o.token == (if sign(Claims(username, id)).Some? then Ok(sign(Claims(username, id)).value)
                        else Err(ErrGeneratingToken)))
  {
    FindByUsernameExact(s.users, s.nextId, username);
  }

  /** A lookup failure other than a missing row is an internal error and
      creates nothing. */
  lemma AuthenticateLookupFault(
    s: State, username: string, password: string,
    hash: string -> Option<string>, matches: (string, string) -> bool, sign: Claims -> Option<string>,
    faults: set<Call>)
    requires FindAccount in faults
    ensures AuthenticateResult(s, username, password, hash, matches, sign, faults) == AuthOutcome(Err(ErrInternalServer), s)
  {
  }

  /** In every case the tables stay valid, no existing row is modified, at
      most one row is added, and a token is only ever issued for a row that
      now carries the username, with that row's id in its claims. */
  lemma AuthenticateKeepsRows(
    s: State, username: string, password: string,
    hash: string -> Option<string>, matches: (string, string) -> bool, sign: Claims -> Option<string>,
    faults: set<Call>)
    requires Valid(s)
    ensures var o := AuthenticateResult(s, username, password, hash, matches, sign, faults);
      && Valid(o.after)
      && (forall id :: id in s.users ==> id in o.after.users && o.after.users[id] == s.users[id])
      && |o.after.users| <= |s.users| + 1
      && o.after.purchases == s.purchases && o.after.transfers == s.transfers && o.after.catalog == s.catalog
      && (o.token.Ok? ==>
            && UsernameTaken(o.after.users, username)
            && forall id :: id in o.after.users && o.after.users[id].username == username ==>
                 sign(Claims(username, id)) == Some(o.token.value))
  {
    FindByUsernameExact(s.users, s.nextId, username);
    var o := AuthenticateResult(s, username, password, hash, matches, sign, faults);
    if FindAccount !in faults && !UsernameTaken(s.users, username) && hash(password).Some? && CreateAccount !in faults {
      AuthenticateNewUser(s, username, password, hash, matches, sign, faults);
      FindByUsernameExact(o.after.users, o.after.nextId, username);
      assert o.after.users[s.nextId].username == username;
    }
  }
}
