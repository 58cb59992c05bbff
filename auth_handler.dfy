/** `HandleAuth` (internal/handler/auth_handler.go): the request checks of
    the inline-handler revision, then the same find-or-create, password
    check and token signing as `Authenticate`, written out against `db`
    (lines 26-60 take the steps of internal/service/auth_service.go:25-60,
    with the same errors). */
module AuthHandler {
  import opened Wrappers
  import opened Enum
  import opened Model
  import opened Accounts
  import opened Database
  import opened AuthService

  /** What `HandleAuth` answers and leaves in the database; `request` is the
      decoded body, absent when it is not valid JSON. */
  ghost function HandleAuthResult(
    s: State, request: Option<AuthRequest>,
    hash: string -> Option<string>, matches: (string, string) -> bool, sign: Claims -> Option<string>,
    faults: set<Call>): AuthOutcome
  {
    if request.None? then AuthOutcome(Err(ErrWrongReqFormat), s)
    else if request.value.username == "" || request.value.password == "" then AuthOutcome(Err(ErrNoUsernameAndPassword), s)
    else AuthenticateResult(s, request.value.username, request.value.password, hash, matches, sign, faults)
  }

  /** `HandleAuth`. */
  method HandleAuth(
    store: Store, request: Option<AuthRequest>,
    hash: string -> Option<string>, matches: (string, string) -> bool, sign: Claims -> Option<string>,
    faults: set<Call>)
    returns (token: Result<string, ErrorType>)
    requires store.Constrained()
    modifies store
    ensures AuthOutcome(token, store.Snapshot()) == HandleAuthResult(old(store.Snapshot()), request, hash, matches, sign, faults)
  {
    if request.None? {
      return Err(ErrWrongReqFormat);
    }
    var req := request.value;
    if req.username == "" || req.password == "" {
      return Err(ErrNoUsernameAndPassword);
    }
    token := Authenticate(store, req.username, req.password, hash, matches, sign, faults);
  }

  /** A body that does not decode, or one with an empty username or
      password, is refused before any query and changes nothing. Otherwise
      an unknown username gets a new account with 1000 coins (unless hashing
      or the insert fails, which is `ErrCreatingUser`), a lookup fault is
      `ErrInternalServer`, and a known user with a wrong password gets
      `ErrWrongCredentials` and is left as it was. */
  lemma HandleAuthCases(
    s: State, request: Option<AuthRequest>,
    hash: string -> Option<string>, matches: (string, string) -> bool, sign: Claims -> Option<string>,
    faults: set<Call>)
    requires Valid(s)
    ensures var o := HandleAuthResult(s, request, hash, matches, sign, faults);
      && (request.None? ==> o == AuthOutcome(Err(ErrWrongReqFormat), s))
      && ((request.Some? && (request.value.username == "" || request.value.password == ""))
            ==> o == AuthOutcome(Err(ErrNoUsernameAndPassword), s))
      && ((request.Some? && request.value.username != "" && request.value.password != "") ==>
            var name := request.value.username;
            var password := request.value.password;
            && (FindAccount in faults ==> o == AuthOutcome(Err(ErrInternalServer), s))
            && ((FindAccount !in faults && !UsernameTaken(s.users, name)) ==>
                  if hash(password).None? || CreateAccount in faults then o == AuthOutcome(Err(ErrCreatingUser), s)
                  else o.after.users == s.users[s.nextId := User(s.nextId, name, hash(password).value, InitialCoins)])
            && (forall id :: (FindAccount !in faults && id in s.users && s.users[id].username == name
                              && !matches(s.users[id].password, password))
                  ==> o == AuthOutcome(Err(ErrWrongCredentials), s)))
  {
    if request.Some? && request.value.username != "" && request.value.password != "" {
      var name := request.value.username;
      var password := request.value.password;
      if FindAccount !in faults && !UsernameTaken(s.users, name) {
        AuthenticateNewUser(s, name, password, hash, matches, sign, faults);
      }
      forall id | FindAccount !in faults && id in s.users && s.users[id].username == name
        ensures !matches(s.users[id].password, password) ==> HandleAuthResult(s, request, hash, matches, sign, faults) == AuthOutcome(Err(ErrWrongCredentials), s)
      {
        AuthenticateExistingUser(s, name, password, hash, matches, sign, faults, id);
      }
    }
  }
}
