/** The `users` table as a map from id to row, and the reads of the user
    repository over it (internal/repository/user_repository.go and its other
    revision internal/repository/userRepository.go, which has the same code). */
module Accounts {
  import opened Wrappers
  import opened Model

  /** What the database guarantees of the table: every row is stored under its
      own primary key, `username` is unique, and ids below `nextId` are the
      ones the sequence has handed out. */
  ghost predicate WellFormed(users: map<int, User>, nextId: int)
  {
    && (forall id :: id in users ==> users[id].id == id && id < nextId)
    && (forall i, j :: i in users && j in users && users[i].username == users[j].username ==> i == j)
  }

  /** No balance is negative. */
  ghost predicate NonNegative(users: map<int, User>)
  {
    forall id :: id in users ==> users[id].coins >= 0
  }

  /** True when some row carries this username. */
  ghost predicate UsernameTaken(users: map<int, User>, name: string)
  {
    exists id :: id in users && users[id].username == name
  }

  /** `FindByID`: `SELECT ... WHERE id = ?` and `First`. */
  function FindByID(users: map<int, User>, id: int): Result<User, DbError>
  {
    if id in users then Ok(users[id]) else Err(RecordNotFound)
  }

  /** `FindByUsername`: `SELECT ... WHERE username = ?` and `First`. */
  ghost function FindByUsername(users: map<int, User>, name: string): Result<User, DbError>
  {
    if UsernameTaken(users, name) then
      var id :| id in users && users[id].username == name; Ok(users[id])
    else
      Err(RecordNotFound)
  }

  /** The lookup matches usernames exactly: it finds a row if and only if one
      carries the name, and then it is that row (usernames being unique). */
  lemma FindByUsernameExact(users: map<int, User>, nextId: int, name: string)
    requires WellFormed(users, nextId)
    ensures FindByUsername(users, name).Err? <==> !UsernameTaken(users, name)
    ensures FindByUsername(users, name).Err? ==> FindByUsername(users, name).error == RecordNotFound
    ensures forall id :: id in users && users[id].username == name ==> FindByUsername(users, name) == Ok(users[id])
  {
  }

  /** `UpdateColumn("coins", gorm.Expr("coins + ?", delta))` on the row with
      this id: the database adds to the stored value; no row, no change. */
  function AddCoins(users: map<int, User>, id: int, delta: int): map<int, User>
  {
    if id in users then users[id := users[id].(coins := users[id].coins + delta)] else users
  }

  /** The sum of all balances. */
  ghost function TotalCoins(users: map<int, User>): int
    decreases |users|
  {
    if exists id :: id in users then
      var id :| id in users;
      users[id].coins + TotalCoins(users - {id})
    else
      0
  }

  /** The sum can be split at any row, whichever row the definition picks. */
  lemma {:induction false} TotalCoinsSplit(users: map<int, User>, id: int)
    requires id in users
    ensures TotalCoins(users) == users[id].coins + TotalCoins(users - {id})
    decreases |users|
  {
    var j :| j in users && TotalCoins(users) == users[j].coins + TotalCoins(users - {j});
    if j != id {
      var rest := users - {j};
      assert id in rest;
      TotalCoinsSplit(rest, id);
      var rest' := users - {id};
      assert j in rest';
      TotalCoinsSplit(rest', j);
      assert rest - {id} == rest' - {j};
    }
  }

  /** Overwriting one row changes the sum by the change of that row's balance. */
  lemma TotalCoinsUpdate(users: map<int, User>, id: int, u: User)
    requires id in users
    ensures TotalCoins(users[id := u]) == TotalCoins(users) - users[id].coins + u.coins
  {
    TotalCoinsSplit(users, id);
    TotalCoinsSplit(users[id := u], id);
    assert users[id := u] - {id} == users - {id};
  }

  /** Overwriting two distinct rows so that their combined balance is kept
      leaves the sum unchanged. */
  lemma TotalCoinsUpdateTwo(users: map<int, User>, a: int, ua: User, b: int, ub: User)
    requires a in users && b in users && a != b
    requires ua.coins + ub.coins == users[a].coins + users[b].coins
    ensures TotalCoins(users[a := ua][b := ub]) == TotalCoins(users)
  {
    TotalCoinsUpdate(users, a, ua);
    TotalCoinsUpdate(users[a := ua], b, ub);
  }

  /** A relative update of an existing row moves the sum by exactly `delta`. */
  lemma TotalCoinsAdd(users: map<int, User>, id: int, delta: int)
    ensures TotalCoins(AddCoins(users, id, delta)) == TotalCoins(users) + (if id in users then delta else 0)
  {
    if id in users {
      TotalCoinsUpdate(users, id, users[id].(coins := users[id].coins + delta));
    }
  }

  /** Adding a fresh row adds its balance to the sum. */
  lemma TotalCoinsInsert(users: map<int, User>, id: int, u: User)
    requires id !in users
    ensures TotalCoins(users[id := u]) == TotalCoins(users) + u.coins
  {
    TotalCoinsSplit(users[id := u], id);
    assert users[id := u] - {id} == users;
  }
}
