/** The database the ledger runs on: one value `State` holding every table,
    the single-statement writes of the repositories as functions on it, and
    the class `Store` whose methods are the repository calls
    (the files of internal/repository). A repository call that can fail takes a flag
    `fail`: when it is set the call reports `DbFault` and writes nothing,
    which is how the model lets a caller say that the database errs at that
    point. */
module Database {
  import opened Wrappers
  import opened Enum
  import opened Model
  import opened Accounts
  import Catalog

  /** Every table: `users`, the `purchases` and `coin_transfers` logs (in
      insertion order), the `merches` catalog, and the next id the `users`
      sequence hands out. */
  datatype State = State(
    users: map<int, User>,
    purchases: seq<Purchase>,
    transfers: seq<CoinTransfer>,
    catalog: map<string, int>,
    nextId: int)

  /** What every committed state satisfies: the table constraints, and no
      negative balance. */
  ghost predicate Valid(s: State)
  {
    WellFormed(s.users, s.nextId) && NonNegative(s.users)
  }

  /** What an operation returns, and the state it leaves behind. */
  datatype Outcome = Outcome(status: Status, after: State)

  /** A failure with one of the enumerated kinds. */
  function Fail(kind: ErrorType, s: State): Outcome
  {
    Outcome(Failure(Kind(kind)), s)
  }

  /** A failure that passes a database error through. */
  function FailDb(e: DbError, s: State): Outcome
  {
    Outcome(Failure(Db(e)), s)
  }

  /** The store calls of the ledger operations, named so that a caller can
      say which of them the database fails; `TxBegin` and `TxCommit` are the
      `Begin` and `Commit` of a transaction. */
  datatype Call =
    | FindSender | FindReceiver | WriteSender | WriteReceiver | LogTransfer
    | FindMerch | FindBuyer | WriteBuyer | LogPurchase
    | FindAccount | CreateAccount
    | ReadBalance | ReadInventory | ReadReceived | ReadSent
    | TxBegin | TxCommit

  /** The store calls of a transfer's body. */
  const TransferCalls: set<Call> := {FindSender, FindReceiver, WriteSender, WriteReceiver, LogTransfer}

  /** The store calls of a purchase's body. */
  const BuyCalls: set<Call> := {FindMerch, FindBuyer, WriteBuyer, LogPurchase}

  /** The two calls of the transaction around a body. */
  const TxCalls: set<Call> := {TxBegin, TxCommit}

  /** A lookup whose call may fail. */
  function Fetch<T>(r: Result<T, DbError>, fail: bool): Result<T, DbError>
  {
    if fail then Err(DbFault) else r
  }

  /** gorm's `db.Transaction(fc)` around a body whose writes go through the
      repositories' own connection and not through `tx`: a failing `Begin`
      returns its error before the body runs; the body's error is returned
      with its writes in place, since the rollback of `tx` has nothing to
      undo; after a body that succeeded, a failing `Commit` returns its
      error, again with the writes in place. `body` is the body's outcome
      from `before`. */
  function Detached(before: State, body: Outcome, faults: set<Call>): Outcome
  {
    if TxBegin in faults then FailDb(DbFault, before)
    else if body.status.Success? && TxCommit in faults then FailDb(DbFault, body.after)
    else body
  }

  /** gorm's `db.Transaction(fc)` around a body that writes through `tx`: a
      failing `Begin` returns its error before the body runs; the body's
      error is returned and its writes are rolled back; after a body that
      succeeded, a failing `Commit` returns its error and nothing of the
      body is kept. */
  function Atomically(before: State, body: Outcome, faults: set<Call>): Outcome
  {
    if TxBegin in faults then FailDb(DbFault, before)
    else if body.status.Failure? then Outcome(body.status, before)
    else if TxCommit in faults then FailDb(DbFault, before)
    else body
  }

  /** `Save(user)`: the row stored under the user's id becomes exactly the
      given struct, every column included. */
  function Save(s: State, u: User): State
  {
    s.(users := s.users[u.id := u])
  }

  /** `Create(user)` on the `users` table: the row gets the next id of the
      sequence; a taken username violates the unique constraint. */
  ghost function Insert(s: State, u: User): (Result<User, DbError>, State)
  {
    if UsernameTaken(s.users, u.username) then (Err(DbFault), s)
    else
      var row := u.(id := s.nextId);
      (Ok(row), s.(users := s.users[row.id := row], nextId := s.nextId + 1))
  }

  /** A user row saved with a new balance keeps the table well formed, and
      keeps it non-negative when the new balance is. */
  lemma SaveBalance(s: State, id: int, coins: int)
    requires Valid(s) && id in s.users && coins >= 0
    ensures Valid(Save(s, s.users[id].(coins := coins)))
    ensures TotalCoins(Save(s, s.users[id].(coins := coins)).users) == TotalCoins(s.users) - s.users[id].coins + coins
  {
    TotalCoinsUpdate(s.users, id, s.users[id].(coins := coins));
  }

  /** An in-place balance change that leaves the row non-negative keeps the
      tables valid and moves the sum of balances by the change. */
  lemma AddCoinsValid(s: State, id: int, delta: int)
    requires Valid(s) && id in s.users && s.users[id].coins + delta >= 0
    ensures Valid(s.(users := AddCoins(s.users, id, delta)))
    ensures TotalCoins(AddCoins(s.users, id, delta)) == TotalCoins(s.users) + delta
  {
    TotalCoinsAdd(s.users, id, delta);
  }

  /** Creating a user: on success the new row has a fresh id, the requested
      name, hash and balance, every existing row is kept, and the table stays
      valid; on failure nothing changes. */
  lemma InsertFacts(s: State, u: User)
    requires Valid(s) && u.coins >= 0
    ensures var (r, t) := Insert(s, u);
      && (r.Ok? <==> !UsernameTaken(s.users, u.username))
      && (r.Err? ==> t == s)
      && (r.Ok? ==>
            && r.value == User(s.nextId, u.username, u.password, u.coins)
            && s.nextId !in s.users
            && t.users == s.users[s.nextId := r.value]
            && Valid(t)
            && TotalCoins(t.users) == TotalCoins(s.users) + u.coins
            && t == s.(users := t.users, nextId := s.nextId + 1))
  {
    if !UsernameTaken(s.users, u.username) {
      TotalCoinsInsert(s.users, s.nextId, u.(id := s.nextId));
    }
  }

  /** The database behind the repositories. */
  class Store {
    var users: map<int, User>
    var purchases: seq<Purchase>
    var transfers: seq<CoinTransfer>
    var catalog: map<string, int>
    var nextId: int

    /** The tables as a value. */
    function Snapshot(): State
      reads this
    {
      State(users, purchases, transfers, catalog, nextId)
    }

    /** The table constraints hold. */
    ghost predicate Constrained()
      reads this
    {
      WellFormed(users, nextId)
    }

    /** An empty database. */
    constructor ()
      ensures Snapshot() == State(map[], [], [], map[], 1)
      ensures Valid(Snapshot())
    {
      users := map[];
      purchases := [];
      transfers := [];
      catalog := map[];
      nextId := 1;
    }

    /** `UserRepository.Create`: inserts the user; the database picks the id. */
    method Create(u: User, fail: bool) returns (r: Result<User, DbError>)
      modifies this
      ensures fail ==> r == Err(DbFault) && Snapshot() == old(Snapshot())
      ensures !fail ==> (r, Snapshot()) == Insert(old(Snapshot()), u)
    {
      if fail {
        return Err(DbFault);
      }
      if id :| id in users && users[id].username == u.username {
        return Err(DbFault);
      }
      var row := u.(id := nextId);
      users := users[row.id := row];
      nextId := nextId + 1;
      r := Ok(row);
    }

    /** `UserRepository.FindByUsername`. */
    method FindByUsername(name: string, fail: bool) returns (r: Result<User, DbError>)
      requires Constrained()
      ensures r == Fetch(Accounts.FindByUsername(users, name), fail)
    {
      FindByUsernameExact(users, nextId, name);
      if fail {
        return Err(DbFault);
      }
      if id :| id in users && users[id].username == name {
        r := Ok(users[id]);
      } else {
        r := Err(RecordNotFound);
      }
    }

    /** `UserRepository.FindByID`. */
    method FindByID(id: int, fail: bool) returns (r: Result<User, DbError>)
      ensures r == Fetch(Accounts.FindByID(users, id), fail)
    {
      if fail {
        return Err(DbFault);
      }
      if id in users {
        r := Ok(users[id]);
      } else {
        r := Err(RecordNotFound);
      }
    }

    /** `UserRepository.Update`: saves the whole struct under its id. */
    method Update(u: User, fail: bool) returns (err: Option<DbError>)
      modifies this
      ensures fail ==> err == Some(DbFault) && Snapshot() == old(Snapshot())
      ensures !fail ==> err == None && Snapshot() == Save(old(Snapshot()), u)
    {
      if fail {
        return Some(DbFault);
      }
      users := users[u.id := u];
      err := None;
    }

    /** `tx.Model(&user).UpdateColumn("coins", gorm.Expr("coins + ?", delta))`
        (with a negated amount for `coins - ?`). */
    method AddCoins(id: int, delta: int, fail: bool) returns (err: Option<DbError>)
      modifies this
      ensures fail ==> err == Some(DbFault) && Snapshot() == old(Snapshot())
      ensures !fail ==> err == None && Snapshot() == old(Snapshot()).(users := Accounts.AddCoins(old(users), id, delta))
    {
      if fail {
        return Some(DbFault);
      }
      users := Accounts.AddCoins(users, id, delta);
      err := None;
    }

    /** `PurchaseRepository.Create` (and `tx.Create(&purchase)`): appends one row. */
    method CreatePurchase(p: Purchase, fail: bool) returns (err: Option<DbError>)
      modifies this
      ensures fail ==> err == Some(DbFault) && Snapshot() == old(Snapshot())
      ensures !fail ==> err == None && Snapshot() == old(Snapshot()).(purchases := old(purchases) + [p])
    {
      if fail {
        return Some(DbFault);
      }
      purchases := purchases + [p];
      err := None;
    }

    /** `CoinTransferRepository.Create` (and `tx.Create(&coinTransfer)`): appends one row. */
    method CreateTransfer(t: CoinTransfer, fail: bool) returns (err: Option<DbError>)
      modifies this
      ensures fail ==> err == Some(DbFault) && Snapshot() == old(Snapshot())
      ensures !fail ==> err == None && Snapshot() == old(Snapshot()).(transfers := old(transfers) + [t])
    {
      if fail {
        return Some(DbFault);
      }
      transfers := transfers + [t];
      err := None;
    }

    /** `MerchRepository.FindByName`. */
    method FindMerchByName(name: string, fail: bool) returns (r: Result<Merch, DbError>)
      ensures r == Fetch(Catalog.FindByName(catalog, name), fail)
    {
      if fail {
        return Err(DbFault);
      }
      if name in catalog {
        r := Ok(Merch(name, catalog[name]));
      } else {
        r := Err(RecordNotFound);
      }
    }

    /** `MerchRepository.InitializeMerch`: inserts the ten seed rows. */
    method InitializeMerch(fail: bool) returns (err: Option<DbError>)
      modifies this
      ensures fail ==> err == Some(DbFault) && Snapshot() == old(Snapshot())
      ensures !fail ==> err == None && Snapshot() == old(Snapshot()).(catalog := old(catalog) + Catalog.AsTable(Catalog.Seed))
      ensures !fail ==> forall k :: 0 <= k < |Catalog.Seed| ==>
                Catalog.FindByName(catalog, Catalog.Seed[k].name) == Ok(Catalog.Seed[k])
    {
      if fail {
        return Some(DbFault);
      }
      Catalog.SeedLookup("");
      catalog := catalog + Catalog.AsTable(Catalog.Seed);
      err := None;
    }

    /** Rolls the tables back to a state saved when the transaction began. */
    method Rollback(saved: State)
      modifies this
      ensures Snapshot() == saved
    {
      users := saved.users;
      purchases := saved.purchases;
      transfers := saved.transfers;
      catalog := saved.catalog;
      nextId := saved.nextId;
    }
  }
}
