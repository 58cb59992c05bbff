/** `transferService.SendCoin` (internal/service/transfer_service.go), the
    coin transfer of the service revision.

    Its body runs inside `RunTransaction`, but the closure never uses the
    `tx` handle it is given: every read and write goes through the
    repositories' own connection, so nothing is rolled back when a later
    step fails. `SendCoinResult` models the code as written; the
    all-or-nothing transfer the transaction was meant to give is
    `SendCoinAtomicResult` (see the findings in README.md). */
module TransferService {
  import opened Wrappers
  import opened Enum
  import opened Model
  import opened Accounts
  import opened Database

  /** The closure given to `RunTransaction`: the sender by id, the balance
      check, the receiver by username, the self-transfer check, then the two
      saves and the log row, each through its repository. */
  ghost function SendCoinBody(s: State, fromUserID: int, toUsername: string, amount: int, faults: set<Call>): Outcome
  {
    var sender := Fetch(FindByID(s.users, fromUserID), FindSender in faults);
    if sender.Err? then FailDb(sender.error, s)
    else if sender.value.coins < amount then Fail(ErrInsufficientMoney, s)
    else
      var receiver := Fetch(FindByUsername(s.users, toUsername), FindReceiver in faults);
      if receiver.Err? then
        (if receiver.error == RecordNotFound then Fail(ErrReceiverNotFound, s) else FailDb(receiver.error, s))
      else if sender.value.username == receiver.value.username then Fail(ErrEqualReceivers, s)
      else
        var debited := sender.value.(coins := sender.value.coins - amount);
        var credited := receiver.value.(coins := receiver.value.coins + amount);
        if WriteSender in faults then FailDb(DbFault, s)
        else
          var s1 := Save(s, debited);
          if WriteReceiver in faults then FailDb(DbFault, s1)
          else
            var s2 := Save(s1, credited);
            if LogTransfer in faults then FailDb(DbFault, s2)
            else Outcome(Success, s2.(transfers := s2.transfers + [CoinTransfer(debited.id, credited.id, amount)]))
  }

  /** What `SendCoin` returns and leaves in the database, as written: the
      amount check, then the closure in a transaction that undoes none of
      its writes. */
  ghost function SendCoinResult(s: State, fromUserID: int, toUsername: string, amount: int, faults: set<Call>): Outcome
  {
    if amount <= 0 then Fail(ErrCoinsInappropriateAmount, s)
    else Detached(s, SendCoinBody(s, fromUserID, toUsername, amount, faults), faults)
  }

  /** `SendCoin` as written: the sender's and the receiver's rows are saved
      and the transfer is logged one after the other, each through the
      repositories, and a failing step, or a failing commit, leaves the
      earlier ones in place. */
  method SendCoin(store: Store, fromUserID: int, toUsername: string, amount: int, faults: set<Call>)
    returns (status: Status)
    requires store.Constrained()
    modifies store
    ensures Outcome(status, store.Snapshot()) == SendCoinResult(old(store.Snapshot()), fromUserID, toUsername, amount, faults)
  {
    if amount <= 0 {
      return Failure(Kind(ErrCoinsInappropriateAmount));
    }
    if TxBegin in faults {
      return Failure(Db(DbFault));
    }
    status := SendCoinClosure(store, fromUserID, toUsername, amount, faults);
    if status.Success? && TxCommit in faults {
      status := Failure(Db(DbFault));
    }
  }

  /** The closure given to `RunTransaction`. */
  method SendCoinClosure(store: Store, fromUserID: int, toUsername: string, amount: int, faults: set<Call>)
    returns (status: Status)
    requires store.Constrained()
    modifies store
    ensures Outcome(status, store.Snapshot()) == SendCoinBody(old(store.Snapshot()), fromUserID, toUsername, amount, faults)
  {
    var found := store.FindByID(fromUserID, FindSender in faults);
    if found.Err? {
      return Failure(Db(found.error));
    }
    var sender := found.value;
    if sender.coins < amount {
      return Failure(Kind(ErrInsufficientMoney));
    }
    found := store.FindByUsername(toUsername, FindReceiver in faults);
    if found.Err? {
      if found.error == RecordNotFound {
        return Failure(Kind(ErrReceiverNotFound));
      }
      return Failure(Db(found.error));
    }
    var receiver := found.value;
    if sender.username == receiver.username {
      return Failure(Kind(ErrEqualReceivers));
    }
    sender := sender.(coins := sender.coins - amount);
    receiver := receiver.(coins := receiver.coins + amount);
    var err := store.Update(sender, WriteSender in faults);
    if err.Some? {
      return Failure(Db(err.value));
    }
    err := store.Update(receiver, WriteReceiver in faults);
    if err.Some? {
      return Failure(Db(err.value));
    }
    err := store.CreateTransfer(CoinTransfer(sender.id, receiver.id, amount), LogTransfer in faults);
    if err.Some? {
      return Failure(Db(err.value));
    }
    status := Success;
  }

  /** The checks, in the order the code makes them, each rejecting the
      transfer before anything is written: a non-positive amount; a
      transaction that cannot begin; a sender that cannot be read (its lookup
      error returned as it is); a balance below the amount, which wins over
      any problem with the receiver; an unknown receiver; a receiver with the
      sender's own username. */
  lemma SendCoinChecks(s: State, fromUserID: int, toUsername: string, amount: int, faults: set<Call>)
    requires Valid(s)
    ensures var o := SendCoinResult(s, fromUserID, toUsername, amount, faults);
      && (amount <= 0 ==> o == Fail(ErrCoinsInappropriateAmount, s))
      && (amount > 0 && TxBegin in faults ==> o == FailDb(DbFault, s))
      && (amount > 0 && TxBegin !in faults && FindSender in faults ==> o == FailDb(DbFault, s))
      && (amount > 0 && TxBegin !in faults && FindSender !in faults && fromUserID !in s.users ==> o == FailDb(RecordNotFound, s))
      && ((amount > 0 && TxBegin !in faults && FindSender !in faults && fromUserID in s.users && s.users[fromUserID].coins < amount)
            ==> o == Fail(ErrInsufficientMoney, s))
      && ((amount > 0 && TxBegin !in faults && FindSender !in faults && fromUserID in s.users && s.users[fromUserID].coins >= amount)
            ==> && (FindReceiver in faults ==> o == FailDb(DbFault, s))
                && (FindReceiver !in faults && !UsernameTaken(s.users, toUsername) ==> o == Fail(ErrReceiverNotFound, s))
                && (FindReceiver !in faults && s.users[fromUserID].username == toUsername ==> o == Fail(ErrEqualReceivers, s)))
  {
    FindByUsernameExact(s.users, s.nextId, toUsername);
  }

  /** A transfer succeeds exactly when the amount is positive, the sender
      exists and can pay, another user has the receiver's username, and no
      store call fails, the transaction's begin and commit included. Then the sender loses `amount`, the receiver gains
      it, the sum of all balances is unchanged, one transfer row is logged,
      and nothing else changes. */
  lemma SendCoinSucceeds(s: State, fromUserID: int, toUsername: string, amount: int, faults: set<Call>)
    requires Valid(s)
    ensures var o := SendCoinResult(s, fromUserID, toUsername, amount, faults);
      && (o.status == Success <==>
            && amount > 0 && fromUserID in s.users && s.users[fromUserID].coins >= amount
            && UsernameTaken(s.users, toUsername) && s.users[fromUserID].username != toUsername
            && faults !! TransferCalls && faults !! TxCalls)
      && (o.status == Success ==>
            forall to :: to in s.users && s.users[to].username == toUsername ==>
              && to != fromUserID
              && o.after == s.(users := s.users[fromUserID := s.users[fromUserID].(coins := s.users[fromUserID].coins - amount)]
                                               [to := s.users[to].(coins := s.users[to].coins + amount)],
                              transfers := s.transfers + [CoinTransfer(fromUserID, to, amount)])
              && TotalCoins(o.after.users) == TotalCoins(s.users)
              && Valid(o.after))
  {
    SendCoinSuccessCondition(s, fromUserID, toUsername, amount, faults);
    if SendCoinResult(s, fromUserID, toUsername, amount, faults).status == Success {
      forall to | to in s.users && s.users[to].username == toUsername
        ensures var o := SendCoinResult(s, fromUserID, toUsername, amount, faults);
          && to != fromUserID
          && o.after == s.(users := s.users[fromUserID := s.users[fromUserID].(coins := s.users[fromUserID].coins - amount)]
                                           [to := s.users[to].(coins := s.users[to].coins + amount)],
                          transfers := s.transfers + [CoinTransfer(fromUserID, to, amount)])
          && TotalCoins(o.after.users) == TotalCoins(s.users)
          && Valid(o.after)
      {
        SendCoinEffect(s, fromUserID, to, amount, faults);
        TransferWritesValid(s, fromUserID, to, amount);
        var sender := s.users[fromUserID];
        var receiver := s.users[to];
        TotalCoinsUpdateTwo(s.users, fromUserID, sender.(coins := sender.coins - amount), to, receiver.(coins := receiver.coins + amount));
      }
    }
  }

  /** When a transfer succeeds. */
  lemma SendCoinSuccessCondition(s: State, fromUserID: int, toUsername: string, amount: int, faults: set<Call>)
    requires WellFormed(s.users, s.nextId)
    ensures SendCoinResult(s, fromUserID, toUsername, amount, faults).status == Success <==>
            && amount > 0 && fromUserID in s.users && s.users[fromUserID].coins >= amount
            && UsernameTaken(s.users, toUsername) && s.users[fromUserID].username != toUsername
            && faults !! TransferCalls && faults !! TxCalls
  {
    FindByUsernameExact(s.users, s.nextId, toUsername);
  }

  /** The successful transfer to the row `to`: both rows saved and one
      transfer logged. */
  lemma SendCoinEffect(s: State, fromUserID: int, to: int, amount: int, faults: set<Call>)
    requires WellFormed(s.users, s.nextId)
    requires amount > 0 && fromUserID in s.users && s.users[fromUserID].coins >= amount
    requires to in s.users && to != fromUserID
    requires faults !! TransferCalls && faults !! TxCalls
    ensures SendCoinResult(s, fromUserID, s.users[to].username, amount, faults)
            == Outcome(Success, s.(users := s.users[fromUserID := s.users[fromUserID].(coins := s.users[fromUserID].coins - amount)]
                                                  [to := s.users[to].(coins := s.users[to].coins + amount)],
                                   transfers := s.transfers + [CoinTransfer(fromUserID, to, amount)]))
  {
    FindByUsernameExact(s.users, s.nextId, s.users[to].username);
  }

  /** Whatever the outcome, the tables stay valid: no balance goes negative,
      even when a failing step leaves a partial write behind; and the tables
      change only on success, when a step after the sender's save fails, or
      when the commit fails after the whole body. */
  lemma SendCoinKeepsValid(s: State, fromUserID: int, toUsername: string, amount: int, faults: set<Call>)
    requires Valid(s)
    ensures var o := SendCoinResult(s, fromUserID, toUsername, amount, faults);
      && Valid(o.after)
      && (o.after != s ==> o.status == Success
                           || (TxBegin !in faults && WriteSender !in faults && (WriteReceiver in faults || LogTransfer in faults || TxCommit in faults)))
  {
    SendCoinWritesWhen(s, fromUserID, toUsername, amount, faults);
    FindByUsernameExact(s.users, s.nextId, toUsername);
    if && amount > 0 && fromUserID in s.users && s.users[fromUserID].coins >= amount
       && TxBegin !in faults && FindSender !in faults && FindReceiver !in faults
       && UsernameTaken(s.users, toUsername) && s.users[fromUserID].username != toUsername
    {
      var to :| to in s.users && s.users[to].username == toUsername;
      TransferWritesValid(s, fromUserID, to, amount);
    }
  }

  /** The tables change only on success, when a write after the sender's
      save fails, or when the commit fails. */
  lemma SendCoinWritesWhen(s: State, fromUserID: int, toUsername: string, amount: int, faults: set<Call>)
    ensures var o := SendCoinResult(s, fromUserID, toUsername, amount, faults);
      o.after != s ==> o.status == Success
                       || (TxBegin !in faults && WriteSender !in faults && (WriteReceiver in faults || LogTransfer in faults || TxCommit in faults))
  {
  }

  /** The two saves of a transfer between distinct rows, each on its own,
      keep the tables valid. */
  lemma TransferWritesValid(s: State, from: int, to: int, amount: int)
    requires Valid(s) && from in s.users && to in s.users && from != to
    requires 0 < amount <= s.users[from].coins
    ensures var s1 := Save(s, s.users[from].(coins := s.users[from].coins - amount));
      && Valid(s1)
      && Valid(Save(s1, s.users[to].(coins := s.users[to].coins + amount)))
  {
    SaveBalance(s, from, s.users[from].coins - amount);
    var s1 := Save(s, s.users[from].(coins := s.users[from].coins - amount));
    assert s1.users[to] == s.users[to];
    SaveBalance(s1, to, s.users[to].coins + amount);
  }

  /** As written, a failure of the second save keeps the first: the sender
      has paid, the receiver has not been credited, no transfer is logged,
      and `amount` coins have left the ledger. */
  lemma SendCoinPartialDebit(s: State, fromUserID: int, toUsername: string, amount: int)
    requires Valid(s)
    requires amount > 0 && fromUserID in s.users && s.users[fromUserID].coins >= amount
    requires UsernameTaken(s.users, toUsername) && s.users[fromUserID].username != toUsername
    ensures var o := SendCoinResult(s, fromUserID, toUsername, amount, {WriteReceiver});
      && o.status == Failure(Db(DbFault))
      && o.after.users == s.users[fromUserID := s.users[fromUserID].(coins := s.users[fromUserID].coins - amount)]
      && o.after.transfers == s.transfers
      && TotalCoins(o.after.users) == TotalCoins(s.users) - amount
  {
    FindByUsernameExact(s.users, s.nextId, toUsername);
    var sender := s.users[fromUserID];
    TotalCoinsUpdate(s.users, fromUserID, sender.(coins := sender.coins - amount));
  }

  /** As written, a commit that fails after a valid transfer reports the
      error although every write of the transfer stays in place. */
  lemma SendCoinCommitFailure(s: State, fromUserID: int, toUsername: string, amount: int)
    requires Valid(s)
    requires amount > 0 && fromUserID in s.users && s.users[fromUserID].coins >= amount
    requires UsernameTaken(s.users, toUsername) && s.users[fromUserID].username != toUsername
    ensures var o := SendCoinResult(s, fromUserID, toUsername, amount, {TxCommit});
      && o.status == Failure(Db(DbFault))
      && o.after == SendCoinResult(s, fromUserID, toUsername, amount, {}).after
      && SendCoinResult(s, fromUserID, toUsername, amount, {}).status == Success
  {
    SendCoinSuccessCondition(s, fromUserID, toUsername, amount, {});
  }

  /** The transfer as the transaction was meant to run it: the same closure,
      with every write undone when any step, or the commit, fails. */
  ghost function SendCoinAtomicResult(s: State, fromUserID: int, toUsername: string, amount: int, faults: set<Call>): Outcome
  {
    if amount <= 0 then Fail(ErrCoinsInappropriateAmount, s)
    else Atomically(s, SendCoinBody(s, fromUserID, toUsername, amount, faults), faults)
  }

  /** `SendCoin` with the writes made inside the transaction: a failing step
      or commit restores the tables as they were when the transaction
      began. */
  method SendCoinAtomic(store: Store, fromUserID: int, toUsername: string, amount: int, faults: set<Call>)
    returns (status: Status)
    requires store.Constrained()
    modifies store
    ensures Outcome(status, store.Snapshot()) == SendCoinAtomicResult(old(store.Snapshot()), fromUserID, toUsername, amount, faults)
  {
    if amount <= 0 {
      return Failure(Kind(ErrCoinsInappropriateAmount));
    }
    if TxBegin in faults {
      return Failure(Db(DbFault));
    }
    var saved := store.Snapshot();
    status := SendCoinClosure(store, fromUserID, toUsername, amount, faults);
    if status.Success? && TxCommit in faults {
      status := Failure(Db(DbFault));
    }
    if status.Failure? {
      store.Rollback(saved);
    }
  }

  /** The atomic transfer is all or nothing: it fails with the same error as
      the code as written, but then leaves every table as it was, so the sum
      of balances never changes. */
  lemma SendCoinAtomicAllOrNothing(s: State, fromUserID: int, toUsername: string, amount: int, faults: set<Call>)
    requires Valid(s)
    ensures var o := SendCoinAtomicResult(s, fromUserID, toUsername, amount, faults);
      && o.status == SendCoinResult(s, fromUserID, toUsername, amount, faults).status
      && (o.status.Failure? ==> o.after == s)
      && TotalCoins(o.after.users) == TotalCoins(s.users)
      && Valid(o.after)
  {
    SendCoinSucceeds(s, fromUserID, toUsername, amount, faults);
    var o := SendCoinResult(s, fromUserID, toUsername, amount, faults);
    if o.status == Success {
      FindByUsernameExact(s.users, s.nextId, toUsername);
      var to :| to in s.users && s.users[to].username == toUsername;
    }
  }
}
