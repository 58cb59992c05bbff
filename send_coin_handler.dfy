/** `HandleSendCoin` (internal/handler/send_coin_handler.go), the coin
    transfer of the inline-handler revision. The request checks come first;
    the transfer itself runs in `db.Transaction` and writes through `tx`,
    so any error rolls it back. Balances change with `UpdateColumn` and a
    `coins - ?` / `coins + ?` expression, and there is no check that the
    receiver differs from the sender. */
module SendCoinHandler {
  import opened Wrappers
  import opened Enum
  import opened Model
  import opened Accounts
  import opened Database

  /** The body of the transaction: the sender's row by id, the balance
      check, the receiver's row by username, the debit, the credit and the
      log row. */
  ghost function TransferBody(s: State, senderId: int, request: SendCoinRequest, faults: set<Call>): Outcome
  {
    var sender := Fetch(FindByID(s.users, senderId), FindSender in faults);
    if sender.Err? then FailDb(sender.error, s)
    else if sender.value.coins < request.amount then Fail(ErrInsufficientMoney, s)
    else
      var receiver := Fetch(FindByUsername(s.users, request.toUser), FindReceiver in faults);
      if receiver.Err? then
        (if receiver.error == RecordNotFound then Fail(ErrReceiverNotFound, s) else FailDb(receiver.error, s))
      else if WriteSender in faults then FailDb(DbFault, s)
      else
        var s1 := s.(users := AddCoins(s.users, sender.value.id, -request.amount));
        if WriteReceiver in faults then FailDb(DbFault, s1)
        else
          var s2 := s1.(users := AddCoins(s1.users, receiver.value.id, request.amount));
          if LogTransfer in faults then FailDb(DbFault, s2)
          else Outcome(Success, s2.(transfers := s2.transfers + [CoinTransfer(sender.value.id, receiver.value.id, request.amount)]))
  }

  /** What `HandleSendCoin` answers and leaves in the database. `ctxUser` is
      the "user" value of the request context (absent when the request is
      not authenticated) and `request` the decoded body (absent when it is
      not valid JSON). */
  ghost function HandleSendCoinResult(s: State, ctxUser: Option<User>, request: Option<SendCoinRequest>, faults: set<Call>): Outcome
  {
    if ctxUser.None? then Fail(ErrUserNotAuthorized, s)
    else if request.None? then Fail(ErrWrongReqFormat, s)
    else if request.value.amount <= 0 then Fail(ErrCoinsInappropriateAmount, s)
    else Atomically(s, TransferBody(s, ctxUser.value.id, request.value, faults), faults)
  }

  /** `HandleSendCoin`. */
  method HandleSendCoin(store: Store, ctxUser: Option<User>, request: Option<SendCoinRequest>, faults: set<Call>)
    returns (status: Status)
    requires store.Constrained()
    modifies store
    ensures Outcome(status, store.Snapshot()) == HandleSendCoinResult(old(store.Snapshot()), ctxUser, request, faults)
  {
    if ctxUser.None? {
      return Failure(Kind(ErrUserNotAuthorized));
    }
    if request.None? {
      return Failure(Kind(ErrWrongReqFormat));
    }
    var user := ctxUser.value;
    var req := request.value;
    if req.amount <= 0 {
      return Failure(Kind(ErrCoinsInappropriateAmount));
    }
    if TxBegin in faults {
      return Failure(Db(DbFault));
    }
    var begin := store.Snapshot();
    status := Transfer(store, user.id, req, faults);
    if status.Success? && TxCommit in faults {
      status := Failure(Db(DbFault));
    }
    if status.Failure? {
      store.Rollback(begin);
    }
  }

  /** The closure given to `db.Transaction`. */
  method Transfer(store: Store, senderId: int, request: SendCoinRequest, faults: set<Call>) returns (status: Status)
    requires store.Constrained()
    modifies store
    ensures Outcome(status, store.Snapshot()) == TransferBody(old(store.Snapshot()), senderId, request, faults)
  {
    var found := store.FindByID(senderId, FindSender in faults);
    if found.Err? {
      return Failure(Db(found.error));
    }
    var sender := found.value;
    if sender.coins < request.amount {
      return Failure(Kind(ErrInsufficientMoney));
    }
    found := store.FindByUsername(request.toUser, FindReceiver in faults);
    if found.Err? {
      if found.error == RecordNotFound {
        return Failure(Kind(ErrReceiverNotFound));
      }
      return Failure(Db(found.error));
    }
    var receiver := found.value;
    var err := store.AddCoins(sender.id, -request.amount, WriteSender in faults);
    if err.Some? {
      return Failure(Db(err.value));
    }
    err := store.AddCoins(receiver.id, request.amount, WriteReceiver in faults);
    if err.Some? {
      return Failure(Db(err.value));
    }
    err := store.CreateTransfer(CoinTransfer(sender.id, receiver.id, request.amount), LogTransfer in faults);
    if err.Some? {
      return Failure(Db(err.value));
    }
    status := Success;
  }

  /** The request checks, in order: no authenticated user, a body that does
      not decode, a non-positive amount; then a transaction that cannot
      begin; then, inside the transaction, a failed or empty sender lookup,
      a balance below the amount (before the receiver is looked up), and a
      failed receiver lookup or an unknown receiver. Each leaves the
      database as it was. */
  lemma HandleSendCoinChecks(s: State, ctxUser: Option<User>, request: Option<SendCoinRequest>, faults: set<Call>)
    requires Valid(s)
    ensures var o := HandleSendCoinResult(s, ctxUser, request, faults);
      && (ctxUser.None? ==> o == Fail(ErrUserNotAuthorized, s))
      && (ctxUser.Some? && request.None? ==> o == Fail(ErrWrongReqFormat, s))
      && (ctxUser.Some? && request.Some? && request.value.amount <= 0 ==> o == Fail(ErrCoinsInappropriateAmount, s))
      && (ctxUser.Some? && request.Some? && request.value.amount > 0 && TxBegin in faults ==> o == FailDb(DbFault, s))
      && (ctxUser.Some? && request.Some? && request.value.amount > 0 && TxBegin !in faults && FindSender in faults ==> o == FailDb(DbFault, s))
      && ((ctxUser.Some? && request.Some? && request.value.amount > 0 && TxBegin !in faults && FindSender !in faults) ==>
            var id := ctxUser.value.id;
            && (id !in s.users ==> o == FailDb(RecordNotFound, s))
            && (id in s.users && s.users[id].coins < request.value.amount ==> o == Fail(ErrInsufficientMoney, s))
            && (id in s.users && s.users[id].coins >= request.value.amount && FindReceiver in faults ==> o == FailDb(DbFault, s))
            && ((id in s.users && s.users[id].coins >= request.value.amount && FindReceiver !in faults
                 && !UsernameTaken(s.users, request.value.toUser)) ==> o == Fail(ErrReceiverNotFound, s)))
  {
    FindByUsernameExact(s.users, s.nextId, if request.Some? then request.value.toUser else "");
  }

  /** Any error leaves every table as it was, whichever step failed, the
      commit included. */
  lemma HandleSendCoinAllOrNothing(s: State, ctxUser: Option<User>, request: Option<SendCoinRequest>, faults: set<Call>)
    ensures var o := HandleSendCoinResult(s, ctxUser, request, faults);
      o.status.Failure? ==> o.after == s
  {
  }

  /** The body of the transaction succeeds exactly when the sender's row
      exists with enough coins, some row has the receiver's username, and no
      store call fails; it then debits the sender and credits the receiver
      (the same row when they coincide), keeps the sum of balances and the
      validity of the tables, and logs one transfer row. */
  lemma TransferBodySucceeds(s: State, from: int, request: SendCoinRequest, faults: set<Call>)
    requires Valid(s) && request.amount > 0
    ensures var o := TransferBody(s, from, request, faults);
      && (o.status == Success <==>
            && from in s.users && s.users[from].coins >= request.amount
            && UsernameTaken(s.users, request.toUser)
            && faults !! TransferCalls)
      && (o.status == Success ==>
            forall to :: to in s.users && s.users[to].username == request.toUser ==>
              && o.after == s.(users := AddCoins(AddCoins(s.users, from, -request.amount), to, request.amount),
                              transfers := s.transfers + [CoinTransfer(from, to, request.amount)])
              && TotalCoins(o.after.users) == TotalCoins(s.users)
              && Valid(o.after))
  {
    FindByUsernameExact(s.users, s.nextId, request.toUser);
    if from in s.users && s.users[from].coins >= request.amount && UsernameTaken(s.users, request.toUser) && faults !! TransferCalls {
      var to :| to in s.users && s.users[to].username == request.toUser;
      TransferBodyEffect(s, from, to, request, faults);
      TransferColumnsValid(s, from, to, request.amount);
      forall to' | to' in s.users && s.users[to'].username == request.toUser
        ensures to' == to
      {
      }
    }
  }

  /** The successful body, for the receiver row `to`: the debit, the credit
      and the log row. */
  lemma TransferBodyEffect(s: State, from: int, to: int, request: SendCoinRequest, faults: set<Call>)
    requires WellFormed(s.users, s.nextId)
    requires from in s.users && s.users[from].coins >= request.amount
    requires to in s.users && s.users[to].username == request.toUser
    requires faults !! TransferCalls
    ensures TransferBody(s, from, request, faults)
            == Outcome(Success, s.(users := AddCoins(AddCoins(s.users, from, -request.amount), to, request.amount),
                                   transfers := s.transfers + [CoinTransfer(from, to, request.amount)]))
  {
    FindByUsernameExact(s.users, s.nextId, request.toUser);
  }

  /** Debiting one row and crediting another (or the same) row by the same
      amount keeps the sum of balances, and keeps the tables valid when the
      debited row can pay. */
  lemma TransferColumnsValid(s: State, from: int, to: int, amount: int)
    requires Valid(s) && from in s.users && to in s.users && 0 < amount <= s.users[from].coins
    ensures TotalCoins(AddCoins(AddCoins(s.users, from, -amount), to, amount)) == TotalCoins(s.users)
    ensures Valid(s.(users := AddCoins(AddCoins(s.users, from, -amount), to, amount)))
  {
    var s1 := s.(users := AddCoins(s.users, from, -amount));
    AddCoinsValid(s, from, -amount);
    AddCoinsValid(s1, to, amount);
  }

  /** The transfer succeeds exactly when the user is authenticated, the body
      decodes with a positive amount, the transaction body succeeds and the
      transaction begins and commits; the result is then that of
      `TransferBodySucceeds`. */
  lemma HandleSendCoinSucceeds(s: State, ctxUser: Option<User>, request: Option<SendCoinRequest>, faults: set<Call>)
    requires Valid(s)
    ensures var o := HandleSendCoinResult(s, ctxUser, request, faults);
      && (o.status == Success <==>
            && ctxUser.Some? && request.Some? && request.value.amount > 0
            && ctxUser.value.id in s.users && s.users[ctxUser.value.id].coins >= request.value.amount
            && UsernameTaken(s.users, request.value.toUser)
            && faults !! TransferCalls && faults !! TxCalls)
      && (o.status == Success ==>
            var from := ctxUser.value.id;
            var amount := request.value.amount;
            forall to :: to in s.users && s.users[to].username == request.value.toUser ==>
              && o.after == s.(users := AddCoins(AddCoins(s.users, from, -amount), to, amount),
                              transfers := s.transfers + [CoinTransfer(from, to, amount)])
              && TotalCoins(o.after.users) == TotalCoins(s.users)
              && Valid(o.after))
  {
    if ctxUser.Some? && request.Some? && request.value.amount > 0 {
      TransferBodySucceeds(s, ctxUser.value.id, request.value, faults);
    }
  }

  /** Without a self-transfer check, sending coins to one's own username
      succeeds when the balance covers the amount: the balance ends where it
      began, and a transfer row from the user to the same user is logged. */
  lemma HandleSendCoinToSelf(s: State, u: User, amount: int, faults: set<Call>)
    requires Valid(s) && u.id in s.users && 0 < amount <= s.users[u.id].coins
    requires faults !! TransferCalls && faults !! TxCalls
    ensures var o := HandleSendCoinResult(s, Some(u), Some(SendCoinRequest(s.users[u.id].username, amount)), faults);
      && o.status == Success
      && o.after.users == s.users
      && o.after.transfers == s.transfers + [CoinTransfer(u.id, u.id, amount)]
  {
    FindByUsernameExact(s.users, s.nextId, s.users[u.id].username);
    var row := s.users[u.id];
    assert AddCoins(AddCoins(s.users, u.id, -amount), u.id, amount) == s.users[u.id := row];
  }
}
