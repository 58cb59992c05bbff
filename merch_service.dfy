/** `merchServiceImpl.BuyMerch` (internal/service/merch_service.go), the
    purchase of the service revision. As with the transfer, the closure
    given to `RunTransaction` writes through the repositories and not
    through `tx`, so a failing step does not undo the earlier ones;
    `BuyMerchAtomicResult` is the purchase as the transaction meant it. */
module MerchService {
  import opened Wrappers
  import opened Enum
  import opened Model
  import opened Accounts
  import opened Purchases
  import opened Database
  import Catalog

  /** The closure given to `RunTransaction`: the catalog row, the user's
      row, the balance check, then the save with the lowered balance and the
      purchase row, each through its repository. */
  function BuyMerchBody(s: State, userID: int, item: string, faults: set<Call>): Outcome
  {
    var merch := Fetch(Catalog.FindByName(s.catalog, item), FindMerch in faults);
    if merch.Err? then
      (if merch.error == RecordNotFound then Fail(ErrItemNotFound, s) else FailDb(merch.error, s))
    else
      var user := Fetch(FindByID(s.users, userID), FindBuyer in faults);
      if user.Err? then FailDb(user.error, s)
      else if user.value.coins < merch.value.price then Fail(ErrBuyWithInsufficientMoney, s)
      else
        var paid := user.value.(coins := user.value.coins - merch.value.price);
        if WriteBuyer in faults then FailDb(DbFault, s)
        else
          var s1 := Save(s, paid);
          if LogPurchase in faults then FailDb(DbFault, s1)
          else Outcome(Success, s1.(purchases := s1.purchases + [Purchase(userID, item)]))
  }

  /** What `BuyMerch` returns and leaves in the database, as written: the
      closure in a transaction that undoes none of its writes. */
  function BuyMerchResult(s: State, userID: int, item: string, faults: set<Call>): Outcome
  {
    Detached(s, BuyMerchBody(s, userID, item, faults), faults)
  }

  /** `BuyMerch` as written: the buyer's row is saved with the lowered
      balance, then the purchase is logged, each through its repository; a
      failing step or commit leaves the earlier writes in place. */
  method BuyMerch(store: Store, userID: int, item: string, faults: set<Call>) returns (status: Status)
    modifies store
    ensures Outcome(status, store.Snapshot()) == BuyMerchResult(old(store.Snapshot()), userID, item, faults)
  {
    if TxBegin in faults {
      return Failure(Db(DbFault));
    }
    status := BuyMerchClosure(store, userID, item, faults);
    if status.Success? && TxCommit in faults {
      status := Failure(Db(DbFault));
    }
  }

  /** The closure given to `RunTransaction`. */
  method BuyMerchClosure(store: Store, userID: int, item: string, faults: set<Call>) returns (status: Status)
    modifies store
    ensures Outcome(status, store.Snapshot()) == BuyMerchBody(old(store.Snapshot()), userID, item, faults)
  {
    var merch := store.FindMerchByName(item, FindMerch in faults);
    if merch.Err? {
      if merch.error == RecordNotFound {
        return Failure(Kind(ErrItemNotFound));
      }
      return Failure(Db(merch.error));
    }
    var user := store.FindByID(userID, FindBuyer in faults);
    if user.Err? {
      return Failure(Db(user.error));
    }
    var buyer := user.value;
    if buyer.coins < merch.value.price {
      return Failure(Kind(ErrBuyWithInsufficientMoney));
    }
    buyer := buyer.(coins := buyer.coins - merch.value.price);
    var err := store.Update(buyer, WriteBuyer in faults);
    if err.Some? {
      return Failure(Db(err.value));
    }
    err := store.CreatePurchase(Purchase(userID, item), LogPurchase in faults);
    if err.Some? {
      return Failure(Db(err.value));
    }
    status := Success;
  }

  /** The checks, in order, each rejecting the purchase before anything is
      written: a transaction that cannot begin; an item missing from the
      catalog, which wins over any problem with the user (an empty name is
      not treated specially); a user that cannot be read, whose lookup error
      is returned as it is; a balance below the price. */
  lemma BuyMerchChecks(s: State, userID: int, item: string, faults: set<Call>)
    ensures var o := BuyMerchResult(s, userID, item, faults);
      && (TxBegin in faults ==> o == FailDb(DbFault, s))
      && (TxBegin !in faults && FindMerch in faults ==> o == FailDb(DbFault, s))
      && (TxBegin !in faults && FindMerch !in faults && item !in s.catalog ==> o == Fail(ErrItemNotFound, s))
      && ((TxBegin !in faults && FindMerch !in faults && item in s.catalog) ==>
            && (FindBuyer in faults ==> o == FailDb(DbFault, s))
            && (FindBuyer !in faults && userID !in s.users ==> o == FailDb(RecordNotFound, s))
            && ((FindBuyer !in faults && userID in s.users && s.users[userID].coins < s.catalog[item])
                  ==> o == Fail(ErrBuyWithInsufficientMoney, s)))
  {
  }

  /** A purchase succeeds exactly when the item is in the catalog, the user
      exists with at least its price (the whole balance may be spent), and
      no store call fails, the transaction's begin and commit included. Then the buyer's balance drops by exactly the
      price and stays non-negative, no other row changes, one purchase row
      is logged, and the buyer's inventory gains one of the item. */
  lemma BuyMerchSucceeds(s: State, userID: int, item: string, faults: set<Call>)
    requires Valid(s)
    ensures var o := BuyMerchResult(s, userID, item, faults);
      && (o.status == Success <==>
            && item in s.catalog && userID in s.users && s.users[userID].coins >= s.catalog[item]
            && faults !! BuyCalls && faults !! TxCalls)
      && (o.status == Success ==>
            && o.after == s.(users := s.users[userID := s.users[userID].(coins := s.users[userID].coins - s.catalog[item])],
                             purchases := s.purchases + [Purchase(userID, item)])
            && Valid(o.after)
            && TotalCoins(o.after.users) == TotalCoins(s.users) - s.catalog[item]
            && (forall x :: Quantity(GetUserPurchases(o.after.purchases, userID), x)
                            == Quantity(GetUserPurchases(s.purchases, userID), x) + (if x == item then 1 else 0)))
  {
    if item in s.catalog && userID in s.users && s.users[userID].coins >= s.catalog[item] && faults !! BuyCalls && faults !! TxCalls {
      PurchaseEffects(s, userID, item);
    }
  }

  /** The state a paid and logged purchase leaves is valid, holds the price
      fewer coins, and has one more of the item in the buyer's inventory. */
  lemma PurchaseEffects(s: State, userID: int, item: string)
    requires Valid(s) && item in s.catalog && userID in s.users && s.users[userID].coins >= s.catalog[item]
    ensures var after := s.(users := s.users[userID := s.users[userID].(coins := s.users[userID].coins - s.catalog[item])],
                            purchases := s.purchases + [Purchase(userID, item)]);
      && Valid(after)
      && TotalCoins(after.users) == TotalCoins(s.users) - s.catalog[item]
      && (forall x :: Quantity(GetUserPurchases(after.purchases, userID), x)
                      == Quantity(GetUserPurchases(s.purchases, userID), x) + (if x == item then 1 else 0))
  {
    var paid := s.users[userID].(coins := s.users[userID].coins - s.catalog[item]);
    SaveBalance(s, userID, paid.coins);
    assert Save(s, paid).users == s.users[userID := paid];
    PurchaseQuantities(s.purchases, userID, item);
  }

  /** Logging a purchase raises the buyer's quantity of that item by one. */
  lemma PurchaseQuantities(purchases: seq<Purchase>, userID: int, item: string)
    ensures forall x :: Quantity(GetUserPurchases(purchases + [Purchase(userID, item)], userID), x)
                        == Quantity(GetUserPurchases(purchases, userID), x) + (if x == item then 1 else 0)
  {
    forall x {
      AppendPurchaseCounts(purchases, Purchase(userID, item), userID, x);
    }
  }

  /** Whatever the outcome the tables stay valid; and they change only on
      success, when the purchase row fails to be written after the balance
      was saved, or when the commit fails after the whole body. */
  lemma BuyMerchKeepsValid(s: State, userID: int, item: string, faults: set<Call>)
    requires Valid(s)
    ensures var o := BuyMerchResult(s, userID, item, faults);
      && Valid(o.after)
      && (o.after != s ==> o.status == Success || (TxBegin !in faults && WriteBuyer !in faults && (LogPurchase in faults || TxCommit in faults)))
  {
    var o := BuyMerchResult(s, userID, item, faults);
    if o.after != s {
      SaveBalance(s, userID, s.users[userID].coins - s.catalog[item]);
    }
  }

  /** As written, a failure to log the purchase keeps the payment: the
      balance has dropped by the price and no purchase row exists. */
  lemma BuyMerchPaidButNotLogged(s: State, userID: int, item: string)
    requires Valid(s)
    requires item in s.catalog && userID in s.users && s.users[userID].coins >= s.catalog[item]
    ensures var o := BuyMerchResult(s, userID, item, {LogPurchase});
      && o.status == Failure(Db(DbFault))
      && o.after.users[userID].coins == s.users[userID].coins - s.catalog[item]
      && o.after.purchases == s.purchases
  {
  }

  /** As written, a commit that fails after a valid purchase reports the
      error although the payment and the purchase row stay in place. */
  lemma BuyMerchCommitFailure(s: State, userID: int, item: string)
    requires Valid(s)
    requires item in s.catalog && userID in s.users && s.users[userID].coins >= s.catalog[item]
    ensures var o := BuyMerchResult(s, userID, item, {TxCommit});
      && o.status == Failure(Db(DbFault))
      && o.after.users[userID].coins == s.users[userID].coins - s.catalog[item]
      && o.after.purchases == s.purchases + [Purchase(userID, item)]
  {
  }

  /** The purchase as the transaction was meant to run it: the same closure,
      with every write undone when any step, or the commit, fails. */
  function BuyMerchAtomicResult(s: State, userID: int, item: string, faults: set<Call>): Outcome
  {
    Atomically(s, BuyMerchBody(s, userID, item, faults), faults)
  }

  /** `BuyMerch` with its writes made inside the transaction. */
  method BuyMerchAtomic(store: Store, userID: int, item: string, faults: set<Call>) returns (status: Status)
    modifies store
    ensures Outcome(status, store.Snapshot()) == BuyMerchAtomicResult(old(store.Snapshot()), userID, item, faults)
  {
    if TxBegin in faults {
      return Failure(Db(DbFault));
    }
    var saved := store.Snapshot();
    status := BuyMerchClosure(store, userID, item, faults);
    if status.Success? && TxCommit in faults {
      status := Failure(Db(DbFault));
    }
    if status.Failure? {
      store.Rollback(saved);
    }
  }

  /** The atomic purchase is all or nothing: a failure leaves every table as
      it was; a success is the purchase of `BuyMerchSucceeds`. */
  lemma BuyMerchAtomicAllOrNothing(s: State, userID: int, item: string, faults: set<Call>)
    requires Valid(s)
    ensures var o := BuyMerchAtomicResult(s, userID, item, faults);
      && o.status == BuyMerchResult(s, userID, item, faults).status
      && (o.status.Failure? ==> o.after == s)
      && (o.status == Success ==> o.after.purchases == s.purchases + [Purchase(userID, item)])
      && Valid(o.after)
  {
    BuyMerchSucceeds(s, userID, item, faults);
  }
}
