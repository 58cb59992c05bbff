/** `HandleBuy` of the inline-handler revision. internal/handler/buy_handler.go
    and internal/api/buy_handler.go hold the same code: an empty item is
    refused before the transaction, and the purchase runs in
    `db.Transaction` writing through `tx`, so any error rolls it back. */
module BuyHandler {
  import opened Wrappers
  import opened Enum
  import opened Model
  import opened Accounts
  import opened Purchases
  import opened Database
  import Catalog
  import opened MerchService

  /** The body of the transaction: the catalog row, the buyer's row, the
      balance check, the debit with `UpdateColumn` and the purchase row. */
  function PurchaseBody(s: State, buyerId: int, item: string, faults: set<Call>): Outcome
  {
    var merch := Fetch(Catalog.FindByName(s.catalog, item), FindMerch in faults);
    if merch.Err? then
      (if merch.error == RecordNotFound then Fail(ErrItemNotFound, s) else FailDb(merch.error, s))
    else
      var user := Fetch(FindByID(s.users, buyerId), FindBuyer in faults);
      if user.Err? then FailDb(user.error, s)
      else if user.value.coins < merch.value.price then Fail(ErrBuyWithInsufficientMoney, s)
      else if WriteBuyer in faults then FailDb(DbFault, s)
      else
        var s1 := s.(users := AddCoins(s.users, user.value.id, -merch.value.price));
        if LogPurchase in faults then FailDb(DbFault, s1)
        else Outcome(Success, s1.(purchases := s1.purchases + [Purchase(user.value.id, item)]))
  }

  /** What `HandleBuy` answers and leaves in the database; `item` is the
      `:item` path parameter. */
  function HandleBuyResult(s: State, ctxUser: Option<User>, item: string, faults: set<Call>): Outcome
  {
    if ctxUser.None? then Fail(ErrUserNotAuthorized, s)
    else if item == "" then Fail(ErrNotProvidedItem, s)
    else Atomically(s, PurchaseBody(s, ctxUser.value.id, item, faults), faults)
  }

  /** `HandleBuy`. */
  method HandleBuy(store: Store, ctxUser: Option<User>, item: string, faults: set<Call>) returns (status: Status)
    modifies store
    ensures Outcome(status, store.Snapshot()) == HandleBuyResult(old(store.Snapshot()), ctxUser, item, faults)
  {
    if ctxUser.None? {
      return Failure(Kind(ErrUserNotAuthorized));
    }
    var user := ctxUser.value;
    if item == "" {
      return Failure(Kind(ErrNotProvidedItem));
    }
    if TxBegin in faults {
      return Failure(Db(DbFault));
    }
    var begin := store.Snapshot();
    status := Buy(store, user.id, item, faults);
    if status.Success? && TxCommit in faults {
      status := Failure(Db(DbFault));
    }
    if status.Failure? {
      store.Rollback(begin);
    }
  }

  /** The closure given to `db.Transaction`. */
  method Buy(store: Store, buyerId: int, item: string, faults: set<Call>) returns (status: Status)
    modifies store
    ensures Outcome(status, store.Snapshot()) == PurchaseBody(old(store.Snapshot()), buyerId, item, faults)
  {
    var merch := store.FindMerchByName(item, FindMerch in faults);
    if merch.Err? {
      if merch.error == RecordNotFound {
        return Failure(Kind(ErrItemNotFound));
      }
      return Failure(Db(merch.error));
    }
    var found := store.FindByID(buyerId, FindBuyer in faults);
    if found.Err? {
      return Failure(Db(found.error));
    }
    var currentUser := found.value;
    if currentUser.coins < merch.value.price {
      return Failure(Kind(ErrBuyWithInsufficientMoney));
    }
    var err := store.AddCoins(currentUser.id, -merch.value.price, WriteBuyer in faults);
    if err.Some? {
      return Failure(Db(err.value));
    }
    err := store.CreatePurchase(Purchase(currentUser.id, item), LogPurchase in faults);
    if err.Some? {
      return Failure(Db(err.value));
    }
    status := Success;
  }

  /** The checks, in order, each leaving the database as it was: no
      authenticated user; an empty item (before any query); a transaction
      that cannot begin; a failed catalog lookup; an item missing from the
      catalog, which wins over any problem with the user; a failed or empty
      buyer lookup; a balance below the price. */
  lemma HandleBuyChecks(s: State, ctxUser: Option<User>, item: string, faults: set<Call>)
    ensures var o := HandleBuyResult(s, ctxUser, item, faults);
      && (ctxUser.None? ==> o == Fail(ErrUserNotAuthorized, s))
      && (ctxUser.Some? && item == "" ==> o == Fail(ErrNotProvidedItem, s))
      && (ctxUser.Some? && item != "" && TxBegin in faults ==> o == FailDb(DbFault, s))
      && (ctxUser.Some? && item != "" && TxBegin !in faults && FindMerch in faults ==> o == FailDb(DbFault, s))
      && ((ctxUser.Some? && item != "" && TxBegin !in faults && FindMerch !in faults) ==>
            var id := ctxUser.value.id;
            && (item !in s.catalog ==> o == Fail(ErrItemNotFound, s))
            && (item in s.catalog && FindBuyer in faults ==> o == FailDb(DbFault, s))
            && ((item in s.catalog && FindBuyer !in faults && id !in s.users) ==> o == FailDb(RecordNotFound, s))
            && ((item in s.catalog && FindBuyer !in faults && id in s.users && s.users[id].coins < s.catalog[item])
                  ==> o == Fail(ErrBuyWithInsufficientMoney, s)))
  {
  }

  /** Any error leaves every table as it was, whichever step failed, the
      commit included. */
  lemma HandleBuyAllOrNothing(s: State, ctxUser: Option<User>, item: string, faults: set<Call>)
    ensures var o := HandleBuyResult(s, ctxUser, item, faults);
      o.status.Failure? ==> o.after == s
  {
  }

  /** The purchase succeeds exactly when the user is authenticated, the item
      is non-empty and in the catalog, the buyer's row has at least the
      price, and no store call fails, the transaction's begin and commit
      included. Then the balance drops by exactly the
      price (to no less than zero), no other row changes, one purchase row
      is logged, and the buyer's inventory gains one of the item. */
  lemma HandleBuySucceeds(s: State, ctxUser: Option<User>, item: string, faults: set<Call>)
    requires Valid(s)
    ensures var o := HandleBuyResult(s, ctxUser, item, faults);
      && (o.status == Success <==>
            && ctxUser.Some? && item != "" && item in s.catalog
            && ctxUser.value.id in s.users && s.users[ctxUser.value.id].coins >= s.catalog[item]
            && faults !! BuyCalls && faults !! TxCalls)
      && (o.status == Success ==>
            var id := ctxUser.value.id;
            && o.after == s.(users := s.users[id := s.users[id].(coins := s.users[id].coins - s.catalog[item])],
                             purchases := s.purchases + [Purchase(id, item)])
            && Valid(o.after)
            && TotalCoins(o.after.users) == TotalCoins(s.users) - s.catalog[item]
            && (forall x :: Quantity(GetUserPurchases(o.after.purchases, id), x)
                            == Quantity(GetUserPurchases(s.purchases, id), x) + (if x == item then 1 else 0)))
  {
    HandleBuySuccessCondition(s, ctxUser, item, faults);
    if && ctxUser.Some? && item != "" && item in s.catalog
       && ctxUser.value.id in s.users && s.users[ctxUser.value.id].coins >= s.catalog[item]
       && faults !! BuyCalls && faults !! TxCalls
    {
      var id := ctxUser.value.id;
      PurchaseBodyEffect(s, id, item, faults);
      PurchaseEffects(s, id, item);
    }
  }

  /** When a purchase succeeds. */
  lemma HandleBuySuccessCondition(s: State, ctxUser: Option<User>, item: string, faults: set<Call>)
    ensures HandleBuyResult(s, ctxUser, item, faults).status == Success <==>
            && ctxUser.Some? && item != "" && item in s.catalog
            && ctxUser.value.id in s.users && s.users[ctxUser.value.id].coins >= s.catalog[item]
            && faults !! BuyCalls && faults !! TxCalls
  {
  }

  /** The successful body: the buyer's balance drops by the price in place
      and one purchase row is logged. */
  lemma PurchaseBodyEffect(s: State, id: int, item: string, faults: set<Call>)
    requires WellFormed(s.users, s.nextId)
    requires item in s.catalog && id in s.users && s.users[id].coins >= s.catalog[item]
    requires faults !! BuyCalls
    ensures PurchaseBody(s, id, item, faults)
            == Outcome(Success, s.(users := s.users[id := s.users[id].(coins := s.users[id].coins - s.catalog[item])],
                                   purchases := s.purchases + [Purchase(id, item)]))
  {
    assert AddCoins(s.users, id, -s.catalog[item]) == s.users[id := s.users[id].(coins := s.users[id].coins - s.catalog[item])];
  }
}
