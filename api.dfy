/** The handlers of internal/api (buy_handler.go and info_handler.go, the
    same code as their internal/handler twins, modelled by
    `BuyHandler.HandleBuy` and `InfoHandler.HandleInfo`) on the concrete
    databases their unit tests (internal/api/unit_test.go) set up. */
module Api {
  import opened Wrappers
  import opened Enum
  import opened Model
  import opened Purchases
  import opened Transfers
  import opened Database
  import opened BuyHandler
  import opened InfoHandler

  /** One user with 1000 coins and a "cap" at 250 in the catalog. */
  function CapShop(): State
  {
    State(map[1 := User(1, "user", "password", 1000)], [], [], map["cap" := 250], 2)
  }

  /** Buying the cap takes the balance from 1000 to 750 and logs the
      purchase of "cap" by the user. */
  lemma BuyCapScenario()
    ensures var o := HandleBuyResult(CapShop(), Some(User(1, "user", "password", 1000)), "cap", {});
      && o.status == Success
      && o.after.users[1].coins == 750
      && o.after.purchases == [Purchase(1, "cap")]
  {
  }

  /** A request without an item is refused before the store is touched,
      even when every store call would fail. */
  lemma BuyNoItemScenario(faults: set<Call>)
    ensures HandleBuyResult(CapShop(), Some(User(1, "user", "password", 1000)), "", faults)
            == Fail(ErrNotProvidedItem, CapShop())
  {
  }

  /** An item the catalog does not hold is `ErrItemNotFound`. */
  lemma BuyUnknownItemScenario()
    ensures HandleBuyResult(CapShop(), Some(User(1, "user", "password", 1000)), "nonexistent", {})
            == Fail(ErrItemNotFound, CapShop())
  {
  }

  /** A user with 100 coins cannot buy a 300-coin item. */
  lemma BuyInsufficientScenario()
    ensures var s := State(map[1 := User(1, "user", "password", 100)], [], [], map["hoodie" := 300], 2);
      HandleBuyResult(s, Some(User(1, "user", "password", 100)), "hoodie", {}) == Fail(ErrBuyWithInsufficientMoney, s)
  {
  }

  /** The info test's database: the user (1500 coins) bought two t-shirts
      and a cup, received 300 from "sender" and sent 200 to "receiver". */
  function InfoShop(): State
  {
    State(
      map[1 := User(1, "user", "password", 1500), 2 := User(2, "sender", "password", 1002), 3 := User(3, "receiver", "password", 1052)],
      [Purchase(1, "t-shirt"), Purchase(1, "t-shirt"), Purchase(1, "cup")],
      [CoinTransfer(2, 1, 300), CoinTransfer(1, 3, 200)],
      map[],
      4)
  }

  /** The report carries the balance, two inventory lines (two t-shirts,
      one cup), and one entry in each history. */
  lemma InfoScenario()
    ensures var r := HandleInfo(InfoShop(), Some(User(1, "user", "password", 1500)), {});
      && r.Ok?
      && r.value.coins == 1500
      && |r.value.inventory| == 2
      && Quantity(r.value.inventory, "t-shirt") == 2
      && Quantity(r.value.inventory, "cup") == 1
      && r.value.coinHistory.received == [ReceivedCoinHistory("sender", 300)]
      && r.value.coinHistory.sent == [SentCoinHistory("receiver", 200)]
  {
    var s := InfoShop();
    var ps := s.purchases;
    assert ps[..2][..1][..0] == [];
    assert GetUserPurchases(ps[..2][..1], 1) == [InventoryItem("t-shirt", 1)];
    assert ps[..2][..1] == ps[..1];
    assert GetUserPurchases(ps[..2], 1) == [InventoryItem("t-shirt", 2)];
    assert ps[..|ps| - 1] == ps[..2];
    assert Bump([InventoryItem("t-shirt", 2)], "cup") == [InventoryItem("t-shirt", 2)] + Bump([], "cup");
    assert GetUserPurchases(ps, 1) == [InventoryItem("t-shirt", 2), InventoryItem("cup", 1)];
    var ts := s.transfers;
    assert ts[..1][..0] == [];
    assert GetReceivedTransfers(ts[..1], s.users, 1) == [ReceivedCoinHistory("sender", 300)];
    assert GetReceivedTransfers(ts, s.users, 1) == [ReceivedCoinHistory("sender", 300)];
    assert GetSentTransfers(ts[..1], s.users, 1) == [];
    assert GetSentTransfers(ts, s.users, 1) == [SentCoinHistory("receiver", 200)];
  }

  /** A context user whose row does not exist gets `ErrReceivingCoinsInfo`,
      and a request without a user `ErrUserNotAuthorized`. */
  lemma InfoErrorScenarios()
    ensures HandleInfo(InfoShop(), Some(User(0, "ghost_user", "", 0)), {}) == Err(ErrReceivingCoinsInfo)
    ensures HandleInfo(InfoShop(), None, {}) == Err(ErrUserNotAuthorized)
  {
  }
}
