/** The `purchases` log and the inventory query of the purchase repository
    (internal/repository/purchase_repository.go; the other revision,
    internal/repository/purchaseRepository.go, has the same code). */
module Purchases {
  import opened Model

  /** How many times the user bought `item`. */
  function CountOf(purchases: seq<Purchase>, userId: int, item: string): nat
  {
    if purchases == [] then 0
    else
      var last := purchases[|purchases| - 1];
      CountOf(purchases[..|purchases| - 1], userId, item)
        + (if last.userId == userId && last.merchItem == item then 1 else 0)
  }

  /** How many purchases the user made in all. */
  function CountUser(purchases: seq<Purchase>, userId: int): nat
  {
    if purchases == [] then 0
    else
      CountUser(purchases[..|purchases| - 1], userId)
        + (if purchases[|purchases| - 1].userId == userId then 1 else 0)
  }

  /** The quantity an inventory reports for `item`: that of its first line
      for the item, or 0 when it has none. */
  function Quantity(inventory: seq<InventoryItem>, item: string): int
  {
    if inventory == [] then 0
    else if inventory[0].itemType == item then inventory[0].quantity
    else Quantity(inventory[1..], item)
  }

  /** The sum of all quantities of an inventory. */
  function TotalQuantity(inventory: seq<InventoryItem>): int
  {
    if inventory == [] then 0 else inventory[0].quantity + TotalQuantity(inventory[1..])
  }

  /** One line per item. */
  ghost predicate Distinct(inventory: seq<InventoryItem>)
  {
    forall i, j :: 0 <= i < j < |inventory| ==> inventory[i].itemType != inventory[j].itemType
  }

  /** Every line counts at least one purchase. */
  ghost predicate Positive(inventory: seq<InventoryItem>)
  {
    forall i :: 0 <= i < |inventory| ==> inventory[i].quantity >= 1
  }

  /** Counts one more purchase of `item`: its line goes up by one, or a line
      with quantity 1 is added at the end. */
  function Bump(inventory: seq<InventoryItem>, item: string): seq<InventoryItem>
  {
    if inventory == [] then [InventoryItem(item, 1)]
    else if inventory[0].itemType == item then
      [inventory[0].(quantity := inventory[0].quantity + 1)] + inventory[1..]
    else
      [inventory[0]] + Bump(inventory[1..], item)
  }

  /** `GetUserPurchases`: `SELECT merch_item AS type, count(*) AS quantity
      WHERE user_id = ? GROUP BY merch_item`. The lines come in the order of
      each item's first purchase; the query itself promises no order. */
  function GetUserPurchases(purchases: seq<Purchase>, userId: int): seq<InventoryItem>
  {
    if purchases == [] then []
    else
      var last := purchases[|purchases| - 1];
      var inventory := GetUserPurchases(purchases[..|purchases| - 1], userId);
      if last.userId == userId then Bump(inventory, last.merchItem) else inventory
  }

  /** Counting one more purchase keeps one positive line per item, raises the
      quantity of that item by one and the total by one, and touches no other
      item. */
  lemma BumpCounts(inventory: seq<InventoryItem>, item: string)
    requires Distinct(inventory) && Positive(inventory)
    ensures Distinct(Bump(inventory, item)) && Positive(Bump(inventory, item))
    ensures forall x :: Quantity(Bump(inventory, item), x) == Quantity(inventory, x) + (if x == item then 1 else 0)
    ensures TotalQuantity(Bump(inventory, item)) == TotalQuantity(inventory) + 1
    ensures forall k :: 0 <= k < |Bump(inventory, item)| ==>
              Bump(inventory, item)[k].itemType == item
              || exists j :: 0 <= j < |inventory| && inventory[j].itemType == Bump(inventory, item)[k].itemType
  {
    BumpOrigin(inventory, item);
    BumpDistinct(inventory, item);
    BumpQuantities(inventory, item);
  }

  /** Every line of the bumped inventory is the bumped item's or an old one. */
  lemma {:induction false} BumpOrigin(inventory: seq<InventoryItem>, item: string)
    ensures forall k :: 0 <= k < |Bump(inventory, item)| ==>
              Bump(inventory, item)[k].itemType == item
              || exists j :: 0 <= j < |inventory| && inventory[j].itemType == Bump(inventory, item)[k].itemType
  {
    if inventory != [] && inventory[0].itemType != item {
      var tail := inventory[1..];
      BumpOrigin(tail, item);
      var b := Bump(inventory, item);
      assert b == [inventory[0]] + Bump(tail, item);
      forall k | 0 <= k < |b|
        ensures b[k].itemType == item || exists j :: 0 <= j < |inventory| && inventory[j].itemType == b[k].itemType
      {
        if k == 0 {
          assert inventory[0].itemType == b[k].itemType;
        } else {
          assert b[k] == Bump(tail, item)[k - 1];
          if b[k].itemType != item {
            var j :| 0 <= j < |tail| && tail[j].itemType == b[k].itemType;
            assert inventory[j + 1] == tail[j];
          }
        }
      }
    }
  }

  /** Bumping keeps one positive line per item. */
  lemma {:induction false} BumpDistinct(inventory: seq<InventoryItem>, item: string)
    requires Distinct(inventory) && Positive(inventory)
    ensures Distinct(Bump(inventory, item)) && Positive(Bump(inventory, item))
  {
    if inventory != [] && inventory[0].itemType != item {
      var tail := inventory[1..];
      BumpDistinct(tail, item);
      BumpOrigin(tail, item);
      var b := Bump(inventory, item);
      assert b == [inventory[0]] + Bump(tail, item);
      forall i, j | 0 <= i < j < |b| ensures b[i].itemType != b[j].itemType {
        if i == 0 {
          assert b[j] == Bump(tail, item)[j - 1];
          if b[j].itemType != item {
            var m :| 0 <= m < |tail| && tail[m].itemType == b[j].itemType;
            assert inventory[m + 1] == tail[m];
          }
        } else {
          assert b[i] == Bump(tail, item)[i - 1] && b[j] == Bump(tail, item)[j - 1];
        }
      }
    }
  }

  /** Bumping raises that item's quantity and the total by one. */
  lemma {:induction false} BumpQuantities(inventory: seq<InventoryItem>, item: string)
    ensures forall x :: Quantity(Bump(inventory, item), x) == Quantity(inventory, x) + (if x == item then 1 else 0)
    ensures TotalQuantity(Bump(inventory, item)) == TotalQuantity(inventory) + 1
  {
    if inventory != [] && inventory[0].itemType != item {
      BumpQuantities(inventory[1..], item);
      var b := Bump(inventory, item);
      assert b[1..] == Bump(inventory[1..], item);
    } else if inventory != [] {
      assert Bump(inventory, item)[1..] == inventory[1..];
    }
  }

  /** On a positive inventory an item has a non-zero quantity exactly when
      some line names it. */
  lemma {:induction false} QuantityPresent(inventory: seq<InventoryItem>, item: string)
    requires Positive(inventory)
    ensures Quantity(inventory, item) >= 0
    ensures Quantity(inventory, item) > 0 <==> exists k :: 0 <= k < |inventory| && inventory[k].itemType == item
  {
    if inventory != [] {
      var tail := inventory[1..];
      QuantityPresent(tail, item);
      if inventory[0].itemType != item {
        if exists k :: 0 <= k < |inventory| && inventory[k].itemType == item {
          var k :| 0 <= k < |inventory| && inventory[k].itemType == item;
          assert tail[k - 1] == inventory[k];
        }
        if exists k :: 0 <= k < |tail| && tail[k].itemType == item {
          var k :| 0 <= k < |tail| && tail[k].itemType == item;
          assert inventory[k + 1] == tail[k];
        }
      }
    }
  }

  /** The inventory report is correct: one line per item, each line counts
      only this user's purchases of its item and at least one, an item has a
      line exactly when the user bought it, and the quantities add up to the
      user's number of purchases. */
  lemma {:induction false} InventoryCounts(purchases: seq<Purchase>, userId: int)
    ensures Distinct(GetUserPurchases(purchases, userId))
    ensures Positive(GetUserPurchases(purchases, userId))
    ensures forall item :: Quantity(GetUserPurchases(purchases, userId), item) == CountOf(purchases, userId, item)
    ensures TotalQuantity(GetUserPurchases(purchases, userId)) == CountUser(purchases, userId)
  {
    if purchases != [] {
      var init := purchases[..|purchases| - 1];
      var last := purchases[|purchases| - 1];
      InventoryCounts(init, userId);
      if last.userId == userId {
        BumpCounts(GetUserPurchases(init, userId), last.merchItem);
      }
    }
  }

  /** An item has a line in the user's inventory exactly when the user
      bought it at least once. */
  lemma InventoryLines(purchases: seq<Purchase>, userId: int, item: string)
    ensures var inventory := GetUserPurchases(purchases, userId);
            (exists k :: 0 <= k < |inventory| && inventory[k].itemType == item) <==> CountOf(purchases, userId, item) > 0
  {
    InventoryCounts(purchases, userId);
    QuantityPresent(GetUserPurchases(purchases, userId), item);
  }

  /** Appending one purchase adds exactly one to its buyer's quantity of its
      item and changes no other report. */
  lemma AppendPurchaseCounts(purchases: seq<Purchase>, p: Purchase, userId: int, item: string)
    ensures Quantity(GetUserPurchases(purchases + [p], userId), item)
            == Quantity(GetUserPurchases(purchases, userId), item)
               + (if p.userId == userId && p.merchItem == item then 1 else 0)
  {
    assert (purchases + [p])[..|purchases|] == purchases;
    InventoryCounts(purchases, userId);
    InventoryCounts(purchases + [p], userId);
  }
}
