/** The records of internal/model and the error values the ledger operations
    return. Timestamps (`CreatedAt`) and the auto-increment ids of purchase
    and transfer rows are not modelled. */
module Model {
  import opened Enum

  /** Starting balance of a new account: the `default:1000` of the `coins`
      column and the value the find-or-create path of authentication writes. */
  const InitialCoins: int := 1000

  /** A row of the `users` table; `password` holds the bcrypt hash. */
  datatype User = User(id: int, username: string, password: string, coins: int)

  /** A catalog row: an item name and its price in coins. */
  datatype Merch = Merch(name: string, price: int)

  /** A row of the `purchases` log. */
  datatype Purchase = Purchase(userId: int, merchItem: string)

  /** A row of the `coin_transfers` log. */
  datatype CoinTransfer = CoinTransfer(fromUserId: int, toUserId: int, amount: int)

  /** One line of the inventory report: an item name and how many were bought. */
  datatype InventoryItem = InventoryItem(itemType: string, quantity: int)

  datatype ReceivedCoinHistory = ReceivedCoinHistory(fromUser: string, amount: int)

  datatype SentCoinHistory = SentCoinHistory(toUser: string, amount: int)

  datatype CoinHistory = CoinHistory(received: seq<ReceivedCoinHistory>, sent: seq<SentCoinHistory>)

  /** The aggregate answer of the info query. */
  datatype InfoResponse = InfoResponse(coins: int, inventory: seq<InventoryItem>, coinHistory: CoinHistory)

  /** The application claims carried by a session token (the registered
      claims, such as the expiry, are left to the token library). */
  datatype Claims = Claims(username: string, userId: int)

  /** Body of a coin-transfer request. */
  datatype SendCoinRequest = SendCoinRequest(toUser: string, amount: int)

  /** Body of an authentication request. */
  datatype AuthRequest = AuthRequest(username: string, password: string)

  /** The errors a database call reports: `gorm.ErrRecordNotFound`, or any
      other failure of the store (connection loss, constraint violation). */
  datatype DbError = RecordNotFound | DbFault

  /** The `error` an operation returns: one of the enumerated kinds, or a
      database error passed through unchanged. */
  datatype Error = Kind(kind: ErrorType) | Db(db: DbError)

  /** An operation's `error` result: `nil`, or the error. */
  datatype Status = Success | Failure(error: Error)
}
