# Merch store coin ledger, modelled in Dafny

This project models the coin ledger of the merch store service
(ners1us/merch_store). Every user starts with 1000 coins. A user can buy
merch from a fixed catalog, send coins to another user, and ask for a
report of their balance, inventory and coin history. Users authenticate
with a username and a password, and the first login creates the account.
Later requests carry a bearer token.

The repository holds two revisions of this logic, and the model covers
both.

- **Service revision**: `internal/service` over `internal/repository`, with
  error kinds from `internal/enum`. Modules `TransferService`,
  `MerchService`, `UserService` and `AuthService`.
- **Inline-handler revision**: `internal/handler` and `internal/api`, with
  error kinds from `internal/enum`, except `internal/handler/buy_handler.go`,
  the `internal/api` handlers and `internal/middleware`, which use
  `internal/enums`. These handlers query the database directly inside
  `db.Transaction`. Modules `SendCoinHandler`, `BuyHandler`, `InfoHandler`
  and `AuthHandler`.

The model writes every error kind with the `Enum` module.
`Enums.AgreesWithEnum` proves that the kinds `internal/enums` declares have
the same ordinals and messages there, and none of the files that use
`internal/enums` raises `ErrEqualReceivers`, the one kind it lacks.

Shared pieces:

- `Database`: the tables as one value `State`, and the class `Store`, whose
  methods are the repository calls.
- `Accounts`, `Purchases`, `Transfers` and `Catalog`: the tables and the
  queries over them.
- `Middleware`: both bearer-token middlewares.
- `Enum` and `Enums`: the two error enumerations.
- `Api`: the handler unit tests, restated as lemmas about the model.

Each state-changing operation has three parts:

- a specification function from the state before to an `Outcome`, which
  holds the status and the state after;
- a method on `Store` whose `ensures` ties it to that function;
- lemmas that prove what the function guarantees.

The proved properties cover:

- error precedence;
- success if and only if its conditions hold;
- the exact new state;
- conservation of the sum of balances;
- balances that never go negative;
- inventory counts;
- the exact coin histories.

A database failure is an input: `faults: set<Call>` names the store calls
that fail, the begin (`TxBegin`) and commit (`TxCommit`) of a transaction
included. `Database.Detached` gives a transaction whose closure writes
outside it, as in the service revision. `Database.Atomically` gives one
whose writes are undone on any error, as in the inline-handler revision.

bcrypt and JWT are parameters of the model:

- `hash` stands for `bcrypt.GenerateFromPassword`;
- `matches` stands for `bcrypt.CompareHashAndPassword`;
- `sign` stands for `SignedString`;
- `parse` stands for `jwt.ParseWithClaims` together with the validity check.

## Model

| member | source | states |
|---|---|---|
| Enum.OrdinalRoundTrip | internal/enum/error_enum.go:5-26 | the 20 kinds take the `iota` values 0..19 in declaration order; converting a kind to its integer and back gives the same kind, and every integer in range names a kind |
| Enum.EveryKindHasMessage | internal/enum/error_enum.go:28-53 | every kind has a non-empty entry in `errorMessages`, and `Error()` returns that entry |
| Enum.MessagesIdentifyKind | internal/enum/error_enum.go:28-49 | two kinds have the same message exactly when they are the same kind |
| Enums.AgreesWithEnum | internal/enums/error_enum.go:5-51 | the enums revision declares the first 19 kinds, with the same ordinals and messages; it lacks `ErrEqualReceivers`, which has no message there |
| Enums.MessagesIdentifyKind | internal/enums/error_enum.go:27-47 | the messages of the declared kinds are pairwise distinct |
| Accounts.FindByUsernameExact | internal/repository/user_repository.go:20-24 | `FindByUsername` finds a row exactly when some row has that exact username, returns that row, and reports `RecordNotFound` otherwise |
| Accounts.TotalCoinsUpdate | internal/repository/user_repository.go:32-34 | saving one row changes the sum of balances by that row's change |
| Accounts.TotalCoinsUpdateTwo | internal/service/transfer_service.go:48-58 | saving two distinct rows whose combined balance is unchanged keeps the sum of balances |
| Accounts.TotalCoinsAdd | internal/handler/send_coin_handler.go:50-58 | `UpdateColumn("coins", coins + delta)` moves the sum of balances by exactly `delta` when the row exists |
| Accounts.TotalCoinsInsert | internal/repository/user_repository.go:16-18 | inserting a fresh row adds its balance to the sum |
| Accounts.TotalCoinsSplit | internal/repository/user_repository.go:32-34 | the sum of balances splits at any row |
| Database.SaveBalance | internal/repository/user_repository.go:32-34 | saving a row with a non-negative balance keeps the tables valid and moves the sum of balances by the change |
| Database.AddCoinsValid | internal/handler/buy_handler.go:45-48 | a relative balance update that leaves the row non-negative keeps the tables valid and moves the sum by the delta |
| Database.InsertFacts | internal/repository/user_repository.go:16-18 | `Create` succeeds exactly when the username is free; the new row gets the next id with the given name, hash and balance, and every other row is kept; a failed insert changes nothing |
| Database.Store.Create | internal/repository/user_repository.go:16-18 | the insert of `InsertFacts`; a failed call writes nothing |
| Database.Store.FindByUsername | internal/repository/userRepository.go:20-24 | the exact-username lookup, or the failure of the call |
| Database.Store.FindByID | internal/repository/user_repository.go:26-30 | the row under the id, `RecordNotFound`, or the failure of the call |
| Database.Store.Update | internal/repository/userRepository.go:32-34 | the whole row is saved under its id; a failed call writes nothing |
| Database.Store.AddCoins | internal/handler/send_coin_handler.go:50-58 | the balance column of the row moves by `delta`, and no other column or row changes |
| Database.Store.CreatePurchase | internal/repository/purchase_repository.go:21-23 | exactly one purchase row is appended |
| Database.Store.CreateTransfer | internal/repository/coin_transfer_repository.go:16-18 | exactly one transfer row is appended |
| Database.Store.FindMerchByName | internal/repository/merchRepository.go:16-20 | the catalog row with exactly that name, `RecordNotFound`, or the failure of the call |
| Database.Store.InitializeMerch | internal/repository/merch_repository.go:27-40 | the ten seed rows are added, after which each seed name is found at its listed price |
| Database.Store.Rollback | internal/handler/buy_handler.go:27-64 | restores every table to the state saved when the transaction began |
| Catalog.FirstNamedSound | internal/repository/merch_repository.go:21-25 | the search for the first row with a name returns a catalog row with exactly that name, or `RecordNotFound` when no row has it |
| Catalog.FindByNameSearchesRows | internal/repository/merch_repository.go:21-25 | with distinct names, the lookup in the catalog table answers what the row search answers: the row with that name at its price, or `RecordNotFound` |
| Catalog.AsTableExact | internal/repository/merch_repository.go:27-40 | with distinct names, the inserted table holds exactly the listed rows at their prices |
| Catalog.SeedFacts | internal/repository/merch_repository.go:29-38 | ten seed rows with distinct names and prices of at least 10; pink-hoody costs 500, hoody 300, pen and socks 10 |
| Catalog.SeedLookup | internal/repository/merch_repository.go:21-40 | after seeding, a name is found exactly when it is one of the ten, at its listed price; the lookup is case-sensitive ("Pen" is not found) |
| Purchases.InventoryCounts | internal/repository/purchase_repository.go:25-33 | the grouped inventory has one positive line per item; each line's quantity is the number of the user's purchases of that item; the quantities add up to the user's purchases |
| Purchases.InventoryLines | internal/repository/purchaseRepository.go:20-28 | an item has a line in the inventory exactly when the user bought it |
| Purchases.BumpCounts | internal/repository/purchase_repository.go:27-31 | counting one more purchase keeps one positive line per item and raises exactly that item's quantity by one |
| Purchases.QuantityPresent | internal/repository/purchase_repository.go:27-31 | in a positive inventory, an item has a non-zero quantity exactly when it has a line |
| Purchases.AppendPurchaseCounts | internal/repository/purchase_repository.go:21-33 | appending one purchase adds one to its buyer's quantity of its item and changes nothing else in any inventory |
| Transfers.ReceivedExact | internal/repository/coin_transfer_repository.go:20-28 | every received-history entry is the sender's username and the amount of a logged transfer to the user, every such transfer appears in the history, and each entry occurs exactly as many times as the logged transfers it reports |
| Transfers.SentExact | internal/repository/coin_transfer_repository.go:30-38 | every sent-history entry is the receiver's username and the amount of a logged transfer from the user, every such transfer appears in the history, and each entry occurs exactly as many times as the logged transfers it reports |
| Transfers.ReceivedCounts | internal/repository/coin_transfer_repository.go:20-28 | the number of times an entry occurs in the received history is the number of logged transfers to the user with that sender name and amount |
| Transfers.SentCounts | internal/repository/coin_transfer_repository.go:30-38 | the number of times an entry occurs in the sent history is the number of logged transfers from the user with that receiver name and amount |
| Transfers.ReceivedOrigin | internal/repository/coinTransferRepository.go:20-28 | each received entry comes from a transfer to the user, joined with its sender's row |
| Transfers.ReceivedPosition | internal/repository/coinTransferRepository.go:20-28 | each transfer to the user appears in the received history |
| Transfers.SentOrigin | internal/repository/coinTransferRepository.go:30-38 | each sent entry comes from a transfer from the user, joined with its receiver's row |
| Transfers.SentPosition | internal/repository/coinTransferRepository.go:30-38 | each transfer from the user appears in the sent history |
| Transfers.HistoriesIgnoreBalances | internal/repository/coin_transfer_repository.go:20-38 | the histories depend only on the usernames of the joined rows, so balance updates do not change them |
| Transfers.AppendTransferHistories | internal/repository/coin_transfer_repository.go:16-38 | logging a transfer extends the receiver's received history and the sender's sent history by exactly one entry each |
| TransferService.SendCoin | internal/service/transfer_service.go:21-70 | the method's return value and new tables are those of the specification function, step by step, a failing begin or commit of `RunTransaction` included |
| TransferService.SendCoinClosure | internal/service/transfer_service.go:26-69 | the closure's return value and writes are those of the transaction body |
| TransferService.SendCoinChecks | internal/service/transfer_service.go:22-46 | error precedence: a non-positive amount, then a transaction that cannot begin, then a failed sender lookup, then an insufficient balance (ahead of any receiver problem), then an unknown receiver, then sending to oneself; each changes nothing |
| TransferService.SendCoinSucceeds | internal/service/transfer_service.go:21-70 | success exactly when the amount is positive, the sender can pay, another user has the receiver name and no call fails, the begin and commit of the transaction included; the sender then loses the amount, the receiver gains it, one row is logged, the sum of balances is kept, and the tables stay valid |
| TransferService.SendCoinKeepsValid | internal/service/transfer_service.go:48-66 | no balance ever goes negative; the tables change only on success, or when the transaction began, the sender's save went through and a later write or the commit fails |
| TransferService.SendCoinCommitFailure | internal/repository/user_repository.go:36-38 | as written, a failing commit after a valid transfer reports a database error, yet the tables hold every write of the successful transfer |
| TransferService.TransferWritesValid | internal/service/transfer_service.go:48-58 | each of the two saves of a transfer keeps the tables valid |
| TransferService.SendCoinPartialDebit | internal/service/transfer_service.go:48-66 | as written, a failed receiver save leaves the sender debited, the receiver unpaid and no transfer logged, so coins leave the ledger |
| TransferService.SendCoinAtomic | internal/service/transfer_service.go:21-70 | the transfer with rollback: the method's result and tables are those of the atomic specification |
| TransferService.SendCoinAtomicAllOrNothing | internal/service/transfer_service.go:21-70 | the atomic transfer fails with the same error, a failed begin or commit included, but then leaves every table as it was; the sum of balances is always kept |
| MerchService.BuyMerch | internal/service/merch_service.go:26-61 | the method's return value and new tables are those of the specification function, a failing begin or commit of `RunTransaction` included |
| MerchService.BuyMerchClosure | internal/service/merch_service.go:27-60 | the closure's return value and writes are those of the transaction body |
| MerchService.BuyMerchChecks | internal/service/merch_service.go:27-43 | error precedence: a transaction that cannot begin, then an unknown item, then a failed user lookup, then a balance below the price; each changes nothing |
| MerchService.BuyMerchSucceeds | internal/service/merch_service.go:26-61 | success exactly when the item exists, the balance covers the price and no call fails, the begin and commit of the transaction included; the balance then drops by the price and stays non-negative, one purchase is logged, and the buyer's inventory gains exactly one of the item |
| MerchService.BuyMerchKeepsValid | internal/service/merch_service.go:45-57 | no balance goes negative; the tables change only on success, or when the transaction began, the balance was saved and the purchase log or the commit fails |
| MerchService.BuyMerchCommitFailure | internal/repository/user_repository.go:36-38 | as written, a failing commit after a valid purchase reports a database error, yet the buyer stays charged and the purchase row stays logged |
| MerchService.BuyMerchPaidButNotLogged | internal/service/merch_service.go:45-57 | as written, a failed purchase log leaves the buyer charged with no purchase recorded |
| MerchService.BuyMerchAtomic | internal/service/merch_service.go:26-61 | the purchase with rollback: the method's result and tables are those of the atomic specification |
| MerchService.BuyMerchAtomicAllOrNothing | internal/service/merch_service.go:26-61 | the atomic purchase fails with the same error, a failed begin or commit included, and then changes nothing; on success exactly one purchase is logged |
| UserService.GetUserInfoErrors | internal/service/user_service.go:23-41 | the report fails exactly when the user row is missing or a query fails; the first failing query, in the order balance, purchases, received, sent, decides the error kind |
| UserService.GetUserInfoContents | internal/service/user_service.go:23-51 | a report carries the stored balance, the exact grouped inventory and the exact received and sent histories, each history entry occurring once per logged transfer it reports |
| AuthService.Authenticate | internal/service/auth_service.go:24-61 | the method's token or error and its new tables are those of the specification function |
| AuthService.AuthenticateNewUser | internal/service/auth_service.go:25-39 | an unknown username creates exactly one row (next id, the name, the hash, 1000 coins) and signs a token for that name and id; a hash or insert failure is `ErrCreatingUser` and creates nothing |
| AuthService.AuthenticateExistingUser | internal/service/auth_service.go:43-60 | a known username changes nothing; a wrong password is `ErrWrongCredentials`, a right one gets a token for the stored name and id |
| AuthService.AuthenticateLookupFault | internal/service/auth_service.go:25-41 | a lookup error other than a missing row is `ErrInternalServer` and creates nothing |
| AuthService.AuthenticateKeepsRows | internal/service/auth_service.go:24-61 | the tables stay valid, no existing row is modified, at most one row is added, and a token is only issued for the id of a row that carries the username |
| AuthHandler.HandleAuth | internal/handler/auth_handler.go:15-69 | the method's token or error and its new tables are those of the specification function |
| AuthHandler.HandleAuthCases | internal/handler/auth_handler.go:15-50 | a malformed body is `ErrWrongReqFormat` and an empty username or password is `ErrNoUsernameAndPassword`, both before any query; then find-or-create, `ErrInternalServer` on a lookup fault, `ErrWrongCredentials` on a wrong password |
| SendCoinHandler.HandleSendCoin | internal/handler/send_coin_handler.go:13-78 | the method's return value and new tables are those of the specification function, with rollback on any error in the transaction or a failed commit |
| SendCoinHandler.Transfer | internal/handler/send_coin_handler.go:31-70 | the closure's return value and writes are those of the transaction body |
| SendCoinHandler.HandleSendCoinChecks | internal/handler/send_coin_handler.go:13-48 | error precedence: no context user, a malformed body, a non-positive amount, a transaction that cannot begin, a failed sender lookup (the raw database error), a missing sender row, an insufficient balance, a failed receiver lookup (the raw database error), an unknown receiver; each changes nothing |
| SendCoinHandler.HandleSendCoinAllOrNothing | internal/handler/send_coin_handler.go:31-75 | any error, a failed begin or commit included, leaves every table as it was |
| SendCoinHandler.TransferBodySucceeds | internal/handler/send_coin_handler.go:31-70 | the transaction body succeeds exactly when the sender can pay, the receiver name exists and no call fails; it then debits, credits and logs one row, and keeps the sum of balances and the validity of the tables |
| SendCoinHandler.HandleSendCoinSucceeds | internal/handler/send_coin_handler.go:13-78 | success exactly when the request is authenticated and well-formed with a positive amount, the transaction begins and commits, and the body succeeds; the new state is the debit, the credit and one logged row |
| SendCoinHandler.HandleSendCoinToSelf | internal/handler/send_coin_handler.go:31-70 | with no self-transfer check, sending to one's own name succeeds: the balance ends where it began and a self-transfer row is logged |
| BuyHandler.HandleBuy | internal/handler/buy_handler.go:13-68 | the method's return value and new tables are those of the specification function, with rollback on any error in the transaction or a failed commit |
| BuyHandler.Buy | internal/api/buy_handler.go:27-60 | the closure's return value and writes are those of the transaction body |
| BuyHandler.HandleBuyChecks | internal/api/buy_handler.go:13-43 | error precedence: no context user, an empty item (before any query), a transaction that cannot begin, a failed catalog lookup (the raw database error), an unknown item, a failed buyer lookup (the raw database error), a missing buyer row, a balance below the price; each changes nothing |
| BuyHandler.HandleBuyAllOrNothing | internal/handler/buy_handler.go:27-64 | any error, a failed begin or commit included, leaves every table as it was |
| BuyHandler.HandleBuySucceeds | internal/handler/buy_handler.go:13-68 | success exactly when the request is authenticated, the item is non-empty and in the catalog, the balance covers the price, the transaction begins and commits, and no call fails; the balance then drops by the price and stays non-negative, one purchase is logged, and the inventory gains exactly one of the item |
| InfoHandler.HandleInfo | internal/api/info_handler.go:10-61 | no context user is `ErrUserNotAuthorized`; a missing row is `ErrReceivingCoinsInfo`; a report carries the stored balance (the rest of the report's contents follow from `HandleInfoAgreesWithService` with `GetUserInfoContents`) |
| InfoHandler.HandleInfoAgreesWithService | internal/handler/info_handler.go:10-61 | for an authenticated user the handler answers exactly what `GetUserInfo` answers, errors included |
| Middleware.SplitJoin | internal/middleware/auth_middleware.go:20 | `strings.Split` on a space gives space-free parts that join back to the header |
| Middleware.JoinSplit | internal/middleware/auth_middleware.go:20 | splitting the join of space-free parts gives the parts back |
| Middleware.ExtractTokenLengthFirst | internal/handler/auth_middleware.go:15-27 | testing the part count first refuses and accepts the same headers, with the same errors |
| Middleware.ExtractTokenSound | internal/middleware/auth_middleware.go:14-26 | an accepted header is "Bearer", one space, and the space-free token returned |
| Middleware.ExtractTokenComplete | internal/middleware/auth_middleware.go:14-26 | every "Bearer " plus a space-free token is accepted with that token |
| Middleware.ExtractTokenExact | internal/middleware/auth_middleware.go:14-26 | an empty header is `ErrNoAuthToken`, a bearer header gives its token, and any other header is `ErrWrongTokenFormat` |
| Middleware.LowerCaseSchemeRefused | internal/middleware/auth_middleware.go:20-25 | "bearer x" is refused: the scheme is case-sensitive |
| Middleware.DoubleSpaceRefused | internal/middleware/auth_middleware.go:20-25 | "Bearer  x" is refused: two spaces give three parts |
| Middleware.BareSchemeRefused | internal/middleware/auth_middleware.go:20-25 | "Bearer" with no token is refused |
| Middleware.SpacedTokenRefused | internal/middleware/auth_middleware.go:20-25 | a token containing a space is refused |
| Middleware.EmptyTokenPasses | internal/middleware/auth_middleware.go:20-26 | "Bearer " passes the format check with an empty token, which is left to the token parser |
| Middleware.AuthMiddlewareExact | internal/middleware/auth_middleware.go:26-41 | for a bearer header, a token that does not parse is `ErrInvalidToken`, and a valid one puts a user with the claims' id and name in the context |
| Middleware.SessionRoundTrip | internal/service/auth_service.go:49-60 | a token signed for some claims and accepted by the parser authenticates the user named in those claims |
| Middleware.DigitsRoundTrip | internal/handler/auth_middleware.go:39 | the decimal digits of a natural number read back as that number |
| Middleware.ItoaRoundTrip | internal/handler/auth_middleware.go:39 | `strconv.Itoa` of any id, negative ones included, reads back as that id |
| Middleware.MiddlewaresAgree | internal/handler/auth_middleware.go:13-43 | both middlewares accept the same headers and tokens with the same errors; on success the "user_id" string reads back as the id and "username" is the name the other middleware stores |
| Api.BuyCapScenario | internal/api/unit_test.go:292-320 | buying the 250-coin cap with 1000 coins succeeds and leaves 750 and one purchase row |
| Api.BuyNoItemScenario | internal/api/unit_test.go:227-246 | an empty item is `ErrNotProvidedItem` |
| Api.BuyUnknownItemScenario | internal/api/unit_test.go:248-267 | an unknown item is `ErrItemNotFound` |
| Api.BuyInsufficientScenario | internal/api/unit_test.go:269-290 | a 300-coin hoodie with 100 coins is `ErrBuyWithInsufficientMoney` and nothing changes |
| Api.InfoScenario | internal/api/unit_test.go:158-225 | the info report of the test fixture: balance, grouped inventory and both histories |
| Api.InfoErrorScenarios | internal/api/unit_test.go:124-156 | no context user, and a user with no row, give the errors the tests expect |

## Left out

- HTTP plumbing (gin routing, JSON binding, status codes, response bodies) is not modelled. Handlers take the context user and the decoded body as `Option` values, and answer a status or the report.
- The two middlewares store the user under different context keys. `internal/handler/auth_middleware.go` sets "user_id" and "username", while the handlers read "user". The model passes the context user to the handlers as a parameter, so it does not capture which middleware is wired to which handler.
- bcrypt and JWT are parameters. Their cryptography, token expiry (one hour after issue) and the signing secret are not modelled.
- Timestamps (`CreatedAt`, `ExpiresAt`) come from the clock and are left out.
- Concurrency and isolation between simultaneous requests are not modelled. Each operation runs alone on the state.
- A database error is `DbFault`, selected by `faults`. The texts of gorm's errors are not modelled, and neither are constraint checks beyond the unique username.
- `Database.Store.Update`: the model trusts the caller's struct and does not check the unique username on `Save`. The ledger only saves rows read from the table with a new balance.
- The `merches` table is a map from name to price. Duplicate names are not represented, so `InitializeMerch` run twice is a map union rather than duplicate rows.
- SQL gives the grouped inventory and the histories in no guaranteed order. The model returns them in the order the rows were logged, and the history lemmas promise their contents with multiplicity, not their order.
- gorm's `Transaction` is modelled by its outcomes only. A failing begin or commit is a fault (`TxBegin`, `TxCommit`), and its error text is not modelled. Nested transactions, savepoints and a panic inside the closure are not modelled.
- In the service revision, `RunTransaction` runs a closure that never uses `tx`, so its writes are not rolled back. `Database.Detached` models this; see the findings.
- `message_enum.go` (success messages), the repository interfaces, the mocks, `main.go` and the integration tests are not part of this model.
- Amounts and balances are Go `int`. The model uses unbounded integers, so 64-bit overflow on huge amounts is not modelled.

## Findings

| source | as written | input that shows it | evidently intended | confidence | as-written member | corrected member |
|---|---|---|---|---|---|---|
| internal/service/transfer_service.go:48-66 | inside `RunTransaction` the sender save, the receiver save and the transfer log go through the repositories' own connection, not `tx`, so a failing later step does not undo the earlier ones, and a failing commit reports an error while every write stays | a valid transfer where the receiver's `Update` fails: the sender is debited, the receiver is not credited, and no transfer is logged | all three writes commit together or not at all, keeping the sum of balances | not executed | TransferService.SendCoinPartialDebit | TransferService.SendCoinAtomicAllOrNothing |
| internal/service/merch_service.go:45-57 | the balance save and the purchase log are not written through `tx`, so a failed log keeps the payment, and a failing commit reports an error while the payment and the purchase row stay | a purchase that the buyer can afford where `purchaseRepo.Create` fails: the balance drops by the price and no purchase row exists | the payment and the purchase row commit together or not at all | not executed | MerchService.BuyMerchPaidButNotLogged | MerchService.BuyMerchAtomicAllOrNothing |
