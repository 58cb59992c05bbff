/** `userServiceImpl.GetUserInfo` (internal/service/user_service.go): the
    balance, the grouped inventory and the two coin histories of one user,
    read in a fixed order. It writes nothing, so it is a function of the
    tables; `faults` names the queries the database fails. */
module UserService {
  import opened Wrappers
  import opened Enum
  import opened Model
  import opened Accounts
  import opened Purchases
  import opened Transfers
  import opened Database

  /** The four queries of the info report. */
  const InfoCalls: set<Call> := {ReadBalance, ReadInventory, ReadReceived, ReadSent}

  /** `GetUserInfo`: the user's row, then the inventory, then the received
      and the sent history; the first failing query decides the error. */
  function GetUserInfo(s: State, userID: int, faults: set<Call>): Result<InfoResponse, ErrorType>
  {
    var user := Fetch(FindByID(s.users, userID), ReadBalance in faults);
    if user.Err? then Err(ErrReceivingCoinsInfo)
    else if ReadInventory in faults then Err(ErrReceivingPurchaseHistory)
    else if ReadReceived in faults then Err(ErrReceivingTransferHistory)
    else if ReadSent in faults then Err(ErrReceivingTransferHistory)
    else
      Ok(InfoResponse(
        user.value.coins,
        GetUserPurchases(s.purchases, userID),
        CoinHistory(GetReceivedTransfers(s.transfers, s.users, userID), GetSentTransfers(s.transfers, s.users, userID))))
  }

  /** The report fails exactly when the user's row cannot be read or a query
      fails, and the first failure in the order balance, purchases,
      received, sent decides the error, whatever the underlying cause. */
  lemma GetUserInfoErrors(s: State, userID: int, faults: set<Call>)
    ensures var r := GetUserInfo(s, userID, faults);
      && (r.Err? <==> userID !in s.users || !(faults !! InfoCalls))
      && (ReadBalance in faults || userID !in s.users ==> r == Err(ErrReceivingCoinsInfo))
      && ((ReadBalance !in faults && userID in s.users && ReadInventory in faults) ==> r == Err(ErrReceivingPurchaseHistory))
      && ((ReadBalance !in faults && userID in s.users && ReadInventory !in faults && (ReadReceived in faults || ReadSent in faults))
            ==> r == Err(ErrReceivingTransferHistory))
  {
  }

  /** A report that succeeds carries the stored balance; one inventory line
      per item the user bought, whose quantity is the number of the user's
      purchases of it (so the quantities add up to the user's purchases);
      and the exact received and sent histories, each entry naming the
      other party and the amount of one logged transfer, and each occurring
      once per transfer it reports. */
  lemma GetUserInfoContents(s: State, userID: int, faults: set<Call>)
    ensures var r := GetUserInfo(s, userID, faults);
      r.Ok? ==>
        && userID in s.users && r.value.coins == s.users[userID].coins
        && Distinct(r.value.inventory) && Positive(r.value.inventory)
        && (forall item :: Quantity(r.value.inventory, item) == CountOf(s.purchases, userID, item))
        && TotalQuantity(r.value.inventory) == CountUser(s.purchases, userID)
        && (forall k :: 0 <= k < |r.value.coinHistory.received| ==>
              ReportsReceived(r.value.coinHistory.received[k], s.transfers, s.users, userID))
        && (forall j :: 0 <= j < |s.transfers| && IsReceived(s.transfers[j], s.users, userID) ==>
              ReceivedEntry(s.transfers[j], s.users) in r.value.coinHistory.received)
        && (forall k :: 0 <= k < |r.value.coinHistory.sent| ==>
              ReportsSent(r.value.coinHistory.sent[k], s.transfers, s.users, userID))
        && (forall j :: 0 <= j < |s.transfers| && IsSent(s.transfers[j], s.users, userID) ==>
              SentEntry(s.transfers[j], s.users) in r.value.coinHistory.sent)
        && (forall e :: multiset(r.value.coinHistory.received)[e] == |ReceivedIndices(s.transfers, s.users, userID, e)|)
        && (forall e :: multiset(r.value.coinHistory.sent)[e] == |SentIndices(s.transfers, s.users, userID, e)|)
  {
    InventoryCounts(s.purchases, userID);
    ReceivedExact(s.transfers, s.users, userID);
    SentExact(s.transfers, s.users, userID);
  }
}
