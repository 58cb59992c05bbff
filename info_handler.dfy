/** `HandleInfo` of the inline-handler revision. internal/handler/info_handler.go
    and internal/api/info_handler.go hold the same code: the four queries of
    `GetUserInfo`, written out in the handler against `db`. It writes
    nothing. */
module InfoHandler {
  import opened Wrappers
  import opened Enum
  import opened Model
  import opened Accounts
  import opened Purchases
  import opened Transfers
  import opened Database
  import UserService

  /** `HandleInfo`: the balance by primary key, the grouped purchases, the
      received and the sent transfers of the context user. */
  function HandleInfo(s: State, ctxUser: Option<User>, faults: set<Call>): (r: Result<InfoResponse, ErrorType>)
    ensures ctxUser.None? ==> r == Err(ErrUserNotAuthorized)
    ensures ctxUser.Some? && ctxUser.value.id !in s.users ==> r == Err(ErrReceivingCoinsInfo)
    ensures r.Ok? ==> ctxUser.Some? && ctxUser.value.id in s.users && r.value.coins == s.users[ctxUser.value.id].coins
  {
    if ctxUser.None? then Err(ErrUserNotAuthorized)
    else
      var id := ctxUser.value.id;
      if ReadBalance in faults || id !in s.users then Err(ErrReceivingCoinsInfo)
      else
        var coins := s.users[id].coins;
        if ReadInventory in faults then Err(ErrReceivingPurchaseHistory)
        else
          var inventory := GetUserPurchases(s.purchases, id);
          if ReadReceived in faults then Err(ErrReceivingTransferHistory)
          else
            var received := GetReceivedTransfers(s.transfers, s.users, id);
            if ReadSent in faults then Err(ErrReceivingTransferHistory)
            else
              var sent := GetSentTransfers(s.transfers, s.users, id);
              Ok(InfoResponse(coins, inventory, CoinHistory(received, sent)))
  }

  /** For an authenticated user the handler answers exactly what the
      service revision's `GetUserInfo` answers for the user's id, errors
      included; so the report has the contents `GetUserInfoContents` states. */
  lemma HandleInfoAgreesWithService(s: State, u: User, faults: set<Call>)
    ensures HandleInfo(s, Some(u), faults) == UserService.GetUserInfo(s, u.id, faults)
  {
  }
}
