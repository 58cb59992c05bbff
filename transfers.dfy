/** The `coin_transfers` log and the two history queries of the transfer
    repository (internal/repository/coin_transfer_repository.go; the other
    revision, internal/repository/coinTransferRepository.go, has the same
    code). */
module Transfers {
  import opened Model

  /** `GetReceivedTransfers`: the transfers whose `to_user_id` is the user,
      inner-joined with `users` on `from_user_id` to name the sender. Rows
      come in log order; the query itself promises no order. */
  function GetReceivedTransfers(transfers: seq<CoinTransfer>, users: map<int, User>, userId: int): seq<ReceivedCoinHistory>
  {
    if transfers == [] then []
    else
      var t := transfers[|transfers| - 1];
      GetReceivedTransfers(transfers[..|transfers| - 1], users, userId)
        + (if t.toUserId == userId && t.fromUserId in users
           then [ReceivedCoinHistory(users[t.fromUserId].username, t.amount)] else [])
  }

  /** `GetSentTransfers`: the transfers whose `from_user_id` is the user,
      inner-joined with `users` on `to_user_id` to name the receiver. */
  function GetSentTransfers(transfers: seq<CoinTransfer>, users: map<int, User>, userId: int): seq<SentCoinHistory>
  {
    if transfers == [] then []
    else
      var t := transfers[|transfers| - 1];
      GetSentTransfers(transfers[..|transfers| - 1], users, userId)
        + (if t.fromUserId == userId && t.toUserId in users
           then [SentCoinHistory(users[t.toUserId].username, t.amount)] else [])
  }

  /** A transfer the received query reports to `userId`: addressed to the
      user, and its sender row exists for the join. */
  ghost predicate IsReceived(t: CoinTransfer, users: map<int, User>, userId: int)
  {
    t.toUserId == userId && t.fromUserId in users
  }

  /** A transfer the sent query reports to `userId`. */
  ghost predicate IsSent(t: CoinTransfer, users: map<int, User>, userId: int)
  {
    t.fromUserId == userId && t.toUserId in users
  }

  /** How the received query reports a transfer: the sender's username and the amount. */
  ghost function ReceivedEntry(t: CoinTransfer, users: map<int, User>): ReceivedCoinHistory
    requires t.fromUserId in users
  {
    ReceivedCoinHistory(users[t.fromUserId].username, t.amount)
  }

  /** How the sent query reports a transfer: the receiver's username and the amount. */
  ghost function SentEntry(t: CoinTransfer, users: map<int, User>): SentCoinHistory
    requires t.toUserId in users
  {
    SentCoinHistory(users[t.toUserId].username, t.amount)
  }

  /** Two tables that hold the same ids with the same usernames. */
  ghost predicate SameUsernames(a: map<int, User>, b: map<int, User>)
  {
    a.Keys == b.Keys && forall id :: id in a ==> a[id].username == b[id].username
  }

  /** Where a received entry comes from: the index of the transfer it reports. */
  lemma {:induction false} ReceivedOrigin(transfers: seq<CoinTransfer>, users: map<int, User>, userId: int, k: int)
    returns (j: int)
    requires 0 <= k < |GetReceivedTransfers(transfers, users, userId)|
    ensures 0 <= j < |transfers| && IsReceived(transfers[j], users, userId)
    ensures GetReceivedTransfers(transfers, users, userId)[k] == ReceivedEntry(transfers[j], users)
  {
    var init := transfers[..|transfers| - 1];
    var r0 := GetReceivedTransfers(init, users, userId);
    if k < |r0| {
      j := ReceivedOrigin(init, users, userId, k);
    } else {
      j := |transfers| - 1;
    }
  }

  /** Where a reported transfer appears in the received history. */
  lemma {:induction false} ReceivedPosition(transfers: seq<CoinTransfer>, users: map<int, User>, userId: int, j: int)
    returns (k: int)
    requires 0 <= j < |transfers| && IsReceived(transfers[j], users, userId)
    ensures 0 <= k < |GetReceivedTransfers(transfers, users, userId)|
    ensures GetReceivedTransfers(transfers, users, userId)[k] == ReceivedEntry(transfers[j], users)
  {
    var init := transfers[..|transfers| - 1];
    if j < |init| {
      k := ReceivedPosition(init, users, userId, j);
    } else {
      k := |GetReceivedTransfers(init, users, userId)|;
    }
  }

  /** The positions in the log of the transfers the received query reports to
      `userId` as the entry `e`. */
  ghost function ReceivedIndices(transfers: seq<CoinTransfer>, users: map<int, User>, userId: int, e: ReceivedCoinHistory): set<int>
  {
    set j | 0 <= j < |transfers| && IsReceived(transfers[j], users, userId) && ReceivedEntry(transfers[j], users) == e
  }

  /** One more logged transfer adds its own position to the positions of
      the entry it is reported as, and leaves the others as they were. */
  lemma ReceivedIndicesStep(transfers: seq<CoinTransfer>, users: map<int, User>, userId: int, e: ReceivedCoinHistory)
    requires transfers != []
    ensures var n := |transfers| - 1;
      ReceivedIndices(transfers, users, userId, e)
        == ReceivedIndices(transfers[..n], users, userId, e)
           + (if IsReceived(transfers[n], users, userId) && ReceivedEntry(transfers[n], users) == e then {n} else {})
  {
    var n := |transfers| - 1;
    forall j | 0 <= j < n ensures transfers[..n][j] == transfers[j] {
    }
  }

  /** The received history holds each entry exactly as many times as the log
      holds transfers it reports as that entry: one row per joined
      transfer, in no promised order. */
  lemma {:induction false} ReceivedCounts(transfers: seq<CoinTransfer>, users: map<int, User>, userId: int)
    ensures forall e :: multiset(GetReceivedTransfers(transfers, users, userId))[e] == |ReceivedIndices(transfers, users, userId, e)|
  {
    if transfers == [] {
      forall e ensures multiset(GetReceivedTransfers(transfers, users, userId))[e] == |ReceivedIndices(transfers, users, userId, e)| {
        assert ReceivedIndices(transfers, users, userId, e) == {};
      }
    } else {
      var n := |transfers| - 1;
      var init := transfers[..n];
      ReceivedCounts(init, users, userId);
      forall e ensures multiset(GetReceivedTransfers(transfers, users, userId))[e] == |ReceivedIndices(transfers, users, userId, e)| {
        ReceivedIndicesStep(transfers, users, userId, e);
        var before := ReceivedIndices(init, users, userId, e);
        assert n !in before;
        if IsReceived(transfers[n], users, userId) && ReceivedEntry(transfers[n], users) == e {
          assert |before + {n}| == |before| + 1;
        }
      }
    }
  }

  /** An entry of the received history that reports some transfer of the log. */
  ghost predicate ReportsReceived(e: ReceivedCoinHistory, transfers: seq<CoinTransfer>, users: map<int, User>, userId: int)
  {
    exists j :: 0 <= j < |transfers| && IsReceived(transfers[j], users, userId) && e == ReceivedEntry(transfers[j], users)
  }

  /** The received history is exact: every entry is a transfer to the user
      whose sender row exists, reported with the sender's username and the
      unchanged amount, every such transfer is reported, and each entry
      occurs once per transfer it reports. A transfer whose sender row is
      missing is dropped by the join. */
  lemma {:induction false} ReceivedExact(transfers: seq<CoinTransfer>, users: map<int, User>, userId: int)
    ensures forall k :: 0 <= k < |GetReceivedTransfers(transfers, users, userId)| ==>
              ReportsReceived(GetReceivedTransfers(transfers, users, userId)[k], transfers, users, userId)
    ensures forall j :: 0 <= j < |transfers| && IsReceived(transfers[j], users, userId) ==>
              ReceivedEntry(transfers[j], users) in GetReceivedTransfers(transfers, users, userId)
    ensures forall e :: multiset(GetReceivedTransfers(transfers, users, userId))[e] == |ReceivedIndices(transfers, users, userId, e)|
  {
    ReceivedCounts(transfers, users, userId);
    var r := GetReceivedTransfers(transfers, users, userId);
    forall k | 0 <= k < |r|
      ensures ReportsReceived(r[k], transfers, users, userId)
    {
      var j := ReceivedOrigin(transfers, users, userId, k);
    }
    forall j | 0 <= j < |transfers| && IsReceived(transfers[j], users, userId)
      ensures ReceivedEntry(transfers[j], users) in r
    {
      var k := ReceivedPosition(transfers, users, userId, j);
      assert r[k] == ReceivedEntry(transfers[j], users);
    }
  }

  /** Where a sent entry comes from: the index of the transfer it reports. */
  lemma {:induction false} SentOrigin(transfers: seq<CoinTransfer>, users: map<int, User>, userId: int, k: int)
    returns (j: int)
    requires 0 <= k < |GetSentTransfers(transfers, users, userId)|
    ensures 0 <= j < |transfers| && IsSent(transfers[j], users, userId)
    ensures GetSentTransfers(transfers, users, userId)[k] == SentEntry(transfers[j], users)
  {
    var init := transfers[..|transfers| - 1];
    var r0 := GetSentTransfers(init, users, userId);
    if k < |r0| {
      j := SentOrigin(init, users, userId, k);
    } else {
      j := |transfers| - 1;
    }
  }

  /** Where a reported transfer appears in the sent history. */
  lemma {:induction false} SentPosition(transfers: seq<CoinTransfer>, users: map<int, User>, userId: int, j: int)
    returns (k: int)
    requires 0 <= j < |transfers| && IsSent(transfers[j], users, userId)
    ensures 0 <= k < |GetSentTransfers(transfers, users, userId)|
    ensures GetSentTransfers(transfers, users, userId)[k] == SentEntry(transfers[j], users)
  {
    var init := transfers[..|transfers| - 1];
    if j < |init| {
      k := SentPosition(init, users, userId, j);
    } else {
      k := |GetSentTransfers(init, users, userId)|;
    }
  }

  /** The positions in the log of the transfers the sent query reports to
      `userId` as the entry `e`. */
  ghost function SentIndices(transfers: seq<CoinTransfer>, users: map<int, User>, userId: int, e: SentCoinHistory): set<int>
  {
    set j | 0 <= j < |transfers| && IsSent(transfers[j], users, userId) && SentEntry(transfers[j], users) == e
  }

  /** One more logged transfer adds its own position to the positions of
      the entry it is reported as, and leaves the others as they were. */
  lemma SentIndicesStep(transfers: seq<CoinTransfer>, users: map<int, User>, userId: int, e: SentCoinHistory)
    requires transfers != []
    ensures var n := |transfers| - 1;
      SentIndices(transfers, users, userId, e)
        == SentIndices(transfers[..n], users, userId, e)
           + (if IsSent(transfers[n], users, userId) && SentEntry(transfers[n], users) == e then {n} else {})
  {
    var n := |transfers| - 1;
    forall j | 0 <= j < n ensures transfers[..n][j] == transfers[j] {
    }
  }

  /** The sent history holds each entry exactly as many times as the log
      holds transfers it reports as that entry: one row per joined
      transfer, in no promised order. */
  lemma {:induction false} SentCounts(transfers: seq<CoinTransfer>, users: map<int, User>, userId: int)
    ensures forall e :: multiset(GetSentTransfers(transfers, users, userId))[e] == |SentIndices(transfers, users, userId, e)|
  {
    if transfers == [] {
      forall e ensures multiset(GetSentTransfers(transfers, users, userId))[e] == |SentIndices(transfers, users, userId, e)| {
        assert SentIndices(transfers, users, userId, e) == {};
      }
    } else {
      var n := |transfers| - 1;
      var init := transfers[..n];
      SentCounts(init, users, userId);
      forall e ensures multiset(GetSentTransfers(transfers, users, userId))[e] == |SentIndices(transfers, users, userId, e)| {
        SentIndicesStep(transfers, users, userId, e);
        var before := SentIndices(init, users, userId, e);
        assert n !in before;
        if IsSent(transfers[n], users, userId) && SentEntry(transfers[n], users) == e {
          assert |before + {n}| == |before| + 1;
        }
      }
    }
  }

  /** An entry of the sent history that reports some transfer of the log. */
  ghost predicate ReportsSent(e: SentCoinHistory, transfers: seq<CoinTransfer>, users: map<int, User>, userId: int)
  {
    exists j :: 0 <= j < |transfers| && IsSent(transfers[j], users, userId) && e == SentEntry(transfers[j], users)
  }

  /** The sent history is exact, as the received one with the roles swapped. */
  lemma {:induction false} SentExact(transfers: seq<CoinTransfer>, users: map<int, User>, userId: int)
    ensures forall k :: 0 <= k < |GetSentTransfers(transfers, users, userId)| ==>
              ReportsSent(GetSentTransfers(transfers, users, userId)[k], transfers, users, userId)
    ensures forall j :: 0 <= j < |transfers| && IsSent(transfers[j], users, userId) ==>
              SentEntry(transfers[j], users) in GetSentTransfers(transfers, users, userId)
    ensures forall e :: multiset(GetSentTransfers(transfers, users, userId))[e] == |SentIndices(transfers, users, userId, e)|
  {
    SentCounts(transfers, users, userId);
    var r := GetSentTransfers(transfers, users, userId);
    forall k | 0 <= k < |r|
      ensures ReportsSent(r[k], transfers, users, userId)
    {
      var j := SentOrigin(transfers, users, userId, k);
    }
    forall j | 0 <= j < |transfers| && IsSent(transfers[j], users, userId)
      ensures SentEntry(transfers[j], users) in r
    {
      var k := SentPosition(transfers, users, userId, j);
      assert r[k] == SentEntry(transfers[j], users);
    }
  }

  /** The histories depend on the users table only through its usernames, so
      balance changes leave them as they were. */
  lemma {:induction false} HistoriesIgnoreBalances(transfers: seq<CoinTransfer>, a: map<int, User>, b: map<int, User>, userId: int)
    requires SameUsernames(a, b)
    ensures GetReceivedTransfers(transfers, a, userId) == GetReceivedTransfers(transfers, b, userId)
    ensures GetSentTransfers(transfers, a, userId) == GetSentTransfers(transfers, b, userId)
  {
    if transfers != [] {
      HistoriesIgnoreBalances(transfers[..|transfers| - 1], a, b, userId);
    }
  }

  /** Logging one transfer adds exactly one entry, at the end, to its
      receiver's received history (naming the sender) and to its sender's
      sent history (naming the receiver), when both rows exist, and leaves
      every other history as it was. */
  lemma AppendTransferHistories(transfers: seq<CoinTransfer>, users: map<int, User>, t: CoinTransfer, userId: int)
    requires t.fromUserId in users && t.toUserId in users
    ensures GetReceivedTransfers(transfers + [t], users, userId)
            == GetReceivedTransfers(transfers, users, userId)
               + (if t.toUserId == userId then [ReceivedCoinHistory(users[t.fromUserId].username, t.amount)] else [])
    ensures GetSentTransfers(transfers + [t], users, userId)
            == GetSentTransfers(transfers, users, userId)
               + (if t.fromUserId == userId then [SentCoinHistory(users[t.toUserId].username, t.amount)] else [])
  {
    assert (transfers + [t])[..|transfers|] == transfers;
  }
}
