/** The error kinds of internal/enum: an integer enumeration declared with
    `iota` and a constant map from each kind to its user-facing message,
    looked up by `Error()`. This revision has twenty kinds. */
module Enum {
  import opened Wrappers

  datatype ErrorType =
    | ErrInsufficientMoney
    | ErrReceiverNotFound
    | ErrUserNotAuthorized
    | ErrWrongReqFormat
    | ErrCoinsInappropriateAmount
    | ErrReceivingCoinsInfo
    | ErrInvalidToken
    | ErrNoUsernameAndPassword
    | ErrReceivingTransferHistory
    | ErrReceivingPurchaseHistory
    | ErrBuyWithInsufficientMoney
    | ErrItemNotFound
    | ErrNotProvidedItem
    | ErrGeneratingToken
    | ErrWrongCredentials
    | ErrInternalServer
    | ErrCreatingUser
    | ErrNoAuthToken
    | ErrWrongTokenFormat
    | ErrEqualReceivers

  /** Number of declared kinds. */
  const Count: nat := 20

  /** The integer value `iota` gives each kind: its position in the declaration. */
  function Ordinal(e: ErrorType): nat
  {
    match e
    case ErrInsufficientMoney => 0
    case ErrReceiverNotFound => 1
    case ErrUserNotAuthorized => 2
    case ErrWrongReqFormat => 3
    case ErrCoinsInappropriateAmount => 4
    case ErrReceivingCoinsInfo => 5
    case ErrInvalidToken => 6
    case ErrNoUsernameAndPassword => 7
    case ErrReceivingTransferHistory => 8
    case ErrReceivingPurchaseHistory => 9
    case ErrBuyWithInsufficientMoney => 10
    case ErrItemNotFound => 11
    case ErrNotProvidedItem => 12
    case ErrGeneratingToken => 13
    case ErrWrongCredentials => 14
    case ErrInternalServer => 15
    case ErrCreatingUser => 16
    case ErrNoAuthToken => 17
    case ErrWrongTokenFormat => 18
    case ErrEqualReceivers => 19
  }

  /** The conversion `ErrorType(n)` read back as a declared kind, if `n` names one. */
  function FromOrdinal(n: int): Option<ErrorType>
  {
    if n == 0 then Some(ErrInsufficientMoney)
    else if n == 1 then Some(ErrReceiverNotFound)
    else if n == 2 then Some(ErrUserNotAuthorized)
    else if n == 3 then Some(ErrWrongReqFormat)
    else if n == 4 then Some(ErrCoinsInappropriateAmount)
    else if n == 5 then Some(ErrReceivingCoinsInfo)
    else if n == 6 then Some(ErrInvalidToken)
    else if n == 7 then Some(ErrNoUsernameAndPassword)
    else if n == 8 then Some(ErrReceivingTransferHistory)
    else if n == 9 then Some(ErrReceivingPurchaseHistory)
    else if n == 10 then Some(ErrBuyWithInsufficientMoney)
    else if n == 11 then Some(ErrItemNotFound)
    else if n == 12 then Some(ErrNotProvidedItem)
    else if n == 13 then Some(ErrGeneratingToken)
    else if n == 14 then Some(ErrWrongCredentials)
    else if n == 15 then Some(ErrInternalServer)
    else if n == 16 then Some(ErrCreatingUser)
    else if n == 17 then Some(ErrNoAuthToken)
    else if n == 18 then Some(ErrWrongTokenFormat)
    else if n == 19 then Some(ErrEqualReceivers)
    else None
  }

  /** The `errorMessages` table. */
  const ErrorMessages: map<ErrorType, string> := map[
    ErrInsufficientMoney := "недостаточно монет",
    ErrReceiverNotFound := "пользователь к переводу не нашелся",
    ErrUserNotAuthorized := "пользователь не авторизован",
    ErrWrongReqFormat := "неверный формат запроса",
    ErrCoinsInappropriateAmount := "количество монет должно быть больше нуля",
    ErrReceivingCoinsInfo := "ошибка получения информации о монетах",
    ErrInvalidToken := "неверный или просроченный токен",
    ErrNoUsernameAndPassword := "имя пользователя и пароль обязательны",
    ErrReceivingTransferHistory := "ошибка получения истории переводов",
    ErrReceivingPurchaseHistory := "ошибка получения информации о покупках",
    ErrBuyWithInsufficientMoney := "недостаточно монет для покупки",
    ErrItemNotFound := "товар не найден",
    ErrNotProvidedItem := "не указан товар для покупки",
    ErrGeneratingToken := "ошибка генерации токена",
    ErrWrongCredentials := "неверное имя пользователя или пароль",
    ErrInternalServer := "ошибка сервера",
    ErrCreatingUser := "ошибка создания пользователя",
    ErrNoAuthToken := "нет токена авторизации",
    ErrWrongTokenFormat := "неверный формат токена",
    ErrEqualReceivers := "получатели должны отличаться друг от друга"
  ]

  /** `Error()`: a Go map lookup, which yields "" for a key the table lacks. */
  function Error(e: ErrorType): string
  {
    if e in ErrorMessages then ErrorMessages[e] else ""
  }

  /** Ordinals run 0..19 in declaration order: converting a kind to its
      integer and back gives the kind, and every integer in range names one. */
  lemma OrdinalRoundTrip(e: ErrorType, n: int)
    ensures Ordinal(e) < Count && FromOrdinal(Ordinal(e)) == Some(e)
    ensures FromOrdinal(n).Some? <==> 0 <= n < Count
    ensures FromOrdinal(n).Some? ==> Ordinal(FromOrdinal(n).value) == n
  {
  }

  /** Every declared kind has a non-empty entry in the table. */
  lemma EveryKindHasMessage(e: ErrorType)
    ensures e in ErrorMessages && Error(e) == ErrorMessages[e] && Error(e) != ""
  {
  }

  /** The kind a message names, read back from the text a handler sends
      (by length first, then by text). */
  function KindOfMessage(m: string): Option<ErrorType>
  {
    if |m| == 14 then (if m == "ошибка сервера" then Some(ErrInternalServer) else None)
    else if |m| == 15 then (if m == "товар не найден" then Some(ErrItemNotFound) else None)
    else if |m| == 18 then (if m == "недостаточно монет" then Some(ErrInsufficientMoney) else None)
    else if |m| == 22 then (if m == "нет токена авторизации" then Some(ErrNoAuthToken) else if m == "неверный формат токена" then Some(ErrWrongTokenFormat) else None)
    else if |m| == 23 then (if m == "неверный формат запроса" then Some(ErrWrongReqFormat) else if m == "ошибка генерации токена" then Some(ErrGeneratingToken) else None)
    else if |m| == 27 then (if m == "пользователь не авторизован" then Some(ErrUserNotAuthorized) else if m == "не указан товар для покупки" then Some(ErrNotProvidedItem) else None)
    else if |m| == 28 then (if m == "ошибка создания пользователя" then Some(ErrCreatingUser) else None)
    else if |m| == 30 then (if m == "недостаточно монет для покупки" then Some(ErrBuyWithInsufficientMoney) else None)
    else if |m| == 31 then (if m == "неверный или просроченный токен" then Some(ErrInvalidToken) else None)
    else if |m| == 34 then (if m == "пользователь к переводу не нашелся" then Some(ErrReceiverNotFound) else if m == "ошибка получения истории переводов" then Some(ErrReceivingTransferHistory) else None)
    else if |m| == 36 then (if m == "неверное имя пользователя или пароль" then Some(ErrWrongCredentials) else None)
    else if |m| == 37 then (if m == "ошибка получения информации о монетах" then Some(ErrReceivingCoinsInfo) else if m == "имя пользователя и пароль обязательны" then Some(ErrNoUsernameAndPassword) else None)
    else if |m| == 38 then (if m == "ошибка получения информации о покупках" then Some(ErrReceivingPurchaseHistory) else None)
    else if |m| == 40 then (if m == "количество монет должно быть больше нуля" then Some(ErrCoinsInappropriateAmount) else None)
    else if |m| == 42 then (if m == "получатели должны отличаться друг от друга" then Some(ErrEqualReceivers) else None)
    else None
  }

  /** Every kind's message names that kind. */
  lemma MessageNamesKind(e: ErrorType)
    ensures KindOfMessage(Error(e)) == Some(e)
  {
    if Ordinal(e) < 10 {
      LowerMessagesNameKinds(e);
    } else {
      UpperMessagesNameKinds(e);
    }
  }

  /** The kinds with ordinals 0 to 9. */
  lemma LowerMessagesNameKinds(e: ErrorType)
    requires Ordinal(e) < 10
    ensures KindOfMessage(Error(e)) == Some(e)
  {
  }

  /** The kinds with ordinals 10 to 19. */
  lemma UpperMessagesNameKinds(e: ErrorType)
    requires Ordinal(e) >= 10
    ensures KindOfMessage(Error(e)) == Some(e)
  {
  }

  /** No two kinds share a message, so the text a handler sends back names
      the kind that caused it. */
  lemma MessagesIdentifyKind(a: ErrorType, b: ErrorType)
    ensures Error(a) == Error(b) <==> a == b
  {
    MessageNamesKind(a);
    MessageNamesKind(b);
  }
}
