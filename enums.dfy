/** The error kinds of internal/enums, the revision used by the inline
    handlers of internal/api. It declares the first nineteen kinds of
    internal/enum, in the same order and with the same messages, and has no
    ErrEqualReceivers. Its kinds are modelled as the `Enum.ErrorType` values
    it declares. */
module Enums {
  import opened Enum

  /** Number of declared kinds. */
  const Count: nat := 19

  /** The kinds this revision declares. */
  predicate Declared(e: ErrorType)
  {
    e != ErrEqualReceivers
  }

  /** This revision's `errorMessages` table. */
  const ErrorMessages: map<ErrorType, string> := map[
    ErrInsufficientMoney := "недостаточно монет",
    ErrReceiverNotFound := "пользователь к переводу не нашелся",
    ErrUserNotAuthorized := "пользователь не авторизован",
    ErrWrongReqFormat := "неверный формат запроса",
    ErrCoinsInappropriateAmount := "количество монет должно быть больше нуля",
    ErrReceivingCoinsInfo := "ошибка получения информации о монетах",
    ErrInvalidToken := "неверный или просроченный токен",
    ErrNoUsernameAndPassword := "имя пользователя и пароль обязательны",
    ErrReceivingTransferHistory := "ошибка получения истории переводов",
    ErrReceivingPurchaseHistory := "ошибка получения информации о покупках",
    ErrBuyWithInsufficientMoney := "недостаточно монет для покупки",
    ErrItemNotFound := "товар не найден",
    ErrNotProvidedItem := "не указан товар для покупки",
    ErrGeneratingToken := "ошибка генерации токена",
    ErrWrongCredentials := "неверное имя пользователя или пароль",
    ErrInternalServer := "ошибка сервера",
    ErrCreatingUser := "ошибка создания пользователя",
    ErrNoAuthToken := "нет токена авторизации",
    ErrWrongTokenFormat := "неверный формат токена"
  ]

  /** `Error()` of this revision: the table lookup, "" for a missing key. */
  function Error(e: ErrorType): string
  {
    if e in ErrorMessages then ErrorMessages[e] else ""
  }

  /** The declared kinds are exactly those with ordinals 0..18, and each has
      the same ordinal and the same message as in internal/enum; the kind this
      revision lacks has no table entry. */
  lemma AgreesWithEnum(e: ErrorType)
    ensures Declared(e) <==> Ordinal(e) < Count
    ensures Declared(e) <==> e in ErrorMessages
    ensures Declared(e) ==> Error(e) == Enum.Error(e) && Error(e) != ""
    ensures !Declared(e) ==> e == ErrEqualReceivers && Error(e) == ""
  {
    if Ordinal(e) < 7 {
      FirstKindsAgree(e);
    } else if Ordinal(e) < 14 {
      MiddleKindsAgree(e);
    } else if e != ErrEqualReceivers {
      LastKindsAgree(e);
    }
  }

  /** `AgreesWithEnum` for the kinds with ordinals 0..6. */
  lemma FirstKindsAgree(e: ErrorType)
    requires Ordinal(e) < 7
    ensures Declared(e) && e in ErrorMessages
    ensures Error(e) == Enum.Error(e) && Error(e) != ""
  {
  }

  /** `AgreesWithEnum` for the kinds with ordinals 7..13. */
  lemma MiddleKindsAgree(e: ErrorType)
    requires 7 <= Ordinal(e) < 14
    ensures Declared(e) && e in ErrorMessages
    ensures Error(e) == Enum.Error(e) && Error(e) != ""
  {
  }

  /** `AgreesWithEnum` for the declared kinds with ordinals 14..18. */
  lemma LastKindsAgree(e: ErrorType)
    requires 14 <= Ordinal(e) < Count
    ensures Declared(e) && e in ErrorMessages
    ensures Error(e) == Enum.Error(e) && Error(e) != ""
  {
  }

  /** Messages of declared kinds are pairwise distinct. */
  lemma MessagesIdentifyKind(a: ErrorType, b: ErrorType)
    requires Declared(a) && Declared(b)
    ensures Error(a) == Error(b) <==> a == b
  {
    AgreesWithEnum(a);
    AgreesWithEnum(b);
    Enum.MessagesIdentifyKind(a, b);
  }
}
