/**
 * The table records of the payment database: users keyed by their card id,
 * and payment log rows whose id and timestamp the database assigns.
 */
module UserModels {
  import opened Wrappers
  import Schemas

  /** A user row: the card id is the primary key. */
  datatype User = User(nfcId: string, isAdult: bool, balance: real)

  /** A partial update: None leaves the field as it is. */
  datatype UserUpdate = UserUpdate(isAdult: Option<bool>, balance: Option<real>)

  /** The update that changes nothing, which is what `UserUpdate()` builds. */
  const NoChange := UserUpdate(None, None)

  /** A point in time as the database stores it (seconds since an epoch). */
  type Timestamp = int

  /** A payment log row: a signed amount, the balance after it, and a description. */
  datatype PaymentLog = PaymentLog(
    id: Option<int>,
    nfcId: string,
    createdAt: Option<Timestamp>,
    amount: real,
    currentBalance: real,
    description: string)

  /**
   * Builds a UserCreate (the UserBase fields): the card id must not be empty,
   * `is_adult` defaults to False and the balance to 0.0.
   */
  function MakeUser(nfcId: string, isAdult: Option<bool>, balance: Option<real>): (r: Result<User, seq<Schemas.FieldError>>)
    ensures r.Success? <==> nfcId != []
    ensures r.Failure? ==> r.error == [Schemas.TooShort("nfc_id")]
    ensures r.Success? ==> r.value.nfcId == nfcId
    ensures r.Success? && isAdult.None? ==> !r.value.isAdult
    ensures r.Success? && balance.None? ==> r.value.balance == 0.0
    ensures r.Success? && isAdult.Some? ==> r.value.isAdult == isAdult.value
    ensures r.Success? && balance.Some? ==> r.value.balance == balance.value
  {
    Schemas.Checked(User(nfcId, isAdult.GetOr(false), balance.GetOr(0.0)), Schemas.NonEmpty("nfc_id", nfcId))
  }

  /** Applies the supplied fields of an update, keeping the card id and every field left out. */
  function ApplyUpdate(u: User, upd: UserUpdate): (r: User)
    ensures r.nfcId == u.nfcId
    ensures r.isAdult == if upd.isAdult.Some? then upd.isAdult.value else u.isAdult
    ensures r.balance == if upd.balance.Some? then upd.balance.value else u.balance
  {
    u.(isAdult := upd.isAdult.GetOr(u.isAdult), balance := upd.balance.GetOr(u.balance))
  }

  /** The update built with no arguments changes nothing. */
  lemma NoChangeKeeps(u: User)
    ensures ApplyUpdate(u, NoChange) == u
  {
  }

  /** A log row as the service builds it, before the database has seen it. */
  function NewPaymentLog(nfcId: string, amount: real, currentBalance: real, description: string): (log: PaymentLog)
    ensures log.id.None? && log.createdAt.None?
  {
    PaymentLog(None, nfcId, None, amount, currentBalance, description)
  }

  /**
   * Storing a log row: the database assigns the id (one past the largest
   * used) and stamps it with the current time; every other field is kept.
   */
  function StoreLog(log: PaymentLog, lastId: nat, now: Timestamp): (stored: PaymentLog)
    ensures stored.id == Some(lastId + 1) && stored.createdAt == Some(now)
    ensures stored.(id := log.id, createdAt := log.createdAt) == log
  {
    log.(id := Some(lastId + 1), createdAt := Some(now))
  }
}
