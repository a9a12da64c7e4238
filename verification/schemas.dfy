/**
 * The request and response records of the payment API and the field
 * constraints Pydantic enforces when one of them is built from input.
 *
 * Building a record from raw fields either yields the record or the list of
 * fields that broke a constraint (Pydantic reports every failing field, not
 * only the first).
 */
module Schemas {
  import opened Wrappers

  /** A constraint a field broke, named by the field. */
  datatype FieldError = TooShort(field: string) | NotGreaterThanZero(field: string)

  /** UserBase, and UserCreate, which adds nothing to it. */
  datatype UserBase = UserBase(nfcId: string, name: string, isAdult: bool)

  type UserCreate = UserBase

  /** A partial update: None means the field was not supplied. */
  datatype UserUpdate = UserUpdate(name: Option<string>, isAdult: Option<bool>, balance: Option<real>)

  /** UserBase plus the row id and the balance. */
  datatype UserResponse = UserResponse(nfcId: string, name: string, isAdult: bool, id: int, balance: real)

  datatype BookCocktailRequest = BookCocktailRequest(nfcId: string, amount: real, isAlcoholic: bool)

  /** A signed balance change: a negative amount subtracts. */
  datatype BalanceUpdateRequest = BalanceUpdateRequest(nfcId: string, amount: real)

  predicate ValidUserBase(u: UserBase) {
    |u.nfcId| >= 1 && |u.name| >= 1
  }

  predicate ValidUserUpdate(u: UserUpdate) {
    u.name.Some? ==> |u.name.value| >= 1
  }

  predicate ValidBookCocktail(r: BookCocktailRequest) {
    |r.nfcId| >= 1 && r.amount > 0.0
  }

  predicate ValidBalanceUpdate(r: BalanceUpdateRequest) {
    |r.nfcId| >= 1
  }

  /** The errors a `min_length=1` string field raises. */
  function NonEmpty(field: string, value: string): seq<FieldError> {
    if |value| >= 1 then [] else [TooShort(field)]
  }

  /** Wraps a record and the errors collected while building it. */
  function Checked<T>(value: T, errors: seq<FieldError>): Result<T, seq<FieldError>> {
    if errors == [] then Success(value) else Failure(errors)
  }

  /** Builds a UserBase / UserCreate; `is_adult` defaults to False when not given. */
  function MakeUserBase(nfcId: string, name: string, isAdult: Option<bool>): (r: Result<UserBase, seq<FieldError>>)
    ensures r.Success? <==> nfcId != [] && name != []
    ensures r.Success? ==> r.value == UserBase(nfcId, name, isAdult.GetOr(false)) && ValidUserBase(r.value)
    ensures r.Failure? ==> (TooShort("nfc_id") in r.error <==> nfcId == []) && (TooShort("name") in r.error <==> name == [])
    ensures isAdult.None? && r.Success? ==> !r.value.isAdult
  {
    Checked(UserBase(nfcId, name, isAdult.GetOr(false)), NonEmpty("nfc_id", nfcId) + NonEmpty("name", name))
  }

  /** Builds a UserUpdate: every field may be left out; a supplied name must not be empty. */
  function MakeUserUpdate(name: Option<string>, isAdult: Option<bool>, balance: Option<real>): (r: Result<UserUpdate, seq<FieldError>>)
    ensures r.Success? <==> (name.Some? ==> name.value != [])
    ensures r.Success? ==> r.value == UserUpdate(name, isAdult, balance) && ValidUserUpdate(r.value)
    ensures r.Failure? ==> r.error == [TooShort("name")]
  {
    var errors := if name.Some? then NonEmpty("name", name.value) else [];
    Checked(UserUpdate(name, isAdult, balance), errors)
  }

  /** Builds a booking request: the card id must not be empty and the amount must be above zero. */
  function MakeBookCocktail(nfcId: string, amount: real, isAlcoholic: bool): (r: Result<BookCocktailRequest, seq<FieldError>>)
    ensures r.Success? <==> nfcId != [] && amount > 0.0
    ensures r.Success? ==> r.value == BookCocktailRequest(nfcId, amount, isAlcoholic) && ValidBookCocktail(r.value)
    ensures r.Failure? ==> (TooShort("nfc_id") in r.error <==> nfcId == []) && (NotGreaterThanZero("amount") in r.error <==> amount <= 0.0)
  {
    var amountErrors := if amount > 0.0 then [] else [NotGreaterThanZero("amount")];
    Checked(BookCocktailRequest(nfcId, amount, isAlcoholic), NonEmpty("nfc_id", nfcId) + amountErrors)
  }

  /** Builds a balance change: only the card id is constrained; the amount may have either sign. */
  function MakeBalanceUpdate(nfcId: string, amount: real): (r: Result<BalanceUpdateRequest, seq<FieldError>>)
    ensures r.Success? <==> nfcId != []
    ensures r.Success? ==> r.value == BalanceUpdateRequest(nfcId, amount) && ValidBalanceUpdate(r.value)
  {
    Checked(BalanceUpdateRequest(nfcId, amount), NonEmpty("nfc_id", nfcId))
  }

  /** Every valid record is accepted as it is: building it from its own fields gives it back. */
  lemma ValidRecordsRebuild(u: UserBase, upd: UserUpdate, book: BookCocktailRequest, change: BalanceUpdateRequest)
    ensures ValidUserBase(u) ==> MakeUserBase(u.nfcId, u.name, Some(u.isAdult)) == Success(u)
    ensures ValidUserUpdate(upd) ==> MakeUserUpdate(upd.name, upd.isAdult, upd.balance) == Success(upd)
    ensures ValidBookCocktail(book) ==> MakeBookCocktail(book.nfcId, book.amount, book.isAlcoholic) == Success(book)
    ensures ValidBalanceUpdate(change) ==> MakeBalanceUpdate(change.nfcId, change.amount) == Success(change)
  {
  }

  /** A negative amount is a valid balance change, while a booking of it is refused. */
  lemma NegativeAmounts(nfcId: string, amount: real)
    requires nfcId != [] && amount < 0.0
    ensures MakeBalanceUpdate(nfcId, amount).Success?
    ensures MakeBookCocktail(nfcId, amount, false) == Failure([NotGreaterThanZero("amount")])
  {
    assert NonEmpty("nfc_id", nfcId) + [NotGreaterThanZero("amount")] == [NotGreaterThanZero("amount")];
  }
}
