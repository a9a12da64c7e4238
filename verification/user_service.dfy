/**
 * The user service: one method per service function, each taking the
 * database session, checking before it writes, and raising (here: returning
 * a Failure) before any change to the table.
 *
 * Every method is specified by the matching function of the Ledger module,
 * whose own lemmas state what the operation promises.
 */
module UserService {
  import opened Wrappers
  import Ledger
  import Schemas

  /** The database session, reduced to the users table it reads and writes. */
  class Session {
    var users: Ledger.Table

    /** The card id is the primary key: no two rows share one. */
    predicate Valid()
      reads this
    {
      Ledger.UniqueIds(users)
    }

    constructor (users: Ledger.Table)
      requires Ledger.UniqueIds(users)
      ensures Valid() && this.users == users
    {
      this.users := users;
    }
  }

  /** What a call answers: the row it returns, or the error it raises. */
  function Reply(c: Ledger.Change): Result<Ledger.UserRow, Ledger.ServiceError> {
    match c
    case Success((_, row)) => Success(row)
    case Failure(e) => Failure(e)
  }

  /** create_user */
  method CreateUser(db: Session, user: Schemas.UserCreate) returns (result: Result<Ledger.UserRow, Ledger.ServiceError>)
    requires db.Valid()
    modifies db
    ensures db.Valid()
    ensures result == Reply(Ledger.CreateUser(old(db.users), user))
    ensures db.users == Ledger.After(old(db.users), Ledger.CreateUser(old(db.users), user))
    ensures result.Failure? ==> db.users == old(db.users)
  {
    var existing := Ledger.GetUserByNfc(db.users, user.nfcId);
    if existing.Some? {
      return Failure(Ledger.AlreadyExists);
    }
    var dbUser := Ledger.UserRow(user.nfcId, user.name, user.isAdult, 0.0);
    Ledger.CreateUserSpec(db.users, user, user.nfcId);
    db.users := db.users + [dbUser];
    result := Success(dbUser);
  }

  /** update_user: overwrites, one by one, the fields the update supplies. */
  method UpdateUser(db: Session, nfcId: string, update: Schemas.UserUpdate) returns (result: Result<Ledger.UserRow, Ledger.ServiceError>)
    requires db.Valid()
    modifies db
    ensures db.Valid()
    ensures result == Reply(Ledger.UpdateUser(old(db.users), nfcId, update))
    ensures db.users == Ledger.After(old(db.users), Ledger.UpdateUser(old(db.users), nfcId, update))
    ensures result.Failure? ==> db.users == old(db.users)
  {
    var found := Ledger.Find(db.users, nfcId);
    if found.None? {
      return Failure(Ledger.NotFound);
    }
    var i := found.value;
    var dbUser := db.users[i];
    if update.name.Some? {
      dbUser := dbUser.(name := update.name.value);
    }
    if update.isAdult.Some? {
      dbUser := dbUser.(isAdult := update.isAdult.value);
    }
    if update.balance.Some? {
      dbUser := dbUser.(balance := update.balance.value);
    }
    Ledger.UpdateUserSpec(db.users, nfcId, update, nfcId);
    db.users := db.users[i := dbUser];
    result := Success(dbUser);
  }

  /** delete_user */
  method DeleteUser(db: Session, nfcId: string) returns (result: Result<(), Ledger.ServiceError>)
    requires db.Valid()
    modifies db
    ensures db.Valid()
    ensures match Ledger.DeleteUser(old(db.users), nfcId)
      case Success(t) => result == Success(()) && db.users == t
      case Failure(e) => result == Failure(e) && db.users == old(db.users)
  {
    var found := Ledger.Find(db.users, nfcId);
    if found.None? {
      return Failure(Ledger.NotFound);
    }
    var i := found.value;
    Ledger.DeleteUserSpec(db.users, nfcId, nfcId);
    db.users := db.users[..i] + db.users[i + 1..];
    result := Success(());
  }

  /** update_balance, with the floor `MIN_BALANCE` passed in. */
  method UpdateBalance(db: Session, nfcId: string, amount: real, minBalance: real) returns (result: Result<Ledger.UserRow, Ledger.ServiceError>)
    requires db.Valid()
    modifies db
    ensures db.Valid()
    ensures result == Reply(Ledger.UpdateBalance(old(db.users), nfcId, amount, minBalance))
    ensures db.users == Ledger.After(old(db.users), Ledger.UpdateBalance(old(db.users), nfcId, amount, minBalance))
    ensures result.Failure? ==> db.users == old(db.users)
    ensures result.Success? ==> result.value.balance >= minBalance
  {
    var found := Ledger.Find(db.users, nfcId);
    if found.None? {
      return Failure(Ledger.NotFound);
    }
    var i := found.value;
    var dbUser := db.users[i];
    var newBalance := dbUser.balance + amount;
    if newBalance < minBalance {
      return Failure(Ledger.BelowMinimum);
    }
    dbUser := dbUser.(balance := newBalance);
    Ledger.UpdateBalanceSpec(db.users, nfcId, amount, minBalance, nfcId);
    db.users := db.users[i := dbUser];
    result := Success(dbUser);
  }

  /** book_cocktail */
  method BookCocktail(db: Session, nfcId: string, amount: real, isAlcoholic: bool) returns (result: Result<Ledger.UserRow, Ledger.ServiceError>)
    requires db.Valid()
    modifies db
    ensures db.Valid()
    ensures result == Reply(Ledger.BookCocktail(old(db.users), nfcId, amount, isAlcoholic))
    ensures db.users == Ledger.After(old(db.users), Ledger.BookCocktail(old(db.users), nfcId, amount, isAlcoholic))
    ensures result.Failure? ==> db.users == old(db.users)
    ensures result.Success? ==> result.value.balance >= 0.0
  {
    var found := Ledger.Find(db.users, nfcId);
    if found.None? {
      return Failure(Ledger.NotFound);
    }
    var i := found.value;
    var dbUser := db.users[i];
    if isAlcoholic && !dbUser.isAdult {
      return Failure(Ledger.Underage);
    }
    if dbUser.balance < amount {
      return Failure(Ledger.InsufficientBalance);
    }
    dbUser := dbUser.(balance := dbUser.balance - amount);
    Ledger.BookCocktailSpec(db.users, nfcId, amount, isAlcoholic, nfcId);
    db.users := db.users[i := dbUser];
    result := Success(dbUser);
  }
}
