/**
 * The payment log a later, class-based version of the user service writes
 * beside each successful change: one entry per call, holding the card id,
 * a signed amount, the balance after the call and a description.
 *
 * The entries follow that version's design: a creation logs 0.0; a direct
 * update logs the balance it supplies, not a change, and 0.0 when it
 * supplies none; a deletion logs 0.0 with a balance of 0.0; a top-up logs
 * its amount and a booking minus the price.
 */
module PaymentLogs {
  import opened Wrappers
  import Ledger

  /** The fixed descriptions, and a booking's drink name. */
  datatype Description = Created | Updated | TopUp | Deleted | Drink(name: string)

  datatype LogEntry = LogEntry(nfcId: string, amount: real, currentBalance: real, description: Description)

  /**
   * The entry a call writes: None when the call fails. `drink` is the name
   * a booking passes; it is unused for the other calls.
   */
  function LogOf(t: Ledger.Table, op: Ledger.Op, drink: string, minBalance: real): (r: Option<LogEntry>)
    ensures r.None? ==> Ledger.Step(t, op, minBalance) == t
    ensures r.Some? ==> r.value.nfcId == if op.Create? then op.user.nfcId else op.nfcId
  {
    match op
    case Create(u) =>
      (match Ledger.CreateUser(t, u)
       case Success((_, row)) => Some(LogEntry(row.nfcId, 0.0, row.balance, Created))
       case Failure(_) => None)
    case Update(id, upd) =>
      (match Ledger.UpdateUser(t, id, upd)
       case Success((_, row)) => Some(LogEntry(id, upd.balance.GetOr(0.0), row.balance, Updated))
       case Failure(_) => None)
    case Delete(id) =>
      (match Ledger.GetUserByNfc(t, id)
       case Some(_) => Some(LogEntry(id, 0.0, 0.0, Deleted))
       case None => None)
    case TopUp(id, a) =>
      (match Ledger.UpdateBalance(t, id, a, minBalance)
       case Success((_, row)) => Some(LogEntry(id, a, row.balance, TopUp))
       case Failure(_) => None)
    case Book(id, a, alc) =>
      (match Ledger.BookCocktail(t, id, a, alc)
       case Success((_, row)) => Some(LogEntry(id, -a, row.balance, Drink(drink)))
       case Failure(_) => None)
  }

  /** The balance a card had before the call: 0.0 for a card the call creates. */
  function BalanceBefore(t: Ledger.Table, op: Ledger.Op): real {
    match op
    case Create(_) => 0.0
    case Update(id, _) => Ledger.GetUserByNfc(t, id).GetOr(Ledger.UserRow(id, "", false, 0.0)).balance
    case Delete(id) => Ledger.GetUserByNfc(t, id).GetOr(Ledger.UserRow(id, "", false, 0.0)).balance
    case TopUp(id, _) => Ledger.GetUserByNfc(t, id).GetOr(Ledger.UserRow(id, "", false, 0.0)).balance
    case Book(id, _, _) => Ledger.GetUserByNfc(t, id).GetOr(Ledger.UserRow(id, "", false, 0.0)).balance
  }

  /** Whether the call goes through. */
  predicate Succeeds(t: Ledger.Table, op: Ledger.Op, minBalance: real) {
    match op
    case Create(u) => Ledger.CreateUser(t, u).Success?
    case Update(id, upd) => Ledger.UpdateUser(t, id, upd).Success?
    case Delete(id) => Ledger.DeleteUser(t, id).Success?
    case TopUp(id, a) => Ledger.UpdateBalance(t, id, a, minBalance).Success?
    case Book(id, a, alc) => Ledger.BookCocktail(t, id, a, alc).Success?
  }
  /**
   * A call writes an entry exactly when it succeeds. The entries of a
   * creation, a top-up and a booking reconcile: the balance after is the
   * balance before plus the logged amount, which is 0.0, the top-up and
   * minus the price. A direct update instead logs the balance it supplies
   * as its amount, not the change, and 0.0 when it supplies none.
   */
  lemma LogReconciles(t: Ledger.Table, op: Ledger.Op, drink: string, minBalance: real)
    requires Ledger.UniqueIds(t)
    ensures LogOf(t, op, drink, minBalance).Some? <==> Succeeds(t, op, minBalance)
    ensures LogOf(t, op, drink, minBalance).Some? ==>
      var e := LogOf(t, op, drink, minBalance).value;
      && (op.Delete? ==> Ledger.GetUserByNfc(Ledger.Step(t, op, minBalance), e.nfcId).None?)
      && (op.Create? ==> e.amount == 0.0 && e.description == Created)
      && (op.Update? && op.upd.balance.Some? ==> e.amount == op.upd.balance.value == e.currentBalance)
      && (op.Update? && op.upd.balance.None? ==> e.amount == 0.0 && e.currentBalance == BalanceBefore(t, op))
      && (op.Update? ==> e.description == Updated)
      && (op.Delete? ==> e.amount == 0.0 && e.currentBalance == 0.0 && e.description == Deleted)
      && (op.TopUp? ==> e.amount == op.amount && e.description == TopUp)
      && (op.Book? ==> e.amount == -op.amount && e.description == Drink(drink))
      && (op.Create? || op.TopUp? || op.Book? ==> e.currentBalance == BalanceBefore(t, op) + e.amount)
      && (!op.Delete? ==> Ledger.GetUserByNfc(Ledger.Step(t, op, minBalance), e.nfcId).Some?
                          && Ledger.GetUserByNfc(Ledger.Step(t, op, minBalance), e.nfcId).value.balance == e.currentBalance)
  {
    match op {
      case Create(u) => Ledger.CreateUserSpec(t, u, u.nfcId);
      case Update(id, upd) => Ledger.UpdateUserSpec(t, id, upd, id);
      case Delete(id) => Ledger.DeleteUserSpec(t, id, id);
      case TopUp(id, a) => Ledger.UpdateBalanceSpec(t, id, a, minBalance, id);
      case Book(id, a, alc) => Ledger.BookCocktailSpec(t, id, a, alc, id);
    }
  }

}
