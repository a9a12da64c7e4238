/**
 * The card-balance ledger: the users table and what each operation of the
 * user service does to it, as functions of the table before the call.
 *
 * The table is the sequence of its rows in storage order (the order the
 * unsorted `offset`/`limit` query pages through); the card id is its key,
 * so no two rows share one. An operation either fails with the error the
 * service raises, leaving the table as it was, or succeeds with the new
 * table and the row it returns.
 */
module Ledger {
  import opened Wrappers
  import Schemas
  import UserModels

  /** A stored user. The service reads and writes a name beside the model's own columns. */
  datatype UserRow = UserRow(nfcId: string, name: string, isAdult: bool, balance: real)

  type Table = seq<UserRow>

  /** The HTTP errors the service raises. */
  datatype ServiceError = NotFound | AlreadyExists | BelowMinimum | Underage | InsufficientBalance

  function StatusCode(e: ServiceError): (code: int)
    ensures code == 404 <==> e == NotFound
    ensures code == 400 <==> e == AlreadyExists || e == BelowMinimum
    ensures code == 403 <==> e == Underage
    ensures code == 402 <==> e == InsufficientBalance
  {
    match e
    case NotFound => 404
    case AlreadyExists => 400
    case BelowMinimum => 400
    case Underage => 403
    case InsufficientBalance => 402
  }

  /** The card id is the primary key. */
  predicate UniqueIds(t: Table) {
    forall i, j :: 0 <= i < j < |t| ==> t[i].nfcId != t[j].nfcId
  }

  /** Position of the first row with the given card id. */
  function Find(t: Table, nfcId: string): (r: Option<nat>)
    ensures r.None? <==> forall i :: 0 <= i < |t| ==> t[i].nfcId != nfcId
    ensures r.Some? ==> r.value < |t| && t[r.value].nfcId == nfcId
    ensures r.Some? ==> forall i :: 0 <= i < r.value ==> t[i].nfcId != nfcId
  {
    if t == [] then None
    else if t[0].nfcId == nfcId then Some(0)
    else match Find(t[1..], nfcId)
      case None => None
      case Some(i) => Some(i + 1)
  }

  /** get_user_by_nfc: the row with that card id, or None. */
  function GetUserByNfc(t: Table, nfcId: string): (r: Option<UserRow>)
    ensures r.Some? ==> r.value in t && r.value.nfcId == nfcId
    ensures r.None? <==> forall u :: u in t ==> u.nfcId != nfcId
  {
    match Find(t, nfcId)
    case None => None
    case Some(i) => Some(t[i])
  }

  /**
   * get_users: `offset(skip).limit(limit)` on SQLite. A negative offset
   * counts as 0 and a negative limit as no limit at all.
   */
  function GetUsers(t: Table, skip: int, limit: int): (r: Table)
    ensures limit >= 0 ==> |r| <= limit
    ensures (limit >= 0 && |r| == limit) || Start(skip) + |r| == |t| || (Start(skip) >= |t| && r == [])
    ensures forall i :: 0 <= i < |r| ==> Start(skip) + i < |t| && r[i] == t[Start(skip) + i]
  {
    var start := Start(skip);
    if start >= |t| then []
    else if 0 <= limit <= |t| - start then t[start..start + limit]
    else t[start..]
  }

  /** The first position SQLite returns for an offset. */
  function Start(skip: int): (n: nat)
    ensures skip >= 0 ==> n == skip
    ensures skip < 0 ==> n == 0
  {
    if skip < 0 then 0 else skip
  }

  /** A negative limit returns every row from the offset on; a negative offset starts at the first row. */
  lemma GetUsersNegative(t: Table, skip: int, limit: int)
    ensures limit < 0 && 0 <= skip <= |t| ==> GetUsers(t, skip, limit) == t[skip..]
    ensures skip < 0 ==> GetUsers(t, skip, limit) == GetUsers(t, 0, limit)
  {
  }

  // ----- Looking rows up by key -----

  /** With unique ids, the row at a position is the one found for its id. */
  lemma FindUnique(t: Table, i: nat)
    requires UniqueIds(t) && i < |t|
    ensures Find(t, t[i].nfcId) == Some(i)
    ensures GetUserByNfc(t, t[i].nfcId) == Some(t[i])
  {
  }

  /** A row whose id the table does not hold, appended, is found under its id; nothing else moves. */
  lemma GetAppend(t: Table, row: UserRow, k: string)
    requires UniqueIds(t) && GetUserByNfc(t, row.nfcId).None?
    ensures UniqueIds(t + [row])
    ensures GetUserByNfc(t + [row], k) == if k == row.nfcId then Some(row) else GetUserByNfc(t, k)
  {
    var t' := t + [row];
    assert forall i :: 0 <= i < |t| ==> t'[i] == t[i];
    assert forall i :: 0 <= i < |t| ==> t[i].nfcId != row.nfcId by {
      forall i | 0 <= i < |t| ensures t[i].nfcId != row.nfcId {
        assert t[i] in t;
      }
    }
    if k == row.nfcId {
      FindUnique(t', |t|);
    } else if GetUserByNfc(t, k).Some? {
      var i := Find(t, k).value;
      FindUnique(t, i);
      FindUnique(t', i);
    }
  }

  /** Replacing a row by one with the same id changes what that id finds and nothing else. */
  lemma GetReplace(t: Table, i: nat, row: UserRow, k: string)
    requires UniqueIds(t) && i < |t| && row.nfcId == t[i].nfcId
    ensures UniqueIds(t[i := row])
    ensures GetUserByNfc(t[i := row], k) == if k == row.nfcId then Some(row) else GetUserByNfc(t, k)
  {
    var t' := t[i := row];
    assert forall j :: 0 <= j < |t| ==> t'[j].nfcId == t[j].nfcId;
    if k == row.nfcId {
      FindUnique(t', i);
    } else if GetUserByNfc(t, k).Some? {
      var j := Find(t, k).value;
      FindUnique(t, j);
      FindUnique(t', j);
    }
  }

  /** Removing the row at a position keeps the other rows, in order. */
  lemma RemoveShifts(t: Table, i: nat)
    requires i < |t|
    ensures |t[..i] + t[i + 1..]| == |t| - 1
    ensures forall j :: 0 <= j < i ==> (t[..i] + t[i + 1..])[j] == t[j]
    ensures forall j :: i < j < |t| ==> (t[..i] + t[i + 1..])[j - 1] == t[j]
  {
  }

  lemma RemoveUnique(t: Table, i: nat)
    requires UniqueIds(t) && i < |t|
    ensures UniqueIds(t[..i] + t[i + 1..])
  {
    var t' := t[..i] + t[i + 1..];
    RemoveShifts(t, i);
    forall a, b | 0 <= a < b < |t'| ensures t'[a].nfcId != t'[b].nfcId {
      var a' := if a < i then a else a + 1;
      var b' := if b < i then b else b + 1;
      assert t'[a] == t[a'] && t'[b] == t[b'];
    }
  }

  /** An id no row of `t` carries, other than possibly row i, is absent once row i is removed. */
  lemma RemoveAbsent(t: Table, i: nat, k: string)
    requires i < |t|
    requires forall j :: 0 <= j < |t| && j != i ==> t[j].nfcId != k
    ensures GetUserByNfc(t[..i] + t[i + 1..], k).None?
  {
    var t' := t[..i] + t[i + 1..];
    RemoveShifts(t, i);
    forall j | 0 <= j < |t'| ensures t'[j].nfcId != k {
      var j' := if j < i then j else j + 1;
      assert t'[j] == t[j'];
    }
  }

  /** A row other than row i is still found by its id once row i is removed. */
  lemma RemoveKeepsRow(t: Table, i: nat, j: nat)
    requires UniqueIds(t) && i < |t| && j < |t| && j != i
    ensures GetUserByNfc(t[..i] + t[i + 1..], t[j].nfcId) == Some(t[j])
  {
    var t' := t[..i] + t[i + 1..];
    RemoveShifts(t, i);
    RemoveUnique(t, i);
    var j' := if j < i then j else j - 1;
    assert t'[j'] == t[j];
    FindUnique(t', j');
  }

  /** Removing the row at a position makes its id absent and leaves every other id's row. */
  lemma GetRemove(t: Table, i: nat, k: string)
    requires UniqueIds(t) && i < |t|
    ensures UniqueIds(t[..i] + t[i + 1..])
    ensures |t[..i] + t[i + 1..]| == |t| - 1
    ensures GetUserByNfc(t[..i] + t[i + 1..], k) == if k == t[i].nfcId then None else GetUserByNfc(t, k)
  {
    RemoveUnique(t, i);
    var r := Find(t, k);
    if k == t[i].nfcId {
      RemoveAbsent(t, i, k);
    } else if r.Some? {
      FindUnique(t, r.value);
      RemoveKeepsRow(t, i, r.value);
    } else {
      RemoveAbsent(t, i, k);
    }
  }

  // ----- The operations -----

  /** A successful write: the new table and the row the service returns. */
  type Change = Result<(Table, UserRow), ServiceError>

  /** The table a call leaves behind: the new one on success, the old one when it fails. */
  function After(t: Table, c: Change): Table {
    match c
    case Success((t', _)) => t'
    case Failure(_) => t
  }

  /** create_user: refuses a card id already present, else appends a row with balance 0.0. */
  function CreateUser(t: Table, u: Schemas.UserCreate): (c: Change)
    ensures c.Failure? <==> GetUserByNfc(t, u.nfcId).Some?
    ensures c.Failure? ==> c.error == AlreadyExists
    ensures c.Success? ==> |c.value.0| == |t| + 1 && c.value.1 in c.value.0
    ensures c.Success? ==> c.value.1.nfcId == u.nfcId && c.value.1.balance == 0.0
  {
    if GetUserByNfc(t, u.nfcId).Some? then Failure(AlreadyExists)
    else
      var row := UserRow(u.nfcId, u.name, u.isAdult, 0.0);
      Success((t + [row], row))
  }

  /**
   * The row after a partial update: each supplied field overwrites, the
   * rest stay. The age flag and balance are merged as the table record's
   * own update does; the name beside them the same way.
   */
  function Apply(row: UserRow, upd: Schemas.UserUpdate): (r: UserRow)
    ensures r.nfcId == row.nfcId
    ensures r.name == if upd.name.Some? then upd.name.value else row.name
    ensures r.isAdult == if upd.isAdult.Some? then upd.isAdult.value else row.isAdult
    ensures r.balance == if upd.balance.Some? then upd.balance.value else row.balance
  {
    var u := UserModels.ApplyUpdate(UserModels.User(row.nfcId, row.isAdult, row.balance),
                                    UserModels.UserUpdate(upd.isAdult, upd.balance));
    UserRow(u.nfcId, upd.name.GetOr(row.name), u.isAdult, u.balance)
  }

  /** update_user: 404 for an unknown card, else overwrites the supplied fields. */
  function UpdateUser(t: Table, nfcId: string, upd: Schemas.UserUpdate): (c: Change)
    ensures c.Failure? <==> GetUserByNfc(t, nfcId).None?
    ensures c.Failure? ==> c.error == NotFound
    ensures c.Success? ==> |c.value.0| == |t| && c.value.1 == Apply(GetUserByNfc(t, nfcId).value, upd)
  {
    match Find(t, nfcId)
    case None => Failure(NotFound)
    case Some(i) =>
      var row := Apply(t[i], upd);
      Success((t[i := row], row))
  }

  /** delete_user: 404 for an unknown card, else removes its row. */
  function DeleteUser(t: Table, nfcId: string): (r: Result<Table, ServiceError>)
    ensures r.Failure? <==> GetUserByNfc(t, nfcId).None?
    ensures r.Failure? ==> r.error == NotFound
    ensures r.Success? ==> |r.value| == |t| - 1
  {
    match Find(t, nfcId)
    case None => Failure(NotFound)
    case Some(i) => Success(t[..i] + t[i + 1..])
  }

  /**
   * update_balance: 404 for an unknown card, 400 when the new balance would
   * fall below `minBalance`, else adds the (signed) amount.
   */
  function UpdateBalance(t: Table, nfcId: string, amount: real, minBalance: real): (c: Change)
    ensures GetUserByNfc(t, nfcId).None? ==> c == Failure(NotFound)
    ensures c.Success? ==> c.value.1.balance == GetUserByNfc(t, nfcId).value.balance + amount
    ensures c.Success? ==> c.value.1.balance >= minBalance && |c.value.0| == |t|
  {
    match Find(t, nfcId)
    case None => Failure(NotFound)
    case Some(i) =>
      var newBalance := t[i].balance + amount;
      if newBalance < minBalance then Failure(BelowMinimum)
      else
        var row := t[i].(balance := newBalance);
        Success((t[i := row], row))
  }

  /**
   * book_cocktail: 404 for an unknown card, then 403 for an alcoholic drink
   * and a minor, then 402 when the balance is below the price; else the
   * price is taken off the balance.
   */
  function BookCocktail(t: Table, nfcId: string, amount: real, isAlcoholic: bool): (c: Change)
    ensures GetUserByNfc(t, nfcId).None? ==> c == Failure(NotFound)
    ensures c.Success? ==> c.value.1.balance == GetUserByNfc(t, nfcId).value.balance - amount
    ensures c.Success? ==> c.value.1.balance >= 0.0 && |c.value.0| == |t|
    ensures c.Success? && isAlcoholic ==> c.value.1.isAdult
  {
    match Find(t, nfcId)
    case None => Failure(NotFound)
    case Some(i) =>
      if isAlcoholic && !t[i].isAdult then Failure(Underage)
      else if t[i].balance < amount then Failure(InsufficientBalance)
      else
        var row := t[i].(balance := t[i].balance - amount);
        Success((t[i := row], row))
  }

  // ----- What each operation promises -----

  lemma CreateUserSpec(t: Table, u: Schemas.UserCreate, k: string)
    requires UniqueIds(t)
    ensures CreateUser(t, u).Failure? <==> GetUserByNfc(t, u.nfcId).Some?
    ensures CreateUser(t, u).Failure? ==> CreateUser(t, u).error == AlreadyExists
    ensures CreateUser(t, u).Success? ==>
      var (t', row) := CreateUser(t, u).value;
      && row == UserRow(u.nfcId, u.name, u.isAdult, 0.0)
      && UniqueIds(t') && |t'| == |t| + 1
      && GetUserByNfc(t', k) == (if k == u.nfcId then Some(row) else GetUserByNfc(t, k))
  {
    if GetUserByNfc(t, u.nfcId).None? {
      GetAppend(t, UserRow(u.nfcId, u.name, u.isAdult, 0.0), k);
    }
  }

  lemma UpdateUserSpec(t: Table, nfcId: string, upd: Schemas.UserUpdate, k: string)
    requires UniqueIds(t)
    ensures UpdateUser(t, nfcId, upd).Failure? <==> GetUserByNfc(t, nfcId).None?
    ensures UpdateUser(t, nfcId, upd).Failure? ==> UpdateUser(t, nfcId, upd).error == NotFound
    ensures UpdateUser(t, nfcId, upd).Success? ==>
      var (t', row) := UpdateUser(t, nfcId, upd).value;
      var before := GetUserByNfc(t, nfcId).value;
      && row.nfcId == nfcId
      && row.name == (if upd.name.Some? then upd.name.value else before.name)
      && row.isAdult == (if upd.isAdult.Some? then upd.isAdult.value else before.isAdult)
      && row.balance == (if upd.balance.Some? then upd.balance.value else before.balance)
      && UniqueIds(t') && |t'| == |t|
      && GetUserByNfc(t', k) == (if k == nfcId then Some(row) else GetUserByNfc(t, k))
  {
    var r := Find(t, nfcId);
    if r.Some? {
      FindUnique(t, r.value);
      GetReplace(t, r.value, Apply(t[r.value], upd), k);
    }
  }

  lemma DeleteUserSpec(t: Table, nfcId: string, k: string)
    requires UniqueIds(t)
    ensures DeleteUser(t, nfcId).Failure? <==> GetUserByNfc(t, nfcId).None?
    ensures DeleteUser(t, nfcId).Failure? ==> DeleteUser(t, nfcId).error == NotFound
    ensures DeleteUser(t, nfcId).Success? ==>
      var t' := DeleteUser(t, nfcId).value;
      && UniqueIds(t') && |t'| == |t| - 1
      && GetUserByNfc(t', k) == (if k == nfcId then None else GetUserByNfc(t, k))
  {
    var r := Find(t, nfcId);
    if r.Some? {
      GetRemove(t, r.value, k);
    }
  }

  lemma UpdateBalanceSpec(t: Table, nfcId: string, amount: real, minBalance: real, k: string)
    requires UniqueIds(t)
    ensures UpdateBalance(t, nfcId, amount, minBalance) == Failure(NotFound) <==> GetUserByNfc(t, nfcId).None?
    ensures UpdateBalance(t, nfcId, amount, minBalance) == Failure(BelowMinimum)
        <==> GetUserByNfc(t, nfcId).Some? && GetUserByNfc(t, nfcId).value.balance + amount < minBalance
    ensures UpdateBalance(t, nfcId, amount, minBalance).Success? ==>
      var (t', row) := UpdateBalance(t, nfcId, amount, minBalance).value;
      var before := GetUserByNfc(t, nfcId).value;
      && row == before.(balance := before.balance + amount)
      && row.balance >= minBalance
      && UniqueIds(t') && |t'| == |t|
      && GetUserByNfc(t', k) == (if k == nfcId then Some(row) else GetUserByNfc(t, k))
  {
    var r := Find(t, nfcId);
    if r.Some? {
      FindUnique(t, r.value);
      GetReplace(t, r.value, t[r.value].(balance := t[r.value].balance + amount), k);
    }
  }

  lemma BookCocktailSpec(t: Table, nfcId: string, amount: real, isAlcoholic: bool, k: string)
    requires UniqueIds(t)
    ensures BookCocktail(t, nfcId, amount, isAlcoholic) == Failure(NotFound) <==> GetUserByNfc(t, nfcId).None?
    ensures BookCocktail(t, nfcId, amount, isAlcoholic) == Failure(Underage)
        <==> GetUserByNfc(t, nfcId).Some? && isAlcoholic && !GetUserByNfc(t, nfcId).value.isAdult
    ensures BookCocktail(t, nfcId, amount, isAlcoholic) == Failure(InsufficientBalance)
        <==> GetUserByNfc(t, nfcId).Some? && !(isAlcoholic && !GetUserByNfc(t, nfcId).value.isAdult)
             && GetUserByNfc(t, nfcId).value.balance < amount
    ensures BookCocktail(t, nfcId, amount, isAlcoholic).Success? ==>
      var (t', row) := BookCocktail(t, nfcId, amount, isAlcoholic).value;
      var before := GetUserByNfc(t, nfcId).value;
      && row == before.(balance := before.balance - amount)
      && row.balance >= 0.0
      && UniqueIds(t') && |t'| == |t|
      && GetUserByNfc(t', k) == (if k == nfcId then Some(row) else GetUserByNfc(t, k))
  {
    var r := Find(t, nfcId);
    if r.None? {
      assert GetUserByNfc(t, nfcId).None?;
    } else {
      var i := r.value;
      assert GetUserByNfc(t, nfcId) == Some(t[i]);
      if !(isAlcoholic && !t[i].isAdult) && t[i].balance >= amount {
        var row := t[i].(balance := t[i].balance - amount);
        assert BookCocktail(t, nfcId, amount, isAlcoholic) == Success((t[i := row], row));
        FindUnique(t, i);
        GetReplace(t, i, row, k);
      }
    }
  }

  // ----- The balance floor over a run of operations -----

  /** Every balance is at least the floor. */
  predicate AboveFloor(t: Table, minBalance: real) {
    forall u :: u in t ==> u.balance >= minBalance
  }

  /** A call to one of the service's writes. */
  datatype Op =
    | Create(user: Schemas.UserCreate)
    | Update(nfcId: string, upd: Schemas.UserUpdate)
    | Delete(nfcId: string)
    | TopUp(nfcId: string, amount: real)
    | Book(nfcId: string, amount: real, isAlcoholic: bool)

  /** The table after one call; a failed call leaves it as it was. */
  function Step(t: Table, op: Op, minBalance: real): Table {
    match op
    case Create(u) => After(t, CreateUser(t, u))
    case Update(id, upd) => After(t, UpdateUser(t, id, upd))
    case Delete(id) => (match DeleteUser(t, id) case Success(t') => t' case Failure(_) => t)
    case TopUp(id, a) => After(t, UpdateBalance(t, id, a, minBalance))
    case Book(id, a, alc) => After(t, BookCocktail(t, id, a, alc))
  }

  function Run(t: Table, ops: seq<Op>, minBalance: real): Table
    decreases |ops|
  {
    if ops == [] then t else Run(Step(t, ops[0], minBalance), ops[1..], minBalance)
  }

  /** A direct update that sets no balance below the floor. */
  predicate RespectsFloor(op: Op, minBalance: real) {
    op.Update? && op.upd.balance.Some? ==> op.upd.balance.value >= minBalance
  }

  /** Rows of a table where one position was replaced by `row`: the old rows and `row`. */
  lemma ReplacedRows(t: Table, i: nat, row: UserRow)
    requires i < |t|
    ensures forall x :: x in t[i := row] ==> x in t || x == row
  {
    forall x | x in t[i := row] ensures x in t || x == row {
      var j :| 0 <= j < |t| && t[i := row][j] == x;
      if j != i { assert t[j] == x; }
    }
  }

  lemma RemovedRows(t: Table, i: nat)
    requires i < |t|
    ensures forall x :: x in t[..i] + t[i + 1..] ==> x in t
  {
    RemoveShifts(t, i);
    forall x | x in t[..i] + t[i + 1..] ensures x in t {
      var j :| 0 <= j < |t| - 1 && (t[..i] + t[i + 1..])[j] == x;
      if j < i { assert t[j] == x; } else { assert t[j + 1] == x; }
    }
  }

  /** Each write keeps the card ids unique and, with a floor at or below zero, every balance above it. */
  lemma StepKeepsFloor(t: Table, op: Op, minBalance: real)
    requires UniqueIds(t) && AboveFloor(t, minBalance) && minBalance <= 0.0
    requires RespectsFloor(op, minBalance)
    ensures UniqueIds(Step(t, op, minBalance)) && AboveFloor(Step(t, op, minBalance), minBalance)
  {
    match op {
      case Create(u) =>
        CreateUserSpec(t, u, u.nfcId);
      case Update(id, upd) =>
        UpdateUserSpec(t, id, upd, id);
        var r := Find(t, id);
        if r.Some? {
          ReplacedRows(t, r.value, Apply(t[r.value], upd));
        }
      case Delete(id) =>
        DeleteUserSpec(t, id, id);
        var r := Find(t, id);
        if r.Some? {
          RemovedRows(t, r.value);
        }
      case TopUp(id, a) =>
        UpdateBalanceSpec(t, id, a, minBalance, id);
        var r := Find(t, id);
        if r.Some? && t[r.value].balance + a >= minBalance {
          ReplacedRows(t, r.value, t[r.value].(balance := t[r.value].balance + a));
        }
      case Book(id, a, alc) =>
        BookCocktailSpec(t, id, a, alc, id);
        var r := Find(t, id);
        if r.Some? && !(alc && !t[r.value].isAdult) && t[r.value].balance >= a {
          ReplacedRows(t, r.value, t[r.value].(balance := t[r.value].balance - a));
        }
    }
  }

  /**
   * Over any run of calls the card ids stay unique and, with a floor at or
   * below zero, no balance drops below the floor, provided no direct update
   * itself sets a balance below it.
   */
  lemma {:induction false} RunKeepsFloor(t: Table, ops: seq<Op>, minBalance: real)
    requires UniqueIds(t) && AboveFloor(t, minBalance) && minBalance <= 0.0
    requires forall i :: 0 <= i < |ops| ==> RespectsFloor(ops[i], minBalance)
    ensures UniqueIds(Run(t, ops, minBalance)) && AboveFloor(Run(t, ops, minBalance), minBalance)
    decreases |ops|
  {
    if ops != [] {
      StepKeepsFloor(t, ops[0], minBalance);
      assert forall i :: 0 <= i < |ops[1..]| ==> ops[1..][i] == ops[i + 1];
      RunKeepsFloor(Step(t, ops[0], minBalance), ops[1..], minBalance);
    }
  }

  /** update_user writes a balance without the floor check, so it can leave a card below the floor. */
  lemma UpdateUserSkipsFloor()
    ensures var t := [UserRow("A", "Ann", true, 0.0)];
            var op := Update("A", Schemas.UserUpdate(None, None, Some(-5000.0)));
            AboveFloor(t, -1000.0) && !AboveFloor(Step(t, op, -1000.0), -1000.0)
  {
    var t := [UserRow("A", "Ann", true, 0.0)];
    var op := Update("A", Schemas.UserUpdate(None, None, Some(-5000.0)));
    assert Find(t, "A") == Some(0);
    assert Step(t, op, -1000.0)[0].balance == -5000.0;
  }

  /** Two successful top-ups add up: the balance grows by their sum. */
  lemma TopUpsAdd(t: Table, nfcId: string, a: real, b: real, minBalance: real)
    requires UniqueIds(t)
    requires UpdateBalance(t, nfcId, a, minBalance).Success?
    requires UpdateBalance(UpdateBalance(t, nfcId, a, minBalance).value.0, nfcId, b, minBalance).Success?
    ensures UpdateBalance(UpdateBalance(t, nfcId, a, minBalance).value.0, nfcId, b, minBalance).value.1.balance
         == GetUserByNfc(t, nfcId).value.balance + a + b
  {
    UpdateBalanceSpec(t, nfcId, a, minBalance, nfcId);
    var t1 := UpdateBalance(t, nfcId, a, minBalance).value.0;
    UpdateBalanceSpec(t1, nfcId, b, minBalance, nfcId);
  }
}
