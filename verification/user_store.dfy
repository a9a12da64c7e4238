/**
 * The in-memory card store of the two front ends: card records keyed by
 * card id, and the listeners called after every change that takes effect.
 *
 * Both front ends carry the same store, line for line; this one class
 * models both. A listener is an opaque callback, named by an id; calling
 * it is recorded in the `calls` trace, in call order.
 */
module UserStores {
  import opened Wrappers

  /** A card record: the card id, whether its holder is an adult, and a balance that may be missing. */
  datatype CardRecord = CardRecord(cardId: string, adult: bool, balance: Option<real>)

  type ListenerId = nat

  /** The balance a record gets when it has none. */
  const DEFAULT_BALANCE: real := 10.0

  /** The record's balance, or the default when it has none. */
  function BalanceOf(r: CardRecord): (b: real)
    ensures r.balance.Some? ==> b == r.balance.value
    ensures r.balance.None? ==> b == DEFAULT_BALANCE
  {
    r.balance.GetOr(DEFAULT_BALANCE)
  }

  /** The record `add_user` stores: a missing balance is filled in with the default. */
  function WithBalance(r: CardRecord): (s: CardRecord)
    ensures s.cardId == r.cardId && s.adult == r.adult && s.balance.Some?
    ensures r.balance.Some? ==> s == r
    ensures r.balance.None? ==> s.balance == Some(DEFAULT_BALANCE)
  {
    if r.balance.None? then r.(balance := Some(DEFAULT_BALANCE)) else r
  }

  /** The seven cards every store starts with. */
  function SeedCards(): (m: map<string, CardRecord>)
    ensures |m| == 7 && WellKeyed(m)
    ensures forall k :: k in m ==> m[k].balance.value >= 0.0
  {
    map[
      "12345678" := CardRecord("12345678", true, Some(12.0)),
      "12345679" := CardRecord("12345679", true, Some(10.0)),
      "12345680" := CardRecord("12345680", false, Some(20.0)),
      "12345681" := CardRecord("12345681", true, Some(0.0)),
      "12345682" := CardRecord("12345682", false, Some(123.0)),
      "12345683" := CardRecord("12345683", true, Some(10.0)),
      "12345684" := CardRecord("12345684", false, Some(1340.0))
    ]
  }

  /** Every record is stored under its own card id and has a balance. */
  predicate WellKeyed(m: map<string, CardRecord>) {
    forall k :: k in m ==> m[k].cardId == k && m[k].balance.Some?
  }

  class UserStore {
    var users: map<string, CardRecord>
    var listeners: seq<ListenerId>
    /** Every listener call made so far, in order. */
    var calls: seq<ListenerId>

    /** Every record sits under its own card id and has a balance. */
    predicate Valid()
      reads this
    {
      WellKeyed(users)
    }

    constructor ()
      ensures Valid()
      ensures users == SeedCards() && listeners == [] && calls == []
    {
      users := SeedCards();
      listeners := [];
      calls := [];
    }

    /** all_users: a copy of the records; a map is a value, so changing the copy leaves the store alone. */
    function AllUsers(): (copy: map<string, CardRecord>)
      reads this
      ensures copy.Keys == users.Keys
      ensures forall k :: k in copy ==> copy[k] == users[k]
    {
      users
    }

    /** get_user: the record stored under the card id, or None. */
    function GetUser(cardId: string): (r: Option<CardRecord>)
      reads this
      ensures r.Some? <==> cardId in users
      ensures r.Some? ==> r.value == users[cardId]
    {
      if cardId in users then Some(users[cardId]) else None
    }

    /** _notify: calls every listener registered when it starts, once each, in registration order. */
    method Notify()
      modifies this
      ensures calls == old(calls) + listeners
      ensures users == old(users) && listeners == old(listeners)
    {
      var snapshot := listeners;
      var i := 0;
      while i < |snapshot|
        invariant 0 <= i <= |snapshot|
        invariant calls == old(calls) + snapshot[..i]
        invariant users == old(users) && listeners == old(listeners)
      {
        calls := calls + [snapshot[i]];
        i := i + 1;
      }
      assert snapshot[..i] == snapshot;
    }

    /**
     * add_user: stores the record under its own card id, replacing any
     * record there, fills in a missing balance, notifies, and returns the id.
     */
    method AddUser(data: CardRecord) returns (uid: string)
      modifies this
      requires Valid()
      ensures Valid()
      ensures uid == data.cardId
      ensures users == old(users)[uid := WithBalance(data)]
      ensures listeners == old(listeners) && calls == old(calls) + listeners
    {
      uid := data.cardId;
      var record := data;
      if record.balance.None? {
        record := record.(balance := Some(DEFAULT_BALANCE));
      }
      users := users[uid := record];
      Notify();
    }

    /** delete_user: removes a present card and notifies; an absent card changes nothing and notifies no one. */
    method DeleteUser(userId: string)
      modifies this
      requires Valid()
      ensures Valid()
      ensures userId in old(users) ==> users == old(users) - {userId} && calls == old(calls) + listeners
      ensures userId !in old(users) ==> users == old(users) && calls == old(calls)
      ensures listeners == old(listeners)
    {
      if userId in users {
        users := users - {userId};
        Notify();
      }
    }

    /**
     * update_balance: adds the amount to a present card's balance (the
     * default when it has none), notifies, and returns the new balance; an
     * absent card returns 0.0 and changes nothing.
     */
    method UpdateBalance(cardId: string, amount: real) returns (newBalance: real)
      modifies this
      requires Valid()
      ensures Valid()
      ensures cardId in old(users) ==>
        && newBalance == BalanceOf(old(users)[cardId]) + amount
        && users == old(users)[cardId := old(users)[cardId].(balance := Some(newBalance))]
        && calls == old(calls) + listeners
      ensures cardId !in old(users) ==> newBalance == 0.0 && users == old(users) && calls == old(calls)
      ensures listeners == old(listeners)
    {
      if cardId in users {
        var current := BalanceOf(users[cardId]);
        newBalance := current + amount;
        users := users[cardId := users[cardId].(balance := Some(newBalance))];
        Notify();
        return;
      }
      newBalance := 0.0;
    }

    /** add_listener: registers a listener after those already registered. */
    method AddListener(listener: ListenerId)
      modifies this
      ensures listeners == old(listeners) + [listener]
      ensures users == old(users) && calls == old(calls)
    {
      listeners := listeners + [listener];
    }
  }
}
