/**
 * The NFC manager: a one-slot mailbox holding the last card id the reader
 * saw, and the list of callbacks told about every read.
 *
 * A callback is opaque and named by an id; calling it is recorded, with
 * the card id passed, in the `delivered` trace. The reader hardware, the
 * singleton construction and the lock are not modelled.
 */
module NfcManagers {
  import opened Wrappers

  type CallbackId = nat

  /** No callback occurs twice. */
  predicate NoDuplicates(s: seq<CallbackId>) {
    forall i, j :: 0 <= i < j < |s| ==> s[i] != s[j]
  }

  /** Python's `list.remove` on a list holding `x`: drops its first occurrence. */
  function RemoveFirst(s: seq<CallbackId>, x: CallbackId): (r: seq<CallbackId>)
    requires x in s
    ensures |r| == |s| - 1
  {
    if s[0] == x then s[1..] else [s[0]] + RemoveFirst(s[1..], x)
  }

  /** What stays after removing `x`: every other element, and no `x` when the list had one. */
  lemma {:induction false} RemoveFirstMembers(s: seq<CallbackId>, x: CallbackId)
    requires x in s
    ensures forall y :: y != x ==> (y in RemoveFirst(s, x) <==> y in s)
    ensures NoDuplicates(s) ==> x !in RemoveFirst(s, x)
  {
    if s[0] != x {
      RemoveFirstMembers(s[1..], x);
      assert NoDuplicates(s) ==> NoDuplicates(s[1..]);
    } else {
      assert NoDuplicates(s) ==> forall j :: 1 <= j < |s| ==> s[j] != x;
    }
  }

  /** Removing from a duplicate-free list keeps it duplicate-free. */
  lemma {:induction false} RemoveFirstKeepsDistinct(s: seq<CallbackId>, x: CallbackId)
    requires x in s && NoDuplicates(s)
    ensures NoDuplicates(RemoveFirst(s, x))
  {
    if s[0] != x {
      assert NoDuplicates(s[1..]);
      RemoveFirstKeepsDistinct(s[1..], x);
      RemoveFirstMembers(s[1..], x);
      assert s[0] !in s[1..];
      var r := RemoveFirst(s, x);
      assert r == [s[0]] + RemoveFirst(s[1..], x);
      forall i, j | 0 <= i < j < |r|
        ensures r[i] != r[j]
      {
        if i == 0 {
          assert r[j] in RemoveFirst(s[1..], x);
        } else {
          assert r[i] == RemoveFirst(s[1..], x)[i - 1] && r[j] == RemoveFirst(s[1..], x)[j - 1];
        }
      }
    } else {
      assert s[1..] == RemoveFirst(s, x);
    }
  }

  /** Removing a callback that was just appended to a list without it gives the list back. */
  lemma {:induction false} RemoveAppended(s: seq<CallbackId>, x: CallbackId)
    requires x !in s
    ensures RemoveFirst(s + [x], x) == s
  {
    if s != [] {
      assert (s + [x])[1..] == s[1..] + [x];
      RemoveAppended(s[1..], x);
    }
  }

  /** The calls a read makes: each callback in turn, given the card id. */
  function Deliveries(cbs: seq<CallbackId>, nfcId: string): (r: seq<(CallbackId, string)>)
    ensures |r| == |cbs|
    ensures forall k :: 0 <= k < |r| ==> r[k] == (cbs[k], nfcId)
  {
    seq(|cbs|, k requires 0 <= k < |cbs| => (cbs[k], nfcId))
  }

  class NfcManager {
    /** The mailbox: the last card id read and not yet taken. */
    var latest: Option<string>
    var callbacks: seq<CallbackId>
    /** Every callback call made so far, with the card id it was given, in call order. */
    var delivered: seq<(CallbackId, string)>

    /** The callback list holds no duplicates. */
    predicate Valid()
      reads this
    {
      NoDuplicates(callbacks)
    }

    constructor ()
      ensures Valid()
      ensures latest == None && callbacks == [] && delivered == []
    {
      latest := None;
      callbacks := [];
      delivered := [];
    }

    /** _on_nfc_read: stores the id as the latest, then calls every callback with it, in list order. */
    method OnNfcRead(nfcId: string)
      modifies this
      ensures latest == Some(nfcId)
      ensures delivered == old(delivered) + Deliveries(callbacks, nfcId)
      ensures callbacks == old(callbacks)
    {
      latest := Some(nfcId);
      var i := 0;
      while i < |callbacks|
        invariant 0 <= i <= |callbacks|
        invariant callbacks == old(callbacks) && latest == Some(nfcId)
        invariant delivered == old(delivered) + Deliveries(callbacks[..i], nfcId)
      {
        assert Deliveries(callbacks[..i + 1], nfcId) == Deliveries(callbacks[..i], nfcId) + [(callbacks[i], nfcId)];
        delivered := delivered + [(callbacks[i], nfcId)];
        i := i + 1;
      }
      assert callbacks[..i] == callbacks;
    }

    /** get_latest_nfc_id: hands out the latest id and empties the mailbox. */
    method GetLatestNfcId() returns (nfcId: Option<string>)
      modifies this
      ensures nfcId == old(latest) && latest == None
      ensures callbacks == old(callbacks) && delivered == old(delivered)
    {
      nfcId := latest;
      latest := None;
    }

    /** add_callback: appends a callback not yet registered; a registered one changes nothing. */
    method AddCallback(callback: CallbackId)
      modifies this
      requires Valid()
      ensures Valid()
      ensures callback in old(callbacks) ==> callbacks == old(callbacks)
      ensures callback !in old(callbacks) ==> callbacks == old(callbacks) + [callback]
      ensures latest == old(latest) && delivered == old(delivered)
    {
      if callback !in callbacks {
        callbacks := callbacks + [callback];
      }
    }

    /** remove_callback: drops a registered callback; an unregistered one changes nothing. */
    method RemoveCallback(callback: CallbackId)
      modifies this
      requires Valid()
      ensures Valid()
      ensures callback !in callbacks
      ensures callback in old(callbacks) ==> callbacks == RemoveFirst(old(callbacks), callback)
      ensures callback !in old(callbacks) ==> callbacks == old(callbacks)
      ensures latest == old(latest) && delivered == old(delivered)
    {
      if callback in callbacks {
        RemoveFirstKeepsDistinct(callbacks, callback);
        RemoveFirstMembers(callbacks, callback);
        callbacks := RemoveFirst(callbacks, callback);
      }
    }
  }

  /** Taking the mailbox twice in a row: the second take finds it empty. */
  method TakeTwice(m: NfcManager) returns (first: Option<string>, second: Option<string>)
    modifies m
    ensures first == old(m.latest) && second == None && m.latest == None
  {
    first := m.GetLatestNfcId();
    second := m.GetLatestNfcId();
  }

  /** Registering a new callback and removing it again leaves the registry as it was. */
  method AddThenRemove(m: NfcManager, callback: CallbackId)
    modifies m
    requires m.Valid() && callback !in m.callbacks
    ensures m.Valid() && m.callbacks == old(m.callbacks)
  {
    m.AddCallback(callback);
    RemoveAppended(old(m.callbacks), callback);
    m.RemoveCallback(callback);
  }
}
