/**
 * The registry of this machine's subscriptions (communication/SubscriptionRegistry.java):
 * for each keygroup the list of subscribers listening to other machines' publishers.
 *
 * A subscriber is an opaque handle; the serial number the registry hands out stands
 * for Java object identity. Starting and stopping a subscriber's reception are the
 * `Started` and `Stopped` events of the registry's event log.
 */
module Subscriptions {
  import opened Types

  datatype Subscriber = Subscriber(
    serial: nat,
    address: string,
    port: int,
    secret: string,
    algorithm: EncryptionAlgorithm,
    keygroup: KeygroupId)

  datatype Event = Started(subscriber: Subscriber) | Stopped(subscriber: Subscriber)

  type Active = map<KeygroupId, seq<Subscriber>>

  /** The number of subscriptions of a keygroup: the length of its list, or 0 without one. */
  function Count(m: Active, k: KeygroupId): nat {
    if k in m then |m[k]| else 0
  }

  /** The map after appending `s` to its keygroup's list, creating the list if absent. */
  function Subscribed(m: Active, s: Subscriber): Active {
    var k := s.keygroup;
    m[k := (if k in m then m[k] else []) + [s]]
  }

  ghost function Pick(m: Active): KeygroupId
    requires m.Keys != {}
  {
    var k :| k in m.Keys; k
  }

  /** All subscribers in the registry, over every keygroup. */
  ghost function AllSubscribers(m: Active): multiset<Subscriber>
    decreases m.Keys
  {
    if m.Keys == {} then multiset{}
    else
      var k := Pick(m);
      multiset(m[k]) + AllSubscribers(m - {k})
  }

  /** The total number of subscriptions: the sum of the list lengths over all keygroups. */
  ghost function Total(m: Active): nat {
    |AllSubscribers(m)|
  }

  /** Any keygroup can be taken out of the fold first. */
  lemma {:induction false} AllSubscribersRemove(m: Active, k: KeygroupId)
    requires k in m
    ensures AllSubscribers(m) == multiset(m[k]) + AllSubscribers(m - {k})
    decreases m.Keys
  {
    assert k in m.Keys;
    var j := Pick(m);
    if j != k {
      assert j in (m - {k}).Keys;
      AllSubscribersRemove(m - {j}, k);
      AllSubscribersRemove(m - {k}, j);
      assert m - {j} - {k} == m - {k} - {j};
      assert (m - {j})[k] == m[k] && (m - {k})[j] == m[j];
    }
  }

  lemma AllSubscribersEmpty(m: Active)
    requires m.Keys == {}
    ensures AllSubscribers(m) == multiset{} && Total(m) == 0
  {
  }

  /** Replacing a keygroup's list changes the fold by exactly the two lists. */
  lemma AllSubscribersUpdate(m: Active, k: KeygroupId, list: seq<Subscriber>)
    ensures AllSubscribers(m[k := list]) + (if k in m then multiset(m[k]) else multiset{})
         == AllSubscribers(m) + multiset(list)
  {
    AllSubscribersRemove(m[k := list], k);
    assert m[k := list] - {k} == m - {k};
    if k in m {
      AllSubscribersRemove(m, k);
    } else {
      assert m - {k} == m;
    }
  }

  /** subscribeTo adds exactly one subscriber to the registry, so the total goes up by one. */
  lemma SubscribeAddsOne(m: Active, s: Subscriber)
    ensures AllSubscribers(Subscribed(m, s)) == AllSubscribers(m) + multiset{s}
    ensures Total(Subscribed(m, s)) == Total(m) + 1
  {
    var k := s.keygroup;
    var list := if k in m then m[k] else [];
    var rest := AllSubscribers(m - {k});
    SubscribedFold(m, s);
    FoldWithout(m, k);
    assert AllSubscribers(Subscribed(m, s)) == multiset(list) + multiset{s} + rest;
    assert AllSubscribers(m) == multiset(list) + rest;
  }

  /** The registry after a subscription is the keygroup's old list, the new subscriber and the other keygroups' lists. */
  lemma SubscribedFold(m: Active, s: Subscriber)
    ensures var k := s.keygroup;
      AllSubscribers(Subscribed(m, s))
        == multiset(if k in m then m[k] else []) + multiset{s} + AllSubscribers(m - {k})
  {
    var k := s.keygroup;
    var list := if k in m then m[k] else [];
    var after := Subscribed(m, s);
    AllSubscribersRemove(after, k);
    assert after - {k} == m - {k};
    assert after[k] == list + [s];
  }

  /** The fold is a keygroup's list, if it has one, plus the other keygroups' lists. */
  lemma FoldWithout(m: Active, k: KeygroupId)
    ensures AllSubscribers(m) == multiset(if k in m then m[k] else []) + AllSubscribers(m - {k})
  {
    if k in m {
      AllSubscribersRemove(m, k);
    } else {
      assert m - {k} == m;
    }
  }

  /**
   * subscribeTo appends to the keygroup's list, creating it if absent, so its count
   * goes up by one; no other keygroup's list changes.
   */
  lemma SubscribeAppends(m: Active, s: Subscriber, other: KeygroupId)
    ensures Count(Subscribed(m, s), s.keygroup) == Count(m, s.keygroup) + 1
    ensures Subscribed(m, s)[s.keygroup] == (if s.keygroup in m then m[s.keygroup] else []) + [s]
    ensures other != s.keygroup ==> (other in Subscribed(m, s) <==> other in m)
    ensures other != s.keygroup && other in m ==> Subscribed(m, s)[other] == m[other]
  {
  }

  /** Taking a keygroup's list out lowers the total by that list's length. */
  lemma RemoveEffect(m: Active, k: KeygroupId)
    ensures Total(m - {k}) == Total(m) - Count(m, k)
    ensures k !in m ==> m - {k} == m
  {
    if k in m {
      AllSubscribersRemove(m, k);
    } else {
      assert m - {k} == m;
    }
  }

  /** The unsubscribe test: one subscription in an empty registry gives a total of 1, and unsubscribing that keygroup gives 0. */
  lemma SubscribeThenUnsubscribe(s: Subscriber)
    ensures Total(Subscribed(map[], s)) == 1
    ensures Total(Subscribed(map[], s) - {s.keygroup}) == 0
  {
    var empty: Active := map[];
    AllSubscribersEmpty(empty);
    SubscribeAddsOne(empty, s);
    RemoveEffect(Subscribed(empty, s), s.keygroup);
  }

  /** The events logged by stopping every subscriber of a list, in list order. */
  function Stops(list: seq<Subscriber>): (r: seq<Event>)
    ensures |r| == |list|
  {
    seq(|list|, i requires 0 <= i < |list| => Stopped(list[i]))
  }

  lemma StopsAppend(a: seq<Subscriber>, b: seq<Subscriber>)
    ensures Stops(a + b) == Stops(a) + Stops(b)
  {
    assert forall i | 0 <= i < |a + b| :: Stops(a + b)[i] == (Stops(a) + Stops(b))[i];
  }

  /** The events logged by starting every subscriber of a list, in list order. */
  function Starts(list: seq<Subscriber>): (r: seq<Event>)
    ensures |r| == |list|
  {
    seq(|list|, i requires 0 <= i < |list| => Started(list[i]))
  }

  lemma StartsAppend(a: seq<Subscriber>, b: seq<Subscriber>)
    ensures Starts(a + b) == Starts(a) + Starts(b)
  {
    assert forall i | 0 <= i < |a + b| :: Starts(a + b)[i] == (Starts(a) + Starts(b))[i];
  }

  class SubscriptionRegistry {
    var activeSubscriptions: Active
    var events: seq<Event>
    var nextSerial: nat

    /** Every listed subscriber was handed out by this registry and listens for the keygroup it is listed under. */
    ghost predicate Valid()
      reads this
    {
      forall k, i | k in activeSubscriptions && 0 <= i < |activeSubscriptions[k]| ::
        activeSubscriptions[k][i].keygroup == k && activeSubscriptions[k][i].serial < nextSerial
    }

    constructor ()
      ensures Valid() && activeSubscriptions == map[] && events == [] && nextSerial == 0
    {
      activeSubscriptions, events, nextSerial := map[], [], 0;
    }

    /** subscribeTo: starts a new subscriber and appends it to the keygroup's list. */
    method SubscribeTo(address: string, port: int, secret: string, algorithm: EncryptionAlgorithm, keygroup: KeygroupId)
      returns (subscriber: Subscriber)
      requires Valid()
      modifies this
      ensures Valid()
      ensures subscriber == Subscriber(old(nextSerial), address, port, secret, algorithm, keygroup)
      ensures nextSerial == old(nextSerial) + 1
      ensures activeSubscriptions == Subscribed(old(activeSubscriptions), subscriber)
      ensures events == old(events) + [Started(subscriber)]
    {
      subscriber := Subscriber(nextSerial, address, port, secret, algorithm, keygroup);
      nextSerial := nextSerial + 1;
      events := events + [Started(subscriber)];
      var list := if keygroup in activeSubscriptions then activeSubscriptions[keygroup] else [];
      activeSubscriptions := activeSubscriptions[keygroup := list + [subscriber]];
    }

    /** getSubscriberForKeygroup: the keygroup's list, or nothing (null). */
    method GetSubscriberForKeygroup(keygroup: KeygroupId) returns (list: Option<seq<Subscriber>>)
      ensures list.Some? <==> keygroup in activeSubscriptions
      ensures list.Some? ==> list.value == activeSubscriptions[keygroup]
    {
      list := if keygroup in activeSubscriptions then Some(activeSubscriptions[keygroup]) else None;
    }

    /** removeSubscriberForKeygroup: detaches the keygroup's list without stopping anyone. */
    method RemoveSubscriberForKeygroup(keygroup: KeygroupId) returns (list: Option<seq<Subscriber>>)
      requires Valid()
      modifies this`activeSubscriptions
      ensures Valid()
      ensures list.Some? <==> keygroup in old(activeSubscriptions)
      ensures list.Some? ==> list.value == old(activeSubscriptions)[keygroup]
      ensures activeSubscriptions == old(activeSubscriptions) - {keygroup}
    {
      list := if keygroup in activeSubscriptions then Some(activeSubscriptions[keygroup]) else None;
      activeSubscriptions := activeSubscriptions - {keygroup};
    }

    /** Stops every subscriber of a list, in list order. */
    method StopAll(list: seq<Subscriber>)
      modifies this`events
      ensures events == old(events) + Stops(list)
    {
      var i := 0;
      while i < |list|
        invariant 0 <= i <= |list|
        invariant events == old(events) + Stops(list[..i])
      {
        assert list[..i + 1] == list[..i] + [list[i]];
        StopsAppend(list[..i], [list[i]]);
        events := events + [Stopped(list[i])];
        i := i + 1;
      }
      assert list[..i] == list;
    }

    /**
     * unsubscribeFromKeygroup: removes the keygroup's list and stops each of its
     * subscribers. Without a list the source fails with a null dereference before
     * changing anything; here that is the `false` outcome.
     */
    method UnsubscribeFromKeygroup(keygroup: KeygroupId) returns (ok: bool)
      requires Valid()
      modifies this`activeSubscriptions, this`events
      ensures Valid()
      ensures ok <==> keygroup in old(activeSubscriptions)
      ensures !ok ==> activeSubscriptions == old(activeSubscriptions) && events == old(events)
      ensures ok ==> activeSubscriptions == old(activeSubscriptions) - {keygroup}
      ensures ok ==> events == old(events) + Stops(old(activeSubscriptions)[keygroup])
    {
      if keygroup !in activeSubscriptions {
        return false;
      }
      var list := activeSubscriptions[keygroup];
      activeSubscriptions := activeSubscriptions - {keygroup};
      StopAll(list);
      ok := true;
    }

    method SubscribedToKeygroupId(keygroup: KeygroupId) returns (subscribed: bool)
      ensures subscribed <==> keygroup in activeSubscriptions
    {
      subscribed := keygroup in activeSubscriptions;
    }

    /** getNumberOfActiveSubscriptions(keygroupID): the length of the keygroup's list, or 0. */
    method GetNumberOfActiveSubscriptionsFor(keygroup: KeygroupId) returns (number: nat)
      ensures number == Count(activeSubscriptions, keygroup)
      ensures number == 0 <==> keygroup !in activeSubscriptions || activeSubscriptions[keygroup] == []
    {
      var subscribed := SubscribedToKeygroupId(keygroup);
      if subscribed {
        return |activeSubscriptions[keygroup]|;
      }
      return 0;
    }

    /** getNumberOfActiveSubscriptions(): the sum of the counts over all keygroups. */
    method GetNumberOfActiveSubscriptions() returns (number: nat)
      ensures number == Total(activeSubscriptions)
      ensures activeSubscriptions == map[] ==> number == 0
    {
      if activeSubscriptions.Keys == {} {
        AllSubscribersEmpty(activeSubscriptions);
        return 0;
      }
      number := 0;
      var rest := activeSubscriptions.Keys;
      ghost var left := activeSubscriptions;
      while rest != {}
        invariant left.Keys == rest
        invariant forall k | k in left :: k in activeSubscriptions && left[k] == activeSubscriptions[k]
        invariant number + Total(left) == Total(activeSubscriptions)
        decreases rest
      {
        var k :| k in rest;
        var count := GetNumberOfActiveSubscriptionsFor(k);
        AllSubscribersRemove(left, k);
        number := number + count;
        left := left - {k};
        rest := rest - {k};
      }
      AllSubscribersEmpty(left);
    }

    /**
     * Stops every subscriber of every keygroup of `m`, keygroup by keygroup in the
     * map's (unspecified) order. The ghost result is the order in which they were
     * stopped; exactly the subscribers of `m` are.
     */
    method StopEvery(m: Active) returns (ghost stopped: seq<Subscriber>)
      modifies this`events
      ensures events == old(events) + Stops(stopped)
      ensures multiset(stopped) == AllSubscribers(m)
    {
      stopped := [];
      var rest := m.Keys;
      ghost var left := m;
      while rest != {}
        invariant left.Keys == rest
        invariant forall k | k in left :: k in m && left[k] == m[k]
        invariant events == old(events) + Stops(stopped)
        invariant multiset(stopped) + AllSubscribers(left) == AllSubscribers(m)
        decreases rest
      {
        var k :| k in rest;
        var list := m[k];
        StopAll(list);
        StopsAppend(stopped, list);
        AllSubscribersRemove(left, k);
        stopped := stopped + list;
        left := left - {k};
        rest := rest - {k};
      }
      AllSubscribersEmpty(left);
    }

    /** deleteAllData: stops every registered subscriber, then empties the registry. */
    method DeleteAllData() returns (ghost stopped: seq<Subscriber>)
      modifies this`activeSubscriptions, this`events
      ensures Valid()
      ensures activeSubscriptions == map[]
      ensures events == old(events) + Stops(stopped)
      ensures multiset(stopped) == AllSubscribers(old(activeSubscriptions))
    {
      stopped := StopEvery(activeSubscriptions);
      activeSubscriptions := map[];
    }
  }
}
