/** The broadcaster/listener pair of notify.py. Listeners are named by
    identifiers; a broadcaster is the set of connected listeners. A
    notification walks a snapshot of that set, in some order, and delivers
    to each listener that is still connected when its turn comes. What a
    listener does on delivery (possibly connecting or disconnecting
    listeners) is a parameter: `react(l, ls)` is the listener set after `l`
    has handled the message with the set `ls`. */
module Notify {

  type ListenerId = nat

  datatype Broadcaster = Broadcaster(listeners: set<ListenerId>)

  /** A new broadcaster has no listeners: a new listener is not connected. */
  function NewBroadcaster(): (b: Broadcaster)
    ensures b.listeners == {}
  {
    Broadcaster({})
  }

  /** `add_listener`, which `Listener.connect` calls. */
  function Connect(b: Broadcaster, l: ListenerId): (r: Broadcaster)
    ensures l in r.listeners
    ensures forall x :: x != l ==> (x in r.listeners <==> x in b.listeners)
  {
    Broadcaster(b.listeners + {l})
  }

  /** `remove_listener` (a set discard), which `Listener.disconnect` calls. */
  function Disconnect(b: Broadcaster, l: ListenerId): (r: Broadcaster)
    ensures l !in r.listeners
    ensures forall x :: x != l ==> (x in r.listeners <==> x in b.listeners)
  {
    Broadcaster(b.listeners - {l})
  }

  /** Connecting twice is connecting once; disconnecting an unconnected
      listener changes nothing; reconnecting after a disconnect restores
      the connection. */
  lemma ConnectDisconnectLaws(b: Broadcaster, l: ListenerId)
    ensures Connect(Connect(b, l), l) == Connect(b, l)
    ensures l !in b.listeners ==> Disconnect(b, l) == b
    ensures Connect(Disconnect(Connect(b, l), l), l) == Connect(b, l)
    ensures l !in b.listeners ==> Disconnect(Connect(b, l), l) == b
  {
  }

  predicate Distinct(s: seq<ListenerId>) {
    forall i, j :: 0 <= i < j < |s| ==> s[i] != s[j]
  }

  /** `order` lists the snapshot `s` once per listener, as iterating a copy
      of the set does. */
  predicate Enumerates(order: seq<ListenerId>, s: set<ListenerId>) {
    && Distinct(order)
    && (forall i :: 0 <= i < |order| ==> order[i] in s)
    && (forall x :: x in s ==> x in order)
  }

  type Reaction = (ListenerId, set<ListenerId>) -> set<ListenerId>

  /** The rest of a notification from listener set `current` over the
      remaining snapshot `order`: who hears the message, in order, and the
      listener set at the end. A listener hears it exactly when it is still
      connected at its turn. */
  function Run(current: set<ListenerId>, order: seq<ListenerId>, react: Reaction): (r: (seq<ListenerId>, set<ListenerId>))
    ensures |r.0| <= |order|
    ensures forall i :: 0 <= i < |r.0| ==> r.0[i] in order
    decreases |order|
  {
    if |order| == 0 then ([], current)
    else if order[0] in current then
      var rest := Run(react(order[0], current), order[1..], react);
      ([order[0]] + rest.0, rest.1)
    else Run(current, order[1..], react)
  }

  /** Listeners who keep the listener set as it is make a notification
      reach the whole snapshot and leave the set unchanged. */
  lemma {:induction false} RunWithoutReactions(current: set<ListenerId>, order: seq<ListenerId>, react: Reaction)
    requires forall l, ls :: react(l, ls) == ls
    requires forall i :: 0 <= i < |order| ==> order[i] in current
    ensures Run(current, order, react) == (order, current)
    decreases |order|
  {
    if |order| > 0 {
      RunWithoutReactions(current, order[1..], react);
      assert [order[0]] + order[1..] == order;
    }
  }

  /** No listener hears a message twice when the snapshot lists it once. */
  lemma {:induction false} RunDeliversOnce(current: set<ListenerId>, order: seq<ListenerId>, react: Reaction)
    requires Distinct(order)
    ensures Distinct(Run(current, order, react).0)
    decreases |order|
  {
    if |order| > 0 {
      if order[0] in current {
        RunDeliversOnce(react(order[0], current), order[1..], react);
        var rest := Run(react(order[0], current), order[1..], react).0;
        forall k | 0 <= k < |rest|
          ensures rest[k] != order[0]
        {
          var m :| 0 <= m < |order[1..]| && order[1..][m] == rest[k];
          assert order[m + 1] == rest[k];
        }
        var d := [order[0]] + rest;
        assert Run(current, order, react).0 == d;
        forall i, j | 0 <= i < j < |d|
          ensures d[i] != d[j]
        {
          assert d[j] == rest[j - 1];
          if i > 0 {
            assert d[i] == rest[i - 1];
          }
        }
      } else {
        RunDeliversOnce(current, order[1..], react);
        assert Run(current, order, react) == Run(current, order[1..], react);
      }
    }
  }

  /** A listener that is not connected, and that no reaction connects,
      does not hear the message, even though it is in the snapshot. */
  lemma {:induction false} RunSkipsDisconnected(current: set<ListenerId>, order: seq<ListenerId>, react: Reaction, l: ListenerId)
    requires l !in current
    requires forall x, ls :: l !in ls ==> l !in react(x, ls)
    ensures l !in Run(current, order, react).0
    decreases |order|
  {
    if |order| > 0 {
      if order[0] in current {
        RunSkipsDisconnected(react(order[0], current), order[1..], react, l);
      } else {
        RunSkipsDisconnected(current, order[1..], react, l);
      }
    }
  }

  /** `notify`: walks the snapshot `order` of the listener set and delivers
      to each listener still connected at its turn. */
  method Notify(b: Broadcaster, order: seq<ListenerId>, react: Reaction)
    returns (delivered: seq<ListenerId>, after: Broadcaster)
    requires Enumerates(order, b.listeners)
    ensures (delivered, after.listeners) == Run(b.listeners, order, react)
    ensures forall i :: 0 <= i < |delivered| ==> delivered[i] in b.listeners
    ensures Distinct(delivered)
    ensures (forall l, ls :: react(l, ls) == ls) ==> delivered == order && after == b
  {
    var current := b.listeners;
    delivered := [];
    var i := 0;
    assert order[0..] == order;
    assert [] + Run(current, order, react).0 == Run(current, order, react).0;
    while i < |order|
      invariant 0 <= i <= |order|
      invariant Run(b.listeners, order, react)
        == (delivered + Run(current, order[i..], react).0, Run(current, order[i..], react).1)
    {
      var l := order[i];
      assert order[i..][1..] == order[i + 1..];
      if l in current {
        var rest := Run(react(l, current), order[i + 1..], react);
        assert delivered + ([l] + rest.0) == (delivered + [l]) + rest.0;
        delivered := delivered + [l];
        current := react(l, current);
      }
      i := i + 1;
    }
    after := Broadcaster(current);
    assert delivered + [] == delivered;
    RunDeliversOnce(b.listeners, order, react);
    if forall l, ls :: react(l, ls) == ls {
      RunWithoutReactions(b.listeners, order, react);
    }
  }

  /** The two listeners of the unit test, each disconnecting the other
      when it hears the message. */
  function DisconnectOther(a: ListenerId, c: ListenerId): Reaction {
    (l: ListenerId, ls: set<ListenerId>) => if l == a then ls - {c} else if l == c then ls - {a} else ls
  }

  /** Whichever of the two goes first is the only one that hears the message. */
  lemma MutualDisconnectDeliversOnce(a: ListenerId, c: ListenerId)
    requires a != c
    ensures Run({a, c}, [a, c], DisconnectOther(a, c)) == ([a], {a})
  {
    var react := DisconnectOther(a, c);
    assert react(a, {a, c}) == {a};
    assert [a, c][1..] == [c];
    assert [c][1..] == [];
    assert Run({a}, [c], react) == ([], {a});
    assert Run({a, c}, [a, c], react) == ([a] + Run({a}, [c], react).0, Run({a}, [c], react).1);
    assert [a] + [] == [a];
  }
}
