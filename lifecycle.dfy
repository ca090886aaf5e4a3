/**
 * The state nonce over a whole run of a session. The session belongs to the
 * host program: besides the container's store and take, the rest of the
 * program sets and deletes keys of its own. The lemmas say that the container
 * and the host do not see each other's writes: a take finds exactly the nonce
 * of the latest store not yet taken, and every other key reads as if the
 * container had never run.
 */
module Lifecycle {
  import opened Wrappers
  import opened OAuth2

  /** One thing done to the session: a store or take by the container, or a write or
      delete of some key by the host. */
  datatype Event<V> =
    | Stored(state: V)
    | Taken
    | HostSet(key: string, value: V)
    | HostDeleted(key: string)

  /** True of the events for which the host, not the container, is responsible. */
  predicate IsHost<V>(e: Event<V>)
  {
    e.HostSet? || e.HostDeleted?
  }

  /** True unless `e` is a host event on the state key (only the container writes there). */
  predicate KeepsOffState<V>(e: Event<V>)
  {
    match e
    case HostSet(k, _) => k != StateKey
    case HostDeleted(k) => k != StateKey
    case _ => true
  }

  /** The session after one event. */
  function Apply<V>(session: map<string, V>, e: Event<V>): map<string, V>
  {
    match e
    case Stored(state) => Assign(session, StateKey, state)
    case Taken => Delete(session, StateKey).rest
    case HostSet(k, v) => Assign(session, k, v)
    case HostDeleted(k) => Delete(session, k).rest
  }

  /** The session after the events, in order. */
  function Run<V>(session: map<string, V>, events: seq<Event<V>>): map<string, V>
    decreases |events|
  {
    if events == [] then session
    else Apply(Run(session, events[..|events| - 1]), events[|events| - 1])
  }

  /** The host's events alone, in their order. */
  function HostOnly<V>(events: seq<Event<V>>): (r: seq<Event<V>>)
    decreases |events|
    ensures |r| <= |events|
    ensures forall i :: 0 <= i < |r| ==> IsHost(r[i])
    ensures forall i :: 0 <= i < |r| ==> r[i] in events
    ensures forall i :: 0 <= i < |events| && IsHost(events[i]) ==> events[i] in r
  {
    if events == [] then []
    else
      var last := events[|events| - 1];
      if IsHost(last) then HostOnly(events[..|events| - 1]) + [last]
      else HostOnly(events[..|events| - 1])
  }

  /** Reference for the nonce a take would find after `events`: the argument of the
      latest store, unless a take came after it (then none); with neither, whatever
      the session started with. Host events do not matter. */
  function Pending<V>(initial: map<string, V>, events: seq<Event<V>>): Option<V>
    decreases |events|
  {
    if events == [] then (if StateKey in initial then Some(initial[StateKey]) else None)
    else match events[|events| - 1]
      case Stored(state) => Some(state)
      case Taken => None
      case _ => Pending(initial, events[..|events| - 1])
  }

  /** As long as the host keeps off the state key, a take returns the pending nonce:
      the latest store wins, a take consumes it, and host writes to other keys in
      between change nothing. */
  lemma {:induction false} TakeFindsPending<V>(session: map<string, V>, events: seq<Event<V>>)
    requires forall i :: 0 <= i < |events| ==> KeepsOffState(events[i])
    ensures Delete(Run(session, events), StateKey).removed == Pending(session, events)
    decreases |events|
  {
    if events != [] {
      var init := events[..|events| - 1];
      assert forall i :: 0 <= i < |init| ==> KeepsOffState(init[i]) by {
        forall i | 0 <= i < |init| ensures KeepsOffState(init[i]) {
          assert init[i] == events[i];
        }
      }
      TakeFindsPending(session, init);
      assert KeepsOffState(events[|events| - 1]);
    }
  }

  /** `a` and `b` hold the same entry for `k`, or neither holds one. */
  ghost predicate AgreeOn<V>(a: map<string, V>, b: map<string, V>, k: string)
  {
    (k in a <==> k in b) && (k in a ==> a[k] == b[k])
  }

  /** A store or take leaves every key but the state key as it was. */
  lemma ContainerEventElsewhere<V>(session: map<string, V>, e: Event<V>, k: string)
    requires !IsHost(e) && k != StateKey
    ensures AgreeOn(Apply(session, e), session, k)
  {
  }

  /** A host event does the same to `k` in any two sessions that agree on `k`. */
  lemma HostEventElsewhere<V>(a: map<string, V>, b: map<string, V>, e: Event<V>, k: string)
    requires IsHost(e) && AgreeOn(a, b, k)
    ensures AgreeOn(Apply(a, e), Apply(b, e), k)
  {
  }

  /** On every key but the state key, the session reads as if only the host had
      touched it: store and take are invisible there. */
  lemma {:induction false} ContainerInvisibleElsewhere<V>(
    session: map<string, V>, events: seq<Event<V>>, k: string)
    requires k != StateKey
    ensures AgreeOn(Run(session, events), Run(session, HostOnly(events)), k)
    decreases |events|
  {
    if events != [] {
      var init, last := events[..|events| - 1], events[|events| - 1];
      ContainerInvisibleElsewhere(session, init, k);
      if IsHost(last) {
        var h := HostOnly(init) + [last];
        assert h[..|h| - 1] == HostOnly(init);
        HostEventElsewhere(Run(session, init), Run(session, HostOnly(init)), last, k);
      } else {
        ContainerEventElsewhere(Run(session, init), last, k);
      }
    }
  }

  /** With no host events at all, any run of stores and takes leaves every other
      key exactly as it found it. */
  lemma OnlyStateKeyChanges<V>(session: map<string, V>, events: seq<Event<V>>, k: string)
    requires forall i :: 0 <= i < |events| ==> !IsHost(events[i])
    requires k != StateKey
    ensures AgreeOn(Run(session, events), session, k)
  {
    ContainerInvisibleElsewhere(session, events, k);
    NoHostEvents(events);
  }

  lemma {:induction false} NoHostEvents<V>(events: seq<Event<V>>)
    requires forall i :: 0 <= i < |events| ==> !IsHost(events[i])
    ensures HostOnly(events) == []
    decreases |events|
  {
    if events != [] {
      var init := events[..|events| - 1];
      assert forall i :: 0 <= i < |init| ==> !IsHost(init[i]) by {
        forall i | 0 <= i < |init| ensures !IsHost(init[i]) {
          assert init[i] == events[i];
        }
      }
      NoHostEvents(init);
      assert !IsHost(events[|events| - 1]);
    }
  }
}
