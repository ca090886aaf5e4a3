/**
 * OmniAuth::Strategies::OAuth2::StateContainer: the CSRF state nonce of an
 * OAuth2 flow, kept in the strategy's session hash under one fixed key.
 *
 * The two Ruby Hash operations the container uses, index assignment and
 * Hash#delete, are given first as functions on maps; the classes below use
 * them, and the lemmas at the end state the nonce's lifecycle in their terms.
 */
module OAuth2 {
  import opened Wrappers

  /** The one session key under which the state nonce is kept. */
  const StateKey: string := "omniauth.state"

  /** What Hash#delete hands back: the value it removed (None for nil) and the hash left behind. */
  datatype Deletion<V> = Deletion(removed: Option<V>, rest: map<string, V>)

  /** Hash#[]=: afterwards `key` holds `value`, whether or not it held something before,
      and every other entry is as it was. */
  function Assign<V>(session: map<string, V>, key: string, value: V): (r: map<string, V>)
    ensures r.Keys == session.Keys + {key}
    ensures r[key] == value
    ensures forall k :: k in session && k != key ==> r[k] == session[k]
  {
    session[key := value]
  }

  /** Hash#delete (no block): the entry for `key` is gone afterwards; the value it held
      is handed back, or None (Ruby's nil) when there was none; every other entry is kept. */
  function Delete<V>(session: map<string, V>, key: string): (r: Deletion<V>)
    ensures r.removed.Some? <==> key in session
    ensures r.removed.Some? ==> r.removed.value == session[key]
    ensures r.rest.Keys == session.Keys - {key}
    ensures forall k :: k in r.rest ==> r.rest[k] == session[k]
  {
    if key in session then Deletion(Some(session[key]), session - {key})
    else Deletion(None, session)
  }

  /** The strategy object, reduced to the one part StateContainer touches: its session hash. */
  class Strategy<V> {
    var session: map<string, V>

    constructor (session: map<string, V>)
      ensures this.session == session
    {
      this.session := session;
    }
  }

  /** The container itself holds nothing; both methods work on the strategy they are given. */
  class StateContainer {

    constructor ()
    {
    }

    /** `store(oauth2, state)`: puts the nonce under the state key, replacing any earlier one. */
    method Store<V>(oauth2: Strategy<V>, state: V)
      modifies oauth2
      ensures oauth2.session == Assign(old(oauth2.session), StateKey, state)
      ensures StateKey in oauth2.session && oauth2.session[StateKey] == state
      ensures oauth2.session.Keys == old(oauth2.session).Keys + {StateKey}
      ensures forall k :: k in old(oauth2.session) && k != StateKey ==>
                oauth2.session[k] == old(oauth2.session)[k]
    {
      oauth2.session := Assign(oauth2.session, StateKey, state);
    }

    /** `take(oauth2)`: removes the state key and returns what it held, None if nothing. */
    method Take<V>(oauth2: Strategy<V>) returns (state: Option<V>)
      modifies oauth2
      ensures Deletion(state, oauth2.session) == Delete(old(oauth2.session), StateKey)
      ensures state.Some? <==> StateKey in old(oauth2.session)
      ensures state.Some? ==> state.value == old(oauth2.session)[StateKey]
      ensures StateKey !in oauth2.session
      ensures oauth2.session.Keys == old(oauth2.session).Keys - {StateKey}
      ensures forall k :: k in oauth2.session ==> oauth2.session[k] == old(oauth2.session)[k]
    {
      var d := Delete(oauth2.session, StateKey);
      state, oauth2.session := d.removed, d.rest;
    }
  }

  /** A take right after store(state) returns exactly `state` and leaves the session
      without the state key but otherwise as store found it. */
  lemma TakeAfterStore<V>(session: map<string, V>, state: V)
    ensures Delete(Assign(session, StateKey, state), StateKey)
            == Deletion(Some(state), Delete(session, StateKey).rest)
  {
  }

  /** When the session had no state before store, store then take gives back the very
      session the flow started from. */
  lemma StoreTakeRestores<V>(session: map<string, V>, state: V)
    requires StateKey !in session
    ensures Delete(Assign(session, StateKey, state), StateKey) == Deletion(Some(state), session)
  {
    TakeAfterStore(session, state);
    assert Delete(session, StateKey).rest == session;
  }

  /** A take with no state in the session returns None and changes nothing. */
  lemma TakeWhenAbsent<V>(session: map<string, V>)
    requires StateKey !in session
    ensures Delete(session, StateKey) == Deletion(None, session)
  {
  }

  /** Whatever the session held, a second take in a row returns None and changes nothing. */
  lemma SecondTakeAbsent<V>(session: map<string, V>)
    ensures var once := Delete(session, StateKey).rest;
            Delete(once, StateKey) == Deletion(None, once)
  {
    TakeWhenAbsent(Delete(session, StateKey).rest);
  }

  /** store never keeps an earlier nonce: of two stores the later one wins outright. */
  lemma StoreLastWriteWins<V>(session: map<string, V>, first: V, second: V)
    ensures Assign(Assign(session, StateKey, first), StateKey, second)
            == Assign(session, StateKey, second)
  {
  }
}
