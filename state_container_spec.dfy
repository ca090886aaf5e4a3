/**
 * The two examples of the container's own test file, as client code: what a
 * caller can conclude from the contracts of Store and Take alone.
 */
module StateContainerSpec {
  import opened Wrappers
  import opened OAuth2

  /** "saves the state in the session": store on an empty session leaves the nonce
      under "omniauth.state". */
  method SavesStateInSession() returns (session: map<string, string>)
    ensures "omniauth.state" in session && session["omniauth.state"] == "random_state"
  {
    var oauth2 := new Strategy<string>(map[]);
    var subject := new StateContainer();
    subject.Store(oauth2, "random_state");
    session := oauth2.session;
  }

  /** "removes the state from the session": after a store, the session includes the
      state key; take then returns the stored nonce and the key is gone. */
  method RemovesStateFromSession() returns (before: map<string, string>, taken: Option<string>, after: map<string, string>)
    ensures "omniauth.state" in before
    ensures taken == Some("random_state")
    ensures "omniauth.state" !in after
  {
    var oauth2 := new Strategy<string>(map[]);
    var subject := new StateContainer();
    subject.Store(oauth2, "random_state");
    before := oauth2.session;
    taken := subject.Take(oauth2);
    after := oauth2.session;
  }
}
