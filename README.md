# OAuth2 state container

This project models `OmniAuth::Strategies::OAuth2::StateContainer` from the
omniauth-oauth2 gem. An OAuth2 strategy uses it to keep the CSRF state nonce
between the authorize redirect and the callback. The nonce lives in the
strategy's session, a mutable string-keyed hash owned by the host
application. The container touches one fixed key, `"omniauth.state"`:

- `store(oauth2, state)` assigns the nonce to that key. Any earlier value is replaced.
- `take(oauth2)` deletes the key with `Hash#delete`. It returns the value the key held, or `nil` if it held none.

Files:

- `wrappers.dfy`: `Option`, which stands for Ruby's value-or-`nil`.
- `state_container.dfy` (module `OAuth2`): the key constant `StateKey`.
  - `Assign` and `Delete` model Ruby's `Hash#[]=` and `Hash#delete` as functions on maps.
  - Class `Strategy` holds the `session` field. Class `StateContainer` has the methods `Store` and `Take`, which update that field in place.
  - Lemmas give the nonce's lifecycle: a store followed by a take, a take with nothing stored, and two stores in a row.
- `lifecycle.dfy` (module `Lifecycle`): any sequence of session events. An event is a store, a take, or a write or delete of some other key by the host.
  - `Pending` is an independent reference for the nonce a take would find.
  - The lemmas prove, by induction over the sequence, that container and host do not interfere.
- `state_container_spec.dfy` (module `StateContainerSpec`): the two examples from the container's own test file, written as client methods. They are proved from the contracts of `Store` and `Take` alone.

`store` overwrites unconditionally (`state_container.rb:6`). There is no
keep-if-present rule and no per-provider key. `StoreLastWriteWins` proves the
overwrite.

## Model

| member | source | states |
|---|---|---|
| `OAuth2.Assign` | lib/omniauth/strategies/oauth2/state_container.rb:6 | After index assignment the key holds the new value, whether or not it held one before. The key set grows by that key only, and every other entry is unchanged. |
| `OAuth2.Delete` | lib/omniauth/strategies/oauth2/state_container.rb:10 | `Hash#delete` returns a value exactly when the key was present, and that value is the one it held. Afterwards the key is absent and every other entry is unchanged. |
| `OAuth2.StateContainer.Store` | lib/omniauth/strategies/oauth2/state_container.rb:5-7 | After `store`, `session["omniauth.state"]` is the given state, replacing any earlier value. No other key changes. |
| `OAuth2.StateContainer.Take` | lib/omniauth/strategies/oauth2/state_container.rb:9-11 | `take` returns the state held under `"omniauth.state"`, or None if there was none. Afterwards that key is absent and no other key changes. |
| `OAuth2.TakeAfterStore` | lib/omniauth/strategies/oauth2/state_container.rb:5-11 | A take right after `store(state)` returns exactly `state`. It leaves the session as a take on the pre-store session would have left it. |
| `OAuth2.StoreTakeRestores` | lib/omniauth/strategies/oauth2/state_container.rb:5-11 | If the session held no state, store followed by take returns the state and restores the original session exactly. |
| `OAuth2.TakeWhenAbsent` | lib/omniauth/strategies/oauth2/state_container.rb:10 | A take on a session without `"omniauth.state"` returns None and leaves the session unchanged. |
| `OAuth2.SecondTakeAbsent` | lib/omniauth/strategies/oauth2/state_container.rb:9-11 | For any session, a second take in a row returns None and changes nothing. |
| `OAuth2.StoreLastWriteWins` | lib/omniauth/strategies/oauth2/state_container.rb:5-7 | Two stores in a row leave the same session as the second store alone. There is no keep-if-present rule. |
| `Lifecycle.TakeFindsPending` | lib/omniauth/strategies/oauth2/state_container.rb:5-11 | Take any sequence of stores, takes and host writes to other keys. A take afterwards returns the argument of the latest store, or None if a take came after that store. If neither occurred, it returns what the session started with. |
| `Lifecycle.ContainerInvisibleElsewhere` | lib/omniauth/strategies/oauth2/state_container.rb:5-11 | Take any sequence of events. Every key other than `"omniauth.state"` ends up as if only the host's events had run. |
| `Lifecycle.OnlyStateKeyChanges` | lib/omniauth/strategies/oauth2/state_container.rb:5-11 | Any sequence of stores and takes alone leaves every other key of the session exactly as it was. |
| `StateContainerSpec.SavesStateInSession` | spec/omniauth/strategies/oauth2/state_container_spec.rb:8-12 | A store of "random_state" on an empty session leaves it under "omniauth.state". |
| `StateContainerSpec.RemovesStateFromSession` | spec/omniauth/strategies/oauth2/state_container_spec.rb:16-27 | After a store, the session includes the state key. Take then returns "random_state" and the key is gone. |

## Left out

- `OAuth2.StateContainer.Store` does not model the Ruby return value of `store`, which is the assigned state. No caller visible here uses it.
- `OAuth2.StateContainer.Take` returns `Some(v)` for a stored value `v`. In Ruby, a stored `nil` and a missing key both give `nil`. The model keeps them apart, so it differs from Ruby here: a caller of the model can tell `Some(nil)` from `None`, and a Ruby caller cannot.
- `OmniAuth::Strategies::OAuth2` is not part of this model. It is outside this model. That leaves out state generation, `authorize_params`/`token_params`, the callback phase and `CallbackError#message`.
- The per-state key `"omniauth.state.#{state}"` that `spec/omniauth/strategies/oauth2_spec.rb:63` expects is left out. It belongs to that strategy, not to `state_container.rb`.
- Random nonce generation, PKCE hashing, the token-exchange HTTP client and the Rack session plumbing are left out. They are randomness, cryptography, foreign library calls or I/O.
- Concurrent access to one session is left out. The model runs each call as one atomic step; interleaved concurrent requests on one session are not modelled.
- The model assumes `oauth2.session` is always a hash. In Ruby, a nil session makes both `store` and `take` raise NoMethodError; that error path is not modelled.
- Ruby's Hash keeps insertion order; the model uses an unordered `map`. Nothing in `state_container.rb` depends on the order.
