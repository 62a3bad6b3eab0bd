/** `AuthProvider`: the credential session and the local PIN gate.

    Each handler is one transition from the pre-state to the post-state. Its
    `set…` calls are applied in the order the code makes them, so the last
    call for a field wins, and every value the handler computes is read from
    the pre-state snapshot `s`, as React's closure reads it. Time is the
    integer `now` in milliseconds. */
module AuthContext {
  import opened Base
  import LoginApi

  /** The fixed PIN the component compares against. */
  const Pin := "1111"
  const ShortLockoutAttempts := 4
  const LongLockoutAttempts := 8
  const ShortLockoutMs := 30 * 1000
  const LongLockoutMs := 3 * 60 * 1000

  datatype AuthState = AuthState(
    user: Option<LoginApi.User>,
    isAuthenticated: bool,
    isPinAuthenticated: bool,
    isLoading: bool,
    pinAttempts: nat,
    blockUntil: Option<int>)

  /** The `useState` initial values. */
  const Initial := AuthState(None, false, false, true, 0, None)

  /** Notifications raised by the context. */
  datatype Toast = ShortLockoutToast | LongLockoutToast | LoginFailedToast

  /** A handler's result: its return value, the committed state, the storage
      after its writes, and the toast it raised. */
  datatype Outcome = Outcome(ok: bool, state: AuthState, store: Storage, toast: Option<Toast>)

  /** The lockout test of `verifyPin`: a lockout is set and not yet reached. */
  predicate Blocked(s: AuthState, now: int)
  {
    s.blockUntil.Some? && now < s.blockUntil.value
  }

  /** The expiry test of `verifyPin`: a lockout is set and strictly passed. */
  predicate BlockExpired(s: AuthState, now: int)
  {
    s.blockUntil.Some? && now > s.blockUntil.value
  }

  /** `verifyPin(pin)` at time `now`. */
  function VerifyPin(s: AuthState, store: Storage, pin: string, now: int): (r: Outcome)
    // During a lockout nothing happens, whatever the PIN.
    ensures Blocked(s, now) ==> r == Outcome(false, s, store, None)
    ensures r.ok <==> !Blocked(s, now) && pin == Pin
    // The right PIN opens the gate, clears the throttle and persists the flag.
    ensures !Blocked(s, now) && pin == Pin ==>
              && r.state == s.(isPinAuthenticated := true, pinAttempts := 0, blockUntil := None)
              && r.store == store.(session := store.session[PinVerifiedKey := "true"])
              && r.toast == None
    // A wrong PIN counts from the pre-call snapshot, overriding the expiry reset.
    ensures !Blocked(s, now) && pin != Pin ==>
              && r.state.pinAttempts == s.pinAttempts + 1
              && r.state.(pinAttempts := s.pinAttempts, blockUntil := s.blockUntil) == s
              && r.store == store
    ensures !Blocked(s, now) && pin != Pin && s.pinAttempts + 1 >= LongLockoutAttempts ==>
              r.state.blockUntil == Some(now + LongLockoutMs) && r.toast == Some(LongLockoutToast)
    ensures !Blocked(s, now) && pin != Pin && ShortLockoutAttempts <= s.pinAttempts + 1 < LongLockoutAttempts ==>
              r.state.blockUntil == Some(now + ShortLockoutMs) && r.toast == Some(ShortLockoutToast)
    // Below the first threshold no lockout is set: one that has passed is
    // cleared, one expiring exactly now is kept.
    ensures !Blocked(s, now) && pin != Pin && s.pinAttempts + 1 < ShortLockoutAttempts ==>
              && r.toast == None
              && r.state.blockUntil == (if BlockExpired(s, now) then None else s.blockUntil)
  {
    if Blocked(s, now) then
      Outcome(false, s, store, None)
    else
      // lines 94-97: a passed lockout queues its own reset
      var s1 := if BlockExpired(s, now) then s.(blockUntil := None).(pinAttempts := 0) else s;
      if pin == Pin then
        var s2 := s1.(isPinAuthenticated := true).(pinAttempts := 0).(blockUntil := None);
        Outcome(true, s2, store.(session := store.session[PinVerifiedKey := "true"]), None)
      else
        var newAttempts := s.pinAttempts + 1;   // the snapshot, not s1
        var s2 := s1.(pinAttempts := newAttempts);
        if newAttempts >= LongLockoutAttempts then
          Outcome(false, s2.(blockUntil := Some(now + LongLockoutMs)), store, Some(LongLockoutToast))
        else if newAttempts >= ShortLockoutAttempts then
          Outcome(false, s2.(blockUntil := Some(now + ShortLockoutMs)), store, Some(ShortLockoutToast))
        else
          Outcome(false, s2, store, None)
  }

  /** `resetPinAttempts`. */
  function ResetPinAttempts(s: AuthState): (r: AuthState)
    ensures r.pinAttempts == 0 && r.blockUntil == None
    ensures r.(pinAttempts := s.pinAttempts, blockUntil := s.blockUntil) == s
  {
    s.(pinAttempts := 0).(blockUntil := None)
  }

  /** `logout`: clears the tokens and the PIN flag, signs both gates out. */
  function Logout(s: AuthState, store: Storage): (r: (AuthState, Storage))
    ensures r.0.user == None && !r.0.isAuthenticated && !r.0.isPinAuthenticated
    ensures r.0.pinAttempts == s.pinAttempts && r.0.blockUntil == s.blockUntil && r.0.isLoading == s.isLoading
    ensures r.1.durable.Keys == store.durable.Keys - {AccessTokenKey, RefreshTokenKey}
    ensures forall k :: k in r.1.durable ==> r.1.durable[k] == store.durable[k]
    ensures r.1.session.Keys == store.session.Keys - {PinVerifiedKey}
    ensures forall k :: k in r.1.session ==> r.1.session[k] == store.session[k]
  {
    var durable := store.durable - {AccessTokenKey} - {RefreshTokenKey};
    var session := store.session - {PinVerifiedKey};
    (s.(user := None).(isAuthenticated := false).(isPinAuthenticated := false), Storage(durable, session))
  }

  /** Where the restore effect's storage reads may throw (storage disabled). */
  datatype ReadFault = NoFault | DurableReadThrows | SessionReadThrows

  /** The identity `checkAuth` installs for a restored session. */
  const PlaceholderUser := LoginApi.User("1", "admin", "admin")

  /** The `checkAuth` effect run on the provider's initial state: the `try`
      body, the `catch` that drops the tokens, and the `finally`. */
  function Restore(store: Storage, fault: ReadFault): (r: (AuthState, Storage))
    ensures !r.0.isLoading
    ensures r.0.pinAttempts == 0 && r.0.blockUntil == None
    ensures r.0.isAuthenticated <==> !fault.DurableReadThrows? && Truthy(GetItem(store.durable, AccessTokenKey))
    ensures r.0.isAuthenticated ==> r.0.user == Some(PlaceholderUser)
    ensures !r.0.isAuthenticated ==> r.0 == Initial.(isLoading := false)
    ensures r.0.isPinAuthenticated <==>
              r.0.isAuthenticated && fault.NoFault? && GetItem(store.session, PinVerifiedKey) == Some("true")
    ensures fault.NoFault? ==> r.1 == store
    ensures !fault.NoFault? && r.0.isAuthenticated ==> AccessTokenKey !in r.1.durable
  {
    var s := Initial;
    var dropTokens := store.(durable := store.durable - {AccessTokenKey} - {RefreshTokenKey});
    if fault.DurableReadThrows? then
      (s.(isLoading := false), dropTokens)
    else if !Truthy(GetItem(store.durable, AccessTokenKey)) then
      (s.(isLoading := false), store)
    else
      var s1 := s.(user := Some(PlaceholderUser)).(isAuthenticated := true);
      if fault.SessionReadThrows? then
        // the updates made before the throw still commit
        (s1.(isLoading := false), dropTokens)
      else if GetItem(store.session, PinVerifiedKey) == Some("true") then
        (s1.(isPinAuthenticated := true).(isLoading := false), store)
      else
        (s1.(isLoading := false), store)
  }

  /** The state while `login` awaits the server: the loading flag is raised. */
  function LoginPending(s: AuthState): (r: AuthState)
    ensures r.isLoading && r.(isLoading := s.isLoading) == s
  {
    s.(isLoading := true)
  }

  /** `login(username, password)` once `loginUser` has settled against
      `response`. The credentials only travel to the server, so they do not
      appear here. */
  function Login(s: AuthState, store: Storage, response: LoginApi.Response): (r: Outcome)
    ensures r.ok <==> response.Answered?
    ensures !r.state.isLoading
    ensures r.state.pinAttempts == s.pinAttempts && r.state.blockUntil == s.blockUntil
    ensures r.state.isPinAuthenticated == s.isPinAuthenticated
    ensures r.ok ==> r.state.isAuthenticated && r.state.user == LoginApi.AsOption(response.data.user) && r.toast == None
    ensures !r.ok ==> r.state == s.(isLoading := false) && r.store == store && r.toast == Some(LoginFailedToast)
    ensures r.store.session == store.session
    ensures r.store.durable == LoginApi.LoginUser(store.durable, response).1
  {
    var pending := LoginPending(s);
    var settled := LoginApi.LoginUser(store.durable, response);
    var store1 := store.(durable := settled.1);
    match settled.0
    case Returned(data) =>
      Outcome(true, pending.(user := LoginApi.AsOption(data.user)).(isAuthenticated := true).(isLoading := false), store1, None)
    case Threw(_) =>
      Outcome(false, pending.(isLoading := false), store1, Some(LoginFailedToast))
  }

  /** One PIN submission: the digits entered and the time they were checked. */
  datatype Attempt = Attempt(pin: string, at: int)

  /** The state after a series of `verifyPin` calls, each committed before the next. */
  function AfterAttempts(s: AuthState, store: Storage, tries: seq<Attempt>): AuthState
    decreases |tries|
  {
    if tries == [] then s
    else
      var r := VerifyPin(s, store, tries[0].pin, tries[0].at);
      AfterAttempts(r.state, r.store, tries[1..])
  }

  /** Every attempt of the series is made while no lockout is in force. */
  predicate Unblocked(s: AuthState, store: Storage, tries: seq<Attempt>)
    decreases |tries|
  {
    tries == [] ||
      (!Blocked(s, tries[0].at) &&
       var r := VerifyPin(s, store, tries[0].pin, tries[0].at);
       Unblocked(r.state, r.store, tries[1..]))
  }

  predicate AllWrong(tries: seq<Attempt>)
  {
    forall i :: 0 <= i < |tries| ==> tries[i].pin != Pin
  }

  /** Counting from a cleared throttle, the k-th consecutive wrong PIN made
      outside a lockout leaves the counter at k and sets the lockout the
      k-th failure calls for: none below 4, 30 seconds from 4 to 7, three
      minutes from 8 on. */
  lemma {:induction false} ConsecutiveFailures(s: AuthState, store: Storage, tries: seq<Attempt>)
    requires s.pinAttempts == 0 && s.blockUntil == None
    requires AllWrong(tries) && Unblocked(s, store, tries)
    ensures AfterAttempts(s, store, tries).pinAttempts == |tries|
    ensures |tries| < ShortLockoutAttempts ==> AfterAttempts(s, store, tries).blockUntil == None
    ensures ShortLockoutAttempts <= |tries| < LongLockoutAttempts ==>
              AfterAttempts(s, store, tries).blockUntil == Some(tries[|tries| - 1].at + ShortLockoutMs)
    ensures |tries| >= LongLockoutAttempts ==>
              AfterAttempts(s, store, tries).blockUntil == Some(tries[|tries| - 1].at + LongLockoutMs)
    decreases |tries|
  {
    if tries != [] {
      var last := tries[|tries| - 1];
      var front := tries[..|tries| - 1];
      UnblockedPrefix(s, store, tries);
      assert AllWrong(front) by {
        forall i | 0 <= i < |front| ensures front[i].pin != Pin { assert front[i] == tries[i]; }
      }
      ConsecutiveFailures(s, store, front);
      AfterAttemptsSnoc(s, store, front, last);
      assert front + [last] == tries;
    }
  }

  /** Running a series and then one more attempt is running the longer series. */
  lemma {:induction false} AfterAttemptsSnoc(s: AuthState, store: Storage, tries: seq<Attempt>, last: Attempt)
    ensures AfterAttempts(s, store, tries + [last]) ==
              VerifyPin(AfterAttempts(s, store, tries), StoreAfter(s, store, tries), last.pin, last.at).state
    ensures Unblocked(s, store, tries + [last]) ==>
              !Blocked(AfterAttempts(s, store, tries), last.at)
    decreases |tries|
  {
    if tries == [] {
      assert [] + [last] == [last];
    } else {
      var r := VerifyPin(s, store, tries[0].pin, tries[0].at);
      assert (tries + [last])[1..] == tries[1..] + [last];
      AfterAttemptsSnoc(r.state, r.store, tries[1..], last);
    }
  }

  /** The storage after a series of `verifyPin` calls. */
  function StoreAfter(s: AuthState, store: Storage, tries: seq<Attempt>): Storage
    decreases |tries|
  {
    if tries == [] then store
    else
      var r := VerifyPin(s, store, tries[0].pin, tries[0].at);
      StoreAfter(r.state, r.store, tries[1..])
  }

  lemma {:induction false} UnblockedPrefix(s: AuthState, store: Storage, tries: seq<Attempt>)
    requires tries != [] && Unblocked(s, store, tries)
    ensures Unblocked(s, store, tries[..|tries| - 1])
    decreases |tries|
  {
    if |tries| > 1 {
      var r := VerifyPin(s, store, tries[0].pin, tries[0].at);
      assert tries[1..][..|tries[1..]| - 1] == tries[..|tries| - 1][1..];
      UnblockedPrefix(r.state, r.store, tries[1..]);
    }
  }

  /** Once the counter has reached the first threshold, wrong PINs can never
      lift the throttle: the expiry reset is overwritten by the stale count,
      so every wrong PIN past a lockout locks again. Only the right PIN or
      `resetPinAttempts` clears it. */
  lemma {:induction false} NoEscapeByWrongPins(s: AuthState, store: Storage, tries: seq<Attempt>)
    requires s.pinAttempts >= ShortLockoutAttempts && s.blockUntil.Some?
    requires AllWrong(tries)
    ensures AfterAttempts(s, store, tries).pinAttempts >= s.pinAttempts
    ensures AfterAttempts(s, store, tries).blockUntil.Some?
    ensures AfterAttempts(s, store, tries).isPinAuthenticated == s.isPinAuthenticated
    decreases |tries|
  {
    if tries != [] {
      var r := VerifyPin(s, store, tries[0].pin, tries[0].at);
      assert tries[0].pin != Pin;
      assert AllWrong(tries[1..]) by {
        forall i | 0 <= i < |tries[1..]| ensures tries[1..][i].pin != Pin { assert tries[1..][i] == tries[i + 1]; }
      }
      NoEscapeByWrongPins(r.state, r.store, tries[1..]);
    }
  }

  /** At the instant a lockout ends the gate is open again: the correct PIN is
      accepted exactly when `now` has reached `blockUntil`. */
  lemma LockLiftsAtInstant(s: AuthState, store: Storage, now: int)
    requires s.blockUntil.Some?
    ensures VerifyPin(s, store, Pin, now).ok <==> now >= s.blockUntil.value
  {
  }

  /** `verifyPin` does not look at the credential flag: on its own it can
      mark the PIN verified in a session that never logged in. The order of
      the two gates comes from the routing gate alone. */
  lemma VerifyPinIgnoresCredentials(store: Storage, now: int)
    ensures var r := VerifyPin(Initial, store, Pin, now);
            r.ok && r.state.isPinAuthenticated && !r.state.isAuthenticated
  {
  }

  /** After `logout`, a reload restores a fully signed-out session, whatever
      the storage can or cannot be read. */
  lemma LogoutThenRestore(s: AuthState, store: Storage, fault: ReadFault)
    ensures var out := Logout(s, store);
            Restore(out.1, fault).0 == Initial.(isLoading := false)
  {
  }

  /** A login answer without an access token still signs the user in, but
      persists nothing, so a reload of a store that held no token comes back
      signed out. */
  lemma TokenlessLoginIsNotRestored(s: AuthState, store: Storage, data: LoginApi.LoginData)
    requires !LoginApi.HasToken(data) && AccessTokenKey !in store.durable
    ensures var r := Login(s, store, LoginApi.Answered(data));
            && r.ok && r.state.isAuthenticated
            && r.store == store
            && !Restore(r.store, NoFault).0.isAuthenticated
  {
  }
}
