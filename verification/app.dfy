/** `App.tsx`: the `ProtectedRoute` gate, the offline gate of `AppContent`,
    the route table, and the whole client as one state machine driven by user
    and browser events. Route matching by the router is taken as given: a
    view is computed for the route that matched. */
module App {
  import opened Base
  import LoginApi
  import LoginScreen
  import opened Text
  import AuthContext
  import PinScreen
  import NetworkContext

  datatype Page =
    | Dashboard | Debtors | DebtorDetail | DebtorCreate | Calendar
    | Settings | Profile | Complaint | Helpful | NotFound

  datatype Route = Route(path: string, page: Page, guarded: bool)

  /** The route table; the mobile layout and the framed layout declare the same one. */
  const RouteTable: seq<Route> := [
    Route("/", Dashboard, true),
    Route("/debtors", Debtors, true),
    Route("/debtors/:id", DebtorDetail, true),
    Route("/debtors/add", DebtorCreate, true),
    Route("/calendar", Calendar, true),
    Route("/settings", Settings, true),
    Route("/profile", Profile, true),
    Route("/complaint", Complaint, true),
    Route("/helpful", Helpful, true),
    Route("*", NotFound, false)
  ]

  datatype View = Spinner | LoginView | PinView | PageView(page: Page) | NetworkErrorView

  /** `ProtectedRoute` around the page `page`. */
  function ProtectedRoute(auth: AuthContext.AuthState, page: Page): (r: View)
    ensures auth.isLoading ==> r == Spinner
    ensures !auth.isLoading && !auth.isAuthenticated ==> r == LoginView
    ensures !auth.isLoading && auth.isAuthenticated && !auth.isPinAuthenticated ==> r == PinView
    ensures r == PageView(page) <==> !auth.isLoading && auth.isAuthenticated && auth.isPinAuthenticated
    ensures r.PageView? ==> r.page == page
  {
    if auth.isLoading then Spinner
    else if !auth.isAuthenticated then LoginView
    else if !auth.isPinAuthenticated then PinView
    else PageView(page)
  }

  /** What `AppContent` renders when `route` matched. */
  function AppContent(isOnline: bool, auth: AuthContext.AuthState, route: Route): (r: View)
    ensures !isOnline ==> r == NetworkErrorView
    ensures isOnline && !route.guarded ==> r == PageView(route.page)
    ensures isOnline && route.guarded ==> r == ProtectedRoute(auth, route.page)
  {
    if !isOnline then NetworkErrorView
    else if route.guarded then ProtectedRoute(auth, route.page)
    else PageView(route.page)
  }

  /** Every route of the table except the catch-all is behind the gate, so a
      page other than "not found" is shown exactly when the client is online,
      done loading, and through both gates. */
  lemma OnlyCatchAllIsOpen(auth: AuthContext.AuthState, isOnline: bool)
    ensures forall i :: 0 <= i < |RouteTable| ==> (RouteTable[i].guarded <==> RouteTable[i].path != "*")
    ensures forall i :: 0 <= i < |RouteTable| && RouteTable[i].path != "*" ==>
              (AppContent(isOnline, auth, RouteTable[i]) == PageView(RouteTable[i].page) <==>
               isOnline && !auth.isLoading && auth.isAuthenticated && auth.isPinAuthenticated)
  {
  }

  /** The client: session, storage, the state of the two gate screens, and
      connectivity. `login` is the state of the mounted `LoginScreen` and
      `keypad` that of the mounted `PinScreen`; a screen that is not shown
      holds its initial state, which it will start from when it mounts. */
  datatype Client = Client(
    auth: AuthContext.AuthState,
    store: Storage,
    login: LoginScreen.LoginForm,
    keypad: PinScreen.Keypad,
    net: NetworkContext.NetState)

  /** What a guarded route shows; all guarded routes show the same gate. */
  function Gate(c: Client): View
  {
    AppContent(c.net.isOnline, c.auth, RouteTable[0])
  }

  /** React keeps a component's state only while it stays mounted. `before`
      is what the gate showed before an event and `c` the client after it: a
      gate screen that was not shown throughout starts over, so its state is
      the initial one; one shown throughout keeps its state. */
  function Remount(before: View, c: Client): (r: Client)
    ensures r.auth == c.auth && r.store == c.store && r.net == c.net
    ensures before != PinView || Gate(c) != PinView ==> r.keypad == PinScreen.InitialKeypad
    ensures before == PinView && Gate(c) == PinView ==> r.keypad == c.keypad
    ensures before != LoginView || Gate(c) != LoginView ==> r.login == LoginScreen.InitialForm
    ensures before == LoginView && Gate(c) == LoginView ==> r.login == c.login
  {
    var keypad := if before == PinView && Gate(c) == PinView then c.keypad else PinScreen.InitialKeypad;
    var login := if before == LoginView && Gate(c) == LoginView then c.login else LoginScreen.InitialForm;
    c.(keypad := keypad, login := login)
  }

  /** Opening the app: the providers mount and the restore effect runs. */
  function Boot(store: Storage, envOnline: bool, now: int, fault: AuthContext.ReadFault): (c: Client)
    ensures !c.auth.isLoading && c.net.isOnline == envOnline
    ensures c.auth.isAuthenticated <==>
              !fault.DurableReadThrows? && Truthy(GetItem(store.durable, AccessTokenKey))
    ensures c.auth.isPinAuthenticated <==>
              c.auth.isAuthenticated && fault.NoFault? && GetItem(store.session, PinVerifiedKey) == Some("true")
    ensures c.keypad == PinScreen.InitialKeypad && c.login == LoginScreen.InitialForm
  {
    var restored := AuthContext.Restore(store, fault);
    Client(restored.0, restored.1, LoginScreen.InitialForm, PinScreen.InitialKeypad,
           NetworkContext.Init(envOnline, now))
  }

  datatype Event =
    | Reload(envOnline: bool, now: int, fault: AuthContext.ReadFault)
    | TypeCredentials(username: string, password: string)
    | SubmitLogin(response: LoginApi.Response)
    | PressDigit(digit: PinScreen.Digit, now: int)
    | DeleteDigit
    | ClearTimerFires
    | CountdownTick(now: int)
    | LogOut
    | ResetPinAttempts
    | NetOnline(now: int)
    | NetOffline

  /** The events that only a mounted `PinScreen` produces: its keys, and the
      clear timer and countdown interval it owns. */
  predicate KeypadEvent(e: Event)
  {
    e.PressDigit? || e.DeleteDigit? || e.ClearTimerFires? || e.CountdownTick?
  }

  /** The events that only a mounted `LoginScreen` produces. */
  predicate LoginEvent(e: Event)
  {
    e.TypeCredentials? || e.SubmitLogin?
  }

  /** The event's effect before the gate screens are remounted. A screen's
      events only happen while that screen is shown: the login form behind
      `LoginView`, the keypad and its timers behind `PinView`, and the logout
      button on a protected page. A timer of an unmounted keypad fires into
      nothing, and its interval has been cleared. */
  function Handle(c: Client, e: Event): Client
  {
    match e
    case Reload(online, now, fault) => Boot(c.store, online, now, fault)
    case TypeCredentials(u, p) =>
      if Gate(c) == LoginView then c.(login := c.login.(username := u, password := p)) else c
    case SubmitLogin(response) =>
      if Gate(c) == LoginView then
        var sub := LoginScreen.Submit(c.login);
        if sub.callsLogin then
          var r := AuthContext.Login(c.auth, c.store, response);
          c.(auth := r.state, store := r.store)
        else c.(login := sub.form)
      else c
    case PressDigit(d, now) =>
      if Gate(c) == PinView then
        var p := PinScreen.Press(c.keypad, c.auth, c.store, d, now);
        match p.call
        case None => c.(keypad := p.keypad)
        case Some(v) => c.(keypad := p.keypad, auth := v.state, store := v.store)
      else c
    case DeleteDigit =>
      if Gate(c) == PinView then c.(keypad := PinScreen.Delete(c.keypad)) else c
    case ClearTimerFires =>
      if Gate(c) == PinView && c.keypad.pendingClears > 0 then
        c.(keypad := PinScreen.ClearTimerFires(c.keypad))
      else c
    case CountdownTick(now) =>
      if Gate(c) == PinView then c.(keypad := PinScreen.Tick(c.keypad, c.auth.blockUntil, now)) else c
    case LogOut =>
      if Gate(c).PageView? then
        var r := AuthContext.Logout(c.auth, c.store);
        c.(auth := r.0, store := r.1)
      else c
    case ResetPinAttempts =>
      c.(auth := AuthContext.ResetPinAttempts(c.auth))
    case NetOnline(now) => c.(net := NetworkContext.OnOnline(c.net, now))
    case NetOffline => c.(net := NetworkContext.OnOffline(c.net))
  }

  /** What the gate showed while the event was handled. `login` raises the
      context's loading flag before it awaits the server, so the spinner
      replaces the login screen until the request settles. */
  function ShownDuring(c: Client, e: Event): (v: View)
    ensures v != Gate(c) ==> e.SubmitLogin? && Gate(c) == LoginView && v == Spinner
  {
    if e.SubmitLogin? && Gate(c) == LoginView && LoginScreen.Submit(c.login).callsLogin then
      AppContent(c.net.isOnline, AuthContext.LoginPending(c.auth), RouteTable[0])
    else Gate(c)
  }

  /** One event, followed by React's remounting of the gate screens. */
  function Step(c: Client, e: Event): (r: Client)
    // A screen the gate did not show throughout starts afresh.
    ensures Gate(c) != PinView || Gate(r) != PinView ==> r.keypad == PinScreen.InitialKeypad
    ensures (|| Gate(c) != LoginView || Gate(r) != LoginView
             || (e.SubmitLogin? && LoginScreen.Submit(c.login).callsLogin))
              ==> r.login == LoginScreen.InitialForm
    // The events of a screen that is not shown change nothing beyond the remount.
    ensures KeypadEvent(e) && Gate(c) != PinView ==> r == Remount(Gate(c), c)
    ensures LoginEvent(e) && Gate(c) != LoginView ==> r == Remount(Gate(c), c)
  {
    Remount(ShownDuring(c, e), Handle(c, e))
  }

  function Run(c: Client, es: seq<Event>): Client
    decreases |es|
  {
    if es == [] then c else Run(Step(c, es[0]), es[1..])
  }

  /** What holds of every client reachable from a boot: the PIN flag only
      alongside the credential flag, a lockout only after four failures, a
      valid keypad buffer, gate screens that hold state only while shown, and
      the connectivity invariant. */
  predicate Inv(c: Client)
  {
    && (c.auth.isPinAuthenticated ==> c.auth.isAuthenticated)
    && (c.auth.blockUntil.Some? ==> c.auth.pinAttempts >= AuthContext.ShortLockoutAttempts)
    && PinScreen.Valid(c.keypad)
    && (Gate(c) != PinView ==> c.keypad == PinScreen.InitialKeypad)
    && (Gate(c) != LoginView ==> c.login == LoginScreen.InitialForm)
    && NetworkContext.Inv(c.net)
  }

  lemma BootValid(store: Storage, envOnline: bool, now: int, fault: AuthContext.ReadFault)
    ensures Inv(Boot(store, envOnline, now, fault))
  {
  }

  lemma StepKeepsInv(c: Client, e: Event)
    requires Inv(c)
    ensures Inv(Step(c, e))
  {
    match e
    case PressDigit(d, now) =>
      if Gate(c) == PinView {
        assert c.auth.isAuthenticated;
      }
    case _ =>
  }

  /** In a reachable client the remount after an event that changed no
      screen is invisible. */
  lemma QuietRemount(c: Client)
    requires Inv(c)
    ensures Remount(Gate(c), c) == c
  {
  }

  /** Keys, timers and form submissions of a screen that is not shown do
      nothing at all: a keypad timer left behind by an unmounted screen
      fires into nothing. */
  lemma UnshownScreenEventsIgnored(c: Client, e: Event)
    requires Inv(c)
    requires (KeypadEvent(e) && Gate(c) != PinView) || (LoginEvent(e) && Gate(c) != LoginView)
    ensures Step(c, e) == c
  {
    QuietRemount(c);
  }

  /** Whenever the PIN screen appears, whether after a login, a reload, a
      reconnection or a lockout's reset, it shows an empty buffer, and the
      first key outside a lockout is entered. */
  lemma EnteringPinViewShowsEmptyBuffer(c: Client, e: Event, d: PinScreen.Digit, now: int)
    requires Gate(c) != PinView && Gate(Step(c, e)) == PinView
    ensures Step(c, e).keypad == PinScreen.InitialKeypad
    ensures !AuthContext.Blocked(Step(c, e).auth, now) ==>
              Step(Step(c, e), PressDigit(d, now)).keypad.pin == [DigitChar(d)]
  {
  }

  /** A filled-in login the server refuses. The context raised its loading
      flag first, so the spinner replaced the screen awaiting `login`; once
      the request fails a newly mounted login screen is shown, with empty
      fields and no error text. The invalid-credentials text the handler sets
      lands on the unmounted screen, so only the context's toast reports the
      failure. */
  lemma FailedLoginShowsFreshForm(c: Client, response: LoginApi.Response)
    requires Inv(c) && Gate(c) == LoginView
    requires c.login.username != "" && c.login.password != ""
    requires response.RequestFailed?
    ensures ShownDuring(c, SubmitLogin(response)) == Spinner
    ensures var r := Step(c, SubmitLogin(response));
            && Gate(r) == LoginView && r.auth == c.auth && r.store == c.store
            && r.login == LoginScreen.InitialForm
            && r.login.error != LoginScreen.InvalidCredentialsError
  {
  }

  /** A login with an empty field never reaches the server, and its message
      is shown on the same screen, which stays mounted. */
  lemma EmptyFieldShowsMessage(c: Client, response: LoginApi.Response)
    requires Gate(c) == LoginView
    requires c.login.username == "" || c.login.password == ""
    ensures var r := Step(c, SubmitLogin(response));
            && Gate(r) == LoginView && r.auth == c.auth && r.store == c.store
            && r.login == c.login.(error := LoginScreen.EnterCredentialsError)
  {
  }

  /** A filled-in login the server answers opens the PIN screen with an empty
      buffer, whatever the keypad held before an earlier logout. */
  lemma AnsweredLoginOpensEmptyKeypad(c: Client, response: LoginApi.Response)
    requires Inv(c) && Gate(c) == LoginView
    requires c.login.username != "" && c.login.password != ""
    requires response.Answered?
    ensures var r := Step(c, SubmitLogin(response));
            Gate(r) == PinView && r.keypad == PinScreen.InitialKeypad && r.login == LoginScreen.InitialForm
  {
  }

  /** Whatever the users and the browser do after a boot, the PIN gate is
      never open while the credential gate is shut. */
  lemma {:induction false} RunKeepsInv(c: Client, es: seq<Event>)
    requires Inv(c)
    ensures Inv(Run(c, es))
    ensures Run(c, es).auth.isPinAuthenticated ==> Run(c, es).auth.isAuthenticated
    decreases |es|
  {
    if es != [] {
      StepKeepsInv(c, es[0]);
      RunKeepsInv(Step(c, es[0]), es[1..]);
    }
  }
}
