/** `PinScreen`: the four-digit keypad buffer, the delayed clear after a
    rejected PIN, and the lockout countdown with its wait message. The 500 ms
    clear timer and the one-second countdown interval are explicit steps. */
module PinScreen {
  import opened Base
  import opened Text
  import AuthContext

  type Digit = d: int | 0 <= d <= 9

  const PinLength := 4

  /** `pin`, `error` and `timeLeft` are the component's state; `pendingClears`
      counts the 500 ms clear timers scheduled and not yet fired. */
  datatype Keypad = Keypad(pin: string, error: bool, pendingClears: nat, timeLeft: Option<int>)

  const InitialKeypad := Keypad("", false, 0, None)

  /** The buffer invariant: at most four digit characters. */
  predicate Valid(k: Keypad)
  {
    |k.pin| <= PinLength && AllDigits(k.pin)
  }

  /** A key press and, when it completed the buffer, the `verifyPin` call it made. */
  datatype Pressed = Pressed(keypad: Keypad, call: Option<AuthContext.Outcome>)

  /** `handleNumberPress(d)` at time `now`, against the context's state. */
  function Press(k: Keypad, auth: AuthContext.AuthState, store: Storage, d: Digit, now: int): (r: Pressed)
    // A press during a lockout, or on a full buffer, does nothing.
    ensures AuthContext.Blocked(auth, now) || |k.pin| >= PinLength ==> r == Pressed(k, None)
    ensures !AuthContext.Blocked(auth, now) && |k.pin| < PinLength ==>
              r.keypad.pin == k.pin + [DigitChar(d)]
    // verifyPin is called exactly when the buffer reaches four, with the buffer.
    ensures r.call.Some? <==> !AuthContext.Blocked(auth, now) && |k.pin| == PinLength - 1
    ensures r.call.Some? ==> r.call.value == AuthContext.VerifyPin(auth, store, r.keypad.pin, now)
    // A rejection flags the dots red and schedules the clear.
    ensures r.call.Some? && !r.call.value.ok ==>
              r.keypad.error && r.keypad.pendingClears == k.pendingClears + 1
    ensures (r.call.None? || r.call.value.ok) ==>
              r.keypad.error == k.error && r.keypad.pendingClears == k.pendingClears
    ensures r.keypad.timeLeft == k.timeLeft
    ensures Valid(k) ==> Valid(r.keypad)
  {
    if AuthContext.Blocked(auth, now) then Pressed(k, None)
    else if |k.pin| < PinLength then
      var newPin := k.pin + [DigitChar(d)];
      var k1 := k.(pin := newPin);
      if |newPin| == PinLength then
        var v := AuthContext.VerifyPin(auth, store, newPin, now);
        if !v.ok then Pressed(k1.(error := true, pendingClears := k.pendingClears + 1), Some(v))
        else Pressed(k1, Some(v))
      else Pressed(k1, None)
    else Pressed(k, None)
  }

  /** The 500 ms timer set by a rejection fires: the buffer and the error are cleared. */
  function ClearTimerFires(k: Keypad): (r: Keypad)
    requires k.pendingClears > 0
    ensures r.pin == "" && !r.error && r.pendingClears == k.pendingClears - 1
    ensures r.timeLeft == k.timeLeft
  {
    k.(pin := "", error := false, pendingClears := k.pendingClears - 1)
  }

  /** `handleDelete`: it does not consult the lockout, so it works while locked. */
  function Delete(k: Keypad): (r: Keypad)
    ensures k.pin == "" ==> r == k
    ensures k.pin != "" ==> r.pin + [k.pin[|k.pin| - 1]] == k.pin
    ensures r.(pin := k.pin) == k
    ensures Valid(k) ==> Valid(r)
  {
    if |k.pin| > 0 then k.(pin := k.pin[..|k.pin| - 1]) else k
  }

  /** Deleting undoes a press that did not complete the buffer. */
  lemma DeleteUndoesPress(k: Keypad, auth: AuthContext.AuthState, store: Storage, d: Digit, now: int)
    requires !AuthContext.Blocked(auth, now) && |k.pin| < PinLength - 1
    ensures Delete(Press(k, auth, store, d, now).keypad) == k
  {
    var p := Press(k, auth, store, d, now).keypad;
    assert p.pin[..|p.pin| - 1] == k.pin;
  }

  /** `Math.ceil(x / m)` for a positive integer `m`. */
  function CeilDiv(x: int, m: int): (q: int)
    requires m > 0
    ensures (q - 1) * m < x <= q * m
  {
    -((-x) / m)
  }

  /** The countdown value one interval tick computes: the whole seconds left,
      rounded up, or `None` once the lockout has ended. */
  function Countdown(blockUntil: int, now: int): (r: Option<int>)
    ensures r.Some? <==> now < blockUntil
    ensures r.Some? ==> r.value >= 1 && (r.value - 1) * 1000 < blockUntil - now <= r.value * 1000
  {
    var diff := CeilDiv(blockUntil - now, 1000);
    if diff <= 0 then None else Some(diff)
  }

  /** One tick of the countdown interval, which runs only while a lockout is set. */
  function Tick(k: Keypad, blockUntil: Option<int>, now: int): (r: Keypad)
    ensures blockUntil.None? ==> r == k
    ensures blockUntil.Some? ==> r == k.(timeLeft := Countdown(blockUntil.value, now))
  {
    match blockUntil
    case None => k
    case Some(b) => k.(timeLeft := Countdown(b, now))
  }

  /** The line shown above the dots while `timeLeft` is truthy. */
  datatype Wait = WaitMinutes(minutes: int) | WaitSeconds(seconds: int)

  function WaitMessage(timeLeft: Option<int>): (r: Option<Wait>)
    ensures r.None? <==> timeLeft.None? || timeLeft.value == 0
    ensures r.Some? && r.value.WaitMinutes? ==>
              timeLeft.value > 60 && (r.value.minutes - 1) * 60 < timeLeft.value <= r.value.minutes * 60
    ensures r.Some? && r.value.WaitSeconds? ==> timeLeft.value <= 60 && r.value.seconds == timeLeft.value
  {
    match timeLeft
    case None => None
    case Some(t) =>
      if t == 0 then None
      else if t > 60 then Some(WaitMinutes(CeilDiv(t, 60)))
      else Some(WaitSeconds(t))
  }

  /** A 30-second lockout only ever shows a wait in seconds. */
  lemma ShortLockoutShowsSeconds(start: int, now: int)
    requires now >= start
    ensures var w := WaitMessage(Countdown(start + AuthContext.ShortLockoutMs, now));
            w.None? || w.value.WaitSeconds?
  {
  }

  /** A fresh three-minute lockout shows "3 daqiqa". */
  lemma LongLockoutShowsThreeMinutes(start: int)
    ensures WaitMessage(Countdown(start + AuthContext.LongLockoutMs, start)) == Some(WaitMinutes(3))
  {
  }

  /** JavaScript's `%`: the remainder takes the sign of the dividend. */
  function JsRemainder(a: int, m: int): (r: int)
    requires m > 0
    ensures a >= 0 ==> 0 <= r < m && r == a % m
    ensures a < 0 ==> -m < r <= 0
  {
    if a >= 0 then a % m else -((-a) % m)
  }

  /** `r` reads as a clock showing `seconds`: the minutes, written without
      leading zeros, a colon, and two digits of seconds below 60. */
  predicate ReadsAsClock(r: string, seconds: int)
  {
    && |r| >= 4 && r[|r| - 3] == ':'
    && AllDigits(r[..|r| - 3]) && AllDigits(r[|r| - 2..])
    && DecimalValue(r[|r| - 2..]) < 60
    && DecimalValue(r[..|r| - 3]) * 60 + DecimalValue(r[|r| - 2..]) == seconds
    && (|r| == 4 || r[0] != '0')
  }

  /** Minutes and two-digit seconds joined by a colon read back as a clock. */
  lemma ClockText(m: string, t: string, mins: nat, secs: nat)
    requires |m| >= 1 && AllDigits(m) && (|m| > 1 ==> m[0] != '0') && DecimalValue(m) == mins
    requires |t| == 2 && AllDigits(t) && DecimalValue(t) == secs && secs < 60
    ensures ReadsAsClock(m + ":" + t, mins * 60 + secs)
  {
    var r := m + ":" + t;
    assert r[..|r| - 3] == m;
    assert r[|r| - 2..] == t;
    assert r[0] == m[0];
  }

  /** `formatTime(seconds)`. */
  function FormatTime(seconds: int): string
  {
    var mins := seconds / 60;   // Math.floor: Dafny's division floors for a positive divisor
    var secs := JsRemainder(seconds, 60);
    IntToString(mins) + ":" + PadStart2(IntToString(secs))
  }

  /** For a non-negative count the text reads back as the count. */
  lemma FormatTimeReadsBack(seconds: int)
    requires seconds >= 0
    ensures ReadsAsClock(FormatTime(seconds), seconds)
  {
    var mins, secs := seconds / 60, seconds % 60;
    assert JsRemainder(seconds, 60) == secs;
    var m, t := NatToString(mins), PadStart2(NatToString(secs));
    TwoDigits(secs);
    ClockText(m, t, mins, secs);
    assert FormatTime(seconds) == m + ":" + t;
  }

  /** Every keypad step keeps the buffer at four digits or fewer. */
  lemma StepsKeepBufferValid(k: Keypad, auth: AuthContext.AuthState, store: Storage, d: Digit, now: int, b: Option<int>)
    requires Valid(k)
    ensures Valid(Press(k, auth, store, d, now).keypad)
    ensures Valid(Delete(k)) && Valid(Tick(k, b, now))
    ensures k.pendingClears > 0 ==> Valid(ClearTimerFires(k))
  {
  }
}
