/** `NetworkProvider`: mirrors the browser's online/offline events. */
module NetworkContext {
  import opened Base

  datatype NetState = NetState(isOnline: bool, lastOnlineTime: Option<int>)

  /** The state the provider starts in, read from `navigator.onLine` at `now`. */
  function Init(envOnline: bool, now: int): (r: NetState)
    ensures r.isOnline == envOnline
    ensures r.lastOnlineTime.Some? <==> envOnline
    ensures envOnline ==> r.lastOnlineTime == Some(now)
  {
    NetState(envOnline, if envOnline then Some(now) else None)
  }

  /** `handleOnline` at time `now`. */
  function OnOnline(s: NetState, now: int): (r: NetState)
    ensures r.isOnline && r.lastOnlineTime == Some(now)
  {
    s.(isOnline := true).(lastOnlineTime := Some(now))
  }

  /** `handleOffline`: the timestamp is left as it was. */
  function OnOffline(s: NetState): (r: NetState)
    ensures !r.isOnline && r.lastOnlineTime == s.lastOnlineTime
  {
    s.(isOnline := false)
  }

  datatype NetEvent = WentOnline(at: int) | WentOffline

  function Step(s: NetState, e: NetEvent): NetState
  {
    match e
    case WentOnline(t) => OnOnline(s, t)
    case WentOffline => OnOffline(s)
  }

  function Run(s: NetState, es: seq<NetEvent>): NetState
    decreases |es|
  {
    if es == [] then s else Run(Step(s, es[0]), es[1..])
  }

  /** Being online implies a recorded online time. */
  predicate Inv(s: NetState)
  {
    s.isOnline ==> s.lastOnlineTime.Some?
  }

  /** From the initial state, any event sequence keeps the invariant, the
      online flag follows the last event, and a recorded online time is never
      lost again. */
  lemma {:induction false} RunKeepsInvariant(s: NetState, es: seq<NetEvent>)
    requires Inv(s)
    ensures Inv(Run(s, es))
    ensures s.lastOnlineTime.Some? ==> Run(s, es).lastOnlineTime.Some?
    ensures es != [] ==> (Run(s, es).isOnline <==> es[|es| - 1].WentOnline?)
    ensures es != [] && es[|es| - 1].WentOnline? ==> Run(s, es).lastOnlineTime == Some(es[|es| - 1].at)
    decreases |es|
  {
    if es != [] {
      RunKeepsInvariant(Step(s, es[0]), es[1..]);
      if |es| > 1 {
        assert es[1..][|es[1..]| - 1] == es[|es| - 1];
      }
    }
  }

  /** The initial state satisfies the invariant whatever the environment says. */
  lemma InitValid(envOnline: bool, now: int)
    ensures Inv(Init(envOnline, now))
  {
  }
}
