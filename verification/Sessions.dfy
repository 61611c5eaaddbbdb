/** The session store and its rate-limited expiry (include/sessions.hpp `SessionStore`). */
module Sessions {
  import opened Options

  const MINUTE: int := 60_000_000
  const TIMEOUT: int := 60 * MINUTE
  const TOKEN_SIZE: nat := 20

  datatype Persistence = Timeout | SingleRequest

  datatype Session = Session(
    uniqueId: string, sessionToken: string, username: string, csrfToken: string, lastUpdated: int,
    persistence: Persistence)

  type Tokens = map<string, Session>

  /** What the store holds: sessions by token, and when expired ones were last removed. */
  datatype Store = Store(tokens: Tokens, lastTimeoutUpdate: int)

  predicate Expired(s: Session, now: int) {
    now - s.lastUpdated >= TIMEOUT
  }

  function Unexpired(tokens: Tokens, now: int): Tokens {
    map t | t in tokens && !Expired(tokens[t], now) :: tokens[t]
  }

  /** `applySessionTimeouts`: at most one sweep a minute. */
  function Sweep(s: Store, now: int): Store {
    if now - s.lastTimeoutUpdate > MINUTE then Store(Unexpired(s.tokens, now), now) else s
  }

  /** Adding a session: a token that is already there keeps its session. */
  function Generate(s: Store, session: Session): Store {
    if session.sessionToken in s.tokens then s else s.(tokens := s.tokens[session.sessionToken := session])
  }

  function Touch(s: Store, token: string, now: int): Store
    requires token in s.tokens
  {
    s.(tokens := s.tokens[token := s.tokens[token].(lastUpdated := now)])
  }

  /** Looking a session up by token: sweep, then find and touch. The clock is read once for each, at `now` and at
      `used`. */
  function Login(s: Store, token: string, now: int, used: int): Store {
    var t := Sweep(s, now);
    if |token| == TOKEN_SIZE && token in t.tokens then Touch(t, token, used) else t
  }

  class SessionStore {
    var authTokens: Tokens
    var lastTimeoutUpdate: int
    var needWrite: bool

    ghost function View(): Store
      reads this
    {
      Store(authTokens, lastTimeoutUpdate)
    }

    constructor ()
      ensures View() == Store(map[], 0)
    {
      authTokens, lastTimeoutUpdate, needWrite := map[], 0, false;
    }

    /** The erase-while-iterating sweep, in any order. */
    method ApplySessionTimeouts(timeNow: int)
      modifies this
      ensures View() == Sweep(old(View()), timeNow)
      ensures forall t :: t in authTokens <==>
                && t in old(authTokens)
                && (|| timeNow - old(lastTimeoutUpdate) <= 60_000_000
                    || timeNow - old(authTokens)[t].lastUpdated < 3_600_000_000)
      ensures authTokens != old(authTokens) ==> needWrite
      ensures old(needWrite) ==> needWrite
    {
      if timeNow - lastTimeoutUpdate > MINUTE {
        lastTimeoutUpdate := timeNow;
        var todo := authTokens.Keys;
        while todo != {}
          invariant todo <= authTokens.Keys && authTokens.Keys <= old(authTokens).Keys
          invariant lastTimeoutUpdate == timeNow
          invariant forall t :: t in authTokens ==> authTokens[t] == old(authTokens)[t]
          invariant forall t :: t in old(authTokens) && t !in todo ==>
                      (t in authTokens <==> !Expired(old(authTokens)[t], timeNow))
          invariant forall t :: t in todo ==> t in authTokens
          invariant authTokens != old(authTokens) ==> needWrite
          invariant old(needWrite) ==> needWrite
          decreases todo
        {
          var t :| t in todo;
          if timeNow - authTokens[t].lastUpdated >= TIMEOUT {
            authTokens := authTokens - {t};
            needWrite := true;
          }
          todo := todo - {t};
        }
        assert authTokens == Unexpired(old(authTokens), timeNow);
      }
    }

    method GenerateUserSession(session: Session) returns (r: Session)
      modifies this
      ensures View() == Generate(old(View()), session)
      ensures authTokens == old(authTokens)[session.sessionToken := r]
      ensures r == if session.sessionToken in old(authTokens) then old(authTokens)[session.sessionToken] else session
      ensures needWrite == (session.persistence == Timeout)
    {
      if session.sessionToken !in authTokens {
        authTokens := authTokens[session.sessionToken := session];
      }
      needWrite := session.persistence == Timeout;
      r := authTokens[session.sessionToken];
    }

    method LoginSessionByToken(token: string, now: int, used: int) returns (r: Option<Session>)
      modifies this
      ensures View() == Login(old(View()), token, now, used)
      ensures r.Some? <==>
              && |token| == 20 && token in old(authTokens)
              && (|| now - old(lastTimeoutUpdate) <= 60_000_000
                  || now - old(authTokens)[token].lastUpdated < 3_600_000_000)
      ensures r.Some? ==>
                token in authTokens && r.value == authTokens[token] == old(authTokens)[token].(lastUpdated := used)
    {
      ApplySessionTimeouts(now);
      if |token| != TOKEN_SIZE {
        return None;
      }
      if token !in authTokens {
        return None;
      }
      authTokens := authTokens[token := authTokens[token].(lastUpdated := used)];
      r := Some(authTokens[token]);
    }

    method GetSessionByUid(uid: string, now: int) returns (r: Option<Session>)
      modifies this
      ensures View() == Sweep(old(View()), now)
      ensures r.Some? ==> r.value.uniqueId == uid && exists t :: t in authTokens && authTokens[t] == r.value
      ensures r.None? ==> forall t :: t in authTokens ==> authTokens[t].uniqueId != uid
    {
      ApplySessionTimeouts(now);
      var todo := authTokens.Keys;
      while todo != {}
        invariant todo <= authTokens.Keys && View() == Sweep(old(View()), now)
        invariant forall t :: t in authTokens && t !in todo ==> authTokens[t].uniqueId != uid
        decreases todo
      {
        var t :| t in todo;
        if authTokens[t].uniqueId == uid {
          return Some(authTokens[t]);
        }
        todo := todo - {t};
      }
      r := None;
    }

    method RemoveSession(session: Session)
      modifies this
      ensures View() == old(View()).(tokens := old(authTokens) - {session.sessionToken}) && needWrite
    {
      authTokens := authTokens - {session.sessionToken};
      needWrite := true;
    }
  }

  /** What happens to the store, and when. */
  datatype Event =
    | Generated(session: Session)
    | LoggedIn(token: string, now: int, used: int)
    | LookedUp(now: int)
    | Removed(token: string, now: int)

  /** The first clock reading of an event. */
  function TimeOf(e: Event): int {
    match e
    case Generated(session) => session.lastUpdated
    case LoggedIn(_, now, _) => now
    case LookedUp(now) => now
    case Removed(_, now) => now
  }

  /** The last clock reading of an event. */
  function EndOf(e: Event): int {
    if e.LoggedIn? then e.used else TimeOf(e)
  }

  function Step(s: Store, e: Event): Store {
    match e
    case Generated(session) => Generate(s, session)
    case LoggedIn(token, now, used) => Login(s, token, now, used)
    case LookedUp(now) => Sweep(s, now)
    case Removed(token, _) => s.(tokens := s.tokens - {token})
  }

  /** Every session is stored under its own token; none was already expired at the last sweep; and nothing lies in the
      future. */
  ghost predicate Inv(s: Store, clock: int) {
    && s.lastTimeoutUpdate <= clock
    && forall t :: t in s.tokens ==>
         && s.tokens[t].sessionToken == t && s.tokens[t].lastUpdated <= clock
         && !Expired(s.tokens[t], s.lastTimeoutUpdate)
  }

  lemma StepKeepsInv(s: Store, clock: int, e: Event)
    requires Inv(s, clock) && clock <= TimeOf(e) <= EndOf(e)
    ensures Inv(Step(s, e), EndOf(e))
  {
    match e
    case Generated(session) =>
    case LoggedIn(token, now, used) => SweepKeepsInv(s, clock, now);
    case LookedUp(now) => SweepKeepsInv(s, clock, now);
    case Removed(token, now) =>
  }

  /** After a sweep, or where none was due, no session in the store has been idle for 61 minutes. */
  lemma SweepKeepsInv(s: Store, clock: int, now: int)
    requires Inv(s, clock) && clock <= now
    ensures Inv(Sweep(s, now), now)
    ensures forall t :: t in Sweep(s, now).tokens ==> now - Sweep(s, now).tokens[t].lastUpdated < TIMEOUT + MINUTE
    ensures forall t :: t in Sweep(s, now).tokens ==> t in s.tokens && Sweep(s, now).tokens[t] == s.tokens[t]
  {
  }

  ghost predicate Run(clock: int, events: seq<Event>)
    decreases |events|
  {
    events == [] || (clock <= TimeOf(events[0]) <= EndOf(events[0]) && Run(EndOf(events[0]), events[1..]))
  }

  function After(s: Store, events: seq<Event>): Store
    decreases |events|
  {
    if events == [] then s else After(Step(s, events[0]), events[1..])
  }

  ghost function ClockAfter(clock: int, events: seq<Event>): int
    decreases |events|
  {
    if events == [] then clock else ClockAfter(EndOf(events[0]), events[1..])
  }

  lemma {:induction false} RunKeepsInv(s: Store, clock: int, events: seq<Event>)
    requires Inv(s, clock) && Run(clock, events)
    ensures Inv(After(s, events), ClockAfter(clock, events))
    decreases |events|
  {
    if events != [] {
      StepKeepsInv(s, clock, events[0]);
      RunKeepsInv(Step(s, events[0]), EndOf(events[0]), events[1..]);
    }
  }

  /** In every run of a store that starts empty, with a clock that does not go back: a lookup at any later time sees only
      sessions that were used less than 61 minutes before, each under its own token. */
  lemma LookupsAreFresh(clock: int, events: seq<Event>, now: int, token: string)
    requires 0 <= clock && Run(clock, events) && ClockAfter(clock, events) <= now
    requires token in Sweep(After(Store(map[], 0), events), now).tokens
    ensures token in After(Store(map[], 0), events).tokens
    ensures now - After(Store(map[], 0), events).tokens[token].lastUpdated < 61 * 60_000_000
    ensures After(Store(map[], 0), events).tokens[token].sessionToken == token
  {
    RunKeepsInv(Store(map[], 0), clock, events);
    SweepKeepsInv(After(Store(map[], 0), events), ClockAfter(clock, events), now);
  }

  /** Said of the events alone: whatever happens comes less than 60 minutes after the last use of the token, and it is not
      the token's removal. */
  ghost predicate Gaps(lastUse: int, token: string, events: seq<Event>)
    decreases |events|
  {
    events == [] ||
    (&& TimeOf(events[0]) - lastUse < 60 * 60_000_000
     && !(events[0].Removed? && events[0].token == token)
     && Gaps(if events[0].LoggedIn? && events[0].token == token then events[0].used else lastUse, token, events[1..]))
  }

  ghost function LastUse(lastUse: int, token: string, events: seq<Event>): int
    decreases |events|
  {
    if events == [] then lastUse
    else LastUse(if events[0].LoggedIn? && events[0].token == token then events[0].used else lastUse, token, events[1..])
  }

  /** A session reused at gaps below 60 minutes, counted from its last use by token, is never expired, and it is still the
      session it was, with the time of that last use. */
  lemma {:induction false} ReusedSessionSurvives(s: Store, token: string, events: seq<Event>)
    requires token in s.tokens && Gaps(s.tokens[token].lastUpdated, token, events)
    requires |token| == 20
    ensures token in After(s, events).tokens
    ensures After(s, events).tokens[token] ==
            s.tokens[token].(lastUpdated := LastUse(s.tokens[token].lastUpdated, token, events))
    decreases |events|
  {
    if events != [] {
      ReusedSessionSurvives(Step(s, events[0]), token, events[1..]);
    }
  }
}
