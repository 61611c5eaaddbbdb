/** Middleware calls around a request, and the completion of its response (http/http_connection.h, http/http_response.h,
    include/token_authorization_middleware.hpp). */
module Middlewares {
  import opened Options

  /** Calls observed during one request, in order. */
  datatype Call = Before(i: nat) | Handler | Upgrade | After(i: nat)

  /** `beforeHandle` of the middlewares from `a` up to `b`. */
  function Befores(a: nat, b: nat): (r: seq<Call>)
    requires a <= b
    ensures |r| == b - a && forall k :: 0 <= k < |r| ==> r[k] == Before(a + k)
  {
    seq(b - a, k requires 0 <= k < b - a => Before(a + k))
  }

  /** `afterHandle` of the middlewares below `b` down to `a`. */
  function Afters(a: nat, b: nat): (r: seq<Call>)
    requires a <= b
    ensures |r| == b - a && forall k :: 0 <= k < |r| ==> r[k] == After(b - 1 - k)
  {
    seq(b - a, k requires 0 <= k < b - a => After(b - 1 - k))
  }

  /** The first middleware from `i` on whose `beforeHandle` ends the response; their number when none does. */
  function FirstEnding(ends: seq<bool>, i: nat): (k: nat)
    requires i <= |ends|
    ensures i <= k <= |ends| && (forall j :: i <= j < k ==> !ends[j]) && (k < |ends| ==> ends[k])
    decreases |ends| - i
  {
    if i == |ends| || ends[i] then i else FirstEnding(ends, i + 1)
  }

  /** The calls of a request whose handler has or has not ended the response yet. */
  function Expected(ends: seq<bool>, handlerEnded: bool): seq<Call> {
    var k := FirstEnding(ends, 0);
    if k < |ends| then Befores(0, k + 1) + Afters(0, k + 1)
    else Befores(0, |ends|) + [Handler] + if handlerEnded then Afters(0, |ends|) else []
  }

  /** The calls made by the chain from middleware `i` on, before any handler runs. */
  function ChainCalls(ends: seq<bool>, i: nat): seq<Call>
    requires i <= |ends|
  {
    var k := FirstEnding(ends, i);
    if k < |ends| then Befores(i, k + 1) + Afters(i, k + 1) else Befores(i, |ends|)
  }

  lemma ChainStep(ends: seq<bool>, i: nat)
    requires i < |ends|
    ensures ends[i] ==> FirstEnding(ends, i) == i && ChainCalls(ends, i) == [Before(i)] + [After(i)]
    ensures !ends[i] ==> FirstEnding(ends, i) == FirstEnding(ends, i + 1)
    ensures !ends[i] ==>
              ChainCalls(ends, i) ==
              [Before(i)] + ChainCalls(ends, i + 1) + (if FirstEnding(ends, i) < |ends| then [After(i)] else [])
  {
    hide Befores, Afters, FirstEnding, ChainCalls;
    var k := FirstEnding(ends, i);
    FirstEndingStep(ends, i);
    ChainIs(ends, i);
    if ends[i] {
      OneCall(i);
    } else {
      ChainIs(ends, i + 1);
      if k < |ends| {
        CallsStep(i, k + 1);
        Nested(Before(i), Befores(i + 1, k + 1), Afters(i + 1, k + 1), After(i));
      } else {
        CallsStep(i, |ends|);
      }
    }
  }

  lemma FirstEndingStep(ends: seq<bool>, i: nat)
    requires i < |ends|
    ensures FirstEnding(ends, i) == if ends[i] then i else FirstEnding(ends, i + 1)
  {
  }

  lemma ChainIs(ends: seq<bool>, i: nat)
    requires i <= |ends|
    ensures
      var k := FirstEnding(ends, i);
      ChainCalls(ends, i) == if k < |ends| then Befores(i, k + 1) + Afters(i, k + 1) else Befores(i, |ends|)
  {
  }

  lemma Nested(x: Call, b: seq<Call>, a: seq<Call>, y: Call)
    ensures [x] + b + (a + [y]) == [x] + (b + a) + [y]
  {
  }

  lemma OneCall(i: nat)
    ensures Befores(i, i + 1) == [Before(i)] && Afters(i, i + 1) == [After(i)]
  {
  }

  lemma CallsStep(a: nat, b: nat)
    requires a < b
    ensures Befores(a, b) == [Before(a)] + Befores(a + 1, b)
    ensures Afters(a, b) == Afters(a + 1, b) + [After(a)]
  {
  }

  lemma ChainEnd(ends: seq<bool>)
    ensures FirstEnding(ends, |ends|) == |ends| && ChainCalls(ends, |ends|) == []
  {
  }

  lemma UpgradeIs(ends: seq<bool>)
    requires FirstEnding(ends, 0) == |ends|
    ensures UpgradeCalls(|ends|) == ChainCalls(ends, 0) + [Upgrade]
  {
  }

  lemma ChainExpected(ends: seq<bool>)
    ensures FirstEnding(ends, 0) < |ends| ==> Expected(ends, true) == ChainCalls(ends, 0)
    ensures FirstEnding(ends, 0) == |ends| ==> Expected(ends, false) == ChainCalls(ends, 0) + [Handler]
    ensures FirstEnding(ends, 0) == |ends| ==> Expected(ends, true) == ChainCalls(ends, 0) + [Handler] + Afters(0, |ends|)
  {
  }

  /** The single-request sessions alive after some calls: the authorisation middleware, at position `auth`, creates its
      session in `beforeHandle` and removes it in `afterHandle`. */
  ghost function SessionsAfter(start: set<nat>, auth: nat, token: Option<nat>, calls: seq<Call>): set<nat>
    decreases |calls|
  {
    if calls == [] then start
    else SessionStep(SessionsAfter(start, auth, token, calls[..|calls| - 1]), auth, token, calls[|calls| - 1])
  }

  function SessionStep(s: set<nat>, auth: nat, token: Option<nat>, c: Call): set<nat> {
    if token.None? then s
    else if c == Before(auth) then s + {token.value}
    else if c == After(auth) then s - {token.value}
    else s
  }

  lemma SessionsSnoc(start: set<nat>, auth: nat, token: Option<nat>, calls: seq<Call>, c: Call)
    ensures SessionsAfter(start, auth, token, calls + [c]) ==
            SessionStep(SessionsAfter(start, auth, token, calls), auth, token, c)
  {
    assert (calls + [c])[..|calls + [c]| - 1] == calls;
  }

  lemma {:induction false} SessionsSplit(start: set<nat>, auth: nat, token: Option<nat>, a: seq<Call>, b: seq<Call>)
    ensures SessionsAfter(start, auth, token, a + b) ==
            SessionsAfter(SessionsAfter(start, auth, token, a), auth, token, b)
    decreases |b|
  {
    if b == [] {
      assert a + b == a;
    } else {
      assert (a + b)[..|a + b| - 1] == a + b[..|b| - 1];
      SessionsSplit(start, auth, token, a, b[..|b| - 1]);
    }
  }

  lemma {:induction false} SessionsOfBefores(start: set<nat>, auth: nat, token: Option<nat>, m: nat)
    ensures SessionsAfter(start, auth, token, Befores(0, m)) ==
            if token.Some? && auth < m then start + {token.value} else start
    decreases m
  {
    if m > 0 {
      SessionsOfBefores(start, auth, token, m - 1);
      assert Befores(0, m) == Befores(0, m - 1) + [Before(m - 1)];
      SessionsSnoc(start, auth, token, Befores(0, m - 1), Before(m - 1));
    }
  }

  lemma {:induction false} SessionsOfAfters(start: set<nat>, auth: nat, token: Option<nat>, a: nat, m: nat)
    requires a <= m
    ensures SessionsAfter(start, auth, token, Afters(a, m)) ==
            if token.Some? && a <= auth < m then start - {token.value} else start
    decreases m - a
  {
    if a < m {
      SessionsOfAfters(start, auth, token, a + 1, m);
      assert Afters(a, m) == Afters(a + 1, m) + [After(a)];
      SessionsSnoc(start, auth, token, Afters(a + 1, m), After(a));
    }
  }

  /** Once a request has completed, no single-request session it created is left, whichever middleware ended it. */
  lemma NoSessionOutlivesRequest(start: set<nat>, auth: nat, token: Option<nat>, ends: seq<bool>)
    requires token.Some? ==> token.value !in start
    ensures SessionsAfter(start, auth, token, Expected(ends, true)) == start
  {
    var k := FirstEnding(ends, 0);
    var m := if k < |ends| then k + 1 else |ends|;
    var mid := if k < |ends| then [] else [Handler];
    var up := Befores(0, m) + mid;
    assert Expected(ends, true) == up + Afters(0, m);
    SessionsOfBefores(start, auth, token, m);
    if k < |ends| {
      assert up == Befores(0, m);
    } else {
      SessionsSnoc(start, auth, token, Befores(0, m), Handler);
    }
    var between := SessionsAfter(start, auth, token, up);
    SessionsSplit(start, auth, token, up, Afters(0, m));
    SessionsOfAfters(between, auth, token, 0, m);
  }

  /** The calls of a request that is handed over to a web socket: no `afterHandle` runs. */
  function UpgradeCalls(n: nat): seq<Call> {
    Befores(0, n) + [Upgrade]
  }

  /** Such a request leaves the sessions as they were if and only if the authorisation middleware made none for it. */
  lemma UpgradeSessions(start: set<nat>, auth: nat, token: Option<nat>, n: nat)
    requires token.Some? ==> token.value !in start
    ensures SessionsAfter(start, auth, token, UpgradeCalls(n)) == start <==> token.None? || auth >= n
    ensures SessionsAfter(start, auth, token, UpgradeCalls(n)) ==
            if token.Some? && auth < n then start + {token.value} else start
  {
    SessionsOfBefores(start, auth, token, n);
    SessionsSnoc(start, auth, token, Befores(0, n), Upgrade);
  }

  /** One middleware that makes a session, and an upgrade: the session is still there. */
  lemma UpgradeLeavesSession()
    ensures SessionsAfter({}, 0, Some(7), UpgradeCalls(1)) == {7}
  {
    UpgradeSessions({}, 0, Some(7), 1);
  }

  /** What the response does when it is ended. */
  datatype Completion = Unset | Nothing | CompletesRequest

  /** One connection while it serves a request. `ends` says which middlewares' `beforeHandle` ends the response, `auth` is
      the position of the authorisation middleware, and `token` the single-request session it creates, if any. */
  class Exchange {
    const ends: seq<bool>
    const auth: nat
    const token: Option<nat>
    const alive: bool
    ghost const start: set<nat>
    var completed: bool
    var completeRequestHandler: Completion
    var needToCallAfterHandlers: bool
    var writes: nat
    var sessions: set<nat>
    ghost var trace: seq<Call>

    ghost predicate Valid()
      reads this
    {
      ends != [] && sessions == SessionsAfter(start, auth, token, trace)
    }

    constructor (ends: seq<bool>, auth: nat, token: Option<nat>, sessions: set<nat>, alive: bool)
      requires ends != []
      ensures Valid() && this.ends == ends && this.auth == auth && this.token == token && this.alive == alive
      ensures start == sessions && trace == [] && !completed && !needToCallAfterHandlers && writes == 0
    {
      this.ends, this.auth, this.token, this.sessions, this.alive, start := ends, auth, token, sessions, alive, sessions;
      completed, completeRequestHandler, needToCallAfterHandlers, writes, trace := false, Unset, false, 0, [];
    }

    method CallBefore(i: nat)
      requires Valid() && i < |ends| && !completed && completeRequestHandler == Nothing
      modifies `completed, `sessions, `trace
      ensures Valid() && trace == old(trace) + [Before(i)] && completed == ends[i]
    {
      SessionsSnoc(start, auth, token, trace, Before(i));
      sessions := SessionStep(sessions, auth, token, Before(i));
      trace := trace + [Before(i)];
      if ends[i] {
        completed := true;
      }
    }

    method CallAfter(i: nat)
      requires Valid() && i < |ends|
      modifies `sessions, `trace
      ensures Valid() && trace == old(trace) + [After(i)]
    {
      SessionsSnoc(start, auth, token, trace, After(i));
      sessions := SessionStep(sessions, auth, token, After(i));
      trace := trace + [After(i)];
    }

    /** Calls `beforeHandle` in order until one ends the response, and then `afterHandle` on the way back. */
    method MiddlewareCallHelper(i: nat) returns (r: bool)
      requires Valid() && i <= |ends| && !completed && completeRequestHandler == Nothing
      modifies `completed, `sessions, `trace
      ensures Valid() && r == completed == (FirstEnding(ends, i) < |ends|)
      ensures trace == old(trace) + ChainCalls(ends, i)
      decreases |ends| - i
    {
      hide Valid, ChainCalls, Befores, Afters, FirstEnding;
      if i == |ends| {
        ChainEnd(ends);
        return false;
      }
      ChainStep(ends, i);
      CallBefore(i);
      if completed {
        CallAfter(i);
        return true;
      }
      var inner := MiddlewareCallHelper(i + 1);
      if inner {
        CallAfter(i);
        return true;
      }
      r := false;
    }

    method AfterHandlersCallHelper(n: nat)
      requires Valid() && n < |ends|
      modifies `sessions, `trace
      ensures Valid() && trace == old(trace) + Afters(0, n + 1)
      decreases n
    {
      CallAfter(n);
      if n > 0 {
        AfterHandlersCallHelper(n - 1);
      }
      assert Afters(0, n + 1) == [After(n)] + Afters(0, n);
    }

    /** Calls the `afterHandle`s that are still due, and writes the response if the socket is open. */
    method CompleteRequest()
      requires Valid()
      modifies this
      ensures Valid() && trace == old(trace) + if old(needToCallAfterHandlers) then Afters(0, |ends|) else []
      ensures completeRequestHandler == Nothing && !needToCallAfterHandlers && completed == old(completed)
      ensures writes == old(writes) + if alive then 1 else 0
    {
      if needToCallAfterHandlers {
        needToCallAfterHandlers := false;
        AfterHandlersCallHelper(|ends| - 1);
      }
      completeRequestHandler := Nothing;
      if !alive {
        return;
      }
      writes := writes + 1;
    }

    /** `Response::end`: the first call completes the request; any later one does nothing. */
    method End()
      requires Valid()
      modifies this
      ensures Valid() && completed
      ensures if old(completed) || old(completeRequestHandler) != CompletesRequest
              then trace == old(trace) && writes == old(writes) && sessions == old(sessions) &&
                   completeRequestHandler == old(completeRequestHandler) &&
                   needToCallAfterHandlers == old(needToCallAfterHandlers)
              else
                && trace == old(trace) + (if old(needToCallAfterHandlers) then Afters(0, |ends|) else [])
                && writes == old(writes) + (if alive then 1 else 0)
                && completeRequestHandler == Nothing && !needToCallAfterHandlers
    {
      if completed {
        return;
      }
      completed := true;
      if completeRequestHandler == CompletesRequest {
        CompleteRequest();
      }
    }

    /** The request is with its handler, which has not ended the response yet. */
    ghost predicate Waiting()
      reads this
    {
      && Valid() && FirstEnding(ends, 0) == |ends| && trace == Expected(ends, false)
      && !completed && completeRequestHandler == CompletesRequest && needToCallAfterHandlers && writes == 0
    }

    /** The request is over: every `beforeHandle` that ran has its `afterHandle`, in reverse order, and once. */
    ghost predicate Over()
      reads this
    {
      && Valid() && completed && trace == Expected(ends, true)
      && completeRequestHandler == Nothing && !needToCallAfterHandlers && writes == if alive then 1 else 0
    }

    /** The socket has been handed over; ending the response has no effect any more. */
    ghost predicate HandedOver()
      reads this
    {
      && Valid() && trace == UpgradeCalls(|ends|)
      && completeRequestHandler == Nothing && !needToCallAfterHandlers && writes == 0
    }

    /** Serves a request. `upgrade` says that it asks for a web socket, `handlerEnds` whether the handler ends the response
        before it returns. */
    method Handle(validHost: bool, upgrade: bool, handlerEnds: bool)
      requires Valid() && trace == [] && !completed && writes == 0
      modifies this
      ensures Valid()
      ensures !validHost ==> trace == [] && writes == if alive then 1 else 0
      ensures validHost && FirstEnding(ends, 0) < |ends| ==> Over()
      ensures validHost && FirstEnding(ends, 0) == |ends| ==>
                if upgrade then HandedOver() else if handlerEnds then Over() else Waiting()
    {
      hide ChainCalls, Befores, Afters, Expected, SessionsAfter;
      ChainExpected(ends);
      needToCallAfterHandlers := false;
      if !validHost {
        CompleteRequest();
        return;
      }
      completeRequestHandler := Nothing;
      var ended := MiddlewareCallHelper(0);
      if !completed {
        if upgrade {
          UpgradeIs(ends);
          SessionsSnoc(start, auth, token, trace, Upgrade);
          trace := trace + [Upgrade];
          if handlerEnds {
            End();
          }
          return;
        }
        completeRequestHandler := CompletesRequest;
        needToCallAfterHandlers := true;
        SessionsSnoc(start, auth, token, trace, Handler);
        trace := trace + [Handler];
        if handlerEnds {
          End();
        }
      } else {
        CompleteRequest();
      }
    }

    /** The handler ends the response after it has returned, and perhaps again later. A session that the request made is
        gone then, unless the socket was handed over. */
    method EndLater()
      requires Waiting() || Over() || HandedOver()
      modifies this
      ensures if old(HandedOver()) then HandedOver() else Over()
      ensures (token.Some? ==> token.value !in start) ==>
                (sessions == start <==> !old(HandedOver()) || token.None? || auth >= |ends|)
    {
      ghost var upgraded := HandedOver();
      End();
      if upgraded {
        if token.Some? ==> token.value !in start {
          UpgradeSessions(start, auth, token, |ends|);
        }
      } else if token.Some? ==> token.value !in start {
        NoSessionOutlivesRequest(start, auth, token, ends);
      }
    }
  }

  /** Who completed a request: a middleware or the connection itself, or the handler of some request. */
  datatype Answer = Early | FromHandler(who: nat)

  /** The one response object of a kept-alive connection, over its requests 1, 2, ... `completes` says that ending the
      response completes the current request; `handled` and `ended` are the requests whose handlers have been called and
      have ended the response; `stale` is who ended it while there was no request. */
  datatype Shared = Shared(
    request: nat, completed: bool, completes: bool, writing: bool, handled: set<nat>, ended: set<nat>, stale: Option<nat>,
    answers: seq<Answer>)

  const FRESH := Shared(0, false, false, false, {}, {}, None, [])

  datatype SharedEvent = Arrive(validHost: bool, endedEarly: bool) | Ends(who: nat) | Written

  /** A request comes when the last response is out; only a handler that was called can end a response. */
  predicate Possible(s: Shared, e: SharedEvent) {
    match e
    case Arrive(_, _) => !s.completes && !s.writing
    case Ends(who) => who in s.handled
    case Written => s.writing
  }

  function SharedStep(s: Shared, e: SharedEvent): Shared {
    match e
    case Arrive(validHost, endedEarly) =>
      var t := s.(request := s.request + 1);
      if !validHost then t.(writing := true, answers := s.answers + [Early])
      else if s.completed then
        t.(writing := true, answers := s.answers + [if s.stale.Some? then FromHandler(s.stale.value) else Early])
      else if endedEarly then t.(completed := true, writing := true, answers := s.answers + [Early])
      else t.(completes := true, handled := s.handled + {t.request})
    case Ends(who) =>
      var t := s.(ended := s.ended + {who});
      if s.completed then t
      else if s.completes then
        t.(completed := true, completes := false, writing := true, answers := s.answers + [FromHandler(who)])
      else t.(completed := true, stale := if s.writing then None else Some(who))
    case Written => s.(writing := false, completed := false, stale := None)
  }

  /** The response object between the requests of one connection. */
  class KeptAlive {
    var completed: bool
    var completeRequestHandler: Completion
    var isWriting: bool
    ghost var view: Shared

    ghost predicate Valid()
      reads this
    {
      view.completed == completed && view.completes == (completeRequestHandler == CompletesRequest) &&
      view.writing == isWriting
    }

    constructor ()
      ensures Valid() && view == FRESH
    {
      completed, completeRequestHandler, isWriting, view := false, Unset, false, FRESH;
    }

    /** `handle`, up to the handler: it is called unless the response is completed by then. */
    method Arrived(validHost: bool, endedEarly: bool)
      requires Valid() && Possible(view, Arrive(validHost, endedEarly))
      modifies this
      ensures Valid() && view == SharedStep(old(view), Arrive(validHost, endedEarly))
    {
      view := SharedStep(view, Arrive(validHost, endedEarly));
      if !validHost {
        completeRequestHandler := Nothing;
        isWriting := true;
        return;
      }
      completeRequestHandler := Nothing;
      if endedEarly {
        completed := true;
      }
      if !completed {
        completeRequestHandler := CompletesRequest;
      } else {
        isWriting := true;
      }
    }

    method End(ghost who: nat)
      requires Valid() && Possible(view, Ends(who))
      modifies this
      ensures Valid() && view == SharedStep(old(view), Ends(who))
    {
      view := SharedStep(view, Ends(who));
      if completed {
        return;
      }
      completed := true;
      if completeRequestHandler == CompletesRequest {
        completeRequestHandler := Nothing;
        isWriting := true;
      }
    }

    /** The write is done and the connection kept alive: the response is cleared. */
    method OnWritten()
      requires Valid() && Possible(view, Written)
      modifies this
      ensures Valid() && view == SharedStep(old(view), Written)
    {
      view := SharedStep(view, Written);
      isWriting := false;
      completed := false;
    }
  }

  /** So far every request has been completed by its own handler, or before one was called. */
  ghost predicate OwnAnswers(answers: seq<Answer>) {
    forall k :: 0 <= k < |answers| ==> answers[k] == Early || answers[k] == FromHandler(k + 1)
  }

  ghost predicate SharedInv(s: Shared) {
    && OwnAnswers(s.answers) && s.stale.None? && s.request == |s.answers| + (if s.completes then 1 else 0)
    && (s.completes ==> !s.completed && !s.writing && s.request in s.handled) && (s.completed ==> s.writing)
    && (forall who :: who in s.handled ==> (who in s.ended <==> !(who == s.request && s.completes)) && who <= s.request)
    && s.ended <= s.handled
  }

  /** This end reaches past its own request: it completes another one, or leaves the response completed for the next. */
  predicate Strays(s: Shared, who: nat) {
    !s.completed && (if s.completes then who != s.request else !s.writing)
  }

  /** As long as all has gone well, an end strays exactly when its handler has ended before and the response has been cleared
      since. */
  lemma StraysExactly(s: Shared, who: nat)
    requires SharedInv(s) && who in s.handled
    ensures Strays(s, who) <==> who in s.ended && !s.completed && !s.writing
  {
  }

  lemma SharedStepKeeps(s: Shared, e: SharedEvent)
    requires SharedInv(s) && Possible(s, e) && (e.Ends? ==> !Strays(s, e.who))
    ensures SharedInv(SharedStep(s, e))
  {
  }

  ghost predicate SharedRun(s: Shared, events: seq<SharedEvent>)
    decreases |events|
  {
    events == [] || (Possible(s, events[0]) && SharedRun(SharedStep(s, events[0]), events[1..]))
  }

  ghost function SharedAfter(s: Shared, events: seq<SharedEvent>): Shared
    decreases |events|
  {
    if events == [] then s else SharedAfter(SharedStep(s, events[0]), events[1..])
  }

  /** No handler ends a response twice. */
  ghost predicate EndsOnce(ended: set<nat>, events: seq<SharedEvent>)
    decreases |events|
  {
    events == [] ||
    ((events[0].Ends? ==> events[0].who !in ended) &&
     EndsOnce(if events[0].Ends? then ended + {events[0].who} else ended, events[1..]))
  }

  /** If no handler ends a response twice, every request of the connection is completed by its own handler, or before one
      was called. */
  lemma {:induction false} OwnHandlersAnswer(s: Shared, events: seq<SharedEvent>)
    requires SharedInv(s) && SharedRun(s, events) && EndsOnce(s.ended, events)
    ensures SharedInv(SharedAfter(s, events)) && OwnAnswers(SharedAfter(s, events).answers)
    decreases |events|
  {
    hide SharedInv, SharedStep;
    if events == [] {
      OwnOfInv(s);
    } else {
      var e := events[0];
      if e.Ends? {
        StraysExactly(s, e.who);
      }
      SharedStepKeeps(s, e);
      EndedNext(s, e);
      OwnHandlersAnswer(SharedStep(s, e), events[1..]);
    }
  }

  /** The requests that came: whether the host was valid, and whether a middleware ended the response. */
  ghost function Arrivals(events: seq<SharedEvent>): seq<SharedEvent>
    decreases |events|
  {
    if events == [] then []
    else (if events[0].Arrive? then [events[0]] else []) + Arrivals(events[1..])
  }

  predicate Called(e: SharedEvent) {
    e.Arrive? && e.validHost && !e.endedEarly
  }

  /** A request is answered early if and only if its host is invalid or a middleware ended it, and by its handler
      otherwise. */
  ghost predicate AnsweredAs(s: Shared, came: seq<SharedEvent>) {
    && s.request == |came|
    && (forall k :: 0 <= k < |came| ==> (k + 1 in s.handled <==> Called(came[k])))
    && (forall k :: 0 <= k < |s.answers| && k < |came| ==>
          s.answers[k] == if Called(came[k]) then FromHandler(k + 1) else Early)
    && forall who :: who in s.handled ==> 1 <= who <= s.request
  }

  lemma AnswerStep(s: Shared, e: SharedEvent, came: seq<SharedEvent>)
    requires SharedInv(s) && Possible(s, e) && (e.Ends? ==> !Strays(s, e.who)) && AnsweredAs(s, came)
    ensures AnsweredAs(SharedStep(s, e), if e.Arrive? then came + [e] else came)
  {
  }

  /** Over every run in which no handler ends twice: exactly the requests with a valid host that no middleware ended are
      given to their handlers, and every answer is as the request's own arrival says. */
  lemma {:induction false} AnswersExactly(s: Shared, events: seq<SharedEvent>, came: seq<SharedEvent>)
    requires SharedInv(s) && SharedRun(s, events) && EndsOnce(s.ended, events) && AnsweredAs(s, came)
    ensures AnsweredAs(SharedAfter(s, events), came + Arrivals(events))
    decreases |events|
  {
    hide SharedInv, SharedStep, AnsweredAs;
    if events == [] {
      assert came + [] == came;
    } else {
      var e := events[0];
      if e.Ends? {
        StraysExactly(s, e.who);
      }
      SharedStepKeeps(s, e);
      EndedNext(s, e);
      AnswerStep(s, e, came);
      AnswersExactly(SharedStep(s, e), events[1..], if e.Arrive? then came + [e] else came);
      assert came + Arrivals(events) == (if e.Arrive? then came + [e] else came) + Arrivals(events[1..]);
    }
  }

  lemma OwnOfInv(s: Shared)
    requires SharedInv(s)
    ensures OwnAnswers(s.answers)
  {
  }

  lemma EndedNext(s: Shared, e: SharedEvent)
    ensures SharedStep(s, e).ended == if e.Ends? then s.ended + {e.who} else s.ended
  {
  }

  lemma RunOne(s: Shared, e: SharedEvent, events: seq<SharedEvent>)
    requires events != [] && events[0] == e && Possible(s, e)
    ensures SharedRun(s, events) <==> SharedRun(SharedStep(s, e), events[1..])
    ensures SharedAfter(s, events) == SharedAfter(SharedStep(s, e), events[1..])
  {
    hide SharedStep, Possible;
  }

  lemma FiveEvents(a: SharedEvent, b: SharedEvent, c: SharedEvent, d: SharedEvent, e: SharedEvent)
    requires Possible(FRESH, a) && Possible(SharedStep(FRESH, a), b)
    requires Possible(SharedStep(SharedStep(FRESH, a), b), c)
    requires Possible(SharedStep(SharedStep(SharedStep(FRESH, a), b), c), d)
    requires Possible(SharedStep(SharedStep(SharedStep(SharedStep(FRESH, a), b), c), d), e)
    ensures SharedRun(FRESH, [a, b, c, d, e])
    ensures SharedAfter(FRESH, [a, b, c, d, e]) ==
            SharedStep(SharedStep(SharedStep(SharedStep(SharedStep(FRESH, a), b), c), d), e)
  {
    hide SharedStep, Possible;
    var s := SharedStep(FRESH, a);
    var t := SharedStep(s, b);
    var u := SharedStep(t, c);
    var v := SharedStep(u, d);
    assert [a, b, c, d, e][1..] == [b, c, d, e] && [b, c, d, e][1..] == [c, d, e] && [c, d, e][1..] == [d, e];
    assert [d, e][1..] == [e] && [e][1..] == [];
    RunOne(v, e, [e]);
    RunOne(u, d, [d, e]);
    RunOne(t, c, [c, d, e]);
    RunOne(s, b, [b, c, d, e]);
    RunOne(FRESH, a, [a, b, c, d, e]);
  }

  /** A handler that ends twice: its second end, after the response was cleared, completes the next request; or, before that
      request has come, leaves it without a call of its handler. */
  lemma SecondEndStrays()
    ensures
      var events := [Arrive(true, false), Ends(1), Written, Arrive(true, false), Ends(1)];
      SharedRun(FRESH, events) && SharedAfter(FRESH, events).answers == [FromHandler(1), FromHandler(1)]
    ensures
      var events := [Arrive(true, false), Ends(1), Written, Ends(1), Arrive(true, false)];
      && SharedRun(FRESH, events) && SharedAfter(FRESH, events).answers == [FromHandler(1), FromHandler(1)]
      && SharedAfter(FRESH, events).handled == {1}
  {
    FiveEvents(Arrive(true, false), Ends(1), Written, Arrive(true, false), Ends(1));
    FiveEvents(Arrive(true, false), Ends(1), Written, Ends(1), Arrive(true, false));
  }
}
