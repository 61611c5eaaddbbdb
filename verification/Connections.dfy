/** The life of HTTP connections that share one deadline queue (http/http_connection.h, http/http_server.h). */
module Connections {
  import opened Options
  import Timers

  /** What a connection is waiting for. `Handling` is a request in the hands of its handler; `Upgraded` a socket handed
      to a websocket; `Abandoned` a response completed after the socket was closed. */
  datatype Phase = New | Handshake | Header | Body | Handling | Writing | Upgraded | Abandoned | Gone

  /** The fields of a connection, with two counters kept beside them: asynchronous operations not completed yet, and how
      often the object has been freed. */
  datatype Conn = Conn(
    phase: Phase, isReading: bool, isWriting: bool, alive: bool, key: nat, pending: nat, frees: nat)

  const CREATED := Conn(New, false, false, true, 0, 0, 0)

  /** What a handler asks of the timer queue, in order. */
  datatype TimerOp = CancelOp(key: nat) | AddOp(now: int)

  type Effect = (Conn, seq<TimerOp>)

  /** `checkDestroy`, and the destructor's cancellation when it frees the connection. */
  function CheckDestroy(c: Conn): Effect {
    if !c.isReading && !c.isWriting then (c.(phase := Gone, frees := c.frees + 1), [CancelOp(c.key)]) else (c, [])
  }

  function DoReadHeaders(c: Conn): Conn {
    c.(phase := Header, isReading := true, pending := c.pending + 1)
  }

  function Complete(c: Conn): Conn
  {
    c.(pending := if c.pending > 0 then c.pending - 1 else 0)
  }

  /** `start`: a fresh deadline, then the TLS handshake or the first read. */
  function OnStart(c: Conn, newKey: nat, now: int, tls: bool): Effect {
    var d := c.(key := newKey);
    (if tls then d.(phase := Handshake, pending := d.pending + 1) else DoReadHeaders(d), [CancelOp(c.key), AddOp(now)])
  }

  /** The accept that this connection was made for failed. */
  function OnAcceptFailed(c: Conn): Effect {
    (c.(phase := Gone, frees := c.frees + 1), [CancelOp(c.key)])
  }

  function OnHandshake(c: Conn, failed: bool): Effect {
    if failed then CheckDestroy(Complete(c)) else (DoReadHeaders(Complete(c)), [])
  }

  /** The error path shared by both reads. */
  function ReadFailed(c: Conn): Effect {
    var (d, ops) := CheckDestroy(c.(alive := false));
    (d, [CancelOp(c.key)] + ops)
  }

  function OnHeaderRead(c: Conn, ec: bool, upgrade: bool): Effect {
    var d := Complete(c).(isReading := false);
    if ec || (!c.alive && !upgrade) then ReadFailed(d)
    else (d.(phase := Body, isReading := true, pending := d.pending + 1), [])
  }

  function OnBodyRead(c: Conn, ec: bool): Effect {
    var d := Complete(c).(isReading := false);
    if ec || !c.alive then ReadFailed(d) else (d.(phase := Handling), [CancelOp(c.key)])
  }

  function OnUpgrade(c: Conn): Effect {
    (c.(phase := Upgraded, alive := false), [])
  }

  function OnCompleted(c: Conn): Effect {
    if !c.alive then (c.(phase := Abandoned), [])
    else (c.(phase := Writing, isWriting := true, pending := c.pending + 1), [])
  }

  function OnWritten(c: Conn, ec: bool, keepAlive: bool): Effect {
    var d := Complete(c).(isWriting := false);
    if ec then CheckDestroy(d)
    else if !keepAlive then CheckDestroy(d.(alive := false))
    else (DoReadHeaders(d), [])
  }

  /** Flags say what is pending, at most one operation is, and the object has been freed exactly when it is gone. */
  ghost predicate ConnInv(c: Conn) {
    && (c.isReading <==> c.phase == Header || c.phase == Body)
    && (c.isWriting <==> c.phase == Writing)
    && c.pending == (if c.phase in {Handshake, Header, Body, Writing} then 1 else 0)
    && c.frees == (if c.phase == Gone then 1 else 0)
  }

  /** A connection object. Its callbacks are the methods; the queue is shared. */
  class Connection {
    var isReading: bool
    var isWriting: bool
    var alive: bool
    var timerCancelKey: nat
    const id: nat
    const timerQueue: Timers.TimerQueue<nat>
    ghost var view: Conn

    ghost predicate Valid()
      reads this
    {
      ConnInv(view) && view.isReading == isReading && view.isWriting == isWriting && view.alive == alive &&
      view.key == timerCancelKey
    }

    constructor (id: nat, timerQueue: Timers.TimerQueue<nat>)
      ensures Valid() && view == CREATED && this.id == id && this.timerQueue == timerQueue
    {
      isReading, isWriting, alive, timerCancelKey := false, false, true, 0;
      this.id, this.timerQueue := id, timerQueue;
      view := CREATED;
    }

    method CancelDeadlineTimer()
      modifies timerQueue
      ensures timerQueue.View() == Timers.Cancel(old(timerQueue.View()), timerCancelKey)
    {
      timerQueue.CancelTimer(timerCancelKey);
    }

    method Start(now: int, tls: bool)
      requires Valid() && view.phase == New
      modifies this, timerQueue
      ensures Valid()
      ensures view == OnStart(old(view), StartKey(old(view), old(timerQueue.View())), now, tls).0
      ensures timerQueue.View() == Apply(old(timerQueue.View()), id, OnStart(old(view), 0, now, tls).1)
    {
      CancelDeadlineTimer();
      var key := timerQueue.AddTimer(now, id);
      timerCancelKey := key;
      isReading := !tls;
      ApplyTwo(old(timerQueue.View()), id, CancelOp(view.key), AddOp(now));
      view := OnStart(view, key, now, tls).0;
    }

    /** Frees the connection when nothing is being read or written; the destructor cancels the deadline. */
    method CheckDestroyed(ghost c: Conn)
      requires c.isReading == isReading && c.isWriting == isWriting && c.alive == alive && c.key == timerCancelKey
      modifies this, timerQueue
      ensures isReading == old(isReading) && isWriting == old(isWriting) && alive == old(alive)
      ensures timerCancelKey == old(timerCancelKey) && view == CheckDestroy(c).0
      ensures timerQueue.View() == Apply(old(timerQueue.View()), id, CheckDestroy(c).1)
    {
      ApplyNone(timerQueue.View(), id);
      ApplyOne(timerQueue.View(), id, CancelOp(c.key));
      view := CheckDestroy(c).0;
      if !isReading && !isWriting {
        CancelDeadlineTimer();
      }
    }

    method HandshakeDone(failed: bool)
      requires Valid() && view.phase == Handshake
      modifies this, timerQueue
      ensures Valid() && view == OnHandshake(old(view), failed).0
      ensures timerQueue.View() == Apply(old(timerQueue.View()), id, OnHandshake(old(view), failed).1)
    {
      ApplyNone(timerQueue.View(), id);
      if failed {
        CheckDestroyed(Complete(view));
        return;
      }
      isReading := true;
      view := DoReadHeaders(Complete(view));
    }

    /** The error path of both reads: cancel the deadline, close the socket, free the connection if it is idle. */
    method FailRead(ghost c: Conn)
      requires c.isReading == isReading && c.isWriting == isWriting && c.alive == alive && c.key == timerCancelKey
      modifies this, timerQueue
      ensures isReading == old(isReading) && isWriting == old(isWriting) && !alive
      ensures timerCancelKey == old(timerCancelKey) && view == ReadFailed(c).0
      ensures timerQueue.View() == Apply(old(timerQueue.View()), id, ReadFailed(c).1)
    {
      ApplyCons(timerQueue.View(), id, CancelOp(c.key), CheckDestroy(c.(alive := false)).1);
      CancelDeadlineTimer();
      alive := false;
      CheckDestroyed(c.(alive := false));
    }

    method HeaderRead(ec: bool, upgrade: bool)
      requires Valid() && view.phase == Header
      modifies this, timerQueue
      ensures Valid() && view == OnHeaderRead(old(view), ec, upgrade).0
      ensures timerQueue.View() == Apply(old(timerQueue.View()), id, OnHeaderRead(old(view), ec, upgrade).1)
    {
      ApplyNone(timerQueue.View(), id);
      ghost var c := Complete(view).(isReading := false);
      isReading := false;
      var errorWhileReading := false;
      if ec {
        errorWhileReading := true;
      } else if !alive && !upgrade {
        errorWhileReading := true;
      }
      if errorWhileReading {
        FailRead(c);
        return;
      }
      isReading := true;
      view := OnHeaderRead(view, ec, upgrade).0;
    }

    method BodyRead(ec: bool)
      requires Valid() && view.phase == Body
      modifies this, timerQueue
      ensures Valid() && view == OnBodyRead(old(view), ec).0
      ensures timerQueue.View() == Apply(old(timerQueue.View()), id, OnBodyRead(old(view), ec).1)
    {
      ApplyOne(timerQueue.View(), id, CancelOp(view.key));
      ghost var c := Complete(view).(isReading := false);
      isReading := false;
      if ec || !alive {
        FailRead(c);
        return;
      }
      CancelDeadlineTimer();
      view := OnBodyRead(view, ec).0;
    }

    method Completed()
      requires Valid() && view.phase == Handling
      modifies this
      ensures Valid() && view == OnCompleted(old(view)).0
    {
      view := OnCompleted(view).0;
      if !alive {
        return;
      }
      isWriting := true;
    }

    method Written(ec: bool, keepAlive: bool)
      requires Valid() && view.phase == Writing
      modifies this, timerQueue
      ensures Valid() && view == OnWritten(old(view), ec, keepAlive).0
      ensures timerQueue.View() == Apply(old(timerQueue.View()), id, OnWritten(old(view), ec, keepAlive).1)
    {
      ApplyNone(timerQueue.View(), id);
      ghost var c := Complete(view).(isWriting := false);
      isWriting := false;
      if ec {
        CheckDestroyed(c);
        return;
      }
      if !keepAlive {
        alive := false;
        CheckDestroyed(c.(alive := false));
        return;
      }
      isReading := true;
      view := DoReadHeaders(c);
    }
  }

  /** The key a starting connection gets. */
  function StartKey(c: Conn, q: Timers.Queue<nat>): nat {
    var key := Timers.AddKey(Timers.Cancel(q, c.key));
    if key < 0 then 0 else key
  }

  function ApplyOp(q: Timers.Queue<nat>, id: nat, op: TimerOp): Timers.Queue<nat> {
    match op
    case CancelOp(key) => Timers.Cancel(q, key)
    case AddOp(now) => Timers.Add(q, now, id)
  }

  function Apply(q: Timers.Queue<nat>, id: nat, ops: seq<TimerOp>): Timers.Queue<nat>
    decreases |ops|
  {
    if ops == [] then q else Apply(ApplyOp(q, id, ops[0]), id, ops[1..])
  }

  lemma ApplyNone(q: Timers.Queue<nat>, id: nat)
    ensures Apply(q, id, []) == q
  {
  }

  lemma ApplyCons(q: Timers.Queue<nat>, id: nat, op: TimerOp, ops: seq<TimerOp>)
    ensures Apply(q, id, [op] + ops) == Apply(ApplyOp(q, id, op), id, ops)
  {
    assert ([op] + ops)[1..] == ops;
  }

  lemma ApplyOne(q: Timers.Queue<nat>, id: nat, op: TimerOp)
    ensures Apply(q, id, [op]) == ApplyOp(q, id, op)
  {
    assert [op] == [op] + [];
    ApplyCons(q, id, op, []);
  }

  lemma ApplyTwo(q: Timers.Queue<nat>, id: nat, a: TimerOp, b: TimerOp)
    ensures Apply(q, id, [a, b]) == ApplyOp(ApplyOp(q, id, a), id, b)
  {
    assert [a, b] == [a] + [b];
    ApplyCons(q, id, a, [b]);
    ApplyOne(ApplyOp(q, id, a), id, b);
  }

  /** What can happen to one connection. */
  datatype ConnEvent =
    | Start(now: int, tls: bool)
    | AcceptFailed
    | HandshakeDone(failed: bool)
    | HeaderRead(ec: bool, upgrade: bool)
    | BodyRead(ec: bool)
    | Upgrade
    | Completed
    | Written(ec: bool, keepAlive: bool)

  /** The phase in which an event can happen: an operation completes only while it is pending. */
  function PhaseFor(e: ConnEvent): Phase {
    match e
    case Start(_, _) => New
    case AcceptFailed => New
    case HandshakeDone(_) => Handshake
    case HeaderRead(_, _) => Header
    case BodyRead(_) => Body
    case Upgrade => Handling
    case Completed => Handling
    case Written(_, _) => Writing
  }

  function EffectOf(c: Conn, newKey: nat, e: ConnEvent): Effect {
    match e
    case Start(now, tls) => OnStart(c, newKey, now, tls)
    case AcceptFailed => OnAcceptFailed(c)
    case HandshakeDone(failed) => OnHandshake(c, failed)
    case HeaderRead(ec, upgrade) => OnHeaderRead(c, ec, upgrade)
    case BodyRead(ec) => OnBodyRead(c, ec)
    case Upgrade => OnUpgrade(c)
    case Completed => OnCompleted(c)
    case Written(ec, keepAlive) => OnWritten(c, ec, keepAlive)
  }

  /** All connections ever made, and the queue with its history; a callback is the number of its connection. */
  datatype System = System(conns: map<nat, Conn>, h: Timers.History<nat>)

  datatype Event = Create(id: nat) | On(id: nat, e: ConnEvent) | Tick(now: int)

  function HistoryOp(h: Timers.History<nat>, id: nat, op: TimerOp): Timers.History<nat> {
    match op
    case CancelOp(key) => Timers.Step(h, Timers.Cancelling(key))
    case AddOp(now) => Timers.Step(h, Timers.Adding(now, id))
  }

  function HistoryOps(h: Timers.History<nat>, id: nat, ops: seq<TimerOp>): Timers.History<nat>
    decreases |ops|
  {
    if ops == [] then h else HistoryOps(HistoryOp(h, id, ops[0]), id, ops[1..])
  }

  /** Deadline callbacks close the sockets of their connections. */
  function CloseAll(conns: map<nat, Conn>, ids: seq<nat>): map<nat, Conn>
    decreases |ids|
  {
    if ids == [] then conns
    else CloseAll(if ids[0] in conns then conns[ids[0] := conns[ids[0]].(alive := false)] else conns, ids[1..])
  }

  ghost predicate Enabled(s: System, ev: Event) {
    match ev
    case Create(id) => id !in s.conns
    case On(id, e) =>
      && id in s.conns && s.conns[id].phase == PhaseFor(e)
      && (e.Start? ==> |s.h.q.dq| < Timers.CAPACITY && |s.h.issued| + Timers.CAPACITY < Timers.SIZE_T)
    case Tick(_) => true
  }

  function Step(s: System, ev: Event): System
    requires ev.On? ==> ev.id in s.conns
  {
    match ev
    case Create(id) => s.(conns := s.conns[id := CREATED])
    case On(id, e) =>
      var c := s.conns[id];
      var (c', ops) := EffectOf(c, StartKey(c, s.h.q), e);
      System(s.conns[id := c'], HistoryOps(s.h, id, ops))
    case Tick(now) => System(CloseAll(s.conns, Timers.Fired(s.h.q, now)), Timers.Step(s.h, Timers.Processing(now)))
  }

  /** The phases before a request is complete, the only ones in which a deadline runs. */
  predicate Receiving(phase: Phase) {
    phase == Handshake || phase == Header || phase == Body
  }

  /** A queued callback belongs to a connection that is still receiving and holds the timer's key. */
  ghost predicate Owned(conns: map<nat, Conn>, h: Timers.History<nat>) {
    forall i :: 0 <= i < |h.q.dq| && h.q.dq[i].callback.Some? ==> OwnedAt(conns, h.q.step + i, h.q.dq[i].callback.value)
  }

  ghost predicate OwnedAt(conns: map<nat, Conn>, key: nat, id: nat) {
    id in conns && Receiving(conns[id].phase) && conns[id].key == key
  }

  ghost predicate Inv(s: System) {
    && Timers.Inv(s.h) && Owned(s.conns, s.h)
    && forall id :: id in s.conns ==>
         && ConnInv(s.conns[id]) && s.conns[id].key < Timers.SIZE_T
         && (s.conns[id].phase == New ==> s.conns[id].key == 0)
  }

  /** Every event keeps a connection's flags, pending operations and free count in step, and frees it only with nothing
      pending. */
  lemma EffectKeepsConn(c: Conn, newKey: nat, e: ConnEvent)
    requires ConnInv(c) && c.phase == PhaseFor(e)
    ensures var (d, ops) := EffectOf(c, newKey, e);
            && ConnInv(d) && d.phase != New
            && (e.Start? || d.key == c.key)
            && (d.phase == Gone ==> d.pending == 0 && |ops| > 0 && ops[|ops| - 1] == CancelOp(c.key))
            && (Receiving(c.phase) && !Receiving(d.phase) ==> |ops| > 0)
            && (forall k :: 0 <= k < |ops| ==> ops[k] == CancelOp(c.key) || (e.Start? && ops[k].AddOp?))
            && (e.Start? ==> ops == [CancelOp(c.key), AddOp(e.now)] && d.key == newKey)
            && |ops| <= 2
  {
  }

  /** Cancelling only removes callbacks, and certainly the one its key names. */
  lemma CancelRemoves(h: Timers.History<nat>, key: nat)
    requires Timers.Inv(h) && key < Timers.SIZE_T
    ensures var q := Timers.Step(h, Timers.Cancelling(key)).q;
            && q.step == h.q.step && |q.dq| == |h.q.dq|
            && forall i :: 0 <= i < |q.dq| && q.dq[i].callback.Some? ==>
                 q.dq[i].callback == h.q.dq[i].callback && h.q.step + i != key
    ensures Timers.Inv(Timers.Step(h, Timers.Cancelling(key)))
    ensures Timers.Step(h, Timers.Cancelling(key)).issued == h.issued
  {
    Timers.KeyNamesItsEntry(h, key);
    Timers.CancelKeepsInv(h, key);
  }

  /** A run of cancellations with one key: callbacks are only removed, and if there is any, the key's own is. */
  lemma {:induction false} CancelsOwned(conns: map<nat, Conn>, h: Timers.History<nat>, id: nat, key: nat, ops: seq<TimerOp>)
    requires Timers.Inv(h) && Owned(conns, h) && key < Timers.SIZE_T
    requires forall k :: 0 <= k < |ops| ==> ops[k] == CancelOp(key)
    ensures Timers.Inv(HistoryOps(h, id, ops)) && Owned(conns, HistoryOps(h, id, ops))
    ensures ops != [] ==> NoCallback(HistoryOps(h, id, ops), key)
    decreases |ops|
  {
    if ops != [] {
      CancelRemoves(h, key);
      var h' := Timers.Step(h, Timers.Cancelling(key));
      CancelsOwned(conns, h', id, key, ops[1..]);
      if ops[1..] == [] { assert HistoryOps(h, id, ops) == h'; }
    }
  }

  ghost predicate NoCallback(h: Timers.History<nat>, key: nat) {
    forall i :: 0 <= i < |h.q.dq| && h.q.dq[i].callback.Some? ==> h.q.step + i != key
  }

  lemma UpdateOwned(conns: map<nat, Conn>, h: Timers.History<nat>, id: nat, d: Conn)
    requires Owned(conns, h) && id in conns && d.phase != New
    requires !Receiving(conns[id].phase) || (d.key == conns[id].key && (!Receiving(d.phase) ==> NoCallback(h, d.key)))
    ensures Owned(conns[id := d], h)
  {
    forall i | 0 <= i < |h.q.dq| && h.q.dq[i].callback.Some?
      ensures OwnedAt(conns[id := d], h.q.step + i, h.q.dq[i].callback.value)
    {
      assert OwnedAt(conns, h.q.step + i, h.q.dq[i].callback.value);
    }
  }

  lemma StartOwned(conns: map<nat, Conn>, h: Timers.History<nat>, id: nat, now: int, d: Conn)
    requires Timers.Inv(h) && Owned(conns, h) && id in conns && conns[id].phase == New
    requires |h.q.dq| < Timers.CAPACITY && |h.issued| + Timers.CAPACITY < Timers.SIZE_T
    requires Receiving(d.phase) && d.key == |h.issued|
    ensures var h' := Timers.Step(h, Timers.Adding(now, id));
            Timers.Inv(h') && Owned(conns[id := d], h')
  {
    var h' := Timers.Step(h, Timers.Adding(now, id));
    Timers.AddKeepsInv(h, now, id);
    forall i | 0 <= i < |h'.q.dq| && h'.q.dq[i].callback.Some?
      ensures OwnedAt(conns[id := d], h'.q.step + i, h'.q.dq[i].callback.value)
    {
      if i < |h.q.dq| { assert OwnedAt(conns, h.q.step + i, h.q.dq[i].callback.value); }
    }
  }

  lemma OnKeepsInv(s: System, id: nat, e: ConnEvent)
    requires Inv(s) && Enabled(s, On(id, e))
    ensures Inv(Step(s, On(id, e)))
  {
    hide Timers.Inv, Owned, EffectOf, ConnInv, NoCallback, Timers.Step;
    var c := s.conns[id];
    var newKey := StartKey(c, s.h.q);
    var (d, ops) := EffectOf(c, newKey, e);
    EffectKeepsConn(c, newKey, e);
    if e.Start? {
      CancelRemoves(s.h, c.key);
      var h' := Timers.Step(s.h, Timers.Cancelling(c.key));
      CancelsOwned(s.conns, s.h, id, c.key, [CancelOp(c.key)]);
      OneOp(s.h, id, CancelOp(c.key));
      TwoOps(s.h, id, CancelOp(c.key), AddOp(e.now));
      StartKeyIsFresh(s.h, c);
      StartedPhase(c, newKey, e);
      StartOwned(s.conns, h', id, e.now, d);
    } else {
      CancelsOwned(s.conns, s.h, id, c.key, ops);
      UpdateOwned(s.conns, HistoryOps(s.h, id, ops), id, d);
    }
  }

  lemma OneOp(h: Timers.History<nat>, id: nat, op: TimerOp)
    ensures HistoryOps(h, id, [op]) == HistoryOp(h, id, op)
  {
    assert [op][1..] == [];
  }

  lemma TwoOps(h: Timers.History<nat>, id: nat, a: TimerOp, b: TimerOp)
    ensures HistoryOps(h, id, [a, b]) == HistoryOp(HistoryOp(h, id, a), id, b)
  {
    assert [a, b][1..] == [b];
    OneOp(HistoryOp(h, id, a), id, b);
  }

  lemma StartedPhase(c: Conn, newKey: nat, e: ConnEvent)
    requires e.Start?
    ensures EffectOf(c, newKey, e).0.phase == Handshake || EffectOf(c, newKey, e).0.phase == Header
  {
  }

  lemma StartKeyIsFresh(h: Timers.History<nat>, c: Conn)
    requires Timers.Inv(h) && |h.q.dq| < Timers.CAPACITY && c.key < Timers.SIZE_T
    requires |h.issued| + Timers.CAPACITY < Timers.SIZE_T
    ensures StartKey(c, h.q) == |h.issued| < Timers.SIZE_T
  {
  }

  lemma {:induction false} CallbackAt(dq: seq<Timers.Entry<nat>>, k: nat) returns (i: nat)
    requires k < |Timers.Callbacks(dq)|
    ensures i < |dq| && dq[i].callback == Some(Timers.Callbacks(dq)[k])
    decreases |dq|
  {
    var head := if dq[0].callback.Some? then 1 else 0;
    if k < head {
      i := 0;
    } else {
      var j := CallbackAt(dq[1..], k - head);
      i := j + 1;
    }
  }

  /** Every callback that a tick runs belongs to a connection that has not been freed. */
  lemma FiredAreLive(s: System, now: int)
    requires Inv(s)
    ensures forall k :: 0 <= k < |Timers.Fired(s.h.q, now)| ==>
              var id := Timers.Fired(s.h.q, now)[k]; id in s.conns && s.conns[id].phase != Gone && s.conns[id].frees == 0
  {
    var due := s.h.q.dq[..Timers.Due(s.h.q.dq, now)];
    forall k | 0 <= k < |Timers.Fired(s.h.q, now)|
      ensures var id := Timers.Fired(s.h.q, now)[k]; id in s.conns && s.conns[id].phase != Gone && s.conns[id].frees == 0
    {
      var i := CallbackAt(due, k);
      assert OwnedAt(s.conns, s.h.q.step + i, s.h.q.dq[i].callback.value);
    }
  }

  lemma {:induction false} CloseAllKeeps(conns: map<nat, Conn>, ids: seq<nat>)
    ensures CloseAll(conns, ids).Keys == conns.Keys
    ensures forall id :: id in conns ==>
              CloseAll(conns, ids)[id] == conns[id].(alive := conns[id].alive && id !in ids)
    decreases |ids|
  {
    if ids != [] {
      CloseAllKeeps(if ids[0] in conns then conns[ids[0] := conns[ids[0]].(alive := false)] else conns, ids[1..]);
    }
  }

  /** Closing sockets and popping the due entries leaves the rest owned as before. */
  lemma TickOwned(conns: map<nat, Conn>, closed: map<nat, Conn>, h: Timers.History<nat>, now: int)
    requires Owned(conns, h) && closed.Keys == conns.Keys
    requires forall id :: id in conns ==> closed[id] == conns[id].(alive := closed[id].alive)
    ensures Owned(closed, Timers.Step(h, Timers.Processing(now)))
  {
    hide Timers.Due, Timers.FiredKeys;
    var n := Timers.Due(h.q.dq, now);
    var q := Timers.Process(h.q, now);
    forall i | 0 <= i < |q.dq| && q.dq[i].callback.Some?
      ensures OwnedAt(closed, q.step + i, q.dq[i].callback.value)
    {
      assert OwnedAt(conns, h.q.step + (n + i), h.q.dq[n + i].callback.value);
    }
  }

  lemma TickKeepsInv(s: System, now: int)
    requires Inv(s)
    ensures Inv(Step(s, Tick(now)))
  {
    hide Timers.Inv, Owned, Timers.Step, Timers.Fired, CloseAll;
    Timers.ProcessKeepsInv(s.h, now);
    var closed := CloseAll(s.conns, Timers.Fired(s.h.q, now));
    CloseAllKeeps(s.conns, Timers.Fired(s.h.q, now));
    TickOwned(s.conns, closed, s.h, now);
  }

  lemma StepKeepsInv(s: System, ev: Event)
    requires Inv(s) && Enabled(s, ev)
    ensures Inv(Step(s, ev))
  {
    match ev
    case Create(id) =>
      assert forall key, i :: OwnedAt(s.conns, key, i) ==> OwnedAt(Step(s, ev).conns, key, i);
    case On(id, e) => OnKeepsInv(s, id, e);
    case Tick(now) => TickKeepsInv(s, now);
  }

  ghost predicate Run(s: System, events: seq<Event>)
    decreases |events|
  {
    events == [] || (Enabled(s, events[0]) && Run(Step(s, events[0]), events[1..]))
  }

  /** What the deadline machinery must never do, at any step of a run: run a callback of a freed connection, free a
      connection twice, or free it while an operation is pending. */
  ghost predicate Safe(s: System, events: seq<Event>)
    requires Run(s, events)
    decreases |events|
  {
    && (forall id :: id in s.conns ==>
          s.conns[id].frees <= 1 && (s.conns[id].frees == 1 ==> s.conns[id].pending == 0 && s.conns[id].phase == Gone))
    && (events != [] ==>
          && (events[0].Tick? ==> forall k :: 0 <= k < |Timers.Fired(s.h.q, events[0].now)| ==>
                var id := Timers.Fired(s.h.q, events[0].now)[k]; id in s.conns && s.conns[id].frees == 0)
          && Safe(Step(s, events[0]), events[1..]))
  }

  /** Any number of connections, any interleaving of their events and of ticks, as long as at most 100 deadlines are
      queued at a time: every run from the start is safe. */
  lemma {:induction false} RunsAreSafe(s: System, events: seq<Event>)
    requires Inv(s) && Run(s, events)
    ensures Safe(s, events)
    decreases |events|
  {
    hide Timers.Inv, Owned, Step, Timers.Fired;
    if events != [] {
      if events[0].Tick? { FiredAreLive(s, events[0].now); }
      StepKeepsInv(s, events[0]);
      RunsAreSafe(Step(s, events[0]), events[1..]);
    }
  }

  /** A connection that has not started yet holds key 0, so its cancellation takes the deadline of another connection
      away exactly while no timer has been popped and the oldest one still has its callback. */
  lemma DefaultKeyHits(s: System)
    requires Inv(s)
    ensures Timers.Cancel(s.h.q, CREATED.key) != s.h.q <==>
            s.h.q.step == 0 && s.h.q.dq != [] && s.h.q.dq[0].callback.Some?
  {
    Timers.KeyNamesItsEntry(s.h, 0);
    var q := Timers.Cancel(s.h.q, 0);
    if s.h.q.step == 0 && s.h.q.dq != [] {
      assert q.dq[0].callback == None;
      if s.h.q.dq[0].callback.None? {
        assert q.dq == s.h.q.dq;
      }
    }
  }

  lemma StartIsSound()
    ensures Inv(System(map[], Timers.Start()))
  {
  }

  ghost function After(s: System, events: seq<Event>): System
    requires Run(s, events)
    decreases |events|
  {
    if events == [] then s else After(Step(s, events[0]), events[1..])
  }

  ghost predicate Reaches(s: System, events: seq<Event>, t: System) {
    Run(s, events) && After(s, events) == t
  }

  lemma {:induction false} ReachesNext(s: System, events: seq<Event>, t: System, e: Event)
    requires Reaches(s, events, t) && Enabled(t, e)
    ensures Reaches(s, events + [e], Step(t, e))
    decreases |events|
  {
    hide Step;
    var more := events + [e];
    if events == [] {
      assert more == [e] && more[1..] == [];
      assert Run(Step(s, e), more[1..]) && After(Step(s, e), more[1..]) == Step(s, e);
    } else {
      assert more[0] == events[0] && more[1..] == events[1..] + [e];
      ReachesNext(Step(s, events[0]), events[1..], t, e);
    }
  }

  const NOTHING := System(map[], Timers.Start())

  /** `n` connections that have arrived and started one after the other, at time 0 and without TLS. */
  function Crowd(n: nat): System {
    if n == 0 then NOTHING else Step(Step(Crowd(n - 1), Create(n - 1)), On(n - 1, Start(0, false)))
  }

  function Arrivals(n: nat): seq<Event> {
    if n == 0 then [] else Arrivals(n - 1) + [Create(n - 1)] + [On(n - 1, Start(0, false))]
  }

  /** The connections of a crowd wait for their headers, each under its own key; their deadlines are queued in order, but
      the first one has lost its callback as soon as there is a second connection. */
  ghost predicate IsCrowd(s: System, n: nat) {
    && s.h.q.step == 0 && |s.h.q.dq| == |s.h.issued| == n
    && (forall i :: i in s.conns <==> 0 <= i < n)
    && (forall i :: 0 <= i < n ==> s.conns[i] == Conn(Header, true, false, true, i, 1, 0))
    && (forall i :: 0 <= i < n ==> s.h.q.dq[i] == Timers.Entry(0, if i == 0 && n >= 2 then None else Some(i)))
  }

  lemma {:induction false} CrowdArrives(n: nat)
    requires n <= Timers.CAPACITY
    ensures Inv(Crowd(n)) && IsCrowd(Crowd(n), n) && Reaches(NOTHING, Arrivals(n), Crowd(n))
  {
    hide Inv, Step, Run;
    if n == 0 {
      StartIsSound();
      NobodyYet();
    } else {
      CrowdArrives(n - 1);
      var s := Crowd(n - 1);
      OneMoreCreated(s, n - 1);
      var t := Step(s, Create(n - 1));
      ReachesNext(NOTHING, Arrivals(n - 1), s, Create(n - 1));
      ReachesNext(NOTHING, Arrivals(n - 1) + [Create(n - 1)], t, On(n - 1, Start(0, false)));
      StepKeepsInv(s, Create(n - 1));
      StepKeepsInv(t, On(n - 1, Start(0, false)));
      OneMoreStarted(t, n - 1);
    }
  }

  lemma NobodyYet()
    ensures IsCrowd(NOTHING, 0) && Reaches(NOTHING, [], NOTHING)
  {
  }

  ghost predicate IsCrowdWithNew(t: System, n: nat) {
    n in t.conns && t.conns[n] == CREATED && IsCrowd(t.(conns := t.conns - {n}), n)
  }

  lemma OneMoreCreated(s: System, n: nat)
    requires IsCrowd(s, n) && n <= Timers.CAPACITY
    ensures Enabled(s, Create(n)) && IsCrowdWithNew(Step(s, Create(n)), n)
    ensures n < Timers.CAPACITY ==> Enabled(Step(s, Create(n)), On(n, Start(0, false)))
  {
    assert Step(s, Create(n)).conns - {n} == s.conns;
  }

  lemma OneMoreStarted(t: System, n: nat)
    requires IsCrowdWithNew(t, n) && n < Timers.CAPACITY
    ensures IsCrowd(Step(t, On(n, Start(0, false))), n + 1)
  {
    var u := Step(t, On(n, Start(0, false)));
    TwoOps(t.h, n, CancelOp(0), AddOp(0));
    var q := Timers.Cancel(t.h.q, 0);
    assert u.h.q == Timers.Add(q, 0, n);
    var others := t.conns - {n};
    assert forall i :: i in t.conns <==> i == n || i in others;
    assert forall i :: i in others ==> others[i] == t.conns[i];
    assert Timers.IndexOf(t.h.q, 0) == 0;
  }

  /** Start two connections: the second one takes away the first one's deadline. */
  lemma SecondTakesDeadline()
    ensures Reaches(NOTHING, [Create(0), On(0, Start(0, false)), Create(1), On(1, Start(0, false))], Crowd(2))
    ensures Crowd(2).h.q.dq[..1] == [Timers.Entry(0, None)]
    ensures Crowd(2).conns[0].phase == Header && Crowd(2).conns[0].alive && Crowd(2).conns[0].key == 0
  {
    CrowdArrives(2);
    assert Arrivals(1) == [Create(0), On(0, Start(0, false))];
    assert Arrivals(2) == [Create(0), On(0, Start(0, false)), Create(1), On(1, Start(0, false))];
  }

  /** Cancellations with the second entry's key leave the first entry alone. */
  lemma {:induction false} CancelsSkipFirst(h: Timers.History<nat>, id: nat, ops: seq<TimerOp>)
    requires |h.q.dq| >= 2 && h.q.step + 1 < Timers.SIZE_T
    requires forall k :: 0 <= k < |ops| ==> ops[k] == CancelOp(h.q.step + 1)
    ensures var q := HistoryOps(h, id, ops).q; q.step == h.q.step && |q.dq| == |h.q.dq| && q.dq[0] == h.q.dq[0]
    decreases |ops|
  {
    if ops != [] {
      assert Timers.IndexOf(h.q, h.q.step + 1) == 1;
      CancelsSkipFirst(HistoryOp(h, id, ops[0]), id, ops[1..]);
    }
  }

  /** The queue after one more start on a full queue: its first entry is what was the second one. */
  lemma FullStart(s: System, id: nat, now: int, tls: bool)
    requires Inv(s) && |s.h.q.dq| == Timers.CAPACITY && id in s.conns && s.conns[id].phase == New
    ensures
      var q := Step(s, On(id, Start(now, tls))).h.q;
      q.step == s.h.q.step && |q.dq| == Timers.CAPACITY && q.dq[0] == s.h.q.dq[1]
  {
    TwoOps(s.h, id, CancelOp(0), AddOp(now));
    Timers.KeyNamesItsEntry(s.h, 0);
  }

  /** After connection `id` has started and `e` has happened to connection `gone`, this one is freed and the tick runs its
      deadline. */
  ghost predicate FiresFreed(s: System, id: nat, now: int, tls: bool, gone: nat, e: ConnEvent, tick: int) {
    id in s.conns && gone in s.conns &&
    var t := Step(Step(s, On(id, Start(now, tls))), On(gone, e));
    t.conns[gone].phase == Gone && t.conns[gone].frees == 1 &&
    Timers.Fired(t.h.q, tick) != [] && Timers.Fired(t.h.q, tick)[0] == gone
  }

  /** The limit of `RunsAreSafe` is sharp. In any sound state with a full queue, let one more connection start and then let
      the connection of the second entry be freed: its deadline survives it and runs. */
  lemma FullQueueFiresFreed(s: System, id: nat, now: int, tls: bool, gone: nat, e: ConnEvent, tick: int)
    requires Inv(s) && |s.h.q.dq| == Timers.CAPACITY && id in s.conns && s.conns[id].phase == New
    requires s.h.q.dq[1].callback == Some(gone) && tick - s.h.q.dq[1].time >= Timers.TICK
    requires gone in s.conns && s.conns[gone].phase == PhaseFor(e) && EffectOf(s.conns[gone], 0, e).0.phase == Gone
    ensures FiresFreed(s, id, now, tls, gone, e, tick)
  {
    var c := s.conns[gone];
    assert OwnedAt(s.conns, s.h.q.step + 1, gone);
    FullStart(s, id, now, tls);
    var u := Step(s, On(id, Start(now, tls)));
    var newKey := StartKey(c, u.h.q);
    EffectKeepsConn(c, newKey, e);
    SameEffect(c, newKey, e);
    CancelsSkipFirst(u.h, gone, EffectOf(c, newKey, e).1);
    var t := Step(u, On(gone, e));
    assert t.h.q.dq[0] == s.h.q.dq[1];
    FirstFires(t.h.q, tick, gone);
  }

  lemma SameEffect(c: Conn, newKey: nat, e: ConnEvent)
    requires !e.Start?
    ensures EffectOf(c, newKey, e) == EffectOf(c, 0, e)
  {
  }

  lemma FirstFires(q: Timers.Queue<nat>, tick: int, id: nat)
    requires q.dq != [] && q.dq[0].callback == Some(id) && tick - q.dq[0].time >= Timers.TICK
    ensures Timers.Fired(q, tick) != [] && Timers.Fired(q, tick)[0] == id
  {
  }

  /** And such a state is reached: a hundred connections arrive, one more starts, and the second one's read fails. */
  lemma DeadlineOutlivesConnection(n: nat)
    requires n == Timers.CAPACITY
    ensures Reaches(NOTHING, Arrivals(n) + [Create(n)], Step(Crowd(n), Create(n)))
    ensures FiresFreed(Step(Crowd(n), Create(n)), n, 0, false, 1, HeaderRead(true, false), Timers.TICK)
  {
    hide Inv, Run, Crowd, Arrivals;
    CrowdArrives(n);
    OneMoreCreated(Crowd(n), n);
    ReachesNext(NOTHING, Arrivals(n), Crowd(n), Create(n));
    StepKeepsInv(Crowd(n), Create(n));
    var s := Step(Crowd(n), Create(n));
    assert (s.conns - {n})[1] == s.conns[1];
    assert s.h.q.dq[1] == Timers.Entry(0, Some(1));
    FullQueueFiresFreed(s, n, 0, false, 1, HeaderRead(true, false), Timers.TICK);
  }

  /** A socket handed to a web socket, or a response completed after its socket was closed. */
  predicate Left(c: Conn) {
    c.phase == Upgraded || c.phase == Abandoned
  }

  /** How a connection gets there: by an upgrade, or by a response that is completed on a closed socket; and in no other
      way. */
  lemma LeavesBy(c: Conn, newKey: nat, e: ConnEvent)
    requires c.phase == PhaseFor(e)
    ensures EffectOf(c, newKey, e).0.phase == Upgraded <==> e.Upgrade?
    ensures EffectOf(c, newKey, e).0.phase == Abandoned <==> e.Completed? && !c.alive
  {
  }

  /** Nothing happens to it any more: no event of its own is enabled. */
  lemma NothingFollows(s: System, id: nat, e: ConnEvent)
    requires id in s.conns && (Left(s.conns[id]) || s.conns[id].phase == Gone)
    ensures !Enabled(s, On(id, e))
  {
  }

  /** So over every run it stays as it is, and is never freed. */
  lemma {:induction false} LeftForEver(s: System, events: seq<Event>, id: nat)
    requires Inv(s) && Run(s, events) && id in s.conns && Left(s.conns[id])
    ensures id in After(s, events).conns && After(s, events).conns[id].phase == s.conns[id].phase
    ensures After(s, events).conns[id].frees == 0
    decreases |events|
  {
    if events != [] {
      var ev := events[0];
      StepKeepsInv(s, ev);
      if ev.Tick? {
        CloseAllKeeps(s.conns, Timers.Fired(s.h.q, ev.now));
      } else if ev.On? && ev.id == id {
        NothingFollows(s, id, ev.e);
      }
      LeftForEver(Step(s, ev), events[1..], id);
    }
  }

  /** No deadline runs for a connection whose request is with its handler, or later: in every reachable state, whatever
      a tick fires belongs to one that is still receiving. */
  lemma DeadlinesAreForReceiving(s: System, i: nat)
    requires Inv(s) && i < |s.h.q.dq| && s.h.q.dq[i].callback.Some?
    ensures
      var id := s.h.q.dq[i].callback.value;
      id in s.conns && s.conns[id].phase in {Handshake, Header, Body} && s.conns[id].key == s.h.q.step + i
  {
    assert OwnedAt(s.conns, s.h.q.step + i, s.h.q.dq[i].callback.value);
  }

  /** What follows each event, said over its arguments and the open or closed socket alone. */
  lemma NextPhase(c: Conn, newKey: nat, e: ConnEvent)
    requires ConnInv(c) && c.phase == PhaseFor(e)
    ensures
      var d := EffectOf(c, newKey, e).0;
      match e
      case Start(_, tls) => d.phase == (if tls then Handshake else Header) && d.alive == c.alive && d.key == newKey
      case AcceptFailed => d.phase == Gone
      case HandshakeDone(failed) => d.phase == (if failed then Gone else Header) && d.alive == c.alive
      case HeaderRead(ec, upgrade) =>
        if !ec && (c.alive || upgrade) then d.phase == Body && d.alive == c.alive else d.phase == Gone && !d.alive
      case BodyRead(ec) => if !ec && c.alive then d.phase == Handling && d.alive else d.phase == Gone && !d.alive
      case Upgrade => d.phase == Upgraded && !d.alive
      case Completed => d.phase == (if c.alive then Writing else Abandoned) && d.alive == c.alive
      case Written(ec, keepAlive) =>
        if !ec && keepAlive then d.phase == Header && d.alive == c.alive
        else d.phase == Gone && d.alive == (c.alive && ec)
  {
  }

  /** An operation failed, or the response was the last one. */
  predicate Fails(e: ConnEvent) {
    match e
    case Start(_, _) => false
    case AcceptFailed => true
    case HandshakeDone(failed) => failed
    case HeaderRead(ec, _) => ec
    case BodyRead(ec) => ec
    case Upgrade => false
    case Completed => false
    case Written(ec, keepAlive) => ec || !keepAlive
  }

  /** A connection is freed exactly by such an event, or by a read that ends on a socket closed meanwhile. */
  lemma FreedExactly(c: Conn, newKey: nat, e: ConnEvent)
    requires ConnInv(c) && c.phase == PhaseFor(e)
    ensures EffectOf(c, newKey, e).0.frees == 1 <==>
            Fails(e) || (!c.alive && (e.BodyRead? || (e.HeaderRead? && !e.upgrade)))
  {
  }

  /** None of the connection's operations fails, its responses keep it alive, and no deadline of it runs. */
  ghost predicate Undisturbed(s: System, events: seq<Event>, id: nat)
    requires Run(s, events)
    decreases |events|
  {
    events == [] ||
    (&& (events[0].On? && events[0].id == id ==> !Fails(events[0].e))
     && (events[0].Tick? ==> id !in Timers.Fired(s.h.q, events[0].now))
     && Undisturbed(Step(s, events[0]), events[1..], id))
  }

  /** Over every run, such a connection is not freed. */
  lemma {:induction false} UndisturbedStays(s: System, events: seq<Event>, id: nat)
    requires Inv(s) && Run(s, events) && Undisturbed(s, events, id)
    requires id in s.conns && s.conns[id].frees == 0 && (s.conns[id].alive || s.conns[id].phase == Upgraded)
    ensures id in After(s, events).conns && After(s, events).conns[id].frees == 0
    ensures After(s, events).conns[id].alive || After(s, events).conns[id].phase == Upgraded
    decreases |events|
  {
    hide Timers.Inv, Owned, Timers.Fired, Timers.Step, CloseAll, EffectOf, HistoryOps;
    if events != [] {
      var ev := events[0];
      StepKeepsInv(s, ev);
      if ev.Tick? {
        CloseAllKeeps(s.conns, Timers.Fired(s.h.q, ev.now));
      } else if ev.On? && ev.id == id {
        var c, newKey := s.conns[id], StartKey(s.conns[id], s.h.q);
        FreedExactly(c, newKey, ev.e);
        EffectKeepsConn(c, newKey, ev.e);
        NextPhase(c, newKey, ev.e);
      }
      UndisturbedStays(Step(s, ev), events[1..], id);
    }
  }
}
