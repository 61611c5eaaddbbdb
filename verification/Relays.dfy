/** Single-writer relays: a buffer drained by at most one asynchronous write at a time (http/websocket.h,
    include/nbd_proxy.hpp, include/kvm_websocket.hpp). */
module Relays {

  /** What a relay has done so far. `offered` is the length of the write in flight, 0 when there is none; `taken` is
      what has left the buffer, and `delivered` what writes have carried. */
  datatype Relay<T> = Relay(
    buffer: seq<T>, offered: nat, connected: bool, stalled: bool,
    submitted: seq<T>, taken: seq<T>, delivered: seq<T>, started: nat, completed: nat)

  /** A submission, the peer's arrival, and the completion of a write of which `n` elements went out. */
  datatype Event<T> = Send(data: seq<T>) | Connect | Done(n: nat, ok: bool)

  function Init<T>(connected: bool): Relay<T> {
    Relay([], 0, connected, false, [], [], [], 0, 0)
  }

  /** Starts a write of one element, or of the whole buffer, unless there is one, or nothing to write, or no peer. */
  function StartWrite<T>(s: Relay<T>, single: bool): Relay<T> {
    if !s.connected || s.offered > 0 || s.buffer == [] then s
    else s.(offered := if single then 1 else |s.buffer|, stalled := false, started := s.started + 1)
  }

  predicate Enabled<T(!new)>(s: Relay<T>, e: Event<T>) {
    e.Done? ==> s.offered > 0 && e.n <= s.offered && e.n <= |s.buffer|
  }

  function Step<T(!new)>(s: Relay<T>, single: bool, e: Event<T>): Relay<T>
    requires Enabled(s, e)
  {
    match e
    case Send(data) => StartWrite(s.(buffer := s.buffer + data, submitted := s.submitted + data), single)
    case Connect => if s.connected then s else StartWrite(s.(connected := true), single)
    case Done(n, ok) =>
      var after := Finish(s, single, n, ok);
      if ok then StartWrite(after, single) else after.(stalled := true)
  }

  /** The end of a write: `n` elements leave the buffer. A write of one message carries it only when it succeeds; of a
      stream, those `n` elements have been written either way. */
  function Finish<T>(s: Relay<T>, single: bool, n: nat, ok: bool): Relay<T>
    requires n <= |s.buffer|
  {
    s.(buffer := s.buffer[n..], taken := s.taken + s.buffer[..n],
       delivered := if single && !ok then s.delivered else s.delivered + s.buffer[..n],
       offered := 0, completed := s.completed + 1)
  }

  /** What left the buffer and what is in it make up what was submitted, in order; at most one write is outstanding; and
      unless the last write failed, a non-empty buffer with a connected peer is being written. */
  ghost predicate Inv<T(!new)>(s: Relay<T>) {
    && s.taken + s.buffer == s.submitted
    && s.offered <= |s.buffer|
    && s.started == s.completed + (if s.offered > 0 then 1 else 0)
    && (s.offered > 0 ==> s.connected && !s.stalled)
    && (s.connected && s.buffer != [] && !s.stalled ==> s.offered > 0)
  }

  lemma StepKeepsInv<T(!new)>(s: Relay<T>, single: bool, e: Event<T>)
    requires Inv(s) && Enabled(s, e)
    ensures Inv(Step(s, single, e))
    ensures s.taken <= Step(s, single, e).taken
    ensures Step(s, single, e).submitted == s.submitted + Submitted([e])
    ensures !s.stalled && (e.Done? ==> e.ok) ==> !Step(s, single, e).stalled
  {
    assert [e][1..] == [];
    match e
    case Send(data) => assert s.taken + (s.buffer + data) == s.submitted + data;
    case Connect =>
    case Done(n, ok) =>
      assert s.taken + s.buffer[..n] + s.buffer[n..] == s.taken + s.buffer;
  }

  /** A write that a step starts is of one message, or of everything in the buffer. */
  lemma StepOffers<T(!new)>(s: Relay<T>, single: bool, e: Event<T>)
    requires Inv(s) && Enabled(s, e)
    ensures
      var t := Step(s, single, e);
      if t.started == s.started then t.offered == (if e.Done? then 0 else s.offered)
      else t.started == s.started + 1 && t.offered == if single then 1 else |t.buffer|
  {
  }

  ghost predicate Run<T(!new)>(s: Relay<T>, single: bool, events: seq<Event<T>>)
    decreases |events|
  {
    events == [] || (Enabled(s, events[0]) && Run(Step(s, single, events[0]), single, events[1..]))
  }

  ghost function After<T(!new)>(s: Relay<T>, single: bool, events: seq<Event<T>>): Relay<T>
    requires Run(s, single, events)
    decreases |events|
  {
    if events == [] then s else After(Step(s, single, events[0]), single, events[1..])
  }

  /** Everything submitted in a run, in order. */
  ghost function Submitted<T>(events: seq<Event<T>>): seq<T>
    decreases |events|
  {
    if events == [] then []
    else (if events[0].Send? then events[0].data else []) + Submitted(events[1..])
  }

  ghost predicate NoErrors<T>(events: seq<Event<T>>) {
    forall k :: 0 <= k < |events| && events[k].Done? ==> events[k].ok
  }

  lemma SubmittedFirst<T(!new)>(events: seq<Event<T>>)
    requires events != []
    ensures Submitted(events) == Submitted([events[0]]) + Submitted(events[1..])
  {
    assert [events[0]][1..] == [];
  }

  /** Over every run and interleaving: what has been taken, followed by what is buffered, is everything submitted, in
      order; at most one write is outstanding; what was taken earlier stays taken; and as long as no write has failed, a
      non-empty buffer with a connected peer always has a write in flight. */
  lemma {:induction false} RunConserves<T(!new)>(s: Relay<T>, single: bool, events: seq<Event<T>>)
    requires Inv(s) && Run(s, single, events)
    ensures var t := After(s, single, events);
            && Inv(t) && s.taken <= t.taken
            && t.taken + t.buffer == s.submitted + Submitted(events)
            && (NoErrors(events) && !s.stalled ==> !t.stalled && (t.connected && t.buffer != [] ==> t.offered > 0))
    decreases |events|
  {
    hide Step, Enabled;
    if events != [] {
      var e, rest := events[0], events[1..];
      StepKeepsInv(s, single, e);
      RunConserves(Step(s, single, e), single, rest);
      SubmittedFirst(events);
      assert s.submitted + (Submitted([e]) + Submitted(rest)) == s.submitted + Submitted([e]) + Submitted(rest);
      assert forall k :: 0 < k < |events| ==> events[k] == rest[k - 1];
    }
  }

  /** A message taken from the buffer by a write that failed. */
  predicate Loses<T(!new)>(single: bool, e: Event<T>) {
    single && e.Done? && !e.ok && e.n > 0
  }

  ghost predicate NoLoss<T(!new)>(single: bool, events: seq<Event<T>>) {
    forall k :: 0 <= k < |events| ==> !Loses(single, events[k])
  }

  /** What was taken has been delivered, in order and each once, if and only if no write of a message has failed. */
  lemma {:induction false} RunDelivers<T(!new)>(s: Relay<T>, single: bool, events: seq<Event<T>>)
    requires Run(s, single, events) && |s.delivered| <= |s.taken|
    ensures var t := After(s, single, events);
            && |t.delivered| <= |t.taken| && |t.taken| - |t.delivered| >= |s.taken| - |s.delivered|
            && (s.delivered == s.taken ==> (t.delivered == t.taken <==> NoLoss(single, events)))
            && (NoLoss(single, events) <==> |t.taken| - |t.delivered| == |s.taken| - |s.delivered|)
    decreases |events|
  {
    if events != [] {
      var e, rest := events[0], events[1..];
      DeliverStep(s, single, e);
      hide Step, Enabled, Loses;
      RunDelivers(Step(s, single, e), single, rest);
      assert forall k :: 0 < k < |events| ==> events[k] == rest[k - 1];
      assert forall k :: 0 <= k < |rest| ==> rest[k] == events[k + 1];
    }
  }

  lemma DeliverStep<T(!new)>(s: Relay<T>, single: bool, e: Event<T>)
    requires Enabled(s, e)
    ensures var t := Step(s, single, e);
            if Loses(single, e) then |t.taken| == |s.taken| + e.n && t.delivered == s.delivered
            else |t.taken| - |s.taken| == |t.delivered| - |s.delivered| >= 0 &&
                 (s.delivered == s.taken ==> t.delivered == t.taken)
  {
  }

  /** Whether the last completion failed and nothing has been submitted since. */
  ghost function FailedLast<T>(failed: bool, events: seq<Event<T>>): bool
    decreases |events|
  {
    if events == [] then failed
    else
      var e := events[0];
      FailedLast(if e.Connect? then failed else if e.Done? then !e.ok else false, events[1..])
  }

  /** A non-empty buffer with a peer has no write under way exactly after a failure. */
  ghost predicate Idles<T>(s: Relay<T>, failed: bool) {
    && (failed ==> s.connected) && (s.offered > 0 ==> s.connected)
    && (s.connected && s.buffer != [] ==> (s.offered == 0 <==> failed))
  }

  /** Over every run: with a peer and something to write, no write is under way if and only if the last completion failed and
      nothing has been submitted since. */
  lemma {:induction false} RunIdles<T(!new)>(s: Relay<T>, failed: bool, single: bool, events: seq<Event<T>>)
    requires Idles(s, failed) && Run(s, single, events)
    ensures Idles(After(s, single, events), FailedLast(failed, events))
    decreases |events|
  {
    if events != [] {
      var e := events[0];
      RunIdles(Step(s, single, e), if e.Connect? then failed else if e.Done? then !e.ok else false, single, events[1..]);
    }
  }

  lemma StartsIdle<T(!new)>(connected: bool)
    ensures Inv(Init<T>(connected)) && Idles(Init<T>(connected), false)
  {
  }

  lemma TwoSteps<T(!new)>(s: Relay<T>, single: bool, a: Event<T>, b: Event<T>)
    requires Enabled(s, a) && Enabled(Step(s, single, a), b)
    ensures Run(s, single, [a, b]) && After(s, single, [a, b]) == Step(Step(s, single, a), single, b)
  {
    hide Step, Enabled;
    var t := Step(s, single, a);
    assert [a, b][1..] == [b] && [b][1..] == [];
    assert Run(Step(t, single, b), single, []) && Run(t, single, [b]);
    assert After(t, single, [b]) == After(Step(t, single, b), single, []) == Step(t, single, b);
  }

  /** One message whose write fails: it has left the buffer and was never delivered. */
  lemma FailedMessageIsLost<T(!new)>(m: T)
    ensures var events := [Send([m]), Done(1, false)];
            Run(Init(true), true, events) &&
            var t := After(Init(true), true, events); t.buffer == [] && t.taken == [m] && t.delivered == []
  {
    TwoSteps(Init(true), true, Send([m]), Done(1, false));
  }

  /** A stream whose write fails, whether or not the peer was there from the start: its data stay in the buffer, with a peer
      and no write. */
  lemma FailedStreamStops<T(!new)>(connected: bool, data: seq<T>)
    requires data != []
    ensures var s, events := Step(Init(connected), false, Connect), [Send(data), Done(0, false)];
            Run(s, false, events) &&
            var t := After(s, false, events); t.buffer == data && t.connected && t.offered == 0
  {
    TwoSteps(Step(Init(connected), false, Connect), false, Send(data), Done(0, false));
  }

  /** Completions that make progress cannot go on without emptying the buffer: each takes at least one element, and
      while anything is left the next write is already in flight. */
  lemma {:induction false} ProgressDrains<T(!new)>(s: Relay<T>, single: bool, events: seq<Event<T>>)
    requires Inv(s) && Run(s, single, events) && s.connected && !s.stalled
    requires forall k :: 0 <= k < |events| ==> events[k].Done? && events[k].ok && events[k].n > 0
    ensures var t := After(s, single, events);
            |t.buffer| + |events| <= |s.buffer| && (t.buffer != [] ==> t.offered > 0)
    decreases |events|
  {
    if events != [] {
      StepKeepsInv(s, single, events[0]);
      ProgressDrains(Step(s, single, events[0]), single, events[1..]);
    }
  }

  /** Outgoing messages of a websocket connection: one message per write; a completed write drops its message whether it
      succeeded or not. */
  class WebSocketOut {
    var outBuffer: seq<string>
    var doingWrite: bool
    ghost var view: Relay<string>

    ghost predicate Valid()
      reads this
    {
      && Inv(view) && view.connected && view.buffer == outBuffer
      && doingWrite == (view.offered > 0) && view.offered <= 1
    }

    constructor ()
      ensures Valid() && view == Init(true)
    {
      outBuffer, doingWrite, view := [], false, Init(true);
    }

    method DoWrite(ghost before: Relay<string>)
      requires before.connected && before.buffer == outBuffer && doingWrite == (before.offered > 0)
      modifies this
      ensures outBuffer == old(outBuffer) && view == StartWrite(before, true) && doingWrite == (view.offered > 0)
    {
      view := before;
      if doingWrite {
        return;
      }
      if outBuffer == [] {
        return;
      }
      doingWrite := true;
      view := StartWrite(before, true);
    }

    method SendMessage(msg: string)
      requires Valid()
      modifies this
      ensures Valid() && view == Step(old(view), true, Send([msg]))
    {
      StepKeepsInv(view, true, Send([msg]));
      outBuffer := outBuffer + [msg];
      DoWrite(view.(buffer := view.buffer + [msg], submitted := view.submitted + [msg]));
    }

    method OnWritten(ok: bool)
      requires Valid() && doingWrite
      modifies this
      ensures Valid() && view == Step(old(view), true, Done(1, ok))
    {
      StepKeepsInv(view, true, Done(1, ok));
      ghost var after := Finish(view, true, 1, ok);
      doingWrite := false;
      outBuffer := outBuffer[1..];
      if !ok {
        view := after.(stalled := true);
        return;
      }
      DoWrite(after);
    }
  }

  type Byte = bv8

  /** Websocket to unix-socket direction of the NBD proxy: data may arrive before the peer does; a write offers the whole
      buffer and, when it succeeds, has written all of it. */
  class NbdOut {
    var ws2uxBuf: seq<Byte>
    var uxWriteInProgress: bool
    var peerSocket: bool
    ghost var view: Relay<Byte>

    ghost predicate Valid()
      reads this
    {
      && Inv(view) && view.connected == peerSocket && view.buffer == ws2uxBuf
      && uxWriteInProgress == (view.offered > 0)
    }

    constructor ()
      ensures Valid() && view == Init(false)
    {
      ws2uxBuf, uxWriteInProgress, peerSocket, view := [], false, false, Init(false);
    }

    method DoWrite(ghost before: Relay<Byte>)
      requires before.connected == peerSocket && before.buffer == ws2uxBuf && uxWriteInProgress == (before.offered > 0)
      modifies this
      ensures ws2uxBuf == old(ws2uxBuf) && peerSocket == old(peerSocket)
      ensures view == StartWrite(before, false) && uxWriteInProgress == (view.offered > 0)
    {
      view := before;
      if !peerSocket {
        return;
      }
      if uxWriteInProgress {
        return;
      }
      if |ws2uxBuf| == 0 {
        return;
      }
      uxWriteInProgress := true;
      view := StartWrite(before, false);
    }

    method OnAccept(failed: bool)
      requires Valid()
      modifies this
      ensures Valid() && view == if failed then old(view) else Step(old(view), false, Connect)
    {
      if failed {
        return;
      }
      StepKeepsInv(view, false, Connect);
      if peerSocket {
        return;
      }
      peerSocket := true;
      DoWrite(view.(connected := true));
    }

    method SendData(data: seq<Byte>)
      requires Valid()
      modifies this
      ensures Valid() && view == Step(old(view), false, Send(data))
    {
      StepKeepsInv(view, false, Send(data));
      ws2uxBuf := ws2uxBuf + data;
      DoWrite(view.(buffer := view.buffer + data, submitted := view.submitted + data));
    }

    method OnWritten(bytesWritten: nat, ok: bool)
      requires Valid() && uxWriteInProgress && bytesWritten <= view.offered && (ok ==> bytesWritten == view.offered)
      modifies this
      ensures Valid() && view == Step(old(view), false, Done(bytesWritten, ok))
    {
      StepKeepsInv(view, false, Done(bytesWritten, ok));
      ghost var after := Finish(view, false, bytesWritten, ok);
      ws2uxBuf := ws2uxBuf[bytesWritten..];
      uxWriteInProgress := false;
      if !ok {
        view := after.(stalled := true);
        return;
      }
      DoWrite(after);
    }
  }

  /** Capacity of the KVM session's input buffer. */
  const KVM_CAPACITY: nat := 1024

  /** What becomes of a message: buffered, refused by closing the connection, or an exception from the full buffer. */
  datatype KvmOutcome = Accepted | Closed | Overflow

  /** Websocket to host direction of a KVM session: a write may go out in part, and the rest is written next. */
  class KvmOut {
    var inputBuffer: seq<Byte>
    var doingWrite: bool
    ghost var view: Relay<Byte>

    ghost predicate Valid()
      reads this
    {
      && Inv(view) && view.connected && view.buffer == inputBuffer && doingWrite == (view.offered > 0)
      && |inputBuffer| <= KVM_CAPACITY
    }

    constructor ()
      ensures Valid() && view == Init(true)
    {
      inputBuffer, doingWrite, view := [], false, Init(true);
    }

    method DoWrite(ghost before: Relay<Byte>)
      requires before.connected && before.buffer == inputBuffer && doingWrite == (before.offered > 0)
      modifies this
      ensures inputBuffer == old(inputBuffer) && view == StartWrite(before, false)
      ensures doingWrite == (view.offered > 0)
    {
      view := before;
      if doingWrite {
        return;
      }
      if |inputBuffer| == 0 {
        return;
      }
      doingWrite := true;
      view := StartWrite(before, false);
    }

    /** A message from the browser. The source compares its length with the capacity, not with the space left; asking
        the buffer for more space than it has throws. */
    method OnMessage(data: seq<Byte>) returns (outcome: KvmOutcome)
      requires Valid()
      modifies this
      ensures Valid()
      ensures outcome == if |data| > 1024 then Closed
                         else if |old(inputBuffer)| + |data| > 1024 then Overflow else Accepted
      ensures view == if outcome == Accepted then Step(old(view), false, Send(data)) else old(view)
    {
      if |data| > KVM_CAPACITY {
        return Closed;
      }
      if |data| > KVM_CAPACITY - |inputBuffer| {
        return Overflow;
      }
      StepKeepsInv(view, false, Send(data));
      inputBuffer := inputBuffer + data;
      DoWrite(view.(buffer := view.buffer + data, submitted := view.submitted + data));
      outcome := Accepted;
    }

    method OnWritten(bytesWritten: nat, ok: bool)
      requires Valid() && doingWrite && bytesWritten <= view.offered
      modifies this
      ensures Valid() && view == Step(old(view), false, Done(bytesWritten, ok))
    {
      StepKeepsInv(view, false, Done(bytesWritten, ok));
      ghost var after := Finish(view, false, bytesWritten, ok);
      doingWrite := false;
      inputBuffer := inputBuffer[bytesWritten..];
      if !ok {
        view := after.(stalled := true);
        return;
      }
      DoWrite(after);
    }
  }

  /** A full buffer and one byte more, before the write has completed: the guard lets the byte pass and the buffer
      overflows. */
  method KvmOverflows(block: seq<Byte>, next: Byte) returns (first: KvmOutcome, second: KvmOutcome)
    requires |block| == 1024
    ensures first == Accepted && second == Overflow
  {
    var out := new KvmOut();
    first := out.OnMessage(block);
    second := out.OnMessage([next]);
  }
}
