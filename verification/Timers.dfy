/** The timer queue for connection deadlines (http/timer_queue.h). */
module Timers {
  import opened Options

  /** Capacity of the circular buffer behind the queue. */
  const CAPACITY: nat := 100

  /** A timer fires this long after it was added (microseconds). */
  const TICK: int := 5_000_000

  const SIZE_T: nat := 0x1_0000_0000_0000_0000

  /** A queued timer; the callback is gone once it has been cancelled. */
  datatype Entry<F> = Entry(time: int, callback: Option<F>)

  /** `step` counts the timers popped so far. */
  datatype Queue<F> = Queue(dq: seq<Entry<F>>, step: nat)

  /** Appending to a full circular buffer drops its first element. */
  function PushBack<F>(dq: seq<Entry<F>>, e: Entry<F>): seq<Entry<F>> {
    if |dq| < CAPACITY then dq + [e] else dq[1..] + [e]
  }

  function Add<F>(q: Queue<F>, now: int, f: F): Queue<F> {
    q.(dq := PushBack(q.dq, Entry(now, Some(f))))
  }

  /** The key handed out by `Add`: computed after the push. */
  function AddKey<F>(q: Queue<F>): int {
    q.step + (if |q.dq| < CAPACITY then |q.dq| + 1 else |q.dq|) - 1
  }

  /** The index a key stands for, in unsigned arithmetic. */
  function IndexOf<F>(q: Queue<F>, key: nat): nat {
    (key - q.step) % SIZE_T
  }

  function Cancel<F>(q: Queue<F>, key: nat): Queue<F> {
    var index := IndexOf(q, key);
    if index < |q.dq| then q.(dq := q.dq[index := q.dq[index].(callback := None)]) else q
  }

  /** The entries due at `now`: the longest run of old enough ones at the front. */
  function Due<F>(dq: seq<Entry<F>>, now: int): (n: nat)
    ensures n <= |dq|
    ensures forall k :: 0 <= k < n ==> now - dq[k].time >= 5_000_000
    ensures n < |dq| ==> now - dq[n].time < 5_000_000
  {
    if dq == [] || now - dq[0].time < TICK then 0 else 1 + Due(dq[1..], now)
  }

  /** The callbacks among them, in order. */
  function Callbacks<F>(dq: seq<Entry<F>>): seq<F> {
    if dq == [] then []
    else (if dq[0].callback.Some? then [dq[0].callback.value] else []) + Callbacks(dq[1..])
  }

  function Process<F>(q: Queue<F>, now: int): Queue<F> {
    var n := Due(q.dq, now);
    Queue(q.dq[n..], q.step + n)
  }

  function Fired<F>(q: Queue<F>, now: int): seq<F> {
    Callbacks(q.dq[..Due(q.dq, now)])
  }

  /** The queue as the source's object; callbacks run are recorded in `ran`. */
  class TimerQueue<F> {
    var dq: seq<Entry<F>>
    var step: nat

    ghost function View(): Queue<F>
      reads this
    {
      Queue(dq, step)
    }

    constructor ()
      ensures View() == Queue([], 0)
    {
      dq, step := [], 0;
    }

    method CancelTimer(k: nat)
      modifies this
      ensures View() == Cancel(old(View()), k)
    {
      var index := (k - step) % SIZE_T;
      if index < |dq| {
        dq := dq[index := dq[index].(callback := None)];
      }
    }

    method AddTimer(now: int, f: F) returns (ret: int)
      modifies this
      ensures View() == Add(old(View()), now, f) && ret == AddKey(old(View()))
    {
      dq := PushBack(dq, Entry(now, Some(f)));
      ret := step + |dq| - 1;
    }

    method ProcessTimers(now: int) returns (ran: seq<F>)
      modifies this
      ensures View() == Process(old(View()), now) && ran == Fired(old(View()), now)
    {
      ran := [];
      ghost var n := 0;
      ghost var due := Due(dq, now);
      while dq != []
        invariant n <= due <= |old(dq)| && dq == old(dq)[n..] && step == old(step) + n
        invariant ran == Callbacks(old(dq)[..n])
        decreases |dq|
      {
        var x := dq[0];
        if now - x.time < TICK {
          break;
        }
        assert n < due;
        CallbacksSnoc(old(dq)[..n], x);
        assert old(dq)[..n + 1] == old(dq)[..n] + [x];
        if x.callback.Some? {
          ran := ran + [x.callback.value];
        }
        dq := dq[1..];
        step := step + 1;
        n := n + 1;
      }
    }
  }

  lemma {:induction false} CallbacksSnoc<F>(dq: seq<Entry<F>>, x: Entry<F>)
    ensures Callbacks(dq + [x]) == Callbacks(dq) + if x.callback.Some? then [x.callback.value] else []
    decreases |dq|
  {
    var more := dq + [x];
    if dq == [] {
      assert more[1..] == [];
    } else {
      CallbacksSnoc(dq[1..], x);
      var first, rest := if dq[0].callback.Some? then [dq[0].callback.value] else [], Callbacks(dq[1..]);
      var last := if x.callback.Some? then [x.callback.value] else [];
      assert more[0] == dq[0] && more[1..] == dq[1..] + [x];
      assert Callbacks(more) == first + Callbacks(dq[1..] + [x]);
      assert first + (rest + last) == first + rest + last;
    }
  }

  /** What happens to the queue. */
  datatype Event<F> = Adding(now: int, f: F) | Cancelling(key: nat) | Processing(now: int)

  /** A timer as it was added. */
  datatype Issue<F> = Issue(time: int, f: F)

  /** The queue with its history: the timers added so far, the keys fired so far with the time of firing, and the keys
      that were cancelled while they were queued. */
  datatype History<F> = History(q: Queue<F>, issued: seq<Issue<F>>, fired: seq<(nat, int)>, cancelled: set<nat>)

  function Start<F>(): History<F> {
    History(Queue([], 0), [], [], {})
  }

  /** The keys of the entries that fire: those still holding a callback. */
  function FiredKeys<F>(dq: seq<Entry<F>>, step: nat, now: int): seq<(nat, int)> {
    if dq == [] then []
    else (if dq[0].callback.Some? then [(step, now)] else []) + FiredKeys(dq[1..], step + 1, now)
  }

  function Step<F>(h: History<F>, e: Event<F>): History<F> {
    match e
    case Adding(now, f) => h.(q := Add(h.q, now, f), issued := h.issued + [Issue(now, f)])
    case Cancelling(key) =>
      h.(q := Cancel(h.q, key),
         cancelled := if h.q.step <= key < |h.issued| then h.cancelled + {key} else h.cancelled)
    case Processing(now) =>
      h.(q := Process(h.q, now), fired := h.fired + FiredKeys(h.q.dq[..Due(h.q.dq, now)], h.q.step, now))
  }

  /** The queue has room, and key arithmetic has not run out of 64 bits. */
  ghost predicate Fits<F>(h: History<F>, e: Event<F>) {
    && (e.Adding? ==> |h.q.dq| < CAPACITY && |h.issued| + CAPACITY < SIZE_T)
    && (e.Cancelling? ==> e.key < SIZE_T)
  }

  /** Key `k` names the k-th timer added: entry `i` of the queue is timer `step + i`, still with its own callback unless
      it was cancelled; what has fired did so in order of issue and not before its time; and of the timers popped, exactly
      those have fired that were not cancelled. */
  ghost predicate Inv<F(!new)>(h: History<F>) {
    && h.q.step + |h.q.dq| == |h.issued| && |h.issued| < SIZE_T && (forall k :: k in h.cancelled ==> k < |h.issued|)
    && (forall i :: 0 <= i < |h.q.dq| ==> EntryIs(h, i))
    && FiredInOrder(h) && FiredExactly(h)
  }

  /** What has fired was popped, did so in order of issue, and no earlier than five seconds after it was added. */
  ghost predicate FiredInOrder<F(!new)>(h: History<F>)
    requires h.q.step <= |h.issued|
  {
    && (forall j :: 0 <= j < |h.fired| ==>
          h.fired[j].0 < h.q.step && h.fired[j].1 >= h.issued[h.fired[j].0].time + 5_000_000)
    && (forall i, j :: 0 <= i < j < |h.fired| ==> h.fired[i].0 < h.fired[j].0)
  }

  /** Of the timers popped, exactly the uncancelled ones have fired. */
  ghost predicate FiredExactly<F(!new)>(h: History<F>) {
    forall k :: 0 <= k < h.q.step ==> (HasFired(h, k) <==> k !in h.cancelled)
  }

  ghost predicate HasFired<F(!new)>(h: History<F>, k: nat) {
    exists j :: 0 <= j < |h.fired| && h.fired[j].0 == k
  }

  ghost predicate EntryIs<F(!new)>(h: History<F>, i: nat)
    requires i < |h.q.dq| && h.q.step + i < |h.issued|
  {
    var k := h.q.step + i;
    && h.q.dq[i].time == h.issued[k].time
    && h.q.dq[i].callback == (if k in h.cancelled then None else Some(h.issued[k].f))
  }

  /** A key that has been handed out finds its own entry while that is queued, and nothing once it has been popped. */
  lemma KeyNamesItsEntry<F(!new)>(h: History<F>, key: nat)
    requires Inv(h) && key < SIZE_T
    ensures IndexOf(h.q, key) < |h.q.dq| <==> h.q.step <= key < |h.issued|
    ensures h.q.step <= key < |h.issued| ==> IndexOf(h.q, key) == key - h.q.step
  {
    if key >= h.q.step {
      assert (key - h.q.step) % SIZE_T == key - h.q.step;
    } else {
      assert (key - h.q.step) % SIZE_T == key - h.q.step + SIZE_T;
    }
  }

  /** Adding to a queue with room hands out the number of the new timer... */
  lemma AddKeyIsFresh<F(!new)>(h: History<F>)
    requires Inv(h) && |h.q.dq| <= 100
    ensures AddKey(h.q) == |h.issued| <==> |h.q.dq| < 100
  {
  }

  /** ... and adding to a full one hands out the key of the timer before, which from then on names the new timer. */
  lemma FullQueueReusesKey<F(!new)>(h: History<F>, now: int, f: F)
    requires Inv(h) && |h.q.dq| == 100
    ensures AddKey(h.q) == |h.issued| - 1
    ensures var q := Add(h.q, now, f);
            IndexOf(q, AddKey(h.q)) < |q.dq| && q.dq[IndexOf(q, AddKey(h.q))] == Entry(now, Some(f))
  {
    var q := Add(h.q, now, f);
    assert AddKey(h.q) - q.step == CAPACITY - 1;
    assert (AddKey(h.q) - q.step) % SIZE_T == CAPACITY - 1;
  }

  lemma CancelKeepsInv<F(!new)>(h: History<F>, key: nat)
    requires Inv(h) && key < SIZE_T
    ensures Inv(Step(h, Cancelling(key)))
  {
    var h' := Step(h, Cancelling(key));
    KeyNamesItsEntry(h, key);
    forall i | 0 <= i < |h'.q.dq|
      ensures EntryIs(h', i)
    {
      assert EntryIs(h, i);
    }
  }

  lemma AddKeepsInv<F(!new)>(h: History<F>, now: int, f: F)
    requires Inv(h) && Fits(h, Adding(now, f))
    ensures Inv(Step(h, Adding(now, f)))
  {
    var h' := Step(h, Adding(now, f));
    forall i | 0 <= i < |h'.q.dq|
      ensures EntryIs(h', i)
    {
      if i < |h.q.dq| { assert EntryIs(h, i); }
    }
  }

  lemma {:induction false} FiredKeysInOrder<F(!new)>(dq: seq<Entry<F>>, step: nat, now: int)
    ensures forall j :: 0 <= j < |FiredKeys(dq, step, now)| ==>
              var (k, t) := FiredKeys(dq, step, now)[j];
              step <= k < step + |dq| && t == now && dq[k - step].callback.Some?
    ensures forall i, j :: 0 <= i < j < |FiredKeys(dq, step, now)| ==>
              FiredKeys(dq, step, now)[i].0 < FiredKeys(dq, step, now)[j].0
    decreases |dq|
  {
    if dq != [] {
      FiredKeysInOrder(dq[1..], step + 1, now);
      var rest := FiredKeys(dq[1..], step + 1, now);
      forall j | 0 <= j < |rest|
        ensures step < rest[j].0 < step + |dq| && dq[rest[j].0 - step].callback.Some?
      {
        assert dq[1..][rest[j].0 - (step + 1)] == dq[rest[j].0 - step];
      }
    }
  }

  /** Every entry that still has its callback is among the fired. */
  lemma {:induction false} FiredKeysAll<F(!new)>(dq: seq<Entry<F>>, step: nat, now: int, i: nat) returns (j: nat)
    requires i < |dq| && dq[i].callback.Some?
    ensures j < |FiredKeys(dq, step, now)| && FiredKeys(dq, step, now)[j].0 == step + i
    decreases |dq|
  {
    if i == 0 {
      j := 0;
    } else {
      j := FiredKeysAll(dq[1..], step + 1, now, i - 1);
      if dq[0].callback.Some? {
        j := j + 1;
      }
    }
  }

  /** The keys fired by one pass: queued and uncancelled ones, in order, all that are due. */
  lemma PassFires<F(!new)>(h: History<F>, now: int, more: seq<(nat, int)>)
    requires Inv(h) && more == FiredKeys(h.q.dq[..Due(h.q.dq, now)], h.q.step, now)
    ensures forall j :: 0 <= j < |more| ==>
              && h.q.step <= more[j].0 < h.q.step + Due(h.q.dq, now) && more[j].0 !in h.cancelled
              && more[j].1 >= h.issued[more[j].0].time + 5_000_000
    ensures forall i, j :: 0 <= i < j < |more| ==> more[i].0 < more[j].0
    ensures forall k :: h.q.step <= k < h.q.step + Due(h.q.dq, now) ==>
              (k !in h.cancelled <==> exists j :: 0 <= j < |more| && more[j].0 == k)
  {
    var n := Due(h.q.dq, now);
    var due := h.q.dq[..n];
    FiredKeysInOrder(due, h.q.step, now);
    hide FiredKeys;
    forall j | 0 <= j < |more|
      ensures h.q.step <= more[j].0 < h.q.step + n && more[j].0 !in h.cancelled
      ensures more[j].1 >= h.issued[more[j].0].time + 5_000_000
    {
      assert EntryIs(h, more[j].0 - h.q.step);
    }
    forall k | h.q.step <= k < h.q.step + n && k !in h.cancelled
      ensures exists j :: 0 <= j < |more| && more[j].0 == k
    {
      assert EntryIs(h, k - h.q.step);
      var j := FiredKeysAll(due, h.q.step, now, k - h.q.step);
    }
  }

  lemma ProcessKeepsInv<F(!new)>(h: History<F>, now: int)
    requires Inv(h)
    ensures Inv(Step(h, Processing(now)))
    ensures forall j :: |h.fired| <= j < |Step(h, Processing(now)).fired| ==>
              var k := Step(h, Processing(now)).fired[j].0; h.q.step <= k < |h.issued| && k !in h.cancelled
  {
    var h' := Step(h, Processing(now));
    var n := Due(h.q.dq, now);
    var more := FiredKeys(h.q.dq[..n], h.q.step, now);
    PassFires(h, now, more);
    FiredAreBelow(h);
    hide FiredKeys, Due, FiredInOrder, FiredExactly;
    EntriesShift(h, h', n);
    hide EntryIs;
    MoreInOrder(h, h', n, more);
    MoreExactly(h, h', n, more);
  }

  lemma EntriesShift<F(!new)>(h: History<F>, h': History<F>, n: nat)
    requires Inv(h) && n <= |h.q.dq| && h'.q == Queue(h.q.dq[n..], h.q.step + n)
    requires h'.issued == h.issued && h'.cancelled == h.cancelled
    ensures forall i :: 0 <= i < |h'.q.dq| ==> EntryIs(h', i)
  {
    hide FiredInOrder, FiredExactly;
    forall i | 0 <= i < |h'.q.dq|
      ensures EntryIs(h', i)
    {
      assert EntryIs(h, n + i);
    }
  }

  lemma MoreInOrder<F(!new)>(h: History<F>, h': History<F>, n: nat, more: seq<(nat, int)>)
    requires h.q.step + n <= |h.issued| && FiredInOrder(h)
    requires h'.issued == h.issued && h'.q.step == h.q.step + n && h'.fired == h.fired + more
    requires forall j :: 0 <= j < |more| ==>
               h.q.step <= more[j].0 < h.q.step + n && more[j].1 >= h.issued[more[j].0].time + 5_000_000
    requires forall i, j :: 0 <= i < j < |more| ==> more[i].0 < more[j].0
    ensures FiredInOrder(h')
  {
  }

  lemma MoreExactly<F(!new)>(h: History<F>, h': History<F>, n: nat, more: seq<(nat, int)>)
    requires FiredExactly(h) && h'.cancelled == h.cancelled && h'.q.step == h.q.step + n && h'.fired == h.fired + more
    requires forall j :: 0 <= j < |h.fired| ==> h.fired[j].0 < h.q.step
    requires forall j :: 0 <= j < |more| ==> h.q.step <= more[j].0
    requires forall k :: h.q.step <= k < h.q.step + n ==>
               (k !in h.cancelled <==> exists j :: 0 <= j < |more| && more[j].0 == k)
    ensures FiredExactly(h')
  {
    forall k | 0 <= k < h'.q.step
      ensures HasFired(h', k) <==> k !in h.cancelled
    {
      FiredBoth(h, h', more, k);
    }
  }

  lemma FiredBoth<F(!new)>(h: History<F>, h': History<F>, more: seq<(nat, int)>, k: nat)
    requires h'.fired == h.fired + more
    ensures HasFired(h', k) <==> HasFired(h, k) || exists j :: 0 <= j < |more| && more[j].0 == k
  {
    if HasFired(h, k) {
      var j :| 0 <= j < |h.fired| && h.fired[j].0 == k;
      assert h'.fired[j].0 == k;
    }
    if j :| 0 <= j < |more| && more[j].0 == k {
      assert h'.fired[|h.fired| + j].0 == k;
    }
    if HasFired(h', k) && !HasFired(h, k) {
      var j :| 0 <= j < |h'.fired| && h'.fired[j].0 == k;
      assert more[j - |h.fired|].0 == k;
    }
  }

  lemma StepKeepsInv<F(!new)>(h: History<F>, e: Event<F>)
    requires Inv(h) && Fits(h, e)
    ensures Inv(Step(h, e))
  {
    match e
    case Adding(now, f) => AddKeepsInv(h, now, f);
    case Cancelling(key) => CancelKeepsInv(h, key);
    case Processing(now) => ProcessKeepsInv(h, now);
  }

  /** A run in which the queue never overflows. */
  ghost predicate Run<F(!new)>(h: History<F>, events: seq<Event<F>>)
    decreases |events|
  {
    events == [] || (Fits(h, events[0]) && Run(Step(h, events[0]), events[1..]))
  }

  ghost function After<F(!new)>(h: History<F>, events: seq<Event<F>>): History<F>
    requires Run(h, events)
    decreases |events|
  {
    if events == [] then h else After(Step(h, events[0]), events[1..])
  }

  /** Over a whole run: every timer fires at most once, in order of issue, at its own time or later; of the timers popped,
      exactly those have fired that were not cancelled while queued; and a timer that was cancelled while still queued never
      fires. */
  lemma {:induction false} RunIsSound<F(!new)>(h: History<F>, events: seq<Event<F>>)
    requires Inv(h) && Run(h, events)
    ensures Inv(After(h, events)) && h.issued <= After(h, events).issued && h.fired <= After(h, events).fired
    ensures forall k :: k in h.cancelled && k >= h.q.step ==>
              forall j :: 0 <= j < |After(h, events).fired| ==> After(h, events).fired[j].0 != k
    ensures forall k :: 0 <= k < After(h, events).q.step ==>
              (HasFired(After(h, events), k) <==> k !in After(h, events).cancelled)
    decreases |events|
  {
    hide Inv, EntryIs, HasFired;
    if events == [] {
      FiredAreBelow(h);
    } else {
      var h' := Step(h, events[0]);
      StepKeepsInv(h, events[0]);
      RunIsSound(h', events[1..]);
      forall k, j | k in h.cancelled && k >= h.q.step && 0 <= j < |After(h', events[1..]).fired|
        ensures After(h', events[1..]).fired[j].0 != k
      {
        CancelledStays(h, events[0], k);
        if k < h'.q.step { FiredStays(h', events[1..], k, j); }
      }
    }
  }

  lemma FiredAreBelow<F(!new)>(h: History<F>)
    requires Inv(h)
    ensures forall j :: 0 <= j < |h.fired| ==> h.fired[j].0 < h.q.step
    ensures forall k :: 0 <= k < h.q.step ==> (HasFired(h, k) <==> k !in h.cancelled)
  {
    hide EntryIs;
  }

  /** A cancelled timer that is still queued either stays queued, or is popped without firing. */
  lemma CancelledStays<F(!new)>(h: History<F>, e: Event<F>, k: nat)
    requires Inv(h) && Fits(h, e) && k in h.cancelled && k >= h.q.step
    ensures k in Step(h, e).cancelled
    ensures forall j :: 0 <= j < |Step(h, e).fired| ==> Step(h, e).fired[j].0 != k
  {
    FiredAreBelow(h);
    if e.Processing? { ProcessKeepsInv(h, e.now); }
  }

  /** Once a timer has been popped, later firings are of later timers. */
  lemma {:induction false} FiredStays<F(!new)>(h: History<F>, events: seq<Event<F>>, k: nat, j: nat)
    requires Inv(h) && Run(h, events) && k < h.q.step && j < |After(h, events).fired|
    requires forall i :: 0 <= i < |h.fired| ==> h.fired[i].0 != k
    ensures After(h, events).fired[j].0 != k
    decreases |events|
  {
    if events != [] {
      StepKeepsInv(h, events[0]);
      if events[0].Processing? { ProcessKeepsInv(h, events[0].now); }
      FiredStays(Step(h, events[0]), events[1..], k, j);
    }
  }
}
