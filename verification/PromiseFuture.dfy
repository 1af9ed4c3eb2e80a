/**
 The future that waits for a JS promise (runtime/src/promise/future.rs): a result slot and a
 waker slot under one lock, polled by one task and settled from other threads.
 */
module PromiseFuture {
  import opened Prelude

  /** A settlement; which thread stored it does not matter. */
  datatype Settled = Completed(value: string) | Failed(exception: string)

  type Waker = nat

  datatype Poll = Ready(result: Settled) | Pending

  datatype Slots = Slots(result: Option<Settled>, waker: Option<Waker>)

  const EMPTY_SLOTS := Slots(None, None)

  function AfterSettle(s: Slots, r: Settled): (Slots, Option<Waker>) {
    (Slots(Some(r), None), s.waker)
  }

  function AfterPoll(s: Slots, cx: Waker): (Slots, Poll) {
    if s.result.Some? then (s.(result := None), Ready(s.result.value))
    else (s.(waker := Some(cx)), Pending)
  }

  class FutureState {
    var result: Option<Settled>
    var waker: Option<Waker>

    constructor ()
      ensures View() == EMPTY_SLOTS
    {
      result, waker := None, None;
    }

    function View(): Slots
      reads this
    {
      Slots(result, waker)
    }

    /** Stores a settlement over any earlier one, and wakes the waiting task if there is one. */
    method Settle(r: Settled) returns (woken: Option<Waker>)
      modifies this
      ensures (View(), woken) == AfterSettle(old(View()), r)
    {
      result := Some(r);
      woken := waker;
      if waker.Some? {
        waker := None;
      }
    }

    method Complete(value: string) returns (woken: Option<Waker>)
      modifies this
      ensures (View(), woken) == AfterSettle(old(View()), Completed(value))
    {
      woken := Settle(Completed(value));
    }

    method Fail(exception: string) returns (woken: Option<Waker>)
      modifies this
      ensures (View(), woken) == AfterSettle(old(View()), Failed(exception))
    {
      woken := Settle(Failed(exception));
    }

    predicate IsSettled()
      reads this
    {
      result.Some?
    }

    /** Takes the result if there is one, else remembers whom to wake. */
    method PollOnce(cx: Waker) returns (p: Poll)
      modifies this
      ensures (View(), p) == AfterPoll(old(View()), cx)
    {
      if result.Some? {
        p := Ready(result.value);
        result := None;
      } else {
        waker := Some(cx);
        p := Pending;
      }
    }
  }

  // ---------- Interleavings of polls and settlements ----------

  datatype Action = PollBy(cx: Waker) | SettleWith(r: Settled)

  /** What an observer outside sees of an action. */
  datatype Event = Polled(cx: Waker, outcome: Poll) | Settlement(r: Settled, woken: Option<Waker>)

  function Perform(s: Slots, a: Action): (Slots, Event) {
    match a
    case PollBy(cx) => var (s', p) := AfterPoll(s, cx); (s', Polled(cx, p))
    case SettleWith(r) => var (s', w) := AfterSettle(s, r); (s', Settlement(r, w))
  }

  function SlotsAfter(actions: seq<Action>): Slots {
    if |actions| == 0 then EMPTY_SLOTS
    else Perform(SlotsAfter(actions[..|actions| - 1]), actions[|actions| - 1]).0
  }

  function Trace(actions: seq<Action>): (es: seq<Event>)
    ensures |es| == |actions|
  {
    if |actions| == 0 then []
    else
      var n := |actions| - 1;
      Trace(actions[..n]) + [Perform(SlotsAfter(actions[..n]), actions[n]).1]
  }

  predicate PendingPollAt(es: seq<Event>, i: nat) {
    i < |es| && es[i].Polled? && es[i].outcome.Pending?
  }

  predicate ReadyPollAt(es: seq<Event>, i: nat) {
    i < |es| && es[i].Polled? && es[i].outcome.Ready?
  }

  /** Position `i` is the last poll that returned pending. */
  ghost predicate LastPendingPoll(es: seq<Event>, i: nat) {
    PendingPollAt(es, i) && forall j: nat :: i < j < |es| ==> !PendingPollAt(es, j)
  }

  /** After the pending poll at `i`, a settlement has woken its task, with the waker it left. */
  ghost predicate WokenSince(es: seq<Event>, i: nat)
    requires PendingPollAt(es, i)
  {
    exists j: nat :: i < j < |es| && es[j].Settlement? && es[j].woken == Some(es[i].cx)
  }

  /** Nothing has been settled or taken after position `i`. */
  ghost predicate QuietSince(es: seq<Event>, i: nat) {
    forall j: nat :: i < j < |es| ==> !es[j].Settlement? && !ReadyPollAt(es, j)
  }

  /** The last settlement is at `i`, stored `r`, and no poll has taken it. */
  ghost predicate Holds(es: seq<Event>, i: nat, r: Settled) {
    i < |es| && es[i].Settlement? && es[i].r == r && QuietSince(es, i)
  }

  /** The task waits: its last pending poll, with waker `cx`, came after every settlement. */
  ghost predicate Waits(es: seq<Event>, i: nat, cx: Waker) {
    LastPendingPoll(es, i) && es[i].cx == cx && QuietSince(es, i)
  }

  /** The slots, read off the trace alone. */
  ghost predicate SlotsMatch(s: Slots, es: seq<Event>) {
    && (s.result.Some? ==> s.waker.None? && exists i: nat :: Holds(es, i, s.result.value))
    && (s.result.None? ==> forall i: nat :: i < |es| && es[i].Settlement? ==>
          exists j: nat :: i < j && ReadyPollAt(es, j))
    && (s.waker.Some? ==> exists i: nat :: Waits(es, i, s.waker.value))
    && (s.waker.None? ==> forall i: nat :: LastPendingPoll(es, i) ==> WokenSince(es, i))
  }

  lemma PollKeepsMatch(s: Slots, es: seq<Event>, cx: Waker)
    requires SlotsMatch(s, es)
    ensures SlotsMatch(Perform(s, PollBy(cx)).0, es + [Perform(s, PollBy(cx)).1])
  {
    var (s', e) := Perform(s, PollBy(cx));
    var es' := es + [e];
    assert forall i: nat :: i < |es| ==> es'[i] == es[i];
    if s.result.Some? {
      assert ReadyPollAt(es', |es|);
      forall i: nat | LastPendingPoll(es', i) ensures WokenSince(es', i) {
        assert LastPendingPoll(es, i) by {
          assert forall j: nat :: j < |es| && PendingPollAt(es, j) ==> PendingPollAt(es', j);
        }
        var j: nat :| i < j < |es| && es[j].Settlement? && es[j].woken == Some(es[i].cx);
        assert es'[j].woken == Some(es'[i].cx);
      }
    } else {
      assert PendingPollAt(es', |es|) && Waits(es', |es|, cx);
      forall i: nat | i < |es'| && es'[i].Settlement?
        ensures exists j: nat :: i < j && ReadyPollAt(es', j)
      {
        var j: nat :| i < j && ReadyPollAt(es, j);
        assert ReadyPollAt(es', j);
      }
    }
  }

  lemma SettleKeepsMatch(s: Slots, es: seq<Event>, r: Settled)
    requires SlotsMatch(s, es)
    ensures SlotsMatch(Perform(s, SettleWith(r)).0, es + [Perform(s, SettleWith(r)).1])
  {
    var (s', e) := Perform(s, SettleWith(r));
    var es' := es + [e];
    assert forall i: nat :: i < |es| ==> es'[i] == es[i];
    assert Holds(es', |es|, r);
    forall i: nat | LastPendingPoll(es', i) ensures WokenSince(es', i) {
      assert LastPendingPoll(es, i) by {
        assert forall j: nat :: j < |es| && PendingPollAt(es, j) ==> PendingPollAt(es', j);
      }
      if s.waker.Some? {
        var k: nat :| Waits(es, k, s.waker.value);
        assert k == i;
        assert es'[|es|].woken == Some(es'[i].cx);
      } else {
        var j: nat :| i < j < |es| && es[j].Settlement? && es[j].woken == Some(es[i].cx);
        assert es'[j].woken == Some(es'[i].cx);
      }
    }
  }

  lemma {:induction false} AlwaysMatch(actions: seq<Action>)
    ensures SlotsMatch(SlotsAfter(actions), Trace(actions))
  {
    if |actions| > 0 {
      var n := |actions| - 1;
      AlwaysMatch(actions[..n]);
      match actions[n]
      case PollBy(cx) => PollKeepsMatch(SlotsAfter(actions[..n]), Trace(actions[..n]), cx);
      case SettleWith(r) => SettleKeepsMatch(SlotsAfter(actions[..n]), Trace(actions[..n]), r);
    }
  }

  /**
   No lost wake-up: in every interleaving, if a settlement is stored and not yet taken, then
   the last poll that returned pending, if there was one, has been woken by its own waker since.
   */
  lemma NoLostWakeUp(actions: seq<Action>, settled: nat, r: Settled, pending: nat)
    requires Holds(Trace(actions), settled, r) && LastPendingPoll(Trace(actions), pending)
    ensures WokenSince(Trace(actions), pending)
  {
    AlwaysMatch(actions);
  }

  /** A poll is ready exactly when a settlement is held, and yields the latest one. */
  lemma PollYieldsTheHeldSettlement(actions: seq<Action>, cx: Waker, r: Settled)
    ensures AfterPoll(SlotsAfter(actions), cx).1 == Ready(r) <==> exists i: nat :: Holds(Trace(actions), i, r)
  {
    AlwaysMatch(actions);
    var s, es := SlotsAfter(actions), Trace(actions);
    forall i: nat | Holds(es, i, r) ensures s.result == Some(r) {
      if s.result.Some? {
        var k: nat :| Holds(es, k, s.result.value);
        HeldOnce(es, i, r, k, s.result.value);
      }
    }
    if s.result == Some(r) {
      var k: nat :| Holds(es, k, s.result.value);
      assert Holds(es, k, r);
    }
    assert AfterPoll(SlotsAfter(actions), cx).1 == Ready(r) ==> exists i: nat :: Holds(Trace(actions), i, r);
    assert (exists i: nat :: Holds(Trace(actions), i, r)) ==> AfterPoll(SlotsAfter(actions), cx).1 == Ready(r);
  }

  lemma HeldOnce(es: seq<Event>, i: nat, r: Settled, k: nat, r': Settled)
    requires Holds(es, i, r) && Holds(es, k, r')
    ensures i == k && r == r'
  {
  }

  lemma {:induction false} TraceAt(actions: seq<Action>, i: nat)
    requires i < |actions|
    ensures Trace(actions)[..i] == Trace(actions[..i])
    ensures Trace(actions)[i] == Perform(SlotsAfter(actions[..i]), actions[i]).1
  {
    var n := |actions| - 1;
    if i < n {
      TraceAt(actions[..n], i);
      assert actions[..n][..i] == actions[..i];
    }
  }

  /** No settlement is delivered twice: between two ready polls something was settled anew. */
  lemma EachSettlementIsTakenOnce(actions: seq<Action>, i: nat, j: nat)
    requires i < j && ReadyPollAt(Trace(actions), i) && ReadyPollAt(Trace(actions), j)
    ensures exists k: nat ::
      i < k < j && Trace(actions)[k].Settlement? && Trace(actions)[j].outcome == Ready(Trace(actions)[k].r)
  {
    var es := Trace(actions);
    TraceAt(actions, j);
    var r := es[j].outcome.result;
    PollYieldsTheHeldSettlement(actions[..j], es[j].cx, r);
    assert ReadyPollAt(es[..j], i);
    var k: nat :| Holds(es[..j], k, r);
    assert es[k] == es[..j][k];
  }
}
