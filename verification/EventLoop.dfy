/**
 The timers of the event loop (runtime/src/event_loop.rs). Time is an abstract clock that does
 not go backwards. Firing a timer puts its id on the loop's task channel; entries are never
 removed from the table.
 */
module Timers {
  import opened Prelude

  type Time = nat
  type TimerId = nat

  datatype TimerEntry = TimerEntry(deadline: Time, interval: Option<nat>, active: bool)

  type Table = map<TimerId, TimerEntry>

  predicate Due(e: TimerEntry, now: Time) {
    e.active && now >= e.deadline
  }

  function DueIds(timers: Table, now: Time): set<TimerId> {
    set id | id in timers && Due(timers[id], now)
  }

  /** An entry after its timer fired: an interval is set again, a one-shot timer is over. */
  function Fired(e: TimerEntry, now: Time): TimerEntry {
    match e.interval
    case Some(period) => e.(deadline := now + period)
    case None => e.(active := false)
  }

  function FireAll(timers: Table, now: Time): Table {
    map id | id in timers :: if Due(timers[id], now) then Fired(timers[id], now) else timers[id]
  }

  /** The loop's handling of a fired timer's task. */
  function HandleTask(timers: Table, id: TimerId, now: Time): Table {
    if id in timers && timers[id].active then timers[id := Fired(timers[id], now)] else timers
  }

  function Cleared(timers: Table, id: TimerId): Table {
    if id in timers then timers[id := timers[id].(active := false)] else timers
  }

  ghost predicate IsLeast(x: nat, s: set<nat>) {
    x in s && forall y :: y in s ==> x <= y
  }

  lemma LeastExists(s: set<nat>)
    requires s != {}
    ensures exists x :: IsLeast(x, s)
  {
    var x :| x in s;
    if !IsLeast(x, s) {
      var below := set y | y in s && y < x;
      var y :| y in s && y < x;
      assert y in below && x !in below && below < s;
      LeastExists(below);
      var z :| IsLeast(z, below);
      forall w | w in s ensures z <= w {
        assert w < x ==> w in below;
      }
      assert IsLeast(z, s);
    }
  }

  ghost function Least(s: set<nat>): (x: nat)
    requires s != {}
    ensures IsLeast(x, s)
  {
    LeastExists(s);
    var x :| IsLeast(x, s);
    x
  }

  /** The elements of a set in increasing order, as a sorted table lists them. */
  ghost function Ascending(s: set<nat>): seq<nat> {
    if s == {} then []
    else
      var x := Least(s);
      [x] + Ascending(s - {x})
  }

  lemma {:induction false} AscendingLists(s: set<nat>)
    ensures forall x :: x in Ascending(s) <==> x in s
    ensures forall i, j :: 0 <= i < j < |Ascending(s)| ==> Ascending(s)[i] < Ascending(s)[j]
  {
    if s != {} {
      var x, rest := Least(s), Ascending(s - {Least(s)});
      AscendingLists(s - {x});
      forall i | 0 <= i < |rest| ensures x < rest[i] {
        assert rest[i] in rest;
      }
    }
  }

  lemma TakeLeast(done: seq<nat>, s: set<nat>, x: nat)
    requires IsLeast(x, s)
    ensures done + [x] + Ascending(s - {x}) == done + Ascending(s)
  {
    assert Least(s) == x;
    assert Ascending(s) == [x] + Ascending(s - {x});
  }

  /** `timers` is `before` with the timers in `done` fired. */
  ghost predicate FiredSome(before: Table, timers: Table, done: set<TimerId>, now: Time) {
    && timers.Keys == before.Keys
    && forall id :: id in before ==> timers[id] == if id in done then Fired(before[id], now) else before[id]
  }

  lemma OneMoreFired(before: Table, timers: Table, done: set<TimerId>, id: TimerId, now: Time)
    requires FiredSome(before, timers, done, now) && id in before && id !in done
    ensures id in timers && timers[id] == before[id]
    ensures FiredSome(before, timers[id := Fired(timers[id], now)], done + {id}, now)
  {
  }

  lemma MoveOver<T>(left: set<T>, done: set<T>, x: T)
    requires left !! done && x in left
    ensures left - {x} !! done + {x} && (left - {x}) + (done + {x}) == left + done
  {
  }

  lemma AllFired(before: Table, timers: Table, now: Time)
    requires FiredSome(before, timers, DueIds(before, now), now)
    ensures timers == FireAll(before, now)
  {
  }

  class EventLoop {
    var timers: Table
    var channel: seq<TimerId>

    constructor ()
      ensures timers == map[] && channel == []
    {
      timers, channel := map[], [];
    }

    /** `id` is the next value of the program-wide id counter. */
    method SetTimeout(id: TimerId, delay: nat, now: Time)
      modifies this`timers
      ensures timers == old(timers)[id := TimerEntry(now + delay, None, true)]
    {
      timers := timers[id := TimerEntry(now + delay, None, true)];
    }

    method SetInterval(id: TimerId, period: nat, now: Time)
      modifies this`timers
      ensures timers == old(timers)[id := TimerEntry(now + period, Some(period), true)]
    {
      timers := timers[id := TimerEntry(now + period, Some(period), true)];
    }

    method ClearTimer(id: TimerId)
      modifies this`timers
      ensures timers == Cleared(old(timers), id)
      ensures timers.Keys == old(timers).Keys
      ensures forall k :: k in timers && k != id ==> timers[k] == old(timers)[k]
      ensures id in timers ==> timers[id] == old(timers)[id].(active := false)
    {
      if id in timers {
        timers := timers[id := timers[id].(active := false)];
      }
    }

    /** Sends every due timer's task, lowest id first, and sets it again or ends it. */
    method FireExpiredTimers(now: Time)
      modifies this
      ensures timers == FireAll(old(timers), now)
      ensures timers.Keys == old(timers).Keys
      ensures forall k :: k in timers && !(old(timers)[k].active && now >= old(timers)[k].deadline) ==> timers[k] == old(timers)[k]
      ensures channel == old(channel) + Ascending(DueIds(old(timers), now))
    {
      ghost var before := timers;
      var expired := set id | id in timers && timers[id].active && now >= timers[id].deadline;
      assert expired == DueIds(timers, now);
      var left := expired;
      ghost var done: set<TimerId> := {};
      while left != {}
        invariant left !! done && left + done == expired
        invariant FiredSome(before, timers, done, now)
        invariant channel + Ascending(left) == old(channel) + Ascending(expired)
        decreases left
      {
        LeastExists(left);
        var id :| id in left && forall other :: other in left ==> id <= other;
        TakeLeast(channel, left, id);
        channel := channel + [id];
        OneMoreFired(before, timers, done, id, now);
        var entry := timers[id];
        match entry.interval {
          case Some(period) => timers := timers[id := entry.(deadline := now + period)];
          case None => timers := timers[id := entry.(active := false)];
        }
        MoveOver(left, done, id);
        left, done := left - {id}, done + {id};
      }
      assert done == expired;
      AllFired(before, timers, now);
    }

    /** The timer arm of the loop. */
    method HandleTimer(id: TimerId, now: Time)
      modifies this`timers
      ensures timers == HandleTask(old(timers), id, now)
      ensures timers.Keys == old(timers).Keys
      ensures forall k :: k in timers && (k != id || !old(timers)[k].active) ==> timers[k] == old(timers)[k]
      ensures id in timers && old(timers)[id].active ==>
        if old(timers)[id].interval.Some? then timers[id] == old(timers)[id].(deadline := now + old(timers)[id].interval.value)
        else timers[id] == old(timers)[id].(active := false)
    {
      if id in timers {
        var entry := timers[id];
        if entry.active {
          if entry.interval.Some? {
            timers := timers[id := entry.(deadline := now + entry.interval.value)];
          } else {
            timers := timers[id := entry.(active := false)];
          }
        }
      }
    }
  }

  // ---------- Whole runs ----------

  datatype Emission = Emission(id: TimerId, at: Time)

  /** `emitted` and `firstDue` are history: what fired when, and each timer's first deadline. */
  datatype Loop = Loop(timers: Table, nextId: TimerId, now: Time, emitted: seq<Emission>, firstDue: map<TimerId, Time>)

  const START := Loop(map[], 1, 0, [], map[])

  datatype Action =
    | SetTimeout(delay: nat)
    | SetInterval(period: nat)
    | Clear(id: TimerId)
    | Fire
    | Handle(id: TimerId)
    | Wait(duration: nat)
    | SkipIds(n: nat)

  ghost function Emissions(ids: seq<TimerId>, at: Time): (es: seq<Emission>)
    ensures |es| == |ids|
  {
    seq(|ids|, i requires 0 <= i < |ids| => Emission(ids[i], at))
  }

  function Registered(s: Loop, delay: nat, interval: Option<nat>): Loop {
    s.(timers := s.timers[s.nextId := TimerEntry(s.now + delay, interval, true)],
       firstDue := s.firstDue[s.nextId := s.now + delay],
       nextId := s.nextId + 1)
  }

  /** `SkipIds` is another loop drawing ids from the shared counter. */
  ghost function Next(s: Loop, a: Action): Loop {
    match a
    case SetTimeout(delay) => Registered(s, delay, None)
    case SetInterval(period) => Registered(s, period, Some(period))
    case Clear(id) => s.(timers := Cleared(s.timers, id))
    case Fire =>
      s.(timers := FireAll(s.timers, s.now),
         emitted := s.emitted + Emissions(Ascending(DueIds(s.timers, s.now)), s.now))
    case Handle(id) => s.(timers := HandleTask(s.timers, id, s.now))
    case Wait(duration) => s.(now := s.now + duration)
    case SkipIds(n) => s.(nextId := s.nextId + n)
  }

  ghost function After(actions: seq<Action>): Loop {
    if |actions| == 0 then START else Next(After(actions[..|actions| - 1]), actions[|actions| - 1])
  }

  // ---------- What every run keeps ----------

  ghost predicate EntryInv(s: Loop, id: TimerId)
    requires id in s.timers
  {
    var e := s.timers[id];
    && id < s.nextId && id in s.firstDue && s.firstDue[id] <= e.deadline
    && (e.interval.Some? ==> e.deadline <= s.now + e.interval.value)
  }

  /** An emission is in the past, not early, and has already moved or ended its timer. */
  ghost predicate EmissionInv(s: Loop, m: Emission) {
    && m.at <= s.now && m.id in s.timers && m.id in s.firstDue && s.firstDue[m.id] <= m.at
    && (match s.timers[m.id].interval
        case None => !s.timers[m.id].active
        case Some(period) => m.at + period <= s.timers[m.id].deadline)
  }

  /** Of two emissions of one timer the later comes at least a period after; one-shots have no second. */
  ghost predicate Spaced(s: Loop, m: Emission, m': Emission) {
    m.id == m'.id && m.id in s.timers ==>
      s.timers[m.id].interval.Some? && m.at + s.timers[m.id].interval.value <= m'.at
  }

  ghost predicate Inv(s: Loop) {
    && (forall id :: id in s.timers ==> EntryInv(s, id))
    && (forall m :: m in s.emitted ==> EmissionInv(s, m))
    && (forall i, j :: 0 <= i < j < |s.emitted| ==> Spaced(s, s.emitted[i], s.emitted[j]))
  }

  /** What an action may do to a timer: never revive it, never move its deadline back. */
  ghost predicate Forward(e: TimerEntry, e': TimerEntry) {
    e'.interval == e.interval && e.deadline <= e'.deadline && (e'.active ==> e.active)
  }

  lemma NextForward(s: Loop, a: Action, id: TimerId)
    requires id in s.timers && EntryInv(s, id)
    ensures id in Next(s, a).timers && Forward(s.timers[id], Next(s, a).timers[id])
  {
  }

  lemma NextEntries(s: Loop, a: Action)
    requires Inv(s)
    ensures forall id :: id in Next(s, a).timers ==> EntryInv(Next(s, a), id)
  {
    forall id | id in Next(s, a).timers ensures EntryInv(Next(s, a), id) {
      if id in s.timers {
        NextForward(s, a, id);
      }
    }
  }

  /** What a fire pass emits. */
  lemma FireEmits(s: Loop, m: Emission)
    ensures m in Emissions(Ascending(DueIds(s.timers, s.now)), s.now) <==>
      m.at == s.now && m.id in s.timers && Due(s.timers[m.id], s.now)
  {
    var ids := Ascending(DueIds(s.timers, s.now));
    var es := Emissions(ids, s.now);
    AscendingLists(DueIds(s.timers, s.now));
    if m.id in ids && m.at == s.now {
      var i :| 0 <= i < |ids| && ids[i] == m.id;
      assert es[i] == m;
    }
    if m in es {
      var i :| 0 <= i < |es| && es[i] == m;
      assert ids[i] in ids;
    }
  }

  lemma NextEmissions(s: Loop, a: Action)
    requires Inv(s)
    ensures forall m :: m in Next(s, a).emitted ==> EmissionInv(Next(s, a), m)
  {
    forall m | m in Next(s, a).emitted ensures EmissionInv(Next(s, a), m) {
      if m in s.emitted {
        assert EntryInv(s, m.id);
        NextForward(s, a, m.id);
      } else {
        FireEmits(s, m);
        assert EntryInv(s, m.id);
      }
    }
  }

  lemma NextSpaced(s: Loop, a: Action)
    requires Inv(s)
    ensures forall i, j :: 0 <= i < j < |Next(s, a).emitted| ==>
      Spaced(Next(s, a), Next(s, a).emitted[i], Next(s, a).emitted[j])
  {
    var s' := Next(s, a);
    var n := |s.emitted|;
    AscendingLists(DueIds(s.timers, s.now));
    forall i, j | 0 <= i < j < |s'.emitted| ensures Spaced(s', s'.emitted[i], s'.emitted[j]) {
      var m, m' := s'.emitted[i], s'.emitted[j];
      if j < n {
        assert Spaced(s, s.emitted[i], s.emitted[j]) && EmissionInv(s, m);
        assert EntryInv(s, m.id);
        NextForward(s, a, m.id);
      } else {
        FireEmits(s, m');
        if i < n {
          assert m in s.emitted && EmissionInv(s, m);
        } else {
          assert m.id == Ascending(DueIds(s.timers, s.now))[i - n];
        }
      }
    }
  }

  lemma {:induction false} AlwaysInv(actions: seq<Action>)
    ensures Inv(After(actions))
  {
    if |actions| > 0 {
      var s, a := After(actions[..|actions| - 1]), actions[|actions| - 1];
      AlwaysInv(actions[..|actions| - 1]);
      NextEntries(s, a);
      NextEmissions(s, a);
      NextSpaced(s, a);
    }
  }

  // ---------- What that means for timers ----------

  /** A one-shot timer is emitted at most once. */
  lemma OneShotFiresOnce(actions: seq<Action>, i: nat, j: nat)
    requires var s := After(actions);
      i < |s.emitted| && j < |s.emitted| && s.emitted[i].id == s.emitted[j].id
      && s.emitted[i].id in s.timers && s.timers[s.emitted[i].id].interval.None?
    ensures i == j
  {
    AlwaysInv(actions);
    var s := After(actions);
    assert i < j ==> Spaced(s, s.emitted[i], s.emitted[j]);
    assert j < i ==> Spaced(s, s.emitted[j], s.emitted[i]);
  }

  /** Two emissions of an interval timer are at least one period apart. */
  lemma IntervalsAreSpaced(actions: seq<Action>, i: nat, j: nat, period: nat)
    requires var s := After(actions);
      i < j < |s.emitted| && s.emitted[i].id == s.emitted[j].id
      && s.emitted[i].id in s.timers && s.timers[s.emitted[i].id].interval == Some(period)
    ensures var s := After(actions); s.emitted[i].at + period <= s.emitted[j].at
  {
    AlwaysInv(actions);
    var s := After(actions);
    assert Spaced(s, s.emitted[i], s.emitted[j]);
  }

  /** No timer fires before the delay or period it was set with has passed. */
  lemma NeverEarly(actions: seq<Action>, i: nat)
    requires i < |After(actions).emitted|
    ensures var s := After(actions); var m := s.emitted[i];
      m.id in s.firstDue && s.firstDue[m.id] <= m.at <= s.now
  {
    AlwaysInv(actions);
    assert EmissionInv(After(actions), After(actions).emitted[i]);
  }

  /** Over any continuation of a run a timer only moves forward, and no emission is taken back. */
  lemma {:induction false} OnlyForward(actions: seq<Action>, more: seq<Action>, id: TimerId)
    requires id in After(actions).timers
    ensures var s, s' := After(actions), After(actions + more);
      && id in s'.timers && Forward(s.timers[id], s'.timers[id])
      && s.emitted <= s'.emitted
      && (!s.timers[id].active ==>
            forall i :: |s.emitted| <= i < |s'.emitted| ==> s'.emitted[i].id != id)
  {
    if |more| == 0 {
      assert actions + more == actions;
    } else {
      var n := |more| - 1;
      OnlyForward(actions, more[..n], id);
      assert (actions + more)[..|actions + more| - 1] == actions + more[..n];
      var s, m, a := After(actions), After(actions + more[..n]), more[n];
      AlwaysInv(actions + more[..n]);
      assert EntryInv(m, id);
      NextForward(m, a, id);
      NextEmitsOnlyActive(m, a, id);
    }
  }

  lemma NextEmitsOnlyActive(s: Loop, a: Action, id: TimerId)
    requires id in s.timers
    ensures s.emitted <= Next(s, a).emitted
    ensures !s.timers[id].active ==>
      forall i :: |s.emitted| <= i < |Next(s, a).emitted| ==> Next(s, a).emitted[i].id != id
  {
    forall i | |s.emitted| <= i < |Next(s, a).emitted| && !s.timers[id].active
      ensures Next(s, a).emitted[i].id != id
    {
      var e := Next(s, a).emitted[i];
      assert e in Emissions(Ascending(DueIds(s.timers, s.now)), s.now);
      FireEmits(s, e);
    }
  }

  /** A cleared timer is never emitted again. */
  lemma ClearedNeverFires(actions: seq<Action>, id: TimerId, more: seq<Action>, i: nat)
    requires id in After(actions).timers
    requires |After(actions).emitted| <= i < |After(actions + [Clear(id)] + more).emitted|
    ensures After(actions + [Clear(id)] + more).emitted[i].id != id
  {
    var cleared := actions + [Clear(id)];
    assert cleared[..|actions|] == actions;
    assert After(cleared) == Next(After(actions), Clear(id));
    OnlyForward(cleared, more, id);
  }

  /** After a fire pass the timers still due are exactly the zero-period intervals that were due. */
  lemma FirePassLeavesNothingDue(s: Loop, id: TimerId)
    ensures id in DueIds(Next(s, Fire).timers, s.now) <==>
      id in DueIds(s.timers, s.now) && s.timers[id].interval == Some(0)
  {
  }

  /**
   Until time moves on, whatever else is done, no timer that a fire pass has seen is due again,
   unless it is an interval of period zero.
   */
  lemma NothingDueUntilTimeMoves(actions: seq<Action>, more: seq<Action>, id: TimerId)
    requires id in After(actions).timers && After(actions).timers[id].interval != Some(0)
    requires After(actions + [Fire] + more).now == After(actions).now
    ensures id in After(actions + [Fire] + more).timers
    ensures !Due(After(actions + [Fire] + more).timers[id], After(actions).now)
  {
    var s, fired := After(actions), actions + [Fire];
    assert fired[..|actions|] == actions;
    assert After(fired) == Next(s, Fire);
    FirePassLeavesNothingDue(s, id);
    OnlyForward(fired, more, id);
  }

  /** A fire pass emits every due timer, once each, lowest id first, and no other. */
  lemma FirePassIsExact(s: Loop)
    ensures var fired := Next(s, Fire).emitted[|s.emitted|..];
      && (forall id :: Emission(id, s.now) in fired <==> id in DueIds(s.timers, s.now))
      && (forall m :: m in fired ==> m.at == s.now)
      && (forall i, j :: 0 <= i < j < |fired| ==> fired[i].id < fired[j].id)
  {
    var fired := Next(s, Fire).emitted[|s.emitted|..];
    AscendingLists(DueIds(s.timers, s.now));
    assert fired == Emissions(Ascending(DueIds(s.timers, s.now)), s.now);
    forall m ensures m in fired <==> m.at == s.now && m.id in s.timers && Due(s.timers[m.id], s.now) {
      FireEmits(s, m);
    }
  }

  // ---------- Timers do fire ----------

  lemma AfterSnoc(actions: seq<Action>, a: Action)
    ensures After(actions + [a]) == Next(After(actions), a)
  {
    assert (actions + [a])[..|actions|] == actions;
  }

  ghost predicate EmittedSince(s: Loop, s': Loop, id: TimerId) {
    exists k :: |s.emitted| <= k < |s'.emitted| && s'.emitted[k].id == id
  }

  /** Nothing but a fire pass, its own clearing and its own handling touches a timer. */
  lemma OthersAreUntouched(s: Loop, a: Action, id: TimerId)
    requires id in s.timers && EntryInv(s, id) && a != Clear(id) && a != Handle(id)
    requires a != Fire || !Due(s.timers[id], s.now)
    ensures id in Next(s, a).timers && Next(s, a).timers[id] == s.timers[id]
  {
  }

  lemma DueIsEmitted(s: Loop, id: TimerId)
    requires id in s.timers && s.timers[id].active && s.timers[id].deadline <= s.now
    ensures EmittedSince(s, Next(s, Fire), id)
  {
    FireEmits(s, Emission(id, s.now));
    var es := Emissions(Ascending(DueIds(s.timers, s.now)), s.now);
    var k :| 0 <= k < |es| && es[k] == Emission(id, s.now);
    assert Next(s, Fire).emitted[|s.emitted| + k].id == id;
  }

  lemma StaysEmitted(s: Loop, m: Loop, s': Loop, id: TimerId)
    requires EmittedSince(s, m, id) && m.emitted <= s'.emitted
    ensures EmittedSince(s, s', id)
  {
    var k :| |s.emitted| <= k < |m.emitted| && m.emitted[k].id == id;
    assert s'.emitted[k] == m.emitted[k];
  }

  lemma NextKeepsEmitted(s: Loop, a: Action)
    ensures s.emitted <= Next(s, a).emitted
  {
  }

  /** A timer that is not cleared or handled is as it was until a fire pass emits it. */
  lemma {:induction false} KeptUntilEmitted(actions: seq<Action>, more: seq<Action>, id: TimerId)
    requires id in After(actions).timers && Clear(id) !in more && Handle(id) !in more
    ensures var s, s' := After(actions), After(actions + more);
      EmittedSince(s, s', id) || (id in s'.timers && s'.timers[id] == s.timers[id])
  {
    if |more| == 0 {
      assert actions + more == actions;
    } else {
      var n := |more| - 1;
      var before := actions + more[..n];
      var s, m, a := After(actions), After(before), more[n];
      KeptUntilEmitted(actions, more[..n], id);
      OnlyForward(actions, more[..n], id);
      assert actions + more == before + [a];
      AfterSnoc(before, a);
      AlwaysInv(before);
      NextKeepsEmitted(m, a);
      if EmittedSince(s, m, id) {
        StaysEmitted(s, m, Next(m, a), id);
      } else if a == Fire && Due(m.timers[id], m.now) {
        DueIsEmitted(m, id);
        var k :| |m.emitted| <= k < |Next(m, a).emitted| && Next(m, a).emitted[k].id == id;
        assert |s.emitted| <= k;
      } else {
        OthersAreUntouched(m, a, id);
      }
    }
  }

  /**
   A timer that is active, and is not cleared or handled, has been emitted once a fire pass
   comes at or after its deadline, whatever happened to other timers in between.
   */
  lemma DueTimerHasFired(actions: seq<Action>, more: seq<Action>, id: TimerId)
    requires id in After(actions).timers && After(actions).timers[id].active
    requires Clear(id) !in more && Handle(id) !in more
    requires After(actions + more).now >= After(actions).timers[id].deadline
    ensures EmittedSince(After(actions), After(actions + more + [Fire]), id)
  {
    var s, m := After(actions), After(actions + more);
    KeptUntilEmitted(actions, more, id);
    OnlyForward(actions, more, id);
    AfterSnoc(actions + more, Fire);
    NextKeepsEmitted(m, Fire);
    if EmittedSince(s, m, id) {
      StaysEmitted(s, m, Next(m, Fire), id);
    } else {
      DueIsEmitted(m, id);
      var k :| |m.emitted| <= k < |Next(m, Fire).emitted| && Next(m, Fire).emitted[k].id == id;
      assert |s.emitted| <= k;
    }
  }

  /** A timeout that is not cleared or handled fires by the first fire pass after its delay, and only once. */
  lemma TimeoutFires(actions: seq<Action>, delay: nat, more: seq<Action>)
    requires var id := After(actions).nextId; Clear(id) !in more && Handle(id) !in more
    requires After(actions + [SetTimeout(delay)] + more).now >= After(actions).now + delay
    ensures
      var s := After(actions + [SetTimeout(delay)] + more + [Fire]);
      exists k :: 0 <= k < |s.emitted| && s.emitted[k].id == After(actions).nextId
        && forall j :: 0 <= j < |s.emitted| && s.emitted[j].id == After(actions).nextId ==> j == k
  {
    var begun, id := actions + [SetTimeout(delay)], After(actions).nextId;
    AfterSnoc(actions, SetTimeout(delay));
    assert After(begun).timers[id] == TimerEntry(After(actions).now + delay, None, true);
    DueTimerHasFired(begun, more, id);
    assert begun + (more + [Fire]) == begun + more + [Fire];
    OnlyForward(begun, more + [Fire], id);
    var s := After(begun + more + [Fire]);
    var k :| |After(begun).emitted| <= k < |s.emitted| && s.emitted[k].id == id;
    forall j | 0 <= j < |s.emitted| && s.emitted[j].id == id ensures j == k {
      OneShotFiresOnce(begun + more + [Fire], j, k);
    }
  }

  /** A new interval is active, and due one period from now. */
  lemma IntervalStarts(actions: seq<Action>, period: nat)
    ensures var s, id := After(actions + [SetInterval(period)]), After(actions).nextId;
      id in s.timers && s.timers[id] == TimerEntry(After(actions).now + period, Some(period), true)
  {
    AfterSnoc(actions, SetInterval(period));
  }

  /** An active interval fires in every stretch of a period or longer, by the first fire pass after it. */
  lemma IntervalKeepsFiring(actions: seq<Action>, more: seq<Action>, id: TimerId, period: nat)
    requires id in After(actions).timers && After(actions).timers[id].active
    requires After(actions).timers[id].interval == Some(period)
    requires Clear(id) !in more && Handle(id) !in more
    requires After(actions + more).now >= After(actions).now + period
    ensures EmittedSince(After(actions), After(actions + more + [Fire]), id)
  {
    AlwaysInv(actions);
    assert EntryInv(After(actions), id);
    DueTimerHasFired(actions, more, id);
  }

  /** An interval that is not cleared stays active, with its next deadline at most one period away. */
  lemma {:induction false} IntervalStaysActive(actions: seq<Action>, more: seq<Action>, id: TimerId)
    requires id in After(actions).timers && After(actions).timers[id].active && After(actions).timers[id].interval.Some?
    requires Clear(id) !in more
    ensures var s, s' := After(actions), After(actions + more);
      && id in s'.timers && s'.timers[id].active && s'.timers[id].interval == s.timers[id].interval
      && s'.timers[id].deadline <= s'.now + s.timers[id].interval.value
  {
    if |more| == 0 {
      assert actions + more == actions;
      AlwaysInv(actions);
    } else {
      var n := |more| - 1;
      IntervalStaysActive(actions, more[..n], id);
      assert actions + more == (actions + more[..n]) + [more[n]];
      AfterSnoc(actions + more[..n], more[n]);
      AlwaysInv(actions + more[..n]);
      AlwaysInv(actions + more);
      StaysActive(After(actions + more[..n]), more[n], id);
      assert EntryInv(After(actions + more), id);
    }
  }

  lemma StaysActive(s: Loop, a: Action, id: TimerId)
    requires id in s.timers && EntryInv(s, id) && s.timers[id].active && s.timers[id].interval.Some? && a != Clear(id)
    ensures id in Next(s, a).timers && Next(s, a).timers[id].active
    ensures Next(s, a).timers[id].interval == s.timers[id].interval
  {
  }

  /** When the loop handles an active interval's task, the interval starts anew; other timers do not move. */
  lemma HandlingRestarts(s: Loop, id: TimerId, other: TimerId, period: nat)
    requires id in s.timers && s.timers[id].active && s.timers[id].interval == Some(period)
    requires other in s.timers && other != id
    ensures Next(s, Handle(id)).timers[id] == TimerEntry(s.now + period, Some(period), true)
    ensures other in Next(s, Handle(id)).timers && Next(s, Handle(id)).timers[other] == s.timers[other]
  {
  }
}
