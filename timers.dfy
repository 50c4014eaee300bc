/**
  The `Timer` class of TimerManager.cs: a countdown that can be paused,
  resumed, looped or stopped, and the static registry `MyTimers` that the
  frame driver walks once per frame.

  The clock `Time.realtimeSinceStartup` is the parameter `now`. Handlers
  are opaque tokens; invoking the update or complete event is recorded as
  one `Event` per handler of the invocation list, in list order, and the
  events are returned to the caller instead of being run. The static list
  is the field `timers` of one `TimerRegistry` object.
 */
module Timers {
  import opened Lists
  import opened Wrappers

  /** A registered delegate, compared by identity. */
  type Handler = nat

  /** One handler invocation: an update handler given the progress, or a complete handler. */
  datatype Event = Progress(handler: Handler, progress: real) | Completed(handler: Handler)

  /**
    The mutable part of a timer: duration `time` (`_time`), start of the
    current run `cachedTime`, elapsed time at the last update `timePassed`,
    the two flags, and the invocation lists of the two events (empty for a
    null delegate).
   */
  datatype TimerState = TimerState(time: real, cachedTime: real, timePassed: real,
                                   isFinish: bool, isPause: bool,
                                   updateEvent: seq<Handler>, completeEvent: seq<Handler>)

  /** The state the constructor leaves: started at `now`, nothing elapsed, no handlers. */
  function Started(time: real, now: real): (s: TimerState)
    ensures !s.isFinish && !s.isPause && s.updateEvent == [] && s.completeEvent == []
    ensures s.time == time && now - s.cachedTime == s.timePassed == 0.0
  {
    TimerState(time, now, 0.0, false, false, [], [])
  }

  /** `Mathf.Clamp01`. */
  function Clamp01(x: real): (r: real)
    ensures 0.0 <= r <= 1.0
    ensures 0.0 <= x <= 1.0 ==> r == x
    ensures x < 0.0 ==> r == 0.0
    ensures x > 1.0 ==> r == 1.0
  {
    if x < 0.0 then 0.0 else if x > 1.0 then 1.0 else x
  }

  /**
    The value `Update` passes to the update handlers, `Clamp01(passed / time)`.
    A zero duration divides by zero in floating point: a positive elapsed time
    gives +infinity (clamped to 1), a negative one -infinity (clamped to 0).
   */
  function Fraction(passed: real, time: real): (p: real)
    ensures 0.0 <= p <= 1.0
    ensures time > 0.0 && passed >= time ==> p == 1.0
    ensures time > 0.0 && passed <= 0.0 ==> p == 0.0
    ensures time > 0.0 && 0.0 <= passed <= time ==> p == passed / time
  {
    if time == 0.0 then (if passed > 0.0 then 1.0 else 0.0)
    else Clamp01(passed / time)
  }

  /** Invoking the update event: each handler in list order, all with progress p. */
  function UpdateEvents(hs: seq<Handler>, p: real): (es: seq<Event>)
    ensures |es| == |hs|
    ensures forall k | 0 <= k < |es| :: es[k] == Progress(hs[k], p)
  {
    if hs == [] then [] else [Progress(hs[0], p)] + UpdateEvents(hs[1..], p)
  }

  /** Invoking the complete event: each handler in list order. */
  function CompleteEvents(hs: seq<Handler>): (es: seq<Event>)
    ensures |es| == |hs|
    ensures forall k | 0 <= k < |es| :: es[k] == Completed(hs[k])
  {
    if hs == [] then [] else [Completed(hs[0])] + CompleteEvents(hs[1..])
  }

  /** `Stop` on the timer's own state: finished, not paused, duration -1, both events cleared. */
  function Stopped(s: TimerState): (r: TimerState)
    ensures r.isFinish && !r.isPause && r.time == -1.0
    ensures r.updateEvent == [] && r.completeEvent == []
    ensures r.cachedTime == s.cachedTime && r.timePassed == s.timePassed
  {
    s.(time := -1.0, isFinish := true, isPause := false, updateEvent := [], completeEvent := [])
  }

  /** `Pause`: a finished timer only logs; any other timer becomes paused. */
  function Paused(s: TimerState): (r: TimerState)
    ensures s.isFinish ==> r == s
    ensures !s.isFinish ==> r.isPause && r.(isPause := s.isPause) == s
  {
    if s.isFinish then s else s.(isPause := true)
  }

  /**
    `Resum` at `now`: only a paused, unfinished timer changes; it restarts so
    that the time elapsed before the pause still counts.
   */
  function Resumed(s: TimerState, now: real): (r: TimerState)
    ensures s.isFinish || !s.isPause ==> r == s
    ensures !s.isFinish && s.isPause ==> !r.isPause && now - r.cachedTime == s.timePassed
    ensures r.(cachedTime := s.cachedTime, isPause := s.isPause) == s
  {
    if s.isFinish then s
    else if s.isPause then s.(cachedTime := now - s.timePassed, isPause := false)
    else s
  }

  /**
    `Update` at `now`: the new state and the events fired. A finished or
    paused timer is left alone. Otherwise the elapsed time is refreshed, the
    update handlers get the clamped progress, and once the duration is
    reached the complete handlers fire and the timer restarts (looping) or
    stops.
   */
  function Step(s: TimerState, loop: bool, now: real): (r: (TimerState, seq<Event>))
    ensures s.isFinish || s.isPause ==> r == (s, [])
    ensures forall e | e in r.1 && e.Progress? :: 0.0 <= e.progress <= 1.0
    ensures r.0.isFinish ==> s.isFinish || (!loop && now - s.cachedTime >= s.time)
  {
    if s.isFinish || s.isPause then (s, [])
    else
      var passed := now - s.cachedTime;
      var ups := UpdateEvents(s.updateEvent, Fraction(passed, s.time));
      if passed >= s.time then
        var done := ups + CompleteEvents(s.completeEvent);
        if loop then (s.(timePassed := passed, cachedTime := now), done)
        else (Stopped(s.(timePassed := passed)), done)
      else (s.(timePassed := passed), ups)
  }

  /** Whether `Update` at `now` stops the timer (and so removes it from the registry). */
  function Expires(s: TimerState, loop: bool, now: real): bool
  {
    !s.isFinish && Step(s, loop, now).0.isFinish
  }

  /**
    A running timer that has not reached its duration reports exactly the
    elapsed fraction to each update handler and nothing else; one that has
    reached it reports progress 1 (for a positive duration) and then fires
    every complete handler, in order.
   */
  lemma StepEvents(s: TimerState, loop: bool, now: real)
    requires !s.isFinish && !s.isPause
    ensures var (s', es) := Step(s, loop, now);
      var passed := now - s.cachedTime;
      s'.timePassed == passed &&
      (passed < s.time ==> es == UpdateEvents(s.updateEvent, Fraction(passed, s.time)) && s' == s.(timePassed := passed)) &&
      (passed >= s.time ==> es == UpdateEvents(s.updateEvent, Fraction(passed, s.time)) + CompleteEvents(s.completeEvent)) &&
      (passed >= s.time && s.time > 0.0 ==> forall e | e in es && e.Progress? :: e.progress == 1.0)
  {
  }

  /**
    Once the duration is reached, a looping timer restarts at `now` and stays
    running with its handlers; a one-shot timer is stopped.
   */
  lemma StepAtDeadline(s: TimerState, loop: bool, now: real)
    requires !s.isFinish && !s.isPause && now - s.cachedTime >= s.time
    ensures var s' := Step(s, loop, now).0;
      if loop then s' == s.(timePassed := now - s.cachedTime, cachedTime := now)
      else s' == Stopped(s.(timePassed := now - s.cachedTime))
  {
  }

  /** A stopped timer is inert: no update, pause or resume changes it, and updates fire nothing. */
  lemma StoppedIsFinal(s: TimerState, loop: bool, now: real)
    ensures var f := Stopped(s);
      Step(f, loop, now) == (f, []) && Paused(f) == f && Resumed(f, now) == f
  {
  }

  /** A one-shot timer fires its complete handlers at most once: after they fire, further updates fire nothing. */
  lemma CompletesOnce(s: TimerState, now: real, later: real)
    requires !s.isFinish && !s.isPause && now - s.cachedTime >= s.time
    ensures var s' := Step(s, false, now).0;
      s'.isFinish && Step(s', false, later) == (s', [])
  {
  }

  /**
    Pausing at t1 and resuming at t2 leaves the pause out of the elapsed
    time: an update at t3 sees (t1 - start) + (t3 - t2), where t1 - start is
    the time the update at t1 measured.
   */
  lemma PauseExcludesPausedTime(s: TimerState, loop: bool, t1: real, t2: real, t3: real)
    requires !s.isFinish && !s.isPause && t1 - s.cachedTime < s.time
    ensures var a := Step(s, loop, t1).0;
      var b := Resumed(Paused(a), t2);
      Step(b, loop, t3).0.timePassed == (t1 - s.cachedTime) + (t3 - t2)
  {
    var a := Step(s, loop, t1).0;
    assert a == s.(timePassed := t1 - s.cachedTime);
    var b := Resumed(Paused(a), t2);
    assert b.cachedTime == t2 - (t1 - s.cachedTime) && !b.isPause && !b.isFinish;
  }

  /** A looping timer is never stopped by `Update`. */
  lemma LoopNeverExpires(s: TimerState, now: real)
    ensures !Expires(s, true, now)
  {
  }

  /** `AddEvent`: add the handler unless it is already in the invocation list. */
  function AddHandler(hs: seq<Handler>, h: Handler): (r: seq<Handler>)
    ensures h in r && (set x | x in r) == (set x | x in hs) + {h}
    ensures h in hs ==> r == hs
    ensures h !in hs ==> r == hs + [h]
  {
    if hs == [] then [h]
    else if h in hs then hs
    else hs + [h]
  }

  /** Invocation lists built by `AddEvent` never hold a handler twice. */
  lemma AddHandlerNoDup(hs: seq<Handler>, h: Handler)
    requires NoDup(hs)
    ensures NoDup(AddHandler(hs, h))
  {
    if h !in hs {
      NoDupAppend(hs, h);
    }
  }

  /** The first timer of ts whose flag is `flag` (`List.Find`). */
  function FindFlag(ts: seq<Timer>, flag: string): (r: Option<nat>)
    ensures r.Some? ==> r.value < |ts| && ts[r.value].flag == flag && forall k | 0 <= k < r.value :: ts[k].flag != flag
    ensures r.None? <==> forall k | 0 <= k < |ts| :: ts[k].flag != flag
  {
    if ts == [] then None
    else if ts[0].flag == flag then Some(0)
    else match FindFlag(ts[1..], flag)
      case None => None
      case Some(k) => Some(k + 1)
  }

  /**
    Which timers of the registry `UpdateAllTimer` updates, given which of
    them stop when updated (ex). The walk moves forward by index over a list
    from which a stopping timer removes itself, so the timer right after a
    stopping one slides into the visited slot and is passed over.
   */
  function Schedule(ex: seq<bool>): (visit: seq<bool>)
    ensures |visit| == |ex|
  {
    if ex == [] then []
    else if ex[0] && |ex| >= 2 then [true, false] + Schedule(ex[2..])
    else [true] + Schedule(ex[1..])
  }

  /** The walk visits the first timer; it passes over exactly the timers that follow a visited, stopping one. */
  lemma {:induction false} ScheduleSkips(ex: seq<bool>, k: nat)
    requires k < |ex|
    ensures Schedule(ex)[k] <==> k == 0 || !(Schedule(ex)[k - 1] && ex[k - 1])
    decreases |ex|
  {
    if ex[0] && |ex| >= 2 {
      if k >= 2 {
        ScheduleSkips(ex[2..], k - 2);
        if k >= 3 {
          assert Schedule(ex)[k - 1] == Schedule(ex[2..])[k - 3];
        } else {
          ScheduleFirst(ex[2..]);
        }
      }
    } else if k >= 1 {
      ScheduleSkips(ex[1..], k - 1);
      if k >= 2 {
        assert Schedule(ex)[k - 1] == Schedule(ex[1..])[k - 2];
      } else {
        ScheduleFirst(ex[1..]);
      }
    }
  }

  lemma ScheduleFirst(ex: seq<bool>)
    requires |ex| > 0
    ensures Schedule(ex)[0]
  {
  }

  /** When no timer stops, every timer is updated. */
  lemma {:induction false} ScheduleAllWhenNoneStop(ex: seq<bool>)
    requires forall k | 0 <= k < |ex| :: !ex[k]
    ensures forall k | 0 <= k < |ex| :: Schedule(ex)[k]
    decreases |ex|
  {
    if ex != [] {
      ScheduleAllWhenNoneStop(ex[1..]);
    }
  }

  /** The timers that stay registered after the walk: all but the visited ones that stop. */
  function Survivors<T>(ts: seq<T>, ex: seq<bool>, visit: seq<bool>): (r: seq<T>)
    requires |ex| == |visit| == |ts|
    ensures |r| <= |ts|
  {
    if ts == [] then []
    else
      var init := Survivors(ts[..|ts| - 1], ex[..|ex| - 1], visit[..|visit| - 1]);
      if visit[|ts| - 1] && ex[|ts| - 1] then init else init + [ts[|ts| - 1]]
  }

  /** The events of the walk: those of each visited timer, in registry order. */
  function Fired(st: seq<TimerState>, loops: seq<bool>, visit: seq<bool>, now: real): (es: seq<Event>)
    requires |loops| == |visit| == |st|
  {
    if st == [] then []
    else
      var n := |st| - 1;
      Fired(st[..n], loops[..n], visit[..n], now) + (if visit[n] then Step(st[n], loops[n], now).1 else [])
  }

  /** Survivors of a prefix extended by one timer. */
  lemma SurvivorsSnoc<T>(ts: seq<T>, ex: seq<bool>, visit: seq<bool>, j: nat)
    requires |ex| == |visit| == |ts| && j < |ts|
    ensures Survivors(ts[..j + 1], ex[..j + 1], visit[..j + 1]) ==
      Survivors(ts[..j], ex[..j], visit[..j]) + (if visit[j] && ex[j] then [] else [ts[j]])
  {
    assert ts[..j + 1][..j] == ts[..j] && ex[..j + 1][..j] == ex[..j] && visit[..j + 1][..j] == visit[..j];
  }

  /** Events of a prefix extended by one timer. */
  lemma FiredSnoc(st: seq<TimerState>, loops: seq<bool>, visit: seq<bool>, now: real, j: nat)
    requires |loops| == |visit| == |st| && j < |st|
    ensures Fired(st[..j + 1], loops[..j + 1], visit[..j + 1], now) ==
      Fired(st[..j], loops[..j], visit[..j], now) + (if visit[j] then Step(st[j], loops[j], now).1 else [])
  {
    assert st[..j + 1][..j] == st[..j] && loops[..j + 1][..j] == loops[..j] && visit[..j + 1][..j] == visit[..j];
  }

  /**
    Where the walk of `UpdateAllTimer` stands: it has dealt with the first j
    timers of the original list orig, the live list is the survivors among
    them followed by the rest of orig, and the index i points at orig[j]
    (or past the end once orig is done).
   */
  ghost predicate WalkAt<T>(orig: seq<T>, ex: seq<bool>, visit: seq<bool>, j: nat, live: seq<T>, i: nat)
  {
    |ex| == |visit| == |orig| && j <= |orig| && Schedule(ex[j..]) == visit[j..] &&
    live == Survivors(orig[..j], ex[..j], visit[..j]) + orig[j..] &&
    (j < |orig| ==> i == |Survivors(orig[..j], ex[..j], visit[..j])|) &&
    (j == |orig| ==> i >= |live|)
  }

  /**
    One step of the walk: the timer at i is orig[j] and is visited; if it
    stops it leaves the list and the walk passes over orig[j + 1].
   */
  lemma WalkAdvance<T>(orig: seq<T>, ex: seq<bool>, visit: seq<bool>, j: nat, live: seq<T>, i: nat)
    requires WalkAt(orig, ex, visit, j, live, i) && i < |live| && NoDup(live)
    ensures j < |orig| && live[i] == orig[j] && visit[j]
    ensures ex[j] && j + 1 < |orig| ==> !visit[j + 1]
    ensures var live' := if ex[j] then live[..i] + live[i + 1..] else live;
      WalkAt(orig, ex, visit, if ex[j] && j + 1 < |orig| then j + 2 else j + 1, live', i + 1)
  {
    assert j < |orig| && live[i] == orig[j];
    assert ex[j..][0] == ex[j] && visit[j..][0] == visit[j];
    ScheduleFirst(ex[j..]);
    if ex[j] {
      if j + 1 < |orig| {
        WalkDropSkip(orig, ex, visit, j, live, i);
      } else {
        WalkDropLast(orig, ex, visit, j, live, i);
      }
    } else {
      WalkKeep(orig, ex, visit, j, live, i);
    }
  }

  lemma WalkKeep<T>(orig: seq<T>, ex: seq<bool>, visit: seq<bool>, j: nat, live: seq<T>, i: nat)
    requires WalkAt(orig, ex, visit, j, live, i) && i < |live| && !ex[j]
    ensures WalkAt(orig, ex, visit, j + 1, live, i + 1)
  {
    var pre := Survivors(orig[..j], ex[..j], visit[..j]);
    assert Schedule(ex[j..]) == [true] + Schedule(ex[j..][1..]);
    assert ex[j..][1..] == ex[j + 1..] && visit[j..][1..] == visit[j + 1..];
    SurvivorsSnoc(orig, ex, visit, j);
    assert Survivors(orig[..j + 1], ex[..j + 1], visit[..j + 1]) == pre + [orig[j]];
    assert orig[j..] == [orig[j]] + orig[j + 1..];
  }

  lemma WalkDropLast<T>(orig: seq<T>, ex: seq<bool>, visit: seq<bool>, j: nat, live: seq<T>, i: nat)
    requires WalkAt(orig, ex, visit, j, live, i) && i < |live| && ex[j] && j + 1 == |orig| && visit[j]
    ensures WalkAt(orig, ex, visit, j + 1, live[..i] + live[i + 1..], i + 1)
  {
    var pre := Survivors(orig[..j], ex[..j], visit[..j]);
    SurvivorsSnoc(orig, ex, visit, j);
    assert live[..i] == pre && live[i + 1..] == [];
  }

  lemma WalkDropSkip<T>(orig: seq<T>, ex: seq<bool>, visit: seq<bool>, j: nat, live: seq<T>, i: nat)
    requires WalkAt(orig, ex, visit, j, live, i) && i < |live| && ex[j] && j + 1 < |orig| && visit[j]
    ensures !visit[j + 1]
    ensures WalkAt(orig, ex, visit, j + 2, live[..i] + live[i + 1..], i + 1)
  {
    var pre := Survivors(orig[..j], ex[..j], visit[..j]);
    assert Schedule(ex[j..]) == [true, false] + Schedule(ex[j..][2..]);
    assert ex[j..][2..] == ex[j + 2..] && visit[j..][1] == visit[j + 1] && visit[j..][2..] == visit[j + 2..];
    SurvivorsSnoc(orig, ex, visit, j);
    SurvivorsSnoc(orig, ex, visit, j + 1);
    assert Survivors(orig[..j + 2], ex[..j + 2], visit[..j + 2]) == pre + [orig[j + 1]];
    assert live == pre + orig[j..] && i == |pre|;
    assert live[..i] == pre;
    assert live[i + 1..] == orig[j + 1..];
    assert orig[j + 1..] == [orig[j + 1]] + orig[j + 2..];
  }

  /** When the index has run off the live list, the walk has dealt with every timer. */
  lemma WalkEnd<T>(orig: seq<T>, ex: seq<bool>, visit: seq<bool>, j: nat, live: seq<T>, i: nat)
    requires WalkAt(orig, ex, visit, j, live, i) && i >= |live|
    ensures j == |orig| && live == Survivors(orig, ex, visit)
  {
    assert orig[..|orig|] == orig && ex[..|orig|] == ex && visit[..|orig|] == visit;
  }

  lemma FiredWhole(st: seq<TimerState>, loops: seq<bool>, visit: seq<bool>, now: real)
    requires |loops| == |visit| == |st|
    ensures Fired(st[..|st|], loops[..|st|], visit[..|st|], now) == Fired(st, loops, visit, now)
  {
    assert st[..|st|] == st && loops[..|st|] == loops && visit[..|st|] == visit;
  }

  /** The events after one step of the walk (a passed-over timer adds none). */
  lemma FiredAdvance(st: seq<TimerState>, loops: seq<bool>, visit: seq<bool>, now: real, j: nat, skip: bool)
    requires |loops| == |visit| == |st| && j < |st| && visit[j]
    requires skip ==> j + 1 < |st| && !visit[j + 1]
    ensures var j' := if skip then j + 2 else j + 1;
      Fired(st[..j'], loops[..j'], visit[..j'], now) == Fired(st[..j], loops[..j], visit[..j], now) + Step(st[j], loops[j], now).1
  {
    FiredSnoc(st, loops, visit, now, j);
    if skip {
      FiredSnoc(st, loops, visit, now, j + 1);
    }
  }

  /**
    The states cur of the timers of the walk: those before position j have
    taken their `Step` if the walk visited them and are untouched otherwise;
    those from j on are untouched.
   */
  ghost predicate HandledAt(cur: seq<TimerState>, st: seq<TimerState>, loops: seq<bool>, visit: seq<bool>, j: nat, now: real)
    requires |st| == |loops| == |visit|
  {
    |cur| == |st| &&
    (forall k | 0 <= k < j && k < |st| :: cur[k] == if visit[k] then Step(st[k], loops[k], now).0 else st[k]) &&
    (forall k | j <= k < |st| :: cur[k] == st[k])
  }

  /** The walk's progress as it stands in the heap. */
  ghost predicate Handled(orig: seq<Timer>, st: seq<TimerState>, loops: seq<bool>, visit: seq<bool>, j: nat, now: real)
    requires |st| == |loops| == |visit| == |orig|
    reads set t | t in orig
  {
    HandledAt(States(orig), st, loops, visit, j, now)
  }

  /** Visiting the timer at j replaces its state by its `Step`; a passed-over timer keeps its state. */
  lemma HandledAdvance(cur: seq<TimerState>, st: seq<TimerState>, loops: seq<bool>, visit: seq<bool>, j: nat, now: real, skip: bool)
    requires |st| == |loops| == |visit| && j < |st| && visit[j] && HandledAt(cur, st, loops, visit, j, now)
    requires skip ==> j + 1 < |st| && !visit[j + 1]
    ensures HandledAt(cur[j := Step(st[j], loops[j], now).0], st, loops, visit, if skip then j + 2 else j + 1, now)
  {
  }

  /** Once the walk has passed every timer, each visited timer has taken its `Step` and the others are untouched. */
  lemma HandledAll(orig: seq<Timer>, st: seq<TimerState>, loops: seq<bool>, visit: seq<bool>, now: real)
    requires |st| == |loops| == |visit| == |orig| && Handled(orig, st, loops, visit, |orig|, now)
    ensures States(orig) == Stepped(st, loops, visit, now)
  {
  }

  /** The states after the walk: a visited timer's `Step`, the old state otherwise. */
  function Stepped(st: seq<TimerState>, loops: seq<bool>, visit: seq<bool>, now: real): (r: seq<TimerState>)
    requires |st| == |loops| == |visit|
    ensures |r| == |st| && forall k | 0 <= k < |st| :: r[k] == if visit[k] then Step(st[k], loops[k], now).0 else st[k]
  {
    if st == [] then []
    else [if visit[0] then Step(st[0], loops[0], now).0 else st[0]] + Stepped(st[1..], loops[1..], visit[1..], now)
  }

  /** The states of a list of timers. */
  ghost function States(ts: seq<Timer>): (r: seq<TimerState>)
    reads set t | t in ts
    ensures |r| == |ts| && forall k | 0 <= k < |ts| :: r[k] == ts[k].State()
  {
    if ts == [] then [] else [ts[0].State()] + States(ts[1..])
  }

  /** Which of the timers loop. */
  function Loops(ts: seq<Timer>): (r: seq<bool>)
    ensures |r| == |ts| && forall k | 0 <= k < |ts| :: r[k] == ts[k].loop
  {
    if ts == [] then [] else [ts[0].loop] + Loops(ts[1..])
  }

  /** Which of the timers stop if updated at `now`. */
  function Expiring(st: seq<TimerState>, loops: seq<bool>, now: real): (ex: seq<bool>)
    requires |loops| == |st|
    ensures |ex| == |st| && forall k | 0 <= k < |st| :: ex[k] == Expires(st[k], loops[k], now)
  {
    if st == [] then [] else [Expires(st[0], loops[0], now)] + Expiring(st[1..], loops[1..], now)
  }

  class Timer {
    const flag: string
    const loop: bool
    var time: real
    var cachedTime: real
    var timePassed: real
    var isFinish: bool
    var isPause: bool
    var updateEvent: seq<Handler>
    var completeEvent: seq<Handler>

    function State(): TimerState
      reads this
    {
      TimerState(time, cachedTime, timePassed, isFinish, isPause, updateEvent, completeEvent)
    }

    /** The private constructor; a duplicate flag is only reported, never refused. */
    constructor (time: real, flag: string, loop: bool, now: real)
      ensures State() == Started(time, now) && this.flag == flag && this.loop == loop
    {
      this.time := time;
      this.loop := loop;
      cachedTime := now;
      timePassed := 0.0;
      isFinish := false;
      isPause := false;
      updateEvent := [];
      completeEvent := [];
      this.flag := flag;
    }

    method Pause()
      modifies this
      ensures State() == Paused(old(State()))
    {
      if !isFinish {
        isPause := true;
      }
    }

    method Resum(now: real)
      modifies this
      ensures State() == Resumed(old(State()), now)
    {
      if !isFinish {
        if isPause {
          cachedTime := now - timePassed;
          isPause := false;
        }
      }
    }

    /** Remove this timer from the registry and reset it. */
    method Stop(reg: TimerRegistry)
      modifies this, reg`timers
      ensures State() == Stopped(old(State()))
      ensures reg.timers == RemoveFirst(old(reg.timers), this)
    {
      if this in reg.timers {
        reg.timers := RemoveFirst(reg.timers, this);
      }
      time := -1.0;
      isFinish := true;
      isPause := false;
      updateEvent := [];
      completeEvent := [];
    }

    method Update(now: real, reg: TimerRegistry) returns (events: seq<Event>)
      modifies this, reg`timers
      ensures (State(), events) == Step(old(State()), loop, now)
      ensures reg.timers == if Expires(old(State()), loop, now) then RemoveFirst(old(reg.timers), this) else old(reg.timers)
    {
      events := [];
      if !isFinish && !isPause {
        ghost var s := State();
        timePassed := now - cachedTime;
        if updateEvent != [] {
          events := events + UpdateEvents(updateEvent, Fraction(timePassed, time));
        }
        assert events == UpdateEvents(s.updateEvent, Fraction(now - s.cachedTime, s.time));
        if timePassed >= time {
          if completeEvent != [] {
            events := events + CompleteEvents(completeEvent);
          }
          assert events == UpdateEvents(s.updateEvent, Fraction(now - s.cachedTime, s.time)) + CompleteEvents(s.completeEvent);
          if loop {
            cachedTime := now;
          } else {
            Stop(reg);
          }
        }
      }
    }

    /** `AddEvent(TimerEndHandler)`. */
    method AddCompleteEvent(h: Handler)
      modifies this`completeEvent
      ensures completeEvent == AddHandler(old(completeEvent), h)
    {
      if completeEvent == [] {
        completeEvent := [h];
      } else if h !in completeEvent {
        completeEvent := completeEvent + [h];
      }
    }

    /** `AddEvent(TimerUpdateHandler<float>)`. */
    method AddUpdateEvent(h: Handler)
      modifies this`updateEvent
      ensures updateEvent == AddHandler(old(updateEvent), h)
    {
      if updateEvent == [] {
        updateEvent := [h];
      } else if h !in updateEvent {
        updateEvent := updateEvent + [h];
      }
    }
  }

  /** The static list `MyTimers` and the static members that work on it. */
  class TimerRegistry {
    var timers: seq<Timer>

    /** Each registered timer appears once and is still running (stopping unregisters it). */
    ghost predicate Valid()
      reads this, timers
    {
      NoDup(timers) && forall t | t in timers :: !t.isFinish
    }

    constructor ()
      ensures timers == [] && Valid()
    {
      timers := [];
    }

    /** `AddTimer`: register a fresh timer, even when its flag is taken. */
    method AddTimer(time: real, flag: string, loop: bool, now: real) returns (timer: Timer)
      requires Valid()
      modifies this
      ensures fresh(timer) && timers == old(timers) + [timer] && Valid()
      ensures timer.State() == Started(time, now) && timer.flag == flag && timer.loop == loop
    {
      timer := new Timer(time, flag, loop, now);
      NoDupAppend(timers, timer);
      timers := timers + [timer];
    }

    /** `Exist(string)`. */
    function Exist(flag: string): (r: bool)
      reads this
      ensures r <==> exists k | 0 <= k < |timers| :: timers[k].flag == flag
    {
      FindFlag(timers, flag).Some?
    }

    /** `Exist(Timer)`. */
    function ExistTimer(timer: Timer): (r: bool)
      reads this
      ensures r <==> exists k | 0 <= k < |timers| :: timers[k] == timer
    {
      timer in timers
    }

    /** `GetTimer`: the first registered timer with the flag, or none. */
    function GetTimer(flag: string): (r: Option<Timer>)
      reads this
      ensures r.None? <==> !Exist(flag)
      ensures r.Some? ==> r.value.flag == flag
      ensures r.Some? ==> exists k | 0 <= k < |timers| :: timers[k] == r.value && forall j | 0 <= j < k :: timers[j].flag != flag
    {
      match FindFlag(timers, flag)
      case None => None
      case Some(k) => Some(timers[k])
    }

    /** `Pause(string)`. */
    method PauseFlag(flag: string)
      modifies if GetTimer(flag).Some? then {GetTimer(flag).value} else {}
      ensures GetTimer(flag).Some? ==> GetTimer(flag).value.State() == Paused(old(GetTimer(flag).value.State()))
      ensures old(Valid()) ==> Valid()
    {
      var timer := GetTimer(flag);
      if timer.Some? {
        timer.value.Pause();
      }
    }

    /** `Pause(Timer)`. */
    method PauseTimer(timer: Timer)
      modifies timer
      ensures timer.State() == if timer in timers then Paused(old(timer.State())) else old(timer.State())
      ensures old(Valid()) ==> Valid()
    {
      if ExistTimer(timer) {
        timer.Pause();
      }
    }

    /** `Resum(string)`. */
    method ResumFlag(flag: string, now: real)
      modifies if GetTimer(flag).Some? then {GetTimer(flag).value} else {}
      ensures GetTimer(flag).Some? ==> GetTimer(flag).value.State() == Resumed(old(GetTimer(flag).value.State()), now)
      ensures old(Valid()) ==> Valid()
    {
      var timer := GetTimer(flag);
      if timer.Some? {
        timer.value.Resum(now);
      }
    }

    /** `Resum(Timer)`. */
    method ResumTimer(timer: Timer, now: real)
      modifies timer
      ensures timer.State() == if timer in timers then Resumed(old(timer.State()), now) else old(timer.State())
      ensures old(Valid()) ==> Valid()
    {
      if ExistTimer(timer) {
        timer.Resum(now);
      }
    }

    /** `Delete(string)`: stop the first timer with the flag, which unregisters it. */
    method DeleteFlag(flag: string)
      requires Valid()
      modifies this, if GetTimer(flag).Some? then {GetTimer(flag).value} else {}
      ensures Valid()
      ensures old(GetTimer(flag)).Some? ==>
        var t := old(GetTimer(flag)).value;
        t.State() == Stopped(old(t.State())) && timers == RemoveFirst(old(timers), t) && t !in timers
      ensures old(GetTimer(flag)).None? ==> timers == old(timers)
    {
      var timer := GetTimer(flag);
      if timer.Some? {
        RemoveFirstGone(timers, timer.value);
        timer.value.Stop(this);
      }
    }

    /** `Delete(Timer)`. */
    method DeleteTimer(timer: Timer)
      requires Valid()
      modifies this, timer
      ensures Valid()
      ensures old(timer in timers) ==> timer.State() == Stopped(old(timer.State())) && timers == RemoveFirst(old(timers), timer)
      ensures timer !in timers
      ensures old(timer !in timers) ==> timers == old(timers) && timer.State() == old(timer.State())
    {
      if ExistTimer(timer) {
        RemoveFirstGone(timers, timer);
        timer.Stop(this);
      }
    }

    /**
      `UpdateAllTimer` at `now`: a forward walk by index over the live list,
      updating each timer it lands on. The registry keeps exactly the timers
      that were not stopped, every visited timer takes its `Step`, the others
      are untouched, and the events are those of the visited timers in order.
     */
    method UpdateAllTimer(now: real) returns (events: seq<Event>)
      requires Valid()
      modifies this, timers
      ensures Valid()
      ensures var ts := old(timers);
        var st := old(States(timers));
        var loops := Loops(ts);
        var ex := Expiring(st, loops, now);
        var visit := Schedule(ex);
        timers == Survivors(ts, ex, visit) && events == Fired(st, loops, visit, now) &&
        States(ts) == Stepped(st, loops, visit, now)
    {
      ghost var orig := timers;
      ghost var st := States(timers);
      ghost var loops := Loops(orig);
      ghost var ex := Expiring(st, loops, now);
      ghost var visit := Schedule(ex);
      ghost var n := |orig|;
      events := [];
      var i := 0;
      ghost var j := 0;
      assert orig[..0] == [] && orig[0..] == orig && ex[0..] == ex && visit[0..] == visit;
      assert NoDup(orig);
      while i < |timers|
        invariant WalkAt(orig, ex, visit, j, timers, i) && NoDup(timers)
        invariant events == Fired(st[..j], loops[..j], visit[..j], now)
        invariant Handled(orig, st, loops, visit, j, now)
        invariant forall t | t in timers :: !t.isFinish
        decreases n - j
      {
        WalkAdvance(orig, ex, visit, j, timers, i);
        ghost var skip := ex[j] && j + 1 < n;
        FiredAdvance(st, loops, visit, now, j, skip);
        var e := Visit(i, now, orig, st, loops, visit, j, skip);
        events := events + e;
        i := i + 1;
        j := if skip then j + 2 else j + 1;
      }
      WalkEnd(orig, ex, visit, j, timers, i);
      FiredWhole(st, loops, visit, now);
      HandledAll(orig, st, loops, visit, now);
    }

    /**
      One iteration of `UpdateAllTimer`: update the timer at index i, which
      is orig[j], the next timer the walk visits; it leaves the list if it
      stops, and then the walk has dealt with orig[j] (and with orig[j + 1],
      passed over, when skip holds).
     */
    method Visit(i: nat, now: real, ghost orig: seq<Timer>, ghost st: seq<TimerState>, ghost loops: seq<bool>,
                 ghost visit: seq<bool>, ghost j: nat, ghost skip: bool) returns (e: seq<Event>)
      requires i < |timers| && NoDup(timers) && forall u | u in timers :: !u.isFinish
      requires |st| == |loops| == |visit| == |orig| && j < |orig| && NoDup(orig) && timers[i] == orig[j] && visit[j]
      requires skip ==> j + 1 < |orig| && !visit[j + 1]
      requires loops == Loops(orig) && Handled(orig, st, loops, visit, j, now)
      modifies this, timers[i]
      ensures e == Step(st[j], loops[j], now).1
      ensures timers == if Expires(st[j], loops[j], now) then old(timers[..i] + timers[i + 1..]) else old(timers)
      ensures NoDup(timers) && forall u | u in timers :: !u.isFinish
      ensures Handled(orig, st, loops, visit, if skip then j + 2 else j + 1, now)
    {
      var t := timers[i];
      ghost var cur := States(orig);
      assert cur[j] == t.State() == st[j];
      e := UpdateAt(i, now, orig);
      assert States(orig) == cur[j := t.State()] by {
        forall k | 0 <= k < |orig| && k != j ensures States(orig)[k] == cur[k] {
          assert orig[k] != t;
        }
      }
      HandledAdvance(cur, st, loops, visit, j, now, skip);
    }

    /** `Update` of the timer at index i of the list: it takes its `Step` and leaves the list if it stops. */
    method UpdateAt(i: nat, now: real, ghost others: seq<Timer>) returns (e: seq<Event>)
      requires i < |timers| && NoDup(timers) && forall u | u in timers :: !u.isFinish
      modifies this, timers[i]
      ensures forall k | 0 <= k < |others| && others[k] != old(timers[i]) :: others[k].State() == old(others[k].State())
      ensures (old(timers[i]).State(), e) == old(Step(timers[i].State(), timers[i].loop, now))
      ensures timers == if old(Expires(timers[i].State(), timers[i].loop, now)) then old(timers[..i] + timers[i + 1..]) else old(timers)
      ensures NoDup(timers) && forall u | u in timers :: !u.isFinish
    {
      var t := timers[i];
      RemoveFirstAt(timers, i);
      NoDupRemove(timers, i);
      ghost var rest := timers[..i] + timers[i + 1..];
      assert forall u | u in rest :: u in timers && u != t;
      e := t.Update(now, this);
    }

    /** `RemoveAll`: stop every registered timer and empty the list. */
    method RemoveAll()
      requires Valid()
      modifies this, timers
      ensures timers == [] && Valid()
      ensures forall t | t in old(timers) :: t.State() == Stopped(old(t.State()))
    {
      var all := timers;
      var i := 0;
      while i < |all|
        invariant 0 <= i <= |all| && NoDup(all)
        invariant forall k | 0 <= k < i :: all[k].State() == Stopped(old(all[k].State()))
        invariant forall k | i <= k < |all| :: all[k].State() == old(all[k].State())
      {
        all[i].Stop(this);
        i := i + 1;
      }
      timers := [];
    }
  }

  /** Removing a timer from a list where it occurs once leaves it out entirely. */
  lemma RemoveFirstGone<T>(s: seq<T>, x: T)
    requires NoDup(s)
    ensures x !in RemoveFirst(s, x) && NoDup(RemoveFirst(s, x))
    ensures forall y | y in RemoveFirst(s, x) :: y in s
  {
    if x in s {
      var i :| 0 <= i < |s| && s[i] == x;
      RemoveFirstAt(s, i);
      NoDupRemove(s, i);
    }
  }
}
