/** The countdown engine of the timer page as values: the module-level timer
    state, the remaining-time arithmetic, the colour zone, and one function per
    handler that changes the state (the poll, the start/pause/resume click, the
    restart click and the duration-field edit). The wall clock is the explicit
    parameter `now` (milliseconds); 0 is the "unset" timestamp. */
module Countdown {
  import opened Text

  datatype Option<T> = None | Some(value: T)

  /** What Number(field) gives: NaN and the infinities are the non-finite values. */
  datatype JsNumber = NonFinite | Finite(value: real)

  /** The look of the progress ring: the three urgency colours, or the paused look. */
  datatype Zone = Green | Orange | Red | PausedLook

  /** The messages the engine shows, in the order it shows them. */
  datatype Event =
    | MinuteLeft(minutes: int)
    | Last15
    | TimesUp
    | Started
    | Paused
    | Resumed
    | Restarted(minutes: int)
    | Invalid

  const RedThresholdSec: int := 15

  /** The module-level `let` variables of the timer; `polling` is whether the
      250 ms interval (tickTimer) is installed. */
  datatype TimerState = TimerState(
    totalSeconds: int,
    lastDurationMin: int,
    isRunning: bool,
    startedAt: int,
    pausedAccumMs: int,
    pauseStartedAt: int,
    polling: bool,
    endLock: bool,
    hasStartedOnce: bool,
    lastAnnouncedMin: Option<int>,
    last15Shown: bool)

  /** The state when the page has loaded. */
  const Initial: TimerState :=
    TimerState(0, 0, false, 0, 0, 0, false, false, false, None, false)

  /** Milliseconds counted so far: a pause freezes the clock at pauseStartedAt
      (`pauseStartedAt || now`), time spent paused is subtracted. */
  function ElapsedMs(s: TimerState, now: int): int
  {
    (if !s.isRunning then (if s.pauseStartedAt != 0 then s.pauseStartedAt else now) else now)
      - s.startedAt - s.pausedAccumMs
  }

  /** computeRemainingSec: whole seconds left. Dafny's `/` by a positive divisor
      is floor division, as Math.floor(elapsedMs / 1000) is. */
  function RemainingSec(s: TimerState, now: int): (r: int)
    ensures r >= 0
    ensures r >= s.totalSeconds - ElapsedMs(s, now) / 1000
    ensures r > 0 ==> r == s.totalSeconds - ElapsedMs(s, now) / 1000
    ensures s.totalSeconds >= 0 && ElapsedMs(s, now) >= 0 ==> r <= s.totalSeconds
  {
    Max(0, s.totalSeconds - ElapsedMs(s, now) / 1000)
  }

  /** orangeZone(): Math.floor(totalSeconds * 0.25), which is floor(totalSeconds / 4). */
  function OrangeZoneSec(totalSeconds: int): (q: int)
    ensures 4 * q <= totalSeconds < 4 * q + 4
  {
    totalSeconds / 4
  }

  /** setStrokeByRemaining: red at or below 15 s, else orange at or below a quarter of the run. */
  function ZoneOf(remaining: int, totalSeconds: int): Zone
  {
    var inRed := remaining <= RedThresholdSec;
    var inOrange := remaining <= OrangeZoneSec(totalSeconds) && !inRed;
    if inRed then Red else if inOrange then Orange else Green
  }

  /** render: a paused run (stopped, started, not locked) shows the paused look. */
  function RenderedZone(s: TimerState, remaining: int): Zone
  {
    if !s.isRunning && s.startedAt != 0 && !s.endLock then PausedLook
    else ZoneOf(remaining, s.totalSeconds)
  }

  /** `lastAnnouncedMin * 60`: null times 60 is 0 in JavaScript. */
  function AnnouncedSec(o: Option<int>): int
  {
    match o
    case None => 0
    case Some(m) => m * 60
  }

  datatype Ticked = Ticked(state: TimerState, remaining: int, zone: Zone, events: seq<Event>)

  datatype Outcome = Outcome(state: TimerState, events: seq<Event>)

  /** tick(): announce a fresh whole minute, announce the last 15 seconds once,
      render, and on reaching zero stop polling and lock the start button. */
  function Tick(s: TimerState, now: int): Ticked
  {
    var remaining := RemainingSec(s, now);
    var minute := remaining > 0 && remaining % 60 == 0 && remaining != AnnouncedSec(s.lastAnnouncedMin);
    var s1 := if minute then s.(lastAnnouncedMin := Some(remaining / 60)) else s;
    var e1 := if minute then [MinuteLeft(remaining / 60)] else [];
    var low := !s1.last15Shown && remaining == 15;
    var s2 := if low then s1.(last15Shown := true) else s1;
    var e2 := e1 + (if low then [Last15] else []);
    var zone := RenderedZone(s2, remaining);
    var expired := remaining <= 0;
    var s3 := if expired then s2.(polling := false, isRunning := false, endLock := true) else s2;
    var e3 := e2 + (if expired then [TimesUp] else []);
    Ticked(s3, remaining, zone, e3)
  }

  /** The interval firing: a tick while the interval is installed, nothing otherwise. */
  function Poll(s: TimerState, now: int): Outcome
  {
    if s.polling then var t := Tick(s, now); Outcome(t.state, t.events) else Outcome(s, [])
  }

  /** startFromMinutes(min): a fresh run of min minutes from now, one immediate
      tick, then the interval is (re)installed and "started" is shown. */
  function StartFromMinutes(s: TimerState, min: int, now: int): Outcome
  {
    var s1 := s.(hasStartedOnce := true, endLock := false, lastDurationMin := min,
                 totalSeconds := min * 60, startedAt := now, pausedAccumMs := 0,
                 pauseStartedAt := 0, isRunning := true, lastAnnouncedMin := None,
                 last15Shown := false);
    var t := Tick(s1, now);
    Outcome(t.state.(polling := true), t.events + [Started])
  }

  /** Number.isFinite(val) && 1 <= val <= 99. */
  predicate ValidMinutes(val: JsNumber)
  {
    val.Finite? && 1.0 <= val.value <= 99.0
  }

  /** `val | 0` on a value in [1, 99]: truncation, which is the floor there. */
  function TruncatedMinutes(v: real): (m: int)
    requires 1.0 <= v <= 99.0
    ensures 1 <= m <= 99
    ensures m as real <= v < m as real + 1.0
  {
    v.Floor
  }

  /** The start/pause click. */
  function ClickStartPause(s: TimerState, val: JsNumber, now: int): Outcome
  {
    if s.endLock then Outcome(s, [])
    else if !s.isRunning && s.startedAt == 0 then
      if !ValidMinutes(val) then Outcome(s, [Invalid])
      else StartFromMinutes(s, TruncatedMinutes(val.value), now)
    else if s.isRunning then
      Outcome(s.(isRunning := false, pauseStartedAt := now), [Paused])
    else
      var s1 := if s.pauseStartedAt != 0
                then s.(pausedAccumMs := s.pausedAccumMs + (now - s.pauseStartedAt), pauseStartedAt := 0)
                else s;
      Outcome(s1.(isRunning := true), [Resumed])
  }

  /** The duration a restart uses: the field if valid, else the last duration, else 1. */
  function RestartMinutes(s: TimerState, val: JsNumber): int
  {
    if ValidMinutes(val) then TruncatedMinutes(val.value)
    else if s.lastDurationMin > 0 then s.lastDurationMin
    else 1
  }

  /** The restart click. */
  function ClickRestart(s: TimerState, val: JsNumber, now: int): Outcome
  {
    if !s.hasStartedOnce then Outcome(s, [])
    else
      var useMin := RestartMinutes(s, val);
      var o := StartFromMinutes(s.(endLock := false), useMin, now);
      Outcome(o.state, o.events + [Restarted(useMin)])
  }

  /** Whether an edit whose sanitised text is `cleaned` resets a locked timer to idle. */
  predicate EditUnlocks(s: TimerState, cleaned: string)
    requires AllDigits(cleaned)
  {
    cleaned != [] && s.endLock && ParsedMinutes(cleaned) != s.lastDurationMin
  }

  /** The `input` handler's effect on the timer (its effect on the field is
      Text.SanitisedField): an edit to another duration after the end resets to idle. */
  function DurationInput(s: TimerState, raw: string): TimerState
  {
    var cleaned := Cleaned(raw);
    if EditUnlocks(s, cleaned) then
      s.(endLock := false, isRunning := false, startedAt := 0, pausedAccumMs := 0,
         pauseStartedAt := 0, lastAnnouncedMin := None, last15Shown := false)
    else s
  }

  // ===== The engine as one transition relation =====

  datatype Action =
    | PollAt(now: int)
    | StartPauseClick(val: JsNumber, now: int)
    | RestartClick(val: JsNumber, now: int)
    | InputEdit(raw: string)

  function Step(s: TimerState, a: Action): Outcome
  {
    match a
    case PollAt(now) => Poll(s, now)
    case StartPauseClick(val, now) => ClickStartPause(s, val, now)
    case RestartClick(val, now) => ClickRestart(s, val, now)
    case InputEdit(raw) => Outcome(DurationInput(s, raw), [])
  }

  /** The clock an action reads is not behind the last one read, and is positive. */
  predicate Timely(a: Action, clock: int)
  {
    a.InputEdit? || (clock <= a.now && 0 < a.now)
  }

  function ClockAfter(a: Action, clock: int): int
  {
    if a.InputEdit? then clock else a.now
  }

  function Run(s: TimerState, acts: seq<Action>): TimerState
    decreases |acts|
  {
    if acts == [] then s else Run(Step(s, acts[0]).state, acts[1..])
  }

  function RunClock(acts: seq<Action>, clock: int): int
    decreases |acts|
  {
    if acts == [] then clock else RunClock(acts[1..], ClockAfter(acts[0], clock))
  }

  predicate TimelyRun(acts: seq<Action>, clock: int)
    decreases |acts|
  {
    acts == [] || (Timely(acts[0], clock) && TimelyRun(acts[1..], ClockAfter(acts[0], clock)))
  }

  // ===== The invariant every reachable state keeps =====

  /** The state is one the handlers can produce when the clock last read was
      `clock`: durations in range, an idle state fully reset, timestamps not in
      the future, the interval installed exactly during a run that has not
      ended, a paused run's pause timestamp set, and the dedup guards and the
      lock agreeing with the time left. */
  predicate Consistent(s: TimerState, clock: int)
  {
    0 <= s.lastDurationMin <= 99 && s.totalSeconds == s.lastDurationMin * 60 &&
    (s.hasStartedOnce <==> s.lastDurationMin >= 1) &&
    s.pausedAccumMs >= 0 &&
    (s.polling <==> s.startedAt != 0 && !s.endLock) &&
    (s.startedAt == 0 ==>
      !s.isRunning && s.pauseStartedAt == 0 && s.pausedAccumMs == 0 && !s.endLock &&
      s.lastAnnouncedMin.None? && !s.last15Shown) &&
    (s.startedAt != 0 ==> 0 < s.startedAt && s.startedAt + s.pausedAccumMs <= clock && s.hasStartedOnce) &&
    (s.isRunning ==> !s.endLock && s.pauseStartedAt == 0) &&
    (s.pauseStartedAt != 0 ==>
      !s.isRunning && s.startedAt + s.pausedAccumMs <= s.pauseStartedAt <= clock) &&
    (s.startedAt != 0 && !s.isRunning && !s.endLock ==> s.pauseStartedAt != 0) &&
    (s.endLock ==> RemainingSec(s, clock) == 0) &&
    (s.lastAnnouncedMin.Some? ==>
      1 <= s.lastAnnouncedMin.value && RemainingSec(s, clock) <= s.lastAnnouncedMin.value * 60) &&
    (s.last15Shown ==> RemainingSec(s, clock) <= RedThresholdSec)
  }

  datatype Phase = Idle | Running | OnHold | Expired

  function PhaseOf(s: TimerState): Phase
  {
    if s.endLock then Expired
    else if s.isRunning then Running
    else if s.startedAt != 0 then OnHold
    else Idle
  }

  /** idle -> running <-> on hold -> expired, restart into running, an edit from expired to idle. */
  predicate AllowedTransition(p: Phase, q: Phase)
  {
    p == q ||
    (p == Idle && q == Running) ||
    (p == Running && (q == OnHold || q == Expired)) ||
    (p == OnHold && (q == Running || q == Expired)) ||
    (p == Expired && (q == Running || q == Idle))
  }

  // ===== Remaining-time arithmetic =====

  lemma FloorDivMonotone(a: int, b: int)
    requires a <= b
    ensures a / 1000 <= b / 1000
  {
    assert 1000 * (a / 1000) <= a <= b < 1000 * (b / 1000) + 1000;
  }

  /** As the clock advances the time left never grows. */
  lemma RemainingNonIncreasing(s: TimerState, t1: int, t2: int)
    requires t1 <= t2
    ensures RemainingSec(s, t2) <= RemainingSec(s, t1)
  {
    FloorDivMonotone(ElapsedMs(s, t1), ElapsedMs(s, t2));
  }

  /** While paused (stopped with a pause timestamp) the time left does not depend on the clock. */
  lemma PausedRemainingFrozen(s: TimerState, t1: int, t2: int)
    requires !s.isRunning && s.pauseStartedAt != 0
    ensures RemainingSec(s, t1) == RemainingSec(s, t2)
  {
  }

  /** In every consistent state and at every later instant the time left lies in [0, totalSeconds]. */
  lemma RemainingWithinTotal(s: TimerState, clock: int, now: int)
    requires Consistent(s, clock) && clock <= now && 0 <= now
    ensures 0 <= RemainingSec(s, now) <= s.totalSeconds
  {
    assert ElapsedMs(s, now) >= 0;
  }

  /** A tick never moves the countdown: the time left after it is the time left before it, at every instant. */
  lemma TickKeepsCountdown(s: TimerState, now: int, t: int)
    requires s.isRunning ==> s.pauseStartedAt == 0
    ensures RemainingSec(Tick(s, now).state, t) == RemainingSec(s, t)
    ensures Tick(s, now).remaining == RemainingSec(s, now)
  {
    assert ElapsedMs(Tick(s, now).state, t) == ElapsedMs(s, t);
  }

  // ===== Pause and resume do not drift =====

  function PauseAt(s: TimerState, p: int): TimerState
  {
    ClickStartPause(s, NonFinite, p).state
  }

  /** One pause at p and the resume at r. */
  function PauseResume(s: TimerState, p: int, r: int): TimerState
  {
    ClickStartPause(PauseAt(s, p), NonFinite, r).state
  }

  /** A run that is counting down, with its start recorded. */
  predicate Counting(s: TimerState)
  {
    s.isRunning && !s.endLock && s.startedAt != 0 && s.pauseStartedAt == 0
  }

  /** Pausing at p freezes the time left at its value at p; resuming at r
      continues from that value, so the run behaves from then on like the
      unpaused run shifted by the length of the pause. */
  lemma PauseResumeNoDrift(s: TimerState, p: int, r: int, t: int)
    requires Counting(s) && 0 < p <= r
    ensures var held := PauseAt(s, p);
      !held.isRunning && held.pauseStartedAt == p && RemainingSec(held, t) == RemainingSec(s, p)
    ensures var back := PauseResume(s, p, r);
      Counting(back) && back.pausedAccumMs == s.pausedAccumMs + (r - p) &&
      RemainingSec(back, t) == RemainingSec(s, t - (r - p)) &&
      RemainingSec(back, r) == RemainingSec(s, p)
  {
    var back := PauseResume(s, p, r);
    assert ElapsedMs(back, t) == ElapsedMs(s, t - (r - p));
  }

  /** Pauses in order: each (p, r) starts after the previous one ended. */
  predicate OrderedPauses(cycles: seq<(int, int)>, after: int)
    decreases |cycles|
  {
    cycles == [] ||
    (after <= cycles[0].0 && 0 < cycles[0].0 <= cycles[0].1 && OrderedPauses(cycles[1..], cycles[0].1))
  }

  function Cycles(s: TimerState, cycles: seq<(int, int)>): TimerState
    decreases |cycles|
  {
    if cycles == [] then s else Cycles(PauseResume(s, cycles[0].0, cycles[0].1), cycles[1..])
  }

  function PausedTotal(cycles: seq<(int, int)>): int
    decreases |cycles|
  {
    if cycles == [] then 0 else (cycles[0].1 - cycles[0].0) + PausedTotal(cycles[1..])
  }

  /** Any number of pause/resume cycles: the run afterwards counts exactly the
      time it was not paused, and the accumulated pause is the sum of the pauses. */
  lemma {:induction false} PauseResumeCyclesNoDrift(s: TimerState, cycles: seq<(int, int)>, after: int, t: int)
    requires Counting(s) && OrderedPauses(cycles, after)
    ensures var e := Cycles(s, cycles);
      Counting(e) && e.startedAt == s.startedAt && e.totalSeconds == s.totalSeconds &&
      e.pausedAccumMs == s.pausedAccumMs + PausedTotal(cycles) &&
      RemainingSec(e, t) == RemainingSec(s, t - PausedTotal(cycles))
    decreases |cycles|
  {
    if cycles != [] {
      var (p, r) := cycles[0];
      var s1 := PauseResume(s, p, r);
      PauseResumeNoDrift(s, p, r, t - PausedTotal(cycles[1..]));
      PauseResumeCyclesNoDrift(s1, cycles[1..], r, t);
      assert Cycles(s, cycles) == Cycles(s1, cycles[1..]);
    }
  }

  // ===== Starting a run =====

  /** startFromMinutes(min) for min >= 1: a fresh counting run of min
      minutes from now, no pause time, unlocked, the interval installed; the
      immediate tick sees the full min * 60 seconds, announces min minutes left
      (so the minute guard holds min afterwards), and "started" follows. */
  lemma StartFromMinutesEffect(s: TimerState, min: int, now: int)
    requires 1 <= min
    ensures var o := StartFromMinutes(s, min, now); var n := o.state;
      n.totalSeconds == min * 60 && n.lastDurationMin == min && n.isRunning &&
      n.startedAt == now && n.pausedAccumMs == 0 && n.pauseStartedAt == 0 &&
      n.polling && !n.endLock && n.hasStartedOnce &&
      n.lastAnnouncedMin == Some(min) && !n.last15Shown &&
      RemainingSec(n, now) == min * 60 &&
      o.events == [MinuteLeft(min), Started] &&
      (min <= 99 && 0 < now ==> Consistent(n, now))
  {
    var s1 := s.(hasStartedOnce := true, endLock := false, lastDurationMin := min,
                 totalSeconds := min * 60, startedAt := now, pausedAccumMs := 0,
                 pauseStartedAt := 0, isRunning := true, lastAnnouncedMin := None,
                 last15Shown := false);
    assert ElapsedMs(s1, now) == 0;
    assert RemainingSec(s1, now) == min * 60;
    assert (min * 60) / 60 == min;
  }

  // ===== Once per boundary, once per run =====

  /** A minute is announced exactly when the time left is a positive whole
      number of minutes other than the one last announced; within a run the
      announced minutes strictly decrease, so each boundary is announced once. */
  lemma MinuteAnnouncedOnce(s: TimerState, clock: int, now: int)
    requires Consistent(s, clock) && clock <= now
    ensures var t := Tick(s, now); var rem := RemainingSec(s, now);
      (exists m :: MinuteLeft(m) in t.events) <==>
        (rem > 0 && rem % 60 == 0 && rem != AnnouncedSec(s.lastAnnouncedMin))
    ensures forall m :: MinuteLeft(m) in Tick(s, now).events ==>
      m * 60 == RemainingSec(s, now) && Tick(s, now).state.lastAnnouncedMin == Some(m) &&
      (s.lastAnnouncedMin.None? || m < s.lastAnnouncedMin.value)
  {
    var rem := RemainingSec(s, now);
    RemainingNonIncreasing(s, clock, now);
    if rem > 0 && rem % 60 == 0 && rem != AnnouncedSec(s.lastAnnouncedMin) {
      assert MinuteLeft(rem / 60) in Tick(s, now).events;
    }
  }

  /** "Last 15 seconds" is shown only when the guard was clear and the time left
      is exactly 15, and the guard is set afterwards. */
  lemma Last15ShownOnce(s: TimerState, now: int)
    ensures Last15 in Tick(s, now).events <==> !s.last15Shown && RemainingSec(s, now) == 15
    ensures Last15 in Tick(s, now).events ==> Tick(s, now).state.last15Shown
    ensures s.last15Shown ==> Tick(s, now).state.last15Shown
  {
  }

  /** A new run is one a click from idle with a valid duration, or a restart, begins. */
  predicate BeginsRun(s: TimerState, a: Action)
  {
    (a.StartPauseClick? && !s.endLock && !s.isRunning && s.startedAt == 0 && ValidMinutes(a.val)) ||
    (a.RestartClick? && s.hasStartedOnce)
  }

  /** The dedup guards are cleared only by a new run or by an edit that unlocks. */
  lemma GuardsClearedOnlyByNewRun(s: TimerState, a: Action)
    requires (s.last15Shown && !Step(s, a).state.last15Shown) ||
             (s.lastAnnouncedMin.Some? && Step(s, a).state.lastAnnouncedMin.None?)
    ensures BeginsRun(s, a) || (a.InputEdit? && EditUnlocks(s, Cleaned(a.raw)))
  {
  }

  /** An action that neither begins a new run nor unlocks: a poll, a pause, a
      resume, an ignored or invalid click, or an edit that keeps the lock. */
  predicate StaysInRun(s: TimerState, a: Action)
  {
    !BeginsRun(s, a) && !(a.InputEdit? && EditUnlocks(s, Cleaned(a.raw)))
  }

  /** Within a run the duration, the last duration and the start time are
      fixed, the paused total only grows, the minute guard only moves to a
      smaller minute, and the 15-second guard is never cleared. */
  lemma StepWithinRun(s: TimerState, clock: int, a: Action)
    requires Consistent(s, clock) && Timely(a, clock) && StaysInRun(s, a)
    ensures var n := Step(s, a).state;
      n.totalSeconds == s.totalSeconds && n.lastDurationMin == s.lastDurationMin &&
      n.startedAt == s.startedAt && n.pausedAccumMs >= s.pausedAccumMs &&
      (n.lastAnnouncedMin == s.lastAnnouncedMin ||
        (n.lastAnnouncedMin.Some? &&
          (s.lastAnnouncedMin.None? || n.lastAnnouncedMin.value < s.lastAnnouncedMin.value))) &&
      (s.last15Shown ==> n.last15Shown)
  {
    match a
    case PollAt(now) => MinuteAnnouncedOnce(s, clock, now);
    case StartPauseClick(val, now) =>
    case RestartClick(val, now) =>
    case InputEdit(raw) =>
  }

  /** The minutes announced by a sequence of messages, in order. */
  function AnnouncedMinutes(es: seq<Event>): seq<int>
    decreases |es|
  {
    if es == [] then [] else (if es[0].MinuteLeft? then [es[0].minutes] else []) + AnnouncedMinutes(es[1..])
  }

  /** How many times a sequence of messages shows "last 15 seconds". */
  function Last15Count(es: seq<Event>): nat
    decreases |es|
  {
    if es == [] then 0 else (if es[0] == Last15 then 1 else 0) + Last15Count(es[1..])
  }

  lemma {:induction false} MessagesAppend(a: seq<Event>, b: seq<Event>)
    ensures AnnouncedMinutes(a + b) == AnnouncedMinutes(a) + AnnouncedMinutes(b)
    ensures Last15Count(a + b) == Last15Count(a) + Last15Count(b)
    decreases |a|
  {
    if a == [] {
      assert a + b == b;
    } else {
      assert (a + b)[0] == a[0];
      assert (a + b)[1..] == a[1..] + b;
      MessagesAppend(a[1..], b);
    }
  }

  /** The messages of one action within a run: at most one minute, below the
      minute last announced and recorded as the new guard; "last 15 seconds"
      at most once, never again once its guard is set, and setting it. */
  lemma StepAnnouncements(s: TimerState, clock: int, a: Action)
    requires Consistent(s, clock) && Timely(a, clock) && StaysInRun(s, a)
    ensures var o := Step(s, a); var ms := AnnouncedMinutes(o.events);
      (ms == [] ||
        (|ms| == 1 && o.state.lastAnnouncedMin == Some(ms[0]) &&
          (s.lastAnnouncedMin.None? || ms[0] < s.lastAnnouncedMin.value))) &&
      Last15Count(o.events) <= (if s.last15Shown then 0 else 1) &&
      (Last15Count(o.events) == 1 ==> o.state.last15Shown)
  {
    match a
    case PollAt(now) =>
      MinuteAnnouncedOnce(s, clock, now);
      if s.polling {
        var t := Tick(s, now);
        var rem := RemainingSec(s, now);
        var minute := rem > 0 && rem % 60 == 0 && rem != AnnouncedSec(s.lastAnnouncedMin);
        var e1: seq<Event> := if minute then [MinuteLeft(rem / 60)] else [];
        var low := !(if minute then s.(lastAnnouncedMin := Some(rem / 60)) else s).last15Shown && rem == 15;
        var e2: seq<Event> := if low then [Last15] else [];
        var e3: seq<Event> := if rem <= 0 then [TimesUp] else [];
        assert t.events == e1 + e2 + e3;
        MessagesAppend(e1, e2);
        MessagesAppend(e1 + e2, e3);
        if minute {
          assert MinuteLeft(rem / 60) in t.events;
        }
      }
    case StartPauseClick(val, now) =>
    case RestartClick(val, now) =>
    case InputEdit(raw) =>
  }

  /** A sequence of actions none of which begins a new run or unlocks. */
  predicate WithinRun(s: TimerState, acts: seq<Action>)
    decreases |acts|
  {
    acts == [] || (StaysInRun(s, acts[0]) && WithinRun(Step(s, acts[0]).state, acts[1..]))
  }

  /** The messages a sequence of actions shows, in order. */
  function RunEvents(s: TimerState, acts: seq<Action>): seq<Event>
    decreases |acts|
  {
    if acts == [] then [] else Step(s, acts[0]).events + RunEvents(Step(s, acts[0]).state, acts[1..])
  }

  predicate StrictlyDecreasing(xs: seq<int>)
  {
    forall i, j :: 0 <= i < j < |xs| ==> xs[j] < xs[i]
  }

  /** Over any stretch of a run (polls, pauses, resumes, ignored clicks and
      edits that keep the lock) each minute is announced at most once: the
      announced minutes strictly decrease and stay below the one announced
      before; "last 15 seconds" is shown at most once, and not at all if it
      was shown before; the duration and the start stay fixed and the paused
      total only grows. */
  lemma {:induction false} RunAnnouncesAtMostOnce(s: TimerState, clock: int, acts: seq<Action>)
    requires Consistent(s, clock) && TimelyRun(acts, clock) && WithinRun(s, acts)
    ensures var ms := AnnouncedMinutes(RunEvents(s, acts));
      StrictlyDecreasing(ms) &&
      (s.lastAnnouncedMin.Some? ==> forall i :: 0 <= i < |ms| ==> ms[i] < s.lastAnnouncedMin.value)
    ensures Last15Count(RunEvents(s, acts)) <= (if s.last15Shown then 0 else 1)
    ensures var e := Run(s, acts);
      e.totalSeconds == s.totalSeconds && e.startedAt == s.startedAt && e.pausedAccumMs >= s.pausedAccumMs
    decreases |acts|
  {
    if acts != [] {
      var a := acts[0];
      var o := Step(s, a);
      var n := o.state;
      StepWithinRun(s, clock, a);
      StepAnnouncements(s, clock, a);
      StepKeepsConsistent(s, clock, a);
      RunAnnouncesAtMostOnce(n, ClockAfter(a, clock), acts[1..]);
      MessagesAppend(o.events, RunEvents(n, acts[1..]));
      AnnouncementsJoin(AnnouncedMinutes(o.events), AnnouncedMinutes(RunEvents(n, acts[1..])),
                        s.lastAnnouncedMin, n.lastAnnouncedMin);
    }
  }

  /** The minutes of one step followed by those of the rest of the run. */
  lemma AnnouncementsJoin(head: seq<int>, rest: seq<int>, g: Option<int>, g2: Option<int>)
    requires head == [] || (|head| == 1 && g2 == Some(head[0]) && (g.None? || head[0] < g.value))
    requires g2 == g || (g2.Some? && (g.None? || g2.value < g.value))
    requires StrictlyDecreasing(rest) && (g2.Some? ==> forall i :: 0 <= i < |rest| ==> rest[i] < g2.value)
    ensures StrictlyDecreasing(head + rest)
    ensures g.Some? ==> forall i :: 0 <= i < |head + rest| ==> (head + rest)[i] < g.value
  {
  }

  /** Polling twice at the same instant: the second poll does nothing at all. */
  lemma PollIdempotentAtSameInstant(s: TimerState, now: int)
    requires s.isRunning ==> s.pauseStartedAt == 0
    ensures var n := Poll(s, now).state; Poll(n, now) == Outcome(n, [])
  {
    if s.polling {
      TickKeepsCountdown(s, now, now);
      var n := Tick(s, now).state;
      if n.polling {
        assert RemainingSec(n, now) == RemainingSec(s, now);
        assert Tick(n, now).state == n;
      }
    }
  }

  /** While a run counts down, successive polls report a time left that never grows. */
  lemma PollsNonIncreasing(s: TimerState, t1: int, t2: int)
    requires s.isRunning ==> s.pauseStartedAt == 0
    requires t1 <= t2
    ensures Tick(Tick(s, t1).state, t2).remaining <= Tick(s, t1).remaining
  {
    TickKeepsCountdown(s, t1, t2);
    RemainingNonIncreasing(s, t1, t2);
  }

  // ===== Expiry and the end lock =====

  /** A poll that sees no time left stops the interval, stops counting, locks
      and shows "time's up"; a poll locks only then. */
  lemma ExpiryLocks(s: TimerState, now: int)
    requires s.polling && !s.endLock
    ensures var o := Poll(s, now);
      o.state.endLock <==> RemainingSec(s, now) == 0
    ensures var o := Poll(s, now);
      RemainingSec(s, now) == 0 ==>
        !o.state.isRunning && !o.state.polling && o.events == [TimesUp]
  {
  }

  /** Once locked the time left stays 0 and the poller is stopped, so further polls change nothing. */
  lemma LockedIsTerminal(s: TimerState, clock: int, now: int)
    requires Consistent(s, clock) && s.endLock && clock <= now
    ensures RemainingSec(s, now) == 0
    ensures Poll(s, now) == Outcome(s, [])
  {
    RemainingNonIncreasing(s, clock, now);
  }

  /** While locked the start/pause click does nothing. */
  lemma LockedClickIgnored(s: TimerState, val: JsNumber, now: int)
    requires s.endLock
    ensures ClickStartPause(s, val, now) == Outcome(s, [])
  {
  }

  /** The lock is released exactly by a restart (once a run has ever started)
      or by an edit to a duration other than the last one. */
  lemma LockReleasedOnlyBy(s: TimerState, a: Action)
    requires s.endLock
    ensures !Step(s, a).state.endLock <==>
      (a.RestartClick? && s.hasStartedOnce) || (a.InputEdit? && EditUnlocks(s, Cleaned(a.raw)))
  {
    if a.RestartClick? && s.hasStartedOnce {
      var m := RestartMinutes(s, a.val);
      StartFromMinutesEffect(s.(endLock := false), m, a.now);
    }
  }

  /** The edit that unlocks resets to idle without starting: no run, no pause,
      no guards, the last duration kept; any other edit leaves the timer alone. */
  lemma EditResetsToIdle(s: TimerState, raw: string)
    ensures var n := DurationInput(s, raw);
      EditUnlocks(s, Cleaned(raw)) ==>
        PhaseOf(n) == Idle && !n.isRunning && n.startedAt == 0 && n.pausedAccumMs == 0 &&
        n.pauseStartedAt == 0 && n.lastAnnouncedMin == None && !n.last15Shown &&
        n.totalSeconds == s.totalSeconds && n.lastDurationMin == s.lastDurationMin &&
        n.polling == s.polling && n.hasStartedOnce == s.hasStartedOnce
    ensures !EditUnlocks(s, Cleaned(raw)) ==> DurationInput(s, raw) == s
  {
  }

  // ===== The click handlers =====

  /** The start/pause click: from idle it starts a run of the truncated field
      value if that is finite and in [1, 99] and otherwise only shows "invalid";
      while counting it pauses with the time left frozen; while on hold it
      resumes with the time left unchanged. */
  lemma ClickDispatch(s: TimerState, clock: int, val: JsNumber, now: int)
    requires Consistent(s, clock) && clock <= now && 0 < now
    ensures var o := ClickStartPause(s, val, now);
      PhaseOf(s) == Idle && !ValidMinutes(val) ==> o == Outcome(s, [Invalid])
    ensures var o := ClickStartPause(s, val, now);
      PhaseOf(s) == Idle && ValidMinutes(val) ==>
        o == StartFromMinutes(s, val.value.Floor, now) && PhaseOf(o.state) == Running &&
        o.state.totalSeconds == val.value.Floor * 60
    ensures var o := ClickStartPause(s, val, now);
      PhaseOf(s) == Running ==>
        PhaseOf(o.state) == OnHold && o.events == [Paused] &&
        forall t :: RemainingSec(o.state, t) == RemainingSec(s, now)
    ensures var o := ClickStartPause(s, val, now);
      PhaseOf(s) == OnHold ==>
        PhaseOf(o.state) == Running && o.events == [Resumed] &&
        RemainingSec(o.state, now) == RemainingSec(s, now) &&
        o.state.pausedAccumMs == s.pausedAccumMs + (now - s.pauseStartedAt)
    ensures PhaseOf(s) == Expired ==> ClickStartPause(s, val, now) == Outcome(s, [])
  {
    if PhaseOf(s) == Idle && ValidMinutes(val) {
      StartFromMinutesEffect(s, TruncatedMinutes(val.value), now);
    }
    if PhaseOf(s) == OnHold {
      var o := ClickStartPause(s, val, now);
      assert ElapsedMs(o.state, now) == ElapsedMs(s, now);
    }
  }

  /** The restart click: ignored before the first run; otherwise a fresh
      counting run of the field's truncated value if valid, else of the last
      duration, else of 1 minute, announced as a restart. */
  lemma RestartEffect(s: TimerState, clock: int, val: JsNumber, now: int)
    requires Consistent(s, clock) && clock <= now && 0 < now
    ensures !s.hasStartedOnce ==> ClickRestart(s, val, now) == Outcome(s, [])
    ensures var o := ClickRestart(s, val, now); var m := RestartMinutes(s, val);
      s.hasStartedOnce ==>
        1 <= m <= 99 &&
        (ValidMinutes(val) ==> m == val.value.Floor) &&
        (!ValidMinutes(val) ==> m == s.lastDurationMin) &&
        PhaseOf(o.state) == Running && o.state.totalSeconds == m * 60 &&
        o.state.pausedAccumMs == 0 && o.state.pauseStartedAt == 0 &&
        RemainingSec(o.state, now) == m * 60 && o.state.lastAnnouncedMin == Some(m) &&
        !o.state.last15Shown &&
        o.events == [MinuteLeft(m), Started, Restarted(m)]
  {
    if s.hasStartedOnce {
      StartFromMinutesEffect(s.(endLock := false), RestartMinutes(s, val), now);
    }
  }

  // ===== The invariant is kept =====

  lemma ConsistentLater(s: TimerState, c1: int, c2: int)
    requires Consistent(s, c1) && c1 <= c2
    ensures Consistent(s, c2)
  {
    RemainingNonIncreasing(s, c1, c2);
  }

  lemma PollKeepsConsistent(s: TimerState, clock: int, now: int)
    requires Consistent(s, clock) && clock <= now
    ensures Consistent(Poll(s, now).state, now)
  {
    ConsistentLater(s, clock, now);
    if s.polling {
      var n := Tick(s, now).state;
      forall t ensures RemainingSec(n, t) == RemainingSec(s, t) {
        TickKeepsCountdown(s, now, t);
      }
      var rem := RemainingSec(s, now);
      if rem > 0 && rem % 60 == 0 && rem != AnnouncedSec(s.lastAnnouncedMin) {
        assert (rem / 60) * 60 == rem;
      }
    }
  }

  lemma ClickKeepsConsistent(s: TimerState, clock: int, val: JsNumber, now: int)
    requires Consistent(s, clock) && clock <= now && 0 < now
    ensures Consistent(ClickStartPause(s, val, now).state, now)
  {
    ConsistentLater(s, clock, now);
    var o := ClickStartPause(s, val, now);
    if s.endLock {
    } else if !s.isRunning && s.startedAt == 0 {
      if ValidMinutes(val) {
        StartFromMinutesEffect(s, TruncatedMinutes(val.value), now);
      }
    } else if s.isRunning {
      assert ElapsedMs(o.state, now) == ElapsedMs(s, now);
    } else {
      assert ElapsedMs(o.state, now) == ElapsedMs(s, now);
    }
  }

  lemma RestartKeepsConsistent(s: TimerState, clock: int, val: JsNumber, now: int)
    requires Consistent(s, clock) && clock <= now && 0 < now
    ensures Consistent(ClickRestart(s, val, now).state, now)
  {
    ConsistentLater(s, clock, now);
    if s.hasStartedOnce {
      StartFromMinutesEffect(s.(endLock := false), RestartMinutes(s, val), now);
    }
  }

  lemma InputKeepsConsistent(s: TimerState, clock: int, raw: string)
    requires Consistent(s, clock)
    ensures Consistent(DurationInput(s, raw), clock)
  {
  }

  /** Every handler keeps the invariant, given a clock that does not run backwards. */
  lemma StepKeepsConsistent(s: TimerState, clock: int, a: Action)
    requires Consistent(s, clock) && Timely(a, clock)
    ensures Consistent(Step(s, a).state, ClockAfter(a, clock))
  {
    match a
    case PollAt(now) => PollKeepsConsistent(s, clock, now);
    case StartPauseClick(val, now) => ClickKeepsConsistent(s, clock, val, now);
    case RestartClick(val, now) => RestartKeepsConsistent(s, clock, val, now);
    case InputEdit(raw) => InputKeepsConsistent(s, clock, raw);
  }

  /** Every state a page session reaches from load, under a clock that does not
      run backwards, is consistent; in particular its time left lies in [0, total]. */
  lemma {:induction false} RunKeepsConsistent(s: TimerState, clock: int, acts: seq<Action>, now: int)
    requires Consistent(s, clock) && TimelyRun(acts, clock)
    requires RunClock(acts, clock) <= now && 0 <= now
    ensures Consistent(Run(s, acts), RunClock(acts, clock))
    ensures 0 <= RemainingSec(Run(s, acts), now) <= Run(s, acts).totalSeconds
    decreases |acts|
  {
    if acts == [] {
      RemainingWithinTotal(s, clock, now);
    } else {
      StepKeepsConsistent(s, clock, acts[0]);
      RunKeepsConsistent(Step(s, acts[0]).state, ClockAfter(acts[0], clock), acts[1..], now);
    }
  }

  lemma InitialConsistent(clock: int)
    ensures Consistent(Initial, clock)
    ensures PhaseOf(Initial) == Idle
  {
  }

  /** Each handler moves the timer along the state machine idle -> running <->
      on hold -> expired, with restart into running and an edit from expired to idle. */
  lemma StepFollowsStateMachine(s: TimerState, clock: int, a: Action)
    requires Consistent(s, clock) && Timely(a, clock)
    ensures AllowedTransition(PhaseOf(s), PhaseOf(Step(s, a).state))
  {
    match a
    case PollAt(now) =>
    case StartPauseClick(val, now) =>
      if PhaseOf(s) == Idle && ValidMinutes(val) {
        StartFromMinutesEffect(s, TruncatedMinutes(val.value), now);
      }
    case RestartClick(val, now) =>
      if s.hasStartedOnce {
        StartFromMinutesEffect(s.(endLock := false), RestartMinutes(s, val), now);
      }
    case InputEdit(raw) =>
  }

  // ===== Zones =====

  function Urgency(z: Zone): int
  {
    match z
    case Green => 0
    case Orange => 1
    case Red => 2
    case PausedLook => 0
  }

  /** Red exactly at or below 15 s; orange exactly above that and at or below a
      quarter of the run, so red wins a tie; green above both. */
  lemma ZoneRule(remaining: int, totalSeconds: int)
    ensures ZoneOf(remaining, totalSeconds) == Red <==> remaining <= 15
    ensures ZoneOf(remaining, totalSeconds) == Orange <==> 15 < remaining <= totalSeconds / 4
    ensures ZoneOf(remaining, totalSeconds) == Green <==> remaining > 15 && remaining > totalSeconds / 4
    ensures ZoneOf(remaining, totalSeconds) != PausedLook
  {
  }

  /** As the time left runs down the colour only becomes more urgent. */
  lemma ZoneUrgencyGrows(r1: int, r2: int, totalSeconds: int)
    requires r2 <= r1
    ensures Urgency(ZoneOf(r2, totalSeconds)) >= Urgency(ZoneOf(r1, totalSeconds))
  {
  }

  /** The orange colour can appear at all exactly when a quarter of the run exceeds 15 s. */
  lemma OrangeOccursIff(totalSeconds: int)
    ensures (exists r :: ZoneOf(r, totalSeconds) == Orange) <==> totalSeconds / 4 > 15
  {
    if totalSeconds / 4 > 15 {
      assert ZoneOf(totalSeconds / 4, totalSeconds) == Orange;
    }
  }

  /** The rendered zone: the paused look exactly while on hold, the colour otherwise. */
  lemma RenderedZoneRule(s: TimerState, remaining: int)
    ensures RenderedZone(s, remaining) == PausedLook <==> PhaseOf(s) == OnHold
    ensures PhaseOf(s) != OnHold ==> RenderedZone(s, remaining) == ZoneOf(remaining, s.totalSeconds)
  {
  }

  // ===== Worked scenarios =====

  /** A one-minute run: at 15 s left both thresholds meet and red wins; and an orange look never occurs. */
  lemma OneMinuteRunRedWins(s: TimerState, now: int)
    requires 0 < now
    ensures var n := StartFromMinutes(s, 1, now).state;
      ZoneOf(15, n.totalSeconds) == Red && OrangeZoneSec(n.totalSeconds) == 15 &&
      Tick(n, now + 45000).zone == Red && Tick(n, now + 45000).remaining == 15 &&
      Last15 in Tick(n, now + 45000).events
    ensures forall r :: ZoneOf(r, 60) != Orange
  {
    StartFromMinutesEffect(s, 1, now);
    var n := StartFromMinutes(s, 1, now).state;
    assert ElapsedMs(n, now + 45000) == 45000;
  }

  /** A ten-minute run paused 5 s in, resumed 10 s later, polled 999 ms after
      the resume: 5.999 s have counted, so 595 s are left. */
  lemma TenMinutePauseScenario()
    ensures var s := StartFromMinutes(Initial, 10, 1000).state;
      var back := PauseResume(s, 6000, 16000);
      Tick(back, 16999).remaining == 595
  {
    var s := StartFromMinutes(Initial, 10, 1000).state;
    StartFromMinutesEffect(Initial, 10, 1000);
    PauseResumeNoDrift(s, 6000, 16000, 16999);
    assert ElapsedMs(s, 6999) == 5999;
  }
}
