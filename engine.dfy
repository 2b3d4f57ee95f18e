/** The countdown engine as the page runs it: one object whose fields are the
    module-level timer variables, updated in place by the handlers. Each
    handler is proved to do what the matching function of module Countdown
    says, and the handlers that the page's events call keep Countdown.Consistent. */
module CountdownEngine {
  import opened Text
  import opened Countdown

  class Timer {
    var totalSeconds: int
    var lastDurationMin: int
    var isRunning: bool
    var startedAt: int
    var pausedAccumMs: int
    var pauseStartedAt: int
    var polling: bool  // tickTimer is installed
    var endLock: bool
    var hasStartedOnce: bool
    var lastAnnouncedMin: Option<int>
    var last15Shown: bool

    /** The last clock reading any handler made. */
    ghost var clock: int

    function State(): TimerState
      reads this
    {
      TimerState(totalSeconds, lastDurationMin, isRunning, startedAt, pausedAccumMs,
                 pauseStartedAt, polling, endLock, hasStartedOnce, lastAnnouncedMin, last15Shown)
    }

    ghost predicate Valid()
      reads this
    {
      Consistent(State(), clock)
    }

    /** The variables as the page declares them when it loads. */
    constructor ()
      ensures Valid() && State() == Initial && clock == 0
    {
      totalSeconds := 0;
      lastDurationMin := 0;
      isRunning := false;
      startedAt := 0;
      pausedAccumMs := 0;
      pauseStartedAt := 0;
      polling := false;
      endLock := false;
      hasStartedOnce := false;
      lastAnnouncedMin := None;
      last15Shown := false;
      clock := 0;
    }

    /** tick(): returns the seconds left, the zone rendered and the messages shown. */
    method Tick(now: int) returns (remaining: int, zone: Zone, events: seq<Event>)
      modifies this
      ensures var t := Countdown.Tick(old(State()), now);
        State() == t.state && remaining == t.remaining && zone == t.zone && events == t.events
      ensures clock == old(clock)
    {
      remaining := RemainingSec(State(), now);
      events := [];
      if remaining > 0 && remaining % 60 == 0 && remaining != AnnouncedSec(lastAnnouncedMin) {
        var m := remaining / 60;
        lastAnnouncedMin := Some(m);
        events := events + [MinuteLeft(m)];
      }
      if !last15Shown && remaining == 15 {
        last15Shown := true;
        events := events + [Last15];
      }
      zone := RenderedZone(State(), remaining);
      if remaining <= 0 {
        polling := false;
        isRunning := false;
        endLock := true;
        events := events + [TimesUp];
      }
    }

    /** startFromMinutes(min). */
    method StartFromMinutes(min: int, now: int) returns (events: seq<Event>)
      modifies this
      ensures var o := Countdown.StartFromMinutes(old(State()), min, now);
        State() == o.state && events == o.events
      ensures clock == old(clock)
    {
      hasStartedOnce := true;
      endLock := false;
      lastDurationMin := min;
      totalSeconds := min * 60;
      startedAt := now;
      pausedAccumMs := 0;
      pauseStartedAt := 0;
      isRunning := true;
      lastAnnouncedMin := None;
      last15Shown := false;
      ghost var begun := State();
      assert begun == old(State()).(hasStartedOnce := true, endLock := false, lastDurationMin := min,
                                    totalSeconds := min * 60, startedAt := now, pausedAccumMs := 0,
                                    pauseStartedAt := 0, isRunning := true, lastAnnouncedMin := None,
                                    last15Shown := false);
      var _, _, ticked := Tick(now);
      assert State() == Countdown.Tick(begun, now).state;
      polling := true;
      events := ticked + [Started];
    }

    /** The 250 ms interval firing at time now. */
    method Poll(now: int) returns (events: seq<Event>)
      requires Valid() && clock <= now
      modifies this
      ensures Valid() && clock == now
      ensures Outcome(State(), events) == Countdown.Poll(old(State()), now)
    {
      PollKeepsConsistent(State(), clock, now);
      if polling {
        var _, _, ticked := Tick(now);
        events := ticked;
      } else {
        events := [];
      }
      clock := now;
    }

    /** The start/pause button, with val the number read from the duration field. */
    method ClickStartPause(val: JsNumber, now: int) returns (events: seq<Event>)
      requires Valid() && clock <= now && 0 < now
      modifies this
      ensures Valid() && clock == now
      ensures Outcome(State(), events) == Countdown.ClickStartPause(old(State()), val, now)
    {
      ClickKeepsConsistent(State(), clock, val, now);
      if endLock {
        events := [];
      } else if !isRunning && startedAt == 0 {
        if !ValidMinutes(val) {
          events := [Invalid];
        } else {
          events := StartFromMinutes(TruncatedMinutes(val.value), now);
        }
      } else if isRunning {
        isRunning := false;
        pauseStartedAt := now;
        events := [Paused];
      } else {
        if pauseStartedAt != 0 {
          pausedAccumMs := pausedAccumMs + (now - pauseStartedAt);
          pauseStartedAt := 0;
        }
        isRunning := true;
        events := [Resumed];
      }
      clock := now;
    }

    /** The restart button, with val the number read from the duration field. */
    method ClickRestart(val: JsNumber, now: int) returns (events: seq<Event>)
      requires Valid() && clock <= now && 0 < now
      modifies this
      ensures Valid() && clock == now
      ensures Outcome(State(), events) == Countdown.ClickRestart(old(State()), val, now)
    {
      RestartKeepsConsistent(State(), clock, val, now);
      if !hasStartedOnce {
        events := [];
      } else {
        var useMin := if ValidMinutes(val) then TruncatedMinutes(val.value)
                      else if lastDurationMin > 0 then lastDurationMin
                      else 1;
        endLock := false;
        var started := StartFromMinutes(useMin, now);
        events := started + [Restarted(useMin)];
      }
      clock := now;
    }

    /** The duration field's `input` handler: returns the text the field is left holding. */
    method DurationInput(raw: string) returns (field: string)
      requires Valid()
      modifies this
      ensures Valid() && clock == old(clock)
      ensures State() == Countdown.DurationInput(old(State()), raw)
      ensures field == SanitisedField(raw)
      ensures field == [] || (1 <= Value(field) <= 99 && field == Decimal(Value(field)))
    {
      ghost var s0 := State();
      var cleaned := Cleaned(raw);
      field := cleaned;
      if cleaned != [] {
        var n := ParsedMinutes(cleaned);
        if Decimal(n) != cleaned {
          field := Decimal(n);
        }
        if endLock && n != lastDurationMin {
          endLock := false;
          isRunning := false;
          startedAt := 0;
          pausedAccumMs := 0;
          pauseStartedAt := 0;
          lastAnnouncedMin := None;
          last15Shown := false;
        }
      }
      assert State() == Countdown.DurationInput(s0, raw);
      InputKeepsConsistent(s0, clock, raw);
      SanitisedFieldShape(raw);
    }
  }
}
