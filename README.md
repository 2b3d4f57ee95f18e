# Countdown timer engine

A model of the countdown engine behind the single-page timer in
`app/static/script.js`. The page takes a duration in minutes (1 to 99). It
counts down from the moment of the start click, polling every 250 ms. It shows
a message at each whole minute left, once at 15 seconds left, and when time is
up. Its buttons start, pause, resume and restart the run. After the end, the
start button stays locked until the run is restarted or the duration is edited
to a new value.

The project has three modules:

- `Text` (`text.dfy`): the decimal text helpers. This is `fmt`, the `MM:SS`
  formatter, and `clamp`. It also holds the sanitiser that the duration field
  runs on every edit: keep the digits, keep at most two, clamp to [1, 99],
  and rewrite in canonical form.
- `Countdown` (`countdown.dfy`): the engine as values.
  - `TimerState` holds the page's module-level variables. The extra field
    `polling` says whether the 250 ms interval (`tickTimer`) is installed.
  - `RemainingSec` is `computeRemainingSec`. `ZoneOf` and `RenderedZone` give
    the colour rule of `setStrokeByRemaining` and `render`.
  - There is one function per handler: `Tick`, `Poll` (the interval firing),
    `StartFromMinutes`, `ClickStartPause`, `ClickRestart` and `DurationInput`.
  - `Consistent(s, clock)` is the invariant every reachable state keeps.
  - The lemmas state the page's promises about these functions.
- `CountdownEngine` (`engine.dfy`): the class `Timer`. Its fields are the
  page's variables, and its methods update them in place as the handlers do.
  Each method is proved to produce exactly the state and messages of the
  matching `Countdown` function. The event handlers also keep `Valid()`, which
  is `Consistent` at the last clock reading.

Modelling choices:

- The wall clock `Date.now()` is the parameter `now`, in milliseconds. The
  page uses 0 as the "unset" timestamp. The functions of `Countdown` and the
  methods `Timer.Tick` and `Timer.StartFromMinutes` accept any `now`. The
  event handlers `Timer.Poll`, `Timer.ClickStartPause` and `Timer.ClickRestart`
  require `now` not to be behind the last reading, and the two clicks also
  require it to be positive. These are the conditions under which they keep
  the invariant. `Timer.DurationInput` reads no clock.
- The messages shown are returned as `Event` values, in the order the page
  shows them.
- `Number(minutesInput.value)` is the parameter `val: JsNumber`. It is either
  non-finite (NaN or an infinity) or a finite real. `val | 0` is truncation,
  which on [1, 99] is the floor.
- `Math.floor(elapsedMs / 1000)` is Dafny's `/` by 1000. With a positive
  divisor that is floor division, negative operands included.
- `Math.floor(totalSeconds * 0.25)` is `totalSeconds / 4`. Multiplying an
  integer by 0.25 is exact in floating point.
- `lastAnnouncedMin` is an `Option<int>`, with `None` for `null`. Because
  `null * 60` is 0 in JavaScript, `AnnouncedSec(None) == 0`.

What the code does, in the cases where it is easy to assume otherwise:

- After a start or a restart the minute guard holds `min`.
  `startFromMinutes` sets `lastAnnouncedMin` to `null`, but its immediate
  `tick()` sees the full `min * 60` seconds and announces `min` minutes. So a
  start shows `MinuteLeft(min)` and then `Started`, and leaves
  `lastAnnouncedMin == min` (`StartFromMinutesEffect`, `RestartEffect`).
- A start click while running pauses, and while paused resumes. Only the
  restart button begins a new run over a started one (`ClickDispatch`).
- `tick()` changes state. It updates the dedup guards and, at zero, stops the
  interval and sets the lock.
- Each whole minute is announced at most once per run, and "last 15 seconds"
  is shown at most once per run (`RunAnnouncesAtMostOnce`). Either message
  appears only if some poll sees exactly that many seconds left.
- At most one of running, paused and locked holds, with the lock taking
  precedence (`PhaseOf`). A pause clicked after zero is reached but before the
  next poll leaves a locked state whose `pauseStartedAt` is still set.
- The duration edit compares the clamped, parsed field value with
  `lastDurationMin`, not the raw text.
- A ten-minute run started at 1000 ms, paused at 6000 ms and resumed at
  16000 ms has counted 5.999 s at 16999 ms and reports 595 seconds left
  (`TenMinutePauseScenario`). At 17000 ms it has counted 6 s and reports 594.
- In the restart handler the final fallback `: 1` is never taken. Once a run
  has started, `lastDurationMin` is at least 1, so a restart with an invalid
  field value uses the last duration (`RestartEffect`).

## Model

| member | source | states |
|---|---|---|
| `Countdown.RemainingSec` | app/static/script.js:236-241 | the seconds left are never negative, are at least `totalSeconds - floor(elapsed/1000)` and equal it when positive, and are at most `totalSeconds` when elapsed time is not negative |
| `Countdown.RemainingNonIncreasing` | app/static/script.js:238-240 | as the clock advances, the seconds left never grow |
| `Countdown.PausedRemainingFrozen` | app/static/script.js:239 | while stopped with a pause timestamp, the seconds left do not depend on the clock |
| `Countdown.RemainingWithinTotal` | app/static/script.js:236-241 | in every consistent state, at every later instant, the seconds left lie in [0, totalSeconds] |
| `Countdown.TickKeepsCountdown` | app/static/script.js:308-352 | a tick, including the one that locks, never changes the seconds left at any instant, and reports the seconds left before it |
| `Countdown.TruncatedMinutes` | app/static/script.js:367 | truncating a value in [1, 99] gives an integer in [1, 99] that is at most the value and within one below it |
| `Countdown.PauseResumeNoDrift` | app/static/script.js:371-385 | pausing at p freezes the seconds left at their value at p; resuming at r adds r - p to the paused total, so the seconds left at r equal those at p, and later are those of the unpaused run shifted by the pause |
| `Countdown.PauseResumeCyclesNoDrift` | app/static/script.js:371-385 | after any number of ordered pause/resume cycles the run is still counting, and the paused total grows by the sum of the pauses; the seconds left at t are those of the original run at t minus that sum |
| `Countdown.StartFromMinutesEffect` | app/static/script.js:282-306 | a start sets total `min*60`, sets last duration `min` and start time now, zeroes pause time and timestamp, runs, unlocks, marks started and installs the interval; the immediate tick sees `min*60` seconds, so the messages are `MinuteLeft(min)` then `Started`, the minute guard holds `min` and the 15-second guard is clear; the state is consistent |
| `Countdown.MinuteAnnouncedOnce` | app/static/script.js:311-324 | a minute message fires iff the seconds left are positive, a multiple of 60 and differ from the last announced mark; it announces exactly the minutes left, records them, and is strictly below the previous announcement |
| `Countdown.Last15ShownOnce` | app/static/script.js:326-329 | the 15-second message fires iff its guard is clear and exactly 15 seconds are left; the guard is set afterwards and a tick never clears it |
| `Countdown.StepWithinRun` | app/static/script.js:308-391 | a poll, pause, resume, ignored click or edit that keeps the lock leaves the duration, the last duration and the start time unchanged, never shrinks the paused total, moves the minute guard only to a smaller minute, and never clears the 15-second guard |
| `Countdown.StepAnnouncements` | app/static/script.js:311-329 | such an action shows at most one minute message, below the last announced minute and recorded as the new guard, and at most one "last 15 seconds", none if its guard was set, setting the guard |
| `Countdown.RunAnnouncesAtMostOnce` | app/static/script.js:311-329 | over any stretch of such actions the announced minutes strictly decrease and stay below the last one announced before, so each minute is announced at most once; "last 15 seconds" is shown at most once, and not at all if it was shown before; duration and start stay fixed and the paused total only grows |
| `Countdown.GuardsClearedOnlyByNewRun` | app/static/script.js:282-306 | a dedup guard is cleared only by an action that begins a new run or by an edit that unlocks |
| `Countdown.PollIdempotentAtSameInstant` | app/static/script.js:308-352 | a second poll at the same instant changes nothing and shows nothing |
| `Countdown.PollsNonIncreasing` | app/static/script.js:308-309 | successive polls report seconds left that never grow |
| `Countdown.ExpiryLocks` | app/static/script.js:333-351 | a poll locks iff it sees zero seconds left; it then stops running, stops the interval and shows only "time's up" |
| `Countdown.LockedIsTerminal` | app/static/script.js:333-351 | once locked, the seconds left stay 0 and further polls change nothing |
| `Countdown.LockedClickIgnored` | app/static/script.js:355 | while locked, the start/pause click changes nothing and shows nothing |
| `Countdown.LockReleasedOnlyBy` | app/static/script.js:393-470 | from a locked state, an action unlocks iff it is a restart after a first run, or an edit whose parsed minutes differ from the last duration |
| `Countdown.EditResetsToIdle` | app/static/script.js:444-470 | the unlocking edit resets to idle without starting: not running, no start time, pause time or pause timestamp, guards clear, total and last duration kept; any other edit leaves the timer unchanged |
| `Countdown.ClickDispatch` | app/static/script.js:354-391 | from idle the click shows only "invalid" on a non-finite or out-of-range value, and otherwise starts a run of the truncated value; while counting it pauses, freezing the seconds left at their value now; while on hold it resumes, with the seconds left unchanged and the pause added to the paused total; while locked it does nothing |
| `Countdown.RestartEffect` | app/static/script.js:393-412 | a restart before the first run does nothing; otherwise it runs the truncated value if that is valid, else the last duration; the run is fresh and counting, at full time, with the messages `MinuteLeft(m)`, `Started`, `Restarted(m)` |
| `Countdown.StepKeepsConsistent` | app/static/script.js:148-173 | every handler keeps the state invariant under a clock that does not run backwards |
| `Countdown.RunKeepsConsistent` | app/static/script.js:148-173 | every state a sequence of handler calls reaches is consistent, and its seconds left lie in [0, total] |
| `Countdown.InitialConsistent` | app/static/script.js:148-173 | the state at page load is consistent and idle |
| `Countdown.StepFollowsStateMachine` | app/static/script.js:354-470 | every handler moves the phase along idle → running ⇄ on hold → expired, restart → running, expired → idle by an edit |
| `Countdown.PollKeepsConsistent` | app/static/script.js:308-352 | a poll keeps the invariant at the new clock reading |
| `Countdown.ClickKeepsConsistent` | app/static/script.js:354-391 | the start/pause click keeps the invariant |
| `Countdown.RestartKeepsConsistent` | app/static/script.js:393-412 | the restart click keeps the invariant |
| `Countdown.InputKeepsConsistent` | app/static/script.js:444-470 | the duration edit keeps the invariant |
| `Countdown.ZoneRule` | app/static/script.js:243-246 | red iff at most 15 seconds are left; orange iff above 15 and at most a quarter of the total, so red wins a tie; green iff above both |
| `Countdown.ZoneUrgencyGrows` | app/static/script.js:243-246 | as the seconds left decrease, the colour only becomes more urgent |
| `Countdown.OrangeOccursIff` | app/static/script.js:175-176 | orange can appear at all iff a quarter of the total exceeds 15 seconds |
| `Countdown.RenderedZoneRule` | app/static/script.js:272-279 | the paused look shows exactly while on hold (stopped, started, not locked); otherwise the colour rule applies |
| `Countdown.OneMinuteRunRedWins` | app/static/script.js:243-246 | in a one-minute run, both thresholds are 15 s; 45 s in, the ring is red with 15 s left and the 15-second message fires; orange never occurs |
| `Countdown.TenMinutePauseScenario` | app/static/script.js:236-241 | a ten-minute run paused 5 s in and resumed 10 s later reports 595 s left 999 ms after the resume |
| `Text.ValueOfDecimal` | app/static/script.js:448-449 | parsing back the decimal text of n gives n |
| `Text.DecimalShape` | app/static/script.js:449 | decimal text has no leading zero (unless it is 0), one digit below 10 and two below 100 |
| `Text.ValueLeadingZero` | app/static/script.js:184 | a leading zero does not change the value of a digit string |
| `Text.Pad2` | app/static/script.js:184 | `padStart(2, "0")` gives at least two digits, exactly two from at most two, and keeps the value |
| `Text.Clamp` | app/static/script.js:179 | the result is at least lo and at most hi (when lo ≤ hi); it is n inside the range, lo below it and hi above it |
| `Text.PaddedDecimal` | app/static/script.js:184 | a padded part of the formatted time reads back as its number, and is two digits below 100 |
| `Text.FmtReadsBack` | app/static/script.js:180-185 | `fmt(s)` is minutes, ':', then two digits of seconds below 60; they read back to max(0, s) seconds; below 6000 s the text is exactly five characters |
| `Text.KeepDigits` | app/static/script.js:445 | removing the non-digits leaves only digits, no more of them than characters |
| `Text.KeepDigitsAppend` | app/static/script.js:445 | the digits of a concatenation are the digits of each part in order; a single character is kept exactly when it is a digit |
| `Text.KeepDigitsEmptyIff` | app/static/script.js:445 | nothing is left exactly when the text has no digit |
| `Text.Cleaned` | app/static/script.js:445 | the cleaned field is the first two digits of the text, or all of them when there are fewer |
| `Text.ParsedMinutes` | app/static/script.js:448 | the parsed minutes lie in [1, 99]; they are the value of the digits when that is in range, and 1 for zero |
| `Text.SanitisedFieldShape` | app/static/script.js:445-449 | after an edit the field is empty iff the text had no digit; otherwise it holds the canonical decimal text, without a leading zero, of the parsed minutes in [1, 99] |
| `Text.SanitiseIdempotent` | app/static/script.js:445-449 | sanitising a sanitised field changes nothing |
| `Countdown.ElapsedMs` | app/static/script.js:238-239 | the milliseconds counted, frozen at the pause timestamp while paused; its properties are those of `RemainingSec`, `PausedRemainingFrozen` and `PauseResumeNoDrift` |
| `Countdown.OrangeZoneSec` | app/static/script.js:176 | the orange threshold q is `floor(totalSeconds / 4)`: 4q ≤ totalSeconds < 4q + 4 |
| `Countdown.ZoneOf` | app/static/script.js:243-246 | the colour rule; its contract is `ZoneRule` and `ZoneUrgencyGrows` |
| `Countdown.RenderedZone` | app/static/script.js:272-279 | the paused look or the colour; its contract is `RenderedZoneRule` |
| `Countdown.Tick` | app/static/script.js:308-352 | one tick; its contract is `MinuteAnnouncedOnce`, `Last15ShownOnce`, `ExpiryLocks`, `TickKeepsCountdown` and `PollKeepsConsistent` |
| `Countdown.Poll` | app/static/script.js:303-304 | a tick while the interval is installed; its contract is `PollIdempotentAtSameInstant`, `PollsNonIncreasing`, `LockedIsTerminal` and `PollKeepsConsistent` |
| `Countdown.StartFromMinutes` | app/static/script.js:282-306 | a fresh run; its contract is `StartFromMinutesEffect` |
| `Countdown.ClickStartPause` | app/static/script.js:354-391 | the start/pause click; its contract is `ClickDispatch`, `LockedClickIgnored` and `ClickKeepsConsistent` |
| `Countdown.RestartMinutes` | app/static/script.js:396-402 | the restart duration; `RestartEffect` states it is the truncated field value when valid and otherwise the last duration |
| `Countdown.ClickRestart` | app/static/script.js:393-412 | the restart click; its contract is `RestartEffect` and `RestartKeepsConsistent` |
| `Countdown.EditUnlocks` | app/static/script.js:451 | when an edit resets a locked timer; `LockReleasedOnlyBy` and `EditResetsToIdle` state its effect |
| `Countdown.DurationInput` | app/static/script.js:444-470 | the edit's effect on the timer; its contract is `EditResetsToIdle` and `InputKeepsConsistent` |
| `Text.Fmt` | app/static/script.js:180-185 | `fmt`; its contract is `FmtReadsBack` |
| `Text.SanitisedField` | app/static/script.js:444-450 | the field after an edit; its contract is `SanitisedFieldShape` and `SanitiseIdempotent` |
| `Text.Decimal` | app/static/script.js:449 | `String(n)`: at least one character, all digits; `ValueOfDecimal` and `DecimalShape` state the rest |
| `Text.Value` | app/static/script.js:448 | `parseInt(s, 10)` on a digit string; `ValueOfDecimal` states it inverts `Decimal` |
| `CountdownEngine.Timer.constructor` | app/static/script.js:148-173 | the fields start as the page declares them, which is the consistent idle state |
| `CountdownEngine.Timer.Tick` | app/static/script.js:308-352 | the fields, seconds left, zone and messages are those of `Countdown.Tick` |
| `CountdownEngine.Timer.StartFromMinutes` | app/static/script.js:282-306 | the fields and messages are those of `Countdown.StartFromMinutes` |
| `CountdownEngine.Timer.Poll` | app/static/script.js:304 | the interval firing does what `Countdown.Poll` says and keeps the invariant |
| `CountdownEngine.Timer.ClickStartPause` | app/static/script.js:354-391 | the click does what `Countdown.ClickStartPause` says and keeps the invariant |
| `CountdownEngine.Timer.ClickRestart` | app/static/script.js:393-412 | the restart does what `Countdown.ClickRestart` says and keeps the invariant |
| `CountdownEngine.Timer.DurationInput` | app/static/script.js:444-470 | the edit does what `Countdown.DurationInput` says and keeps the invariant; the field is left empty or holding the canonical text of a value in [1, 99] |

## Left out

- DOM work, CSS classes, stroke colours, blink classes and the flash overlay
  are presentation. Only the zone classification is kept.
- The expiry repaint is not modelled. When a poll locks a run that was paused
  after reaching zero, `Tick` reports the zone `PausedLook`, the zone `render`
  chose. The page then repaints the ring red without blinking, in lines
  344-346 of `app/static/script.js`.
- The progress-ring offset `CIRC * (remaining / totalSeconds)` uses floating
  point and `Math.PI`, so it is left out.
- The preloader, `setTimeout` message auto-hiding, and the sticky-message
  bookkeeping (`stickyKey`, `clearMessageIf`, `refreshStickyMessage`) are
  display timing. Messages are modelled only as the emitted `Event` sequence.
- `setInterval` scheduling is left out. The interval is the `polling` flag,
  and the caller invokes `Poll(now)` to fire it.
- The i18n dictionary, `t()`, `setTexts`, `applyLang`, the button labels and
  the `localStorage` language key are string tables and browser storage.
- The keydown and wheel handlers on the duration field are browser input UX.
- The conversion `Number(minutesInput.value)` is the JavaScript runtime's
  string-to-number parse. The clicks take its result as the parameter `val`.
- The restart handler writes the chosen minutes back into the field. The model
  reports that value through the `Restarted(m)` event and does not model the
  field write.
- `startFromMinutes` reads `Date.now()` twice, once for `startedAt` and once in
  the immediate tick. The model uses one reading, `now`, for both.
- The 32-bit wrap-around of `val | 0` and `s | 0` is not modelled. The values
  the page passes lie in [1, 99] and in the non-negative seconds range, where
  the operator is plain truncation.
- `app/main.py` is a two-line static-file mount with no logic.
