# Pixel countdown timer — verified model of its fill state machine

Untime-Web is a countdown timer for the browser. It shows the run as a grid of
6-pixel dots spaced 3 pixels apart, and the dots light up one by one as the run
proceeds. When every dot is lit an alarm plays. A click toggles an `HH:MM:SS`
readout of the time left. After a window resize, the grid is rebuilt without
forgetting which dots were lit.

This project models the state machine behind that, which lives in
`scripts.js`. The module-level variables `durationInSeconds`, `totalPixels`,
`activePixels`, `activeDots` and `displayRemaining` become the fields of the
class `Timer.PixelTimer`. The dots on screen become a `seq<bool>` field,
`cells`, where `true` means the dot has the `active` class. Each handler of the
script is a method on that class. The arithmetic parts are pure functions in
their own modules:

- `Grid`: the dot count for a viewport, `floor(w / 9) * floor(h / 9)`.
- `Fill`: the dot count a tick aims for, from the elapsed time. `Filled` is
  where the activation loop stops, and `Range` holds the indices it lights.
- `Clock`: the remaining time, clamped at zero, and its `HH:MM:SS` text. Each
  field is `Math.floor(...).toString().padStart(2, '0')`. It comes with a
  parser that reads the text back, which serves as the round-trip partner.
- `Timer`: the class and the handlers `initializeTimer`, `startTimer`,
  `updatePixel`, `updateRemainingTime`, `resetTimer`, `toggleDisplay` and the
  debounced resize callback.

Time is an input. Every operation that reads `performance.now()` takes
`elapsed`, the seconds since the recorded start, as a parameter. This value is
non-negative because the clock is monotonic. An animation-frame callback is a
single method call, and the value it returns says whether it asks for another
frame (`Continue`) or plays the alarm (`Alarm`). The `alert` of a refused start
becomes the `Rejected` result. Each input field arrives as whatever `parseInt`
returned for it: `NaN`, or a whole number.

JavaScript numbers are modelled as exact reals. The activation target
`floor((elapsed / (durationInSeconds - 0.5)) * totalPixels)` is a `Fill.Target`:

- An ordinary floor is `Finite(n)`.
- Infinity is `Unbounded`. It comes from an entered duration of 0 once any time
  has passed.
- NaN is written as `Finite(0)`. In the activation loop, NaN (0/0, or Infinity
  times an empty grid) lets no dot through, and so does 0.

## Behaviour of the code worth knowing

- The resize callback calls `startTimer` whenever `activePixels < totalPixels`
  (scripts.js:53-56). That call zeroes the counter and takes a fresh start
  time, so the run starts again from the full duration instead of resuming. The
  indices lit before are still in `activeDots`, and those dots stay lit. The
  call also happens before any start, on the settings screen: the fields are
  read and a run begins. `Timer.PixelTimer.OnResize` models exactly that.
- If a resize shrinks the grid, `activePixels` can end up larger than
  `totalPixels`. A design where the counter never exceeds the dot count is not
  what the code does, so the model has no such invariant.
- The stored duration is the entered seconds plus 0.5. So a start is refused
  only when the entered total is negative (`RejectedIffNegative`). An entered
  total of 0 starts a run that fills the whole grid on the first tick with any
  elapsed time (`ZeroDurationFillsGrid`). Because `activePixels` is zeroed
  before the check (scripts.js:63), a refused start still resets the counter,
  and it also stores the refused duration.
- The readout and the dots do not finish together. When a tick lights the last
  dot, the readout already shows `00:00:00` (`ZeroReadoutAtCompletion`). The
  converse does not hold: the stored duration is half a second longer than the
  fill, so the readout stops at `00:00:00` while dots are still dark. A
  10-second run on 100 dots reads `00:00:00` at 9.75 seconds, with 97 dots lit
  (`ZeroReadoutBeforeCompletion`).

## Model

| member | source | states |
|---|---|---|
| Grid.CellsAlong | scripts.js:18-24 | the dot count along one side is the largest `n` with `n * 9 <= extent`, and it is 0 exactly when the extent is under 9 pixels |
| Grid.CellCount | scripts.js:21-25 | `totalPixels` is columns times rows, and it is 0 exactly when the viewport is narrower or shorter than 9 pixels |
| Grid.CellCountMonotone | scripts.js:23-25 | a larger viewport never has fewer dots |
| Grid.GridFitsViewport | scripts.js:23-25 | the dots with their gaps take up no more area than the viewport |
| Fill.PixelsToActivate | scripts.js:105-109 | the target is the floor of `(elapsed / adjusted) * total`; it is unbounded exactly when the adjusted duration is 0, some time has passed and the grid is non-empty; the remaining cases of a zero duration are NaN, written as `Finite(0)` |
| Fill.Filled | scripts.js:112-116 | the loop's stopping count: every count it passes is below both the target and the grid size, and the count it stops at is not below both |
| Fill.FilledUnique | scripts.js:112-116 | a count that either never moved or made its last step from below both bounds, and that is not itself below both, is exactly `Filled` |
| Fill.FilledIsCappedMax | scripts.js:112-116 | a tick ends at `max(old, min(target, total))`, never below the old count, and never above the grid size if it started inside it |
| Fill.TicksCompose | scripts.js:107-116 | two ticks against non-decreasing targets end where a single tick against the later target ends, so dropped frames do not change the fill |
| Fill.TargetMonotone | scripts.js:108-109 | for any non-negative adjusted duration, including 0, a later sample never asks for fewer dots |
| Fill.TargetReachesGridIff | scripts.js:108-109 | on a non-empty grid, the target reaches the full grid exactly when the adjusted duration has elapsed |
| Fill.ZeroDurationFillsGrid | scripts.js:89-109 | with an entered duration of 0, the first tick with any elapsed time lights the whole grid |
| Fill.NaNTargetLightsNothing | scripts.js:109-116 | with an adjusted duration of 0 sampled at elapsed 0, the target `0 / 0` is NaN and the tick lights nothing |
| Fill.EmptyGridActivatesNothing | scripts.js:112-123 | on a grid of 0 dots, a tick lights nothing |
| Fill.OneMinuteHundredDots | scripts.js:71-116 | a one-minute run on 100 dots has lit all 100 after 60 seconds |
| Fill.TenSecondsHundredDots | scripts.js:108-116 | a 10-second run on 100 dots has lit 97 after 9.75 seconds |
| Fill.Range | scripts.js:112-116 | the indices a loop from `lo` to `hi` visits are exactly those with `lo <= i < hi` |
| Fill.RangesJoin | scripts.js:112-116 | the indices a tick adds join the previous prefix into one contiguous range |
| Fill.TickKeepsPrefix | scripts.js:112-116 | if the lit indices were `{0..old-1}`, after the tick they are `{0..new-1}` |
| Fill.Marked | scripts.js:32-39 | in a rebuilt grid, dot `i` is lit exactly when `i` is in `activeDots` |
| Clock.Remaining | scripts.js:130 | the remaining time is non-negative, at least `duration - elapsed`, and equal to it or to 0 |
| Clock.Rem | scripts.js:133-134 | the script's `%` on a non-negative operand gives a remainder in `[0, m)` |
| Clock.RemLeavesWholeMultiple | scripts.js:133-134 | what `%` takes away is a whole multiple of `m`, so with the bounds it is the remainder of the floored quotient |
| Clock.Fields | scripts.js:132-134 | the hours field is the floor of `remaining / 3600`, and the minutes and seconds fields are below 60 |
| Clock.FloorDiv | scripts.js:132 | for a non-negative real, the floor of its quotient by a whole number is the whole-number quotient of its floor |
| Clock.FloorRem | scripts.js:133-134 | the floor of the remainder `x % k` is `floor(x) % k` |
| Clock.FieldsOfWholeSeconds | scripts.js:130-134 | the hours, minutes and seconds fields are `n / 3600`, `(n % 3600) / 60` and `n % 60` of `n = floor(remaining)` |
| Clock.Recombine | scripts.js:132-134 | those three fields have minutes and seconds below 60 and add back up to `n` |
| Clock.FieldsAreClockReading | scripts.js:130-134 | the shown fields satisfy `H*3600 + M*60 + S == floor(remaining)`, with `M < 60` and `S < 60` |
| Clock.Decimal | scripts.js:132-134 | `toString` of a whole number is a non-empty string of digits, of 1 digit below 10 and 2 digits from 10 to 99, with no leading zero unless the number is 0 |
| Clock.DecimalRoundTrip | scripts.js:132-134 | the decimal text reads back as the number |
| Clock.PadStart | scripts.js:132-134 | `padStart` gives a string of the larger of the two lengths, ending in the original, with the fill character before it |
| Clock.Field | scripts.js:132-134 | each field is at least 2 digits, and exactly 2 below 100 |
| Clock.FieldRoundTrip | scripts.js:132-134 | a zero-padded field reads back as its number |
| Clock.LeadingZeros | scripts.js:132-134 | leading zeros from the padding do not change a field's value |
| Clock.Compose | scripts.js:136 | the readout joins the three fields with colons and is at least 8 characters long |
| Clock.Readout | scripts.js:130-136 | the text shown for a remaining time parses back into exactly the hours, minutes and seconds computed from it |
| Clock.ThreeFieldsSplit | scripts.js:136 | three digit fields joined by colons split at the colons into those three fields |
| Clock.ComposeRoundTrip | scripts.js:136 | the readout splits into three fields at its colons and parses back into the hours, minutes and seconds it was made from |
| Clock.ReadoutRoundTrip | scripts.js:130-136 | the readout parses back into fields totalling `floor(remaining)`, with minutes and seconds below 60; hours have at least 2 digits, minutes and seconds exactly 2 |
| Clock.ReadoutZeroIff | scripts.js:130-136 | the readout is `00:00:00` exactly when less than one second remains |
| Clock.RemainingNonIncreasing | scripts.js:128-130 | as the elapsed time grows, the remaining time and its whole seconds never increase |
| Timer.FieldValue | scripts.js:66-68 | a field that does not parse counts as 0, and otherwise as its parsed value |
| Timer.RequestedSeconds | scripts.js:66-71 | the formula `h*3600 + m*60 + s` of scripts.js:71 over the field values (written as the seconds field plus 60 times the minutes, 60 per hour); a request with no parsable field is 0 |
| Timer.ZeroReadoutAtCompletion | scripts.js:71-136 | when a tick of a non-negative request lights the last dot, the readout of the stored duration already shows `00:00:00` |
| Timer.ZeroReadoutBeforeCompletion | scripts.js:71-136 | the converse fails: a 10-second run on 100 dots reads `00:00:00` at 9.75 seconds with only 97 dots lit |
| Timer.RejectedIffNegative | scripts.js:71-77 | `requested + 0.5 <= 0` exactly when the whole-second request is negative |
| Timer.PixelTimer.constructor | scripts.js:1-9 | page load: duration 0, counter 0, no lit indices, readout shown, then a grid built for the viewport with no dot lit |
| Timer.PixelTimer.InitializeTimer | scripts.js:13-42 | the grid gets `CellCount(w, h)` dots, dot `i` lit exactly when `i` is in `activeDots`; the counter, lit indices, duration and display flag are unchanged |
| Timer.PixelTimer.UpdatePixel | scripts.js:104-124 | the counter ends at `Filled(old, target, total)`, exactly `[old, new)` is added to `activeDots`, the grid matches the lit indices, and the tick continues exactly when dots are left, otherwise the alarm plays |
| Timer.PixelTimer.StartTimer | scripts.js:61-101 | the duration becomes `h*3600 + m*60 + s + 0.5`, and the start is rejected exactly when the request is negative; a rejected start zeroes the counter and changes nothing else; an accepted start shows the readout and takes the first tick from 0 |
| Timer.PixelTimer.UpdateRemainingTime | scripts.js:127-141 | the text is the readout of the clamped remaining time, and the readout loop asks for another frame exactly while `activePixels < totalPixels` |
| Timer.PixelTimer.ResetTimer | scripts.js:144-159 | after a reset the counter is 0, there are no lit indices, the readout is hidden, and the rebuilt grid has no dot lit |
| Timer.PixelTimer.ToggleDisplay | scripts.js:179-187 | the display flag is negated, so toggling twice restores it |
| Timer.PixelTimer.OnResize | scripts.js:50-58 | the grid is rebuilt and no lit index is lost; the timer restarts exactly when the old counter is below the new dot count. Otherwise the counter, lit indices, duration and display flag are kept. A restart stores the new duration and is refused exactly when the request is negative. A refused restart zeroes the counter and keeps the lit indices and the display flag; an accepted one shows the readout, and its first tick ends at `Filled(0, target, total)` and reports whether dots are left |

## Left out

- DOM work is not modelled: clearing and appending elements, class lists, `style.display` and the CSS grid templates. The dots are the `cells` flags, and container visibility is not part of the state.
- `requestAnimationFrame`, `cancelAnimationFrame`, `setTimeout`, `clearTimeout` and the 200 ms resize debounce are left out. These belong to the browser's event loop. A tick and a resize callback are each one method call, and the pending-frame handle `timerTimeout` is not kept.
- `performance.now()` and `startTime` are replaced by the `elapsed` parameter. Floating-point rounding is not modelled, because numbers are exact reals.
- `intervalTime` and `nextActivationTime` are left out: they are computed (scripts.js:92, 96) but never read.
- `parseInt` itself is not modelled: it is a JavaScript builtin. Its result is the input.
- `playAlarm` and `alert` are not modelled, because they are audio and user-interface side effects. They are the `Alarm` and `Rejected` results.
- The click listener and `window.onload` wiring (scripts.js:168-176) are left out, apart from the page load, which is the constructor.
- Timer.PixelTimer.InitializeTimer: does not model the readout refresh it triggers when `displayRemaining` is set (scripts.js:44-46), because that only writes text to the page. `UpdateRemainingTime` models the refresh itself.
- Clock.Decimal: models the decimal text of every whole number, whereas the script's `toString` prints numbers of 10^21 or more in exponent form (`1e+21`), so an hours field that large is shown differently; number printing is not modelled beyond plain digits.
- Timer.PixelTimer.StartTimer: does not model the `updateRemainingTime()` call at the end of an accepted start (scripts.js:100), and neither does the restart path of Timer.PixelTimer.OnResize. That call only writes the readout text and schedules its frame loop. `UpdateRemainingTime` models one such refresh.
- Timer.PixelTimer.UpdateRemainingTime: takes a real `elapsed`, so it does not model the readout computed at page load before any start. There `startTime` is still undefined and the elapsed time is NaN (scripts.js:6, 44-45, 129).
- The post-completion glow animation is not part of this model: it is not in `scripts.js`.
