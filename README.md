# Countdown timer model

This project models the logic of a single-page countdown. The page counts down to a fixed moment. Once that moment is reached it switches to a celebration view.

On each tick the `CountdownTimer` component takes the whole number of seconds left until the target. If that number is zero or less, the component raises its `isFinished` flag and zeroes the display. Otherwise it splits the number into days, hours, minutes and seconds. It does this with floor division and remainder, and stores the four fields. The view then shows either the celebration panel or four cells. Each cell is a field written in decimal and padded on the left with `'0'` to at least two characters.

The model has three modules:

- `TimeLeftSplit` (`time_left.dfy`): the `TimeLeft` value and the split `Decompose`. It has lemmas about the split:
  - the fields add back up to the total;
  - each field stays within its bound;
  - the split is unique and injective;
  - it preserves and reflects order;
  - one second less remaining is the previous display with one second borrowed (`Decrement`).
- `Countdown` (`countdown_timer.dfy`):
  - the component's two pieces of state as the class `CountdownTimer`, whose method `CalculateTimeLeft` is one tick;
  - the pure transition `Next` that specifies the tick;
  - `Run`, a fold of `Next` over a sequence of ticks, standing in for the repeated timer callbacks. Its lemmas cover the one-way flag and what the display shows after a run.
- `Display` (`display.dfy`): number-to-decimal-string, `padStart`, the two-digit cell `Pad2` and the view switch `Render`. It also has a digit reader `ParseDecimal`, which is used to prove that every cell reads back as its field.

A sum type `Counting(t) | Finished` would move from counting to finished exactly once. The code instead holds a flag next to the display fields, and the model keeps that form. Only a tick that sees zero or less writes the flag, and it writes `true`. A tick that sees a positive total replaces the display but leaves the flag as it was. So if the clock moves back after the target, the flag stays raised while the display becomes non-zero again. `Next`, `CountdownTimer.CalculateTimeLeft` and `ClockMovesBack` keep and exhibit that behaviour.

## Model

| member | source | states |
|---|---|---|
| `TimeLeftSplit.Decompose` | src/components/CountdownTimer.tsx:34-37 | the split of a non-negative total has non-negative days, hours below 24, and minutes and seconds below 60 |
| `TimeLeftSplit.DecomposeReconstructs` | src/components/CountdownTimer.tsx:34-37 | days·86400 + hours·3600 + minutes·60 + seconds equals the total that was split |
| `TimeLeftSplit.DecomposeUnique` | src/components/CountdownTimer.tsx:34-37 | a value with in-range fields is the split of a total exactly when it adds up to that total |
| `TimeLeftSplit.DecomposeInjective` | src/components/CountdownTimer.tsx:34-37 | two totals have the same split exactly when they are equal |
| `TimeLeftSplit.LexLessIffFewerSeconds` | src/components/CountdownTimer.tsx:34-37 | on in-range values, lexicographic order of (days, hours, minutes, seconds) is the same as the order of the totals, in both directions |
| `TimeLeftSplit.DecomposeOrder` | src/components/CountdownTimer.tsx:34-37 | the split of t1 is lexicographically below the split of t2 exactly when t1 < t2 |
| `TimeLeftSplit.Decrement` | src/components/CountdownTimer.tsx:34-37 | one second of borrow on a non-zero in-range display keeps it in range, lowers its total by exactly one and moves it lexicographically down |
| `TimeLeftSplit.DecomposeStep` | src/components/CountdownTimer.tsx:34-43 | for a positive total, one second less remaining splits into the borrow-decremented previous display, so ticks a second apart never skip or repeat a display |
| `TimeLeftSplit.DecomposeBoundaries` | src/components/CountdownTimer.tsx:34-37 | 1 → (0,0,0,1), 60 → (0,0,1,0), 3600 → (0,1,0,0), 86400 → (1,0,0,0), 86399 → (0,23,59,59) |
| `Countdown.Next` | src/components/CountdownTimer.tsx:28-39 | after a tick the flag is raised exactly when it already was or the total was ≤ 0; a total ≤ 0 zeroes the display; a positive total gives in-range fields that add up to it |
| `Countdown.Run` | src/components/CountdownTimer.tsx:42-43 | the state after the repeated ticks, in order: a raised flag stays raised, and after at least one tick every field is within its bound |
| `Countdown.RunFinishedIff` | src/components/CountdownTimer.tsx:28-43 | after any sequence of ticks the flag is raised exactly when it started raised or some tick saw a total ≤ 0 |
| `Countdown.FinishedIsFinal` | src/components/CountdownTimer.tsx:28-39 | once the flag is raised, every later sequence of ticks leaves it raised |
| `Countdown.RunShowsLastTick` | src/components/CountdownTimer.tsx:28-39 | after a non-empty sequence of ticks the display is what the last tick alone would write |
| `Countdown.RunInRange` | src/components/CountdownTimer.tsx:28-39 | every field stays within its bound across any sequence of ticks |
| `Countdown.CountdownTimer.constructor` | src/components/CountdownTimer.tsx:13-14 | the initial state is an all-zero display with the flag down |
| `Countdown.CountdownTimer.CalculateTimeLeft` | src/components/CountdownTimer.tsx:21-40 | one tick updates the fields to `Next` of the old state: ≤ 0 raises the flag and zeroes the display; > 0 writes in-range fields adding up to the total and leaves the flag unchanged; the flag never goes down |
| `Countdown.ClockMovesBack` | src/components/CountdownTimer.tsx:28-39 | a tick seeing 0 followed by a tick seeing 5 leaves the flag raised beside the display (0,0,0,5) |
| `Display.DecimalString` | src/components/CountdownTimer.tsx:114 | a number's decimal string is non-empty and made of digits only |
| `Display.PadStart` | src/components/CountdownTimer.tsx:114 | padding gives length max(width, original length), ends with the original string, and is preceded only by fill characters |
| `Display.DecimalStringLength` | src/components/CountdownTimer.tsx:114 | the decimal string has one digit exactly for values below ten, and at most two below one hundred |
| `Display.DecimalStringNoLeadingZero` | src/components/CountdownTimer.tsx:114 | the decimal string starts with '0' exactly for the value zero |
| `Display.DecimalStringReadsBack` | src/components/CountdownTimer.tsx:114 | reading the decimal string gives back the number |
| `Display.ParseDecimalLeadingZero` | src/components/CountdownTimer.tsx:114 | a leading '0' does not change the value a digit string reads as |
| `Display.Pad2` | src/components/CountdownTimer.tsx:114-135 | `toString().padStart(2, '0')` of a field: a cell is always at least two characters long (digits, leading zero and read-back are in the three rows below) |
| `Display.Pad2Length` | src/components/CountdownTimer.tsx:114-135 | a cell has length ≥ 2, exactly 2 for values below 100, and is the plain decimal string from 10 on |
| `Display.Pad2LeadingZero` | src/components/CountdownTimer.tsx:114-135 | a cell starts with '0' exactly when its value is below 10, and is then '0' followed by the one digit |
| `Display.Pad2ReadsBack` | src/components/CountdownTimer.tsx:114-135 | a cell is all digits and reads back as its field's value |
| `Display.Render` | src/components/CountdownTimer.tsx:69-139 | the celebration view is shown exactly when the flag is raised; otherwise there are four cells, each at least two characters long (which field each cell shows is `RenderCellsShowFields`) |
| `Display.RenderCellsShowFields` | src/components/CountdownTimer.tsx:111-139 | while counting, the four cells show days, hours, minutes and seconds in that order: each is all digits and reads back as its field |
| `Display.CellsReadBackTotal` | src/components/CountdownTimer.tsx:111-139 | after a positive tick, while the flag is down, the four cells weighted by 86400, 3600, 60 and 1 read back as the measured total |
| `Display.CelebrationIsFinal` | src/components/CountdownTimer.tsx:69-95 | once the celebration view is shown, it stays shown after any later ticks |

## Left out

- The clock read and the time-zone library calls that compute the total (src/components/CountdownTimer.tsx:22-26). The total is a plain integer parameter of `CalculateTimeLeft` and `Next`. Because both operands are converted with their own Cairo offset, the real total can be off by an hour across a daylight-saving change. That belongs to the library and is not modelled.
- The one-second `setInterval`, its `clearInterval` on unmount and the effect lifecycle (lines 42-45). These are host timer plumbing. Repeated ticks are modelled as repeated `CalculateTimeLeft` calls and, as values, as `Run` over a sequence of totals.
- The share and copy handlers (lines 50-67). They only call the platform's share sheet, clipboard and window APIs.
- Layout, styling, aria labels and the fixed display texts of the view (lines 69-149). Only the view switch and the padded cells are modelled.
- src/main.tsx: it mounts the component under the theme and router providers and has no logic of its own.
- JavaScript numbers are doubles. Above 2^53 the arithmetic is no longer exact, and number-to-string switches to exponent form from 10^21. Integers here are unbounded, so neither effect is modelled. Remaining times that large are far beyond any real countdown.
- `DecimalString` does not cover negative numbers (a leading '-'). Every displayed field is non-negative (`CountdownTimer.Valid`), so that case never reaches the view.
