# Stretchy pose-cycle controller in Dafny

A model of the controller of a smartwatch app that cycles through a fixed
catalog of stretching poses. The app keeps four module-level variables: an
`unsigned char` pose index that starts at the sentinel 255, a run/pause flag,
a title-page flag and a seconds counter compared against a fixed interval of
60. It has four handlers. Select starts or stops the timer. Up moves to the
previous pose and Down to the next one, both through `change_pose`. The
once-per-second tick counts a second while running. When the count reaches
the interval, the tick moves to the next pose and requests a short vibration.
It then shows "N seconds left" or "Paused" in the footer.

- `pose_cycle.dfy`, module `PoseCycle`: the state machine as values. It holds
  the index arithmetic on the 8-bit index (`ByteIncrement`, `Next`,
  `Previous`), the state record with the display texts, and one function per
  handler (`ChangePose`, `ToggleRun`, `OnTick`). `Step` and `Run` apply
  handler invocations in sequence. The file also holds the lemmas: modular
  cycling, round trips, the one-way title page, and the timer.
- `stretchy.dfy`, module `Stretchy`: class `Controller`. Its fields are the
  app's variables and what the three text areas show. There is one method per
  handler, written as the program updates its variables. Each method's
  postcondition equates the new state with the `PoseCycle` function applied to
  the old state, and says that the invariant `Valid()` still holds.

The pose catalog is a parameter: a sequence of (fullname, description)
records with 1 to 255 entries, so 255 is never a valid index. The display is
abstract. The header is the 1-based pose number with the pose's full name.
The description area shows the title text or the pose's description. The
footer is empty, a number of seconds left, or "Paused". A vibration request
increments a counter.

Where the code and its comments disagree, the model follows the code. The up
button's comment says "move ahead" but it calls `change_pose(false)`, which
goes to the previous pose. The down button's comment says "move back" but it
goes to the next pose.

A tick that reaches the interval resets the counter before the handler
returns, so between handlers the counter lies in [0, interval - 1]. The model
states that bound.

## Model

| member | source | states |
|---|---|---|
| `PoseCycle.ByteIncrement` | src/stretchy.c:31 | unsigned-char increment: below 255 it adds one, and 255 wraps to 0 |
| `PoseCycle.Next` | src/stretchy.c:29-36 | the next index is always valid (< N); index i < N-1 goes to i+1; N-1 and the sentinel 255 go to 0 |
| `PoseCycle.Previous` | src/stretchy.c:37-46 | from a valid index or the sentinel the result is valid; i in 1..N-1 goes to i-1; 0 and the sentinel 255 both go to N-1 |
| `PoseCycle.Initial` | src/stretchy.c:10-17 | the start-up state is valid: title page, paused, counter 0, index at the sentinel, empty footer, no vibration requested |
| `PoseCycle.ChangePose` | src/stretchy.c:21-55 | from any consistent state, even one whose counter has reached the interval: the index becomes valid, the counter 0, the title page is gone, and header and description show the new pose; run flag, footer and vibrations are untouched, running or paused |
| `PoseCycle.ToggleRun` | src/stretchy.c:57-60 | select only negates the run flag; index, counter, title flag and all texts are unchanged |
| `PoseCycle.OnTick` | src/stretchy.c:109-126 | paused: only the footer changes, to "Paused"; running below the interval: counter + 1 and footer shows interval - counter; reaching the interval: one Next, counter 0, exactly one vibration, footer shows the full interval; the invariant (counter < interval, seconds shown in [1, interval]) is kept |
| `PoseCycle.Step` | src/stretchy.c:57-70 | Up performs Previous, Down performs Next and Select only toggles the run flag; every handler keeps the invariant and never re-enters the title page; Up and Down leave the title page and reset the counter; only the tick vibrates; only select changes the run flag |
| `PoseCycle.Run` | src/stretchy.c:21-126 | any sequence of handler calls from a valid state keeps the invariant (0 <= counter < interval between handlers), never turns the title page back on, and never lowers the vibration count |
| `PoseCycle.Ticks` | src/stretchy.c:109-126 | any number of ticks keeps the invariant and the run flag |
| `PoseCycle.NextOfRemainder` | src/stretchy.c:29-36 | one Next from x mod N gives (x + 1) mod N |
| `PoseCycle.PreviousOfRemainder` | src/stretchy.c:37-46 | one Previous from x mod N gives (x - 1) mod N |
| `PoseCycle.NextPreviousInverse` | src/stretchy.c:29-46 | from any valid index, Previous after Next and Next after Previous both return to that index |
| `PoseCycle.NextsFromIndex` | src/stretchy.c:29-36 | k Next moves from valid index i land on (i + k) mod N |
| `PoseCycle.PrevsFromIndex` | src/stretchy.c:37-46 | k Previous moves from valid index i land on (i - k) mod N |
| `PoseCycle.FullCycleReturns` | src/stretchy.c:29-46 | N Next moves, or N Previous moves, return to the starting index |
| `PoseCycle.NextsDistinct` | src/stretchy.c:29-36 | the first N Next moves from a valid index visit N different indices |
| `PoseCycle.NextsReachAll` | src/stretchy.c:29-36 | every valid index is reached within the first N Next moves |
| `PoseCycle.FirstNextShowsFirst` | src/stretchy.c:31-35 | from start-up, Down shows pose 0 with header number 1 (255 wraps to 0) |
| `PoseCycle.FirstPreviousShowsLast` | src/stretchy.c:40-41 | from start-up, Up shows the last pose: the sentinel is treated like index 0 |
| `PoseCycle.TitleNeverReturns` | src/stretchy.c:22-28 | once the title page is cleared, no sequence of handlers sets it again |
| `PoseCycle.NavigationClearsTitle` | src/stretchy.c:22-28 | any sequence containing an Up or a Down ends with the title page cleared |
| `PoseCycle.ButtonsNeverVibrate` | src/stretchy.c:113-117 | a sequence without ticks requests no vibration |
| `PoseCycle.PausedTicks` | src/stretchy.c:121-123 | any number of ticks while paused leave index, counter, title flag and vibrations unchanged and show "Paused" |
| `PoseCycle.RunningTicks` | src/stretchy.c:110-119 | k ticks while running, short of the interval, only add k to the counter and show interval - counter seconds left |
| `PoseCycle.FullInterval` | src/stretchy.c:110-119 | after starting on a fresh counter: 59 ticks show 1 second left with the pose unchanged; the 60th moves to the next pose, vibrates once, resets the counter and shows 60 seconds left |
| `PoseCycle.ThreePoseWalk` | src/stretchy.c:29-54 | with poses A, B, C: Down shows "1: A", Down again "2: B", then Up goes back to index 0 with "1: A" |
| `PoseCycle.ToggleTwiceThenTick` | src/stretchy.c:57-60 | select twice then a tick: paused, footer "Paused", index and counter unchanged |
| `Stretchy.Controller.constructor` | src/stretchy.c:10-17 | the variables start at index 255, paused, title page, counter 0; the invariant holds |
| `Stretchy.Controller.ChangePose` | src/stretchy.c:21-55 | updates the variables in place exactly as `PoseCycle.ChangePose`: index per Next/Previous, counter 0, title page cleared, header and description refreshed |
| `Stretchy.Controller.SelectClick` | src/stretchy.c:57-60 | negates `start` in place; index, counter, title flag and footer unchanged |
| `Stretchy.Controller.UpClick` | src/stretchy.c:62-65 | the up button performs Previous (the code, not its comment) |
| `Stretchy.Controller.DownClick` | src/stretchy.c:67-70 | the down button performs Next (the code, not its comment) |
| `Stretchy.Controller.Tick` | src/stretchy.c:109-126 | updates the variables exactly as `PoseCycle.OnTick`; paused leaves index, counter and vibrations unchanged with footer "Paused"; running shows interval - counter seconds left, a value in [1, interval] |

## Left out

- Window and text-layer creation and destruction, fonts, colours, alignment and layer visibility (src/stretchy.c:25-27, 79-107, 128-132) are display plumbing. The switch from title formatting to body formatting is not modelled separately; the `titlePage` flag records it.
- Click and tick subscription, `init`, `deinit`, `main` and the event loop (src/stretchy.c:72-77, 134-156) are host wiring. `PoseCycle.Run` stands for the serialized stream of handler calls the host delivers.
- `vibes_short_pulse` is a foreign call to the haptics driver; it is modelled as a count of requests (`pulses`).
- `text_layer_set_text` is modelled by the fields that hold what each area shows, not by rendering.
- The `snprintf` formatting into `pose_name_buffer[50]` and `seconds_buffer[20]` is left out: integer-to-decimal conversion and byte truncation are library behaviour. The header keeps the number and the full name, and the footer keeps the number of seconds.
- The pose catalog `poses.h` is not part of this model. It is a parameter with 1 to 255 entries.
- `show_description` (src/stretchy.c:11) is declared but never read or written, so it is not modelled.
- `interval` is a variable in the source but is never assigned after start-up; it is the constant `Interval`.
