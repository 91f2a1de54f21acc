# Stegvisaren step guide — a Dafny model

Stegvisaren ("Step Guide") is a small GTK application that walks a child through
an everyday routine ("Brush Teeth", "Get Dressed", "Pack School Bag",
"Bedtime") one step at a time. Its main window holds two pieces of logic that
this project models apart from the widgets:

* the **step navigator** — the static template table, starting a task, the
  "✓ Done!" button that advances a step or, on the last step, shows the done
  page, the step page's "Step i+1 of n" label and progress bar, and the Back /
  "Do something else" buttons that return to the picker;
* the **seven-click easter egg** — every click on the header-bar icon counts,
  replaces the 500 ms reset timeout by a fresh one, and the seventh click in a
  burst sets the egg off and zeroes the counter; the timeout, when it fires,
  zeroes the counter and forgets its handle.

Modules:

* `Outcomes` (`outcomes.dfy`) — `Option` and `Result` with the two Python
  exceptions the handlers can raise (`IndexError`, `TypeError`).
* `Templates` (`templates.dfy`) — the template table and Python's list
  subscript, negative indices included.
* `Navigator` (`navigator.dfy`) — the navigator state (selected template, step
  index, visible page, what the step page last displayed) and its transitions.
  The progress bar's float is kept as an exact fraction `num/den`.
* `EasterEgg` (`easter_egg.dfy`) — the click counter, `_egg_timer`, a count of
  how many times the egg fired, and the main loop reduced to the set of
  pending timeout ids plus the next id GLib will hand out. A timeout fires
  only through the explicit `Expire` event.
* `Window` (`window.dfy`) — both parts together, the events the widgets and
  the main loop deliver, which of them can happen on which page, and runs of
  arbitrary event sequences from the freshly built window.

Behaviour of `main.py` worth stating plainly:

* The navigator has no phase of its own. Completion is only the done page
  being visible, and nothing is reset: Back and "Do something else" change
  only the visible page, leaving the task and step index as they were.
* "Done!" with no task raises `TypeError` (subscripting `None`). On the last
  step it brings the done page to the front and leaves the step index and the
  display as they were. Only the step page holds the button, and
  `Window.ReachableNeverRaises` shows that the reachable windows never raise.
* A template card passes its position in the table; an index outside [-4, 4)
  raises `IndexError`, and a negative index selects from the end as Python
  does. Every step list is non-empty because the literal table is.
* When the seventh click sets the egg off, the fresh reset timeout is not
  cancelled: it stays pending, and if it fires before the next click it
  zeroes an already-zero counter (`EasterEgg.FiringLeavesTimerPending`); a
  later click removes it instead.

## Model

| member | source | states |
|---|---|---|
| Templates.All | src/stegvisaren/main.py:20-25 | four templates, in picker order, with 6, 5, 5 and 6 steps; every one has at least one step, so the progress denominator is never 0 |
| Templates.PyIndex | src/stegvisaren/main.py:160 | a subscript succeeds exactly for indices in [-n, n), and then picks the position in [0, n) that is the index itself or the index plus n |
| Templates.Lookup | src/stegvisaren/main.py:160 | `TEMPLATES[index]` yields the template at `index mod 4` for indices in [-4, 4), a well-formed one, and raises `IndexError` otherwise |
| Navigator.Initial | src/stegvisaren/main.py:32-33 | the new window has no task, step 0, the picker visible, and is a valid navigator state |
| Navigator.ViewOf | src/stegvisaren/main.py:165-171 | the step page shows the template's icon, step number i+1 of n, the text of that step, and progress (i+1)/n which lies in (0, 1] and equals 1 exactly on the last step |
| Navigator.UpdateStep | src/stegvisaren/main.py:165-171 | redrawing keeps task, step and page, and displays the task's icon, the current step's text, step+1 of n and progress (step+1)/n |
| Navigator.StartTask | src/stegvisaren/main.py:159-163 | whatever the prior state, a valid index selects that template, sets step 0, shows the step page and leaves a valid state; an invalid one raises `IndexError` |
| Navigator.NextStep | src/stegvisaren/main.py:173-179 | with no task it raises `TypeError`; before the last step it advances by one and keeps the page; on the last step it keeps the index and display and shows the done page; validity (index in range, display up to date) is preserved |
| Navigator.ShowPicker | src/stegvisaren/main.py:132-150 | Back and "Do something else" bring the picker to the front and change neither task, step nor display |
| Navigator.NextSteps | src/stegvisaren/main.py:173-179 | repeated "Done!" presses keep the task and preserve validity |
| Navigator.NextStepsReach | src/stegvisaren/main.py:175-179 | k presses from step i reach step min(i+k, n-1); the done page appears exactly when i+k >= n, otherwise the page is unchanged |
| Navigator.TaskWalkthrough | src/stegvisaren/main.py:159-179 | after a start, k < n presses give step k on the step page; n or more give step n-1 on the done page |
| Navigator.ProgressBounds | src/stegvisaren/main.py:169-171 | the displayed progress of a running task is in (0, 1] and equals 1 exactly on the last step |
| Navigator.ProgressIncreases | src/stegvisaren/main.py:171-177 | an advancing press strictly increases the progress; a non-advancing one leaves the display unchanged |
| Navigator.ProgressMonotone | src/stegvisaren/main.py:171-177 | more presses never show less progress |
| EasterEgg.TimeoutAdd | src/stegvisaren/main.py:185 | `timeout_add` returns a fresh, non-zero id and adds exactly it to the pending sources |
| EasterEgg.SourceRemove | src/stegvisaren/main.py:184 | `source_remove` detaches exactly the given id and reports whether it was pending |
| EasterEgg.Initial | src/stegvisaren/main.py:36-38 | the new window has no clicks, no timer and no firing |
| EasterEgg.Click | src/stegvisaren/main.py:180-188 | after a click the counter is in [0, 6]; the egg fires exactly when the counter reaches 7, which zeroes it, otherwise the counter grows by one; the new timer is fresh and, from a consistent state, the only pending one |
| EasterEgg.ClickRemovesLiveTimer | src/stegvisaren/main.py:183-184 | the timer a click cancels is always still pending |
| EasterEgg.Expire | src/stegvisaren/main.py:190-194 | a pending timeout firing zeroes the counter, clears the handle and detaches itself; the egg does not fire; an id that is not pending changes nothing |
| EasterEgg.Clicks | src/stegvisaren/main.py:180-188 | a burst of clicks keeps the counter in [0, 6] and at most the current timer pending |
| EasterEgg.BurstCounts | src/stegvisaren/main.py:182-188 | k clicks from counter c fire (c+k) div 7 times and leave (c+k) mod 7 on the counter |
| EasterEgg.FiresOnSeventh | src/stegvisaren/main.py:186-188 | a click fires exactly when it is the seventh, fourteenth, ... click counted |
| EasterEgg.SevenClicksFireOnce | src/stegvisaren/main.py:186-188 | seven quick clicks from rest fire once and leave the counter at 0 |
| EasterEgg.PauseForgetsBurst | src/stegvisaren/main.py:182-194 | six clicks then the timeout leave the counter at 0 without firing, no timer pending, and the next click counts 1 |
| EasterEgg.ExpiryRestartsCount | src/stegvisaren/main.py:190-194 | after the timeout fires nothing is pending and the next click counts from 1 |
| EasterEgg.FiringLeavesTimerPending | src/stegvisaren/main.py:185-188 | the firing click zeroes the counter but leaves its fresh timeout pending, and that timeout finds the counter at 0 |
| Window.Initial | src/stegvisaren/main.py:28-38 | the new window is valid in both parts |
| Window.Handle | src/stegvisaren/main.py:91-150 | every handler preserves validity, never raises when its widget is reachable, and touches only its own part of the window |
| Window.Run | src/stegvisaren/main.py:159-194 | any sequence of events from a valid window leaves a valid one |
| Window.ReachableNeverRaises | src/stegvisaren/main.py:159-179 | after any events from the new window, a reachable button never raises |
| Window.AlwaysValid | src/stegvisaren/main.py:159-194 | after any events the step or done page shows only with a task selected, the step index is in range, the counter is in [0, 6] and at most one timeout is pending |
| Window.PickerResumesAtStart | src/stegvisaren/main.py:159-163 | the task and step Back keeps are never resumed: from the picker every possible event leaves the picker showing or opens the step page at step 0 |
| Window.BrushTeethScenario | src/stegvisaren/main.py:159-179 | picking the first card, "Brush Teeth", shows step 1 of 6 at 1/6; five presses reach step index 5 on the step page, the sixth shows the done page |

## Left out

- Widget construction, layout, CSS classes and stack transitions: the stack is the three-valued `Navigator.Page`.
- gettext and locale setup and the `_`/`N_` lookups: names and step texts are the untranslated strings, treated as opaque.
- The "Step %d of %d" and "%d steps" string formatting: the model keeps the two integers.
- The float passed to `set_fraction`: kept as an exact integer fraction.
- The effects of `_trigger_easter_egg` (sound through `paplay`/`pactl`, the toast, the toast overlay): firing is only a counter increment.
- Real time: the 500 ms delay is not modelled; a timeout fires only through an explicit expiry event, so "clicks closer than 500 ms" is "no expiry event between them".
- GLib's 32-bit source-id counter and its wrap-around: ids are unbounded naturals that are never reused, where GLib only avoids ids still attached.
- Other main-loop sources: the modelled main loop holds only the egg timeouts.
- The `App` class, the About dialog and `main()`: application plumbing.
- EasterEgg.Click: requires the main loop's own bookkeeping (ids positive and below the next id to hand out), which GLib guarantees and the handler does not check.
