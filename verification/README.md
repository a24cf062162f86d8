# Spin-the-wheel: a Dafny model of the spin engine

The wheel page shows a fixed list of topics as equal slices of a circle.
Each click on *Spin* picks one of the topics still on the wheel, turns the
wheel so that this slice stops under the pointer at the top, and then takes
the topic off the wheel and appends its name to the history of selected
topics. This project models the logic behind that in `script.js` and proves
properties of it. The DOM and CSS code around it is not modelled.

- `utils.dfy` (module `Utils`): `clamp` and the non-negative `modulo`. JavaScript's
  `%` on numbers is written out as the truncating remainder `JsRem`, so
  `Modulo` follows the source's formula `((n % m) + m) % m`. `FloorMod` is the
  independent floor-based definition it is proved equal to.
- `topics.dfy` (module `Topics`): the topic registry. It covers the active list
  (`getActiveTopics`), `topics.find` and the `removed` flag.
- `planner.dfy` (module `Planner`): the two random draws, the slice geometry
  and the rotation and duration arithmetic of `onSpin`. `SliceUnderPointer`
  is an independent description of which slice a given rotation puts under
  the pointer. It uses the conic gradient's `from -90deg` start and the
  pointer at the top.
- `controller.dfy` (module `Controller`): the page state as one record, and
  the two atomic steps.
  - `RequestSpin` is `onSpin`.
  - `CompleteSpin` is the one-shot `transitionend` handler `handleEnd`.
  - `Step` and `Run` replay events: clicks, animation ends and window resizes.
    A resize re-renders the wheel, as the listener at `script.js:215-218` does.
  - `Inv` is the invariant that every event preserves.
- `wrappers.dfy`: the `Option` type.

Angles and durations are exact reals. The two `Math.random()` results are
inputs of `RequestSpin`, each a number in [0, 1).

About the number of turns, the code is followed, not its comment. The comment
at `script.js:162` says "ensure at least 2 full turns". The formula at
`script.js:166` does not guarantee that: it subtracts the current angle and
the slice centre from the extra turns. What `PlanSpin` proves is a strict
bound, `(extraSpins - 2) * 360 + 90 < delta < extraSpins * 360 + 90`, so every
spin turns forward. `FewerThanTwoTurns` gives an input where the net turn is
only 271 degrees. `FiveSliceScenario` shows that the configured wheel's first
spin can already fall short: index 2 with two extra spins turns 630 degrees.

The spin button does not by itself keep a second spin out. A resize during a
spin re-renders the wheel and enables the button again, because the pending
topic is still active (`script.js:123-124`). A click then is turned away only
by the `spinning` check at `script.js:141`. Without a resize the button stays
disabled during a spin, and a click on a disabled button is never dispatched,
so `Step` ignores it. `ResizeDuringSpin` states this,
and `Inv` says nothing about the button while a spin is pending.

## Model

| member | source | states |
|---|---|---|
| Utils.Clamp | script.js:24 | when lo <= hi the result lies in [lo, hi]; it is v when v is already in range, lo below the range, hi above it; with lo > hi it is lo |
| Utils.JsRem | script.js:25 | JavaScript's `%` for m > 0: the remainder lies strictly between -m and m and has the sign of the dividend |
| Utils.JsRemWholeMultiple | script.js:25 | what `%` takes away from n is a whole number of copies of m; with `JsRem`'s bounds and sign this fixes its value |
| Utils.Modulo | script.js:25 | for every m > 0 the source's double-remainder formula lands in [0, m) |
| Utils.ModuloIsFloorMod | script.js:25 | on a whole turn the source's formula equals the floor-based modulo n - 360 * floor(n / 360) |
| Utils.ModuloWholeTurns | script.js:25 | n - modulo(n, 360) is a whole number of turns |
| Utils.ModuloShift | script.js:25 | adding whole turns to an angle does not change its modulo |
| Utils.ModuloIdempotent | script.js:178 | renormalising an angle that is already in [0, 360) changes nothing |
| Topics.Active | script.js:27-29 | the active list is no longer than the registry and holds only topics that are not removed |
| Topics.ActiveMembers | script.js:27-29 | a topic is in the active list exactly when it is in the registry and not removed |
| Topics.ActiveAtRank | script.js:27-29 | each active topic appears in the active list at the position given by the number of active topics before it |
| Topics.ActiveKeepsOrder | script.js:27-29 | two active topics keep their registry order in the active list, at distinct positions |
| Topics.ActiveEmpty | script.js:27-29 | the active list is empty exactly when every topic is removed |
| Topics.AllActive | script.js:27-29 | when nothing is removed the active list is the whole registry, in order |
| Topics.FindIndex | script.js:187 | `find` returns the first index whose name matches, or nothing when no name matches |
| Topics.MarkRemoved | script.js:187-188 | names and length are kept; only the first topic with the name gets flagged, and flags are never cleared; an unknown name leaves the registry unchanged |
| Topics.MarkRemovedUnique | script.js:187-188 | with unique names, exactly the topic with the chosen name becomes removed and no other flag changes |
| Topics.MarkRemovedActiveCount | script.js:187-188 | with unique names, removing an active topic shortens the active list by exactly one |
| Planner.ChooseRandomIndex | script.js:135-137 | for n >= 1 and a draw in [0, 1) the index lies in [0, n) |
| Planner.ChooseRandomIndexInterval | script.js:135-137 | index k is chosen exactly when the draw lies in [k/n, (k+1)/n): each slice gets an equal share of the draws |
| Planner.ExtraSpins | script.js:164 | the turn count is 2, 3 or 4, drawn like an index over three choices, plus 2 |
| Planner.Duration | script.js:165 | the duration lies in [2, 4] seconds and is 1.6 + 0.6 * extraSpins for 2 to 4 spins |
| Planner.DurationValues | script.js:165 | 2, 3 and 4 turns animate for 2.8, 3.4 and 4.0 seconds |
| Planner.DurationMonotone | script.js:165 | more turns never give a shorter duration |
| Planner.SliceSize | script.js:157 | n slices of this size make exactly one full turn |
| Planner.CenterAngle | script.js:156-160 | the centre angle lies strictly inside its own slice, strictly between 0 and 360, and its slice index is idx |
| Planner.SliceUnderPointer | script.js:34-41 | with the gradient starting at -90deg and slice i spanning [i * slice, (i + 1) * slice), the result is the one slice whose span holds the pointer's wheel angle, modulo(90 - rotation, 360) |
| Planner.PlanSpin | script.js:156-167 | the plan records the slice's centre angle, the normalised current rotation, the turn count and its clamped duration; the final rotation puts slice idx under the pointer and its angle mod 360 is 90 - centreAngle whatever the prior rotation, so the slice centre ends at angle 0; counted from the start of the current whole turn the target lies strictly between extraSpins*360-270 and extraSpins*360+90, which with the landing angle fixes it; (extraSpins-2)*360+90 < delta < extraSpins*360+90 |
| Planner.LandingAngle | script.js:160-167 | the planned final rotation differs from 90 - centreAngle by whole turns, so the slice centre is drawn exactly at the pointer |
| Planner.RenormalisePreservesSlice | script.js:178 | normalising the rotation into [0, 360) keeps the same slice under the pointer |
| Planner.LandingIndependentOfHistory | script.js:163-167 | two plans for the same slice land at the same angle, whatever the prior rotation and turn count |
| Planner.FewerThanTwoTurns | script.js:162-166 | one slice, a wheel at rest at 359 degrees and two extra spins turn the wheel by only 271 degrees, less than the two turns the comment promises |
| Planner.FiveSliceScenario | script.js:156-167 | five topics, index 2, rest at 0 and two spins: centre 180, delta 630, final rotation 630, duration 2.8 s; that is less than two full turns |
| Controller.Render | script.js:122-132 | the button is disabled exactly when no topic is active; the status becomes "all selected" when none is left, "click to spin" while topics remain and none has been chosen, and is otherwise kept |
| Controller.Init | script.js:213-214 | a fresh wheel rests at 0 with empty history, idle, with the button disabled exactly when no topic is active |
| Controller.RequestSpin | script.js:139-173 | while spinning only the status changes; with nothing active only the status and a disabled button change; otherwise the wheel is spinning with the button disabled, registry, history and stored rotation unchanged, a pending commit of the drawn active topic, and a target that puts the drawn slice's centre exactly at the pointer (its angle mod 360 is 90 - centreAngle), lies in turn k counted from the start of the current whole turn, and turns by more than (k-2)*360+90 and less than k*360+90 degrees, where k is the drawn number of extra turns |
| Controller.CompleteSpin | script.js:175-207 | the history grows by exactly the pending name at its end; exactly that topic is flagged and the active count drops by one; the rotation is renormalised into [0, 360) without changing its angle; the state is idle; the button is disabled exactly when no topic is left |
| Controller.Step | script.js:176-219 | the event wiring: a click on a disabled button is never dispatched and changes nothing (the button is disabled at lines 124, 147 and 153); on an enabled button it runs `onSpin` (line 219), which never commits and, while spinning, changes only the status; a `transitionend` commits the pending spin once, since its handler removes itself (lines 176, 209), and with no spin pending changes nothing; a resize (lines 215-218) re-renders, touching only the button and the status line |
| Controller.Run | script.js:213-219 | the events are handled one after another: no events leave the state as it is, a single event is one `Step`, and with `RunConcat` every longer sequence is its events' steps in order |
| Controller.RunConcat | script.js:213-219 | handling two runs of events back to back is the same as handling their concatenation |
| Controller.InitInv | script.js:2-21 | the start-up state with unique names and nothing removed satisfies the invariant |
| Controller.RequestSpinInv | script.js:139-167 | a spin request, accepted or rejected, keeps the invariant |
| Controller.RenderInv | script.js:215-218 | a re-render on window resize keeps the invariant, even during a spin |
| Controller.ActiveNameNotInHistory | script.js:187-191 | the name of a topic still on the wheel is not yet in the history |
| Controller.CompleteSpinInv | script.js:175-207 | the commit keeps the invariant: the history lists each removed topic exactly once and the state is idle |
| Controller.StepInv | script.js:139-218 | every event keeps the invariant, only appends to the history, keeps the names and never clears a removed flag |
| Controller.RunInv | script.js:139-218 | the same holds over any sequence of events |
| Controller.CompletionIsOneShot | script.js:209 | a second transitionend after the commit changes nothing: a spin commits once |
| Controller.ResizeDuringSpin | script.js:122-124 | a resize during a spin enables the button again, keeps the pending commit, and a click then changes only the status, through the `spinning` check at script.js:141 |
| Controller.SpinRound | script.js:139-207 | a click followed by its completion removes exactly one active topic and appends exactly its name |
| Controller.RoundsExhaust | script.js:139-207 | as many rounds as there are active topics leave none active and the state idle and consistent |
| Controller.ExhaustedHistory | script.js:187-191 | with no topic left, the history holds every topic's name exactly once |
| Controller.FullSession | script.js:2-8 | five rounds from start-up remove all five configured topics and leave a history of five distinct names, each topic once, with the button disabled |

## Left out

- Rendering: `buildGradient`'s stop strings, `generateColors`, `renderLabels`, `renderLegend`, `renderSelectedHistory` and `innerHTML` are presentation only. `Render` keeps only the button and status effects of `renderWheel`.
- Status texts are an enumeration. The two "all topics have been selected" messages, with and without the emoji, are one value, `AllSelected`. `aria-disabled` always mirrors `disabled` and is not modelled apart from it.
- CSS transitions, `requestAnimationFrame`, the transition style strings and the `{ once: true }` listener mechanics are not modelled. Setting the transform is immediate in `RequestSpin`. The completion is one atomic step that needs a pending spin. A `transitionend` with no pending spin does nothing.
- The planned duration is computed and bounded by `PlanSpin`, but it is not kept in the state, because it only feeds a CSS transition.
- `setWheelSizeVar` is layout I/O. The resize listener is modelled only through its call to `renderWheel`.
- `Math.random` and its uniformity cannot be verified. The draws are parameters in [0, 1).
- JavaScript's IEEE-754 rounding is not modelled: all arithmetic is on exact reals.
- `console.log` output is not modelled.
- Utils.ModuloWholeTurns: proved for the modulus 360 only, the one modulus the source passes to `modulo`. The same holds for `ModuloIsFloorMod` and `ModuloShift`. The range [0, m) is proved for every m > 0.
- Controller.Inv: requires unique topic names. `find` flags the first topic with the chosen name, so with duplicate names a spin could flag a topic that is already removed. The configured list has unique names.
