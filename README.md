# Square enclosing line stage — animation core in Dafny

The program draws a column of node figures. Each figure is a sliding line, a
static baseline and two half-lines that rotate to enclose a square. What drives
it is a small numeric core:

- `ScaleUtil` (module `ScaleUtil`, file `scale_util.dfy`): pure helpers that map a
  node's progress value `scale` to a stage switch (`ScaleFactor`, threshold
  `ScDiv = 0.51`), a clipped slice (`MaxScale`, `DivideScale`) and a per-tick
  step (`MirrorValue`, `UpdateValue`, base step `ScGap = 0.05`). `Lines = 2` is
  the number of rotating half-lines.
- `State` (module `AnimationState`, file `state.dfy`): the per-node animation
  state machine. It is a class with the fields `scale`, `dir` and `prevScale`.
  - `StartUpdating` leaves the idle state.
  - `Update` advances one tick, snaps to the far endpoint when it overshoots,
    and goes idle.
  - The completion callback of each method becomes a returned flag
    `signalled`.

Each method is specified by a pure function over a `Snapshot` value
(`Start`, `Tick`). The lemmas about those functions give the invariant the
machine keeps:

- `prevScale` is an endpoint.
- A moving node heads for the other endpoint.
- An idle node rests on `prevScale`.
- Progress stays in [0, 1].

The lemmas also cover the idempotent start, the no-op tick while idle, and the
guaranteed settle. A moving node settles after at most 41 ticks. The proof
uses the measure `Floor(40 * remaining distance)`.

Numbers are exact reals. `Math.floor` is `.Floor`, and `Math.abs` is `Abs`.
The divisions of the source are real divisions.

`divideScale` is modelled as the code has it: the slice is capped at `1/n` and
is not multiplied back by `n`. The design description of the program gives a
variant that multiplies by `n`. The code is followed here; see "## Findings".

## Model

| member | source | states |
|---|---|---|
| ScaleUtil.ScaleFactor | SquareEnclosingLineStage.ts:13-15 | the result is the number of whole 0.51s in `scale`: 0 for 0 <= scale < 0.51, 1 for 0.51 <= scale <= 1, negative below 0 |
| ScaleUtil.MaxScale | SquareEnclosingLineStage.ts:17-19 | never negative, at least `scale - i/n`, equal to one of the two, and positive exactly when `scale` passed `i/n` |
| ScaleUtil.DivideScale | SquareEnclosingLineStage.ts:21-23 | for n > 0 the slice lies in [0, 1/n]; it is 0 up to `i/n`, grows as `scale - i/n` across the slice, and saturates at 1/n from `(i+1)/n` |
| ScaleUtil.DivideScaleMonotone | SquareEnclosingLineStage.ts:21-23 | the slice is non-decreasing in `scale` |
| ScaleUtil.DivideScaleNormalized | SquareEnclosingLineStage.ts:21-23 | corrected slice (times n): in [0, 1], 0 up to `i/n`, exactly 1 from `(i+1)/n` |
| ScaleUtil.SecondRotatingLineNeverTurns | SquareEnclosingLineStage.ts:69-79 | with the slice as written, the second rotating line's sub-scale is 0 for every progress value and the first one's is at most 1/2 |
| ScaleUtil.NormalizedRotatingLinesComplete | SquareEnclosingLineStage.ts:69-79 | with the corrected slice both rotating lines' sub-scales reach 1 once progress reaches 1 |
| ScaleUtil.MirrorValue | SquareEnclosingLineStage.ts:25-28 | exactly 1/a when the stage switch is 0 and 1/b when it is 1; on [0, 1] that is 1/a below 0.51 and 1/b from 0.51 |
| ScaleUtil.UpdateValue | SquareEnclosingLineStage.ts:30-32 | 0 when `dir` is 0; for positive rates it has the sign of `dir`; on [0, 1] it is `dir * 0.05` times the blended rate |
| ScaleUtil.StateStep | SquareEnclosingLineStage.ts:122 | the step the state machine takes with rates 1 and 2 is `dir * 0.05` below 0.51 and `dir * 0.025` from 0.51 |
| AnimationState.Tick | SquareEnclosingLineStage.ts:121-129 | either it signals and the state rests on `prevScale + dir` with `dir = 0`, or it does not and `dir`, `prevScale` are untouched |
| AnimationState.Start | SquareEnclosingLineStage.ts:131-136 | signals exactly when the state was idle; never touches `scale` or `prevScale`; a moving state is returned unchanged |
| AnimationState.InitialInv | SquareEnclosingLineStage.ts:116-119 | a new state (all fields 0) is idle and satisfies the invariant |
| AnimationState.InvDirValues | SquareEnclosingLineStage.ts:116-137 | under the invariant `dir` is -1, 0 or 1 and the target `prevScale + dir` is 0 or 1 |
| AnimationState.StartPreservesInv | SquareEnclosingLineStage.ts:131-136 | starting keeps the invariant; from idle it sets `dir = 1 - 2*prevScale` (non-zero), heading for the other endpoint |
| AnimationState.StartIdempotent | SquareEnclosingLineStage.ts:131-136 | a second start changes nothing and does not signal |
| AnimationState.IdleTickIsNoop | SquareEnclosingLineStage.ts:121-129 | a tick on an idle state leaves all three fields unchanged and does not signal |
| AnimationState.MovingTick | SquareEnclosingLineStage.ts:121-129 | a moving tick signals exactly when the remaining distance is below the step; otherwise it moves `scale` toward the target by 0.05 below 0.51 and by 0.025 from 0.51 |
| AnimationState.TickPreservesInv | SquareEnclosingLineStage.ts:121-129 | every tick keeps the invariant |
| AnimationState.TickDecreasesMeasure | SquareEnclosingLineStage.ts:121-129 | a tick that does not settle keeps the direction and strictly lowers the non-negative settle measure |
| AnimationState.TicksToSettle | SquareEnclosingLineStage.ts:121-129 | the number of ticks until rest is 0 exactly for an idle state and at most the measure plus one |
| AnimationState.RunPreservesInv | SquareEnclosingLineStage.ts:116-137 | any number of ticks keeps the invariant |
| AnimationState.Settles | SquareEnclosingLineStage.ts:121-129 | a moving state comes to rest exactly on `prevScale + dir` after 1 to 41 ticks and is still moving at every earlier tick |
| AnimationState.StartThenSettleFlips | SquareEnclosingLineStage.ts:121-136 | a start on a resting node followed by ticks until it signals leaves it resting on the other endpoint |
| AnimationState.State.constructor | SquareEnclosingLineStage.ts:116-119 | a new state has all fields 0 and satisfies the invariant |
| AnimationState.State.Update | SquareEnclosingLineStage.ts:121-129 | the new fields and the flag are `Tick` of the old fields; the invariant is kept; idle means unchanged and no signal; a signal leaves the node resting on `old(prevScale) + old(dir)` |
| AnimationState.State.StartUpdating | SquareEnclosingLineStage.ts:131-136 | the new fields and the flag are `Start` of the old fields; the invariant is kept; it signals exactly when the state was idle and otherwise changes nothing |

## Left out

- `DrawingUtil` (canvas save/translate/rotate/stroke and degree-to-radian trigonometry) is rendering side effects. Only its calls to the slice are modelled, in the two rotating-line lemmas.
- The `SquareEnclosingLineStage` class (canvas creation, attaching it to the page, the background fill, an empty tap handler) is I/O glue.
- The viewport size `w`/`h` comes from the host. The node count, colours, stroke and size factors are used only for drawing.
- A node chain, a sweep cursor and a timer-driven animator are not part of this model: the source file holds no such code.
- IEEE-754 double rounding of the accumulated `scale` is not modelled; exact reals are used. The snap on settling makes the rest endpoints exact either way.
- ScaleUtil.MaxScale: requires `n != 0`. The source would divide by zero and produce an infinity or NaN. All callers pass 2.
- ScaleUtil.DivideScale: requires `n != 0`, for the same reason as `MaxScale`.
- ScaleUtil.DivideScaleNormalized: requires `n != 0`, for the same reason as `MaxScale`.
- ScaleUtil.MirrorValue: requires `a != 0` and `b != 0`. The source's callers pass 1 and 2.
- ScaleUtil.UpdateValue: requires `a != 0` and `b != 0`, for the same reason as `MirrorValue`.

## Findings

| source | as written | input that shows it | evidently intended | confidence | as-written member | corrected member |
|---|---|---|---|---|---|---|
| SquareEnclosingLineStage.ts:21-23 | `divideScale` caps the slice at `1/n` and does not scale it back by `n`, so each slice spans only [0, 1/n] | any progress value: the second rotating line (lines 70 and 79, slice 1 of slice 1 of two) always gets 0, so it never turns; at progress 1 the first rotating line and the sliding line (line 69) get only 1/2 | each slice stretched to [0, 1] (multiplied by `n`), so both lines turn fully by progress 1 | medium, not executed | ScaleUtil.SecondRotatingLineNeverTurns | ScaleUtil.NormalizedRotatingLinesComplete |

The state machine does not use the slice, so neither variant affects it. The
slice is consumed only by the drawing code, which is not part of this model.
