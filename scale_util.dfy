/** Pure helpers that turn a node's progress value `scale` into the
    sub-progress values and per-tick step sizes used by the animation.
    Numbers are exact reals; the divisions of the source are real divisions. */
module ScaleUtil {

  /** Number of rotating half-lines per node; also the second rate handed to
      `UpdateValue` by the state machine. */
  const Lines: real := 2.0
  /** Base step of one animation tick. */
  const ScGap: real := 0.05
  /** Progress value at which `ScaleFactor` switches from 0 to 1. */
  const ScDiv: real := 0.51

  /** The early-stage / late-stage switch: 0 below `ScDiv`, 1 from `ScDiv`
      up to (and past) 1, and in general the number of whole `ScDiv`s in `scale`. */
  function ScaleFactor(scale: real): (k: int)
    ensures k as real * ScDiv <= scale < (k + 1) as real * ScDiv
    ensures 0.0 <= scale < ScDiv ==> k == 0
    ensures ScDiv <= scale <= 1.0 ==> k == 1
    ensures scale < 0.0 ==> k < 0
  {
    (scale / ScDiv).Floor
  }

  /** How far `scale` has gone past the `i`-th of `n` equal thresholds, never negative. */
  function MaxScale(scale: real, i: real, n: real): (r: real)
    requires n != 0.0
    ensures 0.0 <= r && scale - i / n <= r
    ensures r == 0.0 || r == scale - i / n
    ensures 0.0 < r <==> i / n < scale
  {
    if 0.0 < scale - i / n then scale - i / n else 0.0
  }

  /** The `i`-th of `n` slices of `scale`, capped at the slice width `1/n`
      (not stretched back to [0, 1]: see `DivideScaleNormalized`). */
  function DivideScale(scale: real, i: real, n: real): (r: real)
    requires n != 0.0
    ensures 0.0 < n ==> 0.0 <= r <= 1.0 / n
    ensures 0.0 < n && scale <= i / n ==> r == 0.0
    ensures 0.0 < n && i / n <= scale <= (i + 1.0) / n ==> r == scale - i / n
    ensures 0.0 < n && (i + 1.0) / n <= scale ==> r == 1.0 / n
  {
    var m := MaxScale(scale, i, n);
    if 1.0 / n < m then 1.0 / n else m
  }

  /** `DivideScale` never decreases as the progress value grows. */
  lemma DivideScaleMonotone(s1: real, s2: real, i: real, n: real)
    requires n != 0.0 && s1 <= s2
    ensures DivideScale(s1, i, n) <= DivideScale(s2, i, n)
  {
  }

  /** The slice as the design intends it: stretched to [0, 1] by the factor `n`. */
  function DivideScaleNormalized(scale: real, i: real, n: real): (r: real)
    requires n != 0.0
    ensures 0.0 < n ==> 0.0 <= r <= 1.0
    ensures 0.0 < n && scale <= i / n ==> r == 0.0
    ensures 0.0 < n && (i + 1.0) / n <= scale ==> r == 1.0
  {
    DivideScale(scale, i, n) * n
  }

  /** As written, the second rotating line of a node (slice 1 of slice 1 of
      two) never turns, and the first one turns at most halfway: the outer
      slice is at most 1/2, which never passes the inner threshold 1/2. */
  lemma SecondRotatingLineNeverTurns(scale: real)
    ensures DivideScale(DivideScale(scale, 1.0, Lines), 1.0, Lines) == 0.0
    ensures DivideScale(DivideScale(scale, 1.0, Lines), 0.0, Lines) <= 0.5
  {
  }

  /** With the normalized slice both rotating lines reach their full turn
      once the node's progress reaches 1. */
  lemma NormalizedRotatingLinesComplete(scale: real)
    requires 1.0 <= scale
    ensures DivideScaleNormalized(DivideScaleNormalized(scale, 1.0, Lines), 0.0, Lines) == 1.0
    ensures DivideScaleNormalized(DivideScaleNormalized(scale, 1.0, Lines), 1.0, Lines) == 1.0
  {
    assert DivideScaleNormalized(scale, 1.0, Lines) == 1.0;
  }

  /** Blend of the two rates: `1/a` in the early stage, `1/b` in the late one. */
  function MirrorValue(scale: real, a: real, b: real): (r: real)
    requires a != 0.0 && b != 0.0
    ensures ScaleFactor(scale) == 0 ==> r == 1.0 / a
    ensures ScaleFactor(scale) == 1 ==> r == 1.0 / b
    ensures 0.0 <= scale <= 1.0 ==> r == if scale < ScDiv then 1.0 / a else 1.0 / b
  {
    var k := ScaleFactor(scale) as real;
    (1.0 - k) / a + k / b
  }

  /** The signed per-tick increment: `ScGap` times the blended rate in the
      direction `dir`. */
  function UpdateValue(scale: real, dir: real, a: real, b: real): (r: real)
    requires a != 0.0 && b != 0.0
    ensures dir == 0.0 ==> r == 0.0
    ensures 0.0 <= scale <= 1.0 && 0.0 < a && 0.0 < b ==> (0.0 < r <==> 0.0 < dir) && (r < 0.0 <==> dir < 0.0)
    ensures 0.0 <= scale <= 1.0 ==> r == dir * ScGap * (if scale < ScDiv then 1.0 / a else 1.0 / b)
  {
    MirrorValue(scale, a, b) * dir * ScGap
  }

  /** The step the state machine takes (rates 1 and `Lines`): 0.05 in
      direction `dir` below `ScDiv`, 0.025 from there on. */
  lemma StateStep(scale: real, dir: real)
    requires 0.0 <= scale <= 1.0
    ensures UpdateValue(scale, dir, 1.0, Lines) == dir * (if scale < ScDiv then 0.05 else 0.025)
  {
  }
}
