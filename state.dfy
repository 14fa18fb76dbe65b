/** The per-node animation state machine: a progress value `scale`, a
    direction `dir` (0 = idle) and the endpoint `prevScale` where the node
    last came to rest. The completion callbacks of the original are replaced
    by a returned flag that says whether the callback would have fired. */
module AnimationState {
  import opened ScaleUtil

  /** The three fields of a state, as a value. */
  datatype Snapshot = Snapshot(scale: real, dir: real, prevScale: real)

  /** A freshly created state: at rest at 0. */
  const Initial: Snapshot := Snapshot(0.0, 0.0, 0.0)

  function Abs(x: real): (r: real)
    ensures 0.0 <= r && (r == x || r == -x)
  {
    if x < 0.0 then -x else x
  }

  /** What holds between calls: the node rests on an endpoint or is moving
      from `prevScale` toward the other endpoint, and its progress stays in [0, 1]. */
  predicate Inv(s: Snapshot) {
    && (s.prevScale == 0.0 || s.prevScale == 1.0)
    && (s.dir != 0.0 ==> s.dir == 1.0 - 2.0 * s.prevScale)
    && (s.dir == 0.0 ==> s.scale == s.prevScale)
    && 0.0 <= s.scale <= 1.0
  }

  /** The endpoint the node is heading for. */
  function Target(s: Snapshot): real {
    s.prevScale + s.dir
  }

  /** One animation tick: advance by one step; on overshooting the far
      endpoint, snap to it, go idle and signal completion. */
  function Tick(s: Snapshot): (r: (Snapshot, bool))
    ensures r.1 ==> r.0 == Snapshot(Target(s), 0.0, Target(s))
    ensures !r.1 ==> r.0.dir == s.dir && r.0.prevScale == s.prevScale
  {
    var scale := s.scale + UpdateValue(s.scale, s.dir, 1.0, Lines);
    if Abs(scale - s.prevScale) > 1.0 then
      (Snapshot(s.prevScale + s.dir, 0.0, s.prevScale + s.dir), true)
    else
      (s.(scale := scale), false)
  }

  /** Leave the idle state, heading away from where the node rests, and
      signal; a node that is already moving is left alone. */
  function Start(s: Snapshot): (r: (Snapshot, bool))
    ensures r.1 <==> s.dir == 0.0
    ensures r.0.scale == s.scale && r.0.prevScale == s.prevScale
    ensures !r.1 ==> r.0 == s
  {
    if s.dir == 0.0 then (s.(dir := 1.0 - 2.0 * s.prevScale), true) else (s, false)
  }

  lemma InitialInv()
    ensures Inv(Initial) && Initial.dir == 0.0
  {
  }

  /** Under the invariant the direction is one of -1, 0, 1 and the target is an endpoint. */
  lemma InvDirValues(s: Snapshot)
    requires Inv(s)
    ensures s.dir == -1.0 || s.dir == 0.0 || s.dir == 1.0
    ensures Target(s) == 0.0 || Target(s) == 1.0
  {
  }

  /** Starting an idle node makes it move toward the other endpoint. */
  lemma StartPreservesInv(s: Snapshot)
    requires Inv(s)
    ensures Inv(Start(s).0)
    ensures s.dir == 0.0 ==> Start(s).0.dir != 0.0 && Target(Start(s).0) == 1.0 - s.prevScale
  {
  }

  /** A second start has no effect and does not signal. */
  lemma StartIdempotent(s: Snapshot)
    requires Inv(s)
    ensures Start(Start(s).0) == (Start(s).0, false)
  {
  }

  /** A tick on an idle node changes nothing and does not signal. */
  lemma IdleTickIsNoop(s: Snapshot)
    requires Inv(s) && s.dir == 0.0
    ensures Tick(s) == (s, false)
  {
  }

  /** How much is left to travel before reaching the target. */
  function Remaining(s: Snapshot): real {
    s.dir * (Target(s) - s.scale)
  }

  /** The size of the step a moving node takes from its current progress. */
  function StepSize(s: Snapshot): real {
    if s.scale < ScDiv then 0.05 else 0.025
  }

  /** A moving node signals exactly when the step would carry it past its
      target; otherwise it moves toward the target by one step. */
  lemma {:induction false} MovingTick(s: Snapshot)
    requires Inv(s) && s.dir != 0.0
    ensures Tick(s).1 <==> Remaining(s) < StepSize(s)
    ensures !Tick(s).1 ==> Tick(s).0.scale == s.scale + s.dir * StepSize(s)
    ensures !Tick(s).1 ==> Remaining(Tick(s).0) == Remaining(s) - StepSize(s)
  {
    StateStep(s.scale, s.dir);
    assert s.dir * s.dir == 1.0;
  }

  /** Every tick keeps the invariant. */
  lemma {:induction false} TickPreservesInv(s: Snapshot)
    requires Inv(s)
    ensures Inv(Tick(s).0)
  {
    if s.dir == 0.0 {
      IdleTickIsNoop(s);
    } else {
      MovingTick(s);
    }
  }

  /** A non-negative integer bound on the ticks still to come, at most 40. */
  function Measure(s: Snapshot): int {
    (Remaining(s) * 40.0).Floor
  }

  lemma {:induction false} MeasureBounds(s: Snapshot)
    requires Inv(s) && s.dir != 0.0
    ensures 0 <= Measure(s) <= 40
  {
    assert 0.0 <= Remaining(s) <= 1.0;
  }

  /** A tick that does not settle strictly lowers the measure. */
  lemma {:induction false} TickDecreasesMeasure(s: Snapshot)
    requires Inv(s) && s.dir != 0.0 && !Tick(s).1
    ensures Inv(Tick(s).0) && Tick(s).0.dir == s.dir
    ensures 0 <= Measure(Tick(s).0) < Measure(s)
  {
    MovingTick(s);
    TickPreservesInv(s);
    MeasureBounds(Tick(s).0);
    var x := Remaining(Tick(s).0) * 40.0;
    var y := Remaining(s) * 40.0;
    assert x <= y - 1.0;
    assert x.Floor as real <= x < y.Floor as real + 1.0 - 1.0;
  }

  /** The number of ticks until the node comes to rest (0 when it is idle). */
  function TicksToSettle(s: Snapshot): (n: nat)
    requires Inv(s)
    ensures s.dir == 0.0 <==> n == 0
    ensures s.dir != 0.0 ==> n <= Measure(s) + 1
    decreases if s.dir == 0.0 then 0 else Measure(s) + 1
  {
    if s.dir == 0.0 then 0
    else if Tick(s).1 then 1
    else
      TickDecreasesMeasure(s);
      MeasureBounds(s);
      1 + TicksToSettle(Tick(s).0)
  }

  /** The state after `n` ticks. */
  function Run(s: Snapshot, n: nat): Snapshot
    decreases n
  {
    if n == 0 then s else Run(Tick(s).0, n - 1)
  }

  lemma {:induction false} RunPreservesInv(s: Snapshot, n: nat)
    requires Inv(s)
    ensures Inv(Run(s, n))
    decreases n
  {
    if n > 0 {
      TickPreservesInv(s);
      RunPreservesInv(Tick(s).0, n - 1);
    }
  }

  /** A moving node comes to rest exactly on its target after at most 41
      ticks, and is still moving before that. */
  lemma {:induction false} Settles(s: Snapshot)
    requires Inv(s) && s.dir != 0.0
    ensures 1 <= TicksToSettle(s) <= 41
    ensures Run(s, TicksToSettle(s)) == Snapshot(Target(s), 0.0, Target(s))
    ensures forall m :: 0 <= m < TicksToSettle(s) ==> Run(s, m).dir != 0.0
    decreases Measure(s)
  {
    MeasureBounds(s);
    if !Tick(s).1 {
      TickDecreasesMeasure(s);
      Settles(Tick(s).0);
      forall m | 0 < m < TicksToSettle(s) ensures Run(s, m).dir != 0.0 {
        assert Run(s, m) == Run(Tick(s).0, m - 1);
      }
    }
  }

  /** One tap on a resting node followed by ticks until it signals leaves it
      resting on the other endpoint. */
  lemma {:induction false} StartThenSettleFlips(s: Snapshot)
    requires Inv(s) && s.dir == 0.0
    ensures var t := Start(s).0;
      Run(t, TicksToSettle(t)) == Snapshot(1.0 - s.prevScale, 0.0, 1.0 - s.prevScale)
  {
    StartPreservesInv(s);
    Settles(Start(s).0);
  }

  /** A node's animation state, updated in place. */
  class State {
    var scale: real
    var dir: real
    var prevScale: real

    function Snap(): Snapshot
      reads this
    {
      Snapshot(scale, dir, prevScale)
    }

    ghost predicate Valid()
      reads this
    {
      Inv(Snap())
    }

    constructor ()
      ensures Snap() == Initial && Valid()
    {
      scale, dir, prevScale := 0.0, 0.0, 0.0;
    }

    /** One animation tick; returns whether the node came to rest. */
    method Update() returns (signalled: bool)
      modifies this
      ensures (Snap(), signalled) == Tick(old(Snap()))
      ensures old(Valid()) ==> Valid()
      ensures old(Valid()) && old(dir) == 0.0 ==> !signalled && unchanged(this)
      ensures signalled ==> dir == 0.0 && scale == prevScale == old(prevScale) + old(dir)
    {
      scale := scale + UpdateValue(scale, dir, 1.0, Lines);
      if Abs(scale - prevScale) > 1.0 {
        scale := prevScale + dir;
        dir := 0.0;
        prevScale := scale;
        signalled := true;
      } else {
        signalled := false;
      }
      if old(Valid()) {
        TickPreservesInv(old(Snap()));
      }
    }

    /** Leave the idle state; returns whether the node started. */
    method StartUpdating() returns (signalled: bool)
      modifies this
      ensures (Snap(), signalled) == Start(old(Snap()))
      ensures old(Valid()) ==> Valid()
      ensures signalled <==> old(dir) == 0.0
      ensures !signalled ==> unchanged(this)
    {
      if dir == 0.0 {
        dir := 1.0 - 2.0 * prevScale;
        signalled := true;
      } else {
        signalled := false;
      }
    }
  }
}
