/**
 * The count-up animation of a statistic. The element's text is reset to
 * "0"; each tick reads the shown value, and while it is below the target
 * shows `current + ceil(target / 50)`, clamped to the target, and schedules
 * the next tick. The timer is replaced by the sequence of values shown.
 */
module StatCounter {

  /** The number of ticks the increment is sized for. */
  const Frames: int := 50

  function Min(a: int, b: int): int {
    if a <= b then a else b
  }

  /** `Math.ceil(target / 50)` for an integer target. Dafny's `/` floors for a
      positive divisor, and the ceiling is the negated floor of the negation. */
  function Increment(target: int): (r: int)
    ensures Frames * (r - 1) < target <= Frames * r
  {
    -((-target) / Frames)
  }

  lemma PositiveTargetPositiveIncrement(target: int)
    requires target > 0
    ensures Increment(target) >= 1
  {
  }

  /** One tick of `countUp`: the value shown afterwards. */
  function Step(current: int, target: int): (r: int)
    ensures current >= target ==> r == current
    ensures current < target && target > 0 ==> current < r <= target
    ensures current < target && current + Increment(target) <= target ==> r == current + Increment(target)
    ensures current < target && current + Increment(target) > target ==> r == target
  {
    if current < target then Min(current + Increment(target), target) else current
  }

  /** The values shown by the chain of ticks started at `current`, one per
      tick that changes the text. The chain stops once the value reaches
      the target; it can only run away when the increment is not positive,
      which needs a target of at most zero above the start. */
  function Ticks(current: int, target: int): (r: seq<int>)
    requires current >= target || target > 0
    ensures current >= target <==> r == []
    ensures r != [] ==> r[|r| - 1] == target
    ensures forall k :: 0 <= k < |r| ==> current < r[k] <= target
    decreases target - current
  {
    if current >= target then []
    else
      var next := Step(current, target);
      [next] + Ticks(next, target)
  }

  /** The values shown only ever increase. */
  lemma {:induction false} TicksIncrease(current: int, target: int)
    requires current >= target || target > 0
    ensures forall i, j :: 0 <= i < j < |Ticks(current, target)| ==>
      Ticks(current, target)[i] < Ticks(current, target)[j]
    decreases target - current
  {
    if current < target {
      var next := Step(current, target);
      TicksIncrease(next, target);
      var r := Ticks(current, target);
      assert r == [next] + Ticks(next, target);
      forall i, j | 0 <= i < j < |r|
        ensures r[i] < r[j]
      {
        if i > 0 {
          assert r[i] == Ticks(next, target)[i - 1];
        }
      }
    }
  }

  /** From the initial "0", a target of zero or less leaves the text at 0. */
  lemma NonPositiveTargetShowsNothing(target: int)
    requires target <= 0
    ensures Ticks(0, target) == []
  {
  }

  /** What holds after `trace` has been shown from 0 and the text reads
      `shown`: the k-th value is the k-fold increment clamped to the target,
      no more than 50 ticks were needed, and the rest of the chain is
      `Ticks(shown, target)`. */
  ghost predicate Counted(trace: seq<int>, shown: int, target: int) {
    && target > 0
    && 0 <= shown <= target
    && shown == Min(|trace| * Increment(target), target)
    && |trace| <= Frames
    && (forall k :: 0 <= k < |trace| ==> trace[k] == Min((k + 1) * Increment(target), target))
    && trace + Ticks(shown, target) == Ticks(0, target)
  }

  /** One tick keeps `Counted`. */
  lemma CountedStep(trace: seq<int>, shown: int, target: int)
    requires Counted(trace, shown, target) && shown < target
    ensures Counted(trace + [Step(shown, target)], Step(shown, target), target)
  {
    var inc := Increment(target);
    var next := Step(shown, target);
    assert Ticks(shown, target) == [next] + Ticks(next, target);
    FrameBound(|trace|, inc, target);
    NextMultiple(|trace|, inc);
    assert shown == |trace| * inc;
    assert next == Min((|trace| + 1) * inc, target);
    var t := trace + [next];
    assert t + Ticks(next, target) == trace + Ticks(shown, target);
  }

  /** The tick loop from 0, with the shown values recorded. It shows
      exactly the chain `Ticks(0, target)`, finishes on the target itself,
      needs at most 50 ticks, and the k-th value is the k-fold increment
      clamped to the target. */
  method CountUp(target: int) returns (shown: int, trace: seq<int>)
    ensures target <= 0 ==> shown == 0 && trace == []
    ensures target > 0 ==> shown == target && |trace| > 0 && trace[|trace| - 1] == target
    ensures |trace| <= Frames
    ensures forall k :: 0 <= k < |trace| ==> trace[k] == Min((k + 1) * Increment(target), target)
    ensures trace == Ticks(0, target)
  {
    shown := 0;
    trace := [];
    if target <= 0 {
      return;
    }
    while shown < target
      invariant Counted(trace, shown, target)
      decreases target - shown
    {
      CountedStep(trace, shown, target);
      trace := trace + [Step(shown, target)];
      shown := Step(shown, target);
    }
    CountedAtTarget(trace, shown, target);
  }

  /** A counted run that has stopped is the whole chain and ends on the
      target. */
  lemma CountedAtTarget(trace: seq<int>, shown: int, target: int)
    requires Counted(trace, shown, target) && shown >= target
    ensures shown == target
    ensures trace == Ticks(0, target)
    ensures trace != [] && trace[|trace| - 1] == target
  {
    assert Ticks(shown, target) == [];
    assert trace + [] == trace;
  }

  lemma NextMultiple(n: int, inc: int)
    ensures (n + 1) * inc == n * inc + inc
  {
  }

  /** Fewer than 50 increments never reach a target that is at most 50
      increments. */
  lemma FrameBound(n: int, inc: int, target: int)
    requires n >= 0 && inc > 0 && target <= Frames * inc
    ensures n * inc < target ==> n < Frames
  {
    if n >= Frames {
      assert n * inc >= Frames * inc;
    }
  }

  /** Ticking on from any counted state reaches the target, and the whole
      chain from 0 then has the closed form. */
  lemma {:induction false} CountedToEnd(trace: seq<int>, shown: int, target: int)
    requires Counted(trace, shown, target)
    ensures |Ticks(0, target)| <= Frames
    ensures |Ticks(0, target)| * Increment(target) >= target
    ensures (|Ticks(0, target)| - 1) * Increment(target) < target
    ensures forall k :: 0 <= k < |Ticks(0, target)| ==>
      Ticks(0, target)[k] == Min((k + 1) * Increment(target), target)
    decreases target - shown
  {
    if shown < target {
      CountedStep(trace, shown, target);
      CountedToEnd(trace + [Step(shown, target)], Step(shown, target), target);
    } else {
      assert Ticks(shown, target) == [];
      assert trace + [] == trace;
      TickCount(trace, target);
    }
  }

  /** The chain of ticks from the reset "0" in closed form: ceil(target /
      increment) ticks, at most 50, the k-th showing the k-fold increment
      clamped to the target. */
  lemma TicksFromZero(target: int)
    requires target > 0
    ensures |Ticks(0, target)| <= Frames
    ensures |Ticks(0, target)| * Increment(target) >= target
    ensures (|Ticks(0, target)| - 1) * Increment(target) < target
    ensures forall k :: 0 <= k < |Ticks(0, target)| ==>
      Ticks(0, target)[k] == Min((k + 1) * Increment(target), target)
  {
    assert [] + Ticks(0, target) == Ticks(0, target);
    assert Counted([], 0, target);
    CountedToEnd([], 0, target);
  }

  /** How many ticks a counted run to the target took. */
  lemma TickCount(t: seq<int>, target: int)
    requires Counted(t, target, target)
    requires t == Ticks(0, target)
    ensures |t| * Increment(target) >= target
    ensures (|t| - 1) * Increment(target) < target
  {
    var n := |t|;
    var inc := Increment(target);
    var m := n * inc;
    assert target == Min(m, target);
    if n >= 2 {
      var i := n - 2;
      assert t[i] == Min((i + 1) * inc, target);
      assert i + 1 == n - 1;
      TicksIncrease(0, target);
      assert t[i] < t[i + 1];
    }
  }

  /** A statistic reading "120" counts 3, 6, ..., 120: forty ticks in steps
      of 3, ending exactly on 120. Here and in the helpers below, 120 is a
      parameter pinned by `requires` rather than a literal: with literal
      arguments the verifier unfolds `Ticks` along the whole chain. */
  lemma OneHundredTwenty(target: int)
    requires target == 120
    ensures Increment(target) == 3
    ensures |Ticks(0, target)| == 40
    ensures forall k :: 0 <= k < 40 ==> Ticks(0, target)[k] == 3 * (k + 1)
    ensures Ticks(0, target)[39] == target
  {
    IncrementOf120(target);
    TickCountOf120(target);
    forall k | 0 <= k < 40
      ensures Ticks(0, target)[k] == 3 * (k + 1)
    {
      TickOf120(target, k);
    }
  }

  /** ceil(120 / 50) is 3. */
  lemma IncrementOf120(target: int)
    requires target == 120
    ensures Increment(target) == 3
  {
    assert Frames * 2 < 120 <= Frames * 3;
  }

  /** ceil(120 / 3) is 40. */
  lemma TickCountOf120(target: int)
    requires target == 120
    ensures |Ticks(0, target)| == 40
  {
    TickCountExact(target, 40);
  }

  /** The k-th of the forty ticks shows 3(k + 1). */
  lemma TickOf120(target: int, k: int)
    requires target == 120 && 0 <= k < 40
    ensures |Ticks(0, target)| == 40 && Ticks(0, target)[k] == 3 * (k + 1)
  {
    TickCountOf120(target);
    IncrementOf120(target);
    UnclampedTick(target, k, 3);
  }

  /** A run whose count n satisfies the ceiling bounds has exactly n ticks. */
  lemma TickCountExact(target: int, n: int)
    requires target > 0
    requires n * Increment(target) >= target && (n - 1) * Increment(target) < target
    ensures |Ticks(0, target)| == n
  {
    TickCountBounds(target);
    SameCeiling(|Ticks(0, target)|, n, Increment(target), target);
  }

  /** ceil(target / inc) is unique. */
  lemma SameCeiling(m: int, n: int, inc: int, target: int)
    requires inc > 0
    requires m * inc >= target && (m - 1) * inc < target
    requires n * inc >= target && (n - 1) * inc < target
    ensures m == n
  {
  }

  /** The count half of `TicksFromZero`: ceil(target / increment) ticks. */
  lemma TickCountBounds(target: int)
    requires target > 0
    ensures |Ticks(0, target)| * Increment(target) >= target
    ensures (|Ticks(0, target)| - 1) * Increment(target) < target
  {
    TicksFromZero(target);
  }

  /** A tick whose multiple of the increment is still within the target
      shows that multiple. */
  lemma UnclampedTick(target: int, k: int, inc: int)
    requires target > 0 && inc == Increment(target)
    requires 0 <= k < |Ticks(0, target)| && (k + 1) * inc <= target
    ensures Ticks(0, target)[k] == (k + 1) * inc
  {
    TicksFromZero(target);
  }

}
