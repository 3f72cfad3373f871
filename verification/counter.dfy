/**
 * The count-up animation of a `.hero__stat-number[data-count]` element.
 *
 * Once started, an interval timer adds `Math.ceil(target / 40)` to a running
 * total on every tick and writes it into the element; the tick on which the
 * total reaches or passes the target writes the target itself and clears the
 * interval. Only the sequence of ticks is modelled, not when they fire.
 */
module Counter {

  /** The number of steps the animation is meant to take: the divisor in `target / 40`. */
  const Steps := 40

  /** `Math.ceil(target / 40)` for an integer target. */
  function Increment(target: int): (inc: int)
    ensures Steps * (inc - 1) < target <= Steps * inc
    ensures inc >= 1 <==> target >= 1
  {
    -((-target) / Steps)
  }

  /** One firing of the interval: the running total after it, the text written, and whether it clears the interval. */
  datatype Frame = Frame(total: int, shown: int, cleared: bool)

  function Tick(target: int, increment: int, total: int): Frame
  {
    var next := total + increment;
    if next >= target then Frame(next, target, true) else Frame(next, next, false)
  }

  /**
   * The frames of an interval whose running total is `total` before its next
   * tick, up to and including the one that clears it. The interval stops when
   * the increment is positive, or when the very first tick already reaches
   * the target; otherwise it would never stop.
   */
  function Run(target: int, increment: int, total: int): (frames: seq<Frame>)
    requires increment >= 1 || total + increment >= target
    ensures |frames| >= 1
    ensures forall i :: 0 <= i < |frames| ==> frames[i].total == total + (i + 1) * increment
    ensures forall i :: 0 <= i < |frames| ==> (frames[i].cleared <==> i == |frames| - 1)
    ensures forall i :: 0 <= i < |frames| - 1 ==> frames[i].shown == frames[i].total < target
    ensures frames[|frames| - 1].shown == target && frames[|frames| - 1].total >= target
    decreases target - total
  {
    var f := Tick(target, increment, total);
    if f.cleared then [f] else [f] + Run(target, increment, f.total)
  }

  /** The frames of the animation started for a `data-count` of `target`, from a running total of 0. */
  function Animate(target: int): (frames: seq<Frame>)
    ensures |frames| >= 1 && frames[|frames| - 1].cleared && frames[|frames| - 1].shown == target
    ensures forall i :: 0 <= i < |frames| - 1 ==> !frames[i].cleared
    ensures target <= 0 ==> |frames| == 1
    ensures target >= 1 ==> (|frames| - 1) * Increment(target) < target <= |frames| * Increment(target)
  {
    var inc := Increment(target);
    var frames := Run(target, inc, 0);
    assert frames[|frames| - 1].total == |frames| * inc;
    assert |frames| >= 2 ==> frames[|frames| - 2].total == (|frames| - 1) * inc;
    frames
  }

  /** The values the element displays, one per tick. */
  function Displayed(target: int): (shown: seq<int>)
    ensures |shown| >= 1 && shown[|shown| - 1] == target
    ensures forall i :: 0 <= i < |shown| - 1 ==> shown[i] == (i + 1) * Increment(target) && shown[i] < target
    ensures target <= 0 ==> shown == [target]
  {
    var frames := Animate(target);
    seq(|frames|, i requires 0 <= i < |frames| => frames[i].shown)
  }

  /** Displayed values never exceed the target and strictly increase. */
  lemma DisplayedBounded(target: int)
    ensures forall i :: 0 <= i < |Displayed(target)| ==> Displayed(target)[i] <= target
    ensures forall i, j :: 0 <= i < j < |Displayed(target)| ==> Displayed(target)[i] < Displayed(target)[j]
  {
    var shown := Displayed(target);
    var inc := Increment(target);
    forall i, j | 0 <= i < j < |shown|
      ensures shown[i] < shown[j]
    {
      if j < |shown| - 1 {
        assert target >= 1;
        MulStrictMono(i + 1, j + 1, inc);
      }
    }
  }

  lemma MulStrictMono(a: int, b: int, c: int)
    requires a < b && c >= 1
    ensures a * c < b * c
  {
  }

  /** `ceil(target / inc)` for a positive increment: how many steps of `inc` it takes to reach `target`. */
  function TickCount(target: int, inc: int): (n: int)
    requires inc >= 1
    ensures n >= 1
    decreases target
  {
    if target <= inc then 1 else 1 + TickCount(target - inc, inc)
  }

  /** Only one number of ticks `n` satisfies `(n - 1) * inc < target <= n * inc`, and it is `TickCount`. */
  lemma {:induction false} TickCountUnique(target: int, inc: int, n: int)
    requires inc >= 1 && target >= 1
    requires (n - 1) * inc < target <= n * inc
    ensures n == TickCount(target, inc)
    decreases target
  {
    if n <= 0 {
      MulMono(n, 0, inc);
      assert false;
    }
    if target <= inc {
      if n >= 2 {
        MulMono(1, n - 1, inc);
        assert false;
      }
    } else {
      if n == 1 {
        assert false;
      }
      assert (n - 1) * inc == (n - 2) * inc + inc;
      TickCountUnique(target - inc, inc, n - 1);
    }
  }

  lemma MulMono(a: int, b: int, c: int)
    requires a <= b && c >= 0
    ensures a * c <= b * c
  {
  }

  /**
   * An independent description of the displayed values: a non-positive target
   * is shown at once; otherwise `k * inc` for `k = 1 .. n - 1`, then the target,
   * where `n = ceil(target / inc)` counted by `TickCount`.
   */
  function Expected(target: int): seq<int>
  {
    if target <= 0 then [target]
    else
      var inc := Increment(target);
      var n := TickCount(target, inc);
      seq(n - 1, k requires 0 <= k < n - 1 => (k + 1) * inc) + [target]
  }

  lemma {:induction false} DisplayedIsExpected(target: int)
    ensures Displayed(target) == Expected(target)
  {
    if target >= 1 {
      var inc := Increment(target);
      var frames := Animate(target);
      TickCountUnique(target, inc, |frames|);
    }
  }

  /** A `data-count` of 100 counts 3, 6, ..., 99 and shows 100 on the 34th tick. */
  lemma HundredTakesThirtyFourTicks()
    ensures Increment(100) == 3
    ensures |Displayed(100)| == 34
    ensures Displayed(100)[0] == 3 && Displayed(100)[32] == 99 && Displayed(100)[33] == 100
    ensures Animate(100)[33].total == 102
  {
    assert Increment(100) == 3;
    var frames := Animate(100);
    assert |frames| == 34;
    assert frames == Run(100, 3, 0);
  }
}
