/** The range expansion `for (int i = a; i <= b; i++) TryAddIndex(i);` as
    written, on 32-bit `int`. C# arithmetic is unchecked by default, so
    `i++` on `int.MaxValue` wraps around to `int.MinValue`; when `b` is
    `int.MaxValue` the guard `i <= b` can then never fail. The selection
    model itself expands a range with `Selection.Interval`, which visits
    exactly `a..b` and stops. */
module RangeLoop {
  import opened IntParse
  import Selection

  predicate IsInt32(i: int) {
    MinInt32 <= i <= MaxInt32
  }

  /** `i++` on a 32-bit `int` in an unchecked context. */
  function Inc32(i: int): (r: int)
    requires IsInt32(i)
    ensures IsInt32(r)
    ensures i < MaxInt32 ==> r == i + 1
    ensures i == MaxInt32 ==> r == MinInt32
  {
    if i == MaxInt32 then MinInt32 else i + 1
  }

  /** The values the loop body is run with, starting from `i`, when at most
      `fuel` iterations are allowed: the loop as written, wrap-around
      included. */
  function LoopValues(i: int, b: int, fuel: nat): (r: seq<int>)
    requires IsInt32(i)
    ensures |r| <= fuel
    ensures |r| == 0 <==> fuel == 0 || i > b
    ensures |r| > 0 ==> r[0] == i
    ensures forall k :: 0 <= k < |r| ==> IsInt32(r[k]) && r[k] <= b
    ensures forall k :: 0 <= k < |r| - 1 ==> r[k + 1] == Inc32(r[k])
    ensures |r| < fuel && |r| > 0 ==> Inc32(r[|r| - 1]) > b
    decreases fuel
  {
    if fuel == 0 || i > b then []
    else [i] + LoopValues(Inc32(i), b, fuel - 1)
  }

  /** With `b == int.MaxValue` the body runs as many times as it is allowed
      to: the loop never exits, whatever `a` is. */
  lemma {:induction false} NeverExitsAtMaxInt(a: int, fuel: nat)
    requires IsInt32(a)
    ensures |LoopValues(a, MaxInt32, fuel)| == fuel
    decreases fuel
  {
    if fuel > 0 {
      NeverExitsAtMaxInt(Inc32(a), fuel - 1);
    }
  }

  /** "2147483646-2147483647": after the two intended indices the loop goes
      on with `int.MinValue`. */
  lemma WrapsPastMaxInt()
    ensures LoopValues(MaxInt32 - 1, MaxInt32, 3) == [MaxInt32 - 1, MaxInt32, MinInt32]
  {
    assert Inc32(MaxInt32 - 1) == MaxInt32;
    assert Inc32(MaxInt32) == MinInt32;
    assert LoopValues(MinInt32, MaxInt32, 1) == [MinInt32] + LoopValues(Inc32(MinInt32), MaxInt32, 0);
  }

  /** Below `int.MaxValue` the loop as written is the intended expansion:
      given enough iterations it visits exactly `a, a + 1, ..., b`. */
  lemma {:induction false} LoopMatchesIntervalBelowMax(a: int, b: int, fuel: nat)
    requires IsInt32(a) && b < MaxInt32 && b - a < fuel
    ensures LoopValues(a, b, fuel) == Selection.Interval(a, b)
    decreases fuel
  {
    if a <= b {
      LoopMatchesIntervalBelowMax(Inc32(a), b, fuel - 1);
    }
  }
}
