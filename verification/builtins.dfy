/** The pieces of Python's built-in semantics that the modelled code relies on:
    `range`, slicing with a non-negative start, negative list indexing and
    conversion of a quotient to `int`. */
module Builtins {
  import opened Wrappers
  import Arith

  /** The exceptions the modelled code can raise. */
  datatype Exception =
    | ValueError         // `range` with a zero step
    | ZeroDivisionError  // `%` or `//` by zero
    | IndexError         // list index out of range
    | TypeError          // unpacking a value that is not a tuple

  /** Number of elements of `range(start, stop, step)` for a non-zero step. */
  function RangeLength(start: int, stop: int, step: int): (n: nat)
    requires step != 0
  {
    if step > 0 then
      (if start < stop then (stop - start - 1) / step + 1 else 0)
    else
      (if start > stop then (start - stop - 1) / (-step) + 1 else 0)
  }

  /** `xs` is the arithmetic progression that Python's `range(start, stop, step)`
      enumerates: it starts at `start`, advances by `step`, stays strictly on the
      near side of `stop`, and the value that would follow its last element does not. */
  ghost predicate IsRange(xs: seq<int>, start: int, stop: int, step: int)
  {
    && (|xs| > 0 ==> xs[0] == start)
    && (forall k :: 0 <= k < |xs| - 1 ==> xs[k + 1] == xs[k] + step)
    && (forall k :: 0 <= k < |xs| ==> if step > 0 then xs[k] < stop else xs[k] > stop)
    && (var next := if |xs| == 0 then start else xs[|xs| - 1] + step;
        if step > 0 then next >= stop else next <= stop)
  }

  /** Python's `range(start, stop, step)`, materialised as a sequence. */
  function Range(start: int, stop: int, step: int): (r: Result<seq<int>, Exception>)
    ensures step == 0 <==> r == Failure(ValueError)
    ensures r.Success? ==> IsRange(r.value, start, stop, step)
  {
    if step == 0 then Failure(ValueError)
    else
      var n := RangeLength(start, stop, step);
      var xs := seq(n, k => start + k * step);
      ProgressionIsRange(start, stop, step, xs);
      Success(xs)
  }

  /** The closed-form length puts the last element before `stop` and the next one past it. */
  lemma RangeLengthBounds(start: int, stop: int, step: int)
    requires step != 0
    ensures var n := RangeLength(start, stop, step);
      if step > 0 then (n > 0 ==> start + (n - 1) * step < stop) && start + n * step >= stop
      else (n > 0 ==> start + (n - 1) * step > stop) && start + n * step <= stop
  {
    var n := RangeLength(start, stop, step);
    if step > 0 && start < stop {
      Arith.DivBounds(stop - start - 1, step);
    } else if step < 0 && start > stop {
      Arith.DivBounds(start - stop - 1, -step);
    }
  }

  /** The closed-form progression of `RangeLength` terms meets `IsRange`. */
  lemma ProgressionIsRange(start: int, stop: int, step: int, xs: seq<int>)
    requires step != 0
    requires |xs| == RangeLength(start, stop, step)
    requires forall k :: 0 <= k < |xs| ==> xs[k] == start + k * step
    ensures IsRange(xs, start, stop, step)
  {
    RangeLengthBounds(start, stop, step);
    ProgressionStaysBefore(start, stop, step, |xs|);
    ProgressionSteps(start, step, xs);
    if |xs| > 0 {
      Arith.MulSucc(|xs| - 1, step);
    }
  }

  /** Consecutive terms of `start + k*step` differ by `step`. */
  lemma ProgressionSteps(start: int, step: int, xs: seq<int>)
    requires forall k :: 0 <= k < |xs| ==> xs[k] == start + k * step
    ensures forall k :: 0 <= k < |xs| - 1 ==> xs[k + 1] == xs[k] + step
  {
    forall k | 0 <= k < |xs| - 1
      ensures xs[k + 1] == xs[k] + step
    {
      Arith.MulSucc(k, step);
    }
  }

  /** If the last of `n` terms lies before `stop`, so do all earlier terms. */
  lemma ProgressionStaysBefore(start: int, stop: int, step: int, n: nat)
    requires step != 0
    requires n > 0 ==> if step > 0 then start + (n - 1) * step < stop else start + (n - 1) * step > stop
    ensures forall k :: 0 <= k < n ==> if step > 0 then start + k * step < stop else start + k * step > stop
  {
    forall k | 0 <= k < n
      ensures if step > 0 then start + k * step < stop else start + k * step > stop
    {
      if step > 0 {
        Arith.MulMonotone(k, n - 1, step);
      } else {
        Arith.MulMonotone(k, n - 1, -step);
      }
    }
  }

  /** `IsRange` determines the sequence: `Range` is the only sequence that meets it. */
  lemma {:induction false} RangeUnique(xs: seq<int>, start: int, stop: int, step: int)
    requires step != 0
    ensures IsRange(xs, start, stop, step) <==> Range(start, stop, step) == Success(xs)
  {
    if IsRange(xs, start, stop, step) {
      var ys := Range(start, stop, step).value;
      ProgressionClosedForm(xs, start, step);
      RangeLengthDetermined(xs, start, stop, step);
      assert xs == ys;
    }
  }

  /** A sequence meeting `IsRange` has the closed-form length. */
  lemma RangeLengthDetermined(xs: seq<int>, start: int, stop: int, step: int)
    requires step != 0 && IsRange(xs, start, stop, step)
    ensures |xs| == RangeLength(start, stop, step)
  {
    if |xs| > 0 {
      ProgressionClosedForm(xs, start, step);
      var m := |xs| - 1;
      assert xs[m] == start + m * step;
      if step > 0 {
        Arith.DivModUnique(stop - start - 1, step, m, stop - start - 1 - m * step);
      } else {
        Arith.DivModUnique(start - stop - 1, -step, m, start - stop - 1 + m * step);
      }
    }
  }

  /** Every element of a progression that starts at `start` with difference `step`
      is `start + k*step`. */
  lemma {:induction false} ProgressionClosedForm(xs: seq<int>, start: int, step: int)
    requires |xs| > 0 ==> xs[0] == start
    requires forall k :: 0 <= k < |xs| - 1 ==> xs[k + 1] == xs[k] + step
    ensures forall k :: 0 <= k < |xs| ==> xs[k] == start + k * step
  {
    if |xs| > 1 {
      var init := xs[..|xs| - 1];
      ProgressionClosedForm(init, start, step);
      assert xs[|xs| - 1] == init[|xs| - 2] + step;
    }
  }

  /** Python's `s[lo:hi]` for `0 <= lo <= hi`: both bounds are clamped to the length. */
  function Slice<T>(s: seq<T>, lo: int, hi: int): (r: seq<T>)
    requires 0 <= lo <= hi
    ensures |r| == if lo >= |s| then 0 else if hi >= |s| then |s| - lo else hi - lo
    ensures forall k :: 0 <= k < |r| ==> r[k] == s[lo + k]
  {
    s[Arith.Min(lo, |s|)..Arith.Min(hi, |s|)]
  }

  /** Python's `s[i]`: a negative `i` counts from the end, anything else out of range raises. */
  function Index<T>(s: seq<T>, i: int): (r: Result<T, Exception>)
    ensures r.Success? <==> -|s| <= i < |s|
    ensures 0 <= i < |s| ==> r == Success(s[i])
    ensures -|s| <= i < 0 ==> r == Success(s[|s| + i])
    ensures r.Failure? ==> r.error == IndexError
  {
    if 0 <= i < |s| then Success(s[i])
    else if -|s| <= i < 0 then Success(s[|s| + i])
    else Failure(IndexError)
  }

  /** Python's `int(a / b)` for `b > 0` on exact rationals: truncation toward zero,
      unlike Dafny's `/`, which rounds a negative quotient down. */
  function TruncDiv(a: int, b: int): (q: int)
    requires b > 0
    ensures a >= 0 ==> q * b <= a < q * b + b
    ensures a < 0 ==> q * b - b < a <= q * b
  {
    if a >= 0 then a / b else -((-a) / b)
  }
}
