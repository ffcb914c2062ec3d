/** Cosmic-ray removal (`Experiment.cosmic_erase`).  Each of `cycles` passes
    looks at the first sample of maximum intensity, index i, and compares it
    with the sample `distance` positions to its right; when
    y[i] > factor * y[i + distance] the maximum is a spike and is overwritten
    with the SUM y[i - distance] + y[i + distance] of its two offset neighbours.

    The source does not check the offsets.  `PassAsWritten` models what it
    does at the edges (an index error on the right, a silent wrap-around on the
    left); `Pass` is the corrected pass, which leaves a cycle without effect when
    an offset falls outside the spectrum, and is the one `CosmicErase` and the
    pipeline use. */
module Cosmics {
  import opened Spectra

  /** i is the first index holding the maximum of y (pandas' `idxmax`). */
  ghost predicate IsFirstMax(y: seq<real>, i: int) {
    && 0 <= i < |y|
    && (forall j :: 0 <= j < |y| ==> y[j] <= y[i])
    && (forall j :: 0 <= j < i ==> y[j] < y[i])
  }

  /** The first index of the maximum among the first n samples. */
  function ArgMaxBelow(y: seq<real>, n: nat): (i: nat)
    requires 0 < n <= |y|
    ensures i < n
    ensures forall j :: 0 <= j < n ==> y[j] <= y[i]
    ensures forall j :: 0 <= j < i ==> y[j] < y[i]
  {
    if n == 1 then 0
    else
      var k := ArgMaxBelow(y, n - 1);
      if y[n - 1] > y[k] then n - 1 else k
  }

  function ArgMax(y: seq<real>): (i: nat)
    requires |y| > 0
    ensures IsFirstMax(y, i)
  {
    ArgMaxBelow(y, |y|)
  }

  /** There is only one first maximum. */
  lemma FirstMaxUnique(y: seq<real>, i: int, j: int)
    requires IsFirstMax(y, i) && IsFirstMax(y, j)
    ensures i == j
  {
    assert y[i] <= y[j] && y[j] <= y[i];
  }

  /** Position k of a column of n samples as positional indexing reads it:
      a negative position counts from the end. */
  function Wrapped(k: int, n: nat): (p: nat)
    requires 0 <= k + n && k < n
    ensures p < n && (p == k || p == k + n)
  {
    if k >= 0 then k else k + n
  }

  /** One pass exactly as the source performs it: the empty table has no
      maximum, reading i + distance past the end raises, and i - distance < 0
      indexes from the end of the column. */
  function PassAsWritten(y: seq<real>, distance: nat, factor: real): (r: Result<seq<real>>)
    ensures r.Ok? ==> |r.value| == |y|
  {
    if |y| == 0 then Err(EmptySpectrum)
    else
      var i := ArgMax(y);
      if i + distance >= |y| then Err(OffsetOutOfRange)
      else if y[i] > factor * y[i + distance] then
        Ok(y[i := y[Wrapped(i - distance, |y|)] + y[i + distance]])
      else Ok(y)
  }

  /** What one pass of the source does: it fails exactly on an empty column
      or a right offset past the end; otherwise it touches only the first
      maximum i, and overwrites it with y[i - distance] + y[i + distance]
      (the left one read modulo the length) if and only if
      y[i] > factor * y[i + distance]. */
  lemma PassAsWrittenEffect(y: seq<real>, distance: nat, factor: real)
    ensures |y| == 0 ==> PassAsWritten(y, distance, factor) == Err(EmptySpectrum)
    ensures |y| > 0 ==> (PassAsWritten(y, distance, factor) == Err(OffsetOutOfRange) <==> ArgMax(y) + distance >= |y|)
    ensures |y| > 0 && ArgMax(y) + distance < |y| ==>
      var i, r := ArgMax(y), PassAsWritten(y, distance, factor).value;
      && (forall j :: 0 <= j < |y| && j != i ==> r[j] == y[j])
      && (y[i] > factor * y[i + distance] ==> r[i] == y[Wrapped(i - distance, |y|)] + y[i + distance])
      && (y[i] <= factor * y[i + distance] ==> r == y)
  {
  }

  /** `cycles` passes as written; the first failing pass aborts the run, as
      the exception does in the source.  A non-positive count is `range` of
      nothing. */
  function EraseAsWritten(y: seq<real>, cycles: int, distance: nat, factor: real): (r: Result<seq<real>>)
    ensures r.Ok? ==> |r.value| == |y|
    decreases cycles
  {
    if cycles <= 0 then Ok(y)
    else
      match EraseAsWritten(y, cycles - 1, distance, factor)
      case Err(e) => Err(e)
      case Ok(z) => PassAsWritten(z, distance, factor)
  }

  /** Both offsets of the maximum lie inside a column of n samples. */
  predicate InRange(n: nat, i: nat, distance: nat) {
    distance <= i && i + distance < n
  }

  /** The spike test of the source, on an index whose right offset exists. */
  predicate IsSpike(y: seq<real>, i: nat, distance: nat, factor: real)
    requires i + distance < |y|
  {
    y[i] > factor * y[i + distance]
  }

  /** One corrected pass: as in the source, except that a pass whose
      maximum is closer than `distance` to either end changes nothing. */
  function Pass(y: seq<real>, distance: nat, factor: real): (r: seq<real>)
    ensures |r| == |y|
  {
    if |y| == 0 then y
    else
      var i := ArgMax(y);
      if InRange(|y|, i, distance) && IsSpike(y, i, distance, factor) then
        y[i := y[i - distance] + y[i + distance]]
      else y
  }

  /** What one corrected pass does: only the first maximum i can change, and
      it becomes the sum y[i - distance] + y[i + distance] of its two offset
      neighbours if and only if both lie inside the column and
      y[i] > factor * y[i + distance]; otherwise the column is unchanged. */
  lemma PassEffect(y: seq<real>, distance: nat, factor: real)
    ensures |y| == 0 ==> Pass(y, distance, factor) == y
    ensures |y| > 0 ==>
      var i, r := ArgMax(y), Pass(y, distance, factor);
      && (forall j :: 0 <= j < |y| && j != i ==> r[j] == y[j])
      && (InRange(|y|, i, distance) && IsSpike(y, i, distance, factor) ==> r[i] == y[i - distance] + y[i + distance])
      && (!(InRange(|y|, i, distance) && IsSpike(y, i, distance, factor)) ==> r == y)
  {
    if |y| > 0 {
      var i := ArgMax(y);
      if InRange(|y|, i, distance) && IsSpike(y, i, distance, factor) {
        assert Pass(y, distance, factor) == y[i := y[i - distance] + y[i + distance]];
      } else {
        assert Pass(y, distance, factor) == y;
      }
    }
  }

  /** `step` applied n times to y; a non-positive n applies it no time. */
  function Iterate(step: seq<real> -> seq<real>, y: seq<real>, n: int): (r: seq<real>)
    ensures n <= 0 ==> r == y
    decreases n
  {
    if n <= 0 then y else step(Iterate(step, y, n - 1))
  }

  /** Iterating a + b times is iterating a times and then b times more. */
  lemma {:induction false} IterateSplits(step: seq<real> -> seq<real>, y: seq<real>, a: nat, b: nat)
    ensures Iterate(step, y, a + b) == Iterate(step, Iterate(step, y, a), b)
    decreases b
  {
    if b > 0 {
      IterateSplits(step, y, a, b - 1);
    }
  }

  /** A fixed point of `step` is a fixed point of any number of steps. */
  lemma {:induction false} IterateFixedPoint(step: seq<real> -> seq<real>, y: seq<real>, n: int)
    requires step(y) == y
    ensures Iterate(step, y, n) == y
    decreases n
  {
    if n > 0 {
      IterateFixedPoint(step, y, n - 1);
    }
  }

  /** A step that keeps the length keeps it however often it is applied. */
  lemma {:induction false} IterateKeepsLength(step: seq<real> -> seq<real>, y: seq<real>, n: int)
    requires forall z :: |step(z)| == |z|
    ensures |Iterate(step, y, n)| == |y|
    decreases n
  {
    if n > 0 {
      IterateKeepsLength(step, y, n - 1);
    }
  }

  /** The corrected pass with its parameters fixed. */
  function PassStep(distance: nat, factor: real): seq<real> -> seq<real> {
    z => Pass(z, distance, factor)
  }

  /** The intensity column after `cycles` corrected passes; a non-positive
      count is `range` of nothing.  Every pass keeps the sample count. */
  function Erased(y: seq<real>, cycles: int, distance: nat, factor: real): (r: seq<real>)
    ensures |r| == |y|
    ensures cycles <= 0 ==> r == y
  {
    IterateKeepsLength(PassStep(distance, factor), y, cycles);
    Iterate(PassStep(distance, factor), y, cycles)
  }

  /** One more cycle is one more corrected pass. */
  lemma ErasedStep(y: seq<real>, cycles: nat, distance: nat, factor: real)
    ensures Erased(y, cycles + 1, distance, factor) == Pass(Erased(y, cycles, distance, factor), distance, factor)
  {
  }

  /** Away from the edges the corrected pass is the source's pass. */
  lemma AgreesAwayFromEdges(y: seq<real>, distance: nat, factor: real)
    requires |y| > 0 && InRange(|y|, ArgMax(y), distance)
    ensures PassAsWritten(y, distance, factor) == Ok(Pass(y, distance, factor))
  {
  }

  /** When the maximum of every cycle has both offsets inside the column,
      the source's loop runs to the end and computes exactly the corrected
      passes. */
  lemma {:induction false} AsWrittenAgreesAwayFromEdges(y: seq<real>, cycles: int, distance: nat, factor: real)
    requires cycles > 0 ==> |y| > 0
    requires forall k :: 0 <= k < cycles ==> InRange(|y|, ArgMax(Erased(y, k, distance, factor)), distance)
    ensures EraseAsWritten(y, cycles, distance, factor) == Ok(Erased(y, cycles, distance, factor))
    decreases cycles
  {
    if cycles > 0 {
      AsWrittenAgreesAwayFromEdges(y, cycles - 1, distance, factor);
      AgreesAwayFromEdges(Erased(y, cycles - 1, distance, factor), distance, factor);
    }
  }

  /** As written, a raised error ends the run: no later cycle takes place. */
  lemma {:induction false} AbortIsFinal(y: seq<real>, k: int, cycles: int, distance: nat, factor: real)
    requires k <= cycles && EraseAsWritten(y, k, distance, factor).Err?
    ensures EraseAsWritten(y, cycles, distance, factor) == EraseAsWritten(y, k, distance, factor)
    decreases cycles - k
  {
    if cycles > k {
      AbortIsFinal(y, k, cycles - 1, distance, factor);
    }
  }

  /** As written, a failed run reports the error of its first failing pass:
      the first k cycles succeed, and pass k + 1 raises that error. */
  lemma {:induction false} FailureIsFirstFailingPass(y: seq<real>, cycles: int, distance: nat, factor: real)
    requires EraseAsWritten(y, cycles, distance, factor).Err?
    ensures exists k ::
      && 0 <= k < cycles
      && EraseAsWritten(y, k, distance, factor).Ok?
      && PassAsWritten(EraseAsWritten(y, k, distance, factor).value, distance, factor)
         == EraseAsWritten(y, cycles, distance, factor)
    decreases cycles
  {
    var prev := EraseAsWritten(y, cycles - 1, distance, factor);
    if prev.Err? {
      FailureIsFirstFailingPass(y, cycles - 1, distance, factor);
    } else {
      assert PassAsWritten(prev.value, distance, factor) == EraseAsWritten(y, cycles, distance, factor);
    }
  }

  /** As written, a spike within `distance` of the left end is replaced by a
      sum that reads a sample near the RIGHT end of the column: here index 3
      stands in for the missing index -2.  The corrected pass leaves it. */
  lemma LeftEdgeWrapsAround()
    ensures PassAsWritten([100.0, 1.0, 1.0, 40.0, 1.0], 2, 5.0) == Ok([41.0, 1.0, 1.0, 40.0, 1.0])
    ensures Pass([100.0, 1.0, 1.0, 40.0, 1.0], 2, 5.0) == [100.0, 1.0, 1.0, 40.0, 1.0]
  {
    var y := [100.0, 1.0, 1.0, 40.0, 1.0];
    assert y[0] >= y[ArgMax(y)];
    assert ArgMax(y) == 0;
    assert Wrapped(0 - 2, 5) == 3;
    assert y[0 := y[3] + y[2]] == [41.0, 1.0, 1.0, 40.0, 1.0];
  }

  /** As written, a maximum within `distance` of the right end aborts the
      whole run with an index error; the corrected pass leaves it. */
  lemma RightEdgeRaises()
    ensures PassAsWritten([1.0, 1.0, 1.0, 100.0, 1.0], 2, 5.0) == Err(OffsetOutOfRange)
    ensures Pass([1.0, 1.0, 1.0, 100.0, 1.0], 2, 5.0) == [1.0, 1.0, 1.0, 100.0, 1.0]
  {
    var y := [1.0, 1.0, 1.0, 100.0, 1.0];
    assert y[3] <= y[ArgMax(y)];
    assert ArgMax(y) == 3;
  }

  /** As written, the right-edge error of the first cycle aborts a run of
      five cycles. */
  lemma RightEdgeAbortsRun()
    ensures EraseAsWritten([1.0, 1.0, 1.0, 100.0, 1.0], 5, 2, 5.0) == Err(OffsetOutOfRange)
  {
    var y := [1.0, 1.0, 1.0, 100.0, 1.0];
    RightEdgeRaises();
    assert EraseAsWritten(y, 0, 2, 5.0) == Ok(y);
    AbortIsFinal(y, 1, 5, 2, 5.0);
  }

  /** A column that one pass leaves unchanged is a fixed point: any number
      of cycles leaves it unchanged. */
  lemma StableOnceUnchanged(y: seq<real>, cycles: int, distance: nat, factor: real)
    requires Pass(y, distance, factor) == y
    ensures Erased(y, cycles, distance, factor) == y
  {
    IterateFixedPoint(PassStep(distance, factor), y, cycles);
  }

  /** Running a + b passes is running a passes and then b more. */
  lemma ErasedSplits(y: seq<real>, a: nat, b: nat, distance: nat, factor: real)
    ensures Erased(y, a + b, distance, factor) == Erased(Erased(y, a, distance, factor), b, distance, factor)
  {
    IterateSplits(PassStep(distance, factor), y, a, b);
  }

  /** Once a pass finds no spike, extra cycles are idempotent. */
  lemma ExtraCyclesChangeNothing(y: seq<real>, k: nat, extra: nat, distance: nat, factor: real)
    requires Pass(Erased(y, k, distance, factor), distance, factor) == Erased(y, k, distance, factor)
    ensures Erased(y, k + extra, distance, factor) == Erased(y, k, distance, factor)
  {
    ErasedSplits(y, k, extra, distance, factor);
    StableOnceUnchanged(Erased(y, k, distance, factor), extra, distance, factor);
  }

  /** When no sample at all passes the spike test against its right offset,
      any number of cycles leaves the column unchanged. */
  lemma NoSpikeAnywhereIsStable(y: seq<real>, cycles: int, distance: nat, factor: real)
    requires forall j :: 0 <= j && j + distance < |y| ==> !IsSpike(y, j, distance, factor)
    ensures Erased(y, cycles, distance, factor) == y
  {
    if |y| > 0 && InRange(|y|, ArgMax(y), distance) {
      assert !IsSpike(y, ArgMax(y), distance, factor);
    }
    StableOnceUnchanged(y, cycles, distance, factor);
  }

  /** Example: the spike 500 at index 2 exceeds 5 * y[4] and becomes
      y[0] + y[4] = 20. */
  lemma SingleSpikeExample()
    ensures Erased([10.0, 10.0, 500.0, 10.0, 10.0, 10.0], 1, 2, 5.0) == [10.0, 10.0, 20.0, 10.0, 10.0, 10.0]
  {
    var y := [10.0, 10.0, 500.0, 10.0, 10.0, 10.0];
    assert y[2] <= y[ArgMax(y)];
    assert ArgMax(y) == 2;
    assert Erased(y, 0, 2, 5.0) == y;
  }

  /** `spectrum.idxmax()[1]`: a scan for the first maximum of the column. */
  method IndexOfMax(y: array<real>) returns (i: nat)
    requires y.Length > 0
    ensures IsFirstMax(y[..], i)
    ensures i == ArgMax(y[..])
  {
    i := 0;
    for k := 1 to y.Length
      invariant i < k
      invariant forall j :: 0 <= j < k ==> y[j] <= y[i]
      invariant forall j :: 0 <= j < i ==> y[j] < y[i]
    {
      if y[k] > y[i] {
        i := k;
      }
    }
    FirstMaxUnique(y[..], i, ArgMax(y[..]));
  }

  /** One cycle of the source's loop, on the intensity column in place. */
  method ErasePass(y: array<real>, distance: nat, factor: real)
    modifies y
    ensures y[..] == Pass(old(y[..]), distance, factor)
  {
    ghost var before := y[..];
    if y.Length > 0 {
      var i := IndexOfMax(y);
      if distance <= i && i + distance < y.Length && y[i] > factor * y[i + distance] {
        var v := y[i - distance] + y[i + distance];
        assert v == before[i - distance] + before[i + distance];
        assert InRange(|before|, i, distance) && IsSpike(before, i, distance, factor);
        assert Pass(before, distance, factor) == before[i := v];
        y[i] := v;
        assert y[..] == before[i := v];
      } else {
        assert Pass(before, distance, factor) == before;
      }
    }
  }

  /** The intensity column, overwritten in place by `cycles` corrected passes. */
  method CosmicErase(y: array<real>, cycles: int, distance: nat, factor: real)
    modifies y
    ensures y[..] == Erased(old(y[..]), cycles, distance, factor)
  {
    var k := 0;
    while k < cycles
      invariant k == 0 || 0 < k <= cycles
      invariant y[..] == Erased(old(y[..]), k, distance, factor)
    {
      ErasePass(y, distance, factor);
      ErasedStep(old(y[..]), k, distance, factor);
      k := k + 1;
    }
    if cycles <= 0 {
      assert Erased(old(y[..]), cycles, distance, factor) == old(y[..]) == Erased(old(y[..]), 0, distance, factor);
    }
  }
}
