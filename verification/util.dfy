/** Unit conversion between credo (the chain's smallest unit) and CTC, and the
    `arrayRange` helper, as defined in util.ts. */
module Util {
  import opened Outcomes
  import opened JsSemantics
  import opened Arith

  /** One CTC expressed in credo: 10^18. */
  const CTC: nat := 1_000_000_000_000_000_000

  function Pow(base: nat, exp: nat): nat {
    if exp == 0 then 1 else base * Pow(base, exp - 1)
  }

  lemma CtcIsTenToTheEighteenth()
    ensures CTC == Pow(10, 18)
  {
    assert Pow(10, 6) == 1_000_000 by {
      assert Pow(10, 3) == 1000;
    }
    assert Pow(10, 12) == 1_000_000_000_000 by {
      PowAdd(10, 6, 6);
    }
    PowAdd(10, 12, 6);
  }

  lemma {:induction false} PowAdd(base: nat, m: nat, n: nat)
    ensures Pow(base, m + n) == Pow(base, m) * Pow(base, n)
    decreases n
  {
    if n > 0 {
      PowAdd(base, m, n - 1);
      calc {
        Pow(base, m + n);
        base * Pow(base, m + n - 1);
        base * (Pow(base, m) * Pow(base, n - 1));
        Pow(base, m) * (base * Pow(base, n - 1));
        Pow(base, m) * Pow(base, n);
      }
    }
  }

  /** `toCtc`: BigInt division by CTC, which truncates toward zero. A
      non-negative amount is rounded down to whole CTC, a negative one up. */
  function ToCtc(credo: int): (ctc: int)
    ensures 0 <= credo ==> ctc * CTC <= credo < ctc * CTC + CTC
    ensures credo < 0 ==> ctc * CTC - CTC < credo <= ctc * CTC
  {
    TruncDiv(credo, CTC)
  }

  /** `toCredo`: whole CTC scaled to credo; always a whole number of CTC. */
  function ToCredo(ctc: int): (credo: int)
    ensures credo % CTC == 0
    ensures (ctc < 0) == (credo < 0)
  {
    ctc * CTC
  }

  /** Converting whole CTC to credo and back is the identity, for every sign. */
  lemma CtcCredoRoundTrip(ctc: int)
    ensures ToCtc(ToCredo(ctc)) == ctc
  {
    var q := ToCtc(ToCredo(ctc));
    assert (ctc - q) * CTC == ctc * CTC - q * CTC;
    QuotientUnique(ctc, q, CTC);
  }

  /** Converting credo to CTC and back loses less than one CTC, rounding a
      non-negative amount down. */
  lemma CredoCtcFloor(credo: int)
    requires credo >= 0
    ensures ToCredo(ToCtc(credo)) <= credo < ToCredo(ToCtc(credo)) + CTC
  {
  }

  /** Truncation toward zero: the conversion is symmetric about zero, so -1
      credo is 0 CTC where Dafny's Euclidean division would give -1. */
  lemma ToCtcTruncatesTowardZero(credo: int)
    ensures ToCtc(-credo) == -ToCtc(credo)
    ensures ToCtc(-1) == 0 && -1 / (CTC as int) == -1
  {
    var q := ToCtc(credo);
    var p := ToCtc(-credo);
    assert (-p - q) * CTC == -(p * CTC) - q * CTC;
    QuotientUnique(-p, q, CTC);
  }

  /** The largest length a JavaScript array can have. */
  const MaxArrayLength: nat := 0xFFFF_FFFF

  /** The length `Array.from` takes for `arrayRange` with a non-zero step:
      `(stop - start) / step + 1` evaluated in floating point, truncated
      toward zero, and negative lengths clamped to 0. */
  function RangeLength(start: int, stop: int, step: int): nat
    requires step != 0
  {
    Max(0, TruncDiv(stop - start + step, step))
  }

  /** `arrayRange(start, stop, step = 1)`: element i is start + i*step. A
      zero step divides by zero: a positive span gives an infinite length,
      which `Array.from` rejects with a RangeError (`None`), while a zero
      span (NaN) or a negative one gives the empty array. A finite length
      beyond the array limit is rejected as well. */
  function ArrayRange(start: int, stop: int, step: Option<int>): (r: Option<seq<int>>)
    ensures var d := step.GetOr(1);
            r.None? <==> if d == 0 then stop > start else RangeLength(start, stop, d) > MaxArrayLength
    ensures step.GetOr(1) == 0 && stop <= start ==> r == Some([])
    ensures step.GetOr(1) != 0 && r.Some? ==> |r.value| == RangeLength(start, stop, step.GetOr(1))
    ensures r.Some? ==> forall i :: 0 <= i < |r.value| ==> r.value[i] == start + i * step.GetOr(1)
  {
    var d := step.GetOr(1);
    if d == 0 then (if stop > start then None else Some([]))
    else
      var len := RangeLength(start, stop, d);
      if len > MaxArrayLength then None
      else Some(seq(len, i => start + i * d))
  }

  /** Without a step, the range counts up by one from `start` through
      `stop` inclusive. */
  lemma ArrayRangeDefaultStep(start: int, stop: int)
    requires start <= stop < start + MaxArrayLength
    ensures ArrayRange(start, stop, None) == Some(seq(stop - start + 1, i => start + i))
  {
    assert TruncDiv(stop - start + 1, 1) == stop - start + 1;
    var r := ArrayRange(start, stop, None);
    assert r.Some? && |r.value| == stop - start + 1;
    assert r.value == seq(stop - start + 1, i => start + i);
  }

  /** When the span is a whole number k of steps, the range has k + 1
      elements running from `start` to exactly `stop`. */
  lemma ArrayRangeExact(start: int, stop: int, step: int, k: nat)
    requires step > 0 && k < MaxArrayLength
    requires stop - start == k * step
    ensures ArrayRange(start, stop, Some(step)).Some?
    ensures |ArrayRange(start, stop, Some(step)).value| == k + 1
    ensures ArrayRange(start, stop, Some(step)).value[0] == start
    ensures ArrayRange(start, stop, Some(step)).value[k] == stop
  {
    var q := TruncDiv(stop - start + step, step);
    assert (k + 1 - q) * step == (stop - start + step) - q * step;
    QuotientUnique(k + 1, q, step);
  }

  /** With a positive step and start <= stop, the range ends at the last
      value `start + i*step` that does not exceed `stop`. */
  lemma ArrayRangeStopsBeforeOvershoot(start: int, stop: int, step: int)
    requires step > 0 && start <= stop
    requires ArrayRange(start, stop, Some(step)).Some?
    ensures var r := ArrayRange(start, stop, Some(step)).value;
      |r| >= 1 && r[|r| - 1] <= stop < r[|r| - 1] + step
  {
    var q := TruncDiv(stop - start + step, step);
    assert 0 <= stop - start + step - q * step < step;
    assert (q - 1) * step == q * step - step;
  }

  /** With a positive step and stop before start the range is empty. */
  lemma ArrayRangeEmpty(start: int, stop: int, step: int)
    requires step > 0 && stop < start
    ensures ArrayRange(start, stop, Some(step)) == Some([])
  {
    var q := TruncDiv(stop - start + step, step);
    ProductPastDivisor(q, step);
    assert q <= 0;
  }
}
