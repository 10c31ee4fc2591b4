/**
 * One-point anchor calibration of `peak_find`: the kept peak nearest to the
 * reference mass `r` (the protein's predicted peak, a parameter here) decides an
 * additive shift `r - nearest`, which is then added in place to the spectrum's
 * m/z column and to every detected peak mass.
 */
module Calibration {
  import opened Sequences

  function Abs(x: real): real
  {
    if x < 0.0 then -x else x
  }

  /**
   * The index Python's `min(peaks, key=lambda x: abs(x - r))` picks: a peak at
   * least distance from `r`, and the first of those, since `min` only replaces
   * its candidate by a strictly closer one.
   */
  function NearestIndex(peaks: seq<real>, r: real): (i: nat)
    requires |peaks| > 0
    ensures i < |peaks|
    ensures forall j :: 0 <= j < |peaks| ==> Abs(peaks[i] - r) <= Abs(peaks[j] - r)
    ensures forall j :: 0 <= j < i ==> Abs(peaks[i] - r) < Abs(peaks[j] - r)
  {
    if |peaks| == 1 then 0
    else
      var i := NearestIndex(peaks[..|peaks| - 1], r);
      if Abs(peaks[|peaks| - 1] - r) < Abs(peaks[i] - r) then |peaks| - 1 else i
  }

  /**
   * `calibration_shift`: the reference mass minus the nearest peak. Calling it
   * with no peaks is an error in the source (`min` of an empty sequence).
   */
  function CalibrationShift(peaks: seq<real>, r: real): (shift: real)
    requires |peaks| > 0
    ensures (r - shift) in peaks
    ensures forall p :: p in peaks ==> Abs(shift) <= Abs(r - p)
    ensures r in peaks ==> shift == 0.0
  {
    var i := NearestIndex(peaks, r);
    assert Abs(r - peaks[i]) == Abs(peaks[i] - r);
    r - peaks[i]
  }

  /**
   * After the shift is applied, the nearest peak sits exactly on `r`, so
   * calibrating a calibrated peak list shifts by nothing.
   */
  lemma {:induction false} RecalibrationIsIdentity(peaks: seq<real>, r: real)
    requires |peaks| > 0
    ensures var calibrated := Shifted(peaks, CalibrationShift(peaks, r));
      && calibrated[NearestIndex(calibrated, r)] == r
      && CalibrationShift(calibrated, r) == 0.0
  {
    var shift := CalibrationShift(peaks, r);
    var calibrated := Shifted(peaks, shift);
    var i :| 0 <= i < |peaks| && peaks[i] == r - shift;
    assert calibrated[i] == r;
    var n := NearestIndex(calibrated, r);
    assert Abs(calibrated[n] - r) <= Abs(calibrated[i] - r);
  }

  /** `a += shift` on a numpy array: every element moves by the same amount. */
  method ApplyShift(a: array<real>, shift: real)
    modifies a
    ensures a[..] == Shifted(old(a[..]), shift)
  {
    for i := 0 to a.Length
      invariant forall j :: 0 <= j < i ==> a[j] == old(a[j]) + shift
      invariant forall j :: i <= j < a.Length ==> a[j] == old(a[j])
    {
      a[i] := a[i] + shift;
    }
  }
}
