/**
 * `peak_find`: the peaks `find_peaks` detected (given here as their sample
 * indices) are de-duplicated, and, when `calibrate` is set, the spectrum's m/z
 * column and the detected peak masses are shifted so that the kept peak nearest
 * to the reference mass lands on it.
 */
module PeakSearch {
  import opened Sequences
  import opened PeakDedup
  import opened Calibration

  /**
   * `mz` and `intensity` are the spectrum's `m/z` and raw `I` columns, `peaksIdx`
   * the indices `find_peaks` reported and `reference` the protein's predicted peak.
   * The source reads the first detected peak unconditionally, so at least one is
   * needed. Returns the kept (shifted) masses, the indices unchanged and the flags.
   */
  method PeakFind(mz: array<real>, intensity: seq<real>, peaksIdx: seq<nat>, calibrate: bool, reference: real)
    returns (keptMasses: seq<real>, idx: seq<nat>, keep: seq<bool>)
    requires |intensity| == mz.Length
    requires 0 < |peaksIdx|
    requires forall j :: 0 <= j < |peaksIdx| ==> peaksIdx[j] < mz.Length
    modifies mz
    ensures idx == peaksIdx
    ensures var masses := Gather(old(mz[..]), peaksIdx);
      && |keep| == |peaksIdx| && true in keep
      && (forall j :: 0 <= j < |keep| ==> (keep[j] <==> IsRunBest(masses, Gather(intensity, peaksIdx), j)))
      && (!calibrate ==> mz[..] == old(mz[..]) && keptMasses == Select(masses, keep))
      && (calibrate ==>
            var shift := CalibrationShift(Select(masses, keep), reference);
            mz[..] == Shifted(old(mz[..]), shift) && keptMasses == Select(Shifted(masses, shift), keep))
    ensures calibrate ==> reference in keptMasses && CalibrationShift(keptMasses, reference) == 0.0
  {
    var masses := Gather(mz[..], peaksIdx);
    var peakI := Gather(intensity, peaksIdx);
    var n := |peaksIdx|;
    var peakMasses := new real[n](j requires 0 <= j < n => masses[j]);
    assert peakMasses[..] == masses;
    keep := Deduplicate(peakMasses[..], peakI);
    if calibrate {
      var shift := CalibrationShift(Select(peakMasses[..], keep), reference);
      ApplyShift(mz, shift);
      ApplyShift(peakMasses, shift);
      SelectShifted(masses, keep, shift);
      RecalibrationIsIdentity(Select(masses, keep), reference);
    }
    keptMasses := Select(peakMasses[..], keep);
    idx := peaksIdx;
  }

  /**
   * Recalibrated input gives the same flags: the de-duplication sees only the
   * gaps between detected masses, which a shift of the whole m/z column keeps.
   */
  lemma FlagsSurviveCalibration(mz: seq<real>, intensity: seq<real>, peaksIdx: seq<nat>, shift: real, j: nat)
    requires |intensity| == |mz| && j < |peaksIdx|
    requires forall i :: 0 <= i < |peaksIdx| ==> peaksIdx[i] < |mz|
    ensures IsRunBest(Gather(Shifted(mz, shift), peaksIdx), Gather(intensity, peaksIdx), j)
        <==> IsRunBest(Gather(mz, peaksIdx), Gather(intensity, peaksIdx), j)
  {
    assert Gather(Shifted(mz, shift), peaksIdx) == Shifted(Gather(mz, peaksIdx), shift);
    SurvivorsIgnoreShift(Gather(mz, peaksIdx), Gather(intensity, peaksIdx), shift, j);
  }

  /** Detected peaks at ascending sample indices of an ascending spectrum give ascending kept masses. */
  lemma KeptMassesAscend(mz: seq<real>, peaksIdx: seq<nat>, keep: seq<bool>, shift: real)
    requires StrictlyIncreasing(mz) && |keep| == |peaksIdx|
    requires forall i :: 0 <= i < |peaksIdx| ==> peaksIdx[i] < |mz|
    requires forall i, j :: 0 <= i < j < |peaksIdx| ==> peaksIdx[i] < peaksIdx[j]
    ensures StrictlyIncreasing(Select(Shifted(Gather(mz, peaksIdx), shift), keep))
  {
    var masses := Gather(mz, peaksIdx);
    GatherIncreasing(mz, peaksIdx);
    ShiftedIncreasing(masses, shift);
    SelectIncreasing(Shifted(masses, shift), keep);
  }
}
