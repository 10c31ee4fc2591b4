/**
 * The de-duplication loop of `peak_find`: detected peaks, in index order, are
 * grouped into runs by chained adjacency (a peak joins the run of the peak
 * detected just before it when their masses differ by at most `Window`), and
 * one peak per run is flagged in `keep`: the first one of greatest intensity.
 */
module PeakDedup {
  import opened Sequences

  /** The literal window of the loop; the `min_dist_between_peaks` argument is never read. */
  const Window: real := 3.0

  /** Peak `q` opens a run: it is the first peak, or it is farther than the window from peak `q - 1`. */
  predicate StartsRun(m: seq<real>, q: int)
    requires 0 <= q < |m|
  {
    q == 0 || m[q] - m[q - 1] > Window
  }

  /** Peaks `a <= b` are in one run: no peak after `a` up to `b` opens a new one. */
  predicate SameRun(m: seq<real>, a: int, b: int)
    requires 0 <= a <= b < |m|
  {
    forall q :: a < q <= b ==> m[q] - m[q - 1] <= Window
  }

  /** Peaks `a` and `b`, in either order, are in one run. */
  predicate InOneRun(m: seq<real>, a: int, b: int)
    requires 0 <= a < |m| && 0 <= b < |m|
  {
    if a <= b then SameRun(m, a, b) else SameRun(m, b, a)
  }

  /**
   * Peak `j` is the survivor of its run: it is more intense than every earlier
   * peak of the run and at least as intense as every later one.
   */
  predicate IsRunBest(m: seq<real>, intensity: seq<real>, j: int)
    requires |intensity| == |m| && 0 <= j < |m|
  {
    && (forall t :: 0 <= t < j && SameRun(m, t, j) ==> intensity[t] < intensity[j])
    && (forall t :: j < t < |m| && SameRun(m, j, t) ==> intensity[t] <= intensity[j])
  }

  /** Number of gaps wider than the window between consecutive peaks from peak `s` on. */
  function WideGaps(m: seq<real>, s: nat): nat
    requires s <= |m|
    decreases |m| - s
  {
    if s + 1 >= |m| then 0
    else (if m[s + 1] - m[s] > Window then 1 else 0) + WideGaps(m, s + 1)
  }

  /** A peak that opens a run separates every earlier peak from every later one. */
  lemma BreakSplitsRun(m: seq<real>, q: nat, a: nat, b: nat)
    requires q < |m| && a <= b < |m|
    ensures a < q <= b && StartsRun(m, q) ==> !SameRun(m, a, b)
  {
    if a < q <= b && StartsRun(m, q) {
      assert m[q] - m[q - 1] > Window;
    }
  }

  /**
   * A maximal run `[s, e)` whose first greatest peak is `k` has `k` as its only survivor:
   * the situation of the loop whenever it finalises a run.
   */
  lemma FinishRun(m: seq<real>, intensity: seq<real>, s: nat, k: nat, e: nat)
    requires |intensity| == |m|
    requires s <= k < e <= |m|
    requires StartsRun(m, s) && SameRun(m, s, e - 1)
    requires e < |m| ==> StartsRun(m, e)
    requires forall t :: s <= t < k ==> intensity[t] < intensity[k]
    requires forall t :: k < t < e ==> intensity[t] <= intensity[k]
    ensures forall j :: s <= j < e ==> (IsRunBest(m, intensity, j) <==> j == k)
  {
    forall t | 0 <= t < k && SameRun(m, t, k)
      ensures intensity[t] < intensity[k]
    {
      BreakSplitsRun(m, s, t, k);
    }
    forall t | k < t < |m| && SameRun(m, k, t)
      ensures intensity[t] <= intensity[k]
    {
      if e < |m| {
        BreakSplitsRun(m, e, k, t);
      }
    }
    assert IsRunBest(m, intensity, k);
    forall j | s <= j < e && j != k
      ensures !IsRunBest(m, intensity, j)
    {
      if j < k {
        assert SameRun(m, j, k);
      } else {
        assert SameRun(m, k, j);
      }
    }
  }

  /** The flags of the peaks before `s` are those of the survivors, and no later flag is set. */
  predicate FlagsUpTo(m: seq<real>, intensity: seq<real>, flags: seq<bool>, s: nat)
    requires |intensity| == |m| == |flags| && s <= |m|
  {
    && (forall j :: 0 <= j < s ==> (flags[j] <==> IsRunBest(m, intensity, j)))
    && (forall j :: s <= j < |flags| ==> !flags[j])
  }

  /** Setting the flag of the survivor `k` of the maximal run `[s, e)` accounts for that run. */
  lemma FinaliseRun(m: seq<real>, intensity: seq<real>, flags: seq<bool>, s: nat, k: nat, e: nat)
    requires |intensity| == |m| == |flags|
    requires s <= k < e <= |m|
    requires StartsRun(m, s) && SameRun(m, s, e - 1)
    requires e < |m| ==> StartsRun(m, e)
    requires forall t :: s <= t < k ==> intensity[t] < intensity[k]
    requires forall t :: k < t < e ==> intensity[t] <= intensity[k]
    requires FlagsUpTo(m, intensity, flags, s)
    ensures FlagsUpTo(m, intensity, flags[k := true], e)
  {
    FinishRun(m, intensity, s, k, e);
  }

  /**
   * The loop of `peak_find` over the detected peaks' masses and raw intensities.
   * It needs at least one peak (the source reads `peak_I[0]` first). The result
   * flags exactly the survivors; `SurvivorCount` counts them.
   */
  method Deduplicate(masses: seq<real>, intensity: seq<real>) returns (keep: seq<bool>)
    requires |masses| == |intensity| && 0 < |masses|
    ensures |keep| == |masses|
    ensures forall j :: 0 <= j < |masses| ==> (keep[j] <==> IsRunBest(masses, intensity, j))
    ensures true in keep
  {
    var n := |masses|;
    keep := seq(n, _ => false);
    var k := 0;
    var maxI := intensity[k];
    ghost var s := 0;
    for i := 1 to n
      invariant |keep| == n
      invariant 0 <= s <= k < i
      invariant StartsRun(masses, s) && SameRun(masses, s, i - 1)
      invariant maxI == intensity[k]
      invariant forall t :: s <= t < k ==> intensity[t] < maxI
      invariant forall t :: k < t < i ==> intensity[t] <= maxI
      invariant FlagsUpTo(masses, intensity, keep, s)
    {
      if masses[i] - masses[i - 1] <= Window {
        var currentI := intensity[i];
        if currentI > maxI {
          maxI := currentI;
          k := i;
        }
      } else {
        FinaliseRun(masses, intensity, keep, s, k, i);
        keep := keep[k := true];
        k := i;
        maxI := intensity[i];
        s := i;
      }
    }
    FinaliseRun(masses, intensity, keep, s, k, n);
    keep := keep[k := true];
    assert keep[k];
  }

  /** The peak that opens the run of peak `j`. */
  function RunStart(m: seq<real>, j: nat): (s: nat)
    requires j < |m|
    ensures s <= j && StartsRun(m, s) && SameRun(m, s, j)
  {
    if StartsRun(m, j) then j else RunStart(m, j - 1)
  }

  /** One past the last peak of the run of peak `j`. */
  function RunEnd(m: seq<real>, j: nat): (e: nat)
    requires j < |m|
    ensures j < e <= |m| && SameRun(m, j, e - 1)
    ensures e < |m| ==> StartsRun(m, e)
    decreases |m| - j
  {
    if j + 1 == |m| || StartsRun(m, j + 1) then j + 1 else RunEnd(m, j + 1)
  }

  /** The first peak of greatest intensity in `[s, e)`, found as the loop finds it. */
  function FirstGreatest(intensity: seq<real>, s: nat, e: nat): (k: nat)
    requires s < e <= |intensity|
    ensures s <= k < e
    ensures forall t :: s <= t < k ==> intensity[t] < intensity[k]
    ensures forall t :: k < t < e ==> intensity[t] <= intensity[k]
    decreases e - s
  {
    if e == s + 1 then s
    else
      var k := FirstGreatest(intensity, s, e - 1);
      if intensity[e - 1] > intensity[k] then e - 1 else k
  }

  /** The survivor of the run of peak `j`. */
  function RunSurvivor(m: seq<real>, intensity: seq<real>, j: nat): nat
    requires |intensity| == |m| && j < |m|
  {
    FirstGreatest(intensity, RunStart(m, j), RunEnd(m, j))
  }

  /**
   * The run of a peak is the segment `[RunStart, RunEnd)`, and it has exactly one
   * survivor: its first peak of greatest intensity.
   */
  lemma OneSurvivorPerRun(m: seq<real>, intensity: seq<real>, j: nat)
    requires |intensity| == |m| && j < |m|
    ensures forall t :: 0 <= t < |m| ==> (InOneRun(m, j, t) <==> RunStart(m, j) <= t < RunEnd(m, j))
    ensures InOneRun(m, j, RunSurvivor(m, intensity, j))
    ensures IsRunBest(m, intensity, RunSurvivor(m, intensity, j))
    ensures forall t :: 0 <= t < |m| && InOneRun(m, j, t) && IsRunBest(m, intensity, t) ==>
              t == RunSurvivor(m, intensity, j)
  {
    var s, e := RunStart(m, j), RunEnd(m, j);
    var k := FirstGreatest(intensity, s, e);
    assert SameRun(m, s, e - 1);
    forall t | 0 <= t < |m|
      ensures InOneRun(m, j, t) <==> s <= t < e
    {
      if t < j {
        BreakSplitsRun(m, s, t, j);
      } else if e < |m| {
        BreakSplitsRun(m, e, j, t);
      }
    }
    FinishRun(m, intensity, s, k, e);
  }

  /** Only the gaps between masses matter, so a calibration shift keeps every flag. */
  lemma SurvivorsIgnoreShift(m: seq<real>, intensity: seq<real>, d: real, j: nat)
    requires |intensity| == |m| && j < |m|
    ensures IsRunBest(Shifted(m, d), intensity, j) <==> IsRunBest(m, intensity, j)
  {
    var m' := Shifted(m, d);
    forall a, b | 0 <= a <= b < |m|
      ensures SameRun(m', a, b) <==> SameRun(m, a, b)
    {
      assert forall q :: a < q <= b ==> m'[q] - m'[q - 1] == m[q] - m[q - 1];
    }
  }

  /** No gap inside a run is wide, so the runs from `s` and from its last peak see the same gaps. */
  lemma {:induction false} QuietRun(m: seq<real>, s: nat, e: nat)
    requires s < e <= |m| && SameRun(m, s, e - 1)
    ensures WideGaps(m, s) == WideGaps(m, e - 1)
    decreases e - s
  {
    if s + 1 < e {
      assert m[s + 1] - m[s] <= Window;
      QuietRun(m, s + 1, e);
    }
  }

  /** The run opened by peak `s` holds exactly one flagged peak. */
  lemma RunFlagsOne(m: seq<real>, intensity: seq<real>, flags: seq<bool>, s: nat)
    requires |intensity| == |m| == |flags|
    requires forall j :: 0 <= j < |m| ==> (flags[j] <==> IsRunBest(m, intensity, j))
    requires s < |m| && StartsRun(m, s)
    ensures NumTrue(flags[s..RunEnd(m, s)]) == 1
  {
    var e := RunEnd(m, s);
    var k := FirstGreatest(intensity, s, e);
    FinishRun(m, intensity, s, k, e);
    var run := flags[s..e];
    forall j | 0 <= j < |run|
      ensures run[j] <==> j == k - s
    {
      assert run[j] == flags[s + j];
    }
    NumTrueSingle(run, k - s);
  }

  /** The wide gaps from peak `s` on: the one closing its run, if any, and those after it. */
  lemma RunGaps(m: seq<real>, s: nat)
    requires s < |m|
    ensures var e := RunEnd(m, s);
      WideGaps(m, s) == if e < |m| then 1 + WideGaps(m, e) else 0
  {
    var e := RunEnd(m, s);
    QuietRun(m, s, e);
  }

  /** From a peak that opens a run, the survivors are one more than the wide gaps. */
  lemma {:induction false} SurvivorsFrom(m: seq<real>, intensity: seq<real>, flags: seq<bool>, s: nat)
    requires |intensity| == |m| == |flags|
    requires forall j :: 0 <= j < |m| ==> (flags[j] <==> IsRunBest(m, intensity, j))
    requires s < |m| && StartsRun(m, s)
    ensures NumTrue(flags[s..]) == 1 + WideGaps(m, s)
    decreases |m| - s
  {
    var e := RunEnd(m, s);
    RunFlagsOne(m, intensity, flags, s);
    RunGaps(m, s);
    assert flags[s..] == flags[s..e] + flags[e..];
    NumTrueAppend(flags[s..e], flags[e..]);
    if e < |m| {
      SurvivorsFrom(m, intensity, flags, e);
    } else {
      assert flags[e..] == [];
    }
  }

  /**
   * The flags of the survivors: exactly one per run, so one more than the number
   * of gaps wider than the window.
   */
  lemma SurvivorCount(m: seq<real>, intensity: seq<real>, flags: seq<bool>)
    requires |intensity| == |m| == |flags| && 0 < |m|
    requires forall j :: 0 <= j < |m| ==> (flags[j] <==> IsRunBest(m, intensity, j))
    ensures NumTrue(flags) == 1 + WideGaps(m, 0)
  {
    SurvivorsFrom(m, intensity, flags, 0);
    assert flags[0..] == flags;
  }
}
