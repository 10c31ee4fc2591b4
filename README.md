# Mass-spectrometry peak search, modelled in Dafny

This project models the core of `src/peak_search.py` from MS-Binding-Sites-Identification,
a tool that finds peaks in a mass spectrum, calibrates the mass axis and matches one
experimental peak against a table of candidate binding compositions. Three parts are modelled:

- **Peak de-duplication** (`peak_find`). The peaks found by `find_peaks` are walked in index
  order. A peak within 3.0 m/z of the peak detected just before it joins that peak's run.
  Runs are chained, so they are built from neighbour-to-neighbour gaps, not distances to a
  centre. One peak per run is flagged in `keep`: the first one of greatest raw intensity.
- **Anchor calibration** (`calibration_shift`, and its use in `peak_find`). The kept peak nearest
  to the protein's predicted mass `r` gives the shift `r - nearest`. Python's `min` picks the
  first of several equally near peaks. The shift is added in place to the spectrum's m/z
  column and to every detected peak mass.
- **Match bookkeeping** (`match_peaks`). The binding table gets three new columns in place. A
  scorer gives a theoretical mass and a loss per row. Each row gets the normalised intensity
  of the calibrated spectrum, linearly interpolated at its theoretical mass; a mass outside the
  spectrum is an error. With `full` set, the rows are sorted by loss.

Masses and intensities are `real`, so every statement is exact.

Modules, one per component:

| file | module | models |
|---|---|---|
| `results.dfy` | `Results` | the `Result` type used for raised errors |
| `sequences.dfy` | `Sequences` | numpy's `a + d`, `a[idx]`, `a[mask]` on sequences |
| `dedup.dfy` | `PeakDedup` | the de-duplication loop and its run-based specification |
| `calibration.dfy` | `Calibration` | `calibration_shift` and the in-place shift |
| `interpolation.dfy` | `Interpolation` | `interp1d(kind='linear')` with its bounds error |
| `matching.dfy` | `Matching` | `match_peaks`: table columns, record, sort |
| `peak_find.dfy` | `PeakSearch` | `peak_find` as a whole |

How the specification is phrased:

- **Survivors.** `PeakDedup.IsRunBest(m, I, j)` says that peak `j` is more intense than every
  earlier peak of its run and no less intense than every later one. The loop
  `PeakDedup.Deduplicate` is proved to flag exactly those peaks. `SurvivorCount` proves that
  there are `1 + WideGaps` of them, where `WideGaps` counts the gaps wider than 3.0.
  `OneSurvivorPerRun` proves that each run is a segment `[RunStart, RunEnd)` with exactly one
  survivor.
- **Calibration.** `CalibrationShift` is bounded by the distance to every kept peak. It is zero
  when `r` is one of them. After the shift, calibrating again gives zero.
- **Matching.** `MatchRecord` states the row count, each row's content and the error cases. With
  `full` set it also states that the rows are sorted by loss and are a permutation of the
  unsorted record.

Three facts of the code shape the model:

- An empty detection raises: line 25 reads `peak_I[0]` before the loop. So at least one detected
  peak is a precondition.
- `min_dist_between_peaks` is never read: the loop compares against the literal `3.` at line 27.
- With `calibrate` set, line 40 changes the caller's m/z column in place.

## Model

| member | source | states |
|---|---|---|
| `PeakDedup.Deduplicate` | src/peak_search.py:18-36 | needs at least one peak; one flag per detected peak; a flag is set exactly on the first greatest-intensity peak of its chained run; at least one flag is set |
| `PeakDedup.FinishRun` | src/peak_search.py:26-36 | in a maximal run `[s, e)` whose first greatest peak is `k`, `k` is the only peak satisfying the survivor condition |
| `PeakDedup.FinaliseRun` | src/peak_search.py:32-36 | setting `keep[k]` when a run closes keeps "flags before the run's end are exactly the survivors, none after" |
| `PeakDedup.RunStart` | src/peak_search.py:27 | the run of peak `j` starts at a peak that opens a run, no later than `j`, and chains up to `j` |
| `PeakDedup.RunEnd` | src/peak_search.py:27 | the run of peak `j` ends just before the next peak that opens a run (or at the end), and chains from `j` to there |
| `PeakDedup.FirstGreatest` | src/peak_search.py:28-31 | the strict `>` replacement picks the first index of greatest intensity: earlier peaks are strictly smaller, later ones no greater |
| `PeakDedup.OneSurvivorPerRun` | src/peak_search.py:26-35 | a peak's run is exactly `[RunStart, RunEnd)`; the run has a survivor, and any survivor in it is that one |
| `PeakDedup.QuietRun` | src/peak_search.py:27 | inside one run no gap exceeds 3.0, so the wide gaps from the run's first peak are those from its last |
| `PeakDedup.RunGaps` | src/peak_search.py:27 | from a run's first peak on, the wide gaps are the one that closes the run, if any, plus those after it |
| `PeakDedup.RunFlagsOne` | src/peak_search.py:26-36 | the survivor flags within one run count exactly one |
| `PeakDedup.SurvivorsFrom` | src/peak_search.py:26-36 | from a run's first peak on, the survivor flags count one more than the wide gaps |
| `PeakDedup.SurvivorCount` | src/peak_search.py:26-43 | the survivor flags count one more than the gaps wider than 3.0, so `peak_masses[keep]` has one mass per run |
| `PeakDedup.SurvivorsIgnoreShift` | src/peak_search.py:27 | adding the same shift to every mass changes no survivor flag, since only gaps to the previous peak are compared |
| `Sequences.Shifted` | src/peak_search.py:40-41 | `a += shift` moves every element by the shift and keeps the length, so every difference between two elements is kept |
| `Sequences.Gather` | src/peak_search.py:16-20 | `bound_df.loc[peaks_idx]` and its columns: one value per index, in index order, the column's value at that index |
| `Sequences.GatherIncreasing` | src/peak_search.py:16-18 | ascending detected indices into an ascending m/z column give ascending peak masses |
| `Sequences.Select` | src/peak_search.py:43 | `peak_masses[keep]` is no longer than the input and is non-empty exactly when some flag is set |
| `Sequences.SelectLength` | src/peak_search.py:43 | `peak_masses[keep]` has as many elements as there are set flags |
| `Sequences.SelectMembers` | src/peak_search.py:43 | a value is among the masked masses exactly when a flagged position holds it |
| `Sequences.SelectIncreasing` | src/peak_search.py:43 | masking an ascending mass column gives an ascending result |
| `Sequences.NumTrueAppend` | src/peak_search.py:43 | the number of set flags adds up over concatenated masks |
| `Sequences.NumTrueSingle` | src/peak_search.py:43 | a mask set at exactly one position counts one |
| `Sequences.NumTrueNone` | src/peak_search.py:43 | a mask with no flag set counts zero |
| `Sequences.SelectShifted` | src/peak_search.py:41-43 | shifting all peak masses then masking gives the masked masses shifted |
| `Calibration.NearestIndex` | src/peak_search.py:48 | `min` with key `abs(x - r)` picks a peak at least distance from `r`, and the first of those |
| `Calibration.CalibrationShift` | src/peak_search.py:46-48 | needs a non-empty peak list; `r - shift` is one of the peaks; the shift's size is at most the distance from `r` to any peak; it is zero when `r` is a peak |
| `Calibration.RecalibrationIsIdentity` | src/peak_search.py:38-41 | after applying the shift, the peak nearest to `r` equals `r`, and calibrating again gives shift zero |
| `Calibration.ApplyShift` | src/peak_search.py:40-41 | `a += shift` adds the shift to every element in place |
| `Interpolation.CountBelow` | src/peak_search.py:63 | the `searchsorted` position: exactly the samples before it lie strictly below the query |
| `Interpolation.Upper` | src/peak_search.py:63 | the segment interp1d uses for an in-range query is a pair of neighbouring samples that encloses it |
| `Interpolation.Lerp` | src/peak_search.py:63 | the linear formula gives the end values at the ends and stays between them |
| `Interpolation.InterpolateAt` | src/peak_search.py:63-66 | `find_intensities` at one in-range query: on the enclosing segment it takes the end samples' values at the ends and lies between them; its properties over the whole curve are `InterpolateAtSample`, `InterpolateBetween` and `InterpolateInUnitRange` |
| `Interpolation.InterpolateAtSample` | src/peak_search.py:66 | the interpolated intensity at a sample's m/z is that sample's intensity |
| `Interpolation.InterpolateBetween` | src/peak_search.py:66 | between two neighbouring samples the interpolated intensity lies between their intensities |
| `Interpolation.InterpolateInUnitRange` | src/peak_search.py:66 | interpolating a normalised intensity curve gives a value in [0, 1] |
| `Interpolation.InterpolateAll` | src/peak_search.py:63-66 | a query column succeeds exactly when every query lies within the m/z range; a query below the range raises the below error before any above the range; otherwise one interpolated value per query |
| `Matching.WithMatchColumns` | src/peak_search.py:57-60 | without a `Theoretical Peak Mass` column it fails; otherwise it adds `Experimental Peak` (all equal to the peak), `Closeness of Fit (Loss)` (all -1) and `Closest Fit` (all false), each as long as that column, and leaves every other column alone |
| `Matching.BindingDict.AddMatchColumns` | src/peak_search.py:57-60 | returns `n_solns` and adds the three columns to the table in place, or fails with the table unchanged |
| `Matching.ScoredRecord` | src/peak_search.py:63-66 | one row per table row, in table order, with the scorer's theoretical mass and loss, the experimental peak and the intensity interpolated at the theoretical mass; an error exactly when the column is missing or a theoretical mass is outside the spectrum |
| `Matching.InsertByLoss` | src/peak_search.py:70 | inserting into a loss-sorted list keeps it sorted and adds exactly that row |
| `Matching.SortByLoss` | src/peak_search.py:70 | `sort_values` by loss returns the same rows, in non-decreasing loss order |
| `Matching.MatchRecord` | src/peak_search.py:69-71 | with `full` set, the record's rows sorted by loss and a permutation of the record; without it, the record as it is; errors as the record's |
| `Matching.MatchPeaks` | src/peak_search.py:51-71 | the caller's table gains the three columns (or is unchanged when it lacks the theoretical-mass column) and the result is `MatchRecord` |
| `PeakSearch.PeakFind` | src/peak_search.py:11-43 | the flags are those of the survivors of the detected peaks; without `calibrate` nothing changes and the kept masses are the masked masses; with it the m/z column and all peak masses move by the calibration shift of the kept masses, and afterwards `r` is a kept mass and recalibrating gives zero; the indices come back unchanged |
| `PeakSearch.FlagsSurviveCalibration` | src/peak_search.py:38-43 | re-running the de-duplication on the shifted spectrum gives the same flags |
| `PeakSearch.KeptMassesAscend` | src/peak_search.py:43 | for ascending detected indices into an ascending spectrum, the returned masses ascend |

## Left out

- `find_peaks` (line 15) is a scipy call. Its result is the parameter `peaksIdx`, required only to
  be non-empty and in range. Its local-maximum and plateau rules are not modelled.
- `peak_isotope` (line 47) is code outside this file. The protein's predicted mass is the
  parameter `reference`, and the `protein` formula argument is not modelled.
- `calculate_score_no_interpolation` (line 65) is code outside this file. It is the function
  parameter `scorer`, which gets the table with its new columns, the experimental peak, the
  spectrum's m/z and normalised-intensity columns, `full` and the weight, and gives each row a
  theoretical mass and a loss. It is total; scorer failures are not modelled.
- Matching.MatchPeaks: its contract, and those of `ScoredRecord` and `MatchRecord`, rest on three
  assumptions about that hidden call. It does not write into `binding_dict`, so the table ends
  with exactly the three set-up columns and their initial values. It returns a record separate from
  `binding_dict`, so assigning `Intensity` at line 66 does not reach the caller's table. That
  record has one row per table row, in table order, carrying the experimental peak and a false
  closest-fit flag.
- Matching.ScoredRecord: the source runs the scorer before the bounds check of the
  interpolation. With a side-effect-free scorer the order makes no difference, so the model
  evaluates them together.
- Matching.SortByLoss: pandas' default sort is not stable. The model returns the stable order.
  Its contract states only what pandas promises: sorted by loss, and a permutation.
- Interpolation.InterpolateAt: requires at least two samples, strictly increasing in m/z.
  interp1d sorts unsorted input first and has its own minimum sample count; neither is modelled.
- Timing and `print` in `match_peaks` (lines 55, 68) are observability only.
- `plot_peaks` (lines 74-89) is plotting only.
- pandas and numpy containers are sequences, arrays and a map of columns. `bound_df.loc` is
  assumed to have the default index, so labels are positions. A `full` result (a DataFrame) and
  a plain record (a dict) are both a sequence of rows.
- Floating-point rounding is not modelled. In IEEE doubles the calibrated nearest peak equals
  `r` only up to rounding.
