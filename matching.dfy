/**
 * `match_peaks`: one experimental peak is matched against every row of the
 * binding table. The table gets three new columns in place, an external scorer
 * gives each row a theoretical mass and a loss, each row's intensity is read off
 * the calibrated normalised-intensity curve at its theoretical mass, and with
 * `full` set the rows come back sorted by loss.
 */
module Matching {
  import opened Results
  import opened Sequences
  import opened Interpolation

  /** A column of the binding table (a dict of lists in the source). */
  datatype Column = Reals(reals: seq<real>) | Ints(ints: seq<int>) | Bools(bools: seq<bool>) | Texts(texts: seq<string>)

  function Length(c: Column): nat
  {
    match c
    case Reals(s) => |s|
    case Ints(s) => |s|
    case Bools(s) => |s|
    case Texts(s) => |s|
  }

  type Columns = map<string, Column>

  const TheoreticalPeakMass: string := "Theoretical Peak Mass"
  const ExperimentalPeak: string := "Experimental Peak"
  const Loss: string := "Closeness of Fit (Loss)"
  const ClosestFit: string := "Closest Fit"

  /** The `KeyError` of a table without a theoretical-mass column, or an interpolation error. */
  datatype MatchError = MissingColumn | OutOfRange(cause: InterpError)

  /**
   * The table once `match_peaks` has added its three columns, each as long as the
   * theoretical-mass column: the experimental peak on every row, a loss of -1 and
   * no closest fit. Every other column is left as it was.
   */
  function WithMatchColumns(columns: Columns, peak: real): (r: Result<Columns, MatchError>)
    ensures r.Err? <==> TheoreticalPeakMass !in columns
    ensures r.Err? ==> r.error == MissingColumn
    ensures r.Ok? ==> r.value.Keys == columns.Keys + {ExperimentalPeak, Loss, ClosestFit}
    ensures r.Ok? ==> forall key :: key in columns && key !in {ExperimentalPeak, Loss, ClosestFit} ==>
              r.value[key] == columns[key]
    ensures r.Ok? ==> var n := Length(columns[TheoreticalPeakMass]);
              && r.value[ExperimentalPeak].Reals? && |r.value[ExperimentalPeak].reals| == n
              && (forall i :: 0 <= i < n ==> r.value[ExperimentalPeak].reals[i] == peak)
              && r.value[Loss].Ints? && |r.value[Loss].ints| == n
              && (forall i :: 0 <= i < n ==> r.value[Loss].ints[i] == -1)
              && r.value[ClosestFit].Bools? && |r.value[ClosestFit].bools| == n
              && (forall i :: 0 <= i < n ==> !r.value[ClosestFit].bools[i])
  {
    if TheoreticalPeakMass !in columns then Err(MissingColumn)
    else
      var n := Length(columns[TheoreticalPeakMass]);
      Ok(columns[ExperimentalPeak := Reals(seq(n, _ => peak))]
                [Loss := Ints(seq(n, _ => -1))]
                [ClosestFit := Bools(seq(n, _ => false))])
  }

  /** The binding table, which `match_peaks` changes in place. */
  class BindingDict {
    var columns: Columns

    constructor (columns: Columns)
      ensures this.columns == columns
    {
      this.columns := columns;
    }

    /**
     * Lines 57-60 of `match_peaks`: returns `n_solns` and adds the three columns,
     * or fails with the table unchanged when it has no theoretical-mass column.
     */
    method AddMatchColumns(peak: real) returns (nSolns: Result<nat, MatchError>)
      modifies this
      ensures TheoreticalPeakMass in old(columns) ==>
                && nSolns == Ok(Length(old(columns)[TheoreticalPeakMass]))
                && WithMatchColumns(old(columns), peak) == Ok(columns)
      ensures TheoreticalPeakMass !in old(columns) ==> nSolns == Err(MissingColumn) && columns == old(columns)
    {
      if TheoreticalPeakMass !in columns {
        return Err(MissingColumn);
      }
      var n := Length(columns[TheoreticalPeakMass]);
      columns := columns[ExperimentalPeak := Reals(seq(n, _ => peak))];
      columns := columns[Loss := Ints(seq(n, _ => -1))];
      columns := columns[ClosestFit := Bools(seq(n, _ => false))];
      return Ok(n);
    }
  }

  /** What the external scorer reports for one row. */
  datatype Score = Score(theoreticalMass: real, loss: real)

  /**
   * The isotope-pattern scorer, which cannot be seen from here. It gets what line 65
   * hands it (the table with its new columns, the experimental peak, the spectrum's
   * m/z and normalised-intensity columns, `full` and the weight) and a row, and
   * reports that row's score.
   */
  type Scorer = (Columns, nat, real, seq<real>, seq<real>, bool, real) -> Score

  /** One row of the returned record; `index` is the row's position in the table. */
  datatype MatchRow = MatchRow(index: nat, theoreticalMass: real, experimentalPeak: real,
                               loss: real, closestFit: bool, intensity: real)

  /** The scorer's theoretical masses for rows `0 .. n - 1`, the column line 66 interpolates at. */
  function TheoreticalMasses(columns: Columns, n: nat, peak: real, mz: seq<real>, normIntensity: seq<real>,
                             full: bool, weight: real, scorer: Scorer): seq<real>
  {
    seq(n, i requires 0 <= i < n => scorer(columns, i, peak, mz, normIntensity, full, weight).theoreticalMass)
  }

  /**
   * The record in table order, before any sorting: row `i` holds the scorer's
   * theoretical mass and loss for row `i`, the experimental peak, no closest fit
   * and the interpolated intensity at its theoretical mass. A missing
   * theoretical-mass column or a theoretical mass outside the spectrum's m/z
   * range is an error.
   */
  function ScoredRecord(columns: Columns, peak: real, mz: seq<real>, normIntensity: seq<real>,
                        full: bool, weight: real, scorer: Scorer): (r: Result<seq<MatchRow>, MatchError>)
    requires IsCurve(mz, normIntensity)
    ensures TheoreticalPeakMass !in columns ==> r == Err(MissingColumn)
    ensures TheoreticalPeakMass in columns ==>
              var table := WithMatchColumns(columns, peak).value;
              var n := Length(columns[TheoreticalPeakMass]);
              && (r.Ok? <==> forall i :: 0 <= i < n ==>
                    var mass := scorer(table, i, peak, mz, normIntensity, full, weight).theoreticalMass;
                    mz[0] <= mass <= mz[|mz| - 1])
              && (r.Err? ==> r.error.OutOfRange?)
              && (r.Ok? ==> |r.value| == n && forall i :: 0 <= i < n ==>
                    && r.value[i].index == i
                    && r.value[i].theoreticalMass
                       == scorer(table, i, peak, mz, normIntensity, full, weight).theoreticalMass
                    && r.value[i].loss == scorer(table, i, peak, mz, normIntensity, full, weight).loss
                    && r.value[i].experimentalPeak == peak
                    && !r.value[i].closestFit
                    && r.value[i].intensity == InterpolateAt(mz, normIntensity, r.value[i].theoreticalMass))
  {
    match WithMatchColumns(columns, peak)
    case Err(e) => Err(e)
    case Ok(table) =>
      var n := Length(columns[TheoreticalPeakMass]);
      var masses := TheoreticalMasses(table, n, peak, mz, normIntensity, full, weight, scorer);
      assert forall i :: 0 <= i < n ==>
        masses[i] == scorer(table, i, peak, mz, normIntensity, full, weight).theoreticalMass;
      match InterpolateAll(mz, normIntensity, masses)
      case Err(e) => Err(OutOfRange(e))
      case Ok(intensities) =>
        Ok(seq(n, i requires 0 <= i < n =>
          MatchRow(i, masses[i], peak, scorer(table, i, peak, mz, normIntensity, full, weight).loss, false,
                   intensities[i])))
  }

  /** Rows in non-decreasing order of loss. */
  predicate SortedByLoss(rows: seq<MatchRow>)
  {
    forall i, j :: 0 <= i < j < |rows| ==> rows[i].loss <= rows[j].loss
  }

  /** Every row of `rest`, which holds `row` and the tail of `sorted`, has a loss at least that of `sorted[0]`. */
  lemma LowerBoundAfterInsert(row: MatchRow, sorted: seq<MatchRow>, rest: seq<MatchRow>)
    requires SortedByLoss(sorted) && sorted != [] && sorted[0].loss < row.loss
    requires multiset(rest) == multiset(sorted[1..]) + multiset{row}
    ensures forall j :: 0 <= j < |rest| ==> sorted[0].loss <= rest[j].loss
  {
    forall j | 0 <= j < |rest|
      ensures sorted[0].loss <= rest[j].loss
    {
      assert rest[j] in multiset(rest);
      if rest[j] != row {
        assert rest[j] in sorted[1..];
      }
    }
  }

  /** Puts `row` into a loss-sorted list, before the first row whose loss is not smaller. */
  function InsertByLoss(row: MatchRow, sorted: seq<MatchRow>): (r: seq<MatchRow>)
    requires SortedByLoss(sorted)
    ensures SortedByLoss(r)
    ensures multiset(r) == multiset(sorted) + multiset{row}
  {
    if sorted == [] || row.loss <= sorted[0].loss then [row] + sorted
    else
      var rest := InsertByLoss(row, sorted[1..]);
      LowerBoundAfterInsert(row, sorted, rest);
      assert sorted == [sorted[0]] + sorted[1..];
      [sorted[0]] + rest
  }

  /**
   * `sort_values(by=['Closeness of Fit (Loss)'])`: the same rows, best fit first.
   * The order among equal losses is not fixed by pandas; this one keeps table order.
   */
  function SortByLoss(rows: seq<MatchRow>): (r: seq<MatchRow>)
    ensures SortedByLoss(r)
    ensures multiset(r) == multiset(rows)
  {
    if rows == [] then []
    else
      assert rows == [rows[0]] + rows[1..];
      InsertByLoss(rows[0], SortByLoss(rows[1..]))
  }

  /**
   * What `match_peaks` returns: with `full`, the record's rows sorted by loss;
   * otherwise the record in table order.
   */
  function MatchRecord(columns: Columns, peak: real, mz: seq<real>, normIntensity: seq<real>,
                       full: bool, weight: real, scorer: Scorer): (r: Result<seq<MatchRow>, MatchError>)
    requires IsCurve(mz, normIntensity)
    ensures var record := ScoredRecord(columns, peak, mz, normIntensity, full, weight, scorer);
      && r.Ok? == record.Ok?
      && (r.Err? ==> r == record)
      && (!full ==> r == record)
      && (full && r.Ok? ==> SortedByLoss(r.value) && multiset(r.value) == multiset(record.value))
  {
    var record := ScoredRecord(columns, peak, mz, normIntensity, full, weight, scorer);
    if full && record.Ok? then Ok(SortByLoss(record.value)) else record
  }

  /**
   * `match_peaks` itself: the table gains its three columns (before anything can
   * fail on the spectrum), and the result is the record described above. The body
   * takes the source's steps in its order (columns, scores, intensities, sort), so
   * that the in-place update is seen to happen before the interpolation can fail;
   * the ensures ties those steps to `MatchRecord`.
   */
  method MatchPeaks(peak: real, table: BindingDict, mz: seq<real>, normIntensity: seq<real>,
                    full: bool, weight: real, scorer: Scorer) returns (r: Result<seq<MatchRow>, MatchError>)
    requires IsCurve(mz, normIntensity)
    modifies table
    ensures TheoreticalPeakMass in old(table.columns) ==> WithMatchColumns(old(table.columns), peak) == Ok(table.columns)
    ensures TheoreticalPeakMass !in old(table.columns) ==> table.columns == old(table.columns)
    ensures r == MatchRecord(old(table.columns), peak, mz, normIntensity, full, weight, scorer)
  {
    var nSolns := table.AddMatchColumns(peak);
    if nSolns.Err? {
      return Err(nSolns.error);
    }
    var columns := table.columns;
    var masses := TheoreticalMasses(columns, nSolns.value, peak, mz, normIntensity, full, weight, scorer);
    var intensities := InterpolateAll(mz, normIntensity, masses);
    if intensities.Err? {
      return Err(OutOfRange(intensities.error));
    }
    var record := seq(nSolns.value, i requires 0 <= i < nSolns.value =>
      MatchRow(i, masses[i], peak, scorer(columns, i, peak, mz, normIntensity, full, weight).loss, false,
               intensities.value[i]));
    if full {
      return Ok(SortByLoss(record));
    }
    return Ok(record);
  }
}
