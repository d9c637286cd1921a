/**
 * The CSV written once the whole input has been read: a header row naming
 * the time columns and the watched processes, then one row per snapshot with
 * the clock as plain integers and each total in fixed notation.
 */
module Emitter {
  import opened Wrappers
  import opened Text
  import opened Numbers
  import opened Header
  import opened Aggregator

  const TimeColumns: seq<string> := ["Hour", "Minute", "Second"]

  /** `Hour,Minute,Second` followed by `,name` for each watched process, in order. */
  function HeaderLine(processes: seq<string>): string {
    JoinCsv(TimeColumns + processes)
  }

  function ClockCells(c: Clock): seq<string> {
    [NatToString(c.hour), NatToString(c.minute), NatToString(c.second)]
  }

  function TotalCells(totals: seq<real>, precision: nat): (cells: seq<string>)
    ensures |cells| == |totals|
    ensures forall j :: 0 <= j < |totals| ==> cells[j] == FormatFixed(totals[j], precision)
  {
    seq(|totals|, j requires 0 <= j < |totals| => FormatFixed(totals[j], precision))
  }

  function RowLine(row: Row, precision: nat): string {
    JoinCsv(ClockCells(row.clock) + TotalCells(row.totals, precision))
  }

  /** The whole output, one string per line. */
  function Emit(processes: seq<string>, metric: Metric, rows: seq<Row>): seq<string> {
    [HeaderLine(processes)] + seq(|rows|, i requires 0 <= i < |rows| => RowLine(rows[i], metric.Precision()))
  }

  /** Read back as CSV, the header row gives the time columns and then the process names. */
  lemma HeaderReadsBack(processes: seq<string>)
    requires forall k :: 0 <= k < |processes| ==> ',' !in processes[k]
    ensures Fields(HeaderLine(processes)) == TimeColumns + processes
  {
    var cells := TimeColumns + processes;
    forall k | 0 <= k < |cells|
      ensures ',' !in cells[k]
    {
      if k >= 3 {
        assert cells[k] == processes[k - 3];
      }
    }
    FieldsOfJoinCsv(cells);
  }

  lemma DigitsHaveNoComma(s: string)
    requires AllDigits(s)
    ensures ',' !in s
  {
  }

  lemma NumberHasNoComma(s: string)
    requires forall i :: 0 <= i < |s| ==> NumberChar(s[i])
    ensures ',' !in s
  {
  }

  lemma RowCellsHaveNoComma(row: Row, precision: nat)
    ensures var cells := ClockCells(row.clock) + TotalCells(row.totals, precision);
            forall k :: 0 <= k < |cells| ==> ',' !in cells[k]
  {
    var cells := ClockCells(row.clock) + TotalCells(row.totals, precision);
    forall k | 0 <= k < |cells|
      ensures ',' !in cells[k]
    {
      if k < 3 {
        DigitsHaveNoComma(cells[k]);
      } else {
        FormatFixedShape(row.totals[k - 3], precision);
        NumberHasNoComma(cells[k]);
      }
    }
  }

  /**
   * Read back as CSV, a data row has exactly 3 + |totals| fields: the hour,
   * minute and second in decimal, then each total with exactly `precision`
   * decimals.
   */
  lemma RowReadsBack(row: Row, precision: nat)
    ensures var f := Fields(RowLine(row, precision));
            && |f| == 3 + |row.totals|
            && f[..3] == ClockCells(row.clock)
            && forall j :: 3 <= j < |f| ==> f[j] == FormatFixed(row.totals[j - 3], precision) && HasDecimals(f[j], precision)
  {
    var clock := ClockCells(row.clock);
    var totals := TotalCells(row.totals, precision);
    var cells := clock + totals;
    RowCellsHaveNoComma(row, precision);
    FieldsOfJoinCsv(cells);
    var f := Fields(RowLine(row, precision));
    assert f == cells;
    assert f[..3] == clock;
    forall j | 3 <= j < |f|
      ensures f[j] == FormatFixed(row.totals[j - 3], precision) && HasDecimals(f[j], precision)
    {
      assert f[j] == totals[j - 3];
      FormatFixedShape(row.totals[j - 3], precision);
    }
  }

  /** A data row as it reads back: the three clock cells, then each of `totals` printed with exactly `precision` decimals. */
  predicate ShowsRow(line: string, c: Clock, totals: seq<real>, precision: nat) {
    var f := Fields(line);
    && |f| == 3 + |totals|
    && f[..3] == ClockCells(c)
    && forall j :: 0 <= j < |totals| ==> f[3 + j] == FormatFixed(totals[j], precision) && HasDecimals(f[3 + j], precision)
  }

  lemma RowShows(row: Row, precision: nat)
    ensures ShowsRow(RowLine(row, precision), row.clock, row.totals, precision)
  {
    RowReadsBack(row, precision);
    var f := Fields(RowLine(row, precision));
    forall j | 0 <= j < |row.totals|
      ensures f[3 + j] == FormatFixed(row.totals[j], precision) && HasDecimals(f[3 + j], precision)
    {
      assert 3 <= 3 + j < |f|;
    }
  }

  /**
   * A printed total, read back the way a status line's metric is read, is
   * the total to within half of the last printed digit: within 0.5 for the
   * VIRT column, printed without decimals, and within 0.05 for %CPU.
   */
  lemma TotalReadsBack(v: real, metric: Metric)
    ensures var s := FormatFixed(v, metric.Precision());
            var w := ParseNum(if v < 0.0 then s[1..] else s);
            && w.Some?
            && Abs(w.value - Abs(v)) <= (if metric == Virt then 0.5 else 0.05)
  {
    FormatFixedReadsBack(v, metric.Precision());
    assert DivPow10(0.5, 1) == 0.05;
  }

  /** The header row, built name by name. */
  method WriteHeader(processes: seq<string>) returns (line: string)
    ensures line == HeaderLine(processes)
  {
    line := "Hour,Minute,Second";
    assert TimeColumns + processes[..0] == TimeColumns;
    assert TimeColumns[1..] == ["Minute", "Second"] && TimeColumns[1..][1..] == ["Second"];
    for k := 0 to |processes|
      invariant line == JoinCsv(TimeColumns + processes[..k])
    {
      JoinCsvAppend(TimeColumns + processes[..k], processes[k]);
      assert TimeColumns + processes[..k + 1] == (TimeColumns + processes[..k]) + [processes[k]];
      line := line + "," + processes[k];
    }
    assert processes[..|processes|] == processes;
  }

  lemma ClockLine(c: Clock)
    ensures JoinCsv(ClockCells(c)) == NatToString(c.hour) + "," + NatToString(c.minute) + "," + NatToString(c.second)
  {
    var cells := ClockCells(c);
    assert JoinCsv(cells[1..][1..]) == NatToString(c.second);
  }

  /** Appending one more total to the cells of a row appends its printed form to the line. */
  lemma RowLineGrows(row: Row, precision: nat, j: nat)
    requires j < |row.totals|
    ensures JoinCsv(ClockCells(row.clock) + TotalCells(row.totals[..j + 1], precision))
         == JoinCsv(ClockCells(row.clock) + TotalCells(row.totals[..j], precision)) + "," + FormatFixed(row.totals[j], precision)
  {
    var clock := ClockCells(row.clock);
    var before := clock + TotalCells(row.totals[..j], precision);
    var cell := FormatFixed(row.totals[j], precision);
    assert clock + TotalCells(row.totals[..j + 1], precision) == before + [cell] by {
      TotalCellsGrow(row.totals, precision, j);
    }
    JoinCsvAppend(before, cell);
  }

  lemma TotalCellsGrow(totals: seq<real>, precision: nat, j: nat)
    requires j < |totals|
    ensures TotalCells(totals[..j + 1], precision) == TotalCells(totals[..j], precision) + [FormatFixed(totals[j], precision)]
  {
    var longer := TotalCells(totals[..j + 1], precision);
    var shorter := TotalCells(totals[..j], precision);
    forall k | 0 <= k < j
      ensures longer[k] == shorter[k]
    {
      assert totals[..j + 1][k] == totals[..j][k];
    }
  }

  /** One data row, built total by total. */
  method WriteRow(row: Row, precision: nat) returns (line: string)
    ensures line == RowLine(row, precision)
  {
    line := NatToString(row.clock.hour) + "," + NatToString(row.clock.minute) + "," + NatToString(row.clock.second);
    ClockLine(row.clock);
    assert ClockCells(row.clock) + TotalCells(row.totals[..0], precision) == ClockCells(row.clock);
    for j := 0 to |row.totals|
      invariant line == JoinCsv(ClockCells(row.clock) + TotalCells(row.totals[..j], precision))
    {
      RowLineGrows(row, precision, j);
      line := line + "," + FormatFixed(row.totals[j], precision);
    }
    assert row.totals[..|row.totals|] == row.totals;
  }

  /** Writes the header row and then one row per snapshot, in order. */
  method Print(processes: seq<string>, metric: Metric, rows: seq<Row>) returns (out: seq<string>)
    ensures out == Emit(processes, metric, rows)
  {
    var header := WriteHeader(processes);
    out := [header];
    var precision := metric.Precision();
    for i := 0 to |rows|
      invariant |out| == i + 1 && out[0] == HeaderLine(processes)
      invariant forall k :: 1 <= k <= i ==> out[k] == RowLine(rows[k - 1], precision)
    {
      var line := WriteRow(rows[i], precision);
      out := out + [line];
    }
  }
}
