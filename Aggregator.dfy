/**
 * The snapshot state machine of `parse_and_print`: header lines open a new
 * row, other lines are status lines that may add to the current (last) row.
 *
 * `Step` and `Run` are the reference semantics over immutable values;
 * `SnapshotLog` is the mutable list of rows the parser updates in place, and
 * `ScanFields` is the token loop that picks out the metric and the name.
 */
module Aggregator {
  import opened Wrappers
  import opened Text
  import opened Header
  import opened Tokenizer
  import opened Numbers

  /** The token index of the process name in a status line. */
  const NameColumn: nat := 11

  /** The metric collected: virtual memory size (column 4) or CPU percentage (column 8). */
  datatype Metric = Virt | Cpu {
    /** The token index of the metric in a status line. */
    function Column(): (k: nat)
      ensures k < NameColumn
    {
      if Virt? then 4 else 8
    }

    /** Decimals printed for a total: none for memory, one for CPU. */
    function Precision(): nat {
      if Virt? then 0 else 1
    }
  }

  /** One snapshot: its clock and one running total per watched process. */
  datatype Row = Row(clock: Clock, totals: seq<real>)

  datatype ParseError =
    | MalformedLog              // a non-header line before the first header
    | InvalidNumber(token: string)  // `stof` found no number in the metric token

  /** Every row holds one total per watched process. */
  predicate Shaped(rows: seq<Row>, width: nat) {
    forall i :: 0 <= i < |rows| ==> |rows[i].totals| == width
  }

  /** A freshly opened snapshot: the header's clock and all totals zero. */
  function NewRow(c: Clock, width: nat): (r: Row)
    ensures r.clock == c && |r.totals| == width
    ensures forall j :: 0 <= j < width ==> r.totals[j] == 0.0
  {
    Row(c, seq(width, _ => 0.0))
  }

  /** The current snapshot: the last row. */
  function Last(rows: seq<Row>): Row
    requires rows != []
  {
    rows[|rows| - 1]
  }

  /** Adds `amount` to cell `index` of the last row. */
  function Credit(rows: seq<Row>, index: nat, amount: real): (r: seq<Row>)
    requires rows != [] && index < |Last(rows).totals|
    ensures |r| == |rows|
    ensures forall i :: 0 <= i < |rows| - 1 ==> r[i] == rows[i]
    ensures Last(r).clock == Last(rows).clock
    ensures |Last(r).totals| == |Last(rows).totals|
    ensures forall j :: 0 <= j < |Last(rows).totals| ==>
              Last(r).totals[j] == Last(rows).totals[j] + (if j == index then amount else 0.0)
  {
    var last := rows[|rows| - 1];
    rows[|rows| - 1 := last.(totals := last.totals[index := last.totals[index] + amount])]
  }

  /**
   * The effect of a status line, split into `toks`, once a snapshot is open:
   * a line naming a watched process in field 11 adds its metric into that
   * process's cell of the last row; any other line changes nothing.
   */
  function Tally(processes: seq<string>, metric: Metric, rows: seq<Row>, toks: seq<string>): (r: Result<seq<Row>, ParseError>)
    requires rows != [] && Shaped(rows, |processes|)
    requires forall i :: 0 <= i < |toks| ==> IsToken(toks[i])
    ensures r.Ok? ==> Shaped(r.value, |processes|) && |r.value| == |rows|
    ensures r.Ok? ==> forall i :: 0 <= i < |rows| ==> r.value[i].clock == rows[i].clock
    ensures r.Err? ==> r.error.InvalidNumber?
  {
    if |toks| <= NameColumn then Ok(rows)
    else
      var index := IndexOf(processes, toks[NameColumn]);
      if index == |processes| then Ok(rows)
      else
        var tok := toks[metric.Column()];
        assert IsToken(tok);
        match Contribution(tok)
        case None => Err(InvalidNumber(tok))
        case Some(amount) => Ok(Credit(rows, index, amount))
  }

  /** The effect of one input line on the rows read so far. */
  function Step(processes: seq<string>, metric: Metric, rows: seq<Row>, line: string): (r: Result<seq<Row>, ParseError>)
    requires Shaped(rows, |processes|)
    ensures r.Ok? ==> Shaped(r.value, |processes|)
    ensures r.Ok? ==> |r.value| == |rows| + (if MatchHeader(line).Some? then 1 else 0)
    ensures r.Ok? ==> forall i :: 0 <= i < |rows| ==> r.value[i].clock == rows[i].clock
    ensures r.Ok? && MatchHeader(line).Some? ==> Last(r.value) == NewRow(MatchHeader(line).value, |processes|)
    ensures r == Err(MalformedLog) <==> rows == [] && MatchHeader(line).None?
  {
    match MatchHeader(line)
    case Some(c) => Ok(rows + [NewRow(c, |processes|)])
    case None =>
      if rows == [] then Err(MalformedLog) else Tally(processes, metric, rows, Tokens(line))
  }

  /** The effect of a whole sequence of lines, stopping at the first error. */
  function Run(processes: seq<string>, metric: Metric, rows: seq<Row>, lines: seq<string>): (r: Result<seq<Row>, ParseError>)
    requires Shaped(rows, |processes|)
    ensures r.Ok? ==> Shaped(r.value, |processes|) && |rows| <= |r.value|
    decreases |lines|
  {
    if lines == [] then Ok(rows)
    else
      match Step(processes, metric, rows, lines[0])
      case Err(e) => Err(e)
      case Ok(next) => Run(processes, metric, next, lines[1..])
  }

  /** The clocks of the rows, in order. */
  function Clocks(rows: seq<Row>): (cs: seq<Clock>)
    ensures |cs| == |rows| && forall i :: 0 <= i < |rows| ==> cs[i] == rows[i].clock
  {
    seq(|rows|, i requires 0 <= i < |rows| => rows[i].clock)
  }

  /** The clocks of the header lines, in input order. */
  function HeaderClocks(lines: seq<string>): seq<Clock> {
    if lines == [] then []
    else
      (match MatchHeader(lines[0]) case Some(c) => [c] case None => []) + HeaderClocks(lines[1..])
  }

  /** A line starting with the header text of clock `c` opens a new row with that clock and zero totals. */
  lemma HeaderOpensRow(processes: seq<string>, metric: Metric, rows: seq<Row>, line: string, c: Clock)
    requires Shaped(rows, |processes|)
    requires Expressible(c) && HeaderText(c) <= line
    ensures Step(processes, metric, rows, line) == Ok(rows + [NewRow(c, |processes|)])
  {
    MatchHeaderExactly(line, c);
  }

  /** Conversely, a line that opens a row starts with the header text of the new row's clock. */
  lemma OnlyHeadersOpenRows(processes: seq<string>, metric: Metric, rows: seq<Row>, line: string)
    requires Shaped(rows, |processes|)
    requires Step(processes, metric, rows, line).Ok?
    requires |Step(processes, metric, rows, line).value| > |rows|
    ensures var c := Last(Step(processes, metric, rows, line).value).clock;
            Expressible(c) && HeaderText(c) <= line
  {
    MatchHeaderExactly(line, MatchHeader(line).value);
  }

  /** A status line with at most 11 tokens, or whose name is not watched, changes no row and no total. */
  lemma IgnoredStatusLine(processes: seq<string>, metric: Metric, rows: seq<Row>, line: string)
    requires Shaped(rows, |processes|) && rows != [] && MatchHeader(line).None?
    requires |Tokens(line)| <= NameColumn || Tokens(line)[NameColumn] !in processes
    ensures Step(processes, metric, rows, line) == Ok(rows)
  {
  }

  /**
   * A status line naming a watched process adds the contribution of its
   * metric token (its value, times 1024 when it ends in `m`) into the cell of the
   * process's first occurrence in the watch-list, in the last row; every
   * other cell and every earlier row is unchanged.
   */
  lemma WatchedStatusLine(processes: seq<string>, metric: Metric, rows: seq<Row>, line: string)
    requires Shaped(rows, |processes|) && rows != [] && MatchHeader(line).None?
    requires |Tokens(line)| > NameColumn && Tokens(line)[NameColumn] in processes
    requires ParseNum(Tokens(line)[metric.Column()]).Some?
    ensures var tok := Tokens(line)[metric.Column()];
            var r := Step(processes, metric, rows, line);
            && r.Ok? && |r.value| == |rows|
            && (forall i :: 0 <= i < |rows| - 1 ==> r.value[i] == rows[i])
            && Last(r.value).clock == Last(rows).clock
            && forall j :: 0 <= j < |processes| ==>
                 Last(r.value).totals[j] == Last(rows).totals[j] +
                   (if j == IndexOf(processes, Tokens(line)[NameColumn])
                    then Contribution(tok).value else 0.0)
  {
    var toks := Tokens(line);
    var tok := toks[metric.Column()];
    var index := IndexOf(processes, toks[NameColumn]);
    var amount := Contribution(tok).value;
    assert |Last(rows).totals| == |processes|;
    assert Step(processes, metric, rows, line) == Ok(Credit(rows, index, amount));
  }

  /** When the metric token of a watched status line is not a number, parsing aborts with that token. */
  lemma UnparsableMetric(processes: seq<string>, metric: Metric, rows: seq<Row>, line: string)
    requires Shaped(rows, |processes|) && rows != [] && MatchHeader(line).None?
    requires |Tokens(line)| > NameColumn && Tokens(line)[NameColumn] in processes
    requires ParseNum(Tokens(line)[metric.Column()]).None?
    ensures Step(processes, metric, rows, line) == Err(InvalidNumber(Tokens(line)[metric.Column()]))
  {
  }

  /** Totals add up: the same watched status line read twice in one snapshot contributes twice. */
  lemma StatusLineTwice(processes: seq<string>, metric: Metric, rows: seq<Row>, line: string)
    requires Shaped(rows, |processes|) && rows != [] && MatchHeader(line).None?
    requires |Tokens(line)| > NameColumn && Tokens(line)[NameColumn] in processes
    requires ParseNum(Tokens(line)[metric.Column()]).Some?
    ensures var amount := Contribution(Tokens(line)[metric.Column()]).value;
            var index := IndexOf(processes, Tokens(line)[NameColumn]);
            var r := Run(processes, metric, rows, [line, line]);
            && r.Ok? && |r.value| == |rows|
            && Last(r.value).totals[index] == Last(rows).totals[index] + 2.0 * amount
  {
    WatchedStatusLine(processes, metric, rows, line);
    var once := Step(processes, metric, rows, line).value;
    WatchedStatusLine(processes, metric, once, line);
    var twice := Step(processes, metric, once, line).value;
    assert [line, line][1..] == [line];
    assert Run(processes, metric, rows, [line, line]) == Run(processes, metric, once, [line]);
    assert Run(processes, metric, once, [line]) == Ok(twice);
  }

  /** A header followed directly by another header leaves a row whose totals are all zero. */
  lemma ConsecutiveHeaders(processes: seq<string>, metric: Metric, rows: seq<Row>, first: string, second: string)
    requires Shaped(rows, |processes|)
    requires MatchHeader(first).Some? && MatchHeader(second).Some?
    ensures var r := Run(processes, metric, rows, [first, second]);
            && r.Ok? && |r.value| == |rows| + 2
            && r.value[|rows|].clock == MatchHeader(first).value
            && forall j :: 0 <= j < |processes| ==> r.value[|rows|].totals[j] == 0.0
  {
    var once := Step(processes, metric, rows, first).value;
    assert [first, second][1..] == [second];
    assert Run(processes, metric, rows, [first, second]) == Run(processes, metric, once, [second]);
    assert Run(processes, metric, once, [second]) == Step(processes, metric, once, second);
  }

  /** Once a snapshot is open, the log can no longer be malformed. */
  lemma {:induction false} OpenLogNeverMalformed(processes: seq<string>, metric: Metric, rows: seq<Row>, lines: seq<string>)
    requires Shaped(rows, |processes|) && rows != []
    ensures Run(processes, metric, rows, lines) != Err(MalformedLog)
    decreases |lines|
  {
    if lines != [] {
      match Step(processes, metric, rows, lines[0])
      case Err(e) =>
      case Ok(next) => OpenLogNeverMalformed(processes, metric, next, lines[1..]);
    }
  }

  /** Parsing fails as malformed exactly when the first line is not a header. */
  lemma MalformedExactly(processes: seq<string>, metric: Metric, lines: seq<string>)
    ensures Run(processes, metric, [], lines) == Err(MalformedLog) <==> lines != [] && MatchHeader(lines[0]).None?
  {
    if lines != [] && MatchHeader(lines[0]).Some? {
      OpenLogNeverMalformed(processes, metric, Step(processes, metric, [], lines[0]).value, lines[1..]);
    }
  }

  /** One row per header line, in input order, each with that header's clock. */
  lemma {:induction false} RunClocks(processes: seq<string>, metric: Metric, rows: seq<Row>, lines: seq<string>)
    requires Shaped(rows, |processes|)
    ensures Run(processes, metric, rows, lines).Ok? ==>
              Clocks(Run(processes, metric, rows, lines).value) == Clocks(rows) + HeaderClocks(lines)
    decreases |lines|
  {
    if lines == [] {
      assert Clocks(rows) + [] == Clocks(rows);
    } else {
      var step := Step(processes, metric, rows, lines[0]);
      if step.Ok? {
        var next := step.value;
        var own := match MatchHeader(lines[0]) case Some(c) => [c] case None => [];
        assert Clocks(next) == Clocks(rows) + own;
        assert HeaderClocks(lines) == own + HeaderClocks(lines[1..]);
        RunClocks(processes, metric, next, lines[1..]);
      }
    }
  }

  /**
   * What one status line adds to the total of process `j`, read straight
   * off the line: the contribution of its metric token when its token 11
   * first matches `processes[j]` in the watch-list, and nothing otherwise.
   */
  function LineAmount(processes: seq<string>, metric: Metric, line: string, j: nat): real {
    var toks := Tokens(line);
    if |toks| <= NameColumn || IndexOf(processes, toks[NameColumn]) != j then 0.0
    else
      var tok := toks[metric.Column()];
      assert IsToken(tok);
      match Contribution(tok)
      case Some(amount) => amount
      case None => 0.0
  }

  /** The sum of what the status lines before the next header line add to process `j`. */
  function SegmentSum(processes: seq<string>, metric: Metric, lines: seq<string>, j: nat): real
    decreases |lines|
  {
    if lines == [] || MatchHeader(lines[0]).Some? then 0.0
    else LineAmount(processes, metric, lines[0], j) + SegmentSum(processes, metric, lines[1..], j)
  }

  /** The lines after the `k`-th header line, counting from 0; empty when there are fewer headers. */
  function AfterHeader(lines: seq<string>, k: nat): seq<string>
    decreases |lines|
  {
    if lines == [] then []
    else if MatchHeader(lines[0]).Some? then (if k == 0 then lines[1..] else AfterHeader(lines[1..], k - 1))
    else AfterHeader(lines[1..], k)
  }

  /**
   * The totals of the `k`-th snapshot, summed straight from the input: for
   * each watched process, what the status lines between the `k`-th header
   * line and the next one add to it.
   */
  function SnapshotTotals(processes: seq<string>, metric: Metric, lines: seq<string>, k: nat): (t: seq<real>)
    ensures |t| == |processes|
  {
    seq(|processes|, j requires 0 <= j < |processes| => SegmentSum(processes, metric, AfterHeader(lines, k), j))
  }

  /** A status line read successfully adds `LineAmount` to each total of the last row and keeps every other row. */
  lemma StatusLineAdds(processes: seq<string>, metric: Metric, rows: seq<Row>, line: string)
    requires Shaped(rows, |processes|) && MatchHeader(line).None?
    requires Step(processes, metric, rows, line).Ok?
    ensures rows != []
    ensures var next := Step(processes, metric, rows, line).value;
            && |next| == |rows|
            && (forall i :: 0 <= i < |rows| - 1 ==> next[i] == rows[i])
            && forall j :: 0 <= j < |processes| ==>
                 Last(next).totals[j] == Last(rows).totals[j] + LineAmount(processes, metric, line, j)
  {
    var toks := Tokens(line);
    var next := Step(processes, metric, rows, line).value;
    if |toks| > NameColumn {
      var index := IndexOf(processes, toks[NameColumn]);
      if index < |processes| {
        var tok := toks[metric.Column()];
        assert IsToken(tok);
        var amount := Contribution(tok).value;
        assert |Last(rows).totals| == |processes|;
        assert next == Credit(rows, index, amount);
        forall j | 0 <= j < |processes|
          ensures Last(next).totals[j] == Last(rows).totals[j] + LineAmount(processes, metric, line, j)
        {
          assert LineAmount(processes, metric, line, j) == if j == index then amount else 0.0;
        }
      }
    }
  }

  /**
   * Reading `lines` on top of `rows` keeps every row but the last, adds the
   * status lines before the first header into the last row, and fills each
   * new row with the sums of the status lines after its header.
   */
  lemma {:induction false} RunTotals(processes: seq<string>, metric: Metric, rows: seq<Row>, lines: seq<string>)
    requires Shaped(rows, |processes|)
    requires Run(processes, metric, rows, lines).Ok?
    ensures var final := Run(processes, metric, rows, lines).value;
            && (forall i :: 0 <= i < |rows| - 1 ==> final[i] == rows[i])
            && (rows != [] ==> forall j :: 0 <= j < |processes| ==>
                  final[|rows| - 1].totals[j] == rows[|rows| - 1].totals[j] + SegmentSum(processes, metric, lines, j))
            && forall i, j :: |rows| <= i < |final| && 0 <= j < |processes| ==>
                 final[i].totals[j] == SegmentSum(processes, metric, AfterHeader(lines, i - |rows|), j)
    decreases |lines|
  {
    if lines != [] {
      var line := lines[0];
      var rest := lines[1..];
      var next := Step(processes, metric, rows, line).value;
      assert Run(processes, metric, rows, lines) == Run(processes, metric, next, rest);
      RunTotals(processes, metric, next, rest);
      var final := Run(processes, metric, next, rest).value;
      if MatchHeader(line).Some? {
        assert next == rows + [NewRow(MatchHeader(line).value, |processes|)];
        forall i, j | |rows| <= i < |final| && 0 <= j < |processes|
          ensures final[i].totals[j] == SegmentSum(processes, metric, AfterHeader(lines, i - |rows|), j)
        {
          if i == |rows| {
            assert AfterHeader(lines, 0) == rest;
          } else {
            assert AfterHeader(lines, i - |rows|) == AfterHeader(rest, i - |next|);
          }
        }
      } else {
        StatusLineAdds(processes, metric, rows, line);
        forall i, j | |rows| <= i < |final| && 0 <= j < |processes|
          ensures final[i].totals[j] == SegmentSum(processes, metric, AfterHeader(lines, i - |rows|), j)
        {
          assert AfterHeader(lines, i - |rows|) == AfterHeader(rest, i - |next|);
        }
      }
    }
  }

  /** Each row of a successful parse holds exactly the totals summed straight from the input for its snapshot. */
  lemma RowTotals(processes: seq<string>, metric: Metric, lines: seq<string>)
    requires Run(processes, metric, [], lines).Ok?
    ensures var rows := Run(processes, metric, [], lines).value;
            forall k :: 0 <= k < |rows| ==> rows[k].totals == SnapshotTotals(processes, metric, lines, k)
  {
    var rows := Run(processes, metric, [], lines).value;
    RunTotals(processes, metric, [], lines);
    forall k | 0 <= k < |rows|
      ensures rows[k].totals == SnapshotTotals(processes, metric, lines, k)
    {
      assert |rows[k].totals| == |processes|;
    }
  }

  /**
   * The token loop: walks the tokens once, counting them and keeping the one
   * at `column` and the one at `NameColumn` (empty when the line is shorter).
   */
  method ScanFields(tokens: seq<string>, column: nat) returns (count: nat, value: string, name: string)
    ensures count == |tokens|
    ensures value == (if column < |tokens| then tokens[column] else "")
    ensures name == (if NameColumn < |tokens| then tokens[NameColumn] else "")
  {
    count, value, name := 0, "", "";
    while count < |tokens|
      invariant count <= |tokens|
      invariant value == (if column < count then tokens[column] else "")
      invariant name == (if NameColumn < count then tokens[NameColumn] else "")
    {
      if count == column { value := tokens[count]; }
      if count == NameColumn { name := tokens[count]; }
      count := count + 1;
    }
  }

  /**
   * The rows of one parse, updated in place: a header appends a zeroed row,
   * a matching status line adds into one cell of the last row.
   */
  class SnapshotLog {
    const processes: seq<string>
    var rows: seq<Row>

    ghost predicate Valid()
      reads this
    {
      Shaped(rows, |processes|)
    }

    constructor (processes: seq<string>)
      ensures Valid() && this.processes == processes && rows == []
    {
      this.processes := processes;
      rows := [];
    }

    /** Appends a new snapshot at clock `c`, all of its totals zero. */
    method Open(c: Clock)
      requires Valid()
      modifies this
      ensures Valid()
      ensures rows == old(rows) + [NewRow(c, |processes|)]
    {
      rows := rows + [NewRow(c, |processes|)];
    }

    /** Adds `amount` to cell `index` of the last row, in place. */
    method Add(index: nat, amount: real)
      requires Valid() && rows != [] && index < |processes|
      modifies this
      ensures Valid()
      ensures rows == Credit(old(rows), index, amount)
    {
      var last := rows[|rows| - 1];
      rows := rows[|rows| - 1 := last.(totals := last.totals[index := last.totals[index] + amount])];
    }
  }
}
