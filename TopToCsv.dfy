/**
 * `parse_and_print`: reads a `top` dump line by line into snapshot rows, then
 * writes the CSV. Standard input and output are modelled as sequences of
 * lines; the outcome is either an exit code with the lines written, or the
 * exception `std::stof` throws on a metric token with no number in it.
 */
module TopToCsv {
  import opened Wrappers
  import opened Text
  import opened Header
  import opened Tokenizer
  import opened Numbers
  import opened Aggregator
  import opened Emitter

  datatype Outcome =
    | Exited(code: int, output: seq<string>)  // the function returned `code` after writing `output`
    | Threw(token: string)                    // `stof` threw on `token`; nothing was written

  /** The reference semantics of one run over the whole input. */
  function Semantics(processes: seq<string>, metric: Metric, lines: seq<string>): Outcome {
    match Run(processes, metric, [], lines)
    case Ok(rows) => Exited(0, Emit(processes, metric, rows))
    case Err(MalformedLog) => Exited(1, [])
    case Err(InvalidNumber(tok)) => Threw(tok)
  }

  /**
   * The function returns 1, having written nothing, exactly when the first
   * line is not a header; that is the only way it returns 1.
   */
  lemma MalformedExitsOne(processes: seq<string>, metric: Metric, lines: seq<string>)
    ensures Semantics(processes, metric, lines) == Exited(1, []) <==> lines != [] && MatchHeader(lines[0]).None?
    ensures Semantics(processes, metric, lines).Exited? ==>
              Semantics(processes, metric, lines).code == 0 || Semantics(processes, metric, lines).output == []
  {
    MalformedExactly(processes, metric, lines);
  }

  /** With no input at all the output is the header row alone. */
  lemma EmptyInput(processes: seq<string>, metric: Metric)
    ensures Semantics(processes, metric, []) == Exited(0, [HeaderLine(processes)])
  {
  }

  /**
   * On success: the first line is the header row; then comes one line per
   * header line of the input, in input order. Each has the header's hour,
   * minute and second, then for each watched process the sum of what the
   * status lines up to the next header add to it, printed with the metric's
   * number of decimals.
   */
  lemma SuccessOutput(processes: seq<string>, metric: Metric, lines: seq<string>)
    requires Semantics(processes, metric, lines).Exited?
    requires Semantics(processes, metric, lines).code == 0
    ensures var out := Semantics(processes, metric, lines).output;
            var clocks := HeaderClocks(lines);
            && |out| == 1 + |clocks|
            && out[0] == HeaderLine(processes)
            && forall k :: 1 <= k <= |clocks| ==>
                 ShowsRow(out[k], clocks[k - 1], SnapshotTotals(processes, metric, lines, k - 1), metric.Precision())
  {
    var r := Run(processes, metric, [], lines);
    assert r.Ok?;
    var rows := r.value;
    var out := Emit(processes, metric, rows);
    assert Semantics(processes, metric, lines).output == out;
    assert Clocks(rows) == HeaderClocks(lines) by {
      RunClocks(processes, metric, [], lines);
      assert Clocks([]) + HeaderClocks(lines) == HeaderClocks(lines);
    }
    RowTotals(processes, metric, lines);
    forall k | 1 <= k <= |rows|
      ensures ShowsRow(out[k], rows[k - 1].clock, SnapshotTotals(processes, metric, lines, k - 1), metric.Precision())
    {
      RowShows(rows[k - 1], metric.Precision());
    }
  }

  /**
   * The body of the read loop for one line: a header opens a row; any other
   * line fails before the first header, and otherwise may add into the last
   * row. On success the log holds exactly what `Step` computes.
   */
  method ReadLine(log: SnapshotLog, metric: Metric, line: string) returns (failure: Option<ParseError>)
    requires log.Valid()
    modifies log
    ensures log.Valid()
    ensures Step(log.processes, metric, old(log.rows), line).Ok? ==>
              failure == None && log.rows == Step(log.processes, metric, old(log.rows), line).value
    ensures Step(log.processes, metric, old(log.rows), line).Err? ==>
              failure == Some(Step(log.processes, metric, old(log.rows), line).error)
  {
    match MatchHeader(line)
    case Some(c) =>
      log.Open(c);
      return None;
    case None =>
      if log.rows == [] {
        return Some(MalformedLog);
      }
      failure := TallyLine(log, metric, Tokens(line));
  }

  /**
   * A status line once a snapshot is open: field 11 and the metric's column
   * are picked out; a watched name adds the metric's contribution into the
   * last row, and a metric token with no number in it is the failure.
   */
  method TallyLine(log: SnapshotLog, metric: Metric, tokens: seq<string>) returns (failure: Option<ParseError>)
    requires log.Valid() && log.rows != []
    requires forall i :: 0 <= i < |tokens| ==> IsToken(tokens[i])
    modifies log
    ensures log.Valid()
    ensures Tally(log.processes, metric, old(log.rows), tokens).Ok? ==>
              failure == None && log.rows == Tally(log.processes, metric, old(log.rows), tokens).value
    ensures Tally(log.processes, metric, old(log.rows), tokens).Err? ==>
              failure == Some(Tally(log.processes, metric, old(log.rows), tokens).error)
  {
    ghost var rows := log.rows;
    var count, value, name := ScanFields(tokens, metric.Column());
    if count <= NameColumn {
      assert Tally(log.processes, metric, rows, tokens) == Ok(rows);
      return None;
    }
    var found := IndexOf(log.processes, name);
    if found == |log.processes| {
      assert Tally(log.processes, metric, rows, tokens) == Ok(rows);
      return None;
    }
    assert IsToken(value);
    var contribution := Contribution(value);
    if contribution.None? {
      assert Tally(log.processes, metric, rows, tokens) == Err(InvalidNumber(value));
      return Some(InvalidNumber(value));
    }
    var amount := contribution.value;
    assert Tally(log.processes, metric, rows, tokens) == Ok(Credit(rows, found, amount));
    log.Add(found, amount);
    return None;
  }

  /**
   * The parser as the source runs it: one pass over the lines updating the
   * snapshot log in place, then the output loops.
   */
  method ParseAndPrint(processes: seq<string>, metric: Metric, lines: seq<string>) returns (outcome: Outcome)
    ensures outcome == Semantics(processes, metric, lines)
  {
    var log := new SnapshotLog(processes);
    var i := 0;
    while i < |lines|
      invariant 0 <= i <= |lines|
      invariant log.Valid() && log.processes == processes
      invariant Run(processes, metric, [], lines) == Run(processes, metric, log.rows, lines[i..])
    {
      assert lines[i..][0] == lines[i] && lines[i..][1..] == lines[i + 1..];
      var failure := ReadLine(log, metric, lines[i]);
      match failure {
        case Some(MalformedLog) => return Exited(1, []);
        case Some(InvalidNumber(tok)) => return Threw(tok);
        case None =>
      }
      i := i + 1;
    }
    var output := Print(processes, metric, log.rows);
    return Exited(0, output);
  }
}
