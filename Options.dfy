/**
 * The two inputs `main` prepares for the parser: the metric chosen by
 * exactly one of `--cpu` and `--mem`, and the watch-list made of a preset's
 * names followed by the explicitly named processes not already in it.
 */
module Options {
  import opened Wrappers
  import opened Text
  import opened Aggregator

  datatype UsageError =
    | MetricChoice  // not exactly one of --cpu and --mem
    | NoProcesses   // neither a preset nor any process name

  /** `--cpu` selects the %CPU column and `--mem` the VIRT column; exactly one must be given. */
  function SelectMetric(cpu: bool, mem: bool): (r: Result<Metric, UsageError>)
    ensures r.Ok? <==> cpu != mem
    ensures r == Ok(Cpu) <==> cpu && !mem
    ensures r == Ok(Virt) <==> mem && !cpu
  {
    if (if cpu then 1 else 0) + (if mem then 1 else 0) != 1 then Err(MetricChoice)
    else if cpu then Ok(Cpu)
    else Ok(Virt)
  }

  predicate NoDuplicates(s: seq<string>) {
    forall i, j :: 0 <= i < j < |s| ==> s[i] != s[j]
  }

  /**
   * `processes` is `preset` followed by the names among the first `k` named
   * ones that are not in `preset`, each once, in the order first named.
   */
  ghost predicate Merged(preset: seq<string>, named: seq<string>, k: nat, processes: seq<string>)
    requires k <= |named|
  {
    && |processes| >= |preset| && processes[..|preset|] == preset
    && (forall x :: x in processes <==> x in preset || x in named[..k])
    && (forall a :: |preset| <= a < |processes| ==> processes[a] !in preset)
    && (forall a :: |preset| <= a < |processes| ==> IndexOf(named, processes[a]) < k)
    && (forall a, b :: |preset| <= a < b < |processes| ==> IndexOf(named, processes[a]) < IndexOf(named, processes[b]))
    && (NoDuplicates(preset) ==> NoDuplicates(processes))
  }

  /** One more named process: appended when it is not in the list yet. */
  lemma MergeStep(preset: seq<string>, named: seq<string>, k: nat, processes: seq<string>)
    requires k < |named| && Merged(preset, named, k, processes)
    ensures named[k] in processes ==> Merged(preset, named, k + 1, processes)
    ensures named[k] !in processes ==> Merged(preset, named, k + 1, processes + [named[k]])
  {
    var p := named[k];
    assert named[..k + 1] == named[..k] + [p];
    if p !in processes {
      assert p !in named[..k];
      assert IndexOf(named, p) == k;
      var next := processes + [p];
      assert next[..|preset|] == preset;
    }
  }

  /**
   * Appends each named process not yet in the list, in the order first
   * named. The preset keeps its order, every name ends up in the list once,
   * and nothing else is added.
   */
  method AddNamed(preset: seq<string>, named: seq<string>) returns (processes: seq<string>)
    ensures |processes| >= |preset| && processes[..|preset|] == preset
    ensures forall x :: x in processes <==> x in preset || x in named
    ensures forall a :: |preset| <= a < |processes| ==> processes[a] !in preset
    ensures forall a, b :: |preset| <= a < b < |processes| ==> IndexOf(named, processes[a]) < IndexOf(named, processes[b])
    ensures NoDuplicates(preset) ==> NoDuplicates(processes)
  {
    processes := preset;
    for k := 0 to |named|
      invariant Merged(preset, named, k, processes)
    {
      MergeStep(preset, named, k, processes);
      if IndexOf(processes, named[k]) == |processes| {
        processes := processes + [named[k]];
      }
    }
    assert named[..|named|] == named;
  }

  /**
   * The watch-list handed to the parser, which fixes the CSV column order:
   * with process names given, the preset extended by the new ones in the
   * order first named; without, the preset alone, which must not be empty.
   */
  method WatchList(preset: seq<string>, named: Option<seq<string>>) returns (r: Result<seq<string>, UsageError>)
    ensures named.None? ==> r == (if preset == [] then Err(NoProcesses) else Ok(preset))
    ensures named.Some? ==> r.Ok? && |r.value| >= |preset| && r.value[..|preset|] == preset
    ensures named.Some? ==> forall x :: x in r.value <==> x in preset || x in named.value
    ensures named.Some? ==> forall a :: |preset| <= a < |r.value| ==> r.value[a] !in preset
    ensures named.Some? ==> forall a, b :: |preset| <= a < b < |r.value| ==>
              IndexOf(named.value, r.value[a]) < IndexOf(named.value, r.value[b])
    ensures named.Some? && NoDuplicates(preset) ==> NoDuplicates(r.value)
  {
    if named.Some? {
      var processes := AddNamed(preset, named.value);
      return Ok(processes);
    } else if preset == [] {
      return Err(NoProcesses);
    }
    return Ok(preset);
  }
}
