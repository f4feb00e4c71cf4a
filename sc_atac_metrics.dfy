/**
 * `DragenScAtacMetrics.add_sc_atac_metrics`: read every discovered file, keep one metrics
 * map per sample name (a later file with the same name replaces the earlier one whole),
 * drop ignored samples, and hand the rest to the general-statistics table and to the
 * module's own table, whose cells are the catalogue metrics converted with `int()`.
 */
module ScAtacMetrics {
  import opened Results
  import opened PyStr
  import opened Values
  import opened Catalogue
  import opened SampleNames
  import opened Parser

  /** What the method hands on: nothing when no sample survives, otherwise the data and tables. */
  datatype Report =
    | NoSamples
    | Reported(samples: set<string>, genStats: map<string, SampleMetrics>, table: map<string, map<string, int>>)
  {
    /** The method's return value: `set()` or `data_by_sample.keys()`. */
    function Samples(): set<string>
    {
      if NoSamples? then {} else samples
    }
  }

  /** Results in order, or the first error among them: a raising file ends the loop at line 36. */
  function Collect<T>(rs: seq<Result<T>>): Result<seq<T>>
  {
    if rs == [] then Ok([])
    else
      match Collect(rs[..|rs| - 1])
      case Err(e) => Err(e)
      case Ok(vs) =>
        match rs[|rs| - 1]
        case Err(e) => Err(e)
        case Ok(v) => Ok(vs + [v])
  }

  /** Line 36 on each discovered file, given by name and text. */
  function FileResults(inputs: seq<(string, string)>): (r: seq<Result<(string, SampleMetrics)>>)
    ensures |r| == |inputs|
  {
    if inputs == [] then []
    else
      var last := inputs[|inputs| - 1];
      FileResults(inputs[..|inputs| - 1]) + [ParseFile(last.0, last.1)]
  }

  /** One result per file, in the files' order. */
  lemma {:induction false} FileResultsAt(inputs: seq<(string, string)>)
    ensures forall i :: 0 <= i < |inputs| ==>
      FileResults(inputs)[i] == ParseFile(inputs[i].0, inputs[i].1)
  {
    if inputs != [] {
      FileResultsAt(inputs[..|inputs| - 1]);
    }
  }

  /** A file read the way the method reads it yields the result recorded for that file. */
  lemma FileResultOfRead(inputs: seq<(string, string)>, i: nat, r: Result<SampleMetrics>, name: string)
    requires i < |inputs|
    requires SampleName(inputs[i].0).None? ==> r == Err(NoSampleName(inputs[i].0))
    requires SampleName(inputs[i].0).Some? ==>
      name == SampleName(inputs[i].0).value && r == ParseLines(SplitLines(inputs[i].1))
    ensures FileResults(inputs)[i] == (if r.Ok? then Ok((name, r.value)) else Err(r.error))
  {
    FileResultsAt(inputs);
    ParseFileOfRead(inputs[i].0, inputs[i].1, r, name);
  }

  /** Lines 37-40: one entry per sample name, a later file replacing an earlier one. */
  function MergeSamples(parsed: seq<(string, SampleMetrics)>): map<string, SampleMetrics>
  {
    if parsed == [] then map[]
    else
      var last := parsed[|parsed| - 1];
      MergeSamples(parsed[..|parsed| - 1])[last.0 := last.1]
  }

  /** One more file stores its data under its sample name, over what was stored before. */
  lemma MergeSnoc(parsed: seq<(string, SampleMetrics)>, name: string, data: SampleMetrics)
    ensures MergeSamples(parsed + [(name, data)]) == MergeSamples(parsed)[name := data]
  {
    assert (parsed + [(name, data)])[..|parsed|] == parsed;
  }

  /** Line 43: `ignore_samples`, with the ignore rule given as a predicate on sample names. */
  function Filter(data: map<string, SampleMetrics>, ignored: string -> bool): (r: map<string, SampleMetrics>)
    ensures r.Keys <= data.Keys
    ensures forall s :: s in data ==> (s in r <==> !ignored(s))
    ensures forall s :: s in r ==> r[s] == data[s]
  {
    map s | s in data && !ignored(s) :: data[s]
  }

  /** A metric the table shows: one of `METRIC_NAMES`. */
  predicate InCatalogue(m: string)
  {
    m in MetricNames
  }

  /** Every catalogue metric of every sample holds a number. */
  predicate AllNumeric(data: map<string, SampleMetrics>)
  {
    forall s, m :: s in data && m in data[s] && InCatalogue(m) ==> data[s][m].Num?
  }

  /**
   * Lines 58-63: every sample, with only its catalogue metrics, each converted by `int()`;
   * a catalogue metric kept as text makes the conversion raise.
   */
  function TableData(data: map<string, SampleMetrics>): (r: Result<map<string, map<string, int>>>)
    ensures r.Ok? <==> AllNumeric(data)
    ensures r.Err? ==> r.error == NonNumericStat
    ensures r.Ok? ==> r.value.Keys == data.Keys
    ensures r.Ok? ==> forall s :: s in data ==>
      (forall m :: m in r.value[s] <==> m in data[s] && InCatalogue(m))
    ensures r.Ok? ==> forall s, m :: s in r.value && m in r.value[s] ==> ToInt(data[s][m]) == Ok(r.value[s][m])
  {
    if !AllNumeric(data) then Err(NonNumericStat)
    else
      Ok(map s | s in data :: map m | m in data[s] && InCatalogue(m) :: Trunc(data[s][m].x))
  }

  /** Lines 33-40: every file read in turn and stored under its sample name. */
  function ReadAll(inputs: seq<(string, string)>): Result<map<string, SampleMetrics>>
  {
    match Collect(FileResults(inputs))
    case Err(e) => Err(e)
    case Ok(parsed) => Ok(MergeSamples(parsed))
  }

  /** The whole of `add_sc_atac_metrics` on the discovered files' names and texts. */
  function AddSpec(inputs: seq<(string, string)>, ignored: string -> bool): Result<Report>
  {
    match ReadAll(inputs)
    case Err(e) => Err(e)
    case Ok(data) =>
      var kept := Filter(data, ignored);
      if kept == map[] then Ok(NoSamples)
      else
        match TableData(kept)
        case Err(e) => Err(e)
        case Ok(table) => Ok(Reported(kept.Keys, kept, table))
  }

  /** The names and texts of the discovered files. */
  function Inputs(files: seq<LogFile>): (r: seq<(string, string)>)
    ensures |r| == |files|
    ensures forall i :: 0 <= i < |files| ==> r[i] == (files[i].fn, files[i].contents)
  {
    seq(|files|, i requires 0 <= i < |files| => (files[i].fn, files[i].contents))
  }

  /** Once a prefix of the results holds an error, that error is the outcome. */
  lemma {:induction false} CollectErrPersists<T>(rs: seq<Result<T>>, j: nat)
    requires j <= |rs|
    requires Collect(rs[..j]).Err?
    ensures Collect(rs) == Collect(rs[..j])
    decreases |rs| - j
  {
    if j < |rs| {
      var n := |rs|;
      assert rs[..n - 1][..j] == rs[..j];
      CollectErrPersists(rs[..n - 1], j);
    } else {
      assert rs[..j] == rs;
    }
  }

  /** One more result: appended to the results so far, or the error that ends the loop. */
  lemma CollectStep<T>(rs: seq<Result<T>>, i: nat, vs: seq<T>)
    requires i < |rs| && Collect(rs[..i]) == Ok(vs)
    ensures rs[i].Ok? ==> Collect(rs[..i + 1]) == Ok(vs + [rs[i].value])
    ensures rs[i].Err? ==> Collect(rs) == Err(rs[i].error)
  {
    assert rs[..i + 1][..i] == rs[..i];
    if rs[i].Err? {
      CollectErrPersists(rs, i + 1);
    }
  }

  /** Collecting succeeds exactly when every result does, and then keeps them all in order. */
  lemma {:induction false} CollectOk<T>(rs: seq<Result<T>>)
    ensures Collect(rs).Ok? <==> forall i :: 0 <= i < |rs| ==> rs[i].Ok?
    ensures Collect(rs).Ok? ==>
      && |Collect(rs).value| == |rs|
      && forall i :: 0 <= i < |rs| ==> rs[i] == Ok(Collect(rs).value[i])
  {
    if rs != [] {
      var n := |rs|;
      CollectOk(rs[..n - 1]);
      assert forall i :: 0 <= i < n - 1 ==> rs[..n - 1][i] == rs[i];
    }
  }

  /** Collecting fails with the error of the first failing result. */
  lemma {:induction false} CollectFirstError<T>(rs: seq<Result<T>>, j: nat)
    requires j < |rs| && rs[j].Err?
    requires forall i :: 0 <= i < j ==> rs[i].Ok?
    ensures Collect(rs) == Err(rs[j].error)
  {
    CollectOk(rs[..j]);
    assert forall i :: 0 <= i < j ==> rs[..j][i] == rs[i];
    assert rs[..j + 1][..j] == rs[..j];
    CollectErrPersists(rs, j + 1);
  }

  /** The sample names after merging are exactly the names of the files. */
  lemma {:induction false} MergeKeys(parsed: seq<(string, SampleMetrics)>)
    ensures MergeSamples(parsed).Keys == set i | 0 <= i < |parsed| :: parsed[i].0
  {
    if parsed != [] {
      var n := |parsed|;
      var init := parsed[..n - 1];
      MergeKeys(init);
      forall s | s in MergeSamples(parsed) ensures s in set i | 0 <= i < n :: parsed[i].0 {
        if s != parsed[n - 1].0 {
          var i :| 0 <= i < n - 1 && init[i].0 == s;
          assert parsed[i].0 == s;
        }
      }
      forall i | 0 <= i < n ensures parsed[i].0 in MergeSamples(parsed) {
        if i < n - 1 {
          assert init[i].0 == parsed[i].0;
        }
      }
    }
  }

  /**
   * A sample name maps to the whole metrics of the last file with that name: the earlier
   * files' metrics are discarded, with no per-metric merge.
   */
  lemma {:induction false} MergeLastWins(parsed: seq<(string, SampleMetrics)>, j: nat)
    requires j < |parsed|
    requires forall i :: j < i < |parsed| ==> parsed[i].0 != parsed[j].0
    ensures parsed[j].0 in MergeSamples(parsed)
    ensures MergeSamples(parsed)[parsed[j].0] == parsed[j].1
  {
    var n := |parsed|;
    if j < n - 1 {
      var init := parsed[..n - 1];
      assert init[j] == parsed[j];
      assert forall i :: j < i < n - 1 ==> init[i] == parsed[i];
      MergeLastWins(init, j);
    }
  }

  /** Two files of the same sample: the second one's metrics replace the first one's. */
  lemma MergeDuplicate(name: string, first: SampleMetrics, second: SampleMetrics)
    ensures MergeSamples([(name, first), (name, second)]) == map[name := second]
  {
    assert [(name, first), (name, second)][..1] == [(name, first)];
    assert [(name, first)][..0] == [];
    assert MergeSamples([(name, first)]) == map[name := first];
  }

  /** No discovered files: nothing to report, and no error. */
  lemma AddSpecNoFiles(ignored: string -> bool)
    ensures AddSpec([], ignored) == Ok(NoSamples)
  {
  }

  /** Every file that was read carries the sample name its file name yields. */
  lemma ParsedNames(inputs: seq<(string, string)>)
    requires Collect(FileResults(inputs)).Ok?
    ensures |Collect(FileResults(inputs)).value| == |inputs|
    ensures forall i :: 0 <= i < |inputs| ==>
      SampleName(inputs[i].0) == Some(Collect(FileResults(inputs)).value[i].0)
  {
    var rs := FileResults(inputs);
    FileResultsAt(inputs);
    CollectOk(rs);
    forall i | 0 <= i < |inputs| ensures SampleName(inputs[i].0) == Some(Collect(rs).value[i].0) {
      assert rs[i] == ParseFile(inputs[i].0, inputs[i].1);
    }
  }

  /** The samples kept are the names of the files whose sample is not ignored. */
  lemma KeptKeys(parsed: seq<(string, SampleMetrics)>, ignored: string -> bool)
    ensures Filter(MergeSamples(parsed), ignored).Keys
      == set i | 0 <= i < |parsed| && !ignored(parsed[i].0) :: parsed[i].0
  {
    MergeKeys(parsed);
    var kept := Filter(MergeSamples(parsed), ignored);
    var expected := set i | 0 <= i < |parsed| && !ignored(parsed[i].0) :: parsed[i].0;
    forall s | s in kept ensures s in expected {
      var i :| 0 <= i < |parsed| && parsed[i].0 == s;
    }
    forall s | s in expected ensures s in kept {
      var i :| 0 <= i < |parsed| && !ignored(parsed[i].0) && parsed[i].0 == s;
    }
  }

  /** The kept sample names, read off the parsed files or off the file names alike. */
  lemma NamesAgree(inputs: seq<(string, string)>, parsed: seq<(string, SampleMetrics)>, ignored: string -> bool)
    requires |parsed| == |inputs|
    requires forall i :: 0 <= i < |inputs| ==> SampleName(inputs[i].0) == Some(parsed[i].0)
    ensures (set i | 0 <= i < |parsed| && !ignored(parsed[i].0) :: parsed[i].0)
      == set i | 0 <= i < |inputs| && !ignored(SampleName(inputs[i].0).value) :: SampleName(inputs[i].0).value
  {
    var fromParsed := set i | 0 <= i < |parsed| && !ignored(parsed[i].0) :: parsed[i].0;
    var expected := set i | 0 <= i < |inputs| && !ignored(SampleName(inputs[i].0).value) :: SampleName(inputs[i].0).value;
    forall s | s in fromParsed ensures s in expected {
      var i :| 0 <= i < |parsed| && !ignored(parsed[i].0) && parsed[i].0 == s;
      assert SampleName(inputs[i].0).value == s;
    }
    forall s | s in expected ensures s in fromParsed {
      var i :| 0 <= i < |inputs| && !ignored(SampleName(inputs[i].0).value) && SampleName(inputs[i].0).value == s;
      assert parsed[i].0 == s;
    }
  }

  /**
   * When every file is read and every catalogue value is numeric, the method returns
   * exactly the names of the files' samples that are not ignored.
   */
  lemma AddSpecSamples(inputs: seq<(string, string)>, ignored: string -> bool)
    requires AddSpec(inputs, ignored).Ok?
    ensures forall i :: 0 <= i < |inputs| ==> SampleName(inputs[i].0).Some?
    ensures AddSpec(inputs, ignored).value.Samples()
      == set i | 0 <= i < |inputs| && !ignored(SampleName(inputs[i].0).value) :: SampleName(inputs[i].0).value
  {
    ParsedNames(inputs);
    var parsed := Collect(FileResults(inputs)).value;
    KeptKeys(parsed, ignored);
    NamesAgree(inputs, parsed, ignored);
  }

  /**
   * Lines 45-46: nothing is reported, and the empty set returned, exactly when every
   * file's sample is ignored.
   */
  lemma AddSpecNothingKept(inputs: seq<(string, string)>, ignored: string -> bool)
    requires AddSpec(inputs, ignored).Ok?
    ensures forall i :: 0 <= i < |inputs| ==> SampleName(inputs[i].0).Some?
    ensures AddSpec(inputs, ignored).value.NoSamples?
      <==> forall i :: 0 <= i < |inputs| ==> ignored(SampleName(inputs[i].0).value)
  {
    AddSpecSamples(inputs, ignored);
    var rep := AddSpec(inputs, ignored).value;
    if rep.Reported? {
      var parsed := Collect(FileResults(inputs)).value;
      var kept := Filter(MergeSamples(parsed), ignored);
      assert kept != map[];
      var s :| s in kept;
      assert s in rep.Samples();
    } else {
      forall i | 0 <= i < |inputs| ensures ignored(SampleName(inputs[i].0).value) {
        var n := SampleName(inputs[i].0).value;
        assert !ignored(n) ==> n in rep.Samples();
      }
    }
  }

  /** A file that cannot be read makes the whole call fail with its error, unless an earlier one did. */
  lemma AddSpecFileError(inputs: seq<(string, string)>, ignored: string -> bool, j: nat)
    requires j < |inputs| && ParseFile(inputs[j].0, inputs[j].1).Err?
    requires forall i :: 0 <= i < j ==> ParseFile(inputs[i].0, inputs[i].1).Ok?
    ensures AddSpec(inputs, ignored) == Err(ParseFile(inputs[j].0, inputs[j].1).error)
  {
    FileResultsAt(inputs);
    CollectFirstError(FileResults(inputs), j);
  }

  /**
   * A report's table has one row per reported sample, holding catalogue metrics only, and
   * its general statistics are the samples' whole metrics maps.
   */
  lemma AddSpecTable(inputs: seq<(string, string)>, ignored: string -> bool)
    requires AddSpec(inputs, ignored).Ok? && AddSpec(inputs, ignored).value.Reported?
    ensures AddSpec(inputs, ignored).value.table.Keys == AddSpec(inputs, ignored).value.samples
    ensures AddSpec(inputs, ignored).value.genStats.Keys == AddSpec(inputs, ignored).value.samples
    ensures AddSpec(inputs, ignored).value.samples != {}
    ensures forall s, m ::
      s in AddSpec(inputs, ignored).value.table && m in AddSpec(inputs, ignored).value.table[s] ==>
        InCatalogue(m) && AddSpec(inputs, ignored).value.genStats[s][m].Num?
  {
    var parsed := Collect(FileResults(inputs)).value;
    var kept := Filter(MergeSamples(parsed), ignored);
    assert kept != map[];
    var k :| k in kept;
    assert k in kept.Keys;
  }

  /**
   * Lines 33-40. Each file is parsed, which writes its sample name into it, and its data are
   * stored under that name, replacing an earlier file of the same sample.
   */
  method ReadFiles(files: seq<LogFile>) returns (r: Result<map<string, SampleMetrics>>)
    modifies set f | f in files
    ensures r == ReadAll(Inputs(files))
    ensures r.Ok? ==> forall f :: f in files ==> SampleName(f.fn) == Some(f.sName)
    ensures forall f :: f in files ==> f.sName == old(f.sName) || SampleName(f.fn) == Some(f.sName)
  {
    var dataBySample: map<string, SampleMetrics> := map[];
    ghost var parsed: seq<(string, SampleMetrics)> := [];
    ghost var rs := FileResults(Inputs(files));
    ghost var written: map<LogFile, string> := map[];
    var i := 0;
    while i < |files|
      invariant i <= |files|
      invariant Collect(rs[..i]) == Ok(parsed)
      invariant dataBySample == MergeSamples(parsed)
      invariant forall k :: 0 <= k < i ==> files[k] in written
      invariant forall g :: g in written ==> g.sName == written[g]
      invariant forall g :: g in written ==> SampleName(g.fn) == Some(written[g])
      invariant forall k :: 0 <= k < |files| && files[k] !in written ==> files[k].sName == old(files[k].sName)
    {
      var f := files[i];
      var data := ParseScAtacMetricsFile(f);
      FileResultOfRead(Inputs(files), i, data, f.sName);
      CollectStep(rs, i, parsed);
      if data.Err? {
        return Err(data.error);
      }
      ghost var before := written;
      written := written[f := f.sName];
      forall k | 0 <= k < i + 1 ensures files[k] in written {
        if k < i {
          assert files[k] in before;
        }
      }
      MergeSnoc(parsed, f.sName, data.value);
      dataBySample := dataBySample[f.sName := data.value];
      parsed := parsed + [(f.sName, data.value)];
      i := i + 1;
    }
    assert rs[..i] == rs;
    return Ok(dataBySample);
  }

  /**
   * Lines 32-68: the files are read, ignored samples are dropped, and what survives is
   * reported.
   */
  method AddScAtacMetrics(files: seq<LogFile>, ignored: string -> bool) returns (r: Result<Report>)
    modifies set f | f in files
    ensures r == AddSpec(Inputs(files), ignored)
    ensures r.Ok? ==> forall f :: f in files ==> SampleName(f.fn) == Some(f.sName)
    ensures forall f :: f in files ==> f.sName == old(f.sName) || SampleName(f.fn) == Some(f.sName)
  {
    var dataBySample := ReadFiles(files);
    if dataBySample.Err? {
      return Err(dataBySample.error);
    }

    var kept := Filter(dataBySample.value, ignored);
    if kept == map[] {
      return Ok(NoSamples);
    }

    var table := TableData(kept);
    if table.Err? {
      return Err(table.error);
    }
    return Ok(Reported(kept.Keys, kept, table.value));
  }
}
