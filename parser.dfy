/**
 * `parse_scatac_metrics_file`: derive the sample name from the file name, then read every
 * line of the file as `section,sample,metric,value[,percentage]` into a map from metric name
 * to value, a later line overwriting an earlier one with the same metric name.
 */
module Parser {
  import opened Results
  import opened PyStr
  import opened Values
  import opened SampleNames

  /** The metrics of one file: metric name to value. */
  type SampleMetrics = map<string, Value>

  /** A line the parser accepts: 4 or 5 comma-separated tokens. */
  predicate Accepted(line: string)
  {
    |Split(line, ',')| == 4 || |Split(line, ',')| == 5
  }

  /** The 3rd token of an accepted line: the metric name. */
  function MetricOf(line: string): string
    requires Accepted(line)
  {
    Split(line, ',')[2]
  }

  /** The 4th token of an accepted line: the raw value. */
  function StatOf(line: string): string
    requires Accepted(line)
  {
    Split(line, ',')[3]
  }

  /** Lines 85-98 for one line: the metric name and its coerced value, or the error raised at line 92. */
  function ParseLine(line: string): (r: Result<(string, Value)>)
    ensures r.Ok? <==> Count(line, ',') == 3 || Count(line, ',') == 4
    ensures r.Err? ==> r.error == UnexpectedTokenCount(line)
  {
    var tokens := Split(line, ',');
    if |tokens| == 4 || |tokens| == 5 then Ok((tokens[2], Coerce(tokens[3])))
    else Err(UnexpectedTokenCount(line))
  }

  /** Lines 83-100: the lines folded into a map in order; the first rejected line aborts. */
  function ParseLines(lines: seq<string>): Result<SampleMetrics>
  {
    if lines == [] then Ok(map[])
    else
      match ParseLines(lines[..|lines| - 1])
      case Err(e) => Err(e)
      case Ok(m) =>
        match ParseLine(lines[|lines| - 1])
        case Err(e) => Err(e)
        case Ok(kv) => Ok(m[kv.0 := kv.1])
  }

  /** Reading one more line of a file read so far without error. */
  lemma ParseLinesSnoc(lines: seq<string>, i: nat)
    requires i < |lines| && ParseLines(lines[..i]).Ok?
    ensures ParseLines(lines[..i + 1]) ==
      match ParseLine(lines[i])
      case Err(e) => Err(e)
      case Ok(kv) => Ok(ParseLines(lines[..i]).value[kv.0 := kv.1])
  {
    assert lines[..i + 1][..i] == lines[..i];
  }

  /** A rejected line after accepted ones is the error of the whole file. */
  lemma ParseLinesRejectAt(lines: seq<string>, i: nat)
    requires i < |lines| && ParseLines(lines[..i]).Ok?
    requires |Split(lines[i], ',')| != 4 && |Split(lines[i], ',')| != 5
    ensures ParseLines(lines) == Err(UnexpectedTokenCount(lines[i]))
  {
    assert lines[..i + 1][..i] == lines[..i];
    ParseLinesErrPersists(lines, i + 1);
  }

  /** The metrics of a file, given its name and text; the sample name comes with them. */
  function ParseFile(fn: string, contents: string): Result<(string, SampleMetrics)>
  {
    match SampleName(fn)
    case None => Err(NoSampleName(fn))
    case Some(name) =>
      match ParseLines(SplitLines(contents))
      case Err(e) => Err(e)
      case Ok(data) => Ok((name, data))
  }

  /**
   * What the parsing method computes (the sample name, and the lines read) is the file's
   * result, in the form the loop over files uses.
   */
  lemma ParseFileOfRead(fn: string, contents: string, r: Result<SampleMetrics>, name: string)
    requires SampleName(fn).None? ==> r == Err(NoSampleName(fn))
    requires SampleName(fn).Some? ==> name == SampleName(fn).value && r == ParseLines(SplitLines(contents))
    ensures r.Ok? ==> ParseFile(fn, contents) == Ok((name, r.value))
    ensures r.Err? ==> ParseFile(fn, contents) == Err(r.error)
  {
  }

  /** A file that is read carries the sample name of its file name. */
  lemma ParseFileName(fn: string, contents: string)
    requires ParseFile(fn, contents).Ok?
    ensures SampleName(fn) == Some(ParseFile(fn, contents).value.0)
  {
  }

  /** An accepted line stores its 3rd token with the coerced 4th token. */
  lemma ParseLineAccepted(line: string)
    ensures ParseLine(line).Ok? <==> Accepted(line)
    ensures Accepted(line) ==> ParseLine(line) == Ok((MetricOf(line), Coerce(StatOf(line))))
  {
  }

  /**
   * Only the metric name and the value matter: any section, sample placeholder and
   * percentage give the same result.
   */
  lemma ParseLineFields(section: string, placeholder: string, metric: string, stat: string, percentage: string)
    requires ',' !in section && ',' !in placeholder && ',' !in metric && ',' !in stat && ',' !in percentage
    ensures ParseLine(Join([section, placeholder, metric, stat], ",")) == Ok((metric, Coerce(stat)))
    ensures ParseLine(Join([section, placeholder, metric, stat, percentage], ",")) == Ok((metric, Coerce(stat)))
  {
    SplitJoin([section, placeholder, metric, stat], ',');
    SplitJoin([section, placeholder, metric, stat, percentage], ',');
  }

  /** There is no blank-line skipping: an empty line is one token and is rejected. */
  lemma ParseLineEmpty()
    ensures ParseLine("") == Err(UnexpectedTokenCount(""))
  {
    assert Count("", ',') == 0;
  }

  /** A line with six tokens is rejected, carrying the line. */
  lemma ParseLineSixTokens(a: string, b: string, c: string, d: string, e: string, f: string)
    requires ',' !in a && ',' !in b && ',' !in c && ',' !in d && ',' !in e && ',' !in f
    ensures ParseLine(Join([a, b, c, d, e, f], ",")) == Err(UnexpectedTokenCount(Join([a, b, c, d, e, f], ",")))
  {
    SplitJoin([a, b, c, d, e, f], ',');
  }

  /** A once-failed prefix decides the result of the whole file. */
  lemma {:induction false} ParseLinesErrPersists(lines: seq<string>, j: nat)
    requires j <= |lines|
    requires ParseLines(lines[..j]).Err?
    ensures ParseLines(lines) == ParseLines(lines[..j])
    decreases |lines| - j
  {
    if j < |lines| {
      var n := |lines|;
      assert lines[..n - 1][..j] == lines[..j];
      ParseLinesErrPersists(lines[..n - 1], j);
      assert lines[..n] == lines;
    } else {
      assert lines[..j] == lines;
    }
  }

  /** A file is read without error exactly when every line is accepted. */
  lemma {:induction false} ParseLinesOk(lines: seq<string>)
    ensures ParseLines(lines).Ok? <==> forall i :: 0 <= i < |lines| ==> Accepted(lines[i])
  {
    if lines != [] {
      var n := |lines|;
      ParseLinesOk(lines[..n - 1]);
      ParseLineAccepted(lines[n - 1]);
      assert forall i :: 0 <= i < n - 1 ==> lines[..n - 1][i] == lines[i];
    }
  }

  /** The error of a rejected file is the one raised for its first rejected line. */
  lemma {:induction false} ParseLinesFirstError(lines: seq<string>, j: nat)
    requires j < |lines| && !Accepted(lines[j])
    requires forall i :: 0 <= i < j ==> Accepted(lines[i])
    ensures ParseLines(lines) == Err(UnexpectedTokenCount(lines[j]))
  {
    ParseLinesOk(lines[..j]);
    ParseLineAccepted(lines[j]);
    assert lines[..j + 1][..j] == lines[..j];
    assert ParseLines(lines[..j + 1]) == Err(UnexpectedTokenCount(lines[j]));
    ParseLinesErrPersists(lines, j + 1);
  }

  /** In a file read without error, the metric names are exactly the 3rd tokens of its lines. */
  lemma {:induction false} ParseLinesKeys(lines: seq<string>)
    requires ParseLines(lines).Ok?
    ensures forall i :: 0 <= i < |lines| ==> Accepted(lines[i])
    ensures ParseLines(lines).value.Keys == MetricsOf(lines)
  {
    ParseLinesOk(lines);
    if lines != [] {
      var n := |lines|;
      ParseLinesKeys(lines[..n - 1]);
      ParseLineAccepted(lines[n - 1]);
      MetricsOfSnoc(lines);
    }
  }

  /** The metric names the accepted lines of a run name. */
  function MetricsOf(lines: seq<string>): set<string>
  {
    set i | 0 <= i < |lines| && Accepted(lines[i]) :: MetricOf(lines[i])
  }

  /** The metric names of a nonempty run of lines: those of all but the last, and the last's. */
  lemma MetricsOfSnoc(lines: seq<string>)
    requires |lines| > 0 && Accepted(lines[|lines| - 1])
    ensures MetricsOf(lines) == MetricsOf(lines[..|lines| - 1]) + {MetricOf(lines[|lines| - 1])}
  {
    var n := |lines|;
    var init := lines[..n - 1];
    forall k | k in MetricsOf(lines) ensures k in MetricsOf(init) + {MetricOf(lines[n - 1])} {
      var i :| 0 <= i < n && Accepted(lines[i]) && MetricOf(lines[i]) == k;
      if i < n - 1 {
        assert init[i] == lines[i];
      }
    }
    forall k | k in MetricsOf(init) ensures k in MetricsOf(lines) {
      var i :| 0 <= i < n - 1 && Accepted(init[i]) && MetricOf(init[i]) == k;
      assert init[i] == lines[i];
    }
  }

  /** In a file read without error, each metric name maps to the value of the last line naming it. */
  lemma {:induction false} ParseLinesLastWins(lines: seq<string>, j: nat)
    requires ParseLines(lines).Ok?
    requires j < |lines|
    requires forall i :: 0 <= i < |lines| ==> Accepted(lines[i])
    requires forall i :: j < i < |lines| ==> MetricOf(lines[i]) != MetricOf(lines[j])
    ensures MetricOf(lines[j]) in ParseLines(lines).value
    ensures ParseLines(lines).value[MetricOf(lines[j])] == Coerce(StatOf(lines[j]))
  {
    var n := |lines|;
    var init := lines[..n - 1];
    ParseLineAccepted(lines[n - 1]);
    if j < n - 1 {
      assert init[j] == lines[j];
      assert forall i :: j < i < n - 1 ==> init[i] == lines[i];
      ParseLinesLastWins(init, j);
    }
  }

  /** A file with no text has no lines and no metrics. */
  lemma ParseLinesEmptyFile()
    ensures ParseLines(SplitLines("")) == Ok(map[])
  {
  }

  /** A file of one newline-terminated line holds just that line's metric. */
  lemma ParseFileOneLine(fn: string, section: string, placeholder: string, metric: string, stat: string)
    requires SampleName(fn).Some?
    requires ',' !in section && ',' !in placeholder && ',' !in metric && ',' !in stat
    requires NoLineBreak(section) && NoLineBreak(placeholder) && NoLineBreak(metric) && NoLineBreak(stat)
    ensures ParseFile(fn, Join([section, placeholder, metric, stat], ",") + "\n")
      == Ok((SampleName(fn).value, map[metric := Coerce(stat)]))
  {
    var line := Join([section, placeholder, metric, stat], ",");
    assert SplitLines(line + "\n") == [line] by {
      assert NoLineBreak(line) by {
        assert Join([metric, stat], ",") == metric + "," + stat;
        assert Join([placeholder, metric, stat], ",") == placeholder + "," + metric + "," + stat;
        assert line == section + "," + placeholder + "," + metric + "," + stat;
      }
      assert Terminated([line]) == line + "\n";
      SplitLinesTerminated([line]);
    }
    assert ParseLines([line]) == Ok(map[metric := Coerce(stat)]) by {
      ParseLineFields(section, placeholder, metric, stat, "");
      assert [line][..0] == [];
    }
  }

  /**
   * Example: `X.scATAC.metrics.csv` holding
   * `SINGLE-CELL ATAC METRICS,X,Unique cell-barcodes,12345` is sample `X` with one number.
   */
  lemma ParseFileExample(fn: string, section: string, placeholder: string, metric: string, stat: string)
    requires fn == "X.scATAC.metrics.csv"
    requires section == "SINGLE-CELL ATAC METRICS" && placeholder == "X"
    requires metric == "Unique cell-barcodes" && stat == "12345"
    ensures ParseFile(fn, Join([section, placeholder, metric, stat], ",") + "\n")
      == Ok(("X", map[metric := Num(12345.0)]))
  {
    SampleNameExample(fn);
    CountExample(stat);
    ExampleFieldsPlain(section, placeholder, metric, stat);
    ParseFileOneLine(fn, section, placeholder, metric, stat);
  }

  /** The example's fields hold neither commas nor line breaks. */
  lemma ExampleFieldsPlain(section: string, placeholder: string, metric: string, stat: string)
    requires section == "SINGLE-CELL ATAC METRICS" && placeholder == "X"
    requires metric == "Unique cell-barcodes" && stat == "12345"
    ensures ',' !in section && ',' !in placeholder && ',' !in metric && ',' !in stat
    ensures NoLineBreak(section) && NoLineBreak(placeholder) && NoLineBreak(metric) && NoLineBreak(stat)
  {
    PrintableIsPlain(section);
    PrintableIsPlain(placeholder);
    PrintableIsPlain(metric);
    PrintableIsPlain(stat);
  }

  /** Printable ASCII without a comma holds neither commas nor line breaks. */
  lemma PrintableIsPlain(s: string)
    requires forall k :: 0 <= k < |s| ==> ' ' <= s[k] <= '~' && s[k] != ','
    ensures ',' !in s && NoLineBreak(s)
  {
  }

  /** The count `12345` is stored as the number 12345. */
  lemma CountExample(stat: string)
    requires stat == "12345"
    ensures Coerce(stat) == Num(12345.0)
  {
    var s1 := [] + ['1'];
    var s2 := s1 + ['2'];
    var s3 := s2 + ['3'];
    var s4 := s3 + ['4'];
    var s5 := s4 + ['5'];
    DigitsValueAppend([], '1');
    DigitsValueAppend(s1, '2');
    DigitsValueAppend(s2, '3');
    DigitsValueAppend(s3, '4');
    DigitsValueAppend(s4, '5');
    assert stat == s5;
    CoerceDigits(stat);
  }

  /** Example: `A,B,Metric,not_a_number` keeps the value as the same string. */
  lemma ParseLineTextExample(a: string, b: string, metric: string, stat: string)
    requires a == "A" && b == "B" && metric == "Metric" && stat == "not_a_number"
    ensures ParseLine(Join([a, b, metric, stat], ",")) == Ok((metric, Text(stat)))
  {
    assert Coerce(stat) == Text(stat) by {
      CoerceNonNumeric(stat, 3);
    }
    ParseLineFields(a, b, metric, stat, "");
  }

  /** A log file record as the discovery step hands it over (`f`): name, text and sample name. */
  class LogFile {
    const fn: string
    const contents: string
    var sName: string

    constructor (fn: string, contents: string, sName: string)
      ensures this.fn == fn && this.contents == contents && this.sName == sName
    {
      this.fn := fn;
      this.contents := contents;
      this.sName := sName;
    }
  }

  /**
   * `parse_scatac_metrics_file(f)`: writes the derived sample name into `f`, then reads the
   * lines. A file name the pattern does not match fails before `f` is changed; a rejected
   * line fails after the sample name was written.
   */
  method ParseScAtacMetricsFile(f: LogFile) returns (r: Result<SampleMetrics>)
    modifies f
    ensures SampleName(f.fn).None? ==> r == Err(NoSampleName(f.fn)) && f.sName == old(f.sName)
    ensures SampleName(f.fn).Some? ==>
      f.sName == SampleName(f.fn).value && r == ParseLines(SplitLines(f.contents))
  {
    var name := SampleName(f.fn);
    if name.None? {
      return Err(NoSampleName(f.fn));
    }
    f.sName := name.value;
    r := ReadLines(SplitLines(f.contents));
  }

  /** Lines 84-100: the loop over the lines, filling the file's metrics map in order. */
  method ReadLines(lines: seq<string>) returns (r: Result<SampleMetrics>)
    ensures r == ParseLines(lines)
  {
    var data: SampleMetrics := map[];
    var i := 0;
    while i < |lines|
      invariant i <= |lines|
      invariant ParseLines(lines[..i]) == Ok(data)
    {
      var line := lines[i];
      var tokens := Split(line, ',');
      var metric, stat;
      if |tokens| == 4 {
        metric, stat := tokens[2], tokens[3];
      } else if |tokens| == 5 {
        metric, stat := tokens[2], tokens[3];
      } else {
        ParseLinesRejectAt(lines, i);
        return Err(UnexpectedTokenCount(line));
      }
      ParseLinesSnoc(lines, i);
      data := data[metric := Coerce(stat)];
      i := i + 1;
    }
    assert lines[..i] == lines;
    return Ok(data);
  }
}
