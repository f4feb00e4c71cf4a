/**
 * The sample name of line 81: `re.search(r"(.*).scATAC.metrics.csv", fn).group(1)`.
 * The pattern is unanchored, `(.*)` is greedy, and each unescaped `.` matches any
 * character but a newline. `re.search` tries start positions from the left; at each one
 * `.*` first runs to the end of the line and then gives characters back until the
 * 19-character suffix pattern matches.
 */
module SampleNames {
  import opened Results

  /** The suffix part of the pattern; its `.` characters are wildcards. */
  const Suffix: string := ".scATAC.metrics.csv"

  /** Whether one pattern character matches one file-name character. */
  predicate CharMatches(p: char, c: char)
  {
    if p == '.' then c != '\n' else c == p
  }

  /** The suffix pattern matches `fn` starting at position `p`. */
  predicate SuffixAt(fn: string, p: nat)
  {
    p + |Suffix| <= |fn| && forall k :: 0 <= k < |Suffix| ==> CharMatches(Suffix[k], fn[p + k])
  }

  /** How far `.*` can run from `s`: the first newline at or after `s`, or the end. */
  function LineEnd(fn: string, s: nat): (e: nat)
    requires s <= |fn|
    ensures s <= e <= |fn|
    decreases |fn| - s
  {
    if s == |fn| || fn[s] == '\n' then s else LineEnd(fn, s + 1)
  }

  /** `.*` stops at the first newline, or at the end of the file name. */
  lemma {:induction false} LineEndStops(fn: string, s: nat)
    requires s <= |fn|
    ensures forall k :: s <= k < LineEnd(fn, s) ==> fn[k] != '\n'
    ensures LineEnd(fn, s) < |fn| ==> fn[LineEnd(fn, s)] == '\n'
    decreases |fn| - s
  {
    if s < |fn| && fn[s] != '\n' {
      LineEndStops(fn, s + 1);
    }
  }

  /** Backtracking of the greedy `.*`: the largest `q` in `[s, p]` where the suffix matches. */
  function Backtrack(fn: string, s: nat, p: nat): (r: Option<nat>)
    requires s <= p
    ensures r.Some? ==> s <= r.value <= p
    decreases p
  {
    if SuffixAt(fn, p) then Some(p)
    else if p == s then None
    else Backtrack(fn, s, p - 1)
  }

  /** Backtracking stops at the largest match in `[s, p]`, and fails only when there is none. */
  lemma {:induction false} BacktrackFindsLast(fn: string, s: nat, p: nat)
    requires s <= p
    ensures Backtrack(fn, s, p).Some? ==>
      && SuffixAt(fn, Backtrack(fn, s, p).value)
      && forall q :: Backtrack(fn, s, p).value < q <= p ==> !SuffixAt(fn, q)
    ensures Backtrack(fn, s, p).None? ==> forall q :: s <= q <= p ==> !SuffixAt(fn, q)
    decreases p
  {
    if !SuffixAt(fn, p) && p > s {
      BacktrackFindsLast(fn, s, p - 1);
    }
  }

  /** `re.search` from start position `s` onwards; the result is group 1. */
  function SearchFrom(fn: string, s: nat): Option<string>
    requires s <= |fn|
    decreases |fn| - s
  {
    match Backtrack(fn, s, LineEnd(fn, s))
    case Some(p) => Some(fn[s..p])
    case None => if s == |fn| then None else SearchFrom(fn, s + 1)
  }

  /** Line 81: the sample name derived from the file name, `None` where `.group` fails. */
  function SampleName(fn: string): Option<string>
  {
    SearchFrom(fn, 0)
  }

  /** A search from `s` succeeds whenever the suffix matches somewhere at or after `s`. */
  lemma {:induction false} SearchFindsMatch(fn: string, s: nat, p: nat)
    requires s <= p && s <= |fn|
    requires SuffixAt(fn, p)
    ensures SearchFrom(fn, s).Some?
    decreases |fn| - s
  {
    BacktrackFindsLast(fn, s, LineEnd(fn, s));
    if Backtrack(fn, s, LineEnd(fn, s)).None? {
      SearchFindsMatch(fn, s + 1, p);
    }
  }

  /** What a search finds is a piece of the file name that the suffix pattern follows. */
  lemma {:induction false} SearchFromMatches(fn: string, s: nat)
    requires s <= |fn|
    ensures SearchFrom(fn, s).Some? ==>
      exists a, p :: s <= a <= p && SuffixAt(fn, p) && SearchFrom(fn, s).value == fn[a..p]
    decreases |fn| - s
  {
    var e := LineEnd(fn, s);
    BacktrackFindsLast(fn, s, e);
    match Backtrack(fn, s, e)
    case Some(p) =>
      assert SuffixAt(fn, p) && SearchFrom(fn, s).value == fn[s..p];
    case None =>
      if s < |fn| {
        SearchFromMatches(fn, s + 1);
      }
  }

  /** The name is derived exactly when the suffix pattern matches somewhere in the file name. */
  lemma SampleNameDefined(fn: string)
    ensures SampleName(fn).Some? <==> exists p :: SuffixAt(fn, p)
  {
    if p :| SuffixAt(fn, p) {
      SearchFindsMatch(fn, 0, p);
    }
    SearchFromMatches(fn, 0);
  }

  /**
   * For a file name without newlines, the name is the prefix before the last position where
   * the suffix pattern matches.
   */
  lemma SampleNameIsPrefix(fn: string, p: nat)
    requires '\n' !in fn
    requires SuffixAt(fn, p)
    requires forall q :: p < q ==> !SuffixAt(fn, q)
    ensures SampleName(fn) == Some(fn[..p])
  {
    LineEndStops(fn, 0);
    assert LineEnd(fn, 0) == |fn|;
    BacktrackFindsLast(fn, 0, |fn|);
  }

  /** A one-line file name that ends with the suffix pattern: the name is everything before it. */
  lemma SampleNameAtEnd(fn: string, p: nat)
    requires '\n' !in fn
    requires p + |Suffix| == |fn| && SuffixAt(fn, p)
    ensures SampleName(fn) == Some(fn[..p])
  {
    SampleNameIsPrefix(fn, p);
  }

  /** A file named after its sample, `<name>.scATAC.metrics.csv`, belongs to that sample. */
  lemma SampleNameOfFileName(name: string)
    requires '\n' !in name
    ensures SampleName(name + Suffix) == Some(name)
  {
    var fn := name + Suffix;
    forall k | 0 <= k < |Suffix| ensures CharMatches(Suffix[k], fn[|name| + k]) {
      assert fn[|name| + k] == Suffix[k];
    }
    assert fn[..|name|] == name;
    SampleNameAtEnd(fn, |name|);
  }

  /** `X.scATAC.metrics.csv` belongs to sample `X`. */
  lemma SampleNameExample(fn: string)
    requires fn == "X.scATAC.metrics.csv"
    ensures SampleName(fn) == Some("X")
  {
    assert fn == "X" + Suffix;
    SampleNameOfFileName("X");
  }

  /** The dots are wildcards: `S1_scATAC-metrics_csv` belongs to sample `S1`. */
  lemma SampleNameWildcards(fn: string)
    requires fn == "S1_scATAC-metrics_csv"
    ensures SampleName(fn) == Some("S1")
  {
    assert SuffixAt(fn, 2);
    assert '\n' !in fn;
    assert fn[..2] == "S1";
    SampleNameAtEnd(fn, 2);
  }

  /** `(.*)` is greedy: with the suffix twice, the name keeps the first occurrence. */
  lemma SampleNameGreedy(name: string)
    requires '\n' !in name
    ensures SampleName(name + Suffix + Suffix) == Some(name + Suffix)
  {
    assert '\n' !in name + Suffix;
    SampleNameOfFileName(name + Suffix);
  }
}
