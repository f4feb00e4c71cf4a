/**
 * The fixed catalogue of single-cell ATAC metrics (`METRIC_NAMES`, `METRICS`) and the
 * rule that derives each display title from the metric name: every whitespace token that
 * is entirely lower-case is passed through `str.title()`, every other token is kept.
 * Letter case is modelled for ASCII letters only.
 */
module Catalogue {
  import opened PyStr

  /** `METRIC_NAMES`, in declaration order. */
  const MetricNames: seq<string> := [
    "Unique cell-barcodes",
    "Fragment threshold for passing cells",
    "Passing cells",
    "Median fragments per cell",
    "Median peaks per cell",
    "Total peaks detected"
  ]

  /** One `Metric(...)` descriptor of `METRICS`. */
  datatype Metric = Metric(
    id: string,
    title: string,
    inGenstats: string,
    inOwnTabl: string,
    precision: nat,
    descr: string)

  predicate IsUpperChar(c: char) { 'A' <= c <= 'Z' }
  predicate IsLowerChar(c: char) { 'a' <= c <= 'z' }
  predicate IsCased(c: char) { IsUpperChar(c) || IsLowerChar(c) }

  function ToUpper(c: char): char
  {
    if IsLowerChar(c) then (c as int - 32) as char else c
  }

  function ToLower(c: char): char
  {
    if IsUpperChar(c) then (c as int + 32) as char else c
  }

  /** `str.islower()`: at least one cased character and no upper-case one. */
  predicate IsLowerWord(w: string)
  {
    (exists k :: 0 <= k < |w| && IsLowerChar(w[k]))
    && forall k :: 0 <= k < |w| ==> !IsUpperChar(w[k])
  }

  /**
   * `str.title()` on the rest `w` of a word, `prevCased` telling whether the character
   * before it was cased: a cased character is upper-cased at the start of a run of cased
   * characters and lower-cased inside one; other characters are kept.
   */
  function TitleFrom(w: string, prevCased: bool): string
  {
    if w == [] then ""
    else
      var c := w[0];
      var d := if !IsCased(c) then c else if prevCased then ToLower(c) else ToUpper(c);
      [d] + TitleFrom(w[1..], IsCased(c))
  }

  /** `w.title()`. */
  function TitleWord(w: string): string
  {
    TitleFrom(w, false)
  }

  /** The token rule of line 21: `w.title() if w.islower() else w`. */
  function TitleToken(w: string): string
  {
    if IsLowerWord(w) then TitleWord(w) else w
  }

  function TitleTokens(ts: seq<string>): (r: seq<string>)
    ensures |r| == |ts|
  {
    seq(|ts|, i requires 0 <= i < |ts| => TitleToken(ts[i]))
  }

  /** The display title of a metric name: `" ".join(... for w in m.split())`. */
  function Title(m: string): string
  {
    Join(TitleTokens(WsSplit(m)), " ")
  }

  /** `METRICS`: one descriptor per catalogue name, in the same order. */
  function Metrics(): (r: seq<Metric>)
    ensures |r| == |MetricNames|
    ensures forall i :: 0 <= i < |r| ==>
      r[i].id == MetricNames[i] && r[i].descr == MetricNames[i] && r[i].precision == 0
      && r[i].title == Title(MetricNames[i]) && r[i].inGenstats == "#" && r[i].inOwnTabl == "#"
  {
    seq(|MetricNames|, i requires 0 <= i < |MetricNames| =>
      var m := MetricNames[i];
      Metric(m, Title(m), "#", "#", 0, m))
  }

  /** `title()` keeps the length and every uncased character, and changes only the case of letters. */
  lemma {:induction false} TitleFromCase(w: string, prevCased: bool)
    ensures |TitleFrom(w, prevCased)| == |w|
    ensures forall k :: 0 <= k < |w| ==>
      var r := TitleFrom(w, prevCased);
      if IsCased(w[k]) then IsCased(r[k]) && ToLower(r[k]) == ToLower(w[k]) else r[k] == w[k]
  {
    if w != [] {
      TitleFromCase(w[1..], IsCased(w[0]));
    }
  }

  /** A word with a cased character starts, after `title()`, with an upper-case run. */
  lemma {:induction false} TitleFromHasUpper(w: string, k: nat)
    requires k < |w| && IsCased(w[k])
    ensures exists j :: 0 <= j < |TitleFrom(w, false)| && IsUpperChar(TitleFrom(w, false)[j])
  {
    var r := TitleFrom(w, false);
    TitleFromCase(w, false);
    if IsCased(w[0]) {
      assert IsUpperChar(r[0]);
    } else {
      TitleFromHasUpper(w[1..], k - 1);
      var j :| 0 <= j < |TitleFrom(w[1..], false)| && IsUpperChar(TitleFrom(w[1..], false)[j]);
      assert r[j + 1] == TitleFrom(w[1..], false)[j];
    }
  }

  /** A title-cased lower-case word is no longer lower-case, so the rule leaves it alone. */
  lemma TitleWordNotLower(w: string)
    requires IsLowerWord(w)
    ensures !IsLowerWord(TitleWord(w))
  {
    var k :| 0 <= k < |w| && IsLowerChar(w[k]);
    TitleFromHasUpper(w, k);
  }

  /** The token rule keeps a token a token, changes only the case of letters, and is idempotent. */
  lemma TitleTokenFacts(w: string)
    ensures IsToken(w) ==> IsToken(TitleToken(w))
    ensures |TitleToken(w)| == |w|
    ensures !IsLowerWord(w) ==> TitleToken(w) == w
    ensures forall k :: 0 <= k < |w| ==> ToLower(TitleToken(w)[k]) == ToLower(w[k])
    ensures TitleToken(TitleToken(w)) == TitleToken(w)
  {
    if IsLowerWord(w) {
      TitleWordNotLower(w);
      TitleFromCase(w, false);
    }
  }

  /** The whitespace tokens of a title are the tokens of the name, each passed through the rule. */
  lemma TitleSplit(m: string)
    ensures WsSplit(Title(m)) == TitleTokens(WsSplit(m))
  {
    var ts := TitleTokens(WsSplit(m));
    forall i | 0 <= i < |ts| ensures IsToken(ts[i]) {
      TitleTokenFacts(WsSplit(m)[i]);
    }
    WsSplitJoin(ts);
  }

  /**
   * The title has as many whitespace tokens as the name; a token that is not entirely
   * lower-case is unchanged, and a lower-case one differs at most in letter case.
   */
  lemma TitleKeepsTokens(m: string)
    ensures |WsSplit(Title(m))| == |WsSplit(m)|
    ensures forall i :: 0 <= i < |WsSplit(m)| ==>
      (!IsLowerWord(WsSplit(m)[i]) ==> WsSplit(Title(m))[i] == WsSplit(m)[i])
    ensures forall i :: 0 <= i < |WsSplit(m)| ==>
      |WsSplit(Title(m))[i]| == |WsSplit(m)[i]|
      && forall k :: 0 <= k < |WsSplit(m)[i]| ==> ToLower(WsSplit(Title(m))[i][k]) == ToLower(WsSplit(m)[i][k])
  {
    TitleSplit(m);
    forall i | 0 <= i < |WsSplit(m)|
      ensures |WsSplit(Title(m))[i]| == |WsSplit(m)[i]|
      ensures forall k :: 0 <= k < |WsSplit(m)[i]| ==> ToLower(WsSplit(Title(m))[i][k]) == ToLower(WsSplit(m)[i][k])
    {
      TitleTokenFacts(WsSplit(m)[i]);
    }
  }

  /** Deriving the title twice gives the same title. */
  lemma TitleIdempotent(m: string)
    ensures Title(Title(m)) == Title(m)
  {
    TitleSplit(m);
    var ts := TitleTokens(WsSplit(m));
    forall i | 0 <= i < |ts| ensures TitleToken(ts[i]) == ts[i] {
      TitleTokenFacts(WsSplit(m)[i]);
    }
    assert TitleTokens(ts) == ts;
  }

  /** Inside a run of cased characters, a lower-case run is kept as it is. */
  lemma {:induction false} TitleFromLowerRun(w: string)
    requires forall k :: 0 <= k < |w| ==> IsLowerChar(w[k])
    ensures TitleFrom(w, true) == w
  {
    if w != [] {
      TitleFromLowerRun(w[1..]);
    }
  }

  /** `title()` of a run of lower-case letters capitalises its first letter only. */
  lemma TitleOfLowerRun(w: string)
    requires |w| > 0
    requires forall k :: 0 <= k < |w| ==> IsLowerChar(w[k])
    ensures IsLowerWord(w)
    ensures TitleToken(w) == TitleFrom(w, false) == [ToUpper(w[0])] + w[1..]
  {
    assert IsLowerChar(w[0]);
    assert IsLowerWord(w);
    assert TitleFrom(w, false) == [ToUpper(w[0])] + TitleFrom(w[1..], true);
    TitleFromLowerRun(w[1..]);
  }

  /** `title()` of a concatenation continues from the last character of the first part. */
  lemma {:induction false} TitleFromConcat(u: string, v: string, b: bool)
    requires u != []
    ensures TitleFrom(u + v, b) == TitleFrom(u, b) + TitleFrom(v, IsCased(u[|u| - 1]))
  {
    assert (u + v)[1..] == u[1..] + v;
    if |u| > 1 {
      TitleFromConcat(u[1..], v, IsCased(u[0]));
    }
  }

  /** `title()` capitalises both halves of a hyphenated lower-case word. */
  lemma TitleOfHyphenated(w: string, u: string, v: string)
    requires w == u + "-" + v
    requires |u| > 0 && forall k :: 0 <= k < |u| ==> IsLowerChar(u[k])
    requires |v| > 0 && forall k :: 0 <= k < |v| ==> IsLowerChar(v[k])
    ensures TitleToken(w) == [ToUpper(u[0])] + u[1..] + "-" + [ToUpper(v[0])] + v[1..]
  {
    TitleOfLowerRun(u);
    TitleOfLowerRun(v);
    assert ("-" + v)[1..] == v;
    assert w == u + ("-" + v);
    TitleFromConcat(u, "-" + v, false);
    assert IsLowerChar(w[0]);
  }

  /** A token starting with an upper-case letter is kept. */
  lemma TitleOfCapitalised(w: string)
    requires IsToken(w) && IsUpperChar(w[0])
    ensures TitleToken(w) == w
  {
  }

  /** A run of lower-case letters is a token whose title capitalises its first letter. */
  lemma TitleOfLowerToken(w: string, t: string)
    requires |w| > 0 && forall k :: 0 <= k < |w| ==> IsLowerChar(w[k])
    requires t == [ToUpper(w[0])] + w[1..]
    ensures IsToken(w) && TitleToken(w) == t
  {
    TitleOfLowerRun(w);
  }

  /** The title of a name made of tokens joined by single spaces joins the tokens' titles. */
  lemma TitleOfName(m: string, ts: seq<string>, out: seq<string>)
    requires m == Join(ts, " ")
    requires |out| == |ts|
    requires forall i :: 0 <= i < |ts| ==> IsToken(ts[i]) && TitleToken(ts[i]) == out[i]
    ensures Title(m) == Join(out, " ")
  {
    WsSplitJoin(ts);
    assert TitleTokens(ts) == out;
  }

  lemma TokensOfName0(b: string)
    requires b == "cell-barcodes"
    ensures IsToken(b) && TitleToken(b) == "Cell-Barcodes"
  {
    TitleOfHyphenated(b, "cell", "barcodes");
  }

  lemma TitleOfName0(m: string, a: string, b: string)
    requires a == "Unique" && b == "cell-barcodes"
    requires m == a + " " + b
    ensures Title(m) == Join(["Unique", "Cell-Barcodes"], " ")
  {
    TitleOfCapitalised(a);
    TokensOfName0(b);
    Join2(a, b, " ");
    TitleOfName(m, [a, b], ["Unique", "Cell-Barcodes"]);
  }

  lemma TokensOfName1(b: string, c: string, d: string, e: string)
    requires b == "threshold" && c == "for" && d == "passing" && e == "cells"
    ensures IsToken(b) && TitleToken(b) == "Threshold"
    ensures IsToken(c) && TitleToken(c) == "For"
    ensures IsToken(d) && TitleToken(d) == "Passing"
    ensures IsToken(e) && TitleToken(e) == "Cells"
  {
    TitleOfLowerToken(b, "Threshold");
    TitleOfLowerToken(c, "For");
    TitleOfLowerToken(d, "Passing");
    TitleOfLowerToken(e, "Cells");
  }

  lemma TitleOfName1(m: string, a: string, b: string, c: string, d: string, e: string)
    requires a == "Fragment" && b == "threshold" && c == "for" && d == "passing" && e == "cells"
    requires m == a + " " + b + " " + c + " " + d + " " + e
    ensures Title(m) == Join(["Fragment", "Threshold", "For", "Passing", "Cells"], " ")
  {
    TitleOfCapitalised(a);
    TokensOfName1(b, c, d, e);
    Join5(a, b, c, d, e, " ");
    TitleOfName(m, [a, b, c, d, e], ["Fragment", "Threshold", "For", "Passing", "Cells"]);
  }

  lemma TitleOfName2(m: string, a: string, b: string)
    requires a == "Passing" && b == "cells"
    requires m == a + " " + b
    ensures Title(m) == Join(["Passing", "Cells"], " ")
  {
    TitleOfCapitalised(a);
    TitleOfLowerToken(b, "Cells");
    TitleOfName(m, [a, b], ["Passing", "Cells"]);
  }

  lemma TitleOfName3(m: string, a: string, b: string, c: string, d: string)
    requires a == "Median" && b == "fragments" && c == "per" && d == "cell"
    requires m == a + " " + b + " " + c + " " + d
    ensures Title(m) == Join(["Median", "Fragments", "Per", "Cell"], " ")
  {
    TitleOfCapitalised(a);
    TitleOfLowerToken(b, "Fragments");
    TitleOfLowerToken(c, "Per");
    TitleOfLowerToken(d, "Cell");
    Join4(a, b, c, d, " ");
    TitleOfName(m, [a, b, c, d], ["Median", "Fragments", "Per", "Cell"]);
  }

  lemma TitleOfName4(m: string, a: string, b: string, c: string, d: string)
    requires a == "Median" && b == "peaks" && c == "per" && d == "cell"
    requires m == a + " " + b + " " + c + " " + d
    ensures Title(m) == Join(["Median", "Peaks", "Per", "Cell"], " ")
  {
    TitleOfCapitalised(a);
    TitleOfLowerToken(b, "Peaks");
    TitleOfLowerToken(c, "Per");
    TitleOfLowerToken(d, "Cell");
    Join4(a, b, c, d, " ");
    TitleOfName(m, [a, b, c, d], ["Median", "Peaks", "Per", "Cell"]);
  }

  lemma TitleOfName5(m: string, a: string, b: string, c: string)
    requires a == "Total" && b == "peaks" && c == "detected"
    requires m == a + " " + b + " " + c
    ensures Title(m) == Join(["Total", "Peaks", "Detected"], " ")
  {
    TitleOfCapitalised(a);
    TitleOfLowerToken(b, "Peaks");
    TitleOfLowerToken(c, "Detected");
    Join3(a, b, c, " ");
    TitleOfName(m, [a, b, c], ["Total", "Peaks", "Detected"]);
  }

  /** The second catalogue name, word by word. */
  lemma CatalogueName1(a: string, b: string, c: string, d: string, e: string)
    requires a == "Fragment" && b == "threshold" && c == "for" && d == "passing" && e == "cells"
    ensures MetricNames[1] == a + " " + b + " " + c + " " + d + " " + e
  {
  }

  /** The words of a catalogue title, joined by single spaces. */
  lemma TitleText0(a: string, b: string)
    requires a == "Unique" && b == "Cell-Barcodes"
    ensures Join([a, b], " ") == "Unique Cell-Barcodes"
  {
    Join2(a, b, " ");
  }

  /** The words of a catalogue title, joined by single spaces. */
  lemma TitleText1(a: string, b: string, c: string, d: string, e: string)
    requires a == "Fragment" && b == "Threshold" && c == "For" && d == "Passing" && e == "Cells"
    ensures Join([a, b, c, d, e], " ") == "Fragment Threshold For Passing Cells"
  {
    Join5(a, b, c, d, e, " ");
  }

  /** The words of a catalogue title, joined by single spaces. */
  lemma TitleText2(a: string, b: string)
    requires a == "Passing" && b == "Cells"
    ensures Join([a, b], " ") == "Passing Cells"
  {
    Join2(a, b, " ");
  }

  /** The words of a catalogue title, joined by single spaces. */
  lemma TitleText3(a: string, b: string, c: string, d: string)
    requires a == "Median" && b == "Fragments" && c == "Per" && d == "Cell"
    ensures Join([a, b, c, d], " ") == "Median Fragments Per Cell"
  {
    Join4(a, b, c, d, " ");
  }

  /** The words of a catalogue title, joined by single spaces. */
  lemma TitleText4(a: string, b: string, c: string, d: string)
    requires a == "Median" && b == "Peaks" && c == "Per" && d == "Cell"
    ensures Join([a, b, c, d], " ") == "Median Peaks Per Cell"
  {
    Join4(a, b, c, d, " ");
  }

  /** The words of a catalogue title, joined by single spaces. */
  lemma TitleText5(a: string, b: string, c: string)
    requires a == "Total" && b == "Peaks" && c == "Detected"
    ensures Join([a, b, c], " ") == "Total Peaks Detected"
  {
    Join3(a, b, c, " ");
  }

  lemma CatalogueTitle0()
    ensures Title(MetricNames[0]) == "Unique Cell-Barcodes"
  {
    TitleOfName0(MetricNames[0], "Unique", "cell-barcodes");
    TitleText0("Unique", "Cell-Barcodes");
  }

  lemma CatalogueTitle1()
    ensures Title(MetricNames[1]) == "Fragment Threshold For Passing Cells"
  {
    var a, b, c, d, e := "Fragment", "threshold", "for", "passing", "cells";
    CatalogueName1(a, b, c, d, e);
    TitleOfName1(MetricNames[1], a, b, c, d, e);
    TitleText1("Fragment", "Threshold", "For", "Passing", "Cells");
  }

  lemma CatalogueTitle2()
    ensures Title(MetricNames[2]) == "Passing Cells"
  {
    TitleOfName2(MetricNames[2], "Passing", "cells");
    TitleText2("Passing", "Cells");
  }

  lemma CatalogueTitle3()
    ensures Title(MetricNames[3]) == "Median Fragments Per Cell"
  {
    TitleOfName3(MetricNames[3], "Median", "fragments", "per", "cell");
    TitleText3("Median", "Fragments", "Per", "Cell");
  }

  lemma CatalogueTitle4()
    ensures Title(MetricNames[4]) == "Median Peaks Per Cell"
  {
    TitleOfName4(MetricNames[4], "Median", "peaks", "per", "cell");
    TitleText4("Median", "Peaks", "Per", "Cell");
  }

  lemma CatalogueTitle5()
    ensures Title(MetricNames[5]) == "Total Peaks Detected"
  {
    TitleOfName5(MetricNames[5], "Total", "peaks", "detected");
    TitleText5("Total", "Peaks", "Detected");
  }

  /** The display titles of the catalogue, as the rule derives them. */
  lemma CatalogueTitles()
    ensures Metrics()[0].title == "Unique Cell-Barcodes"
    ensures Metrics()[1].title == "Fragment Threshold For Passing Cells"
    ensures Metrics()[2].title == "Passing Cells"
    ensures Metrics()[3].title == "Median Fragments Per Cell"
    ensures Metrics()[4].title == "Median Peaks Per Cell"
    ensures Metrics()[5].title == "Total Peaks Detected"
  {
    CatalogueTitle0();
    CatalogueTitle1();
    CatalogueTitle2();
    CatalogueTitle3();
    CatalogueTitle4();
    CatalogueTitle5();
  }

  /** The example of the title rule: "Unique cell-barcodes" is displayed as "Unique Cell-Barcodes". */
  lemma UniqueCellBarcodesTitle()
    ensures Title("Unique cell-barcodes") == "Unique Cell-Barcodes"
  {
    CatalogueTitle0();
  }
}
