/**
 * The Python `str` operations the module relies on: `split(",")`, `" ".join(...)`,
 * `split()` on whitespace and `splitlines()`. Character classes are restricted to ASCII
 * plus the line-boundary characters `splitlines` recognises.
 */
module PyStr {

  /** Number of occurrences of `c` in `s`. */
  function Count(s: string, c: char): nat
  {
    multiset(s)[c]
  }

  /** Index of the first occurrence of `c` in `s`. */
  function IndexOf(s: string, c: char): (i: nat)
    requires c in s
    ensures i < |s| && s[i] == c && c !in s[..i]
  {
    if s[0] == c then 0 else 1 + IndexOf(s[1..], c)
  }

  /** `s.split(c)`: the pieces between occurrences of `c`; never empty. */
  function Split(s: string, c: char): (r: seq<string>)
    ensures |r| == Count(s, c) + 1
    ensures forall i :: 0 <= i < |r| ==> c !in r[i]
    decreases |s|
  {
    if c !in s then
      [s]
    else
      var i := IndexOf(s, c);
      assert s == s[..i] + [c] + s[i + 1..];
      [s[..i]] + Split(s[i + 1..], c)
  }

  /** `sep.join(ts)`. */
  function Join(ts: seq<string>, sep: string): string
  {
    if |ts| == 0 then ""
    else if |ts| == 1 then ts[0]
    else ts[0] + sep + Join(ts[1..], sep)
  }

  /** Splitting a joined sequence of comma-free pieces gives the pieces back. */
  lemma {:induction false} SplitJoin(ts: seq<string>, c: char)
    requires |ts| > 0
    requires forall i :: 0 <= i < |ts| ==> c !in ts[i]
    ensures Split(Join(ts, [c]), c) == ts
  {
    if |ts| > 1 {
      var s := Join(ts, [c]);
      var rest := Join(ts[1..], [c]);
      assert s == ts[0] + [c] + rest;
      assert c in s by { assert s[|ts[0]|] == c; }
      var i := IndexOf(s, c);
      assert i == |ts[0]|;
      assert s[..i] == ts[0];
      assert s[i + 1..] == rest;
      SplitJoin(ts[1..], c);
    }
  }

  /** Joining a first piece in front of at least one more. */
  lemma JoinCons(t: string, ts: seq<string>, sep: string)
    requires |ts| > 0
    ensures Join([t] + ts, sep) == t + sep + Join(ts, sep)
  {
    assert ([t] + ts)[1..] == ts;
  }

  /** `sep.join` of two to five pieces, written out. */
  lemma Join2(a: string, b: string, sep: string)
    ensures Join([a, b], sep) == a + sep + b
  {
    JoinCons(a, [b], sep);
    assert [a] + [b] == [a, b];
  }

  lemma Join3(a: string, b: string, c: string, sep: string)
    ensures Join([a, b, c], sep) == a + sep + b + sep + c
  {
    Join2(b, c, sep);
    JoinCons(a, [b, c], sep);
    assert [a] + [b, c] == [a, b, c];
  }

  lemma Join4(a: string, b: string, c: string, d: string, sep: string)
    ensures Join([a, b, c, d], sep) == a + sep + b + sep + c + sep + d
  {
    Join3(b, c, d, sep);
    JoinCons(a, [b, c, d], sep);
    assert [a] + [b, c, d] == [a, b, c, d];
  }

  lemma Join5(a: string, b: string, c: string, d: string, e: string, sep: string)
    ensures Join([a, b, c, d, e], sep) == a + sep + b + sep + c + sep + d + sep + e
  {
    Join4(b, c, d, e, sep);
    JoinCons(a, [b, c, d, e], sep);
    assert [a] + [b, c, d, e] == [a, b, c, d, e];
  }

  /** Joining the pieces of a split gives the string back. */
  lemma {:induction false} JoinSplit(s: string, c: char)
    ensures Join(Split(s, c), [c]) == s
    decreases |s|
  {
    if c in s {
      var i := IndexOf(s, c);
      var head, tail := s[..i], s[i + 1..];
      var rest := Split(tail, c);
      assert Split(s, c) == [head] + rest;
      JoinSplit(tail, c);
      JoinCons(head, rest, [c]);
      assert s == head + [c] + tail;
    }
  }

  /** ASCII characters for which Python's `str.isspace()` holds. */
  predicate IsSpace(c: char)
  {
    c == ' ' || ('\t' <= c <= '\r') || ('\U{1C}' <= c <= '\U{1F}')
  }

  /** A piece produced by `str.split()`: non-empty, without whitespace. */
  predicate IsToken(t: string)
  {
    |t| > 0 && forall k :: 0 <= k < |t| ==> !IsSpace(t[k])
  }

  /** Length of the maximal whitespace-free prefix of `s`. */
  function TokenLength(s: string): (n: nat)
    ensures n <= |s|
    ensures forall k :: 0 <= k < n ==> !IsSpace(s[k])
    ensures n < |s| ==> IsSpace(s[n])
  {
    if s == [] || IsSpace(s[0]) then 0 else 1 + TokenLength(s[1..])
  }

  /** `s.split()`: the maximal runs of non-whitespace characters, in order. */
  function WsSplit(s: string): (r: seq<string>)
    ensures forall i :: 0 <= i < |r| ==> IsToken(r[i])
    decreases |s|
  {
    if s == [] then []
    else if IsSpace(s[0]) then WsSplit(s[1..])
    else
      var n := TokenLength(s);
      [s[..n]] + WsSplit(s[n..])
  }

  /** Splitting tokens joined by single spaces gives the tokens back. */
  lemma {:induction false} WsSplitJoin(ts: seq<string>)
    requires forall i :: 0 <= i < |ts| ==> IsToken(ts[i])
    ensures WsSplit(Join(ts, " ")) == ts
  {
    if |ts| == 1 {
      var t := ts[0];
      assert TokenLength(t) == |t| by { TokenLengthOfPrefix(t, ""); }
      assert t[..|t|] == t && t[|t|..] == [];
    } else if |ts| > 1 {
      var t := ts[0];
      var rest := Join(ts[1..], " ");
      var s := Join(ts, " ");
      assert s == t + (" " + rest);
      TokenLengthOfPrefix(t, " " + rest);
      assert s[..|t|] == t;
      assert s[|t|..] == " " + rest;
      assert WsSplit(" " + rest) == WsSplit(rest) by { assert (" " + rest)[1..] == rest; }
      WsSplitJoin(ts[1..]);
    }
  }

  /** A token followed by nothing or by whitespace has its own length as token length. */
  lemma {:induction false} TokenLengthOfPrefix(t: string, u: string)
    requires IsToken(t)
    requires u == [] || IsSpace(u[0])
    ensures TokenLength(t + u) == |t|
    decreases |t|
  {
    if |t| > 1 {
      assert (t + u)[1..] == t[1..] + u;
      TokenLengthOfPrefix(t[1..], u);
    } else {
      assert (t + u)[1..] == u;
    }
  }

  /** Line boundaries of `str.splitlines()`. */
  predicate IsLineBreak(c: char)
  {
    c == '\n' || c == '\r' || c == '\U{0B}' || c == '\U{0C}' || ('\U{1C}' <= c <= '\U{1E}')
    || c == '\U{85}' || c == '\U{2028}' || c == '\U{2029}'
  }

  predicate NoLineBreak(s: string)
  {
    forall k :: 0 <= k < |s| ==> !IsLineBreak(s[k])
  }

  /** Length of the maximal prefix of `s` without a line boundary. */
  function LineLength(s: string): (n: nat)
    ensures n <= |s|
    ensures NoLineBreak(s[..n])
    ensures n < |s| ==> IsLineBreak(s[n])
  {
    if s == [] || IsLineBreak(s[0]) then 0
    else
      var n := 1 + LineLength(s[1..]);
      assert s[..n] == [s[0]] + s[1..][..n - 1];
      n
  }

  /** Width of the line boundary at `n`: `\r\n` counts as one boundary. */
  function BreakWidth(s: string, n: nat): nat
    requires n < |s|
  {
    if s[n] == '\r' && n + 1 < |s| && s[n + 1] == '\n' then 2 else 1
  }

  /** `s.splitlines()`: the lines of `s` without their boundaries; no trailing empty line. */
  function SplitLines(s: string): (r: seq<string>)
    ensures forall i :: 0 <= i < |r| ==> NoLineBreak(r[i])
    decreases |s|
  {
    if s == [] then []
    else
      var n := LineLength(s);
      if n == |s| then [s] else [s[..n]] + SplitLines(s[n + BreakWidth(s, n)..])
  }

  /** The text of a file whose lines are `ls`, each ended by `\n`. */
  function Terminated(ls: seq<string>): string
  {
    if ls == [] then "" else ls[0] + "\n" + Terminated(ls[1..])
  }

  /** `splitlines` recovers the lines of a file whose every line ends with `\n`. */
  lemma {:induction false} SplitLinesTerminated(ls: seq<string>)
    requires forall i :: 0 <= i < |ls| ==> NoLineBreak(ls[i])
    ensures SplitLines(Terminated(ls)) == ls
  {
    if ls != [] {
      var l := ls[0];
      var s := Terminated(ls);
      var rest := Terminated(ls[1..]);
      assert s == l + ("\n" + rest);
      LineLengthOfLine(l, "\n" + rest);
      assert LineLength(s) == |l| < |s|;
      assert s[..|l|] == l;
      assert BreakWidth(s, |l|) == 1;
      assert s[|l| + 1..] == rest;
      assert SplitLines(s) == [l] + SplitLines(rest);
      SplitLinesTerminated(ls[1..]);
    }
  }

  /** A line followed by a boundary has its own length as line length. */
  lemma {:induction false} LineLengthOfLine(l: string, u: string)
    requires NoLineBreak(l)
    requires u != [] && IsLineBreak(u[0])
    ensures LineLength(l + u) == |l|
    decreases |l|
  {
    if |l| > 0 {
      assert (l + u)[1..] == l[1..] + u;
      LineLengthOfLine(l[1..], u);
    }
  }
}
