/** Trimming of a stack trace for the failure report (`short_tb`).

    A trace is split into lines on the newline character; the first line that
    mentions either of the runner's own entry points (`run_test`,
    `run_one_module`) is the last one kept, and an elision marker is appended.
    A trace without such a line is reported unchanged. Strings are sequences
    of Unicode scalar values; a lone UTF-16 surrogate has no counterpart. */
module Traceback {

  const NewLine: char := '\n'

  /** The two names whose frames are hidden from the report. */
  const RunTestMarker: string := "run_test"
  const RunModuleMarker: string := "run_one_module"

  /** Appended after the kept lines of a trimmed trace. */
  const Elision: string := "\n(...)\n"

  /** Position of the first `c` in `s` at or after `i`, or `|s|` when there
      is none. */
  function IndexFrom(s: string, c: char, i: nat): (k: nat)
    requires i <= |s|
    ensures i <= k <= |s|
    ensures k < |s| ==> s[k] == c
    decreases |s| - i
  {
    if i == |s| then i
    else if s[i] == c then i
    else IndexFrom(s, c, i + 1)
  }

  /** Position of the first `c` in `s`, or `|s|` when there is none. */
  function IndexOf(s: string, c: char): (k: nat)
    ensures k <= |s|
    ensures k < |s| ==> s[k] == c
  {
    IndexFrom(s, c, 0)
  }

  /** `s.split("\n")`: the pieces between newlines, never an empty list. */
  function Split(s: string): seq<string>
    decreases |s|
  {
    var k := IndexOf(s, NewLine);
    if k == |s| then [s] else [s[..k]] + Split(s[k + 1..])
  }

  /** `lines.join("\n")`. */
  function Join(lines: seq<string>): string
  {
    if |lines| == 0 then ""
    else if |lines| == 1 then lines[0]
    else lines[0] + [NewLine] + Join(lines[1..])
  }

  /** `pat` occurs in `s` starting at position `k`. */
  predicate OccursAt(s: string, pat: string, k: int)
  {
    0 <= k && k + |pat| <= |s| && s[k..k + |pat|] == pat
  }

  /** `s.includes(pat)`: `pat` starts at some position of `s`. */
  predicate Contains(s: string, pat: string)
    decreases |s|
  {
    if |s| < |pat| then false
    else s[..|pat|] == pat || Contains(s[1..], pat)
  }

  /** The test applied to each line by `findIndex`. */
  predicate IsMarkerLine(line: string)
  {
    Contains(line, RunTestMarker) || Contains(line, RunModuleMarker)
  }

  /** One of the two names starts at position `k` of the whole trace. */
  predicate MarkerAt(s: string, k: int)
  {
    OccursAt(s, RunTestMarker, k) || OccursAt(s, RunModuleMarker, k)
  }

  /** `lines.findIndex(IsMarkerLine)`: the first marker line, or -1. */
  function FindMarkerLine(lines: seq<string>): (i: int)
    ensures -1 <= i < |lines|
    ensures 0 <= i ==> IsMarkerLine(lines[i])
  {
    if |lines| == 0 then -1
    else if IsMarkerLine(lines[0]) then 0
    else
      var i := FindMarkerLine(lines[1..]);
      if i == -1 then -1 else i + 1
  }

  /** `findIndex` returns -1 exactly when no line is a marker line, and
      otherwise no line before the one it returns is a marker line. */
  lemma {:induction false} FindMarkerLineFirst(lines: seq<string>)
    ensures FindMarkerLine(lines) == -1 <==> forall j :: 0 <= j < |lines| ==> !IsMarkerLine(lines[j])
    ensures forall j :: 0 <= j < FindMarkerLine(lines) ==> !IsMarkerLine(lines[j])
  {
    if |lines| > 0 && !IsMarkerLine(lines[0]) {
      FindMarkerLineFirst(lines[1..]);
      assert forall j :: 1 <= j < |lines| ==> lines[j] == lines[1..][j - 1];
    }
  }

  /** `short_tb(tb)`. */
  function ShortTb(tb: string): string
  {
    var lines := Split(tb);
    var i := FindMarkerLine(lines);
    if i == -1 then tb else Join(lines[..i + 1]) + Elision
  }

  // ---------------------------------------------------------------------
  // Split and Join are inverse to each other

  /** `IndexFrom` finds the first `c` from `i` on: none comes before it. */
  lemma {:induction false} IndexFromFirst(s: string, c: char, i: nat)
    requires i <= |s|
    ensures forall j :: i <= j < IndexFrom(s, c, i) ==> s[j] != c
    decreases |s| - i
  {
    if i < |s| && s[i] != c {
      IndexFromFirst(s, c, i + 1);
    }
  }

  /** `IndexOf` finds the first `c`: none comes before it. */
  lemma IndexOfFirst(s: string, c: char)
    ensures forall j :: 0 <= j < IndexOf(s, c) ==> s[j] != c
  {
    IndexFromFirst(s, c, 0);
  }

  /** A position from `i` on holding `c`, with no `c` between `i` and it, is
      the one `IndexFrom` finds; so is the end of a string without `c`. */
  lemma {:induction false} IndexFromAt(s: string, c: char, i: nat, k: nat)
    requires i <= k <= |s| && (k < |s| ==> s[k] == c)
    requires forall j :: i <= j < k ==> s[j] != c
    ensures IndexFrom(s, c, i) == k
    decreases |s| - i
  {
    if i < k {
      IndexFromAt(s, c, i + 1, k);
    }
  }

  /** A position holding `c` with no `c` before it is the one `IndexOf`
      finds; so is the end of a string without `c`. */
  lemma IndexOfAt(s: string, c: char, k: nat)
    requires k <= |s| && (k < |s| ==> s[k] == c)
    requires forall j :: 0 <= j < k ==> s[j] != c
    ensures IndexOf(s, c) == k
  {
    IndexFromAt(s, c, 0, k);
  }

  /** `split` yields at least one piece, and no piece holds a newline. */
  lemma {:induction false} SplitLines(s: string)
    ensures |Split(s)| >= 1
    ensures forall j :: 0 <= j < |Split(s)| ==> NewLine !in Split(s)[j]
    decreases |s|
  {
    var k := IndexOf(s, NewLine);
    IndexOfFirst(s, NewLine);
    assert NewLine !in s[..k] by {
      forall j | 0 <= j < k ensures s[..k][j] != NewLine { }
    }
    if k < |s| {
      SplitLines(s[k + 1..]);
      var lines := Split(s);
      forall j | 0 <= j < |lines| ensures NewLine !in lines[j] {
        if j > 0 {
          assert lines[j] == Split(s[k + 1..])[j - 1];
        }
      }
    }
  }

  lemma {:induction false} JoinSplit(s: string)
    ensures Join(Split(s)) == s
    decreases |s|
  {
    var k := IndexOf(s, NewLine);
    if k < |s| {
      JoinSplit(s[k + 1..]);
      assert Split(s) == [s[..k]] + Split(s[k + 1..]);
      assert s == s[..k] + [NewLine] + s[k + 1..];
    }
  }

  lemma {:induction false} SplitJoin(lines: seq<string>)
    requires |lines| >= 1
    requires forall j :: 0 <= j < |lines| ==> NewLine !in lines[j]
    ensures Split(Join(lines)) == lines
  {
    if |lines| > 1 {
      var s := Join(lines);
      var l := lines[0];
      assert s == l + [NewLine] + Join(lines[1..]);
      assert s[|l|] == NewLine;
      forall j | 0 <= j < |l| ensures s[j] != NewLine {
        assert s[j] == l[j];
      }
      IndexOfAt(s, NewLine, |l|);
      assert s[..|l|] == l;
      assert s[|l| + 1..] == Join(lines[1..]);
      SplitJoin(lines[1..]);
      assert lines == [l] + lines[1..];
    } else {
      IndexOfAt(lines[0], NewLine, |lines[0]|);
    }
  }

  /** Joining the first `n` lines gives a prefix of the joined whole. */
  lemma {:induction false} JoinTake(lines: seq<string>, n: nat)
    requires 1 <= n <= |lines|
    ensures Join(lines[..n]) <= Join(lines)
    ensures n < |lines| ==> Join(lines[..n]) + [NewLine] <= Join(lines)
  {
    if n < |lines| {
      var tail := Join(lines[1..]);
      assert Join(lines) == lines[0] + [NewLine] + tail;
      if n == 1 {
        assert lines[..1] == [lines[0]];
      } else {
        JoinTake(lines[1..], n - 1);
        assert lines[..n][1..] == lines[1..][..n - 1];
        assert Join(lines[..n]) == lines[0] + [NewLine] + Join(lines[1..][..n - 1]);
      }
    } else {
      assert lines[..n] == lines;
    }
  }

  // ---------------------------------------------------------------------
  // What the trimmed trace keeps

  /** Stated on the lines of the trace: the report is the trace unchanged
      when no line is a marker line, and otherwise the lines up to and
      including the first marker line, followed by the elision marker. */
  lemma ShortTbByLines(tb: string)
    ensures (forall j :: 0 <= j < |Split(tb)| ==> !IsMarkerLine(Split(tb)[j])) ==> ShortTb(tb) == tb
    ensures forall i :: 0 <= i < |Split(tb)| && IsMarkerLine(Split(tb)[i]) &&
                        (forall j :: 0 <= j < i ==> !IsMarkerLine(Split(tb)[j])) ==>
                        ShortTb(tb) == Join(Split(tb)[..i + 1]) + Elision
  {
    if forall j :: 0 <= j < |Split(tb)| ==> !IsMarkerLine(Split(tb)[j]) {
      ShortTbNotFound(tb);
    }
    forall i | 0 <= i < |Split(tb)| && IsMarkerLine(Split(tb)[i]) &&
               (forall j :: 0 <= j < i ==> !IsMarkerLine(Split(tb)[j]))
      ensures ShortTb(tb) == Join(Split(tb)[..i + 1]) + Elision
    {
      FirstMarkerLine(Split(tb), i);
      ShortTbFound(tb, i);
    }
  }

  /** `short_tb` when `findIndex` finds no marker line. */
  lemma ShortTbNotFound(tb: string)
    requires forall j :: 0 <= j < |Split(tb)| ==> !IsMarkerLine(Split(tb)[j])
    ensures ShortTb(tb) == tb
  {
    assert FindMarkerLine(Split(tb)) == -1;
  }

  /** `short_tb` when `findIndex` finds a marker line. */
  lemma ShortTbFound(tb: string, i: nat)
    requires i == FindMarkerLine(Split(tb))
    ensures ShortTb(tb) == Join(Split(tb)[..i + 1]) + Elision
  {
  }

  /** The first marker line is the one `findIndex` returns. */
  lemma FirstMarkerLine(lines: seq<string>, i: nat)
    requires i < |lines| && IsMarkerLine(lines[i])
    requires forall j :: 0 <= j < i ==> !IsMarkerLine(lines[j])
    ensures FindMarkerLine(lines) == i
  {
    var f := FindMarkerLine(lines);
    FindMarkerLineFirst(lines);
    assert f != -1;
    assert !(f < i) && !(i < f);
  }

  /** With the first marker line at `i`, the report is a prefix of the trace
      followed by the elision marker, and that prefix is made of exactly the
      lines `0..i`: nothing after the marker line survives. */
  lemma ShortTbKeepsFirstLines(tb: string, i: nat)
    requires i < |Split(tb)| && IsMarkerLine(Split(tb)[i])
    requires forall j :: 0 <= j < i ==> !IsMarkerLine(Split(tb)[j])
    ensures ShortTb(tb) == Join(Split(tb)[..i + 1]) + Elision
    ensures Join(Split(tb)[..i + 1]) <= tb
    ensures Split(Join(Split(tb)[..i + 1])) == Split(tb)[..i + 1]
  {
    FirstMarkerLine(Split(tb), i);
    ShortTbFound(tb, i);
    FirstLinesOf(tb, i + 1);
  }

  /** The first `n` lines of a trace, joined, form a prefix of it and split
      back into those lines. */
  lemma FirstLinesOf(tb: string, n: nat)
    requires 1 <= n <= |Split(tb)|
    ensures Join(Split(tb)[..n]) <= tb
    ensures Split(Join(Split(tb)[..n])) == Split(tb)[..n]
  {
    JoinSplit(tb);
    SplitLines(tb);
    TakeLines(Split(tb), n);
  }

  /** The first `n` of a list of lines without newlines, joined, form a
      prefix of the whole joined list and split back into those lines. */
  lemma TakeLines(lines: seq<string>, n: nat)
    requires 1 <= n <= |lines|
    requires forall j :: 0 <= j < |lines| ==> NewLine !in lines[j]
    ensures Join(lines[..n]) <= Join(lines)
    ensures Split(Join(lines[..n])) == lines[..n]
  {
    JoinTake(lines, n);
    assert forall j :: 0 <= j < n ==> lines[..n][j] == lines[j];
    SplitJoin(lines[..n]);
  }

  // ---------------------------------------------------------------------
  // The same behaviour, stated on the characters of the trace

  /** A name cannot span a newline, so an occurrence in the trace that starts
      no later than the first newline lies within the first line. */
  lemma OccurrenceInFirstLine(s: string, pat: string, k: nat, m: nat)
    requires k == IndexOf(s, NewLine)
    requires NewLine !in pat && OccursAt(s, pat, m)
    ensures m <= k ==> OccursAt(s[..k], pat, m)
  {
    if m <= k {
      forall j | m <= j < m + |pat| ensures s[j] != NewLine {
        assert s[j] == pat[j - m];
      }
      assert m + |pat| <= k;
      assert s[..k][m..m + |pat|] == s[m..m + |pat|];
    }
  }

  /** An occurrence in the part after the first newline is one in the trace. */
  lemma OccurrenceAfterFirstLine(s: string, pat: string, k: nat, m: nat)
    requires k < |s|
    ensures OccursAt(s[k + 1..], pat, m) <==> OccursAt(s, pat, m + k + 1)
  {
    if 0 <= m && m + |pat| <= |s| - k - 1 {
      assert s[k + 1..][m..m + |pat|] == s[m + k + 1..m + k + 1 + |pat|];
    }
  }

  /** `Contains` holds exactly when the pattern occurs at some position. */
  lemma {:induction false} ContainsOccurs(s: string, pat: string)
    ensures Contains(s, pat) <==> exists k | 0 <= k <= |s| - |pat| :: OccursAt(s, pat, k)
    decreases |s|
  {
    if |s| >= |pat| && s[..|pat|] == pat {
      assert OccursAt(s, pat, 0);
    } else if |s| >= |pat| {
      ContainsOccurs(s[1..], pat);
      if Contains(s[1..], pat) {
        var k :| 0 <= k <= |s| - 1 - |pat| && OccursAt(s[1..], pat, k);
        OccurrenceAfterFirstLine(s, pat, 0, k);
        assert OccursAt(s, pat, k + 1);
      }
      if k :| 0 <= k <= |s| - |pat| && OccursAt(s, pat, k) {
        assert k != 0;
        OccurrenceAfterFirstLine(s, pat, 0, k - 1);
        assert OccursAt(s[1..], pat, k - 1);
      }
    }
  }

  /** An occurrence within a prefix of the trace is one in the trace. */
  lemma OccurrenceInPrefix(s: string, pat: string, k: nat, m: int)
    requires k <= |s| && OccursAt(s[..k], pat, m)
    ensures OccursAt(s, pat, m)
  {
    assert s[..k][m..m + |pat|] == s[m..m + |pat|];
  }

  /** A trace that mentions neither marker anywhere has no marker line. */
  lemma {:induction false} NoMentionNoMarkerLine(tb: string)
    requires forall k :: 0 <= k <= |tb| ==> !MarkerAt(tb, k)
    ensures forall j :: 0 <= j < |Split(tb)| ==> !IsMarkerLine(Split(tb)[j])
    decreases |tb|
  {
    var k := IndexOf(tb, NewLine);
    if k == |tb| {
      assert tb[..k] == tb;
      NoMarkerInLine(tb, k);
    } else {
      var rest := tb[k + 1..];
      NoMarkerInLine(tb, k);
      forall m | 0 <= m <= |rest| ensures !MarkerAt(rest, m) {
        OccurrenceAfterFirstLine(tb, RunTestMarker, k, m);
        OccurrenceAfterFirstLine(tb, RunModuleMarker, k, m);
        assert !MarkerAt(tb, m + k + 1);
      }
      NoMentionNoMarkerLine(rest);
      assert Split(tb) == [tb[..k]] + Split(rest);
    }
  }

  lemma NoMarkerInLine(tb: string, k: nat)
    requires k <= |tb|
    requires forall m :: 0 <= m <= |tb| ==> !MarkerAt(tb, m)
    ensures !IsMarkerLine(tb[..k])
  {
    ContainsOccurs(tb[..k], RunTestMarker);
    ContainsOccurs(tb[..k], RunModuleMarker);
    if Contains(tb[..k], RunTestMarker) {
      var p :| 0 <= p <= k - |RunTestMarker| && OccursAt(tb[..k], RunTestMarker, p);
      OccurrenceInPrefix(tb, RunTestMarker, k, p);
      assert MarkerAt(tb, p);
    }
    if Contains(tb[..k], RunModuleMarker) {
      var p :| 0 <= p <= k - |RunModuleMarker| && OccursAt(tb[..k], RunModuleMarker, p);
      OccurrenceInPrefix(tb, RunModuleMarker, k, p);
      assert MarkerAt(tb, p);
    }
  }

  /** A trace in which neither name occurs anywhere is reported unchanged. */
  lemma ShortTbWithoutMarker(tb: string)
    requires forall k :: 0 <= k <= |tb| ==> !MarkerAt(tb, k)
    ensures ShortTb(tb) == tb
  {
    NoMentionNoMarkerLine(tb);
    ShortTbByLines(tb);
  }

  /** `m` is the leftmost position of either name, and `e` ends the line that
      holds it (the next newline, or the end of the trace). */
  predicate FirstMarkerLineEnd(tb: string, m: nat, e: nat)
  {
    MarkerAt(tb, m) &&
    (forall k :: 0 <= k < m ==> !MarkerAt(tb, k)) &&
    m <= e <= |tb| &&
    (e == |tb| || tb[e] == NewLine) &&
    (forall k :: m <= k < e ==> tb[k] != NewLine)
  }

  /** When the first line holds a name, it holds the leftmost one, and the
      line that holds the leftmost name ends at the first newline. */
  lemma MarkerInFirstLine(tb: string, k: nat, m: nat, e: nat)
    requires k == IndexOf(tb, NewLine)
    requires FirstMarkerLineEnd(tb, m, e)
    requires IsMarkerLine(tb[..k])
    ensures e == k
  {
    IndexOfFirst(tb, NewLine);
    ContainsOccurs(tb[..k], RunTestMarker);
    ContainsOccurs(tb[..k], RunModuleMarker);
    var p, q :| 0 <= p && OccursAt(tb[..k], q, p) && (q == RunTestMarker || q == RunModuleMarker);
    OccurrenceInPrefix(tb, q, k, p);
    assert MarkerAt(tb, p);
    assert m <= p < k;
    assert e <= k by {
      if k < |tb| {
        assert tb[k] == NewLine;
      }
    }
  }

  /** When the first line holds neither name, the leftmost one lies after the
      first newline, and the rest of the trace meets the same conditions. */
  lemma MarkerAfterFirstLine(tb: string, k: nat, m: nat, e: nat)
    requires k == IndexOf(tb, NewLine)
    requires FirstMarkerLineEnd(tb, m, e)
    requires !IsMarkerLine(tb[..k])
    ensures k < m
    ensures FirstMarkerLineEnd(tb[k + 1..], m - k - 1, e - k - 1)
  {
    FirstMarkerAfterFirstLine(tb, k, m);
    var rest := tb[k + 1..];
    var m', e' := m - k - 1, e - k - 1;
    MarkersAfterFirstLine(tb, k, m');
    forall j | 0 <= j < m' ensures !MarkerAt(rest, j) {
      MarkersAfterFirstLine(tb, k, j);
    }
    forall j | m' <= j < e' ensures rest[j] != NewLine {
      assert rest[j] == tb[j + k + 1];
    }
  }

  /** The leftmost name lies after the first newline when the first line
      holds neither name. */
  lemma FirstMarkerAfterFirstLine(tb: string, k: nat, m: nat)
    requires k == IndexOf(tb, NewLine)
    requires MarkerAt(tb, m)
    requires !IsMarkerLine(tb[..k])
    ensures k < m
  {
    var pat := if OccursAt(tb, RunTestMarker, m) then RunTestMarker else RunModuleMarker;
    OccurrenceInFirstLine(tb, pat, k, m);
    ContainsOccurs(tb[..k], pat);
  }

  /** Marker positions after the first newline are those of the rest. */
  lemma MarkersAfterFirstLine(tb: string, k: nat, j: nat)
    requires k < |tb|
    ensures MarkerAt(tb[k + 1..], j) <==> MarkerAt(tb, j + k + 1)
  {
    OccurrenceAfterFirstLine(tb, RunTestMarker, k, j);
    OccurrenceAfterFirstLine(tb, RunModuleMarker, k, j);
  }

  lemma {:induction false} KeptIsLineOfFirstMarker(tb: string, m: nat, e: nat)
    requires FirstMarkerLineEnd(tb, m, e)
    ensures FindMarkerLine(Split(tb)) >= 0
    ensures Join(Split(tb)[..FindMarkerLine(Split(tb)) + 1]) == tb[..e]
    decreases |tb|, 1
  {
    var k := IndexOf(tb, NewLine);
    if IsMarkerLine(tb[..k]) {
      MarkerInFirstLine(tb, k, m, e);
      KeptFirstLine(tb, k);
    } else {
      KeptLaterLine(tb, k, m, e);
    }
  }

  lemma {:induction false} KeptLaterLine(tb: string, k: nat, m: nat, e: nat)
    requires k == IndexOf(tb, NewLine)
    requires FirstMarkerLineEnd(tb, m, e)
    requires !IsMarkerLine(tb[..k])
    ensures FindMarkerLine(Split(tb)) >= 0
    ensures Join(Split(tb)[..FindMarkerLine(Split(tb)) + 1]) == tb[..e]
    decreases |tb|, 0
  {
    MarkerAfterFirstLine(tb, k, m, e);
    KeptIsLineOfFirstMarker(tb[k + 1..], m - k - 1, e - k - 1);
    SplitCons(tb, k);
    KeptAfterFirstLine(tb, k, Split(tb), Split(tb[k + 1..]), e - k - 1);
  }

  /** A first line that holds a name is the only line kept. */
  lemma KeptFirstLine(tb: string, k: nat)
    requires k == IndexOf(tb, NewLine)
    requires IsMarkerLine(tb[..k])
    ensures FindMarkerLine(Split(tb)) == 0
    ensures Join(Split(tb)[..1]) == tb[..k]
  {
    if k == |tb| {
      assert Split(tb) == [tb];
      assert tb[..k] == tb;
    } else {
      SplitCons(tb, k);
      assert Split(tb)[..1] == [tb[..k]];
    }
  }

  /** Kept lines of the trace from the kept lines after its first line,
      which ends at `k`: `lines` are the lines of the trace and `later` those
      of the text after that newline. */
  lemma KeptAfterFirstLine(tb: string, k: nat, lines: seq<string>, later: seq<string>, e: nat)
    requires k < |tb| && tb[k] == NewLine && lines == [tb[..k]] + later
    requires !IsMarkerLine(tb[..k])
    requires FindMarkerLine(later) >= 0 && e <= |tb| - k - 1
    requires Join(later[..FindMarkerLine(later) + 1]) == tb[k + 1..][..e]
    ensures FindMarkerLine(lines) >= 0
    ensures Join(lines[..FindMarkerLine(lines) + 1]) == tb[..k + 1 + e]
  {
    KeptAfterLine(tb[..k], later, tb[k + 1..], e);
    CutAtNewLine(tb, k, k + 1 + e);
  }

  /** `s.split("\n")` when `s` holds a newline: its first line, then the
      lines of the rest. */
  lemma SplitCons(s: string, k: nat)
    requires k == IndexOf(s, NewLine) && k < |s|
    ensures Split(s) == [s[..k]] + Split(s[k + 1..])
  {
  }

  /** Putting a line that is not a marker line in front of `lines` keeps the
      same marker line, one place later, and the kept text grows by that
      line and a newline. */
  lemma KeptAfterLine(l: string, lines: seq<string>, rest: string, e: nat)
    requires !IsMarkerLine(l) && FindMarkerLine(lines) >= 0
    requires e <= |rest| && Join(lines[..FindMarkerLine(lines) + 1]) == rest[..e]
    ensures FindMarkerLine([l] + lines) >= 0
    ensures Join(([l] + lines)[..FindMarkerLine([l] + lines) + 1]) == l + [NewLine] + rest[..e]
  {
    var i := FindMarkerLine(lines);
    SkipFirstLine(l, lines, i);
    JoinCons(l, lines[..i + 1]);
  }

  lemma CutAtNewLine(s: string, k: nat, e: nat)
    requires k < e <= |s| && s[k] == NewLine
    ensures s[..e] == s[..k] + [NewLine] + s[k + 1..][..e - k - 1]
  {
    assert s[k + 1..][..e - k - 1] == s[k + 1..e];
    assert s[..e] == s[..k] + s[k..e];
    assert s[k..e] == [s[k]] + s[k + 1..e];
  }

  lemma SkipFirstLine(l: string, lines: seq<string>, i: int)
    requires !IsMarkerLine(l) && i == FindMarkerLine(lines) && i >= 0
    ensures FindMarkerLine([l] + lines) == i + 1
    ensures ([l] + lines)[..i + 2] == [l] + lines[..i + 1]
  {
    assert ([l] + lines)[1..] == lines;
  }

  lemma JoinCons(l: string, lines: seq<string>)
    requires |lines| >= 1
    ensures Join([l] + lines) == l + [NewLine] + Join(lines)
  {
    assert ([l] + lines)[1..] == lines;
  }

  /** The report cuts the trace at the end of the line holding the leftmost
      occurrence of either name and appends the elision marker. */
  lemma ShortTbCutsAtFirstMarker(tb: string, m: nat, e: nat)
    requires FirstMarkerLineEnd(tb, m, e)
    ensures ShortTb(tb) == tb[..e] + Elision
  {
    KeptIsLineOfFirstMarker(tb, m, e);
    ShortTbFound(tb, FindMarkerLine(Split(tb)));
  }
}
