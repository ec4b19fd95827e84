/** The clean-up applied after comments are stripped: the text is split
    into lines, trailing whitespace is removed from each, a blank line that
    follows a blank line is dropped, and the lines are joined again with a
    single newline between them and none at the end. */
module Lines {
  import opened Common

  type Line = seq<char>

  // ---------------------------------------------------------------------
  // Trailing whitespace
  // ---------------------------------------------------------------------

  /** The ASCII characters that count as whitespace when a line's end is
      trimmed: tab, line feed, vertical tab, form feed, carriage return,
      the four information separators and space. */
  predicate IsSpace(c: char)
  {
    || c == ' ' || c == '\t' || c == '\n' || c == '\U{0B}' || c == '\U{0C}' || c == '\r'
    || c == '\U{1C}' || c == '\U{1D}' || c == '\U{1E}' || c == '\U{1F}'
  }

  /** The line with its trailing whitespace removed: the longest prefix
      that does not end in whitespace, with only whitespace after it. */
  function RStrip(line: Line): (r: Line)
    ensures |r| <= |line| && r == line[..|r|]
    ensures |r| == 0 || !IsSpace(r[|r| - 1])
    ensures forall k :: |r| <= k < |line| ==> IsSpace(line[k])
    decreases |line|
  {
    if |line| > 0 && IsSpace(line[|line| - 1]) then RStrip(line[..|line| - 1]) else line
  }

  /** Trimming a line that ends in whitespace after a non-space gives the
      part before the whitespace: the contract of `RStrip` determines its
      result. */
  lemma {:induction false} RStripOf(a: Line, ws: Line)
    requires |a| == 0 || !IsSpace(a[|a| - 1])
    requires forall k :: 0 <= k < |ws| ==> IsSpace(ws[k])
    ensures RStrip(a + ws) == a
  {
    if |ws| == 0 {
      assert a + ws == a;
    } else {
      var line := a + ws;
      assert line[..|line| - 1] == a + ws[..|ws| - 1];
      RStripOf(a, ws[..|ws| - 1]);
    }
  }

  /** A line followed by spaces or tabs, and no newline, is written out
      as the line alone. */
  lemma TrailingBlanksDropped(line: Line, ws: Line)
    requires |line| > 0 && HasNoNewline(line) && !IsSpace(line[|line| - 1])
    requires forall k :: 0 <= k < |ws| ==> ws[k] == ' ' || ws[k] == '\t'
    ensures Normalize(line + ws) == line
  {
    NoNewlineAppend(line, ws);
    NormalizeOneLine(line + ws);
    RStripOf(line, ws);
  }

  /** Trimming twice is trimming once. */
  lemma RStripIdempotent(line: Line)
    ensures RStrip(RStrip(line)) == RStrip(line)
  {
  }

  // ---------------------------------------------------------------------
  // Splitting into lines and joining them again
  // ---------------------------------------------------------------------

  predicate HasNoNewline(line: Line)
  {
    forall k :: 0 <= k < |line| ==> line[k] != '\n'
  }

  lemma NoNewlineAppend(a: Line, b: Line)
    requires HasNoNewline(a) && HasNoNewline(b)
    ensures HasNoNewline(a + b)
  {
  }

  /** Lines split on newline; a final newline ends the last line rather
      than starting an empty one, and the empty text has no lines. */
  function SplitLines(t: seq<char>): (lines: seq<Line>)
    ensures forall i :: 0 <= i < |lines| ==> HasNoNewline(lines[i])
    decreases |t|
  {
    if |t| == 0 then []
    else
      var k := NextNewline(t, 0);
      if k == |t| then [t] else [t[..k]] + SplitLines(t[k + 1..])
  }

  /** The number of characters in all the lines together. */
  function TotalLength(lines: seq<Line>): nat
  {
    if |lines| == 0 then 0 else |lines[0]| + TotalLength(lines[1..])
  }

  /** The lines with one newline between neighbours and none at the end:
      the first line opens the result, and each line after the first adds
      its characters and one newline. */
  function Join(lines: seq<Line>): (r: seq<char>)
    ensures |lines| == 0 ==> r == []
    ensures |lines| > 0 ==> |r| == TotalLength(lines) + |lines| - 1 && r[..|lines[0]|] == lines[0]
  {
    if |lines| == 0 then []
    else if |lines| == 1 then lines[0]
    else lines[0] + "\n" + Join(lines[1..])
  }

  /** The final newline of `t`, if it has one. */
  function Terminator(t: seq<char>): seq<char>
  {
    if |t| > 0 && t[|t| - 1] == '\n' then "\n" else []
  }

  /** Joining the split lines gives the text back, less a final newline. */
  lemma {:induction false} JoinSplitLines(t: seq<char>)
    ensures Join(SplitLines(t)) + Terminator(t) == t
    decreases |t|
  {
    if |t| > 0 {
      var k := NextNewline(t, 0);
      if k == |t| {
        assert SplitLines(t) == [t];
      } else {
        var head, rest := t[..k], t[k + 1..];
        FirstLineSplit(t, k);
        if |rest| > 0 {
          JoinSplitLines(rest);
          JoinCons(head, SplitLines(rest), Terminator(rest));
        }
      }
    }
  }

  // The text up to the first newline is the first line; the rest is split on.
  lemma FirstLineSplit(t: seq<char>, k: nat)
    requires k < |t| && k == NextNewline(t, 0)
    ensures t == t[..k] + "\n" + t[k + 1..]
    ensures SplitLines(t) == [t[..k]] + SplitLines(t[k + 1..])
    ensures |t[k + 1..]| == 0 ==> SplitLines(t) == [t[..k]] && Terminator(t) == "\n"
    ensures |t[k + 1..]| > 0 ==> |SplitLines(t[k + 1..])| > 0 && Terminator(t) == Terminator(t[k + 1..])
  {
  }

  // Joining one more line in front puts a newline before the rest.
  lemma JoinCons(head: Line, ls: seq<Line>, term: seq<char>)
    requires |ls| > 0
    ensures Join([head] + ls) + term == head + "\n" + (Join(ls) + term)
  {
    assert ([head] + ls)[1..] == ls;
  }

  /** Splitting joined lines gives the lines back, provided none holds a
      newline and the last one is not empty. */
  lemma {:induction false} SplitJoin(lines: seq<Line>)
    requires forall i :: 0 <= i < |lines| ==> HasNoNewline(lines[i])
    requires |lines| == 0 || |lines[|lines| - 1]| > 0
    ensures SplitLines(Join(lines)) == lines
    decreases |lines|
  {
    if |lines| == 1 {
      var t := lines[0];
      assert NextNewline(t, 0) == |t|;
    } else if |lines| > 1 {
      var rest := lines[1..];
      JoinNonEmpty(rest);
      SplitJoin(rest);
      assert lines == [lines[0]] + rest;
      SplitJoinStep(lines[0], rest);
    }
  }

  // One more newline-free line in front of lines that split back.
  lemma SplitJoinStep(head: Line, rest: seq<Line>)
    requires HasNoNewline(head) && |rest| > 0 && |Join(rest)| > 0
    requires SplitLines(Join(rest)) == rest
    ensures SplitLines(Join([head] + rest)) == [head] + rest
  {
    var t := Join([head] + rest);
    assert ([head] + rest)[1..] == rest;
    assert t == head + "\n" + Join(rest);
    FirstNewlineAt(t, head, Join(rest));
  }

  // A newline-free line, a newline, and the rest: the first newline is
  // the one after the line.
  lemma FirstNewlineAt(t: seq<char>, a: Line, rest: seq<char>)
    requires HasNoNewline(a) && t == a + "\n" + rest
    ensures NextNewline(t, 0) == |a| && t[..|a|] == a && t[|a| + 1..] == rest
  {
    assert t[|a|] == '\n';
    assert forall m :: 0 <= m < |a| ==> t[m] == a[m];
  }

  lemma {:induction false} JoinNonEmpty(lines: seq<Line>)
    requires |lines| > 0 && |lines[|lines| - 1]| > 0
    ensures |Join(lines)| > 0
    decreases |lines|
  {
    if |lines| > 1 {
      JoinNonEmpty(lines[1..]);
    }
  }

  // ---------------------------------------------------------------------
  // Collapsing runs of blank lines
  // ---------------------------------------------------------------------

  /** Line `i` is dropped: it is empty and so was the line before it. */
  predicate Dropped(lines: seq<Line>, i: nat)
    requires i < |lines|
  {
    lines[i] == [] && i > 0 && lines[i - 1] == []
  }

  /** The first `n` lines with every dropped line left out. */
  function CollapsePrefix(lines: seq<Line>, n: nat): (r: seq<Line>)
    requires n <= |lines|
  {
    if n == 0 then []
    else CollapsePrefix(lines, n - 1) + (if Dropped(lines, n - 1) then [] else [lines[n - 1]])
  }

  function Collapse(lines: seq<Line>): seq<Line>
  {
    CollapsePrefix(lines, |lines|)
  }

  /** The clean-up loop as written: a single flag records whether the
      previous line was empty, and an empty line is skipped while it is set. */
  method CollapseBlankLines(lines: seq<Line>) returns (finalLines: seq<Line>)
    ensures finalLines == Collapse(lines)
  {
    finalLines := [];
    var lastEmpty := false;
    var i := 0;
    while i < |lines|
      invariant 0 <= i <= |lines|
      invariant finalLines == CollapsePrefix(lines, i)
      invariant lastEmpty <==> (i > 0 && lines[i - 1] == [])
    {
      var line := lines[i];
      if line == [] {
        if !lastEmpty {
          finalLines := finalLines + [line];
          lastEmpty := true;
        }
      } else {
        finalLines := finalLines + [line];
        lastEmpty := false;
      }
      i := i + 1;
    }
  }

  predicate NoAdjacentBlanks(lines: seq<Line>)
  {
    forall i :: 0 < i < |lines| ==> lines[i - 1] != [] || lines[i] != []
  }

  /** After collapsing, the last kept line equals the last input line (a
      dropped line is empty and follows an empty line). */
  lemma {:induction false} CollapseLast(lines: seq<Line>, n: nat)
    requires 0 < n <= |lines|
    ensures |CollapsePrefix(lines, n)| > 0
    ensures CollapsePrefix(lines, n)[|CollapsePrefix(lines, n)| - 1] == lines[n - 1]
  {
    if Dropped(lines, n - 1) {
      CollapseLast(lines, n - 1);
    }
  }

  /** The collapsed lines never hold two empty lines in a row. */
  lemma {:induction false} CollapseNoAdjacentBlanks(lines: seq<Line>, n: nat)
    requires n <= |lines|
    ensures NoAdjacentBlanks(CollapsePrefix(lines, n))
  {
    if n > 0 {
      CollapseNoAdjacentBlanks(lines, n - 1);
      if !Dropped(lines, n - 1) && n > 1 {
        CollapseLast(lines, n - 1);
      }
    }
  }

  /** The lines that are not empty. */
  function NonBlank(lines: seq<Line>): seq<Line>
  {
    if |lines| == 0 then []
    else NonBlank(lines[..|lines| - 1]) + (if lines[|lines| - 1] == [] then [] else [lines[|lines| - 1]])
  }

  /** Collapsing keeps every non-empty line, in order. */
  lemma {:induction false} CollapseKeepsNonBlank(lines: seq<Line>, n: nat)
    requires n <= |lines|
    ensures NonBlank(CollapsePrefix(lines, n)) == NonBlank(lines[..n])
  {
    if n > 0 {
      CollapseKeepsNonBlank(lines, n - 1);
      var c := CollapsePrefix(lines, n - 1);
      assert lines[..n][..n - 1] == lines[..n - 1];
      if !Dropped(lines, n - 1) {
        assert (c + [lines[n - 1]])[..|c|] == c;
      } else {
        assert c + [] == c;
      }
    }
  }

  /** A leading empty line is kept. */
  lemma LeadingBlankKept(lines: seq<Line>)
    requires |lines| > 0 && lines[0] == []
    ensures |Collapse(lines)| > 0 && Collapse(lines)[0] == []
  {
    CollapseFirst(lines, |lines|);
  }

  lemma {:induction false} CollapseFirst(lines: seq<Line>, n: nat)
    requires 0 < n <= |lines|
    ensures |CollapsePrefix(lines, n)| > 0 && CollapsePrefix(lines, n)[0] == lines[0]
  {
    if n > 1 {
      CollapseFirst(lines, n - 1);
    }
  }

  /** Lines with no two empty lines in a row are left as they are. */
  lemma {:induction false} CollapseIdentity(lines: seq<Line>, n: nat)
    requires n <= |lines| && NoAdjacentBlanks(lines)
    ensures CollapsePrefix(lines, n) == lines[..n]
  {
    if n > 0 {
      CollapseIdentity(lines, n - 1);
      assert lines[..n] == lines[..n - 1] + [lines[n - 1]];
    }
  }

  // ---------------------------------------------------------------------
  // The whole normaliser
  // ---------------------------------------------------------------------

  function RStripAll(lines: seq<Line>): (r: seq<Line>)
  {
    seq(|lines|, i requires 0 <= i < |lines| => RStrip(lines[i]))
  }

  /** The lines the normaliser writes out. */
  function NormalizedLines(t: seq<char>): seq<Line>
  {
    Collapse(RStripAll(SplitLines(t)))
  }

  /** The normalised text is never longer than the text: trimming and
      collapsing only remove characters, and joining puts back at most the
      newlines that splitting took out. */
  function Normalize(t: seq<char>): (r: seq<char>)
    ensures |r| <= |t|
  {
    NormalizeShrinks(t);
    Join(NormalizedLines(t))
  }

  lemma NormalizeShrinks(t: seq<char>)
    ensures |Join(NormalizedLines(t))| <= |t|
  {
    var split := SplitLines(t);
    var trimmed := RStripAll(split);
    JoinSplitLines(t);
    if |split| > 0 {
      TotalLengthPointwise(trimmed, split);
      CollapseShrinks(trimmed, |trimmed|);
      CollapseLast(trimmed, |trimmed|);
      assert trimmed[..|trimmed|] == trimmed;
    }
  }

  lemma {:induction false} TotalLengthPointwise(a: seq<Line>, b: seq<Line>)
    requires |a| == |b| && forall i :: 0 <= i < |a| ==> |a[i]| <= |b[i]|
    ensures TotalLength(a) <= TotalLength(b)
    decreases |a|
  {
    if |a| > 0 {
      TotalLengthPointwise(a[1..], b[1..]);
    }
  }

  lemma {:induction false} TotalLengthAppend(a: seq<Line>, b: seq<Line>)
    ensures TotalLength(a + b) == TotalLength(a) + TotalLength(b)
    decreases |a|
  {
    if |a| == 0 {
      assert a + b == b;
    } else {
      assert (a + b)[1..] == a[1..] + b;
      TotalLengthAppend(a[1..], b);
    }
  }

  // Collapsing keeps at most as many lines, and characters, as it reads.
  lemma {:induction false} CollapseShrinks(lines: seq<Line>, n: nat)
    requires n <= |lines|
    ensures |CollapsePrefix(lines, n)| <= n
    ensures TotalLength(CollapsePrefix(lines, n)) <= TotalLength(lines[..n])
  {
    if n > 0 {
      CollapseShrinks(lines, n - 1);
      var kept := if Dropped(lines, n - 1) then [] else [lines[n - 1]];
      TotalLengthAppend(CollapsePrefix(lines, n - 1), kept);
      assert lines[..n] == lines[..n - 1] + [lines[n - 1]];
      TotalLengthAppend(lines[..n - 1], [lines[n - 1]]);
    }
  }

  /** A line as the normaliser writes it: no newline, no trailing whitespace. */
  predicate CleanLine(line: Line)
  {
    HasNoNewline(line) && (|line| == 0 || !IsSpace(line[|line| - 1]))
  }

  /** Collapsing only ever drops lines: every kept line is one of the
      input lines, so any property of every input line holds of every
      output line. */
  lemma {:induction false} CollapseOnlyDrops(lines: seq<Line>, n: nat)
    requires n <= |lines|
    ensures forall i :: 0 <= i < |CollapsePrefix(lines, n)| ==>
              exists j :: 0 <= j < n && CollapsePrefix(lines, n)[i] == lines[j]
  {
    if n > 0 {
      CollapseOnlyDrops(lines, n - 1);
      var prev := CollapsePrefix(lines, n - 1);
      var cur := CollapsePrefix(lines, n);
      forall i | 0 <= i < |cur|
        ensures exists j :: 0 <= j < n && cur[i] == lines[j]
      {
        if i < |prev| {
          assert cur[i] == prev[i];
          var j :| 0 <= j < n - 1 && prev[i] == lines[j];
          assert 0 <= j < n && cur[i] == lines[j];
        } else {
          assert 0 <= n - 1 < n && cur[i] == lines[n - 1];
        }
      }
    } else {
      assert CollapsePrefix(lines, n) == [];
    }
  }

  /** Every written line is free of newlines and of trailing whitespace, and
      no two written lines in a row are empty. */
  lemma NormalizedLinesShape(t: seq<char>)
    ensures forall i :: 0 <= i < |NormalizedLines(t)| ==> CleanLine(NormalizedLines(t)[i])
    ensures NoAdjacentBlanks(NormalizedLines(t))
  {
    var split := SplitLines(t);
    var ls := RStripAll(split);
    forall i | 0 <= i < |ls|
      ensures CleanLine(ls[i])
    {
      assert HasNoNewline(split[i]);
    }
    CollapseNoAdjacentBlanks(ls, |ls|);
    CollapseOnlyDrops(ls, |ls|);
    var out := CollapsePrefix(ls, |ls|);
    forall i | 0 <= i < |out|
      ensures CleanLine(out[i])
    {
      var j :| 0 <= j < |ls| && out[i] == ls[j];
    }
  }

  /** Normalising normalised text changes nothing, unless the last written
      line is empty: then its newline is read back as a line terminator and
      the empty line disappears. */
  lemma NormalizeIdempotent(t: seq<char>)
    requires |NormalizedLines(t)| == 0 || |NormalizedLines(t)[|NormalizedLines(t)| - 1]| > 0
    ensures Normalize(Normalize(t)) == Normalize(t)
  {
    var ls := NormalizedLines(t);
    NormalizedLinesShape(t);
    SplitJoin(ls);
    CleanLinesUnstripped(ls);
    CollapseIdentity(ls, |ls|);
    assert ls[..|ls|] == ls;
  }

  /** Lines already free of trailing whitespace are left as they are. */
  lemma CleanLinesUnstripped(ls: seq<Line>)
    requires forall i :: 0 <= i < |ls| ==> CleanLine(ls[i])
    ensures RStripAll(ls) == ls
  {
    var stripped := RStripAll(ls);
    forall i | 0 <= i < |ls|
      ensures stripped[i] == ls[i]
    {
      assert CleanLine(ls[i]);
    }
  }

  /** A single line, with or without a final newline, is written out less
      its trailing whitespace. */
  lemma NormalizeOneLine(line: Line)
    requires |line| > 0 && HasNoNewline(line)
    ensures Normalize(line) == RStrip(line)
    ensures Normalize(line + "\n") == RStrip(line)
  {
    assert NextNewline(line, 0) == |line|;
    assert SplitLines(line) == [line];
    OneLineNormalized(line);
    OneLineTerminated(line);
  }

  lemma OneLineTerminated(line: Line)
    requires |line| > 0 && HasNoNewline(line)
    ensures SplitLines(line + "\n") == [line]
  {
    var t := line + "\n";
    assert forall m :: 0 <= m < |line| ==> t[m] == line[m];
    assert t[|line|] == '\n';
    assert NextNewline(t, 0) == |line|;
    assert t[..|line|] == line && t[|line| + 1..] == [];
    assert SplitLines(t) == [line] + SplitLines([]);
  }

  lemma OneLineNormalized(line: Line)
    ensures Join(Collapse(RStripAll([line]))) == RStrip(line)
  {
    assert RStripAll([line]) == [RStrip(line)];
    assert CollapsePrefix([RStrip(line)], 0) == [];
  }

  /** A text whose last line is blank is not a fixed point: a line followed
      by two newlines becomes the line and one newline, which becomes the
      line alone. */
  lemma NormalizeTrailingBlank(line: Line)
    requires |line| > 0 && HasNoNewline(line) && !IsSpace(line[|line| - 1])
    ensures Normalize(line + "\n\n") == line + "\n"
    ensures Normalize(line + "\n") == line
  {
    var t := line + "\n\n";
    assert forall m :: 0 <= m < |line| ==> t[m] == line[m];
    assert t[|line|] == '\n';
    assert NextNewline(t, 0) == |line|;
    assert t[..|line|] == line && t[|line| + 1..] == "\n";
    assert NextNewline("\n", 0) == 0;
    assert "\n"[..0] == [] && "\n"[1..] == [];
    assert SplitLines("\n") == [[]] + SplitLines([]);
    assert SplitLines(t) == [line, []];
    assert RStrip(line) == line;
    assert RStripAll([line, []]) == [line, []];
    assert CollapsePrefix([line, []], 1) == [line];
    assert Collapse([line, []]) == [line, []];
    assert Join([line, []]) == line + "\n" + [];
    NormalizeOneLine(line);
  }
}
