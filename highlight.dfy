/** New-content highlighting of the combined test text
    (`highlightNewTests`, frontend/js/script.js lines 488-520).

    The source builds an HTML string; here the output is a sequence of
    tokens, so that a line which itself contains `</span>` cannot be
    mistaken for a marker. `Render` gives back the source's string. */
module Highlight {
  import opened Strings
  import opened LineDiff

  const OpenTag: string := "<span class=\"highlight-new\">"
  const CloseTag: string := "</span>"

  /** One piece of the highlighted output: the open marker of a run of new
      lines, its close marker, or verbatim text. */
  datatype Token = Open | Close | Text(s: string)

  /** The HTML string the source returns for `ts`. */
  function Render(ts: seq<Token>): string
  {
    if ts == [] then ""
    else
      (match ts[0]
       case Open => OpenTag
       case Close => CloseTag
       case Text(s) => s) + Render(ts[1..])
  }

  /** The text of `ts` with every marker deleted. */
  function Strip(ts: seq<Token>): string
  {
    if ts == [] then ""
    else (if ts[0].Text? then ts[0].s else "") + Strip(ts[1..])
  }

  // ---------------------------------------------------------------------
  // Specification

  /** The marker emitted before a line: an Open when a run of new lines
      starts at it, a Close when a run ended just before it. */
  function Marker(isNew: bool, inNew: bool): seq<Token>
  {
    if isNew && !inNew then [Open]
    else if !isNew && inNew then [Close]
    else []
  }

  /** The tokens the loop appends for `lines`, whose novelty is `flags`,
      starting with the run flag `inNew`, up to and including the final
      close marker. Every line is emitted followed by a newline. */
  function Emit(lines: seq<string>, flags: seq<bool>, inNew: bool): seq<Token>
    requires |flags| == |lines|
  {
    if lines == [] then (if inNew then [Close] else [])
    else Marker(flags[0], inNew) + [Text(lines[0] + "\n")] + Emit(lines[1..], flags[1..], flags[0])
  }

  /** What `highlightNewTests(combinedTests, existingTests)` returns. An
      empty argument returns the combined text untouched. */
  function Highlighted(combinedTests: string, existingTests: string): seq<Token>
  {
    if existingTests == "" || combinedTests == "" then [Text(combinedTests)]
    else
      var lines := Split(combinedTests, '\n');
      Emit(lines, Novelty(lines, Split(existingTests, '\n')), false)
  }

  /** `Emit` from line `i` on, one step unfolded. */
  lemma EmitAt(lines: seq<string>, flags: seq<bool>, i: nat, inNew: bool)
    requires |flags| == |lines| && i < |lines|
    ensures Emit(lines[i..], flags[i..], inNew)
         == Marker(flags[i], inNew) + [Text(lines[i] + "\n")] + Emit(lines[i + 1..], flags[i + 1..], flags[i])
  {
    assert lines[i..][1..] == lines[i + 1..] && flags[i..][1..] == flags[i + 1..];
  }

  // ---------------------------------------------------------------------
  // The source's loop

  /** `highlightNewTests`: splits both texts into lines, then walks the
      combined lines once (`MarkLines`). */
  method HighlightNewTests(combinedTests: string, existingTests: string) returns (html: seq<Token>)
    ensures html == Highlighted(combinedTests, existingTests)
  {
    if existingTests == "" || combinedTests == "" {
      return [Text(combinedTests)];
    }
    var existingLines := Split(existingTests, '\n');
    var combinedLines := Split(combinedTests, '\n');
    html := MarkLines(combinedLines, existingLines);
  }

  /** The loop of `highlightNewTests`: toggles the in-run flag and appends
      markers and lines to the output. */
  method MarkLines(combinedLines: seq<string>, existingLines: seq<string>) returns (html: seq<Token>)
    ensures html == Emit(combinedLines, Novelty(combinedLines, existingLines), false)
  {
    ghost var flags := Novelty(combinedLines, existingLines);
    html := [];
    var inNewSection := false;
    var i := 0;
    while i < |combinedLines|
      invariant 0 <= i <= |combinedLines|
      invariant html == Prefix(combinedLines, flags, i)
      invariant inNewSection == RunState(flags, i)
    {
      var line := combinedLines[i];
      var isNewLine := Trim(line) !in existingLines;
      html, inNewSection := AppendLine(html, inNewSection, isNewLine, line);
      i := i + 1;
    }
    PrefixThenEmit(combinedLines, flags, i);
    assert combinedLines[i..] == [] && flags[i..] == [];
    if inNewSection {
      html := html + [Close];
    }
  }

  /** One iteration of the loop: the marker a change of run calls for,
      then the line. */
  method AppendLine(html: seq<Token>, inNewSection: bool, isNewLine: bool, line: string)
    returns (html': seq<Token>, inNewSection': bool)
    ensures html' == html + Marker(isNewLine, inNewSection) + [Text(line + "\n")]
    ensures inNewSection' == isNewLine
  {
    html', inNewSection' := html, inNewSection;
    if isNewLine && !inNewSection {
      html' := html' + [Open];
      inNewSection' := true;
    } else if !isNewLine && inNewSection {
      html' := html' + [Close];
      inNewSection' := false;
    }
    html' := html' + [Text(line + "\n")];
  }

  /** Whether the loop is inside a run after its first `i` lines. */
  function RunState(flags: seq<bool>, i: nat): bool
    requires i <= |flags|
  {
    i > 0 && flags[i - 1]
  }

  /** The tokens the loop has appended after its first `i` lines. */
  function Prefix(lines: seq<string>, flags: seq<bool>, i: nat): seq<Token>
    requires |flags| == |lines| && i <= |lines|
  {
    if i == 0 then []
    else Prefix(lines, flags, i - 1) + Marker(flags[i - 1], RunState(flags, i - 1)) + [Text(lines[i - 1] + "\n")]
  }

  /** What the loop has appended, followed by what `Emit` produces for the
      remaining lines, is the whole output. */
  lemma {:induction false} PrefixThenEmit(lines: seq<string>, flags: seq<bool>, i: nat)
    requires |flags| == |lines| && i <= |lines|
    ensures Prefix(lines, flags, i) + Emit(lines[i..], flags[i..], RunState(flags, i)) == Emit(lines, flags, false)
  {
    if i == 0 {
      assert lines[0..] == lines && flags[0..] == flags;
    } else {
      PrefixThenEmit(lines, flags, i - 1);
      EmitAt(lines, flags, i - 1, RunState(flags, i - 1));
      var p, m, t := Prefix(lines, flags, i - 1), Marker(flags[i - 1], RunState(flags, i - 1)), [Text(lines[i - 1] + "\n")];
      var e := Emit(lines[i..], flags[i..], RunState(flags, i));
      AppendAssoc(p, m, t, e);
    }
  }

  // ---------------------------------------------------------------------
  // One step of Emit, for each view of the output

  lemma StripStep(isNew: bool, inNew: bool, line: string, rest: seq<Token>)
    ensures Strip(Marker(isNew, inNew) + [Text(line)] + rest) == line + Strip(rest)
  {
    var m := Marker(isNew, inNew);
    var ts := m + [Text(line)] + rest;
    if m == [] {
      assert ts[1..] == rest;
    } else {
      assert ts[1..] == [Text(line)] + rest && ts[1..][1..] == rest;
    }
  }

  lemma BalancedStep(isNew: bool, inNew: bool, line: string, rest: seq<Token>)
    ensures Balanced(Marker(isNew, inNew) + [Text(line)] + rest, inNew) == Balanced(rest, isNew)
  {
    var m := Marker(isNew, inNew);
    var ts := m + [Text(line)] + rest;
    if m == [] {
      assert ts[1..] == rest;
    } else {
      assert ts[1..] == [Text(line)] + rest && ts[1..][1..] == rest;
    }
  }

  lemma DisplayStep(isNew: bool, inNew: bool, line: string, rest: seq<Token>)
    ensures Display(Marker(isNew, inNew) + [Text(line)] + rest, inNew)
         == [Shown(line, isNew)] + Display(rest, isNew)
  {
    var m := Marker(isNew, inNew);
    var ts := m + [Text(line)] + rest;
    if m == [] {
      assert ts[1..] == rest;
    } else {
      assert ts[1..] == [Text(line)] + rest && ts[1..][1..] == rest;
    }
  }

  lemma BoundaryStep(isNew: bool, inNew: bool, line: string, rest: seq<Token>)
    requires MarkersBeforeLines(rest)
    ensures MarkersBeforeLines(Marker(isNew, inNew) + [Text(line)] + rest)
  {
    var m := Marker(isNew, inNew);
    var ts := m + [Text(line)] + rest;
    if m == [] {
      assert ts[1..] == rest;
    } else {
      assert ts[1..] == [Text(line)] + rest && ts[1..][1..] == rest;
    }
  }

  // ---------------------------------------------------------------------
  // Properties

  /** An empty argument returns the combined text unchanged. */
  lemma HighlightEmptyArgument(combinedTests: string, existingTests: string)
    requires existingTests == "" || combinedTests == ""
    ensures Render(Highlighted(combinedTests, existingTests)) == combinedTests
  {
  }

  /** Every line followed by a newline. */
  function Terminated(lines: seq<string>): string
  {
    if lines == [] then "" else lines[0] + "\n" + Terminated(lines[1..])
  }

  lemma {:induction false} StripEmit(lines: seq<string>, flags: seq<bool>, inNew: bool)
    requires |flags| == |lines|
    ensures Strip(Emit(lines, flags, inNew)) == Terminated(lines)
  {
    if lines != [] {
      StripEmit(lines[1..], flags[1..], flags[0]);
      StripStep(flags[0], inNew, lines[0] + "\n", Emit(lines[1..], flags[1..], flags[0]));
    }
  }

  lemma {:induction false} TerminatedJoin(lines: seq<string>)
    requires |lines| >= 1
    ensures Terminated(lines) == Join(lines, '\n') + "\n"
  {
    if |lines| > 1 {
      TerminatedJoin(lines[1..]);
    }
  }

  /** Deleting every marker leaves each combined line followed by a
      newline, which is the combined text plus one newline. */
  lemma HighlightStripsToInput(combinedTests: string, existingTests: string)
    requires existingTests != "" && combinedTests != ""
    ensures Strip(Highlighted(combinedTests, existingTests)) == combinedTests + "\n"
  {
    var lines := Split(combinedTests, '\n');
    StripEmit(lines, Novelty(lines, Split(existingTests, '\n')), false);
    TerminatedJoin(lines);
    JoinSplit(combinedTests, '\n');
  }

  /** Markers alternate Open, Close, Open, ... starting in state `open`
      (an Open only outside a run, a Close only inside one) and no run is
      left open at the end. */
  predicate Balanced(ts: seq<Token>, open: bool)
  {
    if ts == [] then !open
    else match ts[0]
      case Open => !open && Balanced(ts[1..], true)
      case Close => open && Balanced(ts[1..], false)
      case Text(_) => Balanced(ts[1..], open)
  }

  lemma {:induction false} EmitBalanced(lines: seq<string>, flags: seq<bool>, inNew: bool)
    requires |flags| == |lines|
    ensures Balanced(Emit(lines, flags, inNew), inNew)
  {
    if lines != [] {
      EmitBalanced(lines[1..], flags[1..], flags[0]);
      BalancedStep(flags[0], inNew, lines[0] + "\n", Emit(lines[1..], flags[1..], flags[0]));
    }
  }

  /** The markers of the output never nest and no run is left open. */
  lemma HighlightBalanced(combinedTests: string, existingTests: string)
    ensures Balanced(Highlighted(combinedTests, existingTests), false)
  {
    if existingTests != "" && combinedTests != "" {
      var lines := Split(combinedTests, '\n');
      EmitBalanced(lines, Novelty(lines, Split(existingTests, '\n')), false);
    }
  }

  /** A line of output as a reader sees it: its text, and whether it lies
      inside a highlighted run. */
  datatype Shown = Shown(text: string, highlighted: bool)

  /** The text tokens of `ts`, each with the run state it is emitted in. */
  function Display(ts: seq<Token>, open: bool): seq<Shown>
  {
    if ts == [] then []
    else match ts[0]
      case Open => Display(ts[1..], true)
      case Close => Display(ts[1..], false)
      case Text(s) => [Shown(s, open)] + Display(ts[1..], open)
  }

  lemma {:induction false} EmitDisplay(lines: seq<string>, flags: seq<bool>, inNew: bool)
    requires |flags| == |lines|
    ensures |Display(Emit(lines, flags, inNew), inNew)| == |lines|
    ensures forall i :: 0 <= i < |lines| ==>
              Display(Emit(lines, flags, inNew), inNew)[i] == Shown(lines[i] + "\n", flags[i])
  {
    if lines != [] {
      EmitDisplay(lines[1..], flags[1..], flags[0]);
      DisplayStep(flags[0], inNew, lines[0] + "\n", Emit(lines[1..], flags[1..], flags[0]));
    }
  }

  /** Every combined line appears once, in order, followed by a newline,
      and it lies inside a highlighted run exactly when its trimmed form is
      not one of the (untrimmed) existing lines. */
  lemma HighlightMarksNewLines(combinedTests: string, existingTests: string)
    requires existingTests != "" && combinedTests != ""
    ensures var lines := Split(combinedTests, '\n');
            var shown := Display(Highlighted(combinedTests, existingTests), false);
            |shown| == |lines| &&
            forall i :: 0 <= i < |lines| ==>
              shown[i] == Shown(lines[i] + "\n", IsNew(lines[i], Split(existingTests, '\n')))
  {
    var lines := Split(combinedTests, '\n');
    EmitDisplay(lines, Novelty(lines, Split(existingTests, '\n')), false);
  }

  /** Every marker is immediately followed by a line, except a Close that
      ends the output: no run is empty and none starts right where the
      previous one closed. */
  predicate MarkersBeforeLines(ts: seq<Token>)
  {
    if ts == [] then true
    else if ts[0].Text? then MarkersBeforeLines(ts[1..])
    else (ts[0] == Close && |ts| == 1) || (|ts| > 1 && ts[1].Text? && MarkersBeforeLines(ts[1..]))
  }

  lemma {:induction false} EmitMarkersBeforeLines(lines: seq<string>, flags: seq<bool>, inNew: bool)
    requires |flags| == |lines|
    ensures MarkersBeforeLines(Emit(lines, flags, inNew))
  {
    if lines != [] {
      EmitMarkersBeforeLines(lines[1..], flags[1..], flags[0]);
      BoundaryStep(flags[0], inNew, lines[0] + "\n", Emit(lines[1..], flags[1..], flags[0]));
    }
  }

  /** Runs of the highlighted output are maximal. Together with
      HighlightBalanced and HighlightMarksNewLines: an Open is followed by
      a new line, and a Close by a line that is not new or by the end. */
  lemma HighlightRunsMaximal(combinedTests: string, existingTests: string)
    ensures MarkersBeforeLines(Highlighted(combinedTests, existingTests))
  {
    if existingTests != "" && combinedTests != "" {
      var lines := Split(combinedTests, '\n');
      EmitMarkersBeforeLines(lines, Novelty(lines, Split(existingTests, '\n')), false);
    }
  }

  /** An unchanged but indented line is highlighted: the existing lines
      are not trimmed before the comparison. */
  lemma IndentedExistingLineIsNew()
    ensures Highlighted("  a", "  a") == [Open, Text("  a\n"), Close]
  {
    SplitNoSeparator("  a", '\n');
    assert LeadingWhitespace("  a") == 2;
    assert Trim("  a") == "a";
    var flags := Novelty(["  a"], ["  a"]);
    assert flags == [true];
    assert ["  a"][1..] == [] && flags[1..] == [];
    assert "  a" + "\n" == "  a\n";
  }

  /** A line inserted between existing lines (for instance `X` into the
      lines `a`, `b`, `c`): exactly the inserted line is highlighted, when
      the lines carry no surrounding whitespace. */
  lemma InsertedLineHighlighted(a: string, b: string, x: string, c: string)
    requires Trimmed(a) && Trimmed(b) && Trimmed(x) && Trimmed(c)
    requires '\n' !in a && '\n' !in b && '\n' !in x && '\n' !in c
    requires x != a && x != b && x != c
    ensures Display(Highlighted(Join([a, b, x, c], '\n'), Join([a, b, c], '\n')), false)
         == [Shown(a + "\n", false), Shown(b + "\n", false), Shown(x + "\n", true), Shown(c + "\n", false)]
  {
    var lines, existing := [a, b, x, c], [a, b, c];
    JoinedLines(lines);
    JoinedLines(existing);
    HighlightedLines(Join(lines, '\n'), Join(existing, '\n'));
    InsertedLineDisplay(a, b, x, c);
  }

  /** `Highlighted` on two non-empty texts, in terms of their lines. */
  lemma HighlightedLines(combinedTests: string, existingTests: string)
    requires existingTests != "" && combinedTests != ""
    ensures var lines := Split(combinedTests, '\n');
            Highlighted(combinedTests, existingTests) == Emit(lines, Novelty(lines, Split(existingTests, '\n')), false)
  {
  }

  lemma InsertedLineDisplay(a: string, b: string, x: string, c: string)
    requires Trimmed(a) && Trimmed(b) && Trimmed(x) && Trimmed(c)
    requires x != a && x != b && x != c
    ensures Display(Emit([a, b, x, c], Novelty([a, b, x, c], [a, b, c]), false), false)
         == [Shown(a + "\n", false), Shown(b + "\n", false), Shown(x + "\n", true), Shown(c + "\n", false)]
  {
    var lines, existing := [a, b, x, c], [a, b, c];
    TrimmedIsNew(a, existing);
    TrimmedIsNew(b, existing);
    TrimmedIsNew(x, existing);
    TrimmedIsNew(c, existing);
    EmitDisplay(lines, Novelty(lines, existing), false);
  }

  /** Joining at least two separator-free lines gives a non-empty text
      that splits back into them. */
  lemma JoinedLines(lines: seq<string>)
    requires |lines| >= 2
    requires forall i :: 0 <= i < |lines| ==> '\n' !in lines[i]
    ensures Join(lines, '\n') != ""
    ensures Split(Join(lines, '\n'), '\n') == lines
  {
    SplitJoin(lines, '\n');
  }

  /** A line with no surrounding whitespace is new exactly when it is not
      an existing line. */
  lemma TrimmedIsNew(line: string, existingLines: seq<string>)
    requires Trimmed(line)
    ensures IsNew(line, existingLines) <==> line !in existingLines
  {
    TrimFixedPoints(line);
  }
}
