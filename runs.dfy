/** Where the highlight markers of `highlightNewTests` stand
    (frontend/js/script.js lines 500-517): which marker, if any, directly
    precedes each line of the output. */
module HighlightRuns {
  import opened Strings
  import opened LineDiff
  import opened Highlight

  /** What stands directly before a line of output: an Open, a Close, or
      no marker. */
  datatype Edge = Opens | Closes | Stays

  /** The marker before each text token of `ts`, in order. */
  function Edges(ts: seq<Token>): seq<Edge>
  {
    if ts == [] then []
    else match ts[0]
      case Text(_) => [Stays] + Edges(ts[1..])
      case Open => if |ts| > 1 && ts[1].Text? then [Opens] + Edges(ts[2..]) else Edges(ts[1..])
      case Close => if |ts| > 1 && ts[1].Text? then [Closes] + Edges(ts[2..]) else Edges(ts[1..])
  }

  /** The edge `Marker(isNew, inNew)` makes before a line. */
  function EdgeOf(isNew: bool, inNew: bool): Edge
  {
    if isNew && !inNew then Opens else if !isNew && inNew then Closes else Stays
  }

  lemma EdgesStep(isNew: bool, inNew: bool, t: string, rest: seq<Token>)
    ensures Edges(Marker(isNew, inNew) + [Text(t)] + rest) == [EdgeOf(isNew, inNew)] + Edges(rest)
  {
    var ts := Marker(isNew, inNew) + [Text(t)] + rest;
    if Marker(isNew, inNew) == [] {
      assert ts[0] == Text(t) && ts[1..] == rest;
    } else {
      assert ts[1] == Text(t) && ts[2..] == rest;
    }
  }

  /** The edge before line `i` of `Emit` depends on the novelty of that
      line and of the one before it (or the starting run flag). */
  lemma {:induction false} EmitEdges(lines: seq<string>, flags: seq<bool>, inNew: bool)
    requires |flags| == |lines|
    ensures |Edges(Emit(lines, flags, inNew))| == |lines|
    ensures forall i :: 0 <= i < |lines| ==>
              Edges(Emit(lines, flags, inNew))[i] == EdgeOf(flags[i], if i == 0 then inNew else flags[i - 1])
  {
    if lines == [] {
      assert Edges([Close]) == [];
    } else {
      var rest := Emit(lines[1..], flags[1..], flags[0]);
      EmitEdges(lines[1..], flags[1..], flags[0]);
      EdgesStep(flags[0], inNew, lines[0] + "\n", rest);
      var edges := [EdgeOf(flags[0], inNew)] + Edges(rest);
      forall i | 1 <= i < |lines|
        ensures edges[i] == EdgeOf(flags[i], flags[i - 1])
      {
        assert edges[i] == Edges(rest)[i - 1];
        assert flags[1..][i - 1] == flags[i];
        if i > 1 {
          assert flags[1..][i - 2] == flags[i - 1];
        }
      }
    }
  }

  /** Where the markers stand before the lines `lines`: an Open directly
      precedes exactly the new lines that start the text or follow a line
      that is not new, and a Close directly precedes exactly the lines that
      are not new and follow a new one. */
  predicate RunBoundariesHold(lines: seq<string>, existingLines: seq<string>, edges: seq<Edge>)
  {
    |edges| == |lines| &&
    forall i :: 0 <= i < |lines| ==>
      (edges[i] == Opens <==> IsNew(lines[i], existingLines) && (i == 0 || !IsNew(lines[i - 1], existingLines))) &&
      (edges[i] == Closes <==> !IsNew(lines[i], existingLines) && i > 0 && IsNew(lines[i - 1], existingLines))
  }

  /** The markers of the highlighted output stand where `RunBoundariesHold`
      says: in particular a run ends only at a line that is not new. */
  lemma HighlightRunBoundaries(combinedTests: string, existingTests: string)
    requires existingTests != "" && combinedTests != ""
    ensures RunBoundariesHold(Split(combinedTests, '\n'), Split(existingTests, '\n'),
                              Edges(Highlighted(combinedTests, existingTests)))
  {
    RunBoundaries(Split(combinedTests, '\n'), Split(existingTests, '\n'));
  }

  /** The same, on lines. */
  lemma RunBoundaries(lines: seq<string>, existingLines: seq<string>)
    ensures RunBoundariesHold(lines, existingLines, Edges(Emit(lines, Novelty(lines, existingLines), false)))
  {
    EmitEdges(lines, Novelty(lines, existingLines), false);
  }
}
