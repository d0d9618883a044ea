/** The "copy new tests only" action (`extractNewTestsOnly`,
    frontend/js/script.js lines 534-566): the part of the combined test
    text that the user did not already have. */
module ExtractNew {
  import opened Wrappers
  import opened Strings
  import opened LineDiff

  /** What the existing-tests panel shows when the function had no tests. */
  const Placeholder: string := "No existing tests found for this function."

  /** The comment the generator puts in front of the tests it added. */
  const Sentinel: string := "# NEWLY GENERATED TEST FOR MISSING COVERAGE"

  // ---------------------------------------------------------------------
  // Specification

  /** What `extractNewTestsOnly` returns for the two panel texts. In order:
      no existing tests gives the whole combined text; otherwise the text
      from the first sentinel comment on; otherwise the new non-blank
      combined lines joined by newlines; and when there are none, the
      whole combined text again. */
  function NewTestsOnly(combinedText: string, existingText: string): string
  {
    if existingText == "" || existingText == Placeholder then combinedText
    else match IndexOf(combinedText, Sentinel)
      case Some(k) => combinedText[k..]
      case None =>
        var kept := NewLines(Split(combinedText, '\n'), Split(existingText, '\n'));
        if |kept| > 0 then Join(kept, '\n') else combinedText
  }

  // ---------------------------------------------------------------------
  // The source's code

  /** `extractNewTestsOnly`: the two early returns, then a loop over the
      combined lines collecting the new ones. */
  method ExtractNewTestsOnly(combinedText: string, existingText: string) returns (r: string)
    ensures r == NewTestsOnly(combinedText, existingText)
  {
    if existingText == "" || existingText == Placeholder {
      return combinedText;
    }
    var commentMatch := IndexOf(combinedText, Sentinel);
    if commentMatch.Some? {
      return combinedText[commentMatch.value..];
    }
    var existingLines := Split(existingText, '\n');
    var combinedLines := Split(combinedText, '\n');
    var newLines := CollectNewLines(combinedLines, existingLines);
    if |newLines| > 0 {
      return Join(newLines, '\n');
    }
    return combinedText;
  }

  /** The fallback loop: every combined line whose trimmed form is neither
      an existing line nor empty is pushed, untrimmed. */
  method CollectNewLines(combinedLines: seq<string>, existingLines: seq<string>) returns (newLines: seq<string>)
    ensures newLines == NewLines(combinedLines, existingLines)
  {
    newLines := [];
    var i := 0;
    while i < |combinedLines|
      invariant 0 <= i <= |combinedLines|
      invariant newLines + NewLines(combinedLines[i..], existingLines) == NewLines(combinedLines, existingLines)
    {
      var line := combinedLines[i];
      NewLinesStep(combinedLines, existingLines, i, newLines);
      if Trim(line) !in existingLines && Trim(line) != "" {
        newLines := newLines + [line];
      }
      i := i + 1;
    }
    assert combinedLines[i..] == [];
  }

  /** One iteration of the loop keeps its invariant. */
  lemma NewLinesStep(lines: seq<string>, existingLines: seq<string>, i: nat, acc: seq<string>)
    requires i < |lines|
    ensures acc + NewLines(lines[i..], existingLines)
         == (acc + if Keep(lines[i], existingLines) then [lines[i]] else []) + NewLines(lines[i + 1..], existingLines)
  {
    assert lines[i..][0] == lines[i] && lines[i..][1..] == lines[i + 1..];
    var rest := NewLines(lines[i + 1..], existingLines);
    if Keep(lines[i], existingLines) {
      assert acc + ([lines[i]] + rest) == acc + [lines[i]] + rest;
    }
  }

  // ---------------------------------------------------------------------
  // Properties

  /** With no existing tests the whole combined text is copied. */
  lemma NoExistingTestsCopiesAll(combinedText: string, existingText: string)
    requires existingText == "" || existingText == Placeholder
    ensures NewTestsOnly(combinedText, existingText) == combinedText
  {
  }

  /** When the sentinel comment occurs, the copy is the suffix of the
      combined text that starts at its first occurrence. */
  lemma SentinelStartsCopy(combinedText: string, existingText: string)
    requires existingText != "" && existingText != Placeholder
    requires exists j :: OccursAt(combinedText, Sentinel, j)
    ensures var r := NewTestsOnly(combinedText, existingText);
            |Sentinel| <= |r| <= |combinedText| &&
            r[..|Sentinel|] == Sentinel &&
            combinedText[|combinedText| - |r|..] == r &&
            forall j :: 0 <= j < |combinedText| - |r| ==> !OccursAt(combinedText, Sentinel, j)
  {
    var k := IndexOf(combinedText, Sentinel).value;
    var r := combinedText[k..];
    assert |combinedText| - |r| == k;
    assert r[..|Sentinel|] == combinedText[k..k + |Sentinel|];
  }

  /** Without the sentinel, the copy is exactly the kept lines, one per
      line: splitting it at newlines gives back the new non-blank combined
      lines in their original order and untrimmed. When there are none,
      the whole combined text is copied. */
  lemma FallbackCopiesNewLines(combinedText: string, existingText: string)
    requires existingText != "" && existingText != Placeholder
    requires forall j :: !OccursAt(combinedText, Sentinel, j)
    ensures var lines := Split(combinedText, '\n');
            var kept := NewLines(lines, Split(existingText, '\n'));
            var r := NewTestsOnly(combinedText, existingText);
            (kept != [] ==> Split(r, '\n') == kept && IsSubsequence(kept, lines)) &&
            (kept == [] ==> r == combinedText)
  {
    var lines := Split(combinedText, '\n');
    var kept := NewLines(lines, Split(existingText, '\n'));
    if kept != [] {
      forall i | 0 <= i < |kept| ensures '\n' !in kept[i] {
        assert kept[i] in kept;
      }
      SplitJoin(kept, '\n');
      NewLinesIsSubsequence(lines, Split(existingText, '\n'));
    }
  }

  /** Without the sentinel and with something new, a line of the copy is
      a combined line that is new and not blank, and each such combined
      line is a line of the copy. */
  lemma FallbackLinesAreNew(combinedText: string, existingText: string)
    requires existingText != "" && existingText != Placeholder
    requires forall j :: !OccursAt(combinedText, Sentinel, j)
    requires NewLines(Split(combinedText, '\n'), Split(existingText, '\n')) != []
    ensures forall x :: x in Split(NewTestsOnly(combinedText, existingText), '\n') <==>
              x in Split(combinedText, '\n') && Keep(x, Split(existingText, '\n'))
  {
    FallbackCopiesNewLines(combinedText, existingText);
  }

  /** Whatever the branch, nothing is invented: the copy is the combined
      text, a suffix of it, or made of its lines. */
  lemma CopyComesFromCombined(combinedText: string, existingText: string)
    ensures var r := NewTestsOnly(combinedText, existingText);
            r == combinedText ||
            (|r| <= |combinedText| && combinedText[|combinedText| - |r|..] == r) ||
            (forall x :: x in Split(r, '\n') ==> x in Split(combinedText, '\n'))
  {
    if existingText != "" && existingText != Placeholder {
      match IndexOf(combinedText, Sentinel)
      case Some(k) =>
        assert |combinedText| - |combinedText[k..]| == k;
      case None =>
        FallbackCopiesNewLines(combinedText, existingText);
    }
  }
}
