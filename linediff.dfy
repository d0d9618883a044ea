/** The line-membership test shared by the highlighter and the
    "copy new tests only" action: a combined line is new when its trimmed
    form is not one of the existing lines. The existing lines are compared
    as they are, untrimmed (frontend/js/script.js lines 502 and 555). */
module LineDiff {
  import opened Strings

  /** `!existingLines.includes(line.trim())`. */
  predicate IsNew(line: string, existingLines: seq<string>)
  {
    Trim(line) !in existingLines
  }

  /** For each line, whether it is new. */
  function Novelty(lines: seq<string>, existingLines: seq<string>): (flags: seq<bool>)
    ensures |flags| == |lines|
    ensures forall i :: 0 <= i < |lines| ==> flags[i] == IsNew(lines[i], existingLines)
  {
    seq(|lines|, i requires 0 <= i < |lines| => IsNew(lines[i], existingLines))
  }

  /** The lines the fallback of "copy new tests only" keeps: new and not blank. */
  predicate Keep(line: string, existingLines: seq<string>)
  {
    IsNew(line, existingLines) && Trim(line) != ""
  }

  /** The kept lines of `lines`, in their original order and untrimmed. */
  function NewLines(lines: seq<string>, existingLines: seq<string>): (kept: seq<string>)
    ensures |kept| <= |lines|
    ensures forall x :: x in kept <==> x in lines && Keep(x, existingLines)
  {
    if lines == [] then []
    else
      var rest := NewLines(lines[1..], existingLines);
      if Keep(lines[0], existingLines) then [lines[0]] + rest else rest
  }

  /** `sub` is `s` with some elements left out, order kept. */
  predicate IsSubsequence(sub: seq<string>, s: seq<string>)
    decreases |s|
  {
    if sub == [] then true
    else if s == [] then false
    else if sub[0] == s[0] then IsSubsequence(sub[1..], s[1..])
    else IsSubsequence(sub, s[1..])
  }

  /** The kept lines are a subsequence of the combined lines. */
  lemma {:induction false} NewLinesIsSubsequence(lines: seq<string>, existingLines: seq<string>)
    ensures IsSubsequence(NewLines(lines, existingLines), lines)
  {
    if lines != [] {
      NewLinesIsSubsequence(lines[1..], existingLines);
      var rest := NewLines(lines[1..], existingLines);
      if Keep(lines[0], existingLines) {
        assert ([lines[0]] + rest)[1..] == rest;
      } else if rest != [] {
        SkipFirst(rest, lines);
      }
    }
  }

  /** A subsequence of the tail of `s` is a subsequence of `s`. */
  lemma {:induction false} SkipFirst(sub: seq<string>, s: seq<string>)
    requires s != []
    requires IsSubsequence(sub, s[1..])
    ensures IsSubsequence(sub, s)
    decreases |s|, |sub|
  {
    if sub != [] && sub[0] == s[0] {
      SkipTail(sub, s[1..]);
    }
  }

  /** Dropping the head of a subsequence keeps it a subsequence. */
  lemma {:induction false} SkipTail(sub: seq<string>, s: seq<string>)
    requires sub != []
    requires IsSubsequence(sub, s)
    ensures IsSubsequence(sub[1..], s)
    decreases |s|, |sub|
  {
    if sub[0] != s[0] {
      SkipTail(sub, s[1..]);
    }
    SkipFirst(sub[1..], s);
  }

  /** Every occurrence of a kept line is kept, repeated lines included:
      each string occurs among the kept lines as often as among the lines
      when it is kept, and not at all otherwise. */
  lemma {:induction false} NewLinesCounts(lines: seq<string>, existingLines: seq<string>, x: string)
    ensures multiset(NewLines(lines, existingLines))[x]
         == if Keep(x, existingLines) then multiset(lines)[x] else 0
  {
    if lines != [] {
      NewLinesCounts(lines[1..], existingLines, x);
      assert lines == [lines[0]] + lines[1..];
      assert multiset(lines) == multiset([lines[0]]) + multiset(lines[1..]);
    }
  }

  /** Nothing is kept exactly when no line is new and non-blank. */
  lemma NewLinesEmptyIff(lines: seq<string>, existingLines: seq<string>)
    ensures NewLines(lines, existingLines) == [] <==>
            forall i :: 0 <= i < |lines| ==> !Keep(lines[i], existingLines)
  {
    var kept := NewLines(lines, existingLines);
    if kept != [] {
      assert kept[0] in kept;
    }
  }
}
