/** Small display helpers of the results page: the coverage-mode badge
    (frontend/js/script.js lines 283-287), the notification's alert class
    and icon (lines 640-668) and the readable repository type
    (lines 710-714). */
module Presentation {
  import opened Wrappers
  import opened Strings

  // ---------------------------------------------------------------------
  // Coverage mode

  const DefaultCoverageMode: string := "heuristic"

  /** `(data.coverage_mode || 'heuristic').toLowerCase()`: a missing or
      empty mode counts as heuristic. */
  function CoverageMode(coverageMode: Option<string>): (mode: string)
    ensures coverageMode.None? || coverageMode.value == "" ==> mode == DefaultCoverageMode
    ensures coverageMode.Some? && coverageMode.value != "" ==> mode == Lower(coverageMode.value)
  {
    Lower(if coverageMode.None? || coverageMode.value == "" then DefaultCoverageMode else coverageMode.value)
  }

  /** The badge text. */
  function CoverageModeLabel(coverageMode: Option<string>): string
  {
    if CoverageMode(coverageMode) == "tool" then "Tool (Executed)" else "Heuristic"
  }

  /** The badge colour class. */
  function CoverageModeBadge(coverageMode: Option<string>): string
  {
    if CoverageMode(coverageMode) == "tool" then "bg-success" else "bg-info"
  }

  /** The badge reads "Tool (Executed)", in green, exactly when the mode
      is `tool` in any ASCII case; otherwise it reads "Heuristic", in the
      info colour, a missing or empty mode included. */
  lemma CoverageBadgeMeaning(coverageMode: Option<string>)
    ensures var tool := coverageMode.Some? && Lower(coverageMode.value) == "tool";
            (CoverageModeLabel(coverageMode) == "Tool (Executed)" <==> tool) &&
            (CoverageModeLabel(coverageMode) == "Heuristic" <==> !tool) &&
            (CoverageModeBadge(coverageMode) == "bg-success" <==> tool) &&
            (CoverageModeBadge(coverageMode) == "bg-info" <==> !tool)
  {
    if coverageMode.None? || coverageMode.value == "" {
      assert Lower(DefaultCoverageMode)[0] == 'h';
      if coverageMode.Some? {
        assert Lower(coverageMode.value) == "";
      }
    }
  }

  // ---------------------------------------------------------------------
  // Notifications

  /** `alert-${type === 'error' ? 'danger' : type}`. */
  function AlertClass(notificationType: string): (cls: string)
    ensures notificationType == "error" ==> cls == "alert-danger"
    ensures notificationType != "error" ==> cls == "alert-" + notificationType
  {
    "alert-" + (if notificationType == "error" then "danger" else notificationType)
  }

  /** Only the error type is renamed: two types other than `error` get the
      same class only when they are the same type. */
  lemma AlertClassInjective(t1: string, t2: string)
    requires t1 != "error" && t2 != "error"
    requires AlertClass(t1) == AlertClass(t2)
    ensures t1 == t2
  {
    assert t1 == AlertClass(t1)[6..];
    assert t2 == AlertClass(t2)[6..];
  }

  /** The icon table of `getNotificationIcon`. */
  const Icons: map<string, string> := map[
    "success" := "check-circle",
    "error" := "exclamation-triangle",
    "warning" := "exclamation-triangle",
    "info" := "info-circle"
  ]

  const DefaultIcon: string := "info-circle"

  /** `icons[type] || 'info-circle'`. */
  function NotificationIcon(notificationType: string): string
  {
    if notificationType in Icons then Icons[notificationType] else DefaultIcon
  }

  /** Success shows a check, error and warning a warning triangle, and
      every other type, `info` included, the information circle. */
  lemma NotificationIconMeaning(t: string)
    ensures NotificationIcon(t) == "check-circle" <==> t == "success"
    ensures NotificationIcon(t) == "exclamation-triangle" <==> t == "error" || t == "warning"
    ensures NotificationIcon(t) == DefaultIcon <==> t != "success" && t != "error" && t != "warning"
  {
  }

  // ---------------------------------------------------------------------
  // Readable repository type

  /** `\w` of a regular expression without the `u` flag. */
  predicate IsWordChar(c: char)
  {
    ('a' <= c <= 'z') || ('A' <= c <= 'Z') || ('0' <= c <= '9') || c == '_'
  }

  /** `\b\w` matches at `i`: a word character with no word character
      before it. */
  predicate WordStart(s: string, i: int)
    requires 0 <= i < |s|
  {
    IsWordChar(s[i]) && (i == 0 || !IsWordChar(s[i - 1]))
  }

  /** `.replace(/_/g, ' ')`. */
  function UnderscoresToSpaces(s: string): (r: string)
    ensures |r| == |s|
    ensures forall i :: 0 <= i < |s| ==> r[i] == if s[i] == '_' then ' ' else s[i]
  {
    seq(|s|, i requires 0 <= i < |s| => if s[i] == '_' then ' ' else s[i])
  }

  /** `.replace(/\b\w/g, c => c.toUpperCase())`. */
  function CapitalizeWords(s: string): (r: string)
    ensures |r| == |s|
    ensures forall i :: 0 <= i < |s| ==> r[i] == if WordStart(s, i) then UpperChar(s[i]) else s[i]
  {
    seq(|s|, i requires 0 <= i < |s| => if WordStart(s, i) then UpperChar(s[i]) else s[i])
  }

  /** The title shown for a repository type such as `mixed_content`. */
  function ReadableType(repoType: string): string
  {
    CapitalizeWords(UnderscoresToSpaces(repoType))
  }

  /** The readable type has the same length, no underscore, differs from
      the type only in ASCII case where the type had no underscore, and
      begins every word with a character that is not a lower-case letter. */
  lemma ReadableTypeShape(repoType: string)
    ensures var r := ReadableType(repoType);
            |r| == |repoType| && '_' !in r &&
            (forall i :: 0 <= i < |r| && repoType[i] != '_' ==> LowerChar(r[i]) == LowerChar(repoType[i])) &&
            (forall i :: 0 <= i < |r| && WordStart(r, i) ==> !('a' <= r[i] <= 'z'))
  {
    var s := UnderscoresToSpaces(repoType);
    var r := ReadableType(repoType);
    forall i | 0 <= i < |r| ensures WordStart(r, i) == WordStart(s, i) {
      assert IsWordChar(r[i]) == IsWordChar(s[i]);
      if i > 0 {
        assert IsWordChar(r[i - 1]) == IsWordChar(s[i - 1]);
      }
    }
  }

  /** An ASCII letter or digit: a word character other than `_`. */
  predicate IsAlphanumeric(c: char)
  {
    IsWordChar(c) && c != '_'
  }

  /** The readable type, character by character, in terms of the type
      alone: an underscore becomes a space, an ASCII letter or digit that
      starts the type or follows any other character (an underscore
      included) is upper-cased, and every other character is kept. */
  lemma ReadableTypeMeaning(repoType: string)
    ensures |ReadableType(repoType)| == |repoType|
    ensures forall i :: 0 <= i < |repoType| ==>
              ReadableType(repoType)[i] ==
                if repoType[i] == '_' then ' '
                else if IsAlphanumeric(repoType[i]) && (i == 0 || !IsAlphanumeric(repoType[i - 1]))
                then UpperChar(repoType[i])
                else repoType[i]
  {
    var s := UnderscoresToSpaces(repoType);
    forall i | 0 <= i < |repoType|
      ensures WordStart(s, i) == (IsAlphanumeric(repoType[i]) && (i == 0 || !IsAlphanumeric(repoType[i - 1])))
    {
      assert IsWordChar(s[i]) == IsAlphanumeric(repoType[i]);
      if i > 0 {
        assert IsWordChar(s[i - 1]) == IsAlphanumeric(repoType[i - 1]);
      }
    }
  }

  /** Making a readable type readable again changes nothing. */
  lemma ReadableTypeIdempotent(repoType: string)
    ensures ReadableType(ReadableType(repoType)) == ReadableType(repoType)
  {
    var s := UnderscoresToSpaces(repoType);
    var r := ReadableType(repoType);
    ReadableTypeShape(repoType);
    assert UnderscoresToSpaces(r) == r;
    forall i | 0 <= i < |r| ensures WordStart(r, i) == WordStart(s, i) {
      assert IsWordChar(r[i]) == IsWordChar(s[i]);
      if i > 0 {
        assert IsWordChar(r[i - 1]) == IsWordChar(s[i - 1]);
      }
    }
  }

  /** The example of the source's comment. */
  lemma MixedContentReadable()
    ensures ReadableType("mixed_content") == "Mixed Content"
  {
    var s := UnderscoresToSpaces("mixed_content");
    assert s == "mixed content";
  }

  /** A letter outside ASCII is not a word character, so the letter after
      it starts a new word. */
  lemma NonAsciiLetterBreaksWord()
    ensures ReadableType("été") == "éTé"
  {
    var s := UnderscoresToSpaces("été");
    assert s == "été";
    assert WordStart(s, 1);
  }
}
