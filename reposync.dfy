/** Keeping the repository URL field in step with the Azure repository
    dropdown: `syncAzureRepoToUrl` (frontend/js/script.js lines 90-117)
    and the body of the 500 ms polling tick (lines 154-164). Both page
    elements are taken to be present. */
module RepoSync {

  /** The three values the rules read and write: the dropdown's current
      value, the URL input's value, and the dropdown value the last
      polling tick recorded. */
  datatype SyncState = SyncState(selectValue: string, urlField: string, lastDropdownValue: string)

  // ---------------------------------------------------------------------
  // Specification

  /** `syncAzureRepoToUrl`: a non-empty dropdown value is copied into the
      URL field; an empty one changes nothing. */
  function SyncStep(s: SyncState): (t: SyncState)
  {
    if s.selectValue != "" then s.(urlField := s.selectValue) else s
  }

  /** The polling tick: when the dropdown holds a non-empty value it has
      not recorded yet, sync if the URL field is empty or differs from it,
      then record the value. */
  function TickStep(s: SyncState): (t: SyncState)
  {
    if s.selectValue != "" && s.selectValue != s.lastDropdownValue then
      var synced := if s.urlField == "" || s.urlField != s.selectValue then SyncStep(s) else s;
      synced.(lastDropdownValue := s.selectValue)
    else s
  }

  /** What can happen to the three values: the dropdown's value changes
      without any listener firing (as when its options are rebuilt), the
      user types into the URL field, a listener or the manual button calls
      `syncAzureRepoToUrl`, or the poll fires. */
  datatype Event = Select(value: string) | EditUrl(value: string) | Sync | Tick

  function Apply(s: SyncState, e: Event): SyncState
  {
    match e
    case Select(v) => s.(selectValue := v)
    case EditUrl(v) => s.(urlField := v)
    case Sync => SyncStep(s)
    case Tick => TickStep(s)
  }

  /** The state after the events `es`, in order. */
  function Run(s: SyncState, es: seq<Event>): SyncState
    decreases |es|
  {
    if es == [] then s else Run(Apply(s, es[0]), es[1..])
  }

  // ---------------------------------------------------------------------
  // The page's state, updated in place

  class RepoSyncPage {
    var selectValue: string
    var urlField: string
    var lastDropdownValue: string

    function State(): SyncState
      reads this
    {
      SyncState(selectValue, urlField, lastDropdownValue)
    }

    /** The page as loaded: nothing recorded by the poll yet. */
    constructor(selectValue: string, urlField: string)
      ensures State() == SyncState(selectValue, urlField, "")
    {
      this.selectValue := selectValue;
      this.urlField := urlField;
      lastDropdownValue := "";
    }

    /** `syncAzureRepoToUrl`. */
    method SyncAzureRepoToUrl()
      modifies this
      ensures State() == SyncStep(old(State()))
    {
      if selectValue != "" {
        urlField := selectValue;
      }
    }

    /** The body of the polling interval. */
    method PollTick()
      modifies this
      ensures State() == TickStep(old(State()))
    {
      if selectValue != "" && selectValue != lastDropdownValue {
        if urlField == "" || urlField != selectValue {
          SyncAzureRepoToUrl();
        }
        lastDropdownValue := selectValue;
      }
    }

    /** The dropdown's value changes. */
    method SelectRepo(v: string)
      modifies this
      ensures State() == Apply(old(State()), Select(v))
    {
      selectValue := v;
    }

    /** The user types into the URL field. */
    method EditUrlField(v: string)
      modifies this
      ensures State() == Apply(old(State()), EditUrl(v))
    {
      urlField := v;
    }
  }

  // ---------------------------------------------------------------------
  // Properties

  /** A sync with a non-empty dropdown value leaves it in the URL field
      and touches nothing else; with an empty one it changes nothing. */
  lemma SyncEffect(s: SyncState)
    ensures SyncStep(s).selectValue == s.selectValue
    ensures SyncStep(s).lastDropdownValue == s.lastDropdownValue
    ensures s.selectValue != "" ==> SyncStep(s).urlField == s.selectValue
    ensures s.selectValue == "" ==> SyncStep(s) == s
  {
  }

  /** A tick never changes the dropdown; with a non-empty dropdown value
      it leaves that value recorded; with an empty one it changes nothing. */
  lemma TickEffect(s: SyncState)
    ensures TickStep(s).selectValue == s.selectValue
    ensures s.selectValue != "" ==> TickStep(s).lastDropdownValue == s.selectValue
    ensures s.selectValue == "" ==> TickStep(s) == s
  {
  }

  /** A tick that sees a value it has not recorded puts it in the URL
      field. */
  lemma TickSyncsNewSelection(s: SyncState)
    requires s.selectValue != "" && s.selectValue != s.lastDropdownValue
    ensures TickStep(s).urlField == s.selectValue
  {
  }

  /** A tick that sees the value it already recorded changes nothing, even
      when the user has since typed another URL: the poll does not
      guarantee that the field shows the dropdown value. */
  lemma TickKeepsEditedUrl(s: SyncState)
    requires s.selectValue == s.lastDropdownValue
    ensures TickStep(s) == s
  {
  }

  /** A concrete case of the above: an edited URL survives the poll. */
  lemma TickDoesNotOverrideEdit()
    ensures var s := SyncState("https://dev.azure.com/o/p/_git/r", "edited", "https://dev.azure.com/o/p/_git/r");
            TickStep(s).urlField == "edited" && TickStep(s).urlField != s.selectValue
  {
  }

  /** A second sync, or a second tick, with no change in between alters
      nothing. */
  lemma SyncIdempotent(s: SyncState)
    ensures SyncStep(SyncStep(s)) == SyncStep(s)
  {
  }

  lemma TickIdempotent(s: SyncState)
    ensures TickStep(TickStep(s)) == TickStep(s)
  {
  }

  /** The listener-driven sync and the poll commute. */
  lemma SyncTickCommute(s: SyncState)
    ensures TickStep(SyncStep(s)) == SyncStep(TickStep(s))
  {
  }

  /** Every event is a sync or a tick. */
  predicate OnlyReconcile(es: seq<Event>)
  {
    forall i :: 0 <= i < |es| ==> es[i] == Sync || es[i] == Tick
  }

  /** Syncs and ticks never change the dropdown value. */
  lemma {:induction false} ReconcileKeepsSelection(s: SyncState, es: seq<Event>)
    requires OnlyReconcile(es)
    ensures Run(s, es).selectValue == s.selectValue
    decreases |es|
  {
    if es != [] {
      assert es[0] == Sync || es[0] == Tick;
      ReconcileKeepsSelection(Apply(s, es[0]), es[1..]);
    }
  }

  /** Once the URL field shows the non-empty dropdown value, syncs and
      ticks keep it there. */
  lemma {:induction false} ReconcileKeepsUrl(s: SyncState, es: seq<Event>)
    requires OnlyReconcile(es)
    requires s.selectValue != "" && s.urlField == s.selectValue
    ensures Run(s, es).urlField == s.selectValue
    decreases |es|
  {
    if es != [] {
      assert es[0] == Sync || es[0] == Tick;
      ReconcileKeepsUrl(Apply(s, es[0]), es[1..]);
    }
  }

  /** Convergence: with a non-empty dropdown value and only syncs and
      ticks happening, the URL field ends up showing that value as soon as
      one sync happens, or one tick when the value was not yet recorded. */
  lemma {:induction false} ReconcileConverges(s: SyncState, es: seq<Event>)
    requires OnlyReconcile(es)
    requires s.selectValue != ""
    requires Sync in es || (Tick in es && s.selectValue != s.lastDropdownValue)
    ensures Run(s, es).urlField == s.selectValue
    decreases |es|
  {
    assert es[0] == Sync || es[0] == Tick;
    var t := Apply(s, es[0]);
    if t.urlField == s.selectValue {
      ReconcileKeepsUrl(t, es[1..]);
    } else {
      assert es[0] == Tick ==> s.selectValue == s.lastDropdownValue;
      assert es[1..] != [] && Sync in es[1..] by {
        assert es[0] != Sync;
        assert Sync in es;
      }
      ReconcileConverges(t, es[1..]);
    }
  }
}
