/**
 * The save-and-extract flow of the note page (`handleSaveAndExtract` and
 * `extractActionsWithAI` in src/app/page.tsx) over the component state
 * `noteContent`, `actions`, `previousContent` and `isProcessing`.
 *
 * The call to the extraction service is not modelled: its outcome is a
 * parameter, either a failure (a thrown error or a non-OK response) or a
 * reply whose `actions` field may be missing. State updates are applied in
 * order, one after the other.
 */
module Page {
  import opened Wrappers
  import opened Text
  import opened Delta
  import opened Actions

  /** What the request to the extraction service gave back. */
  datatype Outcome = Failed | Replied(actions: Option<string>)

  /** The component state the flow reads and writes. */
  datatype PageState = PageState(
    noteContent: string,
    actions: seq<Action>,
    previousContent: string,
    isProcessing: bool)

  /** The action list after `extractActionsWithAI`: unchanged on failure or
      when the reply carries no items, otherwise merged with the parsed items. */
  function Extracted(actions: seq<Action>, outcome: Outcome, ids: nat -> string, clock: nat -> int): seq<Action>
  {
    match outcome
    case Failed => actions
    case Replied(reply) =>
      if IsNoActions(reply) then actions
      else Merge(actions, ParseActions(reply.value, ids, clock))
  }

  /** Extraction runs only when the delta against the snapshot is not blank. */
  predicate ExtractionRuns(s: PageState) {
    Trim(ExtractNewContent(s.previousContent, s.noteContent)) != ""
  }

  /** The state after `handleSaveAndExtract`. */
  function Saved(s: PageState, outcome: Outcome, ids: nat -> string, clock: nat -> int): PageState
  {
    if ExtractionRuns(s) then
      PageState(s.noteContent, Extracted(s.actions, outcome, ids, clock), s.noteContent, false)
    else
      s.(previousContent := s.noteContent)
  }

  /** Extraction keeps the existing items as an unchanged prefix and appends
      only items whose lower-cased text is not among the lower-cased texts
      of the list. */
  lemma ExtractedAppends(actions: seq<Action>, outcome: Outcome, ids: nat -> string, clock: nat -> int)
    ensures var r := Extracted(actions, outcome, ids, clock);
      |actions| <= |r| && r[..|actions|] == actions
      && forall x :: x in r[|actions|..] ==> Lower(x.text) !in LowerTexts(actions)
  {
    if outcome.Replied? && !IsNoActions(outcome.actions) {
      var batch := ParseActions(outcome.actions.value, ids, clock);
      var r := Merge(actions, batch);
      assert r[..|actions|] == actions;
      assert r[|actions|..] == Unseen(batch, LowerTexts(actions));
      UnseenMembers(batch, LowerTexts(actions));
    }
  }

  /** Every appended item comes from the reply: a non-empty trimmed line of
      it, tagged "ai". */
  lemma ExtractedItemsFromReply(actions: seq<Action>, reply: string, ids: nat -> string, clock: nat -> int)
    requires !IsNoActions(Some(reply))
    ensures var r := Extracted(actions, Replied(Some(reply)), ids, clock);
      |actions| <= |r|
      && forall x :: x in r[|actions|..] ==>
           x.text != "" && x.source == "ai" && x.text in TrimEach(Split(reply))
  {
    MergeAppends(actions, ParseActions(reply, ids, clock));
    ParsedItemMembers(reply, ids, clock);
  }

  /** A failed request or a reply without items leaves the list as it was. */
  lemma NothingExtracted(actions: seq<Action>, outcome: Outcome, ids: nat -> string, clock: nat -> int)
    requires outcome.Failed? || IsNoActions(outcome.actions)
    ensures Extracted(actions, outcome, ids, clock) == actions
  {
  }

  /** Extracting the same reply again, with any ids and times, appends nothing. */
  lemma ExtractedAgain(actions: seq<Action>, outcome: Outcome,
                       ids: nat -> string, clock: nat -> int,
                       ids': nat -> string, clock': nat -> int)
    ensures var once := Extracted(actions, outcome, ids, clock);
      Extracted(once, outcome, ids', clock') == once
  {
    match outcome
    case Failed =>
    case Replied(reply) =>
      if !IsNoActions(reply) {
        ParsedTexts(reply.value, ids, clock);
        ParsedTexts(reply.value, ids', clock');
        MergeAgain(actions, ParseActions(reply.value, ids, clock), ParseActions(reply.value, ids', clock'));
      }
  }

  /** After saving, the snapshot is the note text and the note is untouched,
      whether extraction was skipped, succeeded or failed; after an
      extraction `isProcessing` is false. */
  lemma SaveMovesSnapshot(s: PageState, outcome: Outcome, ids: nat -> string, clock: nat -> int)
    ensures var r := Saved(s, outcome, ids, clock);
      r.previousContent == s.noteContent && r.noteContent == s.noteContent
      && (ExtractionRuns(s) ==> !r.isProcessing)
      && (!s.isProcessing ==> !r.isProcessing)
  {
  }

  /** When the delta is blank no extraction runs: the list and the
      processing flag are unchanged, whatever the service would have said. */
  lemma SaveWithBlankDelta(s: PageState, outcome: Outcome, ids: nat -> string, clock: nat -> int)
    requires !ExtractionRuns(s)
    ensures Saved(s, outcome, ids, clock).actions == s.actions
    ensures Saved(s, outcome, ids, clock).isProcessing == s.isProcessing
  {
  }

  /** Saving never removes, reorders or changes an existing item. */
  lemma SaveKeepsActions(s: PageState, outcome: Outcome, ids: nat -> string, clock: nat -> int)
    ensures var r := Saved(s, outcome, ids, clock);
      |s.actions| <= |r.actions| && r.actions[..|s.actions|] == s.actions
  {
    if ExtractionRuns(s) {
      ExtractedAppends(s.actions, outcome, ids, clock);
    } else {
      assert Saved(s, outcome, ids, clock).actions == s.actions;
    }
  }

  /** Saving a second time without editing the note runs no extraction and
      changes nothing. */
  lemma SaveTwiceIsSaveOnce(s: PageState, outcome: Outcome, ids: nat -> string, clock: nat -> int,
                            outcome': Outcome, ids': nat -> string, clock': nat -> int)
    ensures var once := Saved(s, outcome, ids, clock);
      !ExtractionRuns(once) && Saved(once, outcome', ids', clock') == once
  {
    var once := Saved(s, outcome, ids, clock);
    DeltaOfSelf(s.noteContent);
    assert once.previousContent == once.noteContent;
    assert Trim("") == "";
  }

  /** The note page's component state. */
  class NotePage {
    var noteContent: string
    var actions: seq<Action>
    var previousContent: string
    var isProcessing: bool

    /** The state as a value. */
    function State(): PageState
      reads this
    {
      PageState(noteContent, actions, previousContent, isProcessing)
    }

    /** The initial `useState` values. */
    constructor ()
      ensures State() == PageState("", [], "", false)
    {
      noteContent := "";
      actions := [];
      previousContent := "";
      isProcessing := false;
    }

    /** The text area's `onChange`: only the note text changes. */
    method EditNote(text: string)
      modifies this
      ensures State() == old(State()).(noteContent := text)
    {
      noteContent := text;
    }

    /** `extractActionsWithAI(text)`: `text` is what is sent to the service
        and `outcome` is what came back. `isProcessing` is raised for the
        request and lowered in `finally`, on success and failure alike. */
    method ExtractActionsWithAI(text: string, outcome: Outcome, ids: nat -> string, clock: nat -> int)
      modifies this
      ensures actions == Extracted(old(actions), outcome, ids, clock)
      ensures !isProcessing
      ensures noteContent == old(noteContent) && previousContent == old(previousContent)
    {
      isProcessing := true;
      ghost var merged := Extracted(actions, outcome, ids, clock);
      match outcome {
        case Failed =>
        case Replied(reply) =>
          if !IsNoActions(reply) {
            var items := ParseActions(reply.value, ids, clock);
            actions := Merge(actions, items);
          }
      }
      assert actions == merged;
      isProcessing := false;
    }

    /** `handleSaveAndExtract()`: extract from the delta when it is not
        blank, then move the snapshot to the note text. */
    method HandleSaveAndExtract(outcome: Outcome, ids: nat -> string, clock: nat -> int)
      modifies this
      ensures State() == Saved(old(State()), outcome, ids, clock)
    {
      ghost var before := State();
      var newContent := ExtractNewContent(previousContent, noteContent);
      if Trim(newContent) != "" {
        assert ExtractionRuns(before);
        ExtractActionsWithAI(newContent, outcome, ids, clock);
        previousContent := noteContent;
        assert State() == PageState(before.noteContent, Extracted(before.actions, outcome, ids, clock), before.noteContent, false);
      } else {
        assert !ExtractionRuns(before);
        previousContent := noteContent;
        assert State() == before.(previousContent := before.noteContent);
      }
    }
  }

  /** A new page, one edit and two saves: after the first save the snapshot
      is the note and nothing is processing, and the second save, whatever
      the service would answer, changes nothing. */
  method SaveTwiceWithoutEditing(note: string, outcome: Outcome, outcome': Outcome,
                                 ids: nat -> string, clock: nat -> int)
    returns (first: PageState, second: PageState)
    ensures first.previousContent == note && !first.isProcessing
    ensures second == first
  {
    var page := new NotePage();
    page.EditNote(note);
    page.HandleSaveAndExtract(outcome, ids, clock);
    first := page.State();
    SaveMovesSnapshot(PageState(note, [], "", false), outcome, ids, clock);
    SaveTwiceIsSaveOnce(PageState(note, [], "", false), outcome, ids, clock, outcome', ids, clock);
    page.HandleSaveAndExtract(outcome', ids, clock);
    second := page.State();
  }
}
