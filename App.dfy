/** The application shell: its four pieces of state, the handlers that move
    it from topic selection through generation to preview, sending and reset,
    and the choice of screen from the status. */
module App {
  import opened Types
  import opened Strings
  import Constants
  import GeminiService

  const CoffeeBreakMessage: string := "Oops! Our AI editor is having a coffee break. Please try again."

  // ---------------------------------------------------------------------------
  // Theme selection

  predicate NoDuplicates(s: seq<string>) {
    forall i, j :: 0 <= i < j < |s| ==> s[i] != s[j]
  }

  /** `prev.filter(t => t !== id)`: every element except `id`, in order. */
  function Without(s: seq<string>, id: string): (r: seq<string>)
    ensures forall x :: x in r <==> x in s && x != id
    ensures id !in s ==> r == s
    ensures NoDuplicates(s) ==> NoDuplicates(r)
    ensures |r| <= |s|
  {
    if |s| == 0 then []
    else
      var rest := Without(s[1..], id);
      if s[0] == id then rest
      else
        assert NoDuplicates(s) ==> s[0] !in s[1..];
        [s[0]] + rest
  }

  lemma {:induction false} WithoutAppend(a: seq<string>, b: seq<string>, id: string)
    ensures Without(a + b, id) == Without(a, id) + Without(b, id)
    decreases |a|
  {
    if |a| == 0 {
      assert a + b == b;
    } else {
      assert (a + b)[1..] == a[1..] + b;
      WithoutAppend(a[1..], b, id);
    }
  }

  /** The `toggleTheme` updater: `id` is removed when selected and appended at
      the end otherwise; a list without duplicates stays without duplicates. */
  function Toggle(prev: seq<string>, id: string): (next: seq<string>)
    ensures id in next <==> id !in prev
    ensures forall x :: x != id ==> (x in next <==> x in prev)
    ensures id !in prev ==> next == prev + [id]
    ensures id in prev ==> next == Without(prev, id) && |next| < |prev|
    ensures NoDuplicates(prev) ==> NoDuplicates(next)
  {
    if id in prev then
      var i :| 0 <= i < |prev| && prev[i] == id;
      WithoutShorter(prev, id, i);
      Without(prev, id)
    else prev + [id]
  }

  lemma {:induction false} WithoutShorter(s: seq<string>, id: string, i: nat)
    requires i < |s| && s[i] == id
    ensures |Without(s, id)| < |s|
    decreases |s|
  {
    if s[0] != id {
      WithoutShorter(s[1..], id, i - 1);
    }
  }

  /** Toggling an unselected theme twice gives back the original selection. */
  lemma ToggleTwiceRestores(s: seq<string>, id: string)
    requires id !in s
    ensures Toggle(Toggle(s, id), id) == s
  {
    WithoutAppend(s, [id], id);
    assert Without([id], id) == [];
  }

  // ---------------------------------------------------------------------------
  // Labels

  /** `THEMES.find(t => t.id === id)`: the first entry with that id, if any. */
  function FindTheme(themes: seq<ThemeOption>, id: string): (r: Option<ThemeOption>)
    ensures r.None? <==> forall t :: t in themes ==> t.id.Value() != id
    ensures r.Some? ==> r.value.id.Value() == id
    ensures r.Some? ==> exists k :: 0 <= k < |themes| && themes[k] == r.value &&
                                    (forall j :: 0 <= j < k ==> themes[j].id.Value() != id)
  {
    if |themes| == 0 then None
    else if themes[0].id.Value() == id then Some(themes[0])
    else
      var r := FindTheme(themes[1..], id);
      assert forall t :: t in themes[1..] ==> t in themes;
      if r.Some? then
        var k :| 0 <= k < |themes[1..]| && themes[1..][k] == r.value &&
                 (forall j :: 0 <= j < k ==> themes[1..][j].id.Value() != id);
        assert themes[k + 1] == r.value;
        assert forall j :: 1 <= j < k + 1 ==> themes[j] == themes[1..][j - 1];
        r
      else r
  }

  /** `THEMES.find(t => t.id === id)?.label || id`: the table's label for a
      known id, the id itself otherwise. */
  function LabelOf(id: string): (text: string)
    ensures forall t :: t in Constants.THEMES && t.id.Value() == id ==> text == t.labelText
    ensures (forall t :: t in Constants.THEMES ==> t.id.Value() != id) ==> text == id
  {
    var found := FindTheme(Constants.THEMES, id);
    Constants.ThemesIdsDistinct();
    if found.Some? && found.value.labelText != "" then found.value.labelText else id
  }

  /** `selectedThemes.map(id => ...)`: one label per selected id, in order. */
  function Labels(ids: seq<string>): (labels: seq<string>)
    ensures |labels| == |ids|
    ensures forall i :: 0 <= i < |ids| ==> labels[i] == LabelOf(ids[i])
  {
    seq(|ids|, i requires 0 <= i < |ids| => LabelOf(ids[i]))
  }

  /** The label shown on the progress screen: as `LabelOf`, except that an id
      missing from the table shows as nothing (`undefined` joins as ""). */
  function ProgressLabel(id: string): (text: string)
    ensures (exists t :: t in Constants.THEMES && t.id.Value() == id) ==> text == LabelOf(id)
    ensures (forall t :: t in Constants.THEMES ==> t.id.Value() != id) ==> text == ""
  {
    match FindTheme(Constants.THEMES, id)
    case Some(t) => t.labelText
    case None => ""
  }

  function ProgressCaption(ids: seq<string>): string {
    Join(seq(|ids|, i requires 0 <= i < |ids| => ProgressLabel(ids[i])), ", ")
  }

  /** When every selected id is in the table, the progress screen names the
      topics exactly as the prompt does. */
  lemma ProgressCaptionMatchesPrompt(ids: seq<string>)
    requires forall i :: 0 <= i < |ids| ==> exists t :: t in Constants.THEMES && t.id.Value() == ids[i]
    ensures ProgressCaption(ids) == Join(Labels(ids), GeminiService.ThemeSeparator)
  {
    assert seq(|ids|, i requires 0 <= i < |ids| => ProgressLabel(ids[i])) == Labels(ids);
  }

  /** A label without a comma cannot let a ", " cut begin inside it. */
  lemma NoCommaNoCut(x: string)
    requires ',' !in x
    ensures NoCutBefore(x, GeminiService.ThemeSeparator)
  {
    forall p | 0 <= p < |x|
      ensures !StartsWith((x + GeminiService.ThemeSeparator)[p..], GeminiService.ThemeSeparator)
    {
      assert (x + GeminiService.ThemeSeparator)[p..][0] == x[p];
      FirstCharMismatch((x + GeminiService.ThemeSeparator)[p..], GeminiService.ThemeSeparator);
    }
  }

  /** No label of the theme table contains a comma, so each one survives the
      ", " join of the prompt as one piece. */
  lemma ThemeLabelsSeparable()
    ensures forall t :: t in Constants.THEMES ==> NoCutBefore(t.labelText, GeminiService.ThemeSeparator)
  {
    Constants.LabelsAreEnumStrings();
    forall t | t in Constants.THEMES
      ensures NoCutBefore(t.labelText, GeminiService.ThemeSeparator)
    {
      LabelTextHasNoComma(t.id);
      NoCommaNoCut(t.labelText);
    }
  }

  /** The label text the table gives an id contains no comma. */
  lemma LabelTextHasNoComma(id: ThemeId)
    ensures ',' !in (if id == AI then "Artificial Intelligence" else id.Value())
  {
    match id
    case AI =>
    case ROBOTICS =>
    case HARDWARE =>
    case SCIENCE =>
    case WORLD =>
    case CRYPTO =>
    case SPACE =>
    case GAMING =>
  }

  /** For a non-empty selection of table ids, the topic list of the prompt
      splits back into exactly the selection's labels, in order. */
  lemma PromptListsSelectedTopics(ids: seq<string>)
    requires |ids| >= 1
    requires forall i :: 0 <= i < |ids| ==> exists t :: t in Constants.THEMES && t.id.Value() == ids[i]
    ensures var p := GeminiService.Prompt(Labels(ids));
      Split(p[|GeminiService.PromptHead|..|p| - |GeminiService.PromptTail|], GeminiService.ThemeSeparator) == Labels(ids)
  {
    SelectedLabelsSeparable(ids);
    GeminiService.PromptRecoversThemes(Labels(ids));
  }

  lemma SelectedLabelsSeparable(ids: seq<string>)
    requires forall i :: 0 <= i < |ids| ==> exists t :: t in Constants.THEMES && t.id.Value() == ids[i]
    ensures forall i :: 0 <= i < |Labels(ids)| ==> NoCutBefore(Labels(ids)[i], GeminiService.ThemeSeparator)
  {
    var labels := Labels(ids);
    ThemeLabelsSeparable();
    forall i | 0 <= i < |labels| ensures NoCutBefore(labels[i], GeminiService.ThemeSeparator) {
      var t :| t in Constants.THEMES && t.id.Value() == ids[i];
      assert labels[i] == t.labelText;
    }
  }

  /** Every id offered for selection has its table label. */
  lemma SelectableIdsHaveLabels()
    ensures forall t :: t in Constants.THEMES ==> LabelOf(t.id.Value()) == t.labelText
  {
  }

  // ---------------------------------------------------------------------------
  // Screens

  datatype Screen =
    | SentScreen
    | GeneratingScreen(caption: string)
    | PreviewScreen(data: NewsletterData)
    | SelectionScreen(errorBanner: Option<string>, selectedCount: nat, generateEnabled: bool)

  // ---------------------------------------------------------------------------
  // The application state

  class AppState {
    var selectedThemes: seq<string>
    var status: AppStatus
    var newsletterData: Option<NewsletterData>
    var errorMessage: Option<string>

    /** The selection never holds an id twice, and the preview status always
        has a newsletter to show. */
    ghost predicate Valid()
      reads this
    {
      NoDuplicates(selectedThemes) && (status == Preview ==> newsletterData.Some?)
    }

    /** The initial state of the four `useState` hooks. */
    constructor ()
      ensures Valid()
      ensures selectedThemes == [] && status == Selection
      ensures newsletterData == None && errorMessage == None
    {
      selectedThemes := [];
      status := Selection;
      newsletterData := None;
      errorMessage := None;
    }

    /** `toggleTheme(id)`. */
    method ToggleTheme(id: string)
      requires Valid()
      modifies this
      ensures Valid()
      ensures selectedThemes == Toggle(old(selectedThemes), id)
      ensures status == old(status) && newsletterData == old(newsletterData)
      ensures errorMessage == old(errorMessage)
    {
      selectedThemes := Toggle(selectedThemes, id);
    }

    /** The part of `handleGenerate` before the model call: nothing happens on
        an empty selection; otherwise the status becomes generating, the error
        is cleared and the labels for the call are returned. */
    method BeginGenerate() returns (labels: Option<seq<string>>)
      requires Valid()
      modifies this
      ensures Valid()
      ensures old(selectedThemes) == [] ==> labels == None && unchanged(this)
      ensures old(selectedThemes) != [] ==>
        && labels == Some(Labels(old(selectedThemes)))
        && status == Generating && errorMessage == None
        && selectedThemes == old(selectedThemes) && newsletterData == old(newsletterData)
    {
      if |selectedThemes| == 0 {
        return None;
      }
      status := Generating;
      errorMessage := None;
      var themesLabels := Labels(selectedThemes);
      labels := Some(themesLabels);
    }

    /** The part of `handleGenerate` after the model call: the data and the
        preview status on success; the fixed message and the error status on
        failure, keeping whatever data was there. */
    method CompleteGenerate(outcome: Result<NewsletterData, GeminiService.GenerateError>)
      requires Valid()
      modifies this
      ensures Valid()
      ensures selectedThemes == old(selectedThemes)
      ensures outcome.Success? ==>
        newsletterData == Some(outcome.value) && status == Preview && errorMessage == old(errorMessage)
      ensures outcome.Failure? ==>
        status == Error && errorMessage == Some(CoffeeBreakMessage) && newsletterData == old(newsletterData)
    {
      match outcome
      case Success(data) =>
        newsletterData := Some(data);
        status := Preview;
      case Failure(_) =>
        errorMessage := Some(CoffeeBreakMessage);
        status := Error;
    }

    /** `handleGenerate`, with the credential and the outcome of the model
        call as parameters; `request` is the prompt sent, `None` when no call
        is made. */
    method HandleGenerate(apiKeyPresent: bool, reply: GeminiService.CallOutcome, now: Timestamp)
      returns (request: Option<string>)
      requires Valid()
      modifies this
      ensures Valid()
      ensures old(selectedThemes) == [] ==> request == None && unchanged(this)
      ensures old(selectedThemes) != [] ==>
        && selectedThemes == old(selectedThemes)
        && request == (if apiKeyPresent then Some(GeminiService.Prompt(Labels(old(selectedThemes)))) else None)
      ensures old(selectedThemes) != [] && apiKeyPresent && reply.Replied? ==>
        && status == Preview && errorMessage == None
        && newsletterData == Some(GeminiService.NewsletterFrom(reply.response, now))
      ensures old(selectedThemes) != [] && !(apiKeyPresent && reply.Replied?) ==>
        && status == Error && errorMessage == Some(CoffeeBreakMessage)
        && newsletterData == old(newsletterData)
    {
      var labels := BeginGenerate();
      if labels.None? {
        return None;
      }
      var result;
      request, result := GeminiService.GenerateWeeklyNewsletter(apiKeyPresent, labels.value, reply, now);
      CompleteGenerate(result);
    }

    /** `handleSendEmail`: sending is simulated, the status becomes sent
        whatever the address. */
    method HandleSendEmail(email: string)
      requires Valid()
      modifies this
      ensures Valid()
      ensures status == Sent
      ensures selectedThemes == old(selectedThemes) && newsletterData == old(newsletterData)
      ensures errorMessage == old(errorMessage)
    {
      status := Sent;
    }

    /** `handleReset`: back to selection with no data and no topics; the error
        message is left as it was. */
    method HandleReset()
      requires Valid()
      modifies this
      ensures Valid()
      ensures status == Selection && newsletterData == None && selectedThemes == []
      ensures errorMessage == old(errorMessage)
    {
      status := Selection;
      newsletterData := None;
      selectedThemes := [];
    }

    /** The preview's back button: only the status changes. */
    method Back()
      requires Valid()
      modifies this
      ensures Valid()
      ensures status == Selection
      ensures selectedThemes == old(selectedThemes) && newsletterData == old(newsletterData)
      ensures errorMessage == old(errorMessage)
    {
      status := Selection;
    }

    /** The screen rendered for the current state. In a valid state the preview
        is shown exactly when the status is preview; the error banner appears
        only with the error status; generating is enabled only with a
        non-empty selection. */
    function CurrentScreen(): (s: Screen)
      reads this
      ensures s.SentScreen? <==> status == Sent
      ensures s.GeneratingScreen? <==> status == Generating
      ensures s.GeneratingScreen? ==> s.caption == ProgressCaption(selectedThemes)
      ensures Valid() ==> (s.PreviewScreen? <==> status == Preview)
      ensures s.PreviewScreen? ==> newsletterData == Some(s.data)
      ensures s.SelectionScreen? ==> (s.errorBanner.Some? <==> status == Error)
      ensures s.SelectionScreen? && status == Error ==> s.errorBanner == Some(errorMessage.GetOr(""))
      ensures s.SelectionScreen? ==> s.selectedCount == |selectedThemes| && (s.generateEnabled <==> selectedThemes != [])
    {
      if status == Sent then SentScreen
      else if status == Generating then GeneratingScreen(ProgressCaption(selectedThemes))
      else if status == Preview && newsletterData.Some? then PreviewScreen(newsletterData.value)
      else SelectionScreen(if status == Error then Some(errorMessage.GetOr("")) else None,
                           |selectedThemes|, |selectedThemes| > 0)
    }
  }
}
