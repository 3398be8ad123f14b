# The Witty Weekly Wire — a verified model of its core

The Witty Weekly Wire is a browser app. The user picks topics from a fixed table of six themes and asks a
generative model for a weekly newsletter. The app then previews the result and "sends" it. This
project models four parts of that app in Dafny:

- **Newsletter generation** (`GeminiService.dfy`). The credential guard comes first. The prompt
  joins the theme labels with `", "`. There is a single model call, whose outcome is a parameter.
  An empty text falls back to a placeholder. The citation loop keeps grounding chunks that have
  both a uri and a title. The `filter`/`findIndex` de-duplication then keeps the first citation
  for each uri.
- **The application state machine** (`App.dfy`). It is a class `AppState` holding the four
  `useState` fields. Its methods are `toggleTheme`, `handleGenerate` (split at its `await` into
  `BeginGenerate` and `CompleteGenerate`), `handleSendEmail`, `handleReset` and the preview's back
  button. The id→label lookup against the theme table is also here, as is the choice of screen
  from the status.
- **The preview renderer** (`NewsletterPreview.dfy`). `renderContent` splits the text on line
  feeds. Each line becomes an h2, an h3, a bullet, a paragraph or nothing. Bullets and paragraphs
  are split on `**`, and the odd-indexed parts are bold. This file also holds the send guard, the
  choice of link text for a source, and the rule for when the sources block is shown.
- **The theme table** (`Constants.dfy`), with its order, distinct ids and labels.

`Strings.dfy` gives the JavaScript string operations the code relies on their exact literal-argument
semantics. These are `split`, `join`, `replace` (first occurrence only), `indexOf`, `startsWith`
and `trim`. It also defines `RemoveAll`, which deletes every occurrence of a separator. The code
never calls it: it is a reference definition that states what the bold-marker split leaves visible.
The file also proves the facts about these operations that the rest of the model uses: split/join
round trips, "split then concatenate" equals "delete every separator", and line counts.
`Types.dfy` holds the shared records and enumerations.

## Model

| member | source | states |
|---|---|---|
| GeminiService.GenerateWeeklyNewsletter | services/geminiService.ts:6-69 | Without the key, no request is made and the result is the missing-key failure, whatever the model would have answered. With the key, the request is exactly the prompt for the given themes. A thrown call is passed on as a failure. A response yields the newsletter built from it. |
| GeminiService.Prompt | services/geminiService.ts:11-28 | The prompt is the fixed opening, then the theme labels joined by ", " in the given order, then the fixed guidelines. |
| GeminiService.PromptRecoversThemes | services/geminiService.ts:13 | Splitting the middle of the prompt on ", " gives back the theme list, when no label lets a ", " begin inside it. |
| GeminiService.ContentOf | services/geminiService.ts:40 | The content is the response text when that is present and non-empty, and the "Writer's block!" placeholder otherwise. So it is never empty. |
| GeminiService.RawChunks | services/geminiService.ts:43 | When the first candidate has grounding metadata with a chunk list, the result is exactly that list. Otherwise, when the candidates are missing or empty or the metadata or its chunk list is missing, the result is empty. |
| GeminiService.ExtractSources | services/geminiService.ts:44-54 | The `forEach` loop collects exactly `Extracted(rawChunks)`. |
| GeminiService.ExtractedMembers | services/geminiService.ts:47-54 | A citation is extracted if and only if some chunk has a web reference with a truthy uri and title and maps to that `{uri, title}`. Every extracted citation has a non-empty uri and title. |
| GeminiService.ExtractedAppend | services/geminiService.ts:47-54 | Extraction distributes over concatenation, so citations come out in chunk order. |
| GeminiService.FindIndexByUri | services/geminiService.ts:57 | `findIndex` returns the first index holding the uri, or -1 exactly when no element holds it. |
| GeminiService.Dedupe | services/geminiService.ts:57 | No two results share a uri, and every uri of the input is still present. Each result is the first input element with its uri, so it keeps that element's title. Results follow the order of first occurrences, so the output is a subsequence of the input. |
| GeminiService.KeepFirstOfUnique | services/geminiService.ts:57 | On a list whose uris are already distinct, the filter keeps every element. |
| GeminiService.DedupeIdempotent | services/geminiService.ts:57 | De-duplicating twice equals de-duplicating once. |
| GeminiService.NewsletterFrom | services/geminiService.ts:40-63 | The content is `ContentOf(response.text)`, so it is the text or the placeholder, never empty. The sources are exactly `Dedupe` of the extracted citations, and so carry all of `Dedupe`'s guarantees. Source uris are distinct, cover the extracted uris, and every source comes from the extraction. The timestamp is the one given. |
| NewsletterPreview.Render | components/NewsletterPreview.tsx:22-55 | There is one block per line-feed-separated line, which is one more than the number of line feeds. Each block renders its own line. |
| NewsletterPreview.LinesOfText | components/NewsletterPreview.tsx:23 | No line contains a line feed. Joining the lines with line feeds gives back the text. |
| NewsletterPreview.RenderLine | components/NewsletterPreview.tsx:24-53 | There are five cases, each an if-and-only-if. An h2 arises exactly when the raw line starts with `## `, and holds the rest of the line verbatim. An h3 arises exactly when it starts with `### `, and holds the rest verbatim. A bullet arises exactly when neither header test passes and the trimmed line starts with `* ` or `- `; its spans come from the trimmed line minus two characters. A paragraph arises exactly when none of these tests pass and the line is not all whitespace; its spans come from the raw line. Nothing arises exactly when the line is all whitespace. |
| NewsletterPreview.HeaderTestsExclusive | components/NewsletterPreview.tsx:25-29 | A line starting with `### ` never passes the `## ` test. |
| NewsletterPreview.IndentedHeaderIsParagraph | components/NewsletterPreview.tsx:25-52 | An indented `## ` line is not a header. It is a paragraph of the whole raw line. |
| NewsletterPreview.IndentedBulletIsBullet | components/NewsletterPreview.tsx:33-42 | A line of leading whitespace, then `* ` or `- `, then non-empty content whose last character is not whitespace is a bullet of exactly that content. The condition on the content is needed because the trimmed line loses any trailing whitespace. |
| NewsletterPreview.Spans | components/NewsletterPreview.tsx:36-39 | There is one span per part of the split on `**`, with the part's text, and the span is bold exactly at odd indices. |
| NewsletterPreview.SpansDropMarkers | components/NewsletterPreview.tsx:46-49 | The span texts laid end to end are the input with every `**` deleted. Joined with `**`, they give back the input. |
| NewsletterPreview.SpansWithoutStars | components/NewsletterPreview.tsx:46-49 | Text with no `*` is a single plain span. |
| NewsletterPreview.HandleSend | components/NewsletterPreview.tsx:13-18 | `onSend` receives the address if and only if it is non-empty, and then it receives that address. |
| NewsletterPreview.LinkLabel | components/NewsletterPreview.tsx:98 | A source link shows the title when it is non-empty, and the uri otherwise. |
| NewsletterPreview.ShowsSources | components/NewsletterPreview.tsx:90 | The sources block is shown if and only if the list is non-empty. |
| NewsletterPreview.GeneratedLinksShowTitles | components/NewsletterPreview.tsx:98 | For a generated newsletter, every source link shows its title, and every uri is non-empty. |
| Constants.ThemesOrder | constants.ts:3-40 | There are six entries, in the order AI, Robotics, Hardware, Science, Space, World. |
| Constants.ThemesIdsDistinct | constants.ts:3-40 | The id strings of the table are pairwise distinct. |
| Constants.CryptoAndGamingNotOffered | constants.ts:3-40 | Neither Crypto nor Gaming has an entry. |
| Constants.LabelsAreEnumStrings | constants.ts:3-40 | Every label equals its id's enum string, except AI's, which is "Artificial Intelligence". |
| App.Without | App.tsx:17 | The filter keeps exactly the elements other than `id`, and it is the identity when `id` is absent. It preserves "no duplicates". |
| App.Toggle | App.tsx:14-20 | `id` is selected afterwards if and only if it was not selected before, and other ids are unaffected. An absent id is appended at the end. A present id is removed by the filter `Without(prev, id)`, which keeps the other ids in order, so the list shrinks. "No duplicates" is preserved. |
| App.ToggleTwiceRestores | App.tsx:15-19 | Toggling an unselected id twice restores the selection. |
| App.FindTheme | App.tsx:29 | `find` returns the first entry with the id, or nothing exactly when no entry has it. |
| App.LabelOf | App.tsx:29 | A known id maps to its table label. An unknown id maps to itself. |
| App.Labels | App.tsx:29 | The label list has one label per selected id, in the same order. |
| App.ThemeLabelsSeparable | constants.ts:3-40 | No label of the table lets a ", " cut begin inside it, because none contains a comma. |
| App.PromptListsSelectedTopics | App.tsx:29-30 | For any non-empty selection of table ids, splitting the prompt's topic list on ", " gives back exactly the selection's labels, in order. |
| App.SelectableIdsHaveLabels | App.tsx:29 | Every id offered for selection maps to its own table label. |
| App.ProgressLabel | App.tsx:87 | The progress screen shows the same label as the prompt for a known id, and nothing for an unknown one. |
| App.ProgressCaptionMatchesPrompt | App.tsx:87 | When every selected id is in the table, the progress caption equals the labels joined as in the prompt. |
| App.AppState.constructor | App.tsx:9-12 | The app starts with no topics, the selection status, no data and no error message. |
| App.AppState.ToggleTheme | App.tsx:14-20 | The selection becomes `Toggle` of the old one. Nothing else changes, and "no duplicates" is kept. |
| App.AppState.BeginGenerate | App.tsx:22-29 | With no topics, nothing changes and no call is made. Otherwise the status becomes generating, the error is cleared, and the labels of the selection are handed to the service. |
| App.AppState.CompleteGenerate | App.tsx:30-37 | On success, the data is set and the status becomes preview. On failure, the status becomes error with the fixed "coffee break" message and the old data is kept. The selection is unchanged either way. |
| App.AppState.HandleGenerate | App.tsx:22-38 | With no topics, nothing changes and no request is made. Otherwise the request is the prompt for the selection's labels, or none without a key. A reply leads to preview with the built newsletter and no error message. A missing key or a thrown call leads to error with the fixed message. |
| App.AppState.HandleSendEmail | App.tsx:40-46 | The status becomes sent, whatever the address. Nothing else changes. |
| App.AppState.HandleReset | App.tsx:48-52 | The status becomes selection, the data is cleared and the selection is emptied. The error message is left as it was. |
| App.AppState.Back | App.tsx:99 | Only the status changes, to selection. |
| App.AppState.CurrentScreen | App.tsx:56-188 | Sent and generating each have their own screen, and the generating screen's caption is the progress caption of the selection. In a valid state, the preview is shown exactly when the status is preview. The error banner appears exactly with the error status and shows the error message. Generation is enabled exactly when topics are selected. |

## Left out

- The `GoogleGenAI` client and its network call: the outcome of the one call is a parameter (a response or a thrown error). The model name and the `temperature: 0.7` setting have no logic and are not modelled.
- `process.env.API_KEY`: modelled as a boolean "key present". The key's value is never read by the modelled logic.
- `new Date()` and `toLocaleDateString`: the timestamp is an opaque parameter, and the date line of the preview is not rendered.
- The empty `setTimeout` callback in `handleSendEmail`, every `console.error`, all JSX markup, `className` strings and React `key`s.
- The theme cards' `isSelected` highlighting and the selection counter's markup. Only the count and the enabled state of the generate button are modelled.
- components/ThemeCard.tsx, components/SourceChip.tsx, components/HistoryModal.tsx and components/ScheduleModal.tsx are presentation only and are not part of this model.
- `trim()` is modelled with a fixed whitespace set: space, tab, line feed, carriage return, vertical tab, form feed, no-break space and byte-order mark. The other Unicode space separators and line/paragraph separators are not included.
- The browser's `type="email"`/`required` form validation. `HandleSend` models only the handler's own non-empty test.
- React's asynchronous state updates and re-renders. `handleGenerate` is modelled as two steps around its `await`, and a second click during generation is not modelled (that screen offers no controls).
- GeminiService.GenerateWeeklyNewsletter: every error thrown by the model call is one `ApiError` value. The error object itself is not carried.
- GeminiService.PromptRecoversThemes: proved for any labels in which no `", "` can begin. `App.ThemeLabelsSeparable` shows that every label of the table meets that condition, and `App.PromptListsSelectedTopics` combines the two.
- components/HistoryModal.tsx reads `id`, `gmailUsed` and `themes` from its items (lines 48, 56 and 64). `NewsletterData` in types.ts:24-28 declares none of these fields, and the modal is not part of this model.
