# BotResponse: a verified model of the chat widget's answer component

This project models, in Dafny, the one piece of logic in the chat widget
front end that is more than layout: the `BotResponse` component, which shows
one answer of the question-answering bot. It covers four things.

- **Citation de-duplication.** The component passes the answer's citations
  through a JavaScript `Map` keyed by title and keeps `values()`. Module
  `Citations` models that Map as a sequence of entries in key-insertion order.
  `MapSet` is `Map.prototype.set`, and `MapValues` is the constructor's
  left-to-right run of `set`. Each distinct title keeps the position of its
  first occurrence, and the citation stored there is the last one with that
  title. These facts are proved against reference definitions that do not
  use the Map: `FirstSeenTitles` and `LastWithTitle`.
- **Message text.** An absent message reads as `""`. For the HTML view every
  line feed becomes `<br>`. This is module `MessageText`. The substitution
  cannot always be undone, since a `<br>` already in the message and one made
  from a line feed look alike. `RestoreNewlines` recovers the message only
  when the message holds no `<br>` of its own (`RestoreAfterReplace`).
- **The feedback controller.** `handleFeedback` is the class
  `Feedback.FeedbackController`. Its fields `feedback` and `isSubmitting` are
  updated in place. Its method `HandleFeedback` is proved equal to the pure
  step function `Feedback.Step`. The lemmas about `Step` and `Run` (a
  sequence of clicks) state the guard, the toggle, commit-on-success,
  rollback and the `finally` that clears the in-flight flag. The call to the
  feedback service is an `Outcome` parameter: `Success`, `Failure` (reported
  failure) or `Throws`.
- **The view choice.** Module `BotView` covers the thinking indicator versus
  the answer, markdown versus HTML, the sources list and the feedback
  controls. `ALLOW_FEEDBACK` and `ALLOW_MARKDOWN_BOT` appear as constants
  with their shipped values.

For duplicate titles the Map keeps the position of the first occurrence and
the value of the last. A later citation with the same title replaces the
stored value while its key stays where it was first inserted, so
`[A/u1, B/u2, A/u3]` becomes `[A/u3, B/u2]`, not `[A/u1, B/u2]`.
`Citations.LaterDuplicateOverwritesEarlier` states this case.
The feedback controls are shown even when the message or conversation id is
missing. The code marks this as temporary, and the model keeps it as written
(`BotView.FeedbackVisibilityIgnoresIds`).

## Model

| member | source | states |
|---|---|---|
| Citations.MapSet | src/Components/BotResponse.jsx:40-41 | `Map.set` by title on entries with distinct titles: an existing title keeps its position and takes the new citation; a new title is appended; nothing else changes |
| Citations.MapSetKeys | src/Components/BotResponse.jsx:40-41 | after `set` the titles are still distinct, and the title sequence is the old one, or the old one with the new title appended |
| Citations.MapValues | src/Components/BotResponse.jsx:40-42 | the Map's values have distinct titles, and their titles are exactly the input's distinct titles in order of first occurrence |
| Citations.UniqueCitations | src/Components/BotResponse.jsx:40-42 | a null or absent citation list gives `[]`; the result never repeats a title and is no longer than the input |
| Citations.UniqueCitationsMatchesReference | src/Components/BotResponse.jsx:40-42 | the result equals the reference: one entry per distinct title in first-seen order, each the last input citation with that title |
| Citations.EachTitleExactlyOnce | src/Components/BotResponse.jsx:40-42 | a title occurs in the output iff it occurs in the input, and then at exactly one position |
| Citations.KeepsLastPerTitle | src/Components/BotResponse.jsx:40-42 | every kept citation is the last input citation with its title (a later `set` overwrites the value) |
| Citations.UniqueCitationsInFirstSeenOrder | src/Components/BotResponse.jsx:40-42 | of two kept citations, the earlier one's title first occurs earlier in the input |
| Citations.FirstSeenTitlesOrdered | src/Components/BotResponse.jsx:40-42 | the reference title list is strictly ordered by first index in the input |
| Citations.DistinctIsFixedPoint | src/Components/BotResponse.jsx:40-42 | a list whose titles are already distinct passes through the Map unchanged |
| Citations.UniqueCitationsIdempotent | src/Components/BotResponse.jsx:40-42 | de-duplicating twice equals de-duplicating once, and the result is no longer than the input |
| Citations.LaterDuplicateOverwritesEarlier | src/Components/BotResponse.jsx:40-42 | `[A/u1, B/u2, A/u3]` becomes `[A/u3, B/u2]` |
| Citations.FirstSeenTitlesSpec | src/Components/BotResponse.jsx:40-42 | the reference title list holds every title of the input exactly once, nothing else, and is no longer than the input |
| Citations.SetOfNewTitleAppends | src/Components/BotResponse.jsx:40-41 | `set` with a title not yet in the Map appends the citation at the end |
| MessageText.SafeMessage | src/Components/BotResponse.jsx:21 | the fallback to `""`: an absent message reads as the empty string, a present one as itself |
| MessageText.ReplaceNewlines | src/Components/BotResponse.jsx:37 | the output holds no line feed, is at least as long as the input, and equals the input when the input has no line feed |
| MessageText.FormattedMessage | src/Components/BotResponse.jsx:37 | `formattedMessage` holds no line feed; an absent message gives `""` (the fallback of line 21) |
| MessageText.ReplaceNewlinesConcat | src/Components/BotResponse.jsx:37 | the replacement distributes over concatenation, so it acts on every character independently (global flag) |
| MessageText.ReplaceNewlinesOneChar | src/Components/BotResponse.jsx:37 | a line feed becomes `<br>`; every other character stays as it is |
| MessageText.RestoreAfterReplace | src/Components/BotResponse.jsx:37 | for text without a `<br>` of its own, reading each `<br>` back as a line feed recovers the message |
| MessageText.OpensWithBreakTag | src/Components/BotResponse.jsx:37 | a `<br>` at the head of the output comes from a line feed or was already at the head of the input |
| MessageText.PlainPrefix | src/Components/BotResponse.jsx:37 | an output prefix without `<` is copied verbatim from the input |
| Feedback.Blocked | src/Components/BotResponse.jsx:53 | a click is blocked when a submission is in flight; it goes through iff nothing is in flight and both ids are non-empty |
| Feedback.Target | src/Components/BotResponse.jsx:63 | the target is the requested vote or none; it is none iff the requested vote is the current one (or none) |
| Feedback.Step | src/Components/BotResponse.jsx:52-87 | no service call iff blocked (in flight, or an id empty), and then no change; otherwise one call with the toggled target and both ids; the flag ends lowered; the vote changes only on success, and then to the target |
| Feedback.FeedbackController.constructor | src/Components/BotResponse.jsx:22-23 | the controller starts with no vote and nothing in flight |
| Feedback.FeedbackController.HandleFeedback | src/Components/BotResponse.jsx:52-87 | the new `feedback`/`isSubmitting` and the call made are exactly those of `Step` on the old state; the in-flight flag is up while the call is outstanding, and only then |
| Feedback.Run | src/Components/BotResponse.jsx:52-87 | clicks handled one after another, each to completion, make at most one service call per click, and every call carries the message and conversation ids |
| Feedback.RunShowsLastAcknowledged | src/Components/BotResponse.jsx:75-83 | after any sequence of clicks the recorded vote is the one in the last call the service acknowledged, or the initial one; failed and throwing calls leave no trace |
| Feedback.RunRestoresFlag | src/Components/BotResponse.jsx:84-86 | after any sequence of clicks `isSubmitting` is what it was before, so an idle controller always ends idle |
| Feedback.BlockedRunIsInert | src/Components/BotResponse.jsx:53-60 | with a submission in flight or an empty id, no click reaches the service and the state does not change |
| Feedback.EveryClickIsSent | src/Components/BotResponse.jsx:72-73 | with both ids present and nothing in flight, every click makes exactly one service call, in click order, with its own outcome; the i-th request is the i-th requested vote toggled against the vote recorded after the clicks before it, with both ids |
| Feedback.SameVoteTwiceClears | src/Components/BotResponse.jsx:63 | two acknowledged clicks on the same vote, starting from no vote, end at no vote |
| Feedback.UpThenDownEndsDown | src/Components/BotResponse.jsx:63 | an acknowledged up-vote then an acknowledged down-vote end at down-voted |
| Feedback.ToggleTwice | src/Components/BotResponse.jsx:63 | toggling the same vote twice returns to that vote when it was current, and to none otherwise |
| Feedback.FailedChangeRollsBack | src/Components/BotResponse.jsx:78-83 | a reported failure or an exception leaves the recorded vote at its pre-call value |
| BotView.IsThinking | src/Components/BotResponse.jsx:90 | a message is thinking iff its state is `"PROCESSING"`; `"RECEIVED"` and `"PENDING"` are not |
| BotView.ShouldShowFeedback | src/Components/BotResponse.jsx:93 | the controls are shown iff `ALLOW_FEEDBACK` is set and the message is not in progress; the ids are not consulted |
| BotView.Render | src/Components/BotResponse.jsx:104-209 | thinking view iff `state == "PROCESSING"`; otherwise exactly one text policy per the markdown flag; the markdown source is the message or `""`, and the HTML body is the message with every line feed turned into `<br>`; the sources list appears iff a citation survives de-duplication, and then it is the de-duplicated list; the controls appear iff `ALLOW_FEEDBACK`, disabled while submitting, with the recorded vote highlighted |
| BotView.ProcessingShowsNothingElse | src/Components/BotResponse.jsx:104-157 | a message in progress renders only the thinking view: no citations, no feedback controls |
| BotView.FeedbackVisibilityIgnoresIds | src/Components/BotResponse.jsx:92-93 | changing or removing the ids does not change the render |
| BotView.ShippedConfiguration | src/utilities/constants.js:124-135 | with the shipped flags a delivered answer is HTML with `<br>` line breaks and always offers feedback controls |

## Left out

- Layout, MUI styling, the avatar, the typing animation and the icons
  (`src/Components/BotResponse.jsx`, lines 104-250) are presentational. Only
  the choices that `BotView.Render` records are modelled.
- `ReactMarkdown` and the browser's interpretation of the inner HTML are
  foreign libraries. The model records which body is chosen and its text,
  not how it is displayed.
- `AmazonQService.sendFeedback` is a network client; its source is not part of
  this model. Its result is the `Outcome` parameter. The error text of a
  reported failure is not kept.
- All `console.log`/`console.error` calls and the logging `useEffect` are
  output only.
- React's asynchronous state updates and stale closures are not modelled. In
  the running component, two clicks within one render can both read
  `isSubmitting == false`, and the `catch` block writes back the vote captured
  when the click began. `FeedbackController.HandleFeedback` runs each click
  to completion on explicit fields. The buttons are also disabled while a
  submission is in flight (`BotView.Render`).
- Ids and props are modelled as plain strings and options. JavaScript's
  falsy values (`null`, `undefined`, `""`) for an id become `""`. A `null` or
  absent message or citation list becomes `None`. A non-string message or
  title is not modelled. Titles are compared as strings, which is what the
  Map's key equality does for strings.
- The ids are fixed for a `FeedbackController`. A re-render with new id props
  is a new controller in this model.
- `src/utilities/constants.js` (colours and text tables),
  `frontend/src/Components/LeftNav.jsx` (panel open and close) and
  `frontend/src/config.js` (environment configuration) hold no logic of this
  component. Only the two flags `ALLOW_FEEDBACK` and `ALLOW_MARKDOWN_BOT` are
  used.
