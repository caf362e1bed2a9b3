# Profesor.exe front end: a verified model

Profesor.exe is a text adventure in which the player is a computer-science
lecturer. A remote language model narrates the game. Each of its replies
holds a narrative, three stats, up to three suggested actions and two end
flags. The front end keeps the session status, the transcript and the latest
reply. It reveals each narrative one character at a time and renders `**`
markup as emphasis. It draws each stat as a bar clamped to 0..100.

This project models that front end's logic in Dafny and proves its properties:

- `App` (App.tsx) is the game screen as a class `Game`. Its fields are the
  status, transcript, current reply, input, `loading` and `isTyping`.
  - Each handler is split at its `await`. `BeginStart`/`BeginAction` do
    what runs before the call. `FinishStart`/`FinishAction` receive the
    call's outcome as a `Reply` (`Ok(GameResponse)` or `Err`).
  - `HandleStartGame`/`HandleAction` run both halves.
  - `SubmitInput` and `PickChoice` are the form and the choice buttons.
  - `TypingDone` is the reveal's `onComplete`. `EditInput` is the input box.
  - The object invariant `Valid` says these things. `loading` is set exactly
    while a call is out. User and model entries alternate. Every user entry
    is answered once no call is out.
- `JsString` is JavaScript's `trim` and the blank test `!s.trim()` that
  guards actions and the submit button.
- `Emphasis` is `renderText` in components/TypewriterText.tsx. It covers
  `split('**')`, the partner `join('**')` and the emphasis of odd-indexed
  parts.
- `Typewriter` is the reveal effect of components/TypewriterText.tsx as a
  class `Reveal`. It has a restart, one timer tick and a run to completion.
- `StatBar` is components/StatBar.tsx. It covers the clamped bar width and
  the `value%` label, with a parser that reads the label back.
- `GameTypes` holds the records of types.ts. `Wrappers` holds `Option`.

Two behaviours of the code worth knowing:

- With an odd number of `**` delimiters, the trailing unmatched text is
  emphasised. It is not shown plain, and no `**` survives to be shown
  literally (`OddDelimsEmphasiseTail`).
- A failed start does not return the status to idle. It leaves the status as
  it was, which is `Playing`, `GameOver` or `Victory` on a restart. The
  transcript stays cleared, and the previous reply and `isTyping` are kept.
  So a restart that fails while a narrative is still being revealed leaves
  `isTyping` set with no entry left to reveal. The input and choices then
  stay disabled until a later start succeeds (`FailedRestartWhileRevealing`).

## Model

| member | source | states |
|---|---|---|
| `App.Game.constructor` | App.tsx:9-14 | The screen starts idle: empty transcript, no reply, empty input, nothing loading or typing. |
| `App.Game.BeginStart` | App.tsx:26-28 | Starting sets `loading` and empties the transcript. Status, reply, input and `isTyping` are untouched. |
| `App.Game.FinishStart` | App.tsx:29-40 | A reply sets status `Playing`, the transcript to exactly its narrative, the current reply to it, and `isTyping`. A failure leaves the status, the reply, `isTyping` and the emptied transcript as they were. `loading` ends either way. |
| `App.Game.HandleStartGame` | App.tsx:26-41 | The whole start handler. A reply gives `Playing` with `[model narrative]`. A failure gives an empty transcript with status and reply unchanged. `loading` is false afterwards. |
| `App.Game.BeginAction` | App.tsx:43-50 | Accepted iff the action is not blank after trim, nothing is loading and the status is `Playing`. A refused action changes nothing. An accepted one appends exactly one user entry with the raw text, clears the input, sets `loading` and drops the current reply. |
| `App.Game.FinishAction` | App.tsx:52-68 | A reply appends its narrative, becomes the current reply and sets `isTyping`. Status is `GameOver` if `gameOver` (whatever `victory` says), `Victory` if only `victory`, else `Playing`. A failure appends the fallback text with status unchanged and no reply. `loading` ends either way. |
| `App.Game.HandleAction` | App.tsx:43-69 | The whole action handler. It is refused (no change at all) exactly when the guard fails. Otherwise the transcript gains `[user action, model narrative or fallback]` in that order, with the status rule above and `loading` false. |
| `App.ReplyEntry` | App.tsx:55-65 | The entry a returned call appends is always a model entry. |
| `App.Game.SubmitInput` | App.tsx:224-225 | Submitting acts on the current input text. When accepted, that text is the user entry followed by the reply's narrative or the fallback, the input is cleared, and the status, current reply and `isTyping` follow the action handler's rules. |
| `App.Game.PickChoice` | App.tsx:208-213 | A visible choice button is accepted exactly when its text is not blank. The user entry is that choice, followed by the reply's narrative or the fallback; the status follows the `gameOver`-first rule and `isTyping` is set exactly when a reply arrived. |
| `App.Game.TypingDone` | App.tsx:158-159 | `onComplete` clears `isTyping` and nothing else. |
| `App.Game.EditInput` | App.tsx:228-233 | The enabled input box replaces the input text and nothing else. |
| `App.Game.ControlsDisabledWhileLoading` | App.tsx:208-238 | While a call is out, the choices are hidden, the input box is disabled and submit is disabled. |
| `App.Game.FinishedGameAcceptsNoAction` | App.tsx:44 | `GameOver` and `Victory` accept no action. |
| `App.Game.SubmitEnabledMeansAccepted` | App.tsx:236-238 | An enabled submit button means the typed action passes the handler's guard. |
| `JsString.TrimStartDropsLeadingWhitespace` | App.tsx:44 | The result is a suffix of the input, the removed prefix is all whitespace, and the result does not start with whitespace. |
| `JsString.TrimEndDropsTrailingWhitespace` | App.tsx:44 | The result is a prefix of the input, the removed suffix is all whitespace, and the result does not end with whitespace. |
| `JsString.BlankIffAllWhitespace` | App.tsx:44 | `!s.trim()` holds exactly when every character of `s` is ECMAScript whitespace or a line terminator. |
| `JsString.TrimIdempotent` | App.tsx:238 | Trimming an already trimmed string changes nothing. |
| `StatBar.Width` | components/StatBar.tsx:23 | The width is within [0, 100]. It equals the value when the value is in range, is 0 below it and is 100 above it. |
| `StatBar.WidthIdempotent` | components/StatBar.tsx:23 | Clamping a width again leaves it unchanged. |
| `StatBar.WidthMonotone` | components/StatBar.tsx:23 | `a <= b` implies `Width(a) <= Width(b)`. |
| `StatBar.NatText` | components/StatBar.tsx:18 | A natural number's text is a non-empty digit string without leading zeros. |
| `StatBar.LabelShowsRawValue` | components/StatBar.tsx:18 | The label `value%` reads back as exactly the raw value. |
| `StatBar.LabelIsUnclamped` | components/StatBar.tsx:18-23 | For a value outside [0, 100], the label differs from the label of the width the bar is drawn at. |
| `Emphasis.Split` | components/TypewriterText.tsx:30 | `split('**')` yields at least one part, and the first part is a prefix of the content. |
| `Emphasis.SplitJoin` | components/TypewriterText.tsx:30 | Joining the parts with `**` gives back the content exactly. |
| `Emphasis.SplitPartsHaveNoDelim` | components/TypewriterText.tsx:30 | No part contains `**`. |
| `Emphasis.SplitIsLeftmost` | components/TypewriterText.tsx:30 | Matching is leftmost and non-overlapping: no part followed by a delimiter ends with `*`. |
| `Emphasis.SplitCharacterised` | components/TypewriterText.tsx:30 | The split satisfies the three properties above, and any list of parts that satisfies them is the split. |
| `Emphasis.SplitUnique` | components/TypewriterText.tsx:30 | A list of parts that joins to the content, has no `**` in any part and is leftmost equals the split. |
| `Emphasis.NoDelimSplitsToItself` | components/TypewriterText.tsx:30 | Text without `**` gives one part equal to the text. |
| `Emphasis.SinglePartIffNoDelim` | components/TypewriterText.tsx:30 | There is exactly one part iff the text has no `**`. |
| `Emphasis.SplitPartCount` | components/TypewriterText.tsx:30 | The number of parts is one more than the number of non-overlapping `**` found scanning left to right. |
| `Emphasis.Render` | components/TypewriterText.tsx:29-33 | One span per part with that part's text. A span is emphasised iff its index is odd. |
| `Emphasis.RenderRoundTrip` | components/TypewriterText.tsx:29-33 | Joining the rendered spans' texts with `**` gives back the content. |
| `Emphasis.RenderWithoutDelim` | components/TypewriterText.tsx:29-33 | Text without `**` renders as a single plain span holding the text. |
| `Emphasis.OddDelimsEmphasiseTail` | components/TypewriterText.tsx:30-31 | With an odd number of delimiters the last span is emphasised; there is no fallback to plain. |
| `Emphasis.EvenDelimsKeepTailPlain` | components/TypewriterText.tsx:30-31 | With an even number of delimiters the last span is plain. |
| `Emphasis.SplitExample` | components/TypewriterText.tsx:30 | `You **pass** the test` splits into `You `, `pass` and ` the test`. |
| `Emphasis.RenderExample` | components/TypewriterText.tsx:29-33 | `You **pass** the test` renders as plain `You `, emphasised `pass`, plain ` the test`. |
| `Typewriter.Reveal.constructor` | components/TypewriterText.tsx:10-15 | On mount, nothing is shown, the counter is 0 and the timer runs. |
| `Typewriter.Reveal.Restart` | components/TypewriterText.tsx:12-15 | When the text changes (or another dependency does), the shown text resets to empty and the counter to 0. |
| `Typewriter.Reveal.Tick` | components/TypewriterText.tsx:15-22 | While `i < text.length`, a tick appends `text[i]` and increments `i`. At `i == text.length` it stops the timer and fires `onComplete` once. A stopped timer does nothing. The shown text is always `text[..i]`. |
| `Typewriter.Reveal.RunToEnd` | components/TypewriterText.tsx:15-23 | A running reveal stops after one tick per remaining character plus one. The whole text is then shown and `onComplete` has fired exactly once. |

## Left out

- services/geminiService.ts is not part of this model. The prompt, the
  response schema, the chat session and `JSON.parse` are replaced by the
  `Reply` each `Finish` method receives. An error thrown by the service
  (no text, unparsable JSON, a network failure, or "Game not started") is
  `Err`. The service's own "not started" guard is not modelled. An action
  reaches it only in `Playing`, which needs a start call, and that call
  opens the chat before sending anything.
- App.Game.BeginStart: requires that no call is out. The source does not
  demand this of its callers: the restart button (App.tsx:110-118) and the
  play-again button (App.tsx:197-202) stay enabled while loading. Overlapping
  calls and their interleavings are not modelled.
- App.Game.HandleStartGame: requires that no call is out, for the same
  reason.
- Asynchrony and React's batching of state updates. Each half-handler's
  updates take effect together. The functional update at App.tsx:55 and
  App.tsx:65 appends to the transcript as it was after the user entry.
- The link between `Game` and `Reveal`. `TypewriterText` is mounted only for
  the last model entry while `isTyping` holds (App.tsx:158-159), and its
  `onComplete` is `TypingDone`. The model states each side separately.
- Typewriter.Reveal.Tick: steps one Unicode code point per tick, while
  `text.charAt(i)` steps one UTF-16 code unit. For a character outside the
  Basic Multilingual Plane (an emoji, say) the source takes two ticks and
  shows a lone high surrogate for one of them. That intermediate state is
  not modelled.
- Typewriter.Reveal.RunToEnd: counts ticks in code points, not in the
  UTF-16 code units that `text.length` counts. The source takes one more
  tick for each character outside the Basic Multilingual Plane.
- Typewriter.Reveal.Tick: models the intended step `displayed == text[..i]`.
  It does not model the timing of React's updater, which reads `i` when it
  runs, not when it is queued (components/TypewriterText.tsx:17).
- Timer speeds, `setInterval`/`clearInterval` as such, unmounting,
  scrolling (App.tsx:18-24), `alert` and `console`, the layout, CSS classes,
  icons and the static right panel (App.tsx:250-287).
- The transcript's bold rendering with a regular expression and
  `dangerouslySetInnerHTML` (App.tsx:161-164). It is a second markup path
  with different rules from `split('**')`.
- StatBar.Label: covers integer values only. Stats are integers by the
  response schema. JavaScript's exponent notation for magnitudes of 10^21
  and above, and fractional values, are not modelled.
- The unused `Message` type of types.ts.
