# AI image generator — prompt history and generation step in Dafny

The repository is a single React component, `ImageGenerator`, that takes a
text prompt, asks a text-to-image web service for a picture, shows it, and
keeps a row of buttons for the three most recent prompts. This project
models the component's logic as pure functions and proves what it promises:

- `PromptHistory` (history.dfy): the history update run after each
  successful generation. The new prompt goes in front, any earlier copy of
  it is dropped, and the list is cut to three entries. It is compared with
  an independent description, `Recent`: the distinct prompts of a session
  ordered by last use. The proof shows the history is always the first
  three entries of that list.
- `ImageGenerator` (generator.dfy): the `generateImage` handler as one
  state step over `{prompt, imageUrl, loading, history}`. The service's
  reply is a parameter of the step. The step also reports whether a request
  was sent, and with which prompt. A `Session` replays typing and button
  presses from the initial state.
- `HistoryLabel` (label.dfy): the caption of a history button. Long
  prompts are cut to 20 characters plus `"..."`.
- `Wrappers` (wrappers.dfy): an `Option` type for JavaScript's
  `null`/`undefined`.

A non-success HTTP status might be expected to count as a generation
failure, but the code never looks at the status: only the reply body
decides. A body whose `artifacts[0].base64` is truthy is a success, and
anything else is a failure. The model follows the code. It represents
`base64` only as a string or as missing, so there "truthy" means a
non-empty string. The other shapes are listed under "Left out". An empty
`artifacts` array is truthy in JavaScript, so `artifacts[0].base64` throws on it. The `catch`
then handles it, and the model counts it as a failure (`Payload`).

## Model

| member | source | states |
|---|---|---|
| `PromptHistory.Without` | src/components/ImageGenerator.jsx:45 | the filter keeps exactly the entries other than the prompt, never grows the list, and leaves a list without the prompt as it was |
| `PromptHistory.WithoutContents` | src/components/ImageGenerator.jsx:45 | the filter removes every copy of the prompt and keeps the number of occurrences of every other entry |
| `PromptHistory.Record` | src/components/ImageGenerator.jsx:45 | the new history has 1 to 3 entries and starts with the prompt. Every entry is the prompt or an old entry. No duplicates appear. A new prompt pushes out only the oldest entry. A re-used prompt in a duplicate-free history of at most 3 entries keeps the same entries and length |
| `PromptHistory.WithoutKeepsNoDuplicates` | src/components/ImageGenerator.jsx:45 | filtering a duplicate-free history leaves it duplicate-free |
| `PromptHistory.WithoutDropsOne` | src/components/ImageGenerator.jsx:45 | in a duplicate-free history, filtering out a present prompt removes exactly one entry |
| `PromptHistory.WithoutIsSubsequence` | src/components/ImageGenerator.jsx:45 | the entries that survive the filter keep their relative order |
| `PromptHistory.RecordKeepsOrder` | src/components/ImageGenerator.jsx:45 | after the new front entry, the history is an order-preserving selection of the old one |
| `PromptHistory.RecordIdempotent` | src/components/ImageGenerator.jsx:45 | recording the same prompt twice in a row gives the same history as recording it once |
| `PromptHistory.RecordExamples` | src/components/ImageGenerator.jsx:45 | `["b","a"]` plus `"a"` gives `["a","b"]`, and `["c","b","a"]` plus `"d"` gives `["d","c","b"]` |
| `PromptHistory.Recent` | src/components/ImageGenerator.jsx:45 | the reference order holds each prompt of the session exactly once, and holds nothing else |
| `PromptHistory.LastUse` | src/components/ImageGenerator.jsx:45 | the result is the index of the last use of the prompt in the session, or -1 exactly when it was never used |
| `PromptHistory.RecentOrderedByLastUse` | src/components/ImageGenerator.jsx:45 | in the reference order, every entry was last used more recently than every entry behind it |
| `PromptHistory.RecentSnoc` | src/components/ImageGenerator.jsx:45 | using a prompt again moves it to the front of the reference order and leaves the other entries in place |
| `PromptHistory.TakeWithout` | src/components/ImageGenerator.jsx:45 | cutting a duplicate-free list to more than k entries before filtering does not change the first k survivors. This is why cutting the history at every step loses nothing a later step would show |
| `PromptHistory.HistoryIsRecent` | src/components/ImageGenerator.jsx:45 | the history after any sequence of successful generations is the three most recently used distinct prompts, newest first |
| `HistoryLabel.Label` | src/components/ImageGenerator.jsx:97 | the caption has at most 23 characters. A prompt of at most 20 characters is shown whole. A longer one shows its first 20 characters followed by `"..."`. The caption equals the prompt exactly when the prompt is short, or is 23 characters ending in `"..."` |
| `HistoryLabel.LabelIdempotent` | src/components/ImageGenerator.jsx:97 | cutting a caption again gives the same caption |
| `HistoryLabel.LabelsCoincide` | src/components/ImageGenerator.jsx:97 | two prompts get the same caption exactly when both have at most 20 characters and are equal, or both are longer than 20 characters and agree on their first 20, so different long prompts can share a caption |
| `ImageGenerator.Initial` | src/components/ImageGenerator.jsx:5-8 | the page opens with the default image, an empty typed prompt, no request in flight, and an empty history |
| `ImageGenerator.EffectivePrompt` | src/components/ImageGenerator.jsx:12 | a non-empty argument wins. A missing or empty argument falls back to the typed text. The result is empty only when both are |
| `ImageGenerator.Payload` | src/components/ImageGenerator.jsx:41-53 | a reply has a usable image exactly when it is a body with a non-empty `artifacts` array whose first element has a non-empty `base64`. A missing field, an empty array, a falsy `base64` or a thrown error gives none |
| `ImageGenerator.Begin` | src/components/ImageGenerator.jsx:15 | the in-flight flag is set and nothing else changes |
| `ImageGenerator.Complete` | src/components/ImageGenerator.jsx:41-55 | on a usable reply the image becomes `data:image/png;base64,` plus the payload and the prompt is recorded. Otherwise image and history stay. Either way the in-flight flag ends false |
| `ImageGenerator.Generate` | src/components/ImageGenerator.jsx:11-56 | a call is rejected exactly when both the argument and the typed text are empty. A rejected call sends nothing and changes nothing. Any other call sends the effective prompt and ends with the flag false. On success the image and history are updated. On failure they are left as they were |
| `ImageGenerator.GeneratePreservesWellFormed` | src/components/ImageGenerator.jsx:11-56 | every step keeps the history to at most 3 non-empty, distinct entries |
| `ImageGenerator.HistoryButtonSendsEntry` | src/components/ImageGenerator.jsx:91-98 | pressing a history button is never rejected and sends that entry, whatever was typed |
| `ImageGenerator.HistoryButtonReorders` | src/components/ImageGenerator.jsx:91-98 | a successful re-generation from a history button keeps the same entries and length, with the chosen one in front |
| `ImageGenerator.Handle` | src/components/ImageGenerator.jsx:68-98 | typing only changes the typed text. The Generate button runs the handler with no argument and a history button runs it with its entry; neither changes the typed text. A prompt is reported as generated exactly when the call's effective prompt is non-empty and the reply carries an image, and the reported prompt is that effective prompt, which is recorded in the history. Otherwise the history is left alone |
| `ImageGenerator.HandlePreservesWellFormed` | src/components/ImageGenerator.jsx:68-98 | no user event, typing or button press, breaks the bound of 3 non-empty, distinct history entries |
| `ImageGenerator.Session` | src/components/ImageGenerator.jsx:68-98 | replaying user events from a state gives the final state and a log of generated prompts. The log is no longer than the events, is empty when the user only typed, and holds only non-empty prompts. Every history-button press with a non-empty entry whose reply carried an image has its entry in the log. A well-formed state stays well formed, and a session that starts idle ends idle |
| `ImageGenerator.SessionHistory` | src/components/ImageGenerator.jsx:11-56 | the history after any sequence of events is the history of the prompts generated successfully during it |
| `ImageGenerator.SessionShowsRecentPrompts` | src/components/ImageGenerator.jsx:45 | after any session, the history shows the three most recently generated distinct prompts, newest first |

## Left out

- The HTTP request is not modelled: its URL, headers, JSON body and the API key read from the build environment (lines 18-38). Its result is the `Reply` parameter of a step.
- `alert`, `console.log` and `console.error` (lines 13, 39, 47-48, 51-52) are notifications with no effect on state. They are not modelled. The step's `Outcome` says which case happened.
- Rendering, styling, the `useState` mechanics and the bundled default image (lines 1-8, 58-114) are not modelled. The default image is an opaque string parameter of `Initial`.
- Overlapping handler calls are not modelled. The `await` lets a second call interleave with the first. The Generate button is disabled while loading (line 77), but the history buttons are not. Only a single call, run to completion, is modelled.
- `HistoryLabel.Label`: a string is a sequence of Unicode characters. JavaScript's `length` and `slice` count UTF-16 code units, so a prompt with characters outside the Basic Multilingual Plane is cut at a different place in the browser.
- `ImageGenerator.Payload`: reply shapes that JavaScript tolerates but the model does not represent are left out. These are a non-array `artifacts`, a null first element (a thrown error, so a failure), and a truthy non-string `base64`.
- `ImageGenerator.Session`: the contract does not say that the log is exactly the prompts `Handle` reported, in order. It gives bounds, the well-formedness invariant and the logging of history-button presses. Whether a Generate press is logged depends on the text typed at that moment, so the full statement is the fold itself. `SessionHistory` and `SessionShowsRecentPrompts` rely on that fold.
