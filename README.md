# XKCD comic block: attribute state machine

A model of the XKCD Comic Gutenberg block. In the editor (src/index.js) the block keeps five
persisted attributes — `comic`, `isCurrentComicSelected`, `selectedComicNumber`,
`lastComicNumber`, `lastUpdate` — and every render of `edit` decides whether to ask the API for
the latest comic (the refresh gate of `checkForUpdates`) and whether to re-fetch the displayed comic
(the reload check). The answers of those fetches, the number input and the "show latest" toggle
change the attributes by partial merges. On the server (index.php) the saved attributes are resolved
to the comic to show, which is rendered as fixed markup or an error text.

Modules:

- `Wrappers`, `Comics`: an `Option` type and the comic record (`num`, `title`, `img`, `alt`).
- `JsNumbers`: numeric attribute values as JavaScript has them — `undefined`, `NaN` or an integer —
  with `<`, `>`, `-` and `===` as JavaScript evaluates them. Every `<` or `>` with `undefined` or
  `NaN` on either side is false, `NaN` is strictly equal to nothing (itself included),
  `undefined === undefined` holds, and `undefined - n` is `NaN`.
- `Editor`: the attributes as a datatype. There is one function per handler (refresh result, fetch
  result, number change, toggle), built with Dafny's datatype update, the way `setAttributes` merges
  a partial record. The refresh gate and the reload check each give the request they issue, and
  `Edit` is one render pass.
- `Session`: the editor across time. The state holds the attributes plus the fetches still in
  flight. Events are renders, responses arriving in any order, and user edits. `Run` folds a trace
  of events, and `Valid` is the invariant every reachable state keeps.
- `Server`: `xkcd_comic_gutenberg_block_get_comic` and `xkcd_comic_gutenberg_block_render_callback`.
  The HTTP response is a parameter.

The model follows the code as written:

- **Refresh gate.** The early return of `checkForUpdates` fires whenever `lastUpdate` is defined.
  When `lastUpdate` is undefined, `lastUpdate - now` is `NaN` and the second disjunct is false. So a
  refresh is issued exactly when `lastUpdate` is undefined, and UPDATE_INTERVAL has no effect.
  `Editor.IntendedRefreshDue` states the periodic gate that UPDATE_INTERVAL (src/index.js:15) and the comment at src/index.js:65 suggest. It is labelled as such
  and used only to compare the two gates.
- **No regression guard.** A latest number smaller than the known one is adopted.
- **No stale-response rejection and no de-duplication.** A late response is stored and re-selects
  its own number, and every render issues its fetches again.
- **Number change.** It clears `lastUpdate`. It does not touch `comic` and does not force "pinned"
  mode.
- **Toggle.** It clears `lastUpdate` and leaves `comic` alone.
- **Closure capture.** The refresh continuation decides the new selection from the values captured
  at the render that issued it (`Editor.Request.Refresh` carries them), not from the current values.
- **Title attribute.** The server markup gives the title `<div>` the attribute `className`, not
  `class`. The model reproduces this.

## Model

| member | source | states |
|---|---|---|
| JsNumbers.NaNComparesFalse | src/index.js:68-71 | `<` and `>` with `NaN` on either side are false, and `NaN` is strictly equal to nothing |
| JsNumbers.UndefinedArithmeticIsNaN | src/index.js:70 | `undefined - n` and `n - undefined` are `NaN`, and `NaN < x` is false |
| Editor.FetchTarget | src/index.js:51 | the fetch asks for `'latest'` exactly when the number is undefined, and otherwise for that very value (NaN included) |
| Editor.CheckForUpdates | src/index.js:66-73 | a latest-comic request is issued iff `lastUpdate` is undefined, whatever the time; it captures the time and the current mode, selection and latest number |
| Editor.RefreshOnlyWhenIntended | src/index.js:65-73 | every refresh the gate issues is also due under the time-elapsed gate the comment suggests |
| Editor.ElapsedIntervalTriggersNoRefresh | src/index.js:15-73 | an hour after a refresh, the intended gate is due but the block issues no refresh |
| Editor.SelectionAfterRefresh | src/index.js:78-85 | the new selection is the latest number when "show latest" was on, or no number was selected, or the selection exceeded the previously known latest number (comparison false when that is undefined); otherwise the captured selection is kept |
| Editor.OnRefreshResult | src/index.js:75-91 | a successful refresh sets `lastComicNumber` to the new number, `lastUpdate` to the time captured before the fetch, and the selection by the rule above; `comic` and the mode are unchanged |
| Editor.RefreshAdoptsSmallerLatest | src/index.js:87-91 | with 800 known, a refresh reporting 799 sets `lastComicNumber` to 799 |
| Editor.ReloadCheck | src/index.js:97-99 | the displayed comic is fetched iff there is no comic or its number differs from the selection (always when the selection is NaN), and the fetch asks for the selection's target |
| Editor.OnFetchResult | src/index.js:99-103 | the fetched comic is stored and its number selected, nothing else changes, and afterwards the reload check issues nothing |
| Editor.StaleFetchResultIsAdopted | src/index.js:99-103 | a comic 10 arriving while 20 is selected is stored and selection becomes 10 |
| Editor.ClampComicNumber | src/index.js:110-117 | a number below 1 gives 1; above a known latest number gives that number; otherwise it is unchanged. With the latest number known and at least 1 the result is in [1, latest]; with it unknown only the lower bound applies; NaN passes unchanged |
| Editor.OnComicNumberChange | src/index.js:108-123 | a number change writes only the clamped selection and clears `lastUpdate`; `comic`, mode and `lastComicNumber` are untouched |
| Editor.OnToggleLatest | src/index.js:136-141 | a toggle writes only the mode and clears `lastUpdate`; selection, comic and latest number are preserved |
| Editor.Edit | src/index.js:95-106 | a render issues the refresh iff `lastUpdate` is undefined and the load iff the reload check fires, nothing else, exactly one request for each that fires, the refresh before the load, and shows the loading text iff it reloads, otherwise the stored comic |
| Editor.RenderAfterFetchIssuesNoLoad | src/index.js:98-104 | after a fetch result lands, re-rendering with no other change shows that comic and issues no load request |
| Editor.UserEditsReopenGate | src/index.js:119-141 | after a number change or a toggle the next render issues a refresh |
| Editor.ToggleKeepsReloadDecision | src/index.js:136-141 | a toggle does not change what the reload check issues |
| Editor.ToggleOnFollowsLatest | src/index.js:75-104 | after switching "show latest" on, the next render refreshes; the refresh result selects the latest number, and the comic is reloaded iff it is not that number |
| Session.StepPreservesValid | src/index.js:75-141 | every event keeps the reachable-state invariant and never forgets a known latest number |
| Session.RunPreservesValid | src/index.js:21-141 | every event trace keeps the invariant: `lastUpdate` and `lastComicNumber` are never NaN, a set `lastUpdate` implies a known latest number, and a stored comic implies a defined selection; a known latest number stays known |
| Session.ReachableClosedGateBoundsNumberChange | src/index.js:108-123 | in every reachable state with `lastUpdate` set the latest number is known, so a numeric input is clamped into [1, latest] when latest is at least 1 |
| Session.ModeChangesOnlyByToggle | src/index.js:136-141 | across any trace without a toggle event the mode is unchanged |
| Session.GateStaysClosedWithoutUserEdits | src/index.js:66-104 | once `lastUpdate` is set, renders and responses alone keep it set, and never issue a new refresh request however much time passes: each refresh value is in flight afterwards at most as many times as before |
| Session.RendersDoNotDeduplicate | src/index.js:95-104 | two renders of a new block before any answer issue the refresh and the load twice |
| Session.NewBlockShowsLatest | src/index.js:21-104 | a new block's first render asks for the latest comic; when comic 2955 arrives for both requests it is stored, selected and known as the latest, and the next render shows it and issues nothing |
| Session.PinnedComicLoads | src/index.js:98-103 | a block pinned at 10 with latest 2955 fetches comic 10; afterwards it holds comic 10 and latest is still 2955 |
| Session.StaleResponseOverridesNewChoice | src/index.js:75-123 | on a trace where every user edit follows a render that showed the panel: pinned at 10 with comic 10 in flight, a stale refresh from the toggle restores the captured selection 2955, the user picks 20, and comic 10 then lands, is stored and re-selects 10 |
| Session.ReachableComicNeverReloadsLatest | src/index.js:51-104 | in every reachable state holding a comic, a reload fetches by the selected number and never asks for `'latest'` |
| Session.FailedResponseChangesNothing | src/index.js:52-62 | a rejected fetch leaves the attributes unchanged and only leaves the requests in flight |
| Server.ResolveComicNum | index.php:90-93 | with the key absent or true the target is `'latest'`; with it false the target is the stored selected number |
| Server.GetComic | index.php:89-105 | a non-latest target returns the stored comic unchanged; latest returns the decoded body on status 200 and null otherwise |
| Server.PinnedIgnoresResponse | index.php:95-97 | a block with the key false gets its stored comic whatever the HTTP response would be (no request is made) |
| Server.LatestIgnoresStoredComic | index.php:91-104 | a block following the latest comic never returns the stored comic |
| Server.ComicMarkup | index.php:75-78 | the markup is the fixed wrapper with title, image URL and alt text inserted verbatim, unescaped, in that order, at fixed offsets |
| Server.MarkupIsNotErrorText | index.php:71-79 | no comic's markup equals the error text |
| Server.RenderCallback | index.php:67-80 | the output is exactly "Comic couldn't be loaded" when the comic is null, and otherwise the comic's markup, built by successive appends |

## Left out

- HTTP transport and JSON decoding. `window.fetch`, `response.ok` and `response.json`, and
  `wp_remote_get` and `json_decode`, are foreign I/O. A response is an input: a comic, or a failure
  (editor), or a status code with an optional decoded body (server). A `WP_Error` from `wp_remote_get`
  is not modelled.
- Malformed bodies. A successful response is assumed to carry `num`, `title`, `img` and `alt`. A body
  without `num` would store `undefined` numbers, and this is not modelled.
- Asynchrony. Each `.then` continuation is an `Arrive` event for its request, in any order. An
  `Arrive` naming no request in flight changes nothing.
- Clock. `new Date().getTime()` is the `now` parameter of a render.
- `parseInt`. The number input arrives already parsed, as an integer or NaN.
- User handlers. They are applied to the current attributes, so the model assumes the host re-renders
  before each user input. They may fire at any time, even when the last render showed the loading
  text and no settings panel. This allows more traces than the editor does, so the trace lemmas still
  hold.
- Editor UI. `InspectorControls`, `ToggleControl`, the `NumberControl` detection and the rendered title
  and image are out; a render's view is only "loading" or "the stored comic".
- Plugin plumbing. Block registration, script, style and translation registration, the `init` hook and
  the `__`/`sprintf` translations are out.
- Attribute values of unexpected types, such as a non-boolean `isCurrentComicSelected` or a string
  number, are out. The server's stored comic is assumed to have string fields.
