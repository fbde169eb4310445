# Blog comments and search: a Dafny model of the three UI controllers

This project models the interactive core of a server-rendered blog frontend.
The core is three React components, each turned into an immutable state
record with one pure transition function per event:

- **Comment form** (`src/components/CommentForm.tsx`). `handleSubmit` is
  split at its single `await`. `BeginSubmit` clears both banners and checks
  that name, email and content are non-blank after `trim()`. It then either
  refuses the form with the "required" message or sends the payload.
  `EndSubmit` applies the backend's reply. On success it clears the fields,
  shows the success banner and calls `onCommentAdded` once. On failure it
  keeps the fields and shows the error banner. `PressSubmit` models the
  `disabled={isSubmitting}` button.
- **Search box** (`src/components/SearchBar.tsx`). The debounce is a pure
  function over a timestamped edit sequence (`Debounce`). It is proved equal
  to a loop that holds one pending timer handle and cancels and replaces it
  on every change of the query. `TimerFires` applies the threshold of two
  UTF-16 code units (JavaScript's `length`) to the trimmed query. `SearchSettled`, `MouseDown`, `Focus` and
  `SelectResult` are the other handlers. `RenderPanel` and `Excerpt` are the
  drop-down. An event trace (`Step`/`Run`) counts the searches in flight.
- **Comment list** (`src/components/Comments.tsx`). `StartFetch` and
  `FetchSettled` are `fetchComments` on either side of its `await`.
  `PostIdSet` is the `[postId]` effect. `Render` is the prioritised choice
  spinner → error → list → "no comments yet". `Section` combines the list
  with the form whose callback re-fetches it.

Every backend call (`createComment`, `searchPosts`, `getComments`) is a
parameter of type `Reply<T>`: either `Answered(data)` (no error, `data`
possibly absent) or `Failed`. `Failed` covers both a populated `error`
field and a thrown exception, because every caller handles them in the same
`catch`. Whitespace is the ECMAScript WhiteSpace and LineTerminator set that
`String.prototype.trim` strips (`Text.IsSpace`).

Where the code does something other than what such a component is usually
meant to do, the model follows the code:

- No reply is checked against the request it answers. The last reply to
  arrive wins, even if it is a stale reply for an older query or another
  post (`SearchBar.LastAnswerWins`, `SearchBar.OverlappingSearches`,
  `Comments.LastAnswerWins`, `Comments.StaleAnswerShown`).
- A short query clears the results only when the debounce timer fires,
  300 ms after typing stops, not at once.
- The comment list's error is never reset. After one failed load, the
  section shows only the spinner or the error banner, even after later
  loads succeed (`Comments.ErrorSticky`).
- A failed load keeps the previous list rather than emptying it.
- `isSearching` is a single flag, not a counter. With two searches in
  flight, the first reply stops the spinner while the second is still
  outstanding.

## Model

| member | source | states |
|---|---|---|
| `Text.LeadingSpace` | src/components/SearchBar.tsx:36 | trimming the start removes only a run of whitespace and keeps the rest of the input from its first non-whitespace character |
| `Text.TrailingSpace` | src/components/SearchBar.tsx:36 | trimming the end removes only a run of whitespace and keeps the input up to its last non-whitespace character |
| `Text.BlankIffAllSpace` | src/components/CommentForm.tsx:23 | a field fails the `!x.trim()` test exactly when every character of it is whitespace |
| `Text.TrimIsCore` | src/components/SearchBar.tsx:36 | the trimmed query is the slice of the input between a leading and a trailing whitespace run, with no whitespace at either end |
| `Text.Utf16Length` | src/components/SearchBar.tsx:36 | `length` counts UTF-16 code units: between one and two per character |
| `Text.Utf16LengthIsLength` | src/components/SearchBar.tsx:36 | the code-unit length equals the character count exactly when every character lies in the Basic Multilingual Plane |
| `CommentForm.Edit` | src/components/CommentForm.tsx:74-108 | an input's `onChange` sets that field to the typed value and leaves the other two fields, the submitting flag and both banners alone |
| `CommentForm.EditsKeepFlags` | src/components/CommentForm.tsx:74-108 | any sequence of edits leaves `isSubmitting` and both banners as they were |
| `CommentForm.BeginSubmit` | src/components/CommentForm.tsx:17-35 | refused exactly when some field is all whitespace; refused: "required" error, no success, not submitting, fields kept; sent: both banners cleared, submitting, button disabled, payload = post id and the raw untrimmed fields |
| `CommentForm.EndSubmit` | src/components/CommentForm.tsx:37-49 | every outcome ends not submitting; success: success banner, three empty fields, callback called once (error banner set only if the callback throws); failure: error banner, fields as they were, callback not called |
| `CommentForm.HandleSubmit` | src/components/CommentForm.tsx:17-50 | a whole submission ends not submitting, calls the backend at most once and exactly when the form is filled, calls the callback exactly when filled and accepted, and sends only the form's own post id and fields |
| `CommentForm.BlankFieldRefused` | src/components/CommentForm.tsx:23-27 | a blank field means no backend call, no callback, the "required" message, no success banner, fields unchanged, not submitting |
| `CommentForm.AcceptedClearsFields` | src/components/CommentForm.tsx:29-43 | an accepted submission sends the raw fields with the post id once, ends with an empty form showing only the success banner, and calls the callback once |
| `CommentForm.FailureKeepsFields` | src/components/CommentForm.tsx:29-49 | a failed submission sends once, keeps the typed fields, shows only the error banner and never calls the callback |
| `CommentForm.OneBanner` | src/components/CommentForm.tsx:19-49 | with a non-throwing callback every submission ends showing exactly one of the two banners |
| `CommentForm.ThrowingCallbackShowsBoth` | src/components/CommentForm.tsx:39-46 | a callback that throws after an accepted submission leaves both banners showing |
| `CommentForm.RetryAfterOutcome` | src/components/CommentForm.tsx:23-49 | after a failure a second press resends the identical payload; after a success the emptied form is refused without a backend call |
| `CommentForm.PressSubmit` | src/components/CommentForm.tsx:110-116 | a press is ignored exactly while a submission is in flight; otherwise it sends the form's post id and raw fields exactly when every field is filled, and shows the "required" message when not |
| `CommentForm.NoOverlappingSubmit` | src/components/CommentForm.tsx:112 | while a payload is in flight, whatever is typed meanwhile, a second press sends nothing |
| `Debounce.Changes` | src/components/SearchBar.tsx:55 | the edits that re-run the `[query]` effect: consecutive ones differ, the first differs from the current query, and the final query is the same as after all the edits |
| `Debounce.ChangesComplete` | src/components/SearchBar.tsx:55 | every edit that sets the input to a value other than the one it held just before re-runs the effect |
| `Debounce.ChangesAreEdits` | src/components/SearchBar.tsx:55 | every change the effect sees is one of the edits |
| `Debounce.ChangesChronological` | src/components/SearchBar.tsx:55 | dropping unchanged edits keeps the timeline in time order |
| `Debounce.Timeline` | src/components/SearchBar.tsx:15-55 | the effect runs once at mount with the empty query and then once for every edit that changes the input and for no other edit, never twice in a row with the same query, ending at the input's final value |
| `Debounce.RunTimers` | src/components/SearchBar.tsx:34-55 | one pending timer, cancelled by each change's cleanup and replaced by its new timer, fires exactly the timers of the declarative rule `Fired` |
| `Debounce.FiredIff` | src/components/SearchBar.tsx:35-54 | a timer fires, 300 ms after its change and with its query, exactly for the changes not followed by another change within 300 ms |
| `Debounce.LastFires` | src/components/SearchBar.tsx:35-52 | the timer of the last change always fires |
| `Debounce.FiredSpaced` | src/components/SearchBar.tsx:35-55 | fired timers are in time order and at least 300 ms apart |
| `SearchBar.Type` | src/components/SearchBar.tsx:64 | typing sets the query to the typed value and changes nothing else |
| `SearchBar.OneCharacterQuery` | src/components/SearchBar.tsx:36 | a one-character query is long enough exactly when its character takes two UTF-16 code units (outside the Basic Multilingual Plane) |
| `SearchBar.TimerFires` | src/components/SearchBar.tsx:35-51 | a search is issued iff the trimmed query has at least 2 UTF-16 code units, with the untrimmed query, turning the spinner on and leaving results and panel alone; otherwise results empty and panel hidden, no search |
| `SearchBar.SearchSettled` | src/components/SearchBar.tsx:38-47 | the spinner stops and the query stays; an answer sets the results to its data (empty if absent) and shows the panel; a failure keeps results and panel visibility |
| `SearchBar.MouseDown` | src/components/SearchBar.tsx:21-32 | a press outside hides the panel, one inside keeps it; nothing else changes |
| `SearchBar.Focus` | src/components/SearchBar.tsx:65 | the panel is shown afterwards iff it was shown or the trimmed query has at least 2 UTF-16 code units; nothing else changes |
| `SearchBar.SelectResult` | src/components/SearchBar.tsx:88 | choosing a result hides the panel and keeps query and results |
| `SearchBar.Excerpt` | src/components/SearchBar.tsx:92 | the caption's excerpt is a prefix of at most 60 characters of the post's excerpt followed by "...", so at most 63 characters |
| `SearchBar.ExcerptWhole` | src/components/SearchBar.tsx:92 | the whole excerpt is shown exactly when it has at most 60 characters |
| `SearchBar.RenderPanel` | src/components/SearchBar.tsx:79-104 | the panel is hidden iff not shown, says "no matches" iff shown with no results, and otherwise lists one link per result in order |
| `SearchBar.EmptyAnswerShowsNoMatches` | src/components/SearchBar.tsx:36-102 | a search answered with no rows or no data shows the "no matches" panel, not a hidden one |
| `SearchBar.ShortQueryHides` | src/components/SearchBar.tsx:48-51 | a query under 2 UTF-16 code units once trimmed sends nothing, empties the results and hides the panel when its timer fires |
| `SearchBar.RequestsIff` | src/components/SearchBar.tsx:36-39 | a query is searched for exactly when some fired timer carries it and its trimmed length is at least 2 UTF-16 code units |
| `SearchBar.FiredSends` | src/components/SearchBar.tsx:36-39 | the searches `Requests` derives from a fired timer are exactly what the component's own timer step adds to the log of sent searches |
| `SearchBar.TypingBurstSendsOneSearch` | src/components/SearchBar.tsx:34-55 | typing "a", "ab", "abc" 100 ms apart fires two timers (the mount's empty query and "abc") and sends one search, for "abc" |
| `SearchBar.FailuresKeepResults` | src/components/SearchBar.tsx:40-46 | any run of failed searches leaves results, panel and query unchanged and the spinner off |
| `SearchBar.LastAnswerWins` | src/components/SearchBar.tsx:38-46 | after a sequence of replies the results are the data of the last successful one to arrive, and the panel is shown |
| `SearchBar.RunConsistent` | src/components/SearchBar.tsx:36-47 | in every run the spinner turns only while some search is in flight, and every search sent had a long enough query |
| `SearchBar.OverlappingSearches` | src/components/SearchBar.tsx:36-47 | with two searches overlapping, the first reply stops the spinner while one is still in flight, and the older search's late reply replaces the results |
| `Comments.StartFetch` | src/components/Comments.tsx:21-24 | a fetch turns the spinner on, asks for the current post's comments and changes nothing else |
| `Comments.Mount` | src/components/Comments.tsx:16-39 | the section starts with an empty list, the spinner on, no error, and one fetch for its post |
| `Comments.FetchSettled` | src/components/Comments.tsx:25-34 | the spinner stops; an answer replaces the list with its data (empty if absent) and keeps the error; a failure sets the load error and keeps the list |
| `Comments.PostIdSet` | src/components/Comments.tsx:37-39 | a new post id starts exactly one fetch, for that post, and keeps the old list until it lands; the same post id changes nothing |
| `Comments.Render` | src/components/Comments.tsx:43-82 | the header counts the list; the body is the spinner iff loading, else the error iff one is set, else the list iff non-empty, else the "no comments yet" message |
| `Comments.ErrorSticky` | src/components/Comments.tsx:19-49 | once loading has failed the error stays through any later events, and the section shows only the spinner or the error banner |
| `Comments.OnlyLoadError` | src/components/Comments.tsx:19-31 | the error is only ever empty or the load-error message |
| `Comments.NoAnswerKeepsComments` | src/components/Comments.tsx:21-34 | without a successful answer the list never changes: no comment is added locally |
| `Comments.LastAnswerWins` | src/components/Comments.tsx:21-34 | the list is the data of the last successful answer to arrive |
| `Comments.StaleAnswerShown` | src/components/Comments.tsx:21-39 | when the previous post's answer lands after the new post's, the new post shows the previous post's comments |
| `Comments.Submit` | src/components/Comments.tsx:84 | a section submission creates a comment for the section's post iff the form is filled, and re-fetches that post's list exactly once iff the comment was accepted; otherwise the list is untouched; the form ends as the form's own submission leaves it |
| `Comments.AcceptedCommentRefetches` | src/components/CommentForm.tsx:39-43 | an accepted comment puts the list on the spinner and asks for it once; the next answer is what the list shows, behind any standing error |
| `Comments.RejectedCommentKeepsList` | src/components/CommentForm.tsx:23-46 | a refused or failed submission starts no fetch and leaves the list as it was |

## Left out

- `src/lib/supabase.ts`: the query builders are library calls whose meaning is not visible here. These include the `published` filter, the ordering, `.range` and the `ilike` pattern built from the raw query. Each call is a `Reply` parameter.
- `astro.config.mjs` and `src/content/config.ts`: build configuration and a schema declaration, with no behaviour.
- Real timers and React's render scheduling. Time is an explicit integer in `Debounce`. An edit landing exactly at a timer's deadline is taken to arrive after the timer fired.
- Concurrency: overlapping requests are modelled only as an order of arrival of their replies. No cancellation of in-flight requests exists in the code, and none is modelled.
- Markup, styles, `console.error` logging, the avatar's `charAt(0).toUpperCase()` and the `toLocaleDateString` date format.
- The browser's own `required` and `type="email"` checks, which run before `handleSubmit` in a real browser.
- SearchBar.Excerpt: counts characters as Unicode scalar values, while `substring` counts UTF-16 code units. The two differ only for characters outside the Basic Multilingual Plane; there `substring(0, 60)` can cut a surrogate pair in half, leaving a lone surrogate that a Dafny `char` cannot hold.
- SearchBar.ExcerptWhole: the 60-character bound is in characters, for the same reason as `SearchBar.Excerpt`.
- Text.TrimIsCore: `trim` is modelled on whole characters, not UTF-16 code units. This is the same for every whitespace character, since all of them lie in the Basic Multilingual Plane.
