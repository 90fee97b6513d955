# TIL client state, modelled in Dafny

"Today I Learned" is a single-page app. Users browse short facts, filter them by
category, submit new ones and vote on them. The facts live in a hosted database
table. This project models the client-side state machine of `TIL/til/src/App.js`
and proves properties of it:

- the fact list held by the top-level view, with its loading flag and category filter;
- the header button that opens and closes the submission form;
- the form's three fields and the gate that decides whether a submission is sent;
- the vote buttons, each of which asks the store to raise one counter by one.

Modules:

- `Categories` (`categories.dfy`): the eight fixed categories, the `"all"` filter
  sentinel and the selector's empty placeholder.
- `Url` (`url.dfy`): `isValidHttpUrl`. The browser's URL parser (the WHATWG URL
  Standard, section 4.4, basic URL parser) is not reimplemented. It is a
  function-valued parameter `UrlParser` that yields either a parse failure or
  the parsed scheme.
- `Facts` (`facts.dfy`): the fact record, the three vote counters and the two
  list transforms. These are prepending a record, and the `map` that replaces
  the records with a given id.
- `Store` (`store.dfy`): the requests sent to the remote store and the shape of
  its answers. These are the filtered read capped at 1000 rows, the insert
  payload and the single-column vote update. The store's answers are parameters
  (`Response`: data or error). `Store.Selects` and `Store.Answers` (which rows a
  read selects and may return) and `Store.AssignColumn` (what the vote update
  writes) are reference meanings of the requests, not a model of the store.
- `Submission` (`submission.dfy`): the submission gate. Text length is counted
  the way the browser counts it, in UTF-16 code units.
- `AppState` (`app_state.dfy`): a class `App` with the fields `facts`,
  `isLoading`, `currentCategory`, `openForm`, `text`, `source` and `category`,
  and one method per event. Each store request is split at its await: the event
  method returns the request (`BeginFetch`, `AddHandle`, `HandleVotes`), and a
  second method applies the answer when it arrives (`CompleteFetch`,
  `CompleteInsert`, `CompleteVote`). Any other event may run in between. Each
  method states its whole new state, and its field-level `modifies` frame shows
  which fields it may change.

Points of the code the model keeps exactly:

- The fields are cleared only when the submission passes the gate. A rejected
  submission changes nothing.
- `text.length` counts UTF-16 code units. `Submission.Utf16Length` models that
  count.
- The gate tests only that `category` is non-empty.
  `Submission.AcceptedIffWellFormed` shows that the category then comes from the
  table, because the selector offers only `""` and the eight names.

React state semantics the model keeps:

- Setting the filter to the value it already has does not re-run the fetch
  effect. `SelectCategory` returns whether it does.
- The form is unmounted while it is closed. Reopening it therefore restores the
  initial field values (`text` and `category` empty, `source`
  `"https://www.google.com"`). This is so even though an accepted submission
  sets `source` to `""`.

## Model

| member | source | states |
|---|---|---|
| `Categories.CategoryTableWellFormed` | TIL/til/src/App.js:6-15 | The table has 8 categories with pairwise distinct names, and neither the filter sentinel `"all"` nor the selector placeholder `""` is a category name. |
| `Url.IsValidHttpUrl` | TIL/til/src/App.js:17-24 | A parse failure gives false. The result is true exactly when parsing succeeds and the scheme is `http` or `https`. This is proved from the source's comparison of `protocol` (scheme followed by `:`) with `"http:"` and `"https:"`. |
| `Url.Protocol` | TIL/til/src/App.js:20 | The `protocol` of a parsed URL is its scheme followed by a colon: one character longer than the scheme, ending in `:`. |
| `Url.ProtocolDeterminesScheme` | TIL/til/src/App.js:20 | Comparing `protocol` with `scheme + ":"` is the same as comparing the schemes. |
| `Facts.ColumnsDistinct` | TIL/til/src/App.js:242-249 | The three vote buttons name three distinct columns. |
| `Facts.ReplaceById` | TIL/til/src/App.js:217-219 | The vote's `map` keeps the list's length. Each position whose id is the voted id holds the returned record, and every other position holds its old record. |
| `Facts.ReplaceByIdAbsent` | TIL/til/src/App.js:218 | A vote result for an id that is not in the list leaves the list unchanged. |
| `Facts.ReplaceByIdKeepsIds` | TIL/til/src/App.js:218 | When the returned record keeps the voted id, the list's sequence of ids is unchanged, so unique ids stay unique. |
| `Facts.ReplaceByIdAtUniquePosition` | TIL/til/src/App.js:218 | In a list with unique ids, replacing by the id at position k rewrites position k only. |
| `Facts.ReplaceByIdIdempotent` | TIL/til/src/App.js:218 | Applying the same vote result twice gives the same list as applying it once. |
| `Facts.PrependKeepsUniqueIds` | TIL/til/src/App.js:123 | Putting a record with a new id in front of a list with unique ids keeps the ids unique. |
| `Store.FetchQuery` | TIL/til/src/App.js:43-47 | The read targets the `facts` table and is capped at 1000 rows. It is unfiltered exactly when the filter is `"all"`, and otherwise filtered on category equal to the filter. |
| `Store.FetchQuerySelects` | TIL/til/src/App.js:43-45 | The read for `"all"` selects every row. The read for a category selects exactly the rows of that category. |
| `Store.AnswerToFetchQuery` | TIL/til/src/App.js:43-47 | Any answer the store may give to the read has at most 1000 rows. Under a category filter, every row has that category. |
| `Store.VoteRequest` | TIL/til/src/App.js:210-213 | The vote update is keyed by the fact's id, names one of the three vote columns and no other column, and asks for a value above the counter's current one. |
| `Store.VoteIncrementsChosenCounter` | TIL/til/src/App.js:207-213 | The vote update is keyed by the fact's id. Applied to that fact, it raises the chosen counter by exactly one and leaves the other counters and fields unchanged. |
| `Store.VoteOnListedFact` | TIL/til/src/App.js:207-219 | Suppose the store answers a vote with the row it wrote, in a list with unique ids. Then the list changes only at the voted position, where the chosen counter is one higher. |
| `Submission.Utf16Length` | TIL/til/src/App.js:106 | `text.length` in UTF-16 code units lies between the character count and twice it. It is zero only for the empty text. |
| `Submission.Utf16LengthOfBmpText` | TIL/til/src/App.js:106 | For text inside the Basic Multilingual Plane, the browser's length equals the character count. |
| `Submission.Accepted` | TIL/til/src/App.js:106 | The gate condition: text non-empty, source a valid http(s) URL, category non-empty, and at most 200 code units of text. Accepted text has 1 to 200 characters, the accepted source parses, and the category is not the placeholder. |
| `Submission.AcceptedIffWellFormed` | TIL/til/src/App.js:106 | The category field holds the placeholder or a category name. Under that condition, the gate accepts exactly the submissions with 1 to 200 code units of text, an http(s) source that parses, and a category from the table. |
| `AppState.App.constructor` | TIL/til/src/App.js:31-37 | Initial state: empty list, not loading, filter `"all"`, form closed. The form's fields take their initial values from App.js:99-101: empty text, source `"https://www.google.com"` and the empty category. |
| `AppState.App.BeginFetch` | TIL/til/src/App.js:39-47 | The fetch effect raises the loading flag and issues the read for the active filter. The read is capped at 1000 rows and filtered unless the filter is `"all"`. |
| `AppState.App.CompleteFetch` | TIL/til/src/App.js:47-50 | On success the answer replaces the list wholesale. On error the list is kept. Either way the loading flag drops. If the answer is one the read admits, the list has at most 1000 records, all of the filtered category. |
| `AppState.App.SelectCategory` | TIL/til/src/App.js:161-188 | A sidebar button sets the filter to `"all"` or a category name. The fetch re-runs exactly when the value changed. |
| `AppState.App.ToggleForm` | TIL/til/src/App.js:89-91 | The header button flips the form flag. Opening remounts the form, so its fields take their initial values. Closing leaves them as they were. |
| `AppState.App.EditText` | TIL/til/src/App.js:134-139 | Only while the form is open (it is mounted only then, App.js:60-64). The text field takes the typed value. Nothing else changes. |
| `AppState.App.EditSource` | TIL/til/src/App.js:141-146 | Only while the form is open. The source field takes the typed value. Nothing else changes. |
| `AppState.App.EditCategory` | TIL/til/src/App.js:147-156 | Only while the form is open. The category field takes the chosen option, either the placeholder or a category name. |
| `AppState.App.AddHandle` | TIL/til/src/App.js:103-121 | Only while the form is open (App.js:60-64). Submitting the form changes no state before the insert's answer arrives. An insert is sent exactly when the gate passes, which is exactly when the submission is well formed. The payload is the three fields. A rejected submission sends nothing and changes nothing. |
| `AppState.App.CompleteInsert` | TIL/til/src/App.js:123-128 | When the insert's answer arrives, the fields are emptied and the form closes, whether or not the insert failed. On success, the returned record goes in front of the unchanged current list, which grows by one. On error, the list is kept. If the old list had unique ids and the returned record's id is new, ids stay unique. |
| `AppState.App.HandleVotes` | TIL/til/src/App.js:207-214 | Only while no fetch is loading (the list is rendered only then, App.js:69-73), and only on a record of the list (a button exists only for a rendered record, App.js:191-199). A vote click changes no state before the answer arrives. It sends an update that sets the chosen counter's column to the fact's value plus one, keyed by the fact's id, which is an id of the list. |
| `AppState.App.CompleteVote` | TIL/til/src/App.js:216-219 | When the update's answer arrives, on success the list keeps its length and order: records with the voted id become the returned record and all others are unchanged. If the old list had unique ids and the returned record keeps the voted id, ids stay unique. On error the list is kept. |

## Left out

- Network calls to the hosted store (reads, the insert, the vote update) are not modelled as behaviour. Their answers are parameters of the operations that handle them. The store's assignment of ids, zero vote counters and creation year on insert is therefore not modelled.
- An insert or update answer with no rows (`newFact[0]` or `updatedFact[0]` undefined) is not modelled. Each `Response` carries exactly one record.
- Submission.Utf16Length: JavaScript strings can hold unpaired surrogates, which count one code unit each. A Dafny `char` is a Unicode scalar value and cannot represent them, so such text is outside the model.
- URL parsing is the browser's `URL` constructor. It is a parameter, not a reimplementation.
- Overlapping fetches that resolve out of order are not modelled. Each fetch is a `BeginFetch` followed by its `CompleteFetch`, applied in order.
- A completion is not tied to its request. The model does not record which inserts or votes are outstanding, so `CompleteInsert` and `CompleteVote` rely on their caller to run them only after an accepted `AddHandle` or a `HandleVotes`. Events in between (a second Post, field edits, closing the form) are expressible.
- The alert shown on a fetch error is a user-interface side effect only. The list-keeping part of that branch is modelled.
- Rendering is not modelled. This covers the loader, the header markup, the empty-list message, the fact count, the characters-left counter, the category colours and the tag colour lookup.
- `Fact` counters are unbounded integers. JavaScript numbers are exact only up to 2^53, which a vote count does not reach.
- `TIL/script.js` is not modelled. It only toggles a CSS class and a button label.
