# Personal note scribe: the note collection and its session, in Dafny

The client keeps three module-level variables: `currentUser`, the array `notes` and `editingNoteId`. It persists to the browser's `localStorage` under the keys `currentUser` and `notes_<user id>`. The UI's handlers change these step by step:
- login loads the user's notes;
- `saveNote` upserts a note and rewrites the whole array to storage;
- `deleteNote` filters out an id after a confirmation and rewrites storage;
- `editNote` enters edit mode for an id that exists;
- logout clears the session;
- `renderNotes` shows a sorted copy, newest `updatedAt` first;
- the form's submit handler refuses a draft whose title or content is blank once trimmed.

The model has five files:

- `wrappers.dfy`: `Option`, for the nullable variables.
- `drafts.dfy` (module `Drafts`): `String.prototype.trim` over ECMAScript's white-space and line-terminator characters, and the submit guard as a function.
- `notes.dfy` (module `Notes`): the `User` and `Note` records. It has `findIndex` by id, the upsert `saveNote` performs, and the filter `deleteNote` applies, all as functions. Lemmas cover id uniqueness and timestamp order.
- `recency.dfy` (module `Recency`): the stable newest-first sort as an insertion sort. It comes with proofs that the sort is sorted, is a permutation and is stable. A further proof shows these properties fix the order uniquely.
- `app.dfy` (module `App`): the class `NoteApp` whose fields are the three variables and the storage map. Each handler is a method that states its whole new state. The pure parts are stated through the functions above.

The inputs the browser supplies are passed in as parameters:
- the clock instant `now`;
- the digits `stamp` of the new id `"note_" + stamp`;
- the answer `confirmed` to `confirm()`;
- the user for login;
- the storage contents present when the page loads.

Each handler returns the kind of toast it shows (`Notice`). A handler that throws and catches shows an error toast, and its state is exactly what it had changed before the throw.

In some places the code does not do what a careful design would, and there the model follows the code:
- A design might have malformed stored data read as an empty collection. In the code, `JSON.parse` throws before the assignment, so `notes` keeps its previous value (`LoadNotes`).
- `deleteNote` returns nothing, and an unconfirmed delete does nothing.
- `handleLogout` nulls `currentUser` before building the key it removes. It therefore removes `notes_`, and the user's notes stay in storage (`LogoutKeepsStoredNotes`). It also leaves `editingNoteId` as it was. The notes come back only when the same identity logs in again (`ReloginScenario`). The mock login issues a new id each time, so a second mock login finds no notes and the old ones are orphaned (`NewIdentityScenario`).
- The owner field is named `user`. Ids are unique only when the new id is fresh, so uniqueness is stated under that condition.
- `editingNoteId` is tested for JavaScript truthiness, so an empty id counts as no edit (`IsEditing`).

## Model

| member | source | states |
|---|---|---|
| Drafts.Lead | script.js:295-296 | the count of leading characters that trim drops: all of them are white space, and the next character is not |
| Drafts.Trail | script.js:295-296 | the count of trailing characters that trim drops: all of them are white space, and the character before them is not |
| Drafts.Trim | script.js:295-296 | `trim()` is the contiguous piece of the input starting at Lead, with only white space around it in the input. It is empty exactly when the input is all white space. Otherwise it neither starts nor ends with white space |
| Drafts.TrimIdempotent | script.js:295-296 | trimming an already trimmed field changes nothing |
| Drafts.ValidateDraft | script.js:294-302 | a draft is refused exactly when its title or its content is all white space. An accepted draft carries both trimmed fields, each non-empty |
| Notes.FindIndex | script.js:160 | `findIndex` gives -1 exactly when no note has the id. Otherwise it gives the first index holding that id |
| Notes.Upsert | script.js:147-173 | Not editing: exactly one note is appended at the end, with the fresh id, the owner, and `createdAt == updatedAt == now`; earlier entries are unchanged. Editing an id no note has: nothing changes. Editing an existing id: only its first index is replaced, keeping the id and the old `createdAt`, with the new title and content and `updatedAt = now`; the length and all other entries are the same |
| Notes.UpsertIds | script.js:147-173 | a create adds exactly the fresh id to the set of ids, and an edit keeps the set of ids |
| Notes.UpsertKeepsIdsUnique | script.js:148 | ids stay unique through a save when a created note's id is not already in use |
| Notes.UpsertKeepsChronology | script.js:152-155 | with a clock that does not run backwards, every note keeps `createdAt <= updatedAt <= now`, and no `updatedAt` moves back |
| Notes.RemoveId | script.js:193 | the filter keeps exactly the notes with another id, and the ids are the old ids minus this one. The result equals the input exactly when no note has the id |
| Notes.RemoveIdConcat | script.js:193 | the filter keeps order: filtering a concatenation gives the concatenation of the filtered parts |
| Notes.RemoveIdKeepsIdsUnique | script.js:193 | ids stay unique through a delete |
| Recency.PrependNewest | script.js:258 | a note at least as new as the head of a newest-first sequence can go in front of it |
| Recency.Insert | script.js:258 | insertion into a newest-first sequence keeps it newest first and adds exactly the inserted note |
| Recency.ByRecency | script.js:258 | the sorted copy is newest first (non-increasing `updatedAt`) and a permutation of the notes |
| Recency.TouchedAtMembers | script.js:258 | a note is among the notes touched at instant t exactly when it is in the sequence and its `updatedAt` is t |
| Recency.InsertStable | script.js:258 | inserting places the note ahead of the notes touched at the same instant and leaves their order alone |
| Recency.ByRecencyStable | script.js:258 | the sort is stable: for every instant, the notes touched at it appear in the view in their order in the array |
| Recency.StableOrderUnique | script.js:258 | two newest-first sequences that agree, instant by instant, on the notes touched then are equal |
| Recency.ByRecencyIsTheStableSort | script.js:258 | any newest-first ordering that is stable with respect to the notes is the view |
| Recency.ByRecencyExample | script.js:258 | notes with `updatedAt` t1, t2, t3, where t2 > t3 > t1, are shown in the order t2, t3, t1 |
| App.NotesKey | script.js:131 | the key `'notes_' + id` starts with `notes_` followed by the id, and is never the `currentUser` key |
| App.ReadNotes | script.js:131-132 | `getItem` then `savedNotes ? JSON.parse(savedNotes) : []`. An absent key or the empty string gives no notes, and a stored note array gives itself. Text `JSON.parse` rejects is unreadable, and so is any other parseable value (see "## Left out"). A non-empty reading always comes from a note array stored under the key |
| App.NotesKeyDistinct | script.js:131 | the key `'notes_' + id` determines the id, and no note key is the `currentUser` key |
| App.SessionWriteKeepsNotes | script.js:68 | writing the session key does not change what any user's note key reads |
| App.LogoutKeepsStoredNotes | script.js:88-90 | after the two removals, a user with a non-empty id still reads the same notes under `'notes_' + id`; only the key `notes_` is emptied |
| App.IdOrEmpty | script.js:90 | `currentUser?.id \|\| ''` is empty exactly when there is no user or the user's id is empty |
| App.NoteApp.constructor | script.js:13-15 | the initial state: no user, no notes, not editing, over the storage already present |
| App.NoteApp.LoadNotes | script.js:125-141 | No user: the id lookup throws and nothing changes. An absent key or an empty string gives `[]`. A stored note array becomes `notes`, and storage then agrees with memory. Text `JSON.parse` rejects makes it throw and leaves `notes` as it was |
| App.NoteApp.HandleLogin | script.js:67-72 | the user becomes current and is written under `currentUser`; the user's stored notes are loaded as `LoadNotes` states |
| App.NoteApp.HandleLogout | script.js:83-107 | `currentUser` is null and `notes` is empty. Storage loses exactly the key `currentUser` and the key `notes_`. `editingNoteId` is unchanged |
| App.NoteApp.SaveNote | script.js:143-185 | No user: the owner lookup throws before any change. Otherwise `notes` becomes the upsert of the old array, a set `editingNoteId` becomes null, and storage under `'notes_' + id` is the new array, so a reload gives it back. A success toast shows unless an edit missed. Ids stay unique when the created id is fresh |
| App.NoteApp.DeleteNote | script.js:187-205 | Unconfirmed: nothing changes in memory or in storage. Confirmed: `notes` is the filtered array, and is then written under the user's key. Without a user, the write throws after the filter. Ids stay unique |
| App.NoteApp.EditNote | script.js:207-239 | An unknown id throws before edit mode is touched. A known id sets `editingNoteId` to it and fills the form with the first matching note's title and content. The notes and storage do not change |
| App.NoteApp.HandleNoteSubmit | script.js:290-305 | a blank title or content gives a warning and changes nothing; otherwise the trimmed fields are saved as `SaveNote` states |
| App.NoteApp.RenderOrder | script.js:258 | the rendered order is the stable newest-first permutation of `notes`, and `notes` itself is not changed |
| App.ReloginScenario | script.js:67-72 | log in with no stored notes, add a note, log out, and log in again with the same identity, as a real identity provider would give: after logout the array is empty, and after the second login the note is back |
| App.NewIdentityScenario | script.js:62-72 | the same session, but the second login has a new id, as the mock gives: the array is then empty, and the first identity's note is still stored under its key, orphaned |

## Left out

- The DOM and the HTML are not modelled: `showWelcomeScreen`, `showAppContent`, the list markup and the count text of `renderNotes`, `escapeHtml`, `noteForm.reset()` and the submit button's label. They are presentation and browser calls.
- `formatDate` is not modelled: it uses floating-point division, `Math.ceil`, the current clock and locale formatting.
- For `showNotification`, `getNotificationIcon` and `getNotificationColor`, only the kind of toast is modelled. Messages, styling and timers are presentation.
- `checkUserAuthentication` (restoring the session at start-up) is not modelled. On malformed data it leaves the raw stored string in `currentUser`, and the model's typed `currentUser` cannot hold that.
- `handleLogin` takes the user as a parameter. The mock identity built from `Date.now()` and the fixed email and name is not modelled.
- JSON and `localStorage` are modelled as a map from keys to classified values (`Stored`), not as text.
- App.ReadNotes: reads every parseable value that is not a note array as unreadable, for the reason given on the next line.
- App.NoteApp.LoadNotes: a stored value that `JSON.parse` accepts but that is not an array of notes is treated like unparsable text: the old array is kept and an error toast shows. This covers a `User` record, `null`, a number, or an array of non-notes. The code instead assigns the parsed value to `notes`. For `null`, `renderNotes` then throws and shows the error toast. For `[1]`, it renders without a toast. The typed model cannot hold such a value. The client itself only ever writes note arrays under note keys.
- `Date.now()` and `toISOString()` become the inputs `stamp` and `now`. Timestamps are integers, so the comparator `new Date(b) - new Date(a)` is integer subtraction, and invalid dates (NaN) do not arise.
- The two clock reads for `createdAt` and `updatedAt` of a new note are one instant `now`. The code reads the clock twice, and across a millisecond boundary the two can differ.
- The `\|\| new Date().toISOString()` fallback is modelled only for an edit that matches no note, where `now` is used and the note is never stored. A matching note with an empty `createdAt` cannot occur, because timestamps are integers.
- `confirm()` is the boolean `confirmed`.
- `async`/`await` is not modelled: every handler runs to completion before the next one starts.
- Exceptions thrown by DOM calls are not modelled.
