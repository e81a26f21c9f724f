# University event registration: local store and accounts

The application is a client-side demo. Visitors register with a name, a phone
number and a password. They log in and save or join events from a fixed
catalog. On their own page they remove joined events and comment on them.
Everything is kept in three browser-local records:

- `users`: the user directory, a list of `{id, fullName, phone, password}`;
- `session`: `{userId}` or nothing;
- `user_data`: a map from user id to `{saved, joined, comments}`.

This project models that store and the logic around it in Dafny:

- `Storage.Store` is a class whose three fields are the three records. Its
  methods are the store helpers (`getOrCreateUserData`, `updateUserData`,
  `currentUser`, `clearSession`), the login and registration submits, the
  start-up seeding of the demo account, and the four click handlers. Each
  handler rewrites the records as the page script does.
- `Transforms` holds the four transforms that the click handlers pass to
  `updateUserData`: toggle saved, join, remove, comment. They are pure
  functions on one user's entry, and lemmas relate them.
- `Auth` holds the checks the login and registration forms make, as
  functions returning a `Result`.
- `Text` models `String.prototype.trim` (with ECMAScript's exact whitespace
  and line-terminator set) and `escapeHtml`. The five `replaceAll` passes are
  proved equal to escaping one character at a time, and an HTML decoder of
  the five entities gives back the original text.
- `Lists` holds `find` and `filter` over sequences. `Records` holds the
  entities and the directory predicates.

The class invariant `Valid()` says four things:

- user ids are non-empty and unique;
- phones are unique;
- no user-data entry repeats an event id in `saved`;
- no user-data entry repeats an event id in `joined`.

Every state-changing method keeps it. "Joined implies saved" is not an
invariant of the code. Joining also saves, but un-saving a joined event
leaves it joined (`Transforms.UnsaveAfterJoin`).

Where the design description and the code differ, the model follows the code:

- login trims the phone, so the match is on the trimmed phone, not on the
  phone exactly as typed;
- registration trims the name and the phone but not the passwords, so a
  password of spaces is accepted;
- un-saving removes every occurrence of the id;
- a blank login form is rejected before the directory is searched, with its
  own error (`MissingCredentials`).

## Model

| member | source | states |
|---|---|---|
| `Lists.FindIndex` | js/app.js:118 | `find` returns the first index whose element satisfies the predicate, and none exactly when no element does |
| `Lists.Without` | js/app.js:328 | `filter(id => id !== e)` keeps exactly the elements different from `e`; an input without `e` is returned unchanged |
| `Lists.WithoutIsSubsequence` | js/app.js:525 | the filtered list keeps the remaining ids in their original order |
| `Lists.WithoutMultiset` | js/app.js:328 | filtering removes every occurrence of `e` and no other element |
| `Lists.WithoutNoDuplicates` | js/app.js:525 | filtering a list without duplicates yields a list without duplicates |
| `Text.Trim` | js/app.js:381 | `trim` yields the empty string exactly for blank input, and otherwise a string that starts and ends with a non-whitespace character |
| `Text.TrimIsSlice` | js/app.js:421-422 | what `trim` keeps is one contiguous slice of the input, with only whitespace on either side |
| `Text.TrimIdempotent` | js/app.js:422 | trimming twice is trimming once |
| `Text.TrimSurrounded` | js/app.js:539 | whitespace around a text is exactly what `trim` removes, so "  hello  " is stored as "hello" |
| `Text.ReplaceAll` | js/app.js:272 | `replaceAll` of a character absent from the input returns the input |
| `Text.EscapeHtmlIsPerCharacter` | js/app.js:270-277 | the five passes, ampersand first, equal escaping each character on its own: no entity is escaped twice |
| `Text.EscapeHtmlNoTagOrQuote` | js/app.js:270-277 | the escaped text contains none of `<`, `>`, `"`, `'` |
| `Text.EscapeHtmlPlainText` | js/app.js:270-277 | text with none of `&<>"'` is returned unchanged |
| `Text.EscapeHtmlRoundTrip` | js/app.js:270-277 | decoding the five entities gives back the original text |
| `Records.AppendKeepsUnique` | js/app.js:437-449 | appending a user with an unused id and an unused phone keeps ids and phones unique |
| `Transforms.ToggleSaved` | js/app.js:326-330 | the id ends up saved exactly when it was not saved before. A new id is appended at the end. An id already saved is removed, every occurrence of it: the other ids keep their order and their counts. All other saved ids keep their membership. `joined` and `comments` are unchanged and no duplicate appears |
| `Transforms.ToggleSavedTwice` | js/app.js:326-330 | toggling twice restores the set of saved ids and leaves `joined` and `comments` alone |
| `Transforms.ToggleSavedTwiceUnsaved` | js/app.js:326-330 | for an id that was not saved, toggling twice restores the entry exactly |
| `Transforms.Join` | js/app.js:338-344 | afterwards the id is in both `joined` and `saved`. The old lists are prefixes of the new ones. Each list grows by one exactly when the id was missing, so no duplicate appears. `comments` is unchanged |
| `Transforms.JoinIdempotent` | js/app.js:338-344 | a second join with the same id changes nothing |
| `Transforms.Leave` | js/app.js:523-527 | the id is no longer joined, every occurrence of it removed. Every other joined id keeps its order and its count. `saved` and `comments` are unchanged |
| `Transforms.JoinThenLeave` | js/app.js:523-527 | joining then removing leaves the id saved, and restores `joined` when the id was not joined before |
| `Transforms.UnsaveAfterJoin` | js/app.js:326-344 | un-saving a joined event leaves it joined but not saved, so "joined implies saved" does not hold in general |
| `Transforms.SetComment` | js/app.js:537-541 | the event's comment becomes the trimmed text, possibly empty; `saved` and `joined` are unchanged |
| `Transforms.SetCommentFrame` | js/app.js:537-541 | only that event's key is added or overwritten; every other comment is unchanged |
| `Transforms.JoinLeaveCommentFromEmpty` | js/app.js:523-541 | for a user with no entry, join then remove leaves `joined == []` and `saved == [e]`, and a padded comment is stored trimmed |
| `Auth.Authenticate` | js/app.js:381-396 | login fails as blank exactly when the trimmed phone or the password is empty. It fails as invalid exactly when no stored user has that phone and password. Otherwise it returns the first user that has both |
| `Auth.CheckRegistration` | js/app.js:421-447 | each rejection (missing field, password mismatch, phone already used) happens exactly under its condition, in the form's order. On success the new record carries the given id, the trimmed name and phone, and the password, and its phone is unused |
| `Auth.RegisteredUserCanLogIn` | js/app.js:421-452 | a filled-in form with matching passwords and an unused phone is accepted; afterwards, logging in with that password and either the phone as typed or the stored phone finds the new user |
| `Storage.Store.constructor` | js/app.js:70-92 | empty storage reads as no users, no session and an empty user-data map |
| `Storage.Store.GetOrCreateUserData` | js/app.js:98-103 | a missing entry is stored as `{saved: [], joined: [], comments: {}}`, an existing one is left as it is, and no other entry changes |
| `Storage.Store.UpdateUserData` | js/app.js:105-112 | the transform is applied to the entry, or to the empty default, and only that user's entry is replaced |
| `Storage.Store.CurrentUser` | js/app.js:114-119 | none when there is no session, its user id is empty, or no stored user has that id; otherwise the stored user with that id |
| `Storage.Store.CurrentUserIsUnique` | js/app.js:114-119 | with unique ids, a session naming a stored user resolves to exactly that user |
| `Storage.Store.ClearSession` | js/app.js:86-88 | logout removes the session |
| `Storage.Store.Login` | js/app.js:381-396 | the result is `Authenticate` on the directory. On success the session names the user found and `currentUser` returns that user. On failure the session is unchanged |
| `Storage.Store.Register` | js/app.js:421-452 | a rejected form changes no record. An accepted one appends exactly one user at the end and sets the session to the new id. It also creates the empty entry and keeps ids and phones unique. `currentUser` then returns the new user |
| `Storage.Store.SeedDemoUser` | js/app.js:561-566 | an empty directory becomes the demo account alone, with its entry created; a non-empty one is left as it is |
| `Storage.Store.SaveClicked` | js/app.js:310-335 | an unknown event is ignored. A logged-out visitor is sent to login without any change. Otherwise only the current user's entry becomes the toggled one |
| `Storage.Store.JoinClicked` | js/app.js:310-349 | an unknown event is ignored. A logged-out visitor is sent to login without any change. Otherwise only the current user's entry becomes the joined one |
| `Storage.Store.RemoveClicked` | js/app.js:519-528 | an empty event id changes nothing; otherwise only that user's entry changes, by the remove transform |
| `Storage.Store.CommentClicked` | js/app.js:519-544 | an empty event id changes nothing. A cancelled prompt still leaves the user's entry created. Otherwise only that user's entry changes, by the comment transform |

## Left out

- The JSON and localStorage layer (`safeJsonParse`, `JSON.stringify`, `localStorage`): each record is a typed field. Corrupted stored text that reads as the default value is not modelled.
- Records of the wrong shape (a session without `userId`, an entry without `comments`, which `d.comments ??= {}` repairs): the typed fields cannot hold them.
- `Storage.Store.Register`: the generated id (`Math.random` and `Date.now`) is a parameter. It is required to be non-empty and unused in the directory and the user-data map. The code does not check this, and the model does not capture a collision.
- `Storage.Store.CommentClicked`: the `prompt` dialog is an input, `None` for a cancelled prompt. The text that pre-fills the prompt is not returned.
- DOM rendering: card templates, button labels, the page's own redirect when nobody is logged in, and `initMyPage` re-rendering. Both renderers call `getOrCreateUserData` (js/app.js:187, js/app.js:494), so showing a page also creates the entry; only the handler-side calls are modelled.
- Toasts, ripples, timers, scrolling and focus highlighting: browser effects with no stored state.
- URL handling and redirects (`getQueryParam`, `setQueryParam`, `encodeURIComponent`, `window.location`): browser navigation.
- The event catalog's display text: only the three event ids are kept (`Storage.EventIds`).
- The `action` attribute dispatch: each button is its own method.
- Password security: passwords are stored and compared in plain text, as the demo intends.
- Several tabs writing the same record: each operation is one uninterrupted step, and concurrent writers are out of scope.
