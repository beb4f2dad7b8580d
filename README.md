# Movie browser: verified model of the list store, session and screens

This is a Dafny model of a React Native movie browser. A user searches an online movie
catalogue (OMDb), opens a movie's details, and keeps two personal lists, *favorites* and
*watch later*. The lists are saved in a local SQLite database that has two tables:
`users(userID, username, password)` and
`userMovies(userMovieID, userID, movieData, inFavorites, inWatchLater)`. `movieData` is a
movie record written as a JSON string. The app keeps the lists of the logged-in user (or of
the guest, user id -1) in memory. It reloads them from the store whenever the user id
changes, and once when the app starts, which loads the guest's stored lists.

The modules follow the source files:

| module (file) | models |
|---|---|
| `Wrappers` (wrappers.dfy) | `Option` and `Result` |
| `MovieRecord` (movie_record.dfy) | the record `{Title, Year, imdbID, Poster}` and a JSON writer and reader for it (string escapes as in ECMAScript `JSON.stringify`), with a proved round trip |
| `DatabaseApi` (database_api.dfy) | the store: class `Database`, whose tables are sequences of rows in insertion order and whose AUTOINCREMENT counters both start at 1; one method per exported function |
| `AppState` (app_state.dfy) | App.js: the flag partition of stored rows (a `while` loop) and class `Session` (`userID`, `favorites`, `watchLater`), with the login, logout and delete transitions and `SetUserID`, which the create-account button calls |
| `SearchResults` (search_results.dfy) | the focus array, the stored record of a result, the list add/remove functions, the membership check and the two popup buttons |
| `MovieSearchScreen` (movie_search_screen.dfy) | class `SearchScreen`: query, page cache, page number and status message |
| `NewAccountScreen` (new_account_screen.dfy) | class `NewAccountForm`: the status lines of the create-account form and its button |
| `MovieApi` (movie_api.dfy) | the catalogue client: title normalisation, the `Response === 'False'` check, projection onto `keys`, reordering of `Released` |
| `SettingsScreen` (settings_screen.dfy) | display options as an ordered list of (key, flag) and the switch toggle |
| `MovieDetailScreen` (movie_detail_screen.dfy) | the loop that collects the enabled display options |
| `Scenario` (scenario.dfy) | one worked session on a fresh store |

Invariants the store keeps (`Database.Valid`):
- usernames are unique;
- there is at most one `userMovies` row per `(userID, movieData)`;
- ids are strictly increasing and lie below their counter.

Every state-changing method keeps `Valid` and states its whole new state.
`CreateNewAccount` gives its appended row directly. The other store methods give their
new tables through a specification function (`Inserted`, `AddedToList`, `SetFlag`,
`WithoutUser`, `WithoutOwner`), and lemmas prove what the app relies on about those
functions.

Where the code and its documentation disagree, the model follows the code:
- An account can be created with two different passwords typed. `onCreateAccPress` submits
  `password1` and never looks at the match status (screens/LoginRoute/NewAccountScreen.js:76-88).
- The form asks for 4 characters, but the store accepts 3 (`MinFormLength` and
  `MinCredentialLength`). `AvailableNameAccepted` relates the two.
- `onPassword1Input` compares the new first password with the previous first password, not
  with the second one. `Password1MatchIgnoresSecond` states this.
- The date comment in movieApi.js speaks of dd/mm/yyyy. The code splits `Released` on single
  spaces and prints missing tokens as `undefined` (`ReorderOneToken`).
- The guest id -1 is an ordinary key. Nothing enforces the foreign key, so guest list writes
  are stored, and `getMovieListFromID(-1)` returns them.
- `goPrevPage` is guarded by the typed query, while `goNextPage` is guarded by the last
  searched query.

## Model

| member | source | states |
|---|---|---|
| DatabaseApi.Database.constructor | database/databaseApi.js:8-30 | Both tables start empty, both AUTOINCREMENT counters are 1, and the store invariant holds |
| DatabaseApi.Message | database/databaseApi.js:41-57 | The texts of the two rejections `createNewAccount` throws; `MessagesDiffer` states that they differ |
| DatabaseApi.MessagesDiffer | database/databaseApi.js:41-57 | The too-short and the taken-name messages are different texts |
| DatabaseApi.Database.CreateNewAccount | database/databaseApi.js:38-73 | Fails with the too-short error iff either string has fewer than 3 characters. Fails with the duplicate error iff both are long enough and some row already has the username, whatever its password. Succeeds iff neither holds. On success it appends exactly one row under the next id and returns that id; on failure the tables and counters are unchanged. `userMovies` is never touched, and usernames stay unique |
| DatabaseApi.NamedRows | database/databaseApi.js:45-55 | The rows selected by username all come from `users` and carry that name. The selection is empty iff no row has the name |
| DatabaseApi.CredentialRows | database/databaseApi.js:80-92 | The rows selected by username and password all match both. The selection is empty iff no row matches both |
| DatabaseApi.Database.GetUserID | database/databaseApi.js:79-95 | Returns -1 iff no row matches both credentials. Otherwise the result is the id of a row holding exactly those credentials. Nothing changes |
| DatabaseApi.Database.DoesUserIDExist | database/databaseApi.js:101-116 | True iff some row has the username. Nothing changes |
| DatabaseApi.RowsOf | database/databaseApi.js:136-140 | The listing holds exactly the `(movieData, inFavorites, inWatchLater)` of the rows of user `u`. It is empty iff `u` has no rows and is no longer than the table |
| DatabaseApi.Database.GetMovieListFromID | database/databaseApi.js:132-147 | Returns the rows of the user in row order (`RowsOf`). Nothing changes |
| DatabaseApi.Database.AddToUserMoviesIfNotExists | database/databaseApi.js:154-179 | Inserts `(u, m, 0, 0)` under the next id iff no row for `(u, m)` exists, and reports whether it inserted. Otherwise the table is unchanged. Keys stay unique |
| DatabaseApi.Inserted | database/databaseApi.js:154-179 | After the conditional insert a row for `(u, m)` exists. The old rows stay in place, and the table grows by one row iff none existed |
| DatabaseApi.AddedToList | database/databaseApi.js:191-200 | What adding leaves in the table; its effect is stated by `AddedToListEffect`, `AddedToListFlagged` and `AddedToListTwice` |
| DatabaseApi.SetFlag | database/databaseApi.js:193-198 | The UPDATE keeps every row in place. Exactly the rows of `(u, m)` get flag `l` set to `v`, and their other flag, id, user and data are kept |
| DatabaseApi.Database.AddMovieToList | database/databaseApi.js:191-200 | The row for `(u, m)` is ensured, then flag `l` is set on it (`AddedToList`). `users` is unchanged and the invariant is kept |
| DatabaseApi.Database.RemoveMovieFromList | database/databaseApi.js:212-220 | Clears flag `l` on the row of `(u, m)` (`SetFlag` with false). No row is created or deleted and no counter moves |
| DatabaseApi.WithoutUser | database/databaseApi.js:228-232 | Exactly the rows with a different id remain, and no longer than the table. Without a row for the id the table is unchanged |
| DatabaseApi.WithoutUserConcat | database/databaseApi.js:228-232 | The delete keeps the remaining rows in their order |
| DatabaseApi.WithoutOwner | database/databaseApi.js:25-26 | The cascade keeps exactly the rows of other users. When the user owns no row the table is unchanged |
| DatabaseApi.WithoutOwnerConcat | database/databaseApi.js:25-26 | The cascade keeps the remaining rows in their order |
| DatabaseApi.DeleteKeepsOtherLists | database/databaseApi.js:226-234 | After the cascade, every other user's listing reads exactly as before |
| DatabaseApi.Database.DeleteAccount | database/databaseApi.js:226-234 | Removes the users row with that id and keeps every other row. Through the declared cascade it removes that user's `userMovies` rows, and only those, when such a users row existed. Without a row for the id nothing changes. Counters and the invariant are kept |
| DatabaseApi.AppendUserValid | database/databaseApi.js:60-70 | Appending a user with a fresh name under the counter keeps names unique and ids increasing |
| DatabaseApi.InsertedValid | database/databaseApi.js:163-172 | The conditional insert keeps one row per `(userID, movieData)` |
| DatabaseApi.SetFlagValid | database/databaseApi.js:193-198 | A flag update keeps the table invariant |
| DatabaseApi.WithoutUserValid | database/databaseApi.js:228-232 | Deleting a user keeps the users invariant |
| DatabaseApi.WithoutOwnerValid | database/databaseApi.js:25-26 | The cascade keeps the userMovies invariant |
| DatabaseApi.LookupFindsAccount | database/databaseApi.js:83-88 | With unique names, looking up a stored row's credentials gives that row's id |
| DatabaseApi.CreateThenLogin | database/databaseApi.js:60-95 | After a successful create, logging in with the same credentials returns the new id |
| DatabaseApi.SetFlagIdempotent | database/databaseApi.js:193-198 | Setting a flag to the same value twice equals setting it once |
| DatabaseApi.SetFlagWithoutRow | database/databaseApi.js:213-219 | Removing a pair that has no row is a no-op |
| DatabaseApi.AddedToListEffect | database/databaseApi.js:191-200 | Only the row of `(u, m)` changes. An existing row gets flag `l` and keeps its other flag. Otherwise one new row with only flag `l` is appended under the given id |
| DatabaseApi.AddedToListFlagged | database/databaseApi.js:191-200 | Afterwards a row for `(u, m)` exists and has flag `l` |
| DatabaseApi.AddedToListTwice | database/databaseApi.js:191-200 | Adding the same movie to the same list again changes nothing, whatever id the counter offers |
| DatabaseApi.RowsOfDistinct | database/databaseApi.js:136-140 | With one row per key, a user's listing has no repeated `movieData` |
| DatabaseApi.AddThenListed | database/databaseApi.js:132-200 | After an add, the user's listing holds the movie exactly once, with flag `l` set |
| DatabaseApi.RemovedNotListed | database/databaseApi.js:212-220 | After a remove, no entry of the user's listing for that movie has flag `l` |
| DatabaseApi.AddToBoth | database/databaseApi.js:191-200 | Adding a movie to both lists leaves exactly one row for it, with both flags set |
| DatabaseApi.DeletedListsEmpty | database/databaseApi.js:226-234 | After the cascade, the deleted user's listing is empty |
| MovieRecord.Encode | components/SearchResults.js:99 | `JSON.stringify` of the record; `DecodeEncode` and `EncodeInjective` state its properties |
| MovieRecord.Decode | App.js:38 | `JSON.parse` of a stored record; `DecodeEncode` states that it inverts `Encode` |
| MovieRecord.DecodeEncode | components/SearchResults.js:79-84 | Parsing the stored string of a record gives the record back (`JSON.parse(JSON.stringify(m))`) |
| MovieRecord.EncodeInjective | components/SearchResults.js:110-112 | Two records have the same stored string iff they are equal, so comparing serialisations compares records |
| AppState.Flagged | App.js:36-41 | The `movieData` of exactly the rows with that flag; no longer than the rows |
| AppState.FlaggedConcat | App.js:36-41 | The flagged strings keep row order (the selection distributes over concatenation) |
| AppState.DecodeAll | App.js:38-40 | Fails iff some string does not parse; otherwise parses each string in place |
| AppState.Loaded | App.js:32-46 | The two lists the effect computes; `Partition`, `LoadedLists`, `FailedParseRejects` and `FlaggedCons` state what they hold |
| AppState.Reloaded | App.js:32-46 | The lists after the effect: the loaded ones, or the old ones when the load throws; `Session.LoadLists` uses it |
| AppState.Partition | App.js:32-46 | The loop's lists are exactly the parsed favorites and watch-later rows, in row order. It reports failure iff a flagged row does not parse, the case in which the effect stops before setting state |
| AppState.FailedParseRejects | App.js:38-40 | One flagged row that does not parse makes the whole reload fail |
| AppState.LoadedLists | App.js:36-41 | Each list parses its flagged rows one for one, so neither list is longer than the rows |
| AppState.FlaggedCons | App.js:36-41 | A row with both flags goes to both lists, and a row with neither flag to neither |
| AppState.DecodeAllEncoded | App.js:38-40 | Strings the app wrote always load back as the records written |
| AppState.Session.constructor | App.js:18-46 | The session starts as the guest (-1) with empty lists, and the effect's first run then loads the guest's stored lists |
| AppState.Session.LoadLists | App.js:32-46 | The effect reloads both lists from the store for the current user, or leaves them as they were when a row fails to parse |
| AppState.Session.SetUserID | App.js:32-46 | Sets the user. The lists are reloaded iff the id actually changes |
| AppState.Session.Login | screens/LoginRoute/LoginScreen.js:27-39 | Finds an account iff some row matches both credentials, and then switches to that row's id. The lists are reloaded for that id when it differs from the current one and are kept when it does not. Without a match nothing changes |
| AppState.Session.Logout | screens/MovieRoute/ProfileScreen.js:129-137 | Offered only to a logged-in user; becomes the guest and reloads the guest's lists |
| AppState.Session.DeleteAccount | screens/MovieRoute/ProfileScreen.js:54-59 | Offered only to a logged-in user. Deletes the current account, with its rows through the cascade, keeps every other row and both counters, then becomes the guest and reloads the guest's lists |
| SearchResults.Unfocused | components/SearchResults.js:42-44 | The reset gives one false entry per result |
| SearchResults.FocusResult | components/SearchResults.js:35-39 | The new array has one entry per result and at most one true. Exactly `index` is focused when it was not focused before; if it was, nothing is focused |
| SearchResults.ToMovieData | components/SearchResults.js:79-84 | The record a result stores; `MovieDataFields` states its fields |
| SearchResults.MovieDataFields | components/SearchResults.js:79-84 | The stored record reads back as the item's Title, Year, imdbID and Poster. Two items store the same string iff those four fields agree |
| SearchResults.WithoutMovie | components/SearchResults.js:110-121 | Keeps exactly the entries that differ from the movie; no longer than the list |
| SearchResults.WithoutMovieConcat | components/SearchResults.js:110-121 | The filter keeps the order of the entries it keeps |
| SearchResults.WithoutAbsentMovie | components/SearchResults.js:110-121 | Removing a movie the list does not hold leaves the list as it is |
| SearchResults.ImdbIDs | components/SearchResults.js:131-132 | One imdbID per entry, in place |
| SearchResults.HasImdbID | components/SearchResults.js:130-140 | The membership flag is true iff some entry has the same imdbID |
| SearchResults.WithoutMovieDistinct | components/SearchResults.js:110-121 | Removing keeps a list free of repeated imdbIDs |
| SearchResults.Toggled | components/SearchResults.js:172-189 | The list after one button press: removed when the membership check holds, prepended otherwise; `ToggledKeepsDistinct` and `PressListButton` state its effect |
| SearchResults.ToggledKeepsDistinct | components/SearchResults.js:172-189 | A button press never puts two entries with the same imdbID into a list that had none |
| SearchResults.AddToList | components/SearchResults.js:89-100 | The chosen list becomes `[movieData]` followed by the old list, the other list is unchanged, and the store gets `addMovieToList` for the same user and list. The movie counter moves by one iff a row was inserted; `users` and its counter are unchanged |
| SearchResults.RemoveFromList | components/SearchResults.js:105-127 | The chosen list drops every entry equal to the movie, the other list is unchanged, and the store clears the same flag |
| SearchResults.PressListButton | components/SearchResults.js:172-189 | The button removes when the membership flag holds and adds otherwise, on both the list and the store. `users` and its counter are unchanged, and the movie counter moves by one iff an add inserted a row |
| MovieSearchScreen.SearchScreen.constructor | screens/MovieRoute/MovieSearchScreen.js:19-26 | Empty query, no pages, page 1, no message |
| MovieSearchScreen.SearchScreen.SetSearchQuery | screens/MovieRoute/MovieSearchScreen.js:93-97 | Typing changes only the query |
| MovieSearchScreen.SearchScreen.Search | screens/MovieRoute/MovieSearchScreen.js:31-46 | An empty query only sets the prompt. On success the cache is `[page 1]`, the page is 1, the last query is the typed one and the message is cleared. On failure only the message changes, to the catalogue's error |
| MovieSearchScreen.SearchScreen.GoNextPage | screens/MovieRoute/MovieSearchScreen.js:55-73 | A no-op before any search. Moves to a cached next page without fetching. Otherwise it fetches the next page of the last query and appends it, or on failure keeps the pages and sets the end-of-results message |
| MovieSearchScreen.SearchScreen.GoPrevPage | screens/MovieRoute/MovieSearchScreen.js:79-88 | A no-op for an empty typed query. At page 1 it only sets the beginning-of-results message; otherwise it goes back one page |
| MovieSearchScreen.SearchScreen.Displayed | screens/MovieRoute/MovieSearchScreen.js:121-126 | The page rendered under the buttons, or none; `DisplayedIsCatalogPage` states what it is |
| MovieSearchScreen.DisplayedIsCatalogPage | screens/MovieRoute/MovieSearchScreen.js:121-126 | Under the invariant (1 <= page <= cached pages once a search succeeded, and page k cached as the catalogue's page k of the last query), the shown results are the catalogue's answer for the last query at the current page. Nothing is shown before the first success |
| MovieSearchScreen.NextThenPrevious | screens/MovieRoute/MovieSearchScreen.js:55-88 | Next then Previous from a cached page shows the same results again, with the cache unchanged |
| NewAccountScreen.UsernameStatus | screens/LoginRoute/NewAccountScreen.js:26-37 | The username line; `UsernameStatusCases` states each case |
| NewAccountScreen.LengthStatus | screens/LoginRoute/NewAccountScreen.js:57-61 | The length line of the second input; `LengthStatusCases` states it |
| NewAccountScreen.Password1LengthStatus | screens/LoginRoute/NewAccountScreen.js:41-47 | The length line of the first input; `LengthStatusCases` states it |
| NewAccountScreen.Password1MatchStatus | screens/LoginRoute/NewAccountScreen.js:48-52 | The match line of the first input; `Password1MatchIgnoresSecond` states it |
| NewAccountScreen.Password2MatchStatus | screens/LoginRoute/NewAccountScreen.js:62-68 | The match line of the second input; `Password2MatchCases` states it |
| NewAccountScreen.UsernameStatusCases | screens/LoginRoute/NewAccountScreen.js:26-37 | The username line asks for a name iff the input is empty. It asks for 4 characters iff the length is 1 to 3. It says taken iff the name is long enough and exists, and available otherwise |
| NewAccountScreen.LengthStatusCases | screens/LoginRoute/NewAccountScreen.js:57-61 | The length line reports success iff both passwords have at least 4 characters. The first input asks for a password iff it is empty |
| NewAccountScreen.Password2MatchCases | screens/LoginRoute/NewAccountScreen.js:62-68 | The match line is empty iff the second input is empty. Otherwise it says "match" iff the input equals the first password |
| NewAccountScreen.Password1MatchIgnoresSecond | screens/LoginRoute/NewAccountScreen.js:48-52 | As written, the first input reports a match iff it equals the previous first password, whatever the second holds |
| NewAccountScreen.AvailableNameAccepted | screens/LoginRoute/NewAccountScreen.js:30-35 | A name the form calls available passes the store's checks on the name |
| NewAccountScreen.NewAccountForm.constructor | screens/LoginRoute/NewAccountScreen.js:19-24 | The initial inputs and status lines |
| NewAccountScreen.NewAccountForm.OnUsernameInput | screens/LoginRoute/NewAccountScreen.js:26-37 | Stores the name and sets the username line from its length and whether the store has it |
| NewAccountScreen.NewAccountForm.OnPassword1Input | screens/LoginRoute/NewAccountScreen.js:39-53 | Stores the password. Both lines are computed against the first password held before the keystroke |
| NewAccountScreen.NewAccountForm.OnPassword2Input | screens/LoginRoute/NewAccountScreen.js:55-69 | Stores the password. Both lines are computed against the current first password |
| NewAccountScreen.NewAccountForm.OnCreateAccPress | screens/LoginRoute/NewAccountScreen.js:76-88 | Creates the account from the username and first password iff the store accepts them. It then switches the session to the new id, reloading the lists when the id changes, and leaves every status line as it was. Otherwise the store's counters and the session are unchanged, the username line shows the store's error and both password lines are cleared. `userMovies` and its counter never change |
| MovieApi.Trim | movieApi.js:38 | `trim()`; `TrimmedAt` states it |
| MovieApi.NormalizeTitle | movieApi.js:38 | The title as sent in the URL; `NormalizeTitleSpec` and `NormalizeTitleNoWhitespace` state it |
| MovieApi.LeadingSpaces | movieApi.js:38 | The count of leading whitespace: all of it whitespace, followed by a non-whitespace character or the end |
| MovieApi.TrailingSpaces | movieApi.js:38 | The count of trailing whitespace after position `lo`: all of it whitespace, preceded by a non-whitespace character or by position `lo` |
| MovieApi.TrimEnd | movieApi.js:38 | The end of the trimmed title lies between its start and the end of the title |
| MovieApi.TrimmedAt | movieApi.js:38 | The trimmed title is the part of the title between the leading and trailing whitespace, character by character |
| MovieApi.PlusForWhitespace | movieApi.js:38 | Same length; every whitespace character becomes `+` and every other character is kept |
| MovieApi.NormalizeTitleSpec | movieApi.js:38 | The normalised title is the trimmed title with each whitespace character replaced by `+`: whitespace only before and after it, no whitespace at either of its ends, the trimmed length, and each character the title's or `+` for whitespace |
| MovieApi.NormalizeTitleNoWhitespace | movieApi.js:38 | The normalised title contains no whitespace |
| MovieApi.FetchSearchResults | movieApi.js:37-50 | Fails with the response's `Error` iff `Response` is 'False'; otherwise returns its `Search` array (possibly absent), for the normalised title and the page |
| MovieApi.Pick | movieApi.js:66-68 | The projected object has exactly the listed keys, each copied from the response; a key the response lacks is present with the value `undefined` (`None`) |
| MovieApi.Split | movieApi.js:71 | `split(' ')` gives at least one token and no token holds a space |
| MovieApi.JoinSplit | movieApi.js:71 | Joining the tokens with single spaces gives the input back |
| MovieApi.ReorderDate | movieApi.js:70-72 | The reordered `Released` date; `ReorderThreeTokens`, `ReorderExample` and `ReorderOneToken` state it |
| MovieApi.ReorderThreeTokens | movieApi.js:70-72 | `t0 t1 t2` becomes `t1 t0, t2` |
| MovieApi.ReorderExample | movieApi.js:70-72 | "12 Oct 2021" becomes "Oct 12, 2021" |
| MovieApi.ReorderOneToken | movieApi.js:71-72 | A date without spaces becomes `undefined <date>, undefined` |
| MovieApi.FetchMovieData | movieApi.js:56-75 | `fetchMovieData(id)`; `FetchMovieDataSpec` states its result |
| MovieApi.FetchMovieDataSpec | movieApi.js:56-75 | Fails with the catalogue's error iff `Response` is 'False'. Fails on `undefined.split` iff `Released` is missing. Otherwise the result has exactly the 10 `keys`, each copied, and `Released` reordered |
| SettingsScreen.Lookup | screens/MovieRoute/SettingsScreen.js:26 | A key reads as true only when it is present |
| SettingsScreen.Toggle | screens/MovieRoute/SettingsScreen.js:23-28 | The key's value is negated (a missing key becomes true) and every other key reads as before |
| SettingsScreen.ToggleKeys | screens/MovieRoute/SettingsScreen.js:23-28 | The key order is kept, with a new key appended at the end |
| SettingsScreen.ToggleKeepsDistinct | screens/MovieRoute/SettingsScreen.js:24-27 | The toggled object still holds each key once |
| SettingsScreen.ToggleTwice | screens/MovieRoute/SettingsScreen.js:23-28 | Toggling a present key twice restores the object; any key reads as before |
| SettingsScreen.WithoutPoster | screens/MovieRoute/SettingsScreen.js:33-34 | The offered fields are exactly the `keys` other than Poster |
| SettingsScreen.OfferedFields | screens/MovieRoute/SettingsScreen.js:33-34 | The nine offered fields in `keys` order |
| SettingsScreen.Switches | screens/MovieRoute/SettingsScreen.js:33-43 | One switch per offered field, in order, showing the field's current value |
| SettingsScreen.SwitchFlipsOnlyItself | screens/MovieRoute/SettingsScreen.js:36-41 | Pressing a switch flips it; the switch of every other field keeps its value |
| SettingsScreen.InitialDisplayOptions | App.js:19-25 | The five options the app starts with, all on; `InitialOptionsWellFormed` and `MovieDetailScreen.InitialFields` state what they hold and show |
| SettingsScreen.InitialOptionsWellFormed | App.js:19-25 | The initial options hold each key once, all from `keys`, with the poster off |
| SettingsScreen.ToggleKeepsKnownKeys | screens/MovieRoute/SettingsScreen.js:23-43 | Toggling an offered field adds no key outside `keys` |
| MovieDetailScreen.EnabledKeys | screens/MovieRoute/MovieDetailScreen.js:22-25 | Holds every key whose entry is true, and only such keys |
| MovieDetailScreen.EnabledKeysConcat | screens/MovieRoute/MovieDetailScreen.js:23-24 | The enabled keys keep the object's key order |
| MovieDetailScreen.EnabledDisplayOptions | screens/MovieRoute/MovieDetailScreen.js:22-25 | The loop collects exactly `EnabledKeys` |
| MovieDetailScreen.EnabledIffLookup | screens/MovieRoute/MovieDetailScreen.js:23-24 | For an object, a field is shown iff its option is truthy |
| MovieDetailScreen.EnabledKeysDistinct | screens/MovieRoute/MovieDetailScreen.js:23-24 | No field is listed twice |
| MovieDetailScreen.ToggleShowsOrHides | screens/MovieRoute/MovieDetailScreen.js:22-25 | Flipping a switch shows or hides exactly that field |
| MovieDetailScreen.EnabledKeysKnown | screens/MovieRoute/MovieDetailScreen.js:22-25 | Only fields returned by `fetchMovieData` are listed |
| MovieDetailScreen.AllDisabledShowsNothing | screens/MovieRoute/MovieDetailScreen.js:22-25 | All options false give no field |
| MovieDetailScreen.InitialFields | App.js:19-25 | The initial options show Title, Released, Director, Runtime and Plot, in that order |
| Scenario.WatchLaterRoundTrip | database/databaseApi.js:38-220 | On a fresh store "alice"/"secret" gets id 1. After adding a movie to watch later, the lists read back as `([], [movie])`; after removing it they read back as `([], [])` |

## Left out

- SQL text, `expo-sqlite` transactions, callbacks and promises: each exported function is one
  atomic method on in-memory tables. A failed `executeSql` (a rejected promise) is not modelled.
- Concurrency: `addMovieToList` checks and updates in two separate transactions. The UI
  does not await `addMovieToList`, `removeMovieFromList` or `deleteAccount`. The text input
  does not await the async `onUsernameInput`, which itself awaits `doesUserIDExist`, so the
  lookups of two keystrokes can resolve out of order. The model is sequential, so the
  interleavings these allow are not covered.
- Foreign keys: the model applies the declared `ON DELETE CASCADE`. SQLite enforces it only
  with `PRAGMA foreign_keys` on, and database/openSQLiteDB.js is not part of this model; with
  the pragma off, a deleted user's rows would stay.
- Row order: rows are listed in insertion order. SQLite gives no order without `ORDER BY`,
  and `getUserID` returns the first match in that order.
- The network and the JSON body decoding of catalogue responses: a response is a parameter
  (a map of top-level string members plus the `Search` array). A network error, which would
  also reach `statusMsg`, is not modelled.
- `JSON.parse` is modelled only on the layout the app writes. `Decode` rejects every other
  text. Rows written by other programs are out of scope, and so is a record field that is not
  a string (`JSON.stringify` would drop an undefined field).
- String lengths count Unicode scalar values. JavaScript `.length` counts UTF-16 code units,
  so the 3- and 4-character limits differ for characters outside the Basic Multilingual Plane.
- Plain-text passwords: accounts match by string equality, as in the source; there is no hashing.
- Display options are an ordered list of (key, flag). JavaScript would put integer-like keys
  first; no such key occurs.
- React rendering, hooks, navigation, styling and animation are not modelled. The state
  setters are direct assignments. A handler's reads use the state from before its own writes,
  which the methods reproduce (`OnPassword1Input`).
- The login screen's status message (`No account found …`) is not modelled. `Session.Login`
  only reports whether an account was found.
- MovieApi.FetchSearchResults: the URL built from the normalised title is the catalogue
  oracle's argument. The URL text itself is not modelled.
- DatabaseApi.LookupUserID: the function carries no contract of its own;
  `Database.GetUserID` and `LookupFindsAccount` state what it returns.
- SettingsScreen.SwitchFlipsOnlyItself: the "every other switch keeps its value" half is stated
  for switches whose field name differs from the pressed one. The nine offered names are all
  different (`OfferedFields` lists them), but that fact is not restated inside the lemma.
