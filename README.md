# Flask movie app: a verified model of its store and its recommendation parser

The application keeps users and their favourite movies in a SQLite database
through SQLAlchemy, and asks a chat model for recommendations. This project
models four parts of it in Dafny:

- **The reply parser of `get_movie_recommendations`** (`services/ai_client.py`).
  The reply text is split into lines. Each line is stripped, and blank lines
  are skipped. A line number is dropped up to the first `"."`. The line is then
  split at the first `" - "` into a `MovieRecommendation(title, reason)`.
  `ParseReply` is the specification. `GetMovieRecommendations` is the loop,
  proved equal to it. The Python `str` operations it uses (`strip`,
  `splitlines`, `in`, `split(sep, 1)`) are modelled by code point in `PyStr`.
- **The entity schema** (`models.py`). Users and movies are rows kept in two
  maps from primary key to row. The foreign key is `movies.user_id -> users.id`.
  `User.movies` and `Movie.user` are the two ends of that relation. The
  cascade `"all, delete-orphan"` is modelled as the effect of deleting a user
  and of detaching a movie.
- **The abstract `DataManagerInterface`** (`datamanager/data_manager_interface.py`).
  Each operation's documented promise is a predicate over the tables before
  and after the call, plus its arguments and its result. Lemmas derive what a
  caller may rely on from those promises alone. `parse_year` has no
  implementation in the repository, so it is the function its documentation
  describes. Python refuses to construct a subclass that leaves an abstract
  operation undefined, and this is modelled too.
- **`SQLiteDataManager`** (`datamanager/sqlite_data_manager.py`). It is a class
  whose `users` and `movies` maps its methods read and reassign. Each method is
  proved against the matching interface predicate. A new row's id follows
  SQLite's rule for an INTEGER PRIMARY KEY: 1 in an empty table, otherwise one
  more than the largest key. `update_movie`'s `setattr` loop runs over the
  keyword arguments in order.

Each model follows the code where it differs from the documentation:

- `get_movie` is declared to take a movie id and return one movie or None.
  The code takes a user id and returns that user's movies. This is modelled as
  written and reported under Findings.
- `add_user`'s documentation says "Return a list of all users". The code
  returns the new user, and the model follows the code.

Two further facts about the code shape the model:

- `director` is a plain text column. There are no genre or review tables.
- `add_movie` inserts the row whatever the user id. SQLite leaves foreign keys
  unchecked unless told otherwise, and nothing in the code turns the check on.

## Model

| member | source | states |
|---|---|---|
| AiClient.GetMovieRecommendations | services/ai_client.py:64-94 | the recommendations built by the loop are exactly `ParseReply(content)`; a missing reply counts as empty text, and the favourite title and the count have no effect on them |
| AiClient.ParseReply | services/ai_client.py:64-94 | the specification of the whole parse: a missing reply is the empty text, whose lines are parsed in order |
| AiClient.ReadLine | services/ai_client.py:72-92 | the body of the loop for one line yields exactly `ParseLine` of that line: nothing for a blank line, otherwise one recommendation |
| AiClient.ParseLine | services/ai_client.py:72-92 | a line yields nothing exactly when it is blank after stripping; any recommendation it yields has a stripped title and a stripped reason |
| AiClient.DropNumber | services/ai_client.py:78-80 | dropping the number from a stripped line leaves a stripped line |
| AiClient.SplitTitle | services/ai_client.py:82-92 | the reason is always stripped, and the title is stripped whenever the text split is |
| AiClient.ParseLines | services/ai_client.py:71-92 | no more recommendations than lines |
| AiClient.EmptyReply | services/ai_client.py:64-71 | a missing reply and an empty reply both give an empty list |
| AiClient.OneRecommendationPerLine | services/ai_client.py:71-92 | the number of recommendations equals the number of lines that are not blank after stripping |
| AiClient.ParseLinesAppend | services/ai_client.py:71-92 | parsing keeps line order: the lines of a concatenation give the concatenation of their recommendations |
| AiClient.FieldsStripped | services/ai_client.py:72-92 | no title and no reason in the result starts or ends with whitespace |
| AiClient.TextBeforeFirstDotIgnored | services/ai_client.py:78-80 | whatever text stands before a line's first ".", the recommendation is made from the stripped text after it alone |
| AiClient.SplitAtFirstSeparator | services/ai_client.py:82-89 | the title is the stripped text before the first " - " and the reason the stripped text after it, later " - " included |
| AiClient.FallbackWholeLine | services/ai_client.py:90-92 | a non-blank line with neither "." nor " - " becomes its stripped text as title with an empty reason |
| AiClient.NumberedTitleOnly | services/ai_client.py:78-92 | "n. title" without " - " gives the title with an empty reason, for every stripped title, the empty one included |
| AiClient.SentenceLineGivesEmptyTitle | services/ai_client.py:78-80 | a chatty line "Enjoy." loses everything up to its "." and gives an empty title and reason |
| AiClient.FormatThenParseLine | services/ai_client.py:42-44 | a line in the requested "n. Title - reason" format parses back to exactly that title and reason |
| AiClient.ReplyRoundTrip | services/ai_client.py:42-44 | a reply written in the requested numbered format parses back to the listed recommendations, in order |
| AiClient.SeparatorAfterTitle | services/ai_client.py:82-83 | in "title - reason" with a separator-free title, the first " - " is the one right after the title |
| AiClient.FirstDotAt | services/ai_client.py:78-79 | the first "." of a line is the one after a prefix that holds none |
| PyStr.Strip | services/ai_client.py:72 | `strip()` gives a string with no whitespace at either end, no longer than its input |
| PyStr.StripSlice | services/ai_client.py:72 | what `strip()` keeps is a contiguous slice of the input, and everything it removes is whitespace |
| PyStr.StripLeftSlice | services/ai_client.py:72 | the left strip removes a prefix made of whitespace only |
| PyStr.StripRightSlice | services/ai_client.py:72 | the right strip removes a suffix made of whitespace only |
| PyStr.StripStripped | services/ai_client.py:72 | stripping a string with no whitespace at its ends changes nothing |
| PyStr.StripSpacePrefix | services/ai_client.py:80 | leading whitespace makes no difference to `strip()` |
| PyStr.StripIdempotent | services/ai_client.py:72-80 | stripping twice is stripping once |
| PyStr.IsSpace | services/ai_client.py:72 | the whitespace `strip()` removes: exactly the code points for which `str.isspace()` holds |
| PyStr.StripUnique | services/ai_client.py:72 | whenever a string is whitespace, then a stripped middle, then whitespace, `strip()` gives that middle |
| PyStr.StripAfterStripRight | services/ai_client.py:80 | stripping the right end first makes no difference to `strip()` |
| PyStr.SplitLines | services/ai_client.py:71 | `splitlines()` gives no lines exactly for the empty text |
| PyStr.Find | services/ai_client.py:78-83 | `sub in s` and `s.split(sub, 1)`: the index found is an occurrence, and no earlier index is one; when none is found there is no occurrence at all |
| PyStr.SplitLinesNoBreak | services/ai_client.py:71 | no line of `splitlines()` holds a line break |
| PyStr.SplitJoinLines | services/ai_client.py:71 | splitting lines that were joined with "\n" gives them back, when none holds a line break |
| Models.BackPopulates | models.py:12-28 | a movie is in a user's `movies` exactly when that user is the movie's `user` |
| Models.UserMovies | models.py:12-16 | `User.movies`: the ids of the stored movies whose `user_id` is the user's id |
| Models.MovieUser | models.py:28 | `Movie.user`: the stored user that the movie's `user_id` names, if there is one |
| Models.ReferentialIntegrity | models.py:27 | the foreign key: every movie's `user_id` names a stored user |
| Models.DeleteUser | models.py:12-16 | deleting a user removes that user and exactly the movies in the user's collection |
| Models.DeleteUserCascades | models.py:15 | after the cascade no movie refers to the deleted user, and the foreign key still holds |
| Models.DeleteUserSparesOthers | models.py:12-16 | the cascade leaves every other user's collection and every remaining movie as it was |
| Models.DeleteWithoutCascadeDangles | models.py:15-27 | without the cascade, deleting a user who owns a movie would break the foreign key |
| Models.DetachMovie | models.py:15 | detaching a movie never touches the users |
| Models.DetachDeletesOrphan | models.py:15 | a detached movie is deleted and leaves its owner's collection, nothing else changes, and the foreign key still holds |
| DataManagerInterface.FirstYearFrom | datamanager/data_manager_interface.py:11 | the index found starts four digits in a row, and no earlier index does |
| DataManagerInterface.ParseYear | datamanager/data_manager_interface.py:11-12 | the year is at most 9999, and 0 when the text holds no four digits in a row |
| DataManagerInterface.ParseYearIsFirstYear | datamanager/data_manager_interface.py:11 | the year is the number spelt by the first run of four digits |
| DataManagerInterface.ParseYearOfRanges | datamanager/data_manager_interface.py:11 | "2013–2015" and "2013– " both give 2013 |
| DataManagerInterface.ParseYearWithoutYear | datamanager/data_manager_interface.py:12 | "", "N/A" and "199" give 0 |
| DataManagerInterface.AllUsersContract | datamanager/data_manager_interface.py:19-22 | `get_all_users` promises every stored user, each once, as stored |
| DataManagerInterface.GetUserContract | datamanager/data_manager_interface.py:24-27 | `get_user` promises the user stored under the id, or None when there is none |
| DataManagerInterface.AddUserContract | datamanager/data_manager_interface.py:29-32 | `add_user` stores one user with the given name under an unused id, and nothing else changes |
| DataManagerInterface.UserMoviesContract | datamanager/data_manager_interface.py:35-38 | `get_user_movies` promises every stored movie whose `user_id` is the id, each once, as stored |
| DataManagerInterface.GetMovieContract | datamanager/data_manager_interface.py:40-43 | `get_movie` promises the movie stored under the movie id, or None when there is none |
| DataManagerInterface.AddMovieContract | datamanager/data_manager_interface.py:45-55 | `add_movie` stores one movie with exactly the given columns under an unused id, and nothing else changes |
| DataManagerInterface.UpdateMovieContract | datamanager/data_manager_interface.py:57-64 | `update_movie` gives None and writes nothing when there is no such movie; otherwise it returns the updated movie as stored |
| DataManagerInterface.DeleteMovieContract | datamanager/data_manager_interface.py:66-69 | `delete_movie` returns true exactly when the movie existed, and afterwards it does not |
| DataManagerInterface.Instantiate | datamanager/data_manager_interface.py:4-16 | a class derived from the interface can be constructed exactly when it defines every abstract operation; otherwise the TypeError names exactly the undefined ones |
| DataManagerInterface.AddedUserIsFound | datamanager/data_manager_interface.py:25-32 | a user just added is found by its id, with the name it was given |
| DataManagerInterface.UnknownUserOwnsNothing | datamanager/data_manager_interface.py:36-38 | listing the movies of an id that names no user gives an empty list while the foreign key holds |
| DataManagerInterface.AddedMovieIsListed | datamanager/data_manager_interface.py:36-55 | a movie just added is among its owner's movies |
| DataManagerInterface.FirstMovieOfUser | datamanager/data_manager_interface.py:36-55 | for a user who owned no movies, listing after one add gives exactly that movie, with its name and director |
| DataManagerInterface.SecondDeleteFindsNothing | datamanager/data_manager_interface.py:66-68 | deleting the same movie twice: the second call returns false and changes nothing |
| SqliteDataManager.NextRowId | datamanager/sqlite_data_manager.py:29-32 | a new row's key is 1 in an empty table and otherwise one more than the largest key, so it is never in use |
| SqliteDataManager.SetAttr | datamanager/sqlite_data_manager.py:91 | `setattr` on a column: that column reads the new value, every other column keeps its value |
| SqliteDataManager.ApplyFields | datamanager/sqlite_data_manager.py:89-91 | the `setattr` loop: the keyword arguments applied in order, each one that names a column setting that column |
| SqliteDataManager.UpdateSetsGivenColumns | datamanager/sqlite_data_manager.py:88-91 | after the loop every argument that names a column has set it, and every column no argument names keeps its value |
| SqliteDataManager.UnknownKeysIgnored | datamanager/sqlite_data_manager.py:88-91 | arguments that name no column leave the movie unchanged |
| SqliteDataManager.UpdateExample | datamanager/sqlite_data_manager.py:82 | `update_movie(1, name="New title", rating=9.0)` changes the name and the rating and nothing else |
| SqliteDataManager.ConstructionAsWritten | datamanager/sqlite_data_manager.py:6-16 | as written, constructing the manager raises TypeError naming `parse_year` alone |
| SqliteDataManager.ConstructionWithParseYear | datamanager/data_manager_interface.py:8-16 | once `parse_year` is defined, the manager can be constructed |
| SqliteDataManager.SQLiteDataManager.ParseYear | datamanager/data_manager_interface.py:8-16 | `parse_year`: the number the first four digits in a row spell, or 0 when the text has none |
| SqliteDataManager.SQLiteDataManager.constructor | datamanager/sqlite_data_manager.py:12-16 | the manager keeps its file name and starts from the stored tables, once `parse_year` is defined |
| SqliteDataManager.SQLiteDataManager.GetAllUsers | datamanager/sqlite_data_manager.py:19-21 | returns every stored user once, as stored |
| SqliteDataManager.SQLiteDataManager.GetUser | datamanager/sqlite_data_manager.py:23-25 | returns the user stored under the id, or None when there is none |
| SqliteDataManager.SQLiteDataManager.AddUser | datamanager/sqlite_data_manager.py:27-33 | stores one new user with the given name under the next row id and returns it; no other row changes and the foreign key is kept |
| SqliteDataManager.SQLiteDataManager.GetUserMovies | datamanager/sqlite_data_manager.py:37-43 | returns exactly the stored movies whose `user_id` is the given id, each once |
| SqliteDataManager.SQLiteDataManager.GetMovie | datamanager/sqlite_data_manager.py:45-51 | takes a user id and returns the same list as `get_user_movies` |
| SqliteDataManager.SQLiteDataManager.GetMovieById | datamanager/data_manager_interface.py:40-43 | returns the movie stored under the movie id, or None when there is none |
| SqliteDataManager.SQLiteDataManager.AddMovie | datamanager/sqlite_data_manager.py:53-71 | stores one new movie with exactly the given columns under the next row id; the owner is not checked, so the foreign key holds afterwards exactly when it held before and the owner exists |
| SqliteDataManager.SQLiteDataManager.UpdateMovie | datamanager/sqlite_data_manager.py:73-94 | an unknown id gives None and no write; otherwise the stored movie becomes the result of the `setattr` loop, and every other movie and every user is unchanged; a new `id` moves the row, and fails with nothing written when another movie has it |
| SqliteDataManager.SQLiteDataManager.DeleteMovie | datamanager/sqlite_data_manager.py:96-107 | returns true exactly when the movie existed; afterwards it is gone, nothing else changes, and the foreign key is kept |
| SqliteDataManager.GetMovieListsOwnersMovies | datamanager/sqlite_data_manager.py:45-51 | with movie 7 owned by user 1 and no user 7, the code's answer to `get_movie(7)` is empty, while the documented answer is movie 7 |

## Left out

- The chat-completion request is an outside call and is not modelled: the API key check, the client, the model name, the temperature and the prompt text. Its reply text is a parameter of `GetMovieRecommendations`. The requested line format is modelled only as `FormatLine`, for the round-trip lemmas.
- `AiClient.GetMovieRecommendations`: when the reply has no choices, the Python code raises an exception. The model does not cover that case.
- `PyStr.SplitLines` covers the line boundaries of Python `str.splitlines()`, with "\r\n" counted once. `PyStr.IsSpace` covers the code points of `str.isspace()`. Both are fixed sets, with no Unicode database behind them.
- `DataManagerInterface.ParseYear` counts only the ASCII digits 0-9 as digits. The documentation gives no rule for other Unicode digits.
- Flask routes, templates, the JSON API and the tests are not part of this model. Neither are the metadata lookup service or the `.env` loading.
- SQLAlchemy's session mechanics are not modelled: the identity map, lazy loading, flushing, and rollback after a failed commit. Each method works on the tables as they stand after the previous commit. Everything runs in a single thread.
- `SqliteDataManager.SQLiteDataManager.UpdateMovie` gives `hasattr` a narrower reach than Python's. Only the six column names count as attributes. `setattr` on `user`, `query` or any other non-column attribute is not modelled.
- `SqliteDataManager.SQLiteDataManager.UpdateMovie` requires each value to have its column's type (`WellTyped`). What SQLite does with a value of another type, including `None` in a NOT NULL column, is not modelled. A `rating` given as a Python `int` is not modelled either.
- `SqliteDataManager.SQLiteDataManager.UpdateMovie`: in the `IdTaken` case the commit raises IntegrityError, and the stored tables stay unchanged. The in-memory Movie object that was already modified is not modelled.
- `SqliteDataManager.NextRowId` does not model SQLite's random key choice once the largest key reaches 2^63 - 1. Integers are unbounded here.
- `SqliteDataManager.SQLiteDataManager.GetAllUsers` and `SqliteDataManager.SQLiteDataManager.GetUserMovies` do not state the order of their results. The queries have no ORDER BY, so the order is whatever SQLite returns.
- `rating` is a `real` on which nothing is computed. Python float rounding is not modelled.
- The declared string widths (`String(100)`, `String(200)`) are not modelled, because SQLite does not enforce them.
- NOT NULL columns are modelled as plain values, so no row can hold a null.
- SqliteDataManager.SQLiteDataManager.constructor builds the manager as if the class defined `parse_year`. As written it does not, and construction raises TypeError (see Findings). The class's `ParseYear` method is the definition the model assumes.
- Deleting a user is modelled as a function on the tables (`Models.DeleteUser`). No data manager method deletes users.

## Findings

| source | as written | input that shows it | evidently intended | confidence | as-written member | corrected member |
|---|---|---|---|---|---|---|
| datamanager/sqlite_data_manager.py:45-51 | `get_movie` filters movies by `user_id` with the id it is given and returns a list | tables with movie 7 owned by user 1 and no user 7: `get_movie(7)` returns `[]` | the interface (datamanager/data_manager_interface.py:40-43) declares `get_movie(movie_id)` returning that one movie or None, here movie 7 | high; not executed | SqliteDataManager.SQLiteDataManager.GetMovie, SqliteDataManager.GetMovieListsOwnersMovies | SqliteDataManager.SQLiteDataManager.GetMovieById |
| datamanager/sqlite_data_manager.py:6-16 | `SQLiteDataManager` derives from the abstract `DataManagerInterface` but never defines its abstract `parse_year`, so `SQLiteDataManager("moviweb.db")` raises TypeError, and app.py and api.py make that call when they are imported | any construction, with any file name | a concrete manager whose `parse_year` gives the first four-digit year, as its documentation says | high; not executed | SqliteDataManager.ConstructionAsWritten | SqliteDataManager.ConstructionWithParseYear, SqliteDataManager.SQLiteDataManager.ParseYear |
