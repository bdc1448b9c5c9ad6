# WildWaste backend: a verified model

WildWaste is a trash-reporting application. Its backend is a Flask server
(`app.py`) that stores users and trash reports in MySQL and answers six
JSON endpoints:

- `POST /register`
- `POST /login`
- `POST /reports`
- `GET /reports`
- `GET /reports/user/<user_id>`
- `DELETE /reports/<report_id>`

The three POST handlers first validate the JSON body and answer 400 when it
or a required key is missing. Every handler then opens a connection, and a
failed connection gives a 500. It then runs its SQL and
answers with a status code and a `{"status", "message" | "data"}` body. A
storage error raised by a statement gives a 500 carrying that error's text.

The model is four Dafny modules.

- `Rows` holds the values the server handles:
  - the rows of `users` and `trash_reports`;
  - the rows the listing queries fetch, with their `reported_at` column either as the stored time or as its ISO text;
  - the two request bodies, with every key optional;
  - the password `PasswordScheme`, an abstract pair of `generate(password, salt)` and `check(hash, password)` functions;
  - `Faults`, which describes what the storage layer does to one request. Either the connection fails, or statement number *n* raises an error with text `detail`. Statements are counted from 0 in the order the handler issues them, and a commit counts as one.
- `Responses` holds the response envelope and the fixed answers. Their status codes and message texts are copied from the handlers.
- `Queries` models each SQL statement as a function over the table rows:
  - the `WHERE` lookups that `fetchone()` reads;
  - the `DELETE`;
  - the filtered and ordered per-user select;
  - the inner join with `users`.
  
  It also holds the table invariants (unique usernames, increasing AUTO_INCREMENT ids) and the lemmas about these functions.
- `WildWaste` holds:
  - the class `Database`, whose fields are the two tables and their two AUTO_INCREMENT counters;
  - one method per handler, each returning the `Response`;
  - four methods that chain two requests;
  - the in-place loop that rewrites `reported_at` to ISO text.
  
  The methods of the `Walkthrough` module chain concrete requests against a fresh `Database` and assert the answers. Dafny verifies them; they are not executed.

A failed statement leaves the tables unchanged. This holds because nothing is
committed before the failing statement, and the connection is closed without a
commit.

`register_user` only checks that the `username` key is present (app.py:41),
so an empty username is accepted, and the model accepts it too.

## Model

| member | source | states |
|---|---|---|
| WildWaste.Database.Register | app.py:34-68 | A missing body or key gives 400. A failed connection or failed lookup gives 500. An existing username gives 409. A failed insert or commit gives 500. Each of these cases leaves both tables unchanged. Otherwise the answer is 201 and `users` gains exactly one row: the next id, the username and `generate(password, salt)`. `trash_reports` is never touched. |
| WildWaste.Database.Login | app.py:71-107 | A missing body or key gives 400, and connection or lookup failures give 500. Otherwise the status is 200 exactly when some user row has that username and `check` accepts the password against its hash. A 200 carries that row's id and username. Every other outcome is the same 401, so an unknown user and a wrong password look alike. |
| WildWaste.Database.AddReport | app.py:109-149 | A missing body or required key gives 400 and no change. A connection, insert or commit failure gives 500 and no change. Otherwise the answer is 201 and exactly one row is appended. It carries the given fields, with image and notes null when absent, and the next id and the current time. The user id is not checked against `users`, and `users` is unchanged. |
| WildWaste.Database.GetAllReports | app.py:152-183 | Connection or select failure gives 500. Otherwise the answer is 200 and row k is the k-th join row, with its reporter's username and the ISO time. Every report whose user exists appears, and every row comes from a report joined with its user. |
| WildWaste.Database.GetUserReports | app.py:186-211 | Connection or select failure gives 500. Otherwise the answer is 200 with that user's reports, newest first, with ISO times. Every row has that user id and every report of that user appears. A user without reports gets an empty list with 200. |
| WildWaste.Database.DeleteReport | app.py:213-243 | Connection or lookup failure gives 500. An absent id gives 404 with no change. A delete or commit failure gives 500 with no change. Otherwise the answer is 200 and exactly the row with that id is removed, with the others kept in order. After a 200 no row has that id. `users` and the counters are unchanged. |
| WildWaste.Database.RegisterTwice | app.py:54-57 | After a successful registration, registering the same username again never succeeds, and gives 409 once its lookup runs. |
| WildWaste.Database.RegisterThenLogin | app.py:44-99 | Under a sound scheme, a user who has just registered logs in with the same password and gets the id the registration assigned. |
| WildWaste.Database.AddThenList | app.py:109-211 | Right after a report is submitted with 201, that user's listing holds it, with its new id, its fields and the ISO text of its time, once the listing's select runs. |
| WildWaste.Database.DeleteTwice | app.py:226-228 | A second delete of a report that was just deleted gives 404 once its existence check runs. |
| WildWaste.RewriteTimestamps | app.py:174-175 | The loop over the fetched rows keeps their number and replaces each row's time by its ISO text, leaving the rest of the row as fetched. |
| WildWaste.AllReportsListing | app.py:164-177 | A listing built row by row from the join holds every report whose user exists, under that user's name, and no other row. |
| WildWaste.UserReportsListing | app.py:198-205 | A listing built row by row from the per-user query holds only rows with that user id and all of that user's reports, and is empty for a user without reports. |
| WildWaste.CredentialsMissing | app.py:41 | A body counts as complete for `/register` and `/login` exactly when it is present with both a `username` and a `password` key. The same test is at app.py:78. |
| WildWaste.ReportDataMissing | app.py:116-117 | A report body counts as complete exactly when it is present with all five required keys: `user_id`, `latitude`, `longitude`, `trash_type` and `quantity`. The optional image and notes play no part. |
| Rows.Serialized | app.py:175 | The rewritten row carries ISO text in `reported_at`. A stored time `t` becomes `iso(t)`, and every other column is kept as fetched. The same rewrite is at app.py:203. |
| Queries.FirstWhere | app.py:56 | The row `fetchone()` returns is the first matching one in storage order, or there is none. |
| Queries.FindUser | app.py:55-56 | The username lookup returns a row of `users` with that username, and finds none exactly when no row has it. |
| Queries.FindUserIsOnlyMatch | app.py:90-93 | Under unique usernames, any row with the given username is the row the lookup returns. |
| Queries.FindAppendedUser | app.py:55-60 | After a row with a fresh username is inserted, the lookup of that username finds exactly that row. |
| Queries.RegisteredUserLogsIn | app.py:46-93 | A row stored with `generate(password, salt)` under a fresh username is found by the login lookup, and its hash passes `check` with that password. |
| Queries.FindReport | app.py:226-227 | The existence check finds a position holding that id, and finds none exactly when no row has it. |
| Queries.Where | app.py:198 | A `WHERE` clause selects exactly the rows satisfying it and no more rows than the table has. |
| Queries.WhereCounts | app.py:198 | A `WHERE` clause keeps every matching row as many times as the table holds it, and drops every other row. |
| Queries.WithoutId | app.py:231 | After the `DELETE`, the table holds exactly the rows with a different id, and none with that id. |
| Queries.WhereKeepsAll | app.py:231 | A `WHERE` clause that every row satisfies keeps the table as it is. |
| Queries.WhereDropsHead | app.py:231 | With increasing ids, deleting the first row's id leaves the rest of the table. |
| Queries.WhereDropsOne | app.py:231 | With increasing ids, deleting row k's id leaves the table without row k, in order. |
| Queries.DeleteRemovesOneRow | app.py:231-235 | Deleting an id that is present removes exactly that one row and keeps the others in their order. |
| Queries.DeletePreservesIds | app.py:231 | Removing a row keeps the AUTO_INCREMENT ids increasing. |
| Queries.OfUser | app.py:198 | The per-user filter keeps exactly the reports with that user id. |
| Queries.InsertByTime | app.py:198 | Inserting a report into a newest-first list keeps it newest first and adds exactly that report. |
| Queries.SortNewestFirst | app.py:198 | `ORDER BY reported_at DESC` gives a newest-first permutation of its input. |
| Queries.UserReports | app.py:198 | The per-user query is newest first and holds exactly the reports with that user id. |
| Queries.UserReportsIsPermutation | app.py:198 | The per-user query holds each of that user's reports as often as the table does, and nothing else. |
| Queries.MatchReporter | app.py:168 | One report joined with `users` gives a row for each user whose id equals the report's user id, and no other row. |
| Queries.JoinUsers | app.py:164-169 | The inner join gives a row for every report and user with matching ids, and no other row. A report whose user does not exist is not listed. |

## Left out

- Flask routing, `jsonify`, the `/` greeting and `app.run` are not modelled. The handlers take the parsed body and the path parameter directly.
- The MySQL driver, `DB_CONFIG`, cursors and closing connections are not modelled. The storage layer is the two tables plus the `Faults` flags, and a failure before the commit leaves the tables unchanged.
- The failure log line in `create_db_connection` is not modelled, since it is output only. Both of its failure paths become `faults.connectFails`.
- The password hashing algorithm is not modelled. `generate` and `check` are the functions of an abstract `PasswordScheme`, and the random salt is a parameter.
- The text of a storage error (`str(e)`) is the `detail` parameter.
- The clock that fills `reported_at` is the `now` parameter, and `isoformat()` is the `iso` parameter.
- JSON values of the wrong type, keys present with `null`, and MySQL's type coercion of inserted values are not modelled. Latitude and longitude are reals and the quantity is an integer.
- A password that is not text, which makes hashing raise before the guarded block, is not modelled.
- MySQL's case-insensitive collation of `username` is not modelled. Usernames compare exactly.
- Concurrent requests are not modelled. Without them the check-then-act races of register and delete cannot happen, so the 404 for a zero row count (app.py:236-237) is never reached. It is kept in the code of `DeleteReport`.
- The freedom MySQL has in row order is not modelled. `ORDER BY reported_at DESC` leaves the order of equal times unspecified, and the join's row order is unspecified too. The model commits to one of the orders MySQL may return: `UserReports` keeps equal times in storage order, and `JoinUsers` lists reports in storage order, each with its matching users in storage order. `GetAllReports` and `GetUserReports` tie their rows to these functions position by position. Beyond that choice, the model guarantees only membership both ways and, for the per-user listing, `NewestFirst` and the permutation.
- A failed insert consumes no AUTO_INCREMENT value in the model. MySQL may skip such a value, but ids stay increasing either way.
- The ownership check noted as a TODO at app.py:217 does not exist in the code, and the model has none either.
