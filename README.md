# Session cookies of PyCookieSession, modelled in Dafny

PyCookieSession is a small Flask application that keeps login sessions in a
SQLite table `sessions`. A visitor who calls `/login` without a valid cookie
gets a fresh random cookie. A row for it goes into the table and expires
thirty minutes later. `/` shows the session behind a cookie that still
validates. `/logout` deletes every row holding the cookie and clears it on
the client.

The model has three modules.

- `CookieToken` (`cookie_token.dfy`): `generate_cookie`, which is
  `secrets.token_hex(16)`. The sixteen random bytes are a parameter. The
  hexadecimal encoding is modelled exactly and shown to be a bijection onto
  even-length lower-case hex strings. So different draws give different
  cookies.
- `SessionTable` (`session_table.dfy`): the row type and the three SQL
  statements as functions over the rows, kept in rowid order.
  - `SelectActive` is the `SELECT ... AND expired_at > datetime('now')` of `validate_cookie`.
  - `SelectByToken` is the unfiltered re-read of `home`.
  - `DeleteByToken` is the `DELETE` of `logout`.

  `fetchone` is modelled as the first match in rowid order. The functions'
  contracts promise only "a matching row", because `session_id` carries no
  `UNIQUE` constraint. The lemmas `DeleteLeavesOtherTokens` and
  `RereadMayFindExpiredRow` state exact equalities that rely on that order.
- `App` (`app.dfy`): the class `SessionDatabase`, the state of
  `sessions.db`. It holds whether the table exists, its rows, and the
  AUTOINCREMENT counter. Its methods are `create_sessions_table`,
  `store_cookie` and the `DELETE`, and `validate_cookie` is a function that
  reads it. Its invariant `Valid` says three things:
  - ids grow with rowid order and stay below the counter;
  - every row is one `store_cookie` wrote (no owner, `updated_at =
    created_at`, `expired_at = created_at + 1800`);
  - a missing table has no rows.

  The routes `login`, `logout` and `home` become `Login`, `Logout` and `Home`.
  Each one states its reply and its effect on the table.

Inputs the code takes from outside are parameters:
- the current instant `now`, in whole seconds;
- the random bytes behind a cookie;
- a `Storage` value saying whether the connection opens and which statements
  raise `sqlite3.Error`.

A statement on a missing table fails too, as SQLite's "no such table" does.
Every failure is swallowed as in the code: nothing is committed and
validation answers "no session".

Some behaviours of the code worth knowing, all modelled as written:
- there is no duplicate-token check and no retry;
- there are no typed storage errors;
- `login` still sets the new cookie when the `INSERT` failed;
- `logout` does not create the table, so on a fresh database its `DELETE`
  fails silently;
- `logout` without a cookie returns nothing at all.

## Model

| member | source | states |
|---|---|---|
| `CookieToken.TokenHex` | src/venv/app.py:143 | the cookie text has two characters per random byte, all lower-case hex digits |
| `CookieToken.HexDecode` | src/venv/app.py:143 | the inverse of the hex encoding yields one byte per two digits |
| `CookieToken.DecodeTokenHex` | src/venv/app.py:143 | decoding a cookie gives back exactly the random bytes it was made from |
| `CookieToken.EncodeHexDecode` | src/venv/app.py:143 | every even-length lower-case hex string is the encoding of some bytes (the encoding is onto) |
| `CookieToken.GenerateCookie` | src/venv/app.py:141-143 | a cookie is 32 lower-case hex characters and determines the 16 bytes drawn for it |
| `CookieToken.GenerateCookieInjective` | src/venv/app.py:141-143 | two different draws never yield the same cookie |
| `SessionTable.FetchOne` | src/venv/app.py:130 | `fetchone` returns a row of the table that the `WHERE` clause keeps, and nothing exactly when no row qualifies |
| `SessionTable.SelectActive` | src/venv/app.py:127-130 | the validating query returns a row in the table with the token and an expiry strictly after now; nothing exactly when no row has both |
| `SessionTable.SelectByToken` | src/venv/app.py:48-50 | the unfiltered query returns a row in the table with the token, whatever its expiry; nothing exactly when no row has the token |
| `SessionTable.DeleteByToken` | src/venv/app.py:106-110 | a row survives the delete exactly when its token differs, expired or not; a table without the token is left as it was |
| `SessionTable.DeleteKeepsIdsIncreasing` | src/venv/app.py:106-110 | the rows left after a delete are still in increasing id order |
| `SessionTable.DeleteIdempotent` | src/venv/app.py:106-110 | deleting a token a second time changes nothing |
| `SessionTable.DeletedTokenInvalid` | src/venv/app.py:106-110 | after the delete the token validates at no instant |
| `SessionTable.DeleteLeavesOtherTokens` | src/venv/app.py:106-110 | deleting one token leaves both queries' answers for every other token unchanged |
| `SessionTable.IssuedSessionLifetime` | src/venv/app.py:148-151 | a token stored at t0 and held by no other row validates, as that row, exactly when now < t0 + 1800 (at t0 + 1800 it is already invalid) |
| `SessionTable.IssueThenValidate` | src/venv/app.py:148-151 | a token just stored validates at the same instant, whatever else the table holds |
| `SessionTable.RereadAfterValidate` | src/venv/app.py:42-54 | after validation succeeds the re-read by token finds a row, and it is the validated one when the token is held once |
| `SessionTable.RereadMayFindExpiredRow` | src/venv/app.py:49-54 | with a token held twice, the re-read can return an expired row while validation found the live one |
| `App.SessionDatabase.constructor` | src/venv/app.py:6 | a database file never written has no table, no rows, and hands out id 1 first |
| `App.SessionDatabase.CreateSessionsTable` | src/venv/app.py:18-33 | the table exists afterwards unless creation failed; existing rows and the id counter are untouched, so running it again changes nothing |
| `App.SessionDatabase.StoreCookie` | src/venv/app.py:145-154 | on success exactly one row is appended (token, null owner, created = updated = now, expiry now + 1800, id above every existing id) and earlier rows are unchanged; on failure nothing changes |
| `App.SessionDatabase.ValidateCookie` | src/venv/app.py:124-139 | returns a row of the table with the token and expiry strictly after now; returns nothing exactly when the query fails, the table is missing, or no row qualifies; reads only |
| `App.SessionDatabase.DeleteSession` | src/venv/app.py:105-112 | on success the table becomes the rows without the token; on failure nothing changes; the invariant is kept |
| `App.Login` | src/venv/app.py:62-91 | a cookie that validates is reported (token, expiry after now) with no row added; otherwise the cookie from the random bytes is set and exactly one row is added for it unless the insert fails, and then it validates at once; the AUTOINCREMENT counter advances by exactly the rows added, so ids are never reused; no connection changes nothing |
| `App.LoginTwice` | src/venv/app.py:72-89 | logging in again with the cookie just issued, within thirty minutes, reports that session and adds no second row; when no earlier row held the new cookie, the reported expiry is the issued row's, thirty minutes after the first login |
| `App.Logout` | src/venv/app.py:93-121 | with a cookie, every row holding it is deleted unless the delete fails, and the cookie no longer validates at any instant; with no cookie or no connection the table is unchanged |
| `App.Home` | src/venv/app.py:35-60 | the session page is shown exactly when the cookie validates; it shows the cookie and the expiry of some row holding it, and that expiry is after now when the token is held once |

## Left out

- Flask: routing, templates, `make_response` and `set_cookie` are replaced by the reply datatypes `LoginReply`, `LogoutReply` and `HomePage`. The reply names the cookie set or cleared. Page text is not modelled.
- `sqlite3` plumbing: `connect_to_database`, cursors, `commit` and `close` are I/O. A failed connection is `Storage.connects == false`, and a failing statement is a member of `Storage.failing`.
- Diagnostics: the `print` in every `except` block is output only.
- Randomness: `secrets.token_hex(16)` reads the operating system's random source. The sixteen bytes it draws are a parameter, and uniqueness across draws is not claimed.
- Timestamps: SQLite's text timestamps from `datetime('now')` and `'+30 minutes'` are whole seconds here. The clock is the `now` parameter.
- Login: all statements of one request see the same `now`. In SQLite each statement reads the clock anew.
- Concurrency: parallel requests and races between them are not modelled.
- AUTOINCREMENT overflow: ids are unbounded integers. SQLite's failure once the largest 64-bit id has been used is not modelled.
- `fetchone` order: both selects return the first qualifying row in rowid order, as SQLite's scan of an unindexed table does. The functions and the route and method contracts promise only some qualifying row. Two lemmas rely on the rowid scan order for their exact equalities: `SessionTable.DeleteLeavesOtherTokens` and `SessionTable.RereadMayFindExpiredRow`.
- Home: connection failures are not modelled. When the first connection fails, `validate_cookie` receives `None` and raises an exception it does not catch. An error in the second `SELECT` is also uncaught. `Home` models only a failing validation query.
