/**
 * The `sessions.db` database as the Flask routes see it, and the route
 * handlers `login`, `logout` and `home` reduced to their effect on the table
 * and the cookie they hand back.  What the storage engine does in a request
 * (whether the connection opens, which statements raise `sqlite3.Error`) and
 * the current instant are parameters.
 */
module App {
  import opened CookieToken
  import opened SessionTable

  /** The SQL statements of the application, for saying which of them fail. */
  datatype Statement = Create | Select | Insert | Delete

  /** How the database behaves during one request. */
  datatype Storage = Storage(connects: bool, failing: set<Statement>)

  /** The `sessions.db` file: whether the table exists, its rows, and the AUTOINCREMENT counter. */
  class SessionDatabase {
    var tableExists: bool
    var rows: seq<Row>
    /** One more than the largest id ever handed out (SQLite's `sqlite_sequence`). */
    var nextId: int

    ghost predicate Valid()
      reads this
    {
      && nextId >= 1
      && (!tableExists ==> rows == [])
      && IdsIncreasing(rows)
      && (forall row :: row in rows ==> 1 <= row.id < nextId && WellFormed(row))
    }

    /** A database file that has never been written. */
    constructor ()
      ensures Valid()
      ensures !tableExists && rows == [] && nextId == 1
    {
      tableExists := false;
      rows := [];
      nextId := 1;
    }

    /** `create_sessions_table`: `CREATE TABLE IF NOT EXISTS`; an existing table keeps its rows. */
    method CreateSessionsTable(fails: bool)
      requires Valid()
      modifies this
      ensures Valid()
      ensures tableExists == (old(tableExists) || !fails)
      ensures rows == old(rows) && nextId == old(nextId)
    {
      if !fails && !tableExists {
        tableExists := true;
      }
    }

    /**
     * `store_cookie`: inserts one row for `token`, created and updated now and
     * expiring thirty minutes later; on an error nothing is committed.
     */
    method StoreCookie(token: string, now: int, fails: bool)
      requires Valid()
      modifies this
      ensures Valid()
      ensures tableExists == old(tableExists)
      ensures if old(tableExists) && !fails then
                && rows == old(rows) + [IssuedRow(old(nextId), token, now)]
                && (forall row :: row in old(rows) ==> row.id < old(nextId))
                && nextId == old(nextId) + 1
              else
                rows == old(rows) && nextId == old(nextId)
    {
      if tableExists && !fails {
        rows := rows + [IssuedRow(nextId, token, now)];
        nextId := nextId + 1;
      }
    }

    /**
     * `validate_cookie`: a row holding `token` whose expiry is strictly after
     * `now`, or nothing when there is none or the query fails.
     */
    function ValidateCookie(token: string, now: int, fails: bool): (r: Option<Row>)
      reads this
      ensures r.Some? ==> r.value in rows && r.value.sessionId == token && r.value.expiredAt > now
      ensures r.None? <==> fails || !tableExists || forall row :: row in rows ==> !IsActive(row, token, now)
    {
      if fails || !tableExists then None else SelectActive(rows, token, now)
    }

    /** The `DELETE` of `logout`: every row holding `token` goes, expired or not. */
    method DeleteSession(token: string, fails: bool)
      requires Valid()
      modifies this
      ensures Valid()
      ensures tableExists == old(tableExists) && nextId == old(nextId)
      ensures rows == if old(tableExists) && !fails then DeleteByToken(old(rows), token) else old(rows)
    {
      if tableExists && !fails {
        DeleteKeepsIdsIncreasing(rows, token);
        rows := DeleteByToken(rows, token);
      }
    }
  }

  /** What `login` answers. */
  datatype LoginReply =
    | LoginUnavailable                                   // 'Error connecting to the database'
    | AlreadyLoggedIn(sessionId: string, expiresAt: int) // the existing session is reported
    | LoggedIn(cookie: string)                           // `session_cookie` is set to `cookie`

  /** What `logout` answers. */
  datatype LogoutReply =
    | LogoutUnavailable // 'Error connecting to the database'
    | NoReply           // no cookie presented: the view returns nothing
    | LoggedOut         // the client cookie is cleared

  /** What `home` renders. */
  datatype HomePage =
    | AnonymousPage
    | SessionPage(sessionId: string, expiresAt: int)

  /**
   * The `login` route: creates the table if need be, reports a cookie that
   * still validates, and otherwise issues a fresh cookie from `entropy`.
   */
  method Login(db: SessionDatabase, cookie: Option<string>, entropy: seq<byte>, now: int, env: Storage)
    returns (reply: LoginReply)
    requires db.Valid() && |entropy| == CookieBytes
    modifies db
    ensures db.Valid()
    ensures reply.LoginUnavailable? <==> !env.connects
    ensures !env.connects ==> db.tableExists == old(db.tableExists)
    ensures env.connects ==> db.tableExists == (old(db.tableExists) || Create !in env.failing)
    ensures reply.AlreadyLoggedIn? <==>
              env.connects && cookie.Some? && old(db.ValidateCookie(cookie.value, now, Select in env.failing)).Some?
    ensures reply.AlreadyLoggedIn? ==>
              && reply.sessionId == cookie.value
              && reply.expiresAt > now
              && (exists row :: row in db.rows && IsActive(row, cookie.value, now) && row.expiredAt == reply.expiresAt)
    ensures !reply.LoggedIn? ==> db.rows == old(db.rows) && db.nextId == old(db.nextId)
    ensures reply.LoggedIn? ==>
              && reply.cookie == GenerateCookie(entropy)
              && db.rows == (if db.tableExists && Insert !in env.failing
                             then old(db.rows) + [IssuedRow(old(db.nextId), reply.cookie, now)]
                             else old(db.rows))
    ensures reply.LoggedIn? && db.rows != old(db.rows) ==> db.ValidateCookie(reply.cookie, now, false).Some?
    ensures db.nextId == old(db.nextId) + |db.rows| - |old(db.rows)|
  {
    if !env.connects {
      return LoginUnavailable;
    }
    db.CreateSessionsTable(Create in env.failing);
    if cookie.Some? {
      var valid := db.ValidateCookie(cookie.value, now, Select in env.failing);
      if valid.Some? {
        return AlreadyLoggedIn(valid.value.sessionId, valid.value.expiredAt);
      }
    }
    var sessionCookie := GenerateCookie(entropy);
    ghost var before := db.rows;
    db.StoreCookie(sessionCookie, now, Insert in env.failing);
    if db.rows != before {
      IssueThenValidate(before, db.rows[|db.rows| - 1].id, sessionCookie, now);
    }
    return LoggedIn(sessionCookie);
  }

  /**
   * Logging in with no cookie and then again with the cookie it set, while
   * it is still fresh, issues one row and reports that same session.
   */
  method LoginTwice(db: SessionDatabase, entropy: seq<byte>, now: int, later: int)
    returns (first: LoginReply, second: LoginReply)
    requires db.Valid() && |entropy| == CookieBytes
    requires now <= later < now + SessionLifetime
    modifies db
    ensures db.Valid()
    ensures first == LoggedIn(GenerateCookie(entropy))
    ensures second.AlreadyLoggedIn? && second.sessionId == first.cookie && second.expiresAt > later
    ensures (forall row :: row in old(db.rows) ==> row.sessionId != first.cookie) ==>
              second.expiresAt == now + SessionLifetime
    ensures db.nextId == old(db.nextId) + 1
    ensures db.rows == old(db.rows) + [IssuedRow(old(db.nextId), first.cookie, now)]
  {
    var healthy := Storage(true, {});
    first := Login(db, None, entropy, now, healthy);
    var issued := IssuedRow(old(db.nextId), first.cookie, now);
    assert issued in db.rows && IsActive(issued, first.cookie, later);
    ghost var mid := db.rows;
    second := Login(db, Some(first.cookie), entropy, later, healthy);
    assert db.rows == mid;
  }

  /**
   * The `logout` route: with a cookie, deletes every row holding it (an
   * error is swallowed) and clears the cookie; without one it does nothing.
   */
  method Logout(db: SessionDatabase, cookie: Option<string>, env: Storage) returns (reply: LogoutReply)
    requires db.Valid()
    modifies db
    ensures db.Valid()
    ensures db.tableExists == old(db.tableExists) && db.nextId == old(db.nextId)
    ensures reply == if !env.connects then LogoutUnavailable else if cookie.None? then NoReply else LoggedOut
    ensures db.rows == if env.connects && cookie.Some? && db.tableExists && Delete !in env.failing
                       then DeleteByToken(old(db.rows), cookie.value)
                       else old(db.rows)
    ensures env.connects && cookie.Some? && Delete !in env.failing ==>
              forall t :: db.ValidateCookie(cookie.value, t, false).None?
  {
    if !env.connects {
      return LogoutUnavailable;
    }
    if cookie.None? {
      return NoReply;
    }
    db.DeleteSession(cookie.value, Delete in env.failing);
    return LoggedOut;
  }

  /**
   * The `home` route: when the cookie validates, the page shows the token and
   * the expiry of a row re-read by token alone.
   */
  function Home(db: SessionDatabase, cookie: Option<string>, now: int, selectFails: bool): (page: HomePage)
    reads db
    ensures page.SessionPage? <==> cookie.Some? && db.ValidateCookie(cookie.value, now, selectFails).Some?
    ensures page.SessionPage? ==>
              && page.sessionId == cookie.value
              && exists row :: row in db.rows && row.sessionId == cookie.value && row.expiredAt == page.expiresAt
    ensures page.SessionPage? && HeldOnce(db.rows, cookie.value) ==> page.expiresAt > now
  {
    if cookie.None? || db.ValidateCookie(cookie.value, now, selectFails).None? then AnonymousPage
    else
      RereadAfterValidate(db.rows, cookie.value, now);
      var session := SelectByToken(db.rows, cookie.value).value;
      SessionPage(session.sessionId, session.expiredAt)
  }
}
