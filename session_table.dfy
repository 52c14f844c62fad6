/**
 * The `sessions` table and the three SQL statements the application runs
 * against it, as functions over the table's rows.  Rows are kept in rowid
 * order; timestamps are whole seconds.
 */
module SessionTable {

  datatype Option<T> = None | Some(value: T)

  /** `datetime('now', '+30 minutes')` is thirty minutes after `datetime('now')`. */
  const SessionLifetime: int := 30 * 60

  /** One row of `sessions`; `userId` is the nullable `user_id` column. */
  datatype Row = Row(
    id: int,
    sessionId: string,
    userId: Option<int>,
    createdAt: int,
    updatedAt: int,
    expiredAt: int)

  /** The row `store_cookie` inserts for `token` at instant `now`, given the id SQLite assigns. */
  function IssuedRow(id: int, token: string, now: int): Row {
    Row(id, token, None, now, now, now + SessionLifetime)
  }

  /** A row as `store_cookie` writes it: no owner, never refreshed, thirty minutes to live. */
  predicate WellFormed(row: Row) {
    && row.userId == None
    && row.updatedAt == row.createdAt
    && row.expiredAt == row.createdAt + SessionLifetime
  }

  /** The ids of `INTEGER PRIMARY KEY AUTOINCREMENT` grow with the rowid order. */
  ghost predicate IdsIncreasing(rows: seq<Row>) {
    forall i, j :: 0 <= i < j < |rows| ==> rows[i].id < rows[j].id
  }

  /** The `WHERE` clause of `validate_cookie`: the token matches and the expiry is strictly later. */
  predicate IsActive(row: Row, token: string, now: int) {
    row.sessionId == token && row.expiredAt > now
  }

  /** A token is held by at most one row. */
  ghost predicate HeldOnce(rows: seq<Row>, token: string) {
    forall a, b :: a in rows && b in rows && a.sessionId == token && b.sessionId == token ==> a == b
  }

  /**
   * `cursor.fetchone()` after a `SELECT * ... WHERE keep`: some row the
   * clause keeps, or nothing when no row qualifies.  (SQLite scans an
   * unindexed table in rowid order; the contract promises only "a" row.)
   */
  function FetchOne(rows: seq<Row>, keep: Row -> bool): (r: Option<Row>)
    ensures r.Some? ==> r.value in rows && keep(r.value)
    ensures r.None? <==> forall row :: row in rows ==> !keep(row)
  {
    if rows == [] then None
    else if keep(rows[0]) then Some(rows[0])
    else FetchOne(rows[1..], keep)
  }

  /** `SELECT * FROM sessions WHERE session_id = ? AND expired_at > datetime('now')`, first row. */
  function SelectActive(rows: seq<Row>, token: string, now: int): (r: Option<Row>)
    ensures r.Some? ==> r.value in rows && r.value.sessionId == token && r.value.expiredAt > now
    ensures r.None? <==> forall row :: row in rows ==> !IsActive(row, token, now)
  {
    FetchOne(rows, (row: Row) => IsActive(row, token, now))
  }

  /** `SELECT * FROM sessions WHERE session_id = ?`, first row: no expiry filter. */
  function SelectByToken(rows: seq<Row>, token: string): (r: Option<Row>)
    ensures r.Some? ==> r.value in rows && r.value.sessionId == token
    ensures r.None? <==> forall row :: row in rows ==> row.sessionId != token
  {
    FetchOne(rows, (row: Row) => row.sessionId == token)
  }

  /** `DELETE FROM sessions WHERE session_id = ?`, whatever the rows' expiry. */
  function DeleteByToken(rows: seq<Row>, token: string): (r: seq<Row>)
    ensures forall row :: row in r <==> row in rows && row.sessionId != token
    ensures (forall row :: row in rows ==> row.sessionId != token) ==> r == rows
    ensures |r| <= |rows|
  {
    if rows == [] then []
    else if rows[0].sessionId == token then DeleteByToken(rows[1..], token)
    else [rows[0]] + DeleteByToken(rows[1..], token)
  }

  /** Deleting keeps the remaining rows in rowid order. */
  lemma {:induction false} DeleteKeepsIdsIncreasing(rows: seq<Row>, token: string)
    requires IdsIncreasing(rows)
    ensures IdsIncreasing(DeleteByToken(rows, token))
  {
    if rows != [] {
      assert IdsIncreasing(rows[1..]);
      DeleteKeepsIdsIncreasing(rows[1..], token);
      var rest := DeleteByToken(rows[1..], token);
      forall row | row in rest ensures rows[0].id < row.id {
        var k :| 0 <= k < |rows[1..]| && rows[1..][k] == row;
        assert rows[k + 1] == row;
      }
    }
  }

  /** Deleting a token twice is deleting it once. */
  lemma DeleteIdempotent(rows: seq<Row>, token: string)
    ensures DeleteByToken(DeleteByToken(rows, token), token) == DeleteByToken(rows, token)
  {
  }

  /** Once its rows are deleted, a token never validates again, at any instant. */
  lemma DeletedTokenInvalid(rows: seq<Row>, token: string, now: int)
    ensures SelectActive(DeleteByToken(rows, token), token, now) == None
  {
  }

  /** Deleting one token leaves the answer for every other token as it was. */
  lemma {:induction false} DeleteLeavesOtherTokens(rows: seq<Row>, token: string, other: string, now: int)
    requires other != token
    ensures SelectActive(DeleteByToken(rows, token), other, now) == SelectActive(rows, other, now)
    ensures SelectByToken(DeleteByToken(rows, token), other) == SelectByToken(rows, other)
  {
    if rows != [] {
      DeleteLeavesOtherTokens(rows[1..], token, other, now);
    }
  }

  /**
   * A token issued at `issuedAt` and held by no other row validates exactly
   * while `now` is strictly before `issuedAt + SessionLifetime`, and the row
   * found is the issued one.
   */
  lemma {:induction false} IssuedSessionLifetime(rows: seq<Row>, id: int, token: string, issuedAt: int, now: int)
    requires forall row :: row in rows ==> row.sessionId != token
    ensures SelectActive(rows + [IssuedRow(id, token, issuedAt)], token, now)
         == if now < issuedAt + SessionLifetime then Some(IssuedRow(id, token, issuedAt)) else None
  {
    if rows != [] {
      assert (rows + [IssuedRow(id, token, issuedAt)])[1..] == rows[1..] + [IssuedRow(id, token, issuedAt)];
      IssuedSessionLifetime(rows[1..], id, token, issuedAt, now);
    }
  }

  /** A freshly issued token validates at the instant it is issued, whatever else the table holds. */
  lemma IssueThenValidate(rows: seq<Row>, id: int, token: string, now: int)
    ensures SelectActive(rows + [IssuedRow(id, token, now)], token, now).Some?
  {
    assert IssuedRow(id, token, now) in rows + [IssuedRow(id, token, now)];
  }

  /**
   * The unfiltered re-read of `home` finds a row whenever validation did,
   * and when the token is held once it is the validated row itself.
   */
  lemma RereadAfterValidate(rows: seq<Row>, token: string, now: int)
    requires SelectActive(rows, token, now).Some?
    ensures SelectByToken(rows, token).Some?
    ensures HeldOnce(rows, token) ==> SelectByToken(rows, token) == SelectActive(rows, token, now)
  {
    var active := SelectActive(rows, token, now).value;
    assert active in rows && active.sessionId == token;
  }

  /**
   * When a token is held twice, the unfiltered re-read can return an expired
   * row although validation succeeded.
   */
  lemma RereadMayFindExpiredRow()
    ensures var rows := [IssuedRow(1, "t", 0), IssuedRow(2, "t", 2000)];
            && SelectActive(rows, "t", 2500) == Some(rows[1])
            && SelectByToken(rows, "t") == Some(rows[0])
            && rows[0].expiredAt <= 2500
  {
  }
}
