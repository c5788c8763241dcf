/** The `admin_users` table as the two scripts see it: rows in table order,
    an auto-increment counter for `user_id`, the `SELECT ... WHERE col = :v`
    lookups (first matching row, as `fetch()` returns it) and the
    `UPDATE ... SET last_login = NOW() WHERE user_id = :id` statement. */
module Store {
  import opened Php

  /** One row of `admin_users`. `lastLogin` is NULL until the first login. */
  datatype Account = Account(
    userId: nat,
    username: Bytes,
    email: Bytes,
    passwordHash: Bytes,
    fullName: Bytes,
    role: Bytes,
    lastLogin: Option<int>)

  /** The role every self-registered account receives. */
  const Librarian: Bytes := AsciiBytes("librarian")

  /** The columns the scripts look accounts up by. */
  datatype Column = Username | Email

  function Field(a: Account, col: Column): Bytes
  {
    match col
    case Username => a.username
    case Email => a.email
  }

  /** `SELECT ... WHERE col = :value` followed by one `fetch()`: the index of
      the first matching row, or None when `fetch()` returns false. */
  function Find(rows: seq<Account>, col: Column, value: Bytes): (r: Option<nat>)
    ensures r.Some? ==> r.value < |rows| && Field(rows[r.value], col) == value
    ensures r.Some? ==> forall j | 0 <= j < r.value :: Field(rows[j], col) != value
    ensures r.None? <==> forall j | 0 <= j < |rows| :: Field(rows[j], col) != value
    decreases |rows|
  {
    if rows == [] then None
    else if Field(rows[0], col) == value then Some(0)
    else
      match Find(rows[1..], col, value)
      case None => None
      case Some(k) => Some(k + 1)
  }

  /** Some row already holds `value` in `col`. */
  predicate Taken(rows: seq<Account>, col: Column, value: Bytes)
  {
    exists j | 0 <= j < |rows| :: Field(rows[j], col) == value
  }

  /** The lookup finds a row exactly when one holds the value. */
  lemma FindIffTaken(rows: seq<Account>, col: Column, value: Bytes)
    ensures Find(rows, col, value).Some? <==> Taken(rows, col, value)
  {
    if Taken(rows, col, value) {
      var j :| 0 <= j < |rows| && Field(rows[j], col) == value;
      assert !(forall k | 0 <= k < |rows| :: Field(rows[k], col) != value);
    }
  }

  /** A value is taken after an append exactly when it was taken before or
      the new row holds it. */
  lemma TakenAfterAppend(rows: seq<Account>, a: Account, col: Column, value: Bytes)
    ensures Taken(rows + [a], col, value) <==> Taken(rows, col, value) || Field(a, col) == value
  {
    var rows' := rows + [a];
    if Taken(rows', col, value) {
      var j :| 0 <= j < |rows'| && Field(rows'[j], col) == value;
      if j < |rows| {
        assert Field(rows[j], col) == value;
      }
    }
    if Taken(rows, col, value) {
      var j :| 0 <= j < |rows| && Field(rows[j], col) == value;
      assert Field(rows'[j], col) == value;
    }
    if Field(a, col) == value {
      assert Field(rows'[|rows|], col) == value;
    }
  }

  /** `UPDATE admin_users SET last_login = :now WHERE user_id = :id`. */
  function TouchLastLogin(rows: seq<Account>, id: nat, now: int): (r: seq<Account>)
    ensures |r| == |rows|
    ensures forall j | 0 <= j < |rows| && rows[j].userId == id ::
              r[j] == rows[j].(lastLogin := Some(now))
    ensures forall j | 0 <= j < |rows| && rows[j].userId != id :: r[j] == rows[j]
    decreases |rows|
  {
    if rows == [] then []
    else
      var head := if rows[0].userId == id then rows[0].(lastLogin := Some(now)) else rows[0];
      [head] + TouchLastLogin(rows[1..], id, now)
  }

  /** No two rows share a value in `col`. */
  predicate Unique(rows: seq<Account>, col: Column)
  {
    forall i, j | 0 <= i < j < |rows| :: Field(rows[i], col) != Field(rows[j], col)
  }

  /** The table's integrity: usernames and emails unique, `user_id` a key,
      and the auto-increment counter above every id in use. */
  predicate Valid(rows: seq<Account>, nextId: nat)
  {
    && Unique(rows, Username)
    && Unique(rows, Email)
    && (forall i, j | 0 <= i < j < |rows| :: rows[i].userId != rows[j].userId)
    && (forall i | 0 <= i < |rows| :: rows[i].userId < nextId)
  }

  /** Under the integrity constraints at most one row matches a username, so
      the first match is the only one. */
  lemma FindIsOnlyMatch(rows: seq<Account>, nextId: nat, col: Column, value: Bytes, j: nat)
    requires Valid(rows, nextId)
    requires j < |rows| && Field(rows[j], col) == value
    ensures Find(rows, col, value) == Some(j)
  {
  }

  /** Appending a row whose username, email and id are all new keeps the
      table valid; this is what the registration pre-checks rely on. */
  lemma AppendPreservesValid(rows: seq<Account>, nextId: nat, a: Account)
    requires Valid(rows, nextId)
    requires Find(rows, Username, a.username).None?
    requires Find(rows, Email, a.email).None?
    requires a.userId == nextId
    ensures Valid(rows + [a], nextId + 1)
  {
    var rows' := rows + [a];
    forall col: Column, i, j | 0 <= i < j < |rows'|
      ensures Field(rows'[i], col) != Field(rows'[j], col)
    {
      if j == |rows| {
        assert Field(rows[i], col) != Field(a, col) by {
          match col
          case Username => {}
          case Email => {}
        }
      }
    }
  }

  /** With `user_id` a key, the UPDATE stamps exactly one row: the table is
      the old one with that row replaced. */
  lemma TouchIsOneRowUpdate(rows: seq<Account>, nextId: nat, i: nat, now: int)
    requires Valid(rows, nextId)
    requires i < |rows|
    ensures TouchLastLogin(rows, rows[i].userId, now) == rows[i := rows[i].(lastLogin := Some(now))]
  {
    var r := TouchLastLogin(rows, rows[i].userId, now);
    var expected := rows[i := rows[i].(lastLogin := Some(now))];
    forall j | 0 <= j < |rows| ensures r[j] == expected[j] {
      if j != i {
        assert rows[j].userId != rows[i].userId;
      }
    }
  }

  /** Stamping `last_login` changes no key, so the table stays valid. */
  lemma TouchPreservesValid(rows: seq<Account>, nextId: nat, id: nat, now: int)
    requires Valid(rows, nextId)
    ensures Valid(TouchLastLogin(rows, id, now), nextId)
  {
    var rows' := TouchLastLogin(rows, id, now);
    assert forall j | 0 <= j < |rows| ::
      Field(rows'[j], Username) == Field(rows[j], Username)
      && Field(rows'[j], Email) == Field(rows[j], Email)
      && rows'[j].userId == rows[j].userId;
  }
}
