/** The database object of the user service: it owns the rows of `users` as the session sees
    them (pending changes included) and changes them in place. */
module Db {
  import opened Wrappers
  import opened Passwords
  import opened UserTable

  class DB {
    /** The rows in insertion order. */
    var rows: seq<UserRecord>

    /** A freshly created, empty `users` table. */
    constructor ()
      ensures rows == []
    {
      rows := [];
    }

    method AddUser(email: string, hashedPassword: Digest) returns (u: UserRecord)
      modifies this
      ensures (u, rows) == UserTable.AddUser(old(rows), email, hashedPassword)
    {
      u := UserRecord(NextId(rows), email, hashedPassword, None, None);
      rows := rows + [u];
    }

    /** The position of the row `find_user_by(**filters)` returns: the keyword names are checked
        against the allow-list first, then the rows are scanned in order. */
    method FindRow(filters: Kwargs) returns (r: Result<nat, Exception>)
      ensures r == RowIndex(rows, filters)
      ensures r.Ok? ==> r.value < |rows|
    {
      if |filters| == 0 {
        return Err(InvalidRequestError);
      }
      var i := 0;
      while i < |filters|
        invariant 0 <= i <= |filters|
        invariant forall j :: 0 <= j < i ==> Known(filters[j].0)
      {
        if !Known(filters[i].0) {
          return Err(InvalidRequestError);
        }
        i := i + 1;
      }
      var k := 0;
      while k < |rows|
        invariant 0 <= k <= |rows|
        invariant FirstMatchFrom(rows, filters, k) == FirstMatchFrom(rows, filters, 0)
      {
        if Matches(rows[k], filters) {
          return Ok(k);
        }
        k := k + 1;
      }
      return Err(NoResultFound);
    }

    method FindUserBy(filters: Kwargs) returns (r: Result<UserRecord, Exception>)
      ensures r == UserTable.FindUserBy(rows, filters)
    {
      var found := FindRow(filters);
      match found
      case Err(e) => r := Err(e);
      case Ok(k) => r := Ok(rows[k]);
    }

    /** Finds the row by id, then sets one column per keyword in order, raising `ValueError` at
        the first name that is not a column; the settings made before it stay. */
    method UpdateUser(userId: int, changes: Kwargs) returns (r: Outcome<Exception>)
      requires TypedValues(changes)
      modifies this
      ensures (r, rows) == UserTable.UpdateUser(old(rows), userId, changes)
    {
      var found := FindRow(ById(userId));
      if found.Err? {
        return Fail(found.error);
      }
      var k := found.value;
      var i := 0;
      while i < |changes|
        invariant 0 <= i <= |changes|
        invariant KnownPrefixFrom(changes, i) == KnownPrefixFrom(changes, 0)
        invariant forall j :: 0 <= j < i ==> Known(changes[j].0)
        invariant KnownKeys(changes[..i]) && TypedValues(changes[..i])
        invariant rows == old(rows)[k := ApplyAll(old(rows)[k], changes[..i])]
      {
        var column := ColumnNamed(changes[i].0);
        if column.None? {
          return Fail(ValueError);
        }
        ApplyAllStep(old(rows)[k], changes, i);
        rows := rows[k := SetField(rows[k], column.value, changes[i].1)];
        i := i + 1;
      }
      assert changes[..i] == changes;
      return Pass;
    }
  }
}
