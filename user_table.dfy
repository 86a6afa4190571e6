/** The `users` table behind the user service and what its three operations do to it: appending
    a row, finding the first row whose columns equal given values, and setting columns of the row
    with a given id. Rows are kept in insertion order, the order in which `first()` meets them. */
module UserTable {
  import opened Wrappers
  import opened Passwords

  /** A row of `users`. */
  datatype UserRecord = UserRecord(
    id: int,
    email: string,
    hashedPassword: Digest,
    sessionId: Option<string>,
    resetToken: Option<string>)

  datatype Column = Id | Email | HashedPassword | SessionId | ResetToken

  /** A value given for a column in a keyword argument. */
  datatype FieldValue = IntValue(i: int) | StrValue(s: string) | DigestValue(d: Digest) | NoneValue

  /** The exceptions the table and the service built on it raise. */
  datatype Exception = InvalidRequestError | NoResultFound | ValueError | NameError

  /** Keyword arguments, in the order the caller wrote them. */
  type Kwargs = seq<(string, FieldValue)>

  function Name(c: Column): string
  {
    match c
    case Id => "id"
    case Email => "email"
    case HashedPassword => "hashed_password"
    case SessionId => "session_id"
    case ResetToken => "reset_token"
  }

  /** The allow-list both lookups and updates check keyword names against. */
  function ColumnNamed(name: string): (c: Option<Column>)
    ensures c.Some? ==> Name(c.value) == name
    ensures c.None? ==> forall col: Column :: Name(col) != name
  {
    if name == "id" then Some(Id)
    else if name == "email" then Some(Email)
    else if name == "hashed_password" then Some(HashedPassword)
    else if name == "session_id" then Some(SessionId)
    else if name == "reset_token" then Some(ResetToken)
    else None
  }

  lemma ColumnNamedName(c: Column)
    ensures ColumnNamed(Name(c)) == Some(c)
  {
  }

  function Nullable(o: Option<string>): FieldValue
  {
    match o
    case None => NoneValue
    case Some(s) => StrValue(s)
  }

  function FieldOf(u: UserRecord, c: Column): FieldValue
  {
    match c
    case Id => IntValue(u.id)
    case Email => StrValue(u.email)
    case HashedPassword => DigestValue(u.hashedPassword)
    case SessionId => Nullable(u.sessionId)
    case ResetToken => Nullable(u.resetToken)
  }

  /** `v` has the type column `c` is declared with (the two token columns are nullable). */
  predicate Fits(c: Column, v: FieldValue)
  {
    match c
    case Id => v.IntValue?
    case Email => v.StrValue?
    case HashedPassword => v.DigestValue?
    case SessionId => v.StrValue? || v.NoneValue?
    case ResetToken => v.StrValue? || v.NoneValue?
  }

  /** `setattr(user, Name(c), v)`. */
  function SetField(u: UserRecord, c: Column, v: FieldValue): (r: UserRecord)
    requires Fits(c, v)
    ensures FieldOf(r, c) == v
    ensures forall d: Column :: d != c ==> FieldOf(r, d) == FieldOf(u, d)
  {
    match c
    case Id => u.(id := v.i)
    case Email => u.(email := v.s)
    case HashedPassword => u.(hashedPassword := v.d)
    case SessionId => u.(sessionId := if v.StrValue? then Some(v.s) else None)
    case ResetToken => u.(resetToken := if v.StrValue? then Some(v.s) else None)
  }

  predicate Known(name: string)
  {
    ColumnNamed(name).Some?
  }

  predicate KnownKeys(kw: Kwargs)
  {
    forall i :: 0 <= i < |kw| ==> Known(kw[i].0)
  }

  /** Every value given for a column has that column's type. */
  predicate TypedValues(kw: Kwargs)
  {
    forall i :: 0 <= i < |kw| && Known(kw[i].0) ==> Fits(ColumnNamed(kw[i].0).value, kw[i].1)
  }

  /** `filter_by(**filters)` keeps `u`: every named column equals the value given for it. */
  predicate Matches(u: UserRecord, filters: Kwargs)
    requires KnownKeys(filters)
  {
    forall i :: 0 <= i < |filters| ==> FieldOf(u, ColumnNamed(filters[i].0).value) == filters[i].1
  }

  /** The position of the first row at or after `from` that the filters keep. */
  function FirstMatchFrom(rows: seq<UserRecord>, filters: Kwargs, from: nat): (r: Option<nat>)
    requires KnownKeys(filters) && from <= |rows|
    ensures r.Some? ==> from <= r.value < |rows| && Matches(rows[r.value], filters)
    ensures r.Some? ==> forall j :: from <= j < r.value ==> !Matches(rows[j], filters)
    ensures r.None? ==> forall j :: from <= j < |rows| ==> !Matches(rows[j], filters)
    decreases |rows| - from
  {
    if from == |rows| then None
    else if Matches(rows[from], filters) then Some(from)
    else FirstMatchFrom(rows, filters, from + 1)
  }

  /** Which row `find_user_by(**filters)` returns, by position. */
  function RowIndex(rows: seq<UserRecord>, filters: Kwargs): (r: Result<nat, Exception>)
    ensures r == Err(InvalidRequestError) <==> filters == [] || !KnownKeys(filters)
    ensures r == Err(NoResultFound) <==>
      filters != [] && KnownKeys(filters) && forall j :: 0 <= j < |rows| ==> !Matches(rows[j], filters)
    ensures r.Ok? ==> r.value < |rows| && KnownKeys(filters) && Matches(rows[r.value], filters)
    ensures r.Ok? ==> forall j :: 0 <= j < r.value ==> !Matches(rows[j], filters)
  {
    if filters == [] || !KnownKeys(filters) then Err(InvalidRequestError)
    else
      match FirstMatchFrom(rows, filters, 0)
      case None => Err(NoResultFound)
      case Some(k) => Ok(k)
  }

  /** `find_user_by(**filters)`: the first row the filters keep. */
  function FindUserBy(rows: seq<UserRecord>, filters: Kwargs): (r: Result<UserRecord, Exception>)
    ensures r == Err(InvalidRequestError) <==> filters == [] || !KnownKeys(filters)
    ensures r == Err(NoResultFound) <==>
      filters != [] && KnownKeys(filters) && forall j :: 0 <= j < |rows| ==> !Matches(rows[j], filters)
    ensures r.Ok? ==> KnownKeys(filters) && exists k :: FirstMatchAt(rows, filters, k) && rows[k] == r.value
  {
    match RowIndex(rows, filters)
    case Err(e) => Err(e)
    case Ok(k) =>
      assert FirstMatchAt(rows, filters, k);
      Ok(rows[k])
  }

  /** Row `k` is the first row the filters keep. */
  predicate FirstMatchAt(rows: seq<UserRecord>, filters: Kwargs, k: int)
    requires KnownKeys(filters)
  {
    0 <= k < |rows| && Matches(rows[k], filters) && forall j :: 0 <= j < k ==> !Matches(rows[j], filters)
  }

  /** The position of the first keyword name from `from` on that is not a column (or `|kw|`). */
  function KnownPrefixFrom(kw: Kwargs, from: nat): (n: nat)
    requires from <= |kw|
    ensures from <= n <= |kw|
    ensures forall j :: from <= j < n ==> Known(kw[j].0)
    ensures n < |kw| ==> !Known(kw[n].0)
    decreases |kw| - from
  {
    if from == |kw| || !Known(kw[from].0) then from
    else KnownPrefixFrom(kw, from + 1)
  }

  /** The settings `kw` names, applied left to right. */
  function ApplyAll(u: UserRecord, kw: Kwargs): UserRecord
    requires KnownKeys(kw) && TypedValues(kw)
  {
    if kw == [] then u
    else
      var last := kw[|kw| - 1];
      SetField(ApplyAll(u, kw[..|kw| - 1]), ColumnNamed(last.0).value, last.1)
  }

  /** `update_user(userId, **changes)` on the rows as the session sees them: the outcome, and
      the rows afterwards. The row is the first with that id; the settings before the first
      unknown name have been made when `ValueError` is raised. */
  function UpdateUser(rows: seq<UserRecord>, userId: int, changes: Kwargs): (r: (Outcome<Exception>, seq<UserRecord>))
    requires TypedValues(changes)
    ensures |r.1| == |rows|
    ensures r.0 == Fail(NoResultFound) <==> forall j :: 0 <= j < |rows| ==> rows[j].id != userId
    ensures r.0 == Fail(NoResultFound) ==> r.1 == rows
    ensures r.0 == Fail(ValueError) <==> (exists j :: 0 <= j < |rows| && rows[j].id == userId) && !KnownKeys(changes)
    ensures r.0 == Pass <==> (exists j :: 0 <= j < |rows| && rows[j].id == userId) && KnownKeys(changes)
    ensures forall j :: 0 <= j < |rows| && rows[j].id != userId ==> r.1[j] == rows[j]
  {
    MatchesSingle(rows, Id, IntValue(userId));
    match RowIndex(rows, ById(userId))
    case Err(e) => (Fail(e), rows)
    case Ok(k) =>
      var n := KnownPrefixFrom(changes, 0);
      assert KnownKeys(changes[..n]) && TypedValues(changes[..n]);
      (if n < |changes| then Fail(ValueError) else Pass, rows[k := ApplyAll(rows[k], changes[..n])])
  }

  /** A single keyword argument naming column `c`. */
  function Single(c: Column, v: FieldValue): Kwargs
  {
    [(Name(c), v)]
  }

  /** The filter `find_user_by(id=userId)` passes. */
  function ById(userId: int): Kwargs
  {
    Single(Id, IntValue(userId))
  }

  lemma SingleKnown(c: Column, v: FieldValue)
    ensures KnownKeys(Single(c, v)) && DistinctNames(Single(c, v))
    ensures Fits(c, v) ==> TypedValues(Single(c, v))
  {
    ColumnNamedName(c);
  }

  /** A one-column filter keeps exactly the rows holding that value in that column. */
  lemma MatchesSingle(rows: seq<UserRecord>, c: Column, v: FieldValue)
    ensures KnownKeys(Single(c, v))
    ensures forall j :: 0 <= j < |rows| ==> (Matches(rows[j], Single(c, v)) <==> FieldOf(rows[j], c) == v)
  {
    SingleKnown(c, v);
    var f := Single(c, v);
    forall j | 0 <= j < |rows|
      ensures Matches(rows[j], f) <==> FieldOf(rows[j], c) == v
    {
      assert f[0] == (Name(c), v);
      assert Matches(rows[j], f) <==> FieldOf(rows[j], c) == v;
    }
  }

  /** No row other than row `k` holds `v` in column `c`. */
  predicate OnlyRowWith(rows: seq<UserRecord>, k: nat, c: Column, v: FieldValue)
  {
    forall j :: 0 <= j < |rows| && j != k ==> FieldOf(rows[j], c) != v
  }

  /** A value held in one row only finds that row; a value held in none finds nothing. */
  lemma RowBySingle(rows: seq<UserRecord>, c: Column, v: FieldValue)
    ensures (forall j :: 0 <= j < |rows| ==> FieldOf(rows[j], c) != v) ==>
      RowIndex(rows, Single(c, v)) == Err(NoResultFound)
    ensures forall k :: 0 <= k < |rows| && FieldOf(rows[k], c) == v && OnlyRowWith(rows, k, c, v) ==>
      RowIndex(rows, Single(c, v)) == Ok(k)
  {
    MatchesSingle(rows, c, v);
  }

  /** The id SQLite gives the next row: one past the largest, or 1 in an empty table. */
  function NextId(rows: seq<UserRecord>): (r: int)
    ensures forall j :: 0 <= j < |rows| ==> rows[j].id < r
    ensures rows == [] ==> r == 1
    ensures rows != [] ==> exists j :: 0 <= j < |rows| && rows[j].id == r - 1
  {
    if rows == [] then 1
    else
      var prefix := rows[..|rows| - 1];
      var rest := NextId(prefix);
      if prefix != [] && rows[|rows| - 1].id < rest then
        assert exists j :: 0 <= j < |prefix| && prefix[j].id == rest - 1;
        rest
      else
        rows[|rows| - 1].id + 1
  }

  /** `add_user(email, hashedPassword)`: the new row, and the rows afterwards. */
  function AddUser(rows: seq<UserRecord>, email: string, hashedPassword: Digest): (r: (UserRecord, seq<UserRecord>))
    ensures r.1 == rows + [r.0]
    ensures r.0.email == email && r.0.hashedPassword == hashedPassword
    ensures r.0.sessionId.None? && r.0.resetToken.None?
    ensures forall j :: 0 <= j < |rows| ==> rows[j].id != r.0.id
  {
    var u := UserRecord(NextId(rows), email, hashedPassword, None, None);
    (u, rows + [u])
  }

  /** No two rows share an id. */
  predicate UniqueIds(rows: seq<UserRecord>)
  {
    forall i, j :: 0 <= i < j < |rows| ==> rows[i].id != rows[j].id
  }

  /** Keyword names are distinct, as the names of a Python `**kwargs` are. */
  predicate DistinctNames(kw: Kwargs)
  {
    forall i, j :: 0 <= i < j < |kw| ==> kw[i].0 != kw[j].0
  }

  /** With ids unique, looking a row up by its own id finds that row. */
  lemma RowById(rows: seq<UserRecord>, k: nat)
    requires UniqueIds(rows) && k < |rows|
    ensures RowIndex(rows, ById(rows[k].id)) == Ok(k)
  {
    RowBySingle(rows, Id, IntValue(rows[k].id));
  }

  lemma AddUserKeepsIdsUnique(rows: seq<UserRecord>, email: string, hashedPassword: Digest)
    requires UniqueIds(rows)
    ensures UniqueIds(AddUser(rows, email, hashedPassword).1)
  {
  }

  /** A column no setting names keeps its value. */
  lemma {:induction false} ApplyAllUntouched(u: UserRecord, kw: Kwargs, c: Column)
    requires KnownKeys(kw) && TypedValues(kw)
    requires forall i :: 0 <= i < |kw| ==> ColumnNamed(kw[i].0) != Some(c)
    ensures FieldOf(ApplyAll(u, kw), c) == FieldOf(u, c)
  {
    if kw != [] {
      ApplyAllUntouched(u, kw[..|kw| - 1], c);
    }
  }

  /** A column named once ends up holding the value given for it. */
  lemma {:induction false} ApplyAllSets(u: UserRecord, kw: Kwargs, i: nat)
    requires KnownKeys(kw) && TypedValues(kw) && i < |kw|
    requires forall j :: i < j < |kw| ==> kw[j].0 != kw[i].0
    ensures FieldOf(ApplyAll(u, kw), ColumnNamed(kw[i].0).value) == kw[i].1
  {
    if i < |kw| - 1 {
      ApplyAllSets(u, kw[..|kw| - 1], i);
    }
  }

  /** What `update_user` does to the row with a given id: the columns named before the first
      unknown name hold the values given, every other column and every other row is as before. */
  lemma UpdateUserEffect(rows: seq<UserRecord>, k: nat, changes: Kwargs)
    requires UniqueIds(rows) && k < |rows|
    requires TypedValues(changes) && DistinctNames(changes)
    ensures var after := UpdateUser(rows, rows[k].id, changes).1;
      var n := KnownPrefixFrom(changes, 0);
      && (forall j :: 0 <= j < |rows| && j != k ==> after[j] == rows[j])
      && (forall i :: 0 <= i < n ==> FieldOf(after[k], ColumnNamed(changes[i].0).value) == changes[i].1)
      && (forall c: Column :: (forall i :: 0 <= i < n ==> ColumnNamed(changes[i].0) != Some(c)) ==>
            FieldOf(after[k], c) == FieldOf(rows[k], c))
  {
    RowById(rows, k);
    var n := KnownPrefixFrom(changes, 0);
    var applied := changes[..n];
    assert KnownKeys(applied) && TypedValues(applied);
    forall i | 0 <= i < n
      ensures FieldOf(ApplyAll(rows[k], applied), ColumnNamed(changes[i].0).value) == changes[i].1
    {
      ApplyAllSets(rows[k], applied, i);
    }
    forall c: Column | forall i :: 0 <= i < n ==> ColumnNamed(changes[i].0) != Some(c)
      ensures FieldOf(ApplyAll(rows[k], applied), c) == FieldOf(rows[k], c)
    {
      ApplyAllUntouched(rows[k], applied, c);
    }
  }

  /** An update that does not name `id` keeps ids unique. */
  lemma UpdateUserKeepsIdsUnique(rows: seq<UserRecord>, userId: int, changes: Kwargs)
    requires UniqueIds(rows) && TypedValues(changes)
    requires forall i :: 0 <= i < |changes| ==> ColumnNamed(changes[i].0) != Some(Id)
    ensures UniqueIds(UpdateUser(rows, userId, changes).1)
  {
    MatchesSingle(rows, Id, IntValue(userId));
    var r := RowIndex(rows, ById(userId));
    if r.Ok? {
      var n := KnownPrefixFrom(changes, 0);
      var applied := changes[..n];
      assert KnownKeys(applied) && TypedValues(applied);
      ApplyAllUntouched(rows[r.value], applied, Id);
    }
  }

  /** Setting one column of the row with a given (unique) id succeeds and changes that column only. */
  lemma UpdateOne(rows: seq<UserRecord>, k: nat, c: Column, v: FieldValue)
    requires UniqueIds(rows) && k < |rows| && Fits(c, v)
    ensures TypedValues(Single(c, v))
    ensures UpdateUser(rows, rows[k].id, Single(c, v)) == (Pass, rows[k := SetField(rows[k], c, v)])
  {
    RowById(rows, k);
    SingleKnown(c, v);
    var kw := Single(c, v);
    assert KnownPrefixFrom(kw, 0) == 1;
    assert kw[..1] == kw && kw[..0] == [];
    assert ColumnNamed(kw[0].0) == Some(c);
    assert ApplyAll(rows[k], kw) == SetField(ApplyAll(rows[k], []), c, v);
  }

  /** One more setting extends the fold over a prefix of known names by one `setattr`. */
  lemma ApplyAllStep(u: UserRecord, kw: Kwargs, i: nat)
    requires TypedValues(kw) && i < |kw|
    requires forall j :: 0 <= j <= i ==> Known(kw[j].0)
    ensures KnownKeys(kw[..i]) && TypedValues(kw[..i])
    ensures KnownKeys(kw[..i + 1]) && TypedValues(kw[..i + 1])
    ensures ApplyAll(u, kw[..i + 1]) == SetField(ApplyAll(u, kw[..i]), ColumnNamed(kw[i].0).value, kw[i].1)
  {
    assert kw[..i + 1][..i] == kw[..i];
  }
}
