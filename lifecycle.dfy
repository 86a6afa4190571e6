/** The user service's operations as functions from the rows of `users` to an outcome and the
    rows afterwards. Salts and tokens, which the service draws at random, are parameters. */
module Lifecycle {
  import opened Wrappers
  import opened Passwords
  import opened UserTable
  import Utf8

  /** `register_user(email, password)`: refuses an email some row already has, otherwise
      appends a row holding the hash of the password. */
  function RegisterUser(rows: seq<UserRecord>, email: string, password: string, salt: seq<Utf8.byte>)
    : (r: (Result<UserRecord, Exception>, seq<UserRecord>))
    ensures r.0 == Err(ValueError) <==> exists j :: 0 <= j < |rows| && rows[j].email == email
    ensures r.0.Ok? || r.0 == Err(ValueError)
    ensures r.0.Err? ==> r.1 == rows
    ensures r.0.Ok? ==> r.1 == rows + [r.0.value] && r.0.value.email == email
    ensures r.0.Ok? ==> CheckPassword(password, r.0.value.hashedPassword)
    ensures r.0.Ok? ==> r.0.value.hashedPassword.salt == salt
    ensures r.0.Ok? ==> r.0.value.sessionId.None? && r.0.value.resetToken.None?
    ensures r.0.Ok? ==> forall j :: 0 <= j < |rows| ==> rows[j].id != r.0.value.id
  {
    MatchesSingle(rows, Email, StrValue(email));
    match FindUserBy(rows, Single(Email, StrValue(email)))
    case Ok(_) => (Err(ValueError), rows)
    case Err(NoResultFound) =>
      var (u, after) := AddUser(rows, email, HashPassword(password, salt));
      (Ok(u), after)
    case Err(e) => (Err(e), rows)
  }

  /** `valid_login(email, password)`: whether the password checks against the digest of the
      first row with that email; false when there is none. */
  function ValidLogin(rows: seq<UserRecord>, email: string, password: string): (r: Result<bool, Exception>)
    ensures r.Ok?
    ensures r.value ==> exists j :: 0 <= j < |rows| && rows[j].email == email && CheckPassword(password, rows[j].hashedPassword)
    ensures (forall j :: 0 <= j < |rows| ==> rows[j].email != email) ==> !r.value
  {
    MatchesSingle(rows, Email, StrValue(email));
    match FindUserBy(rows, Single(Email, StrValue(email)))
    case Ok(u) => Ok(CheckPassword(password, u.hashedPassword))
    case Err(NoResultFound) => Ok(false)
    case Err(e) => Err(e)
  }

  /** `create_session(email)` with `token` the fresh identifier drawn: stores it as the session
      id of the row with that email and returns it; None for an unknown email. */
  function CreateSession(rows: seq<UserRecord>, email: string, token: string)
    : (r: (Result<Option<string>, Exception>, seq<UserRecord>))
    ensures r.0.Ok?
    ensures r.0 == Ok(None) <==> forall j :: 0 <= j < |rows| ==> rows[j].email != email
    ensures r.0 != Ok(None) ==> r.0 == Ok(Some(token))
    ensures r.0 == Ok(None) ==> r.1 == rows
    ensures |r.1| == |rows|
  {
    MatchesSingle(rows, Email, StrValue(email));
    match RowIndex(rows, Single(Email, StrValue(email)))
    case Err(NoResultFound) => (Ok(None), rows)
    case Err(e) => (Err(e), rows)
    case Ok(k) =>
      SingleKnown(SessionId, StrValue(token));
      var (outcome, after) := UpdateUser(rows, rows[k].id, Single(SessionId, StrValue(token)));
      match outcome
      case Pass => (Ok(Some(token)), after)
      case Fail(e) => (Err(e), after)
  }

  /** `get_user_from_session_id(sessionId)`: the first row holding that session id; None for a
      missing or unknown one. */
  function GetUserFromSessionId(rows: seq<UserRecord>, sessionId: Option<string>): (r: Result<Option<UserRecord>, Exception>)
    ensures r.Ok?
    ensures r == Ok(None) <==> sessionId.None? || forall j :: 0 <= j < |rows| ==> rows[j].sessionId != sessionId
    ensures r.Ok? && r.value.Some? ==> r.value.value in rows && r.value.value.sessionId == sessionId
  {
    if sessionId.None? then Ok(None)
    else
      var filters := Single(SessionId, StrValue(sessionId.value));
      MatchesSingle(rows, SessionId, StrValue(sessionId.value));
      match FindUserBy(rows, filters)
      case Ok(u) =>
        var k := RowIndex(rows, filters).value;
        assert u == rows[k] && rows[k].sessionId == sessionId;
        Ok(Some(u))
      case Err(NoResultFound) => Ok(None)
      case Err(e) => Err(e)
  }

  /** `destroy_session(userId)`: clears the session id of the row with that id; does nothing
      for a missing or unknown id. */
  function DestroySession(rows: seq<UserRecord>, userId: Option<int>): (r: (Outcome<Exception>, seq<UserRecord>))
    ensures r.0 == Pass
    ensures |r.1| == |rows|
    ensures forall j :: 0 <= j < |rows| && (userId.None? || rows[j].id != userId.value) ==> r.1[j] == rows[j]
  {
    if userId.None? then (Pass, rows)
    else
      MatchesSingle(rows, Id, IntValue(userId.value));
      match RowIndex(rows, ById(userId.value))
      case Err(NoResultFound) => (Pass, rows)
      case Err(e) => (Fail(e), rows)
      case Ok(k) =>
        SingleKnown(SessionId, NoneValue);
        var (outcome, after) := UpdateUser(rows, rows[k].id, Single(SessionId, NoneValue));
        (if outcome == Fail(NoResultFound) then Pass else outcome, after)
  }

  /** `get_reset_password_token(email)` as evidently intended, with `token` the fresh identifier
      drawn: stores it as the reset token of the row with that email and returns it;
      `ValueError` for an unknown email. */
  function GetResetPasswordToken(rows: seq<UserRecord>, email: string, token: string)
    : (r: (Result<string, Exception>, seq<UserRecord>))
    ensures r.0 == Err(ValueError) <==> forall j :: 0 <= j < |rows| ==> rows[j].email != email
    ensures r.0.Ok? || r.0 == Err(ValueError)
    ensures r.0.Ok? ==> r.0.value == token
    ensures r.0.Err? ==> r.1 == rows
    ensures |r.1| == |rows|
  {
    MatchesSingle(rows, Email, StrValue(email));
    match RowIndex(rows, Single(Email, StrValue(email)))
    case Err(NoResultFound) => (Err(ValueError), rows)
    case Err(e) => (Err(e), rows)
    case Ok(k) =>
      SingleKnown(ResetToken, StrValue(token));
      var (outcome, after) := UpdateUser(rows, rows[k].id, Single(ResetToken, StrValue(token)));
      match outcome
      case Pass => (Ok(token), after)
      case Fail(e) => (Err(e), after)
  }

  /** The keyword name `get_reset_password_token` and `update_password` pass for the reset
      token column. */
  const MisspelledResetToken := "resetn"

  /** `get_reset_password_token(email)` as written: the update names `resetn`, which is not a
      column, so it raises `ValueError` for every email and changes nothing. Unknown emails fail
      the lookup; known ones fail the update before any column is set. */
  function GetResetPasswordTokenAsWritten(rows: seq<UserRecord>, email: string, token: string)
    : (r: (Result<string, Exception>, seq<UserRecord>))
    ensures r == (Err(ValueError), rows)
  {
    MatchesSingle(rows, Email, StrValue(email));
    match RowIndex(rows, Single(Email, StrValue(email)))
    case Err(NoResultFound) => (Err(ValueError), rows)
    case Err(e) => (Err(e), rows)
    case Ok(k) =>
      var changes := [(MisspelledResetToken, StrValue(token))];
      assert !Known(MisspelledResetToken);
      assert KnownPrefixFrom(changes, 0) == 0 && changes[..0] == [];
      MatchesSingle(rows, Id, IntValue(rows[k].id));
      var found := RowIndex(rows, ById(rows[k].id));
      assert found.Ok? && rows[found.value].id == rows[k].id;
      var (outcome, after) := UpdateUser(rows, rows[k].id, changes);
      assert outcome == Fail(ValueError);
      assert after == rows[found.value := ApplyAll(rows[found.value], changes[..0])] == rows;
      match outcome
      case Pass => (Ok(token), after)
      case Fail(e) => (Err(e), after)
  }

  /** The settings `update_password` evidently intends: the new digest, and no reset token. */
  function PasswordChanges(d: Digest): Kwargs
  {
    [(Name(HashedPassword), DigestValue(d)), (Name(ResetToken), NoneValue)]
  }

  lemma PasswordChangesTyped(d: Digest)
    ensures KnownKeys(PasswordChanges(d)) && TypedValues(PasswordChanges(d))
    ensures DistinctNames(PasswordChanges(d))
  {
    ColumnNamedName(HashedPassword);
    ColumnNamedName(ResetToken);
  }

  /** The two settings are made whenever the row exists. */
  lemma PasswordChangesApply(rows: seq<UserRecord>, k: nat, d: Digest)
    requires k < |rows|
    ensures TypedValues(PasswordChanges(d))
    ensures UpdateUser(rows, rows[k].id, PasswordChanges(d)).0 == Pass
    ensures |UpdateUser(rows, rows[k].id, PasswordChanges(d)).1| == |rows|
  {
    PasswordChangesTyped(d);
    assert rows[k].id == rows[k].id;
  }

  /** The lookup by reset token finds a row holding the token, and raises `NoResultFound`
      exactly when no row holds it. */
  lemma ResetTokenLookup(rows: seq<UserRecord>, resetToken: string)
    ensures var r := RowIndex(rows, Single(ResetToken, StrValue(resetToken)));
      && (r == Err(NoResultFound) <==> forall j :: 0 <= j < |rows| ==> rows[j].resetToken != Some(resetToken))
      && (r.Err? ==> r == Err(NoResultFound))
      && (r.Ok? ==> r.value < |rows| && rows[r.value].resetToken == Some(resetToken))
  {
    MatchesSingle(rows, ResetToken, StrValue(resetToken));
  }

  /** `update_password(resetToken, password)` as evidently intended, with `salt` the one
      `gensalt()` draws: the row holding that reset token gets the new digest and loses the
      token; `ValueError` for an unknown token. */
  function UpdatePassword(rows: seq<UserRecord>, resetToken: string, password: string, salt: seq<Utf8.byte>)
    : (r: (Outcome<Exception>, seq<UserRecord>))
    ensures r.0 == Fail(ValueError) <==> forall j :: 0 <= j < |rows| ==> rows[j].resetToken != Some(resetToken)
    ensures r.0.Pass? || r.0 == Fail(ValueError)
    ensures r.0.Fail? ==> r.1 == rows
    ensures |r.1| == |rows|
  {
    ResetTokenLookup(rows, resetToken);
    match RowIndex(rows, Single(ResetToken, StrValue(resetToken)))
    case Err(NoResultFound) => (Fail(ValueError), rows)
    case Err(e) => (Fail(e), rows)
    case Ok(k) =>
      var d := HashPassword(password, salt);
      PasswordChangesApply(rows, k, d);
      var (outcome, after) := UpdateUser(rows, rows[k].id, PasswordChanges(d));
      (outcome, after)
  }

  /** `update_password(resetToken, password)` as written: its first statement reads the
      undefined name `resetn`, so every call raises `NameError`, which nothing catches, before
      any row is read or changed. */
  function UpdatePasswordAsWritten(rows: seq<UserRecord>, resetToken: string, password: string, salt: seq<Utf8.byte>)
    : (r: (Outcome<Exception>, seq<UserRecord>))
    ensures r.0 == Fail(NameError) && r.1 == rows
  {
    (Fail(NameError), rows)
  }

  /** The uniqueness the service relies on: an id, an email, a live session id and a pending
      reset token each belong to one row at most. */
  predicate Inv(rows: seq<UserRecord>)
  {
    && UniqueIds(rows)
    && (forall i, j :: 0 <= i < j < |rows| ==> rows[i].email != rows[j].email)
    && (forall i, j :: 0 <= i < j < |rows| && rows[i].sessionId.Some? ==> rows[i].sessionId != rows[j].sessionId)
    && (forall i, j :: 0 <= i < j < |rows| && rows[i].resetToken.Some? ==> rows[i].resetToken != rows[j].resetToken)
  }

  /** `token` is no row's session id: what drawing a fresh identifier provides. */
  predicate SessionUnused(rows: seq<UserRecord>, token: string)
  {
    forall j :: 0 <= j < |rows| ==> rows[j].sessionId != Some(token)
  }

  /** `token` is no row's reset token. */
  predicate ResetUnused(rows: seq<UserRecord>, token: string)
  {
    forall j :: 0 <= j < |rows| ==> rows[j].resetToken != Some(token)
  }

  /** Replacing a row by one with the same id and email, and tokens no other row holds, keeps
      the invariant. */
  lemma ReplaceKeepsInv(rows: seq<UserRecord>, k: nat, u: UserRecord)
    requires Inv(rows) && k < |rows|
    requires u.id == rows[k].id && u.email == rows[k].email
    requires u.sessionId.Some? ==> forall j :: 0 <= j < |rows| && j != k ==> rows[j].sessionId != u.sessionId
    requires u.resetToken.Some? ==> forall j :: 0 <= j < |rows| && j != k ==> rows[j].resetToken != u.resetToken
    ensures Inv(rows[k := u])
  {
  }

  /** Under the invariant, the lookup by a row's email finds that row. */
  lemma RowByEmail(rows: seq<UserRecord>, k: nat)
    requires Inv(rows) && k < |rows|
    ensures RowIndex(rows, Single(Email, StrValue(rows[k].email))) == Ok(k)
  {
    RowBySingle(rows, Email, StrValue(rows[k].email));
  }

  /** Under the invariant, `valid_login` checks the password against the digest of the row with
      that email. */
  lemma ValidLoginAt(rows: seq<UserRecord>, k: nat, password: string)
    requires Inv(rows) && k < |rows|
    ensures ValidLogin(rows, rows[k].email, password) == Ok(CheckPassword(password, rows[k].hashedPassword))
  {
    RowByEmail(rows, k);
  }

  /** Under the invariant, a live session id resolves to the row holding it. */
  lemma GetUserFromSessionIdAt(rows: seq<UserRecord>, k: nat)
    requires Inv(rows) && k < |rows| && rows[k].sessionId.Some?
    ensures GetUserFromSessionId(rows, rows[k].sessionId) == Ok(Some(rows[k]))
  {
    RowBySingle(rows, SessionId, StrValue(rows[k].sessionId.value));
  }

  /** Under the invariant, `create_session` replaces the session id of the row with that email
      and of no other row. */
  lemma CreateSessionAt(rows: seq<UserRecord>, k: nat, token: string)
    requires Inv(rows) && k < |rows|
    ensures CreateSession(rows, rows[k].email, token) == (Ok(Some(token)), rows[k := rows[k].(sessionId := Some(token))])
  {
    RowByEmail(rows, k);
    UpdateOne(rows, k, SessionId, StrValue(token));
  }

  /** Under the invariant, `destroy_session` clears the session id of the row with that id and
      of no other row. */
  lemma DestroySessionAt(rows: seq<UserRecord>, k: nat)
    requires Inv(rows) && k < |rows|
    ensures DestroySession(rows, Some(rows[k].id)) == (Pass, rows[k := rows[k].(sessionId := None)])
  {
    RowById(rows, k);
    UpdateOne(rows, k, SessionId, NoneValue);
  }

  /** Under the invariant, the intended `get_reset_password_token` sets the reset token of the
      row with that email and of no other row. */
  lemma GetResetPasswordTokenAt(rows: seq<UserRecord>, k: nat, token: string)
    requires Inv(rows) && k < |rows|
    ensures GetResetPasswordToken(rows, rows[k].email, token) == (Ok(token), rows[k := rows[k].(resetToken := Some(token))])
  {
    RowByEmail(rows, k);
    UpdateOne(rows, k, ResetToken, StrValue(token));
  }

  /** With ids unique, the two password settings land on the row with the given id together. */
  lemma PasswordChangesAt(rows: seq<UserRecord>, k: nat, d: Digest)
    requires UniqueIds(rows) && k < |rows|
    ensures TypedValues(PasswordChanges(d))
    ensures UpdateUser(rows, rows[k].id, PasswordChanges(d)) == (Pass, rows[k := rows[k].(hashedPassword := d, resetToken := None)])
  {
    RowById(rows, k);
    PasswordChangesTyped(d);
    var kw := PasswordChanges(d);
    assert KnownPrefixFrom(kw, 0) == 2;
    assert kw[..2] == kw && kw[..2][..1] == kw[..1] && kw[..1][..0] == [];
    assert ColumnNamed(kw[0].0) == Some(HashedPassword) && ColumnNamed(kw[1].0) == Some(ResetToken);
    assert ApplyAll(rows[k], kw[..1]) == SetField(rows[k], HashedPassword, DigestValue(d));
    assert ApplyAll(rows[k], kw) == SetField(ApplyAll(rows[k], kw[..1]), ResetToken, NoneValue);
  }

  /** Under the invariant, the intended `update_password` gives the row holding the reset token
      the new digest and takes the token away, and changes no other row. */
  lemma UpdatePasswordAt(rows: seq<UserRecord>, k: nat, password: string, salt: seq<Utf8.byte>)
    requires Inv(rows) && k < |rows| && rows[k].resetToken.Some?
    ensures UpdatePassword(rows, rows[k].resetToken.value, password, salt)
      == (Pass, rows[k := rows[k].(hashedPassword := HashPassword(password, salt), resetToken := None)])
  {
    var token := StrValue(rows[k].resetToken.value);
    assert OnlyRowWith(rows, k, ResetToken, token);
    RowBySingle(rows, ResetToken, token);
    assert RowIndex(rows, Single(ResetToken, token)) == Ok(k);
    PasswordChangesAt(rows, k, HashPassword(password, salt));
  }

  lemma RegisterUserKeepsInv(rows: seq<UserRecord>, email: string, password: string, salt: seq<Utf8.byte>)
    requires Inv(rows)
    ensures Inv(RegisterUser(rows, email, password, salt).1)
  {
    var (r, after) := RegisterUser(rows, email, password, salt);
    if r.Ok? {
      var u := r.value;
      assert after == rows + [u];
      assert forall j :: 0 <= j < |rows| ==> rows[j].email != u.email && rows[j].id != u.id;
      assert u.sessionId.None? && u.resetToken.None?;
      forall i, j | 0 <= i < j < |after|
        ensures after[i].id != after[j].id && after[i].email != after[j].email
        ensures after[i].sessionId.Some? ==> after[i].sessionId != after[j].sessionId
        ensures after[i].resetToken.Some? ==> after[i].resetToken != after[j].resetToken
      {
        if j == |rows| {
          assert after[j] == u && after[i] == rows[i];
        } else {
          assert after[i] == rows[i] && after[j] == rows[j];
        }
      }
    }
  }

  lemma CreateSessionKeepsInv(rows: seq<UserRecord>, email: string, token: string)
    requires Inv(rows) && SessionUnused(rows, token)
    ensures Inv(CreateSession(rows, email, token).1)
  {
    if k :| 0 <= k < |rows| && rows[k].email == email {
      CreateSessionAt(rows, k, token);
      ReplaceKeepsInv(rows, k, rows[k].(sessionId := Some(token)));
    }
  }

  lemma DestroySessionKeepsInv(rows: seq<UserRecord>, userId: Option<int>)
    requires Inv(rows)
    ensures Inv(DestroySession(rows, userId).1)
  {
    if k :| 0 <= k < |rows| && userId == Some(rows[k].id) {
      DestroySessionAt(rows, k);
      ReplaceKeepsInv(rows, k, rows[k].(sessionId := None));
    }
  }

  lemma GetResetPasswordTokenKeepsInv(rows: seq<UserRecord>, email: string, token: string)
    requires Inv(rows) && ResetUnused(rows, token)
    ensures Inv(GetResetPasswordToken(rows, email, token).1)
  {
    if k :| 0 <= k < |rows| && rows[k].email == email {
      GetResetPasswordTokenAt(rows, k, token);
      ReplaceKeepsInv(rows, k, rows[k].(resetToken := Some(token)));
    }
  }

  lemma UpdatePasswordKeepsInv(rows: seq<UserRecord>, resetToken: string, password: string, salt: seq<Utf8.byte>)
    requires Inv(rows)
    ensures Inv(UpdatePassword(rows, resetToken, password, salt).1)
  {
    if k :| 0 <= k < |rows| && rows[k].resetToken == Some(resetToken) {
      UpdatePasswordAt(rows, k, password, salt);
      ReplaceKeepsInv(rows, k, rows[k].(hashedPassword := HashPassword(password, salt), resetToken := None));
    }
  }

  /** A new email registers, its password then logs in and no other password within bcrypt's
      limit does, and registering the same email again is refused. */
  lemma RegisterThenLogin(rows: seq<UserRecord>, email: string, password: string, salt: seq<Utf8.byte>,
                          other: string, otherSalt: seq<Utf8.byte>)
    requires Inv(rows) && forall j :: 0 <= j < |rows| ==> rows[j].email != email
    ensures var (r, after) := RegisterUser(rows, email, password, salt);
      && r.Ok?
      && ValidLogin(after, email, password) == Ok(true)
      && (other != password && WithinLimit(password) && WithinLimit(other) ==> ValidLogin(after, email, other) == Ok(false))
      && RegisterUser(after, email, other, otherSalt) == (Err(ValueError), after)
  {
    var (r, after) := RegisterUser(rows, email, password, salt);
    RegisterUserKeepsInv(rows, email, password, salt);
    var k := |rows|;
    assert after[k] == r.value;
    ValidLoginAt(after, k, password);
    ValidLoginAt(after, k, other);
    if other != password && WithinLimit(password) && WithinLimit(other) {
      OtherPasswordRejected(password, other, salt);
    }
  }

  /** A session created for a user resolves to that user, and the session id the user held
      before no longer resolves; destroying the session revokes it, and destroying it again
      changes nothing. */
  lemma SessionLifecycle(rows: seq<UserRecord>, k: nat, token: string)
    requires Inv(rows) && k < |rows| && SessionUnused(rows, token)
    ensures var after := CreateSession(rows, rows[k].email, token).1;
      && GetUserFromSessionId(after, Some(token)) == Ok(Some(after[k]))
      && after[k].email == rows[k].email
      && GetUserFromSessionId(after, rows[k].sessionId) == Ok(None)
      && var revoked := DestroySession(after, Some(rows[k].id)).1;
        && GetUserFromSessionId(revoked, Some(token)) == Ok(None)
        && DestroySession(revoked, Some(rows[k].id)) == (Pass, revoked)
  {
    CreateSessionAt(rows, k, token);
    var after := rows[k := rows[k].(sessionId := Some(token))];
    CreateSessionKeepsInv(rows, rows[k].email, token);
    GetUserFromSessionIdAt(after, k);
    DestroySessionAt(after, k);
    var revoked := after[k := after[k].(sessionId := None)];
    DestroySessionKeepsInv(after, Some(rows[k].id));
    DestroySessionAt(revoked, k);
    assert revoked[k := revoked[k].(sessionId := None)] == revoked;
  }

  /** The intended reset flow: a requested token changes the password once; afterwards the new
      password logs in, the old one does not when both fit within bcrypt's limit, and the token
      is spent. */
  lemma ResetLifecycle(rows: seq<UserRecord>, k: nat, token: string, oldPassword: string,
                       newPassword: string, salt: seq<Utf8.byte>, laterPassword: string, laterSalt: seq<Utf8.byte>)
    requires Inv(rows) && k < |rows| && ResetUnused(rows, token)
    requires CheckPassword(oldPassword, rows[k].hashedPassword)
    ensures var (issued, pending) := GetResetPasswordToken(rows, rows[k].email, token);
      && issued == Ok(token)
      && var (outcome, reset) := UpdatePassword(pending, token, newPassword, salt);
        && outcome == Pass
        && ValidLogin(reset, rows[k].email, newPassword) == Ok(true)
        && (oldPassword != newPassword && WithinLimit(oldPassword) && WithinLimit(newPassword)
            ==> ValidLogin(reset, rows[k].email, oldPassword) == Ok(false))
        && UpdatePassword(reset, token, laterPassword, laterSalt) == (Fail(ValueError), reset)
  {
    GetResetPasswordTokenAt(rows, k, token);
    var pending := rows[k := rows[k].(resetToken := Some(token))];
    GetResetPasswordTokenKeepsInv(rows, rows[k].email, token);
    UpdatePasswordAt(pending, k, newPassword, salt);
    var reset := pending[k := pending[k].(hashedPassword := HashPassword(newPassword, salt), resetToken := None)];
    UpdatePasswordKeepsInv(pending, token, newPassword, salt);
    ValidLoginAt(reset, k, newPassword);
    ValidLoginAt(reset, k, oldPassword);
    if oldPassword != newPassword && WithinLimit(oldPassword) && WithinLimit(newPassword) {
      OtherPasswordRejected(newPassword, oldPassword, salt);
    }
    assert forall j :: 0 <= j < |reset| ==> reset[j].resetToken != Some(token);
  }

  /** As written, no email ever receives a reset token, while the intended definition issues
      one to every registered email. */
  lemma ResetTokenNeverIssuedAsWritten(rows: seq<UserRecord>, k: nat, token: string)
    requires k < |rows|
    ensures GetResetPasswordTokenAsWritten(rows, rows[k].email, token) == (Err(ValueError), rows)
    ensures GetResetPasswordToken(rows, rows[k].email, token).0 == Ok(token)
  {
    var r := GetResetPasswordToken(rows, rows[k].email, token);
    assert r.0 != Err(ValueError);
  }

  /** As written, a reset token held by a row is never consumed, while the intended definition
      consumes it. */
  lemma ResetNeverConsumedAsWritten(rows: seq<UserRecord>, k: nat, password: string, salt: seq<Utf8.byte>)
    requires k < |rows| && rows[k].resetToken.Some?
    ensures UpdatePasswordAsWritten(rows, rows[k].resetToken.value, password, salt) == (Fail(NameError), rows)
    ensures UpdatePassword(rows, rows[k].resetToken.value, password, salt).0 == Pass
  {
  }
}
