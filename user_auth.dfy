/** The user service object: each operation calls the database object as the service does, and
    is proved to compute the outcome and the new rows its `Lifecycle` function describes. */
module UserAuth {
  import opened Wrappers
  import opened Passwords
  import opened UserTable
  import Db
  import Lifecycle
  import Utf8

  class Auth {
    const db: Db.DB

    /** A service over a fresh, empty table. */
    constructor ()
      ensures fresh(db) && db.rows == []
    {
      db := new Db.DB();
    }

    method RegisterUser(email: string, password: string, salt: seq<Utf8.byte>) returns (r: Result<UserRecord, Exception>)
      modifies db
      ensures (r, db.rows) == Lifecycle.RegisterUser(old(db.rows), email, password, salt)
    {
      var found := db.FindUserBy(Single(Email, StrValue(email)));
      match found
      case Ok(_) =>
        r := Err(ValueError);
      case Err(NoResultFound) =>
        var u := db.AddUser(email, HashPassword(password, salt));
        r := Ok(u);
      case Err(e) =>
        r := Err(e);
    }

    method ValidLogin(email: string, password: string) returns (r: Result<bool, Exception>)
      ensures r == Lifecycle.ValidLogin(db.rows, email, password)
    {
      var found := db.FindUserBy(Single(Email, StrValue(email)));
      match found
      case Ok(u) =>
        r := Ok(CheckPassword(password, u.hashedPassword));
      case Err(NoResultFound) =>
        r := Ok(false);
      case Err(e) =>
        r := Err(e);
    }

    method CreateSession(email: string, token: string) returns (r: Result<Option<string>, Exception>)
      modifies db
      ensures (r, db.rows) == Lifecycle.CreateSession(old(db.rows), email, token)
    {
      var found := db.FindUserBy(Single(Email, StrValue(email)));
      match found
      case Err(NoResultFound) =>
        r := Ok(None);
      case Err(e) =>
        r := Err(e);
      case Ok(u) =>
        SingleKnown(SessionId, StrValue(token));
        var outcome := db.UpdateUser(u.id, Single(SessionId, StrValue(token)));
        match outcome
        case Pass => r := Ok(Some(token));
        case Fail(e) => r := Err(e);
    }

    method GetUserFromSessionId(sessionId: Option<string>) returns (r: Result<Option<UserRecord>, Exception>)
      ensures r == Lifecycle.GetUserFromSessionId(db.rows, sessionId)
    {
      if sessionId.None? {
        return Ok(None);
      }
      var found := db.FindUserBy(Single(SessionId, StrValue(sessionId.value)));
      match found
      case Ok(u) =>
        r := Ok(Some(u));
      case Err(NoResultFound) =>
        r := Ok(None);
      case Err(e) =>
        r := Err(e);
    }

    method DestroySession(userId: Option<int>) returns (r: Outcome<Exception>)
      modifies db
      ensures (r, db.rows) == Lifecycle.DestroySession(old(db.rows), userId)
    {
      if userId.None? {
        return Pass;
      }
      var found := db.FindUserBy(ById(userId.value));
      match found
      case Err(NoResultFound) =>
        r := Pass;
      case Err(e) =>
        r := Fail(e);
      case Ok(u) =>
        SingleKnown(SessionId, NoneValue);
        var outcome := db.UpdateUser(u.id, Single(SessionId, NoneValue));
        r := if outcome == Fail(NoResultFound) then Pass else outcome;
    }

    method GetResetPasswordToken(email: string, token: string) returns (r: Result<string, Exception>)
      modifies db
      ensures (r, db.rows) == Lifecycle.GetResetPasswordToken(old(db.rows), email, token)
    {
      var found := db.FindUserBy(Single(Email, StrValue(email)));
      match found
      case Err(NoResultFound) =>
        r := Err(ValueError);
      case Err(e) =>
        r := Err(e);
      case Ok(u) =>
        SingleKnown(ResetToken, StrValue(token));
        var outcome := db.UpdateUser(u.id, Single(ResetToken, StrValue(token)));
        match outcome
        case Pass => r := Ok(token);
        case Fail(e) => r := Err(e);
    }

    method UpdatePassword(resetToken: string, password: string, salt: seq<Utf8.byte>) returns (r: Outcome<Exception>)
      modifies db
      ensures (r, db.rows) == Lifecycle.UpdatePassword(old(db.rows), resetToken, password, salt)
    {
      var found := db.FindUserBy(Single(ResetToken, StrValue(resetToken)));
      match found
      case Err(NoResultFound) =>
        r := Fail(ValueError);
      case Err(e) =>
        r := Fail(e);
      case Ok(u) =>
        var d := HashPassword(password, salt);
        Lifecycle.PasswordChangesTyped(d);
        r := db.UpdateUser(u.id, Lifecycle.PasswordChanges(d));
    }
  }
}
