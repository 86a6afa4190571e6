# Verified model of the authentication core of alx-backend-user-data

This project models three pieces of the repository's authentication logic in Dafny and proves
what they promise.

* **Path-exemption policy** (`PathPolicy`, from the base `Auth` of the Basic-authentication API).
  `require_auth` decides whether a request path needs credentials. Trailing slashes are dropped
  from the path and from each exact entry, and an entry ending in `*` exempts every path that
  starts with the rest of the entry. The module also covers `authorization_header` and the base
  `current_user`, which never finds a user.
* **Basic-credential pipeline** (`BasicAuth`, with `PyStr`, `Base64` and `Utf8` underneath).
  This is the receiving side of the HTTP Basic scheme of section 2 of RFC 7617. It takes the
  credential after the `Basic ` prefix and decodes it as strict base64 (the alphabet of
  section 4 of RFC 4648) and then as UTF-8 (RFC 3629). It splits `user-id:password` at the
  first colon and asks the user directory. Every stage gives `None` on failure. `PyStr` models
  the Python `str` operations the code uses: `rstrip`, `strip`, `split` and `split(sep, 1)`.
* **User service** (`UserTable` and `Db` for the database object, `Lifecycle` and `UserAuth`
  for the service).
  * The `users` table is a sequence of rows in insertion order.
  * `find_user_by` checks keyword names against the column allow-list, then returns the first
    row whose named columns all equal the given values.
  * `update_user` finds the row by id and sets one column per keyword in order. It raises
    `ValueError` at the first name that is not a column. The settings made before that point
    stay visible to later reads.
  * New rows get the id SQLite gives an integer primary key: one past the largest id present,
    or 1 in an empty table.
  * `Lifecycle` states each service operation as a function from rows to an outcome and new
    rows. `Db.DB` and `UserAuth.Auth` are classes whose methods change the rows in place. Each
    method is proved to agree with its function.
  * The invariant `Lifecycle.Inv` says ids, emails, live session ids and pending reset tokens
    each belong to at most one row. The operations preserve it when the tokens they are given
    are fresh.
  * The lifecycle lemmas cover these flows: register then log in, create, resolve and destroy
    a session, and request then consume a password reset.

Passwords are hashed symbolically (`Passwords`). A digest records the salt drawn for it and the
bytes bcrypt 4 reads from the password: its UTF-8 encoding followed by a NUL terminator, cut
to the first 72 bytes. A check succeeds exactly when those bytes are the same, so a password of
71 bytes and the same password followed by U+0000 hash alike. Salts and the identifiers `uuid4` draws are
parameters of the operations.

Where the code's comments or the standards it follows say one thing and the code does another,
the model follows the code:

* The comment at 0x01-Basic_authentication/api/v1/auth/auth.py:37 speaks of removing a
  trailing slash. The code calls `rstrip("/")`, which strips every trailing `/`, and
  `PathPolicy.RequireAuth` does the same.
* Section 3.5 of RFC 4648 lets a decoder reject a last group whose unused bits are not zero.
  Python's strict `b64decode` accepts it, and so does `Base64.Decode`.
* Section 2.1 of RFC 7235 makes scheme names case-insensitive. The code's `startswith("Basic ")`
  is case-sensitive, and so is `BasicAuth.ExtractBase64AuthorizationHeader`.
* The column for the reset flow is `reset_token`, the name in the allow-list at
  0x03-user_authentication_service/db.py:53. The reset code names `resetn`. This is modelled
  both as written and as intended; see Findings.

## Model

| member | source | states |
|---|---|---|
| PathPolicy.RequireAuth | 0x01-Basic_authentication/api/v1/auth/auth.py:14-52 | True for a missing or empty path and for missing or empty exclusions. Otherwise False exactly when some entry exempts the path with all trailing `/` removed |
| PathPolicy.AnyExempts | 0x01-Basic_authentication/api/v1/auth/auth.py:41-52 | The early-return loop over the entries answers "exempt" exactly when some entry exempts the path |
| PathPolicy.TrailingSlashIgnored | 0x01-Basic_authentication/api/v1/auth/auth.py:38 | For a non-empty path, `p + "/"` gets the same decision as `p` |
| PathPolicy.ExactEntryExempts | 0x01-Basic_authentication/api/v1/auth/auth.py:48-50 | An entry equal to the path, once both lose their trailing `/`, makes the path exempt |
| PathPolicy.WildcardEntryExempts | 0x01-Basic_authentication/api/v1/auth/auth.py:43-46 | An entry ending in `*` exempts every path whose stripped form starts with the entry minus `*` |
| PathPolicy.OrderIrrelevant | 0x01-Basic_authentication/api/v1/auth/auth.py:41-52 | Two non-empty exclusion lists with the same members give the same decision, whatever the order or repetition |
| PathPolicy.EntryTrailingSlashIgnored | 0x01-Basic_authentication/api/v1/auth/auth.py:48 | Appending `/` to a non-wildcard entry does not change any decision |
| PathPolicy.WildcardExample | 0x01-Basic_authentication/api/v1/auth/auth.py:43-46 | `/api/v1/admin*` exempts `/api/v1/admin` and `/api/v1/admin/x` but not `/api/v1/adm` |
| PathPolicy.AuthorizationHeader | 0x01-Basic_authentication/api/v1/auth/auth.py:54-67 | A value exactly when there is a request with an `Authorization` header, and then that header's value |
| PathPolicy.CurrentUser | 0x01-Basic_authentication/api/v1/auth/auth.py:69-80 | None for every request |
| PyStr.RStrip | 0x01-Basic_authentication/api/v1/auth/auth.py:38 | `rstrip(chars)`: a prefix of the input whose last character is not stripped, with only stripped characters cut |
| PyStr.Strip | 0x01-Basic_authentication/api/v1/auth/basic_auth.py:38 | `strip()`: the input with its leading and trailing whitespace cut and nothing else. The result is a slice of the input, every character cut is whitespace, and neither end of the result is |
| PyStr.Find | 0x01-Basic_authentication/api/v1/auth/basic_auth.py:38 | The first position where the pattern occurs, or none when it occurs nowhere |
| PyStr.Split | 0x01-Basic_authentication/api/v1/auth/basic_auth.py:38 | `split(sep)`: the first piece is the text before the first separator, or all of it. The pieces joined with the separator give the input back, and no piece holds the separator |
| PyStr.SplitOnce | 0x01-Basic_authentication/api/v1/auth/basic_auth.py:82 | `split(sep, 1)`: one piece when the separator is absent; otherwise two pieces that rejoin to the input, the first holding no separator |
| Utf8.Encode | 0x03-user_authentication_service/auth.py:17 | `str.encode('utf-8')` takes one to four bytes per character |
| Utf8.Decode | 0x01-Basic_authentication/api/v1/auth/basic_auth.py:64 | `bytes.decode('utf-8')` gives a text only when the bytes are exactly that text's encoding. So an overlong form, a surrogate, a code point above U+10FFFF, a stray continuation byte or a cut-off sequence gives None |
| Utf8.RejectedExamples | 0x01-Basic_authentication/api/v1/auth/basic_auth.py:64-66 | An overlong `/`, an encoded surrogate, U+110000, a lone continuation byte and a cut-off sequence each give None |
| Utf8.DecodeEncode | 0x01-Basic_authentication/api/v1/auth/basic_auth.py:64 | Strict UTF-8 decoding of the encoding of any text gives the text back |
| Utf8.EncodeAppend | 0x03-user_authentication_service/auth.py:17 | The encoding of a concatenation is the concatenation of the encodings |
| Utf8.EncodeInjective | 0x03-user_authentication_service/auth.py:47-50 | Different texts have different UTF-8 encodings |
| Base64.Decode | 0x01-Basic_authentication/api/v1/auth/basic_auth.py:59-62 | `b64decode(validate=True)` succeeds only on text made of whole four-character groups of alphabet characters and `=`, where `=` appears only in the last two positions and then also in the last |
| Base64.DecodeDefined | 0x01-Basic_authentication/api/v1/auth/basic_auth.py:59-62 | Decoding succeeds exactly on such well-formed text, so misplaced or excess padding, a partial group and any other character are refused |
| Base64.MisplacedPaddingExamples | 0x01-Basic_authentication/api/v1/auth/basic_auth.py:59-62 | `YQ=a`, `Y===` and `YQ==YQ==` are refused, and `YQ==` decodes to the byte of `a` |
| Base64.DecodeEncode | 0x01-Basic_authentication/api/v1/auth/basic_auth.py:59-62 | Decoding the padded base64 encoding of any bytes gives the bytes back |
| BasicAuth.ExtractBase64AuthorizationHeader | 0x01-Basic_authentication/api/v1/auth/basic_auth.py:20-38 | A value exactly when the argument is a string starting with `Basic `, case-sensitive. The value is the text after that prefix up to the next `Basic ` (or the end), stripped of surrounding whitespace, and holds no `Basic ` |
| BasicAuth.ExtractFromBasicHeader | 0x01-Basic_authentication/api/v1/auth/basic_auth.py:35-38 | `Basic ` plus a credential with no `Basic ` and no surrounding whitespace gives the credential back |
| BasicAuth.ExtractOtherSchemeExample | 0x01-Basic_authentication/api/v1/auth/basic_auth.py:35-36 | `Bearer xyz` and a lower-case `basic ` give None |
| BasicAuth.DecodeBase64AuthorizationHeader | 0x01-Basic_authentication/api/v1/auth/basic_auth.py:40-66 | None for a non-string. A value only for well-formed strict base64 text, and then a text whose UTF-8 encoding is exactly the decoded bytes. So bad padding and bytes that are not UTF-8 give None |
| BasicAuth.DecodeRoundTrip | 0x01-Basic_authentication/api/v1/auth/basic_auth.py:58-64 | Decoding the base64 of the UTF-8 bytes of any text gives the text |
| BasicAuth.NonUtf8Rejected | 0x01-Basic_authentication/api/v1/auth/basic_auth.py:58-66 | Well-formed base64 of bytes that are no text's UTF-8 encoding gives None |
| BasicAuth.NonUtf8Example | 0x01-Basic_authentication/api/v1/auth/basic_auth.py:58-66 | `0Mw=`, the bytes D0 CC, gives None |
| BasicAuth.DecodeBase64AuthorizationHeaderAsWritten | 0x01-Basic_authentication/api/v1/auth/basic_auth.py:58-66 | As written, it raises exactly for a string with a non-ASCII character, and otherwise answers as the corrected decoder does |
| BasicAuth.NonAsciiCredentialRaises | 0x01-Basic_authentication/api/v1/auth/basic_auth.py:59-65 | The credential `é` raises as written, where the corrected decoder gives None |
| BasicAuth.ExtractUserCredentials | 0x01-Basic_authentication/api/v1/auth/basic_auth.py:68-86 | Both parts or neither. Both exactly for a string holding `:`. The user-id holds no `:` and user-id, `:` and password rejoin to the input |
| BasicAuth.SplitCredentials | 0x01-Basic_authentication/api/v1/auth/basic_auth.py:82-86 | A user-id without `:`, a `:` and any password split back into that pair |
| BasicAuth.SplitColonInPasswordExample | 0x01-Basic_authentication/api/v1/auth/basic_auth.py:82 | `alice:se:cret` gives `alice` and `se:cret` |
| BasicAuth.SplitNoColonExample | 0x01-Basic_authentication/api/v1/auth/basic_auth.py:81-84 | `alice` gives no pair |
| BasicAuth.UserObjectFromCredentials | 0x01-Basic_authentication/api/v1/auth/basic_auth.py:88-116 | A user exactly when both arguments are strings, the search succeeds with at least one user and the first user's password check passes. That user is the result |
| BasicAuth.CurrentUser | 0x01-Basic_authentication/api/v1/auth/basic_auth.py:118-136 | A user only for a request whose `Authorization` header starts with `Basic `, and only a user the directory's password check accepts |
| BasicAuth.CurrentUserStages | 0x01-Basic_authentication/api/v1/auth/basic_auth.py:118-136 | A user is found only when every stage yields a value. When every stage yields a value, the answer is the directory's answer for the pair the last stage split off, None included |
| BasicAuth.CurrentUserRoundTrip | 0x01-Basic_authentication/api/v1/auth/basic_auth.py:118-136 | A header of `Basic ` plus the base64 of the UTF-8 bytes of `user-id:password` resolves exactly as the directory resolves that pair |
| BasicAuth.CurrentUserAsWritten | 0x01-Basic_authentication/api/v1/auth/basic_auth.py:128-136 | As written, it raises exactly when the Basic field of the header holds a non-ASCII character. Otherwise it answers as the corrected pipeline does |
| BasicAuth.NonAsciiHeaderRaises | 0x01-Basic_authentication/api/v1/auth/basic_auth.py:130-136 | A header of `Basic ` and a credential without spaces that holds a non-ASCII character makes `current_user` raise as written, where the corrected pipeline gives None |
| BasicAuth.NonAsciiHeaderExample | 0x01-Basic_authentication/api/v1/auth/basic_auth.py:130-136 | The header `Basic é` is such a header |
| BasicAuth.NonAsciiNotBase64 | 0x01-Basic_authentication/api/v1/auth/basic_auth.py:58-66 | A credential with a non-ASCII character decodes to None in the corrected decoder |
| Passwords.HashPassword | 0x03-user_authentication_service/auth.py:13-17 | The check accepts the password that was hashed |
| Passwords.Secret | 0x03-user_authentication_service/auth.py:17 | The bytes bcrypt reads are a prefix of the UTF-8 encoding and a NUL terminator, at most 72 long: all of them when the encoding is shorter than 72 bytes, its first 72 bytes otherwise |
| Passwords.CheckPassword | 0x03-user_authentication_service/auth.py:47-50 | `checkpw`: below 72 bytes, the digest's bytes must equal the whole encoding and the terminator; from 72 bytes on, they must equal the encoding's first 72 bytes |
| Passwords.OtherPasswordRejected | 0x03-user_authentication_service/auth.py:47-50 | The check rejects every other password, when both encode to fewer than 72 UTF-8 bytes |
| Passwords.TerminatorCollision | 0x03-user_authentication_service/auth.py:47-50 | A password of 71 bytes and the same password followed by U+0000 are accepted for one another |
| Passwords.SharedPrefixAccepted | 0x03-user_authentication_service/auth.py:47-50 | Beyond 72 bytes, the check accepts every password that shares the first 72 bytes |
| Passwords.SaltsSeparateDigests | 0x03-user_authentication_service/auth.py:17 | Hashing one password under two different salts gives two different digests |
| UserTable.ColumnNamed | 0x03-user_authentication_service/db.py:48-58 | The allow-list: a name gives a column exactly when it is that column's name |
| UserTable.SetField | 0x03-user_authentication_service/db.py:84 | `setattr` gives the named column the value and leaves every other column alone |
| UserTable.MatchesSingle | 0x03-user_authentication_service/db.py:62 | A one-column filter keeps exactly the rows holding that value |
| UserTable.FirstMatchFrom | 0x03-user_authentication_service/db.py:62 | `first()`: the earliest row the filters keep, or none when they keep none |
| UserTable.RowIndex | 0x03-user_authentication_service/db.py:41-67 | `InvalidRequestError` exactly for no filters or an unknown name. `NoResultFound` exactly when no row matches. Otherwise the first matching row |
| UserTable.FindUserBy | 0x03-user_authentication_service/db.py:41-67 | `InvalidRequestError` exactly for no filters or an unknown name. `NoResultFound` exactly when no row matches. Otherwise the first row the filters keep |
| UserTable.RowBySingle | 0x03-user_authentication_service/db.py:62-67 | A value one row holds finds that row; a value no row holds raises `NoResultFound` |
| UserTable.RowById | 0x03-user_authentication_service/db.py:72 | With ids unique, the lookup by a row's id finds that row |
| UserTable.KnownPrefixFrom | 0x03-user_authentication_service/db.py:82-86 | The position of the first keyword name that is not a column, or the end |
| UserTable.UpdateUser | 0x03-user_authentication_service/db.py:69-88 | `NoResultFound`, with rows unchanged, exactly when no row has the id. `ValueError` exactly when a row has it and some name is unknown. Rows with other ids are unchanged |
| UserTable.ApplyAllUntouched | 0x03-user_authentication_service/db.py:82-86 | A column no keyword names keeps its value |
| UserTable.ApplyAllSets | 0x03-user_authentication_service/db.py:82-86 | A column named once ends up holding the value given for it |
| UserTable.UpdateUserEffect | 0x03-user_authentication_service/db.py:69-88 | On the row with the id, the columns named before the first unknown name hold the given values. Every other column and every other row is unchanged |
| UserTable.UpdateUserKeepsIdsUnique | 0x03-user_authentication_service/db.py:82-86 | An update that does not name `id` keeps ids unique |
| UserTable.UpdateOne | 0x03-user_authentication_service/db.py:69-88 | Setting one column of an existing row succeeds and changes only that column of that row |
| UserTable.NextId | 0x03-user_authentication_service/db.py:36-38 | The new id is greater than every id present and one more than the largest, or 1 in an empty table |
| UserTable.AddUser | 0x03-user_authentication_service/db.py:33-39 | Appends one row with the given email and digest, no session and no reset token, and an id no other row has |
| UserTable.AddUserKeepsIdsUnique | 0x03-user_authentication_service/db.py:33-39 | Adding a user keeps ids unique |
| Db.DB.constructor | 0x03-user_authentication_service/db.py:16-22 | A new database has no rows |
| Db.DB.AddUser | 0x03-user_authentication_service/db.py:33-39 | Returns the new row and leaves the rows as `UserTable.AddUser` gives them |
| Db.DB.FindRow | 0x03-user_authentication_service/db.py:41-67 | The key-checking loop and the scan compute `UserTable.RowIndex` |
| Db.DB.FindUserBy | 0x03-user_authentication_service/db.py:41-67 | Returns the row or raises as `UserTable.RowIndex` says, and changes nothing |
| Db.DB.UpdateUser | 0x03-user_authentication_service/db.py:69-88 | The setattr loop leaves the outcome and rows `UserTable.UpdateUser` describes, including the partial update before a bad name |
| Lifecycle.RegisterUser | 0x03-user_authentication_service/auth.py:35-41 | `ValueError`, adding nothing, exactly when the email is taken. Otherwise it appends one row with that email, a digest the password checks against under the salt drawn for it, and no session or reset token |
| Lifecycle.ValidLogin | 0x03-user_authentication_service/auth.py:43-52 | Never raises. False for an unknown email. True only if some row with the email accepts the password |
| Lifecycle.ValidLoginAt | 0x03-user_authentication_service/auth.py:43-52 | Under the invariant, the answer is the check of the password against that user's digest |
| Lifecycle.CreateSession | 0x03-user_authentication_service/auth.py:54-63 | Never raises. None, changing nothing, exactly for an unknown email. Otherwise returns the drawn token |
| Lifecycle.CreateSessionAt | 0x03-user_authentication_service/auth.py:54-63 | Under the invariant, only that user's session id changes, to the token |
| Lifecycle.GetUserFromSessionId | 0x03-user_authentication_service/auth.py:65-73 | Never raises. None exactly for a missing session id or one no row holds. Otherwise a row holding it |
| Lifecycle.GetUserFromSessionIdAt | 0x03-user_authentication_service/auth.py:65-73 | Under the invariant, a live session id resolves to its own row |
| Lifecycle.DestroySession | 0x03-user_authentication_service/auth.py:75-83 | Never raises. Rows with other ids are unchanged, and so are all rows for a missing id |
| Lifecycle.DestroySessionAt | 0x03-user_authentication_service/auth.py:75-83 | Under the invariant, only that user's session id changes, to None |
| Lifecycle.GetResetPasswordToken | 0x03-user_authentication_service/auth.py:85-94 | As intended: `ValueError`, changing nothing, exactly for an unknown email. Otherwise returns the drawn token |
| Lifecycle.GetResetPasswordTokenAt | 0x03-user_authentication_service/auth.py:85-94 | Under the invariant, only that user's reset token changes, to the drawn token |
| Lifecycle.GetResetPasswordTokenAsWritten | 0x03-user_authentication_service/auth.py:85-94 | As written: `ValueError` and no change, for every email |
| Lifecycle.ResetTokenNeverIssuedAsWritten | 0x03-user_authentication_service/auth.py:85-94 | For a registered email, the code as written raises `ValueError` and changes nothing, where the intended definition issues the token |
| Lifecycle.PasswordChangesAt | 0x03-user_authentication_service/auth.py:103-106 | With ids unique, the new digest and the cleared token land together on that one row |
| Lifecycle.ResetTokenLookup | 0x03-user_authentication_service/auth.py:98-101 | The intended lookup by reset token never raises `InvalidRequestError`. It raises `NoResultFound` exactly when no row holds the token, and otherwise finds a row holding it |
| Lifecycle.UpdatePassword | 0x03-user_authentication_service/auth.py:96-106 | As intended: `ValueError`, changing nothing, exactly when no row holds the token. Otherwise it succeeds |
| Lifecycle.UpdatePasswordAt | 0x03-user_authentication_service/auth.py:96-106 | Under the invariant, only the row holding the token changes: new digest, no reset token |
| Lifecycle.ResetNeverConsumedAsWritten | 0x03-user_authentication_service/auth.py:98-99 | As written, a pending token is never consumed (`NameError`, nothing changes), where the intended definition consumes it |
| Lifecycle.UpdatePasswordAsWritten | 0x03-user_authentication_service/auth.py:96-101 | As written: `NameError` and no change, for every token |
| Lifecycle.RowByEmail | 0x03-user_authentication_service/auth.py:38 | Under the invariant, the lookup by a user's email finds that user |
| Lifecycle.RegisterUserKeepsInv | 0x03-user_authentication_service/auth.py:35-41 | Registration keeps ids and emails unique and tokens unshared |
| Lifecycle.CreateSessionKeepsInv | 0x03-user_authentication_service/auth.py:54-63 | With a token no row holds as a session id, creating a session keeps the invariant |
| Lifecycle.DestroySessionKeepsInv | 0x03-user_authentication_service/auth.py:75-83 | Destroying a session keeps the invariant |
| Lifecycle.GetResetPasswordTokenKeepsInv | 0x03-user_authentication_service/auth.py:85-94 | With a token no row holds as a reset token, issuing it keeps the invariant |
| Lifecycle.UpdatePasswordKeepsInv | 0x03-user_authentication_service/auth.py:96-106 | Consuming a reset token keeps the invariant |
| Lifecycle.RegisterThenLogin | 0x03-user_authentication_service/auth.py:35-52 | A new email registers; its password then logs in and no other does, when both encode to fewer than 72 UTF-8 bytes; registering it again raises `ValueError` and changes nothing |
| Lifecycle.SessionLifecycle | 0x03-user_authentication_service/auth.py:54-83 | A new session resolves to its user and the user's previous session id stops resolving. Destroying the session revokes it, and destroying it again changes nothing |
| Lifecycle.ResetLifecycle | 0x03-user_authentication_service/auth.py:85-106 | The intended reset flow: the token is issued and changes the password. Then the new password logs in, the old one does not when both encode to fewer than 72 UTF-8 bytes, and the token cannot be used again |
| UserAuth.Auth.constructor | 0x03-user_authentication_service/auth.py:31-33 | The service starts over a new, empty database |
| UserAuth.Auth.RegisterUser | 0x03-user_authentication_service/auth.py:35-41 | Returns and leaves the rows as `Lifecycle.RegisterUser` says |
| UserAuth.Auth.ValidLogin | 0x03-user_authentication_service/auth.py:43-52 | Answers `Lifecycle.ValidLogin` and changes nothing |
| UserAuth.Auth.CreateSession | 0x03-user_authentication_service/auth.py:54-63 | Returns and leaves the rows as `Lifecycle.CreateSession` says |
| UserAuth.Auth.GetUserFromSessionId | 0x03-user_authentication_service/auth.py:65-73 | Answers `Lifecycle.GetUserFromSessionId` and changes nothing |
| UserAuth.Auth.DestroySession | 0x03-user_authentication_service/auth.py:75-83 | Leaves the rows as `Lifecycle.DestroySession` says |
| UserAuth.Auth.GetResetPasswordToken | 0x03-user_authentication_service/auth.py:85-94 | Returns and leaves the rows as the intended `Lifecycle.GetResetPasswordToken` says |
| UserAuth.Auth.UpdatePassword | 0x03-user_authentication_service/auth.py:96-106 | Leaves the outcome and rows as the intended `Lifecycle.UpdatePassword` says |

## Left out

- The Flask applications, routes, `before_request` hook, cookies, `abort` and `redirect` are HTTP plumbing over the modelled functions and are not modelled. Neither is the configuration read from the environment.
- PathPolicy.AuthorizationHeader: headers are an exact-name map. Flask's case-insensitive header lookup is not modelled.
- BasicAuth.UserObjectFromCredentials: the user model (`User.search`, `User.is_valid_password`, models/user.py) is not part of this model. It is a `Directory` parameter, and a search that raises is a search that gives `None`. An exception raised inside `is_valid_password` is not modelled.
- 0x00-personal_data/encrypt_password.py and bcrypt are not part of this model beyond the symbolic `Passwords` digest.
- Passwords.CheckPassword: bcrypt's cost factor, salt randomness and constant-time comparison are not modelled. The NUL terminator and the 72-byte cut follow bcrypt 4. Other releases differ, and the model does not capture them:
  - bcrypt 3 raises `ValueError` for a password that contains U+0000. So do `hashpw` and `checkpw`, which makes `Lifecycle.ValidLogin` ("never raises") and `Lifecycle.RegisterUser` ("`ValueError` exactly when the email is taken") untrue under bcrypt 3 for such a password.
  - bcrypt 5.0 raises `ValueError` for a password longer than 72 bytes instead of cutting it.
- Passwords.OtherPasswordRejected: stated only for passwords that encode to fewer than 72 UTF-8 bytes. bcrypt cannot tell apart longer passwords that share their first 72 bytes (`Passwords.SharedPrefixAccepted`). Nor can it tell a 71-byte password from the same password followed by U+0000 (`Passwords.TerminatorCollision`).
- Lifecycle.RegisterThenLogin: "no other password logs in" is stated for passwords that encode to fewer than 72 UTF-8 bytes, for the same reasons.
- Lifecycle.ResetLifecycle: "the old password no longer logs in" is stated for passwords that encode to fewer than 72 UTF-8 bytes, for the same reasons.
- A Dafny `char` cannot hold a lone surrogate, so the `UnicodeEncodeError` that `password.encode('utf-8')` raises for one (auth.py:17, 47-48) is not modelled.
- `_generate_uuid` is not modelled as a function. Tokens are parameters, and their freshness is the `SessionUnused` and `ResetUnused` precondition of the lemmas that need it.
- SQLAlchemy's engine, session, commit, rollback and the sqlite file are not modelled. The rows are what the session sees, with pending changes included, as autoflush shows them to later queries.
- The models/user.py table definition is not part of this model. `id` is taken to be an integer primary key that SQLite numbers one past the largest present. The table's rows play the part of an id counter.
- UserTable.UpdateUser: each value must have its column's declared type, whereas SQLAlchemy reports a wrongly typed value only at flush. The IntegrityError a commit raises when `id` is changed to an id another row holds is not modelled.
- UserAuth.Auth.DestroySession: the user id is an integer. The annotation says `str`, which sqlite would compare after conversion.
- UserAuth.Auth.UpdatePassword: the reset token is a string. A `None` token is not modelled, although it is the token the one caller sends. The PUT route checks for a `reset_token` field (0x03-user_authentication_service/app.py:158) but passes `request.form.get("resetn")` (app.py:165-169), which is `None` for the form it accepts. Given `None`, the intended `update_password` would run `filter_by(reset_token=None)`, an `IS NULL` test. That test would set a new password on the first user with no pending reset, so the intended definition is not safe where it is called.
- Python-version differences in `b64decode` strictness are not modelled. The model follows the strict decoder: `=` only at the end of the last group, at most two of them, and trailing bits not checked.
- BasicAuth.ExtractFromBasicHeader is stated for every credential. It takes the place of a concrete lemma about the header `Basic YWxpY2U6c2VjcmV0`.
- There is no concurrency in the code, and none in the model.

## Findings

| source | as written | input that shows it | evidently intended | confidence | as-written member | corrected member |
|---|---|---|---|---|---|---|
| 0x01-Basic_authentication/api/v1/auth/basic_auth.py:58-66 | `b64decode` first encodes a `str` argument as ASCII and raises `ValueError` for any other character. The handler catches only `binascii.Error` and `UnicodeDecodeError`, so the exception escapes `current_user` | the header `Basic é` | decoding fails with `None`, so the request is refused like any other bad credential | high; not executed | BasicAuth.NonAsciiHeaderRaises | BasicAuth.DecodeBase64AuthorizationHeader |
| 0x03-user_authentication_service/auth.py:92-94 | the update names the keyword `resetn`, which is not a column, so `update_user` raises `ValueError` for every registered email and no token is ever stored | any registered email | store the token in `reset_token` and return it | high; not executed | Lifecycle.ResetTokenNeverIssuedAsWritten | Lifecycle.GetResetPasswordToken |
| 0x03-user_authentication_service/auth.py:98-99 | the lookup reads the undefined name `resetn`, so every call raises `NameError` and no token is consumed | any call, e.g. with a token a row holds | find the row by `reset_token`, give it the new digest and clear the token in one update | high; not executed | Lifecycle.ResetNeverConsumedAsWritten | Lifecycle.UpdatePassword |

With line 99 corrected, the update at lines 103-106 would still name `resetn`. That update would set the new digest and then raise `ValueError` before clearing the token, so the token could be used again. `Lifecycle.UpdatePassword` clears `reset_token`, and `Lifecycle.ResetLifecycle` proves the token is spent.
