/**
 * The Basic-credential policy: the receiving (server) side of the HTTP Basic scheme (section 2
 * of RFC 7617). It takes the credential out of the `Authorization` header, decodes it, splits it
 * into user-id and password and asks the user directory for a matching user. Every stage that
 * fails gives `None` instead of raising.
 */
module BasicAuth {
  import opened Wrappers
  import opened PyStr
  import Utf8
  import Base64
  import PathPolicy

  /** An argument as these methods inspect it: Python's `None`, a `str`, or any other object. */
  datatype Value = Null | Str(s: string) | NotAString

  /** The exception that escapes decoding as the source is written. */
  datatype Exception = ValueError

  /** What the user model (`User.search` and `User.is_valid_password`) offers; its code is not
      part of this model. `search` gives `None` where the lookup raises. */
  datatype Directory = Directory(
    search: string -> Option<seq<PathPolicy.User>>,
    isValidPassword: (PathPolicy.User, string) -> bool)

  const Scheme: string := "Basic "

  function ValueOf(o: Option<string>): (v: Value)
    ensures v.Str? <==> o.Some?
    ensures o.Some? ==> v.s == o.value
  {
    match o
    case None => Null
    case Some(s) => Str(s)
  }

  /** `extract_base64_authorization_header`: the stripped text between the leading `Basic ` and
      the next `Basic `, or `None` when the header is not a string starting with `Basic `. */
  function ExtractBase64AuthorizationHeader(header: Value): (r: Option<string>)
    ensures r.Some? <==> header.Str? && Scheme <= header.s
    ensures r.Some? ==> r.value == Strip(BeforeFirst(header.s[|Scheme|..], Scheme))
    ensures r.Some? ==> Find(r.value, Scheme).None?
  {
    match header
    case Str(s) =>
      if Scheme <= s then
        BasicField(s);
        Some(Strip(Split(s, Scheme)[1]))
      else None
    case _ => None
  }

  /** The piece `split` gives after the leading `Basic ` runs up to the next `Basic `, and
      stripping it leaves no `Basic ` in it. */
  lemma BasicField(s: string)
    requires Scheme <= s
    ensures |Split(s, Scheme)| >= 2
    ensures Split(s, Scheme)[1] == BeforeFirst(s[|Scheme|..], Scheme)
    ensures Find(Strip(Split(s, Scheme)[1]), Scheme).None?
  {
    SchemeFoundFirst(s);
    FieldHasNoScheme(s);
    StripKeepsAbsence(Split(s, Scheme)[1], Scheme);
  }

  lemma SchemeFoundFirst(s: string)
    requires Scheme <= s
    ensures Find(s, Scheme) == Some(0)
    ensures |Split(s, Scheme)| >= 2 && Split(s, Scheme)[1] == Split(s[|Scheme|..], Scheme)[0]
  {
    assert s[0..|Scheme|] == Scheme;
    assert OccursAt(s, Scheme, 0);
  }

  /** The piece `split` gives after the leading `Basic ` holds no further `Basic `. */
  lemma FieldHasNoScheme(s: string)
    requires Scheme <= s
    ensures |Split(s, Scheme)| >= 2 && Find(Split(s, Scheme)[1], Scheme).None?
  {
    SchemeFoundFirst(s);
    var t := s[|Scheme|..];
    match Find(t, Scheme)
    case None =>
    case Some(i) => NoEarlierOccurrence(t, Scheme, i);
  }

  /** A text none of whose characters is a space holds no `Basic `. */
  lemma NoSchemeWithoutSpace(t: string)
    requires forall i :: 0 <= i < |t| ==> t[i] != ' '
    ensures Find(t, Scheme).None?
  {
    forall i | 0 <= i
      ensures !OccursAt(t, Scheme, i)
    {
      if i + |Scheme| <= |t| {
        assert t[i..i + |Scheme|][5] == t[i + 5] != ' ';
      }
    }
  }

  /** Round trip with the header a client sends: `Basic ` followed by a credential that holds no
      `Basic ` and no surrounding whitespace comes back out unchanged. */
  lemma ExtractFromBasicHeader(t: string)
    requires Find(t, Scheme).None?
    requires t == [] || (!IsSpace(t[0]) && !IsSpace(t[|t| - 1]))
    ensures ExtractBase64AuthorizationHeader(Str(Scheme + t)) == Some(t)
  {
    var s := Scheme + t;
    assert Scheme <= s;
    SchemeFoundFirst(s);
    assert s[|Scheme|..] == t;
    StripUnchanged(t);
  }

  /** Another scheme, or the scheme name in lower case, gives `None`: the prefix test is
      case-sensitive, although section 2.1 of RFC 7235 makes scheme names case-insensitive. */
  lemma ExtractOtherSchemeExample()
    ensures ExtractBase64AuthorizationHeader(Str("Bearer xyz")) == None
    ensures ExtractBase64AuthorizationHeader(Str("basic YWxpY2U6c2VjcmV0")) == None
  {
    assert "Bearer xyz"[1] != Scheme[1];
    assert "basic YWxpY2U6c2VjcmV0"[0] != Scheme[0];
  }

  /** `decode_base64_authorization_header`: the text whose UTF-8 bytes the argument encodes in
      strict base64, or `None` for a non-string, a character outside the alphabet, bad padding or
      bytes that are not UTF-8. */
  function DecodeBase64AuthorizationHeader(encoded: Value): (r: Option<string>)
    ensures !encoded.Str? ==> r.None?
    ensures r.Some? ==> Base64.WellFormed(encoded.s)
    ensures r.Some? ==> Base64.Decode(encoded.s).Some? && Utf8.Encode(r.value) == Base64.Decode(encoded.s).value
  {
    match encoded
    case Str(s) =>
      Base64.DecodeDefined(s);
      (match Base64.Decode(s)
       case None => None
       case Some(bytes) => Utf8.Decode(bytes))
    case _ => None
  }

  /** Bytes that are no text's UTF-8 encoding give `None`, even in well-formed base64. */
  lemma NonUtf8Rejected(bs: seq<Utf8.byte>)
    requires forall t :: Utf8.Encode(t) != bs
    ensures DecodeBase64AuthorizationHeader(Str(Base64.Encode(bs))) == None
  {
    Base64.DecodeEncode(bs);
  }

  /** `Basic 0Mw=` carries the bytes D0 CC, a lead byte followed by a byte that cannot continue
      it, and decodes to `None`. */
  lemma NonUtf8Example()
    ensures DecodeBase64AuthorizationHeader(Str("0Mw=")) == None
  {
    var bs: seq<Utf8.byte> := [0xD0, 0xCC];
    assert Base64.DigitValue('0') == Some(52) && Base64.DigitValue('M') == Some(12) && Base64.DigitValue('w') == Some(48);
    assert Base64.DecodeGroup("0Mw=", true) == Some(bs);
    assert "0Mw="[..4] == "0Mw=" && "0Mw="[4..] == [];
    assert Base64.Decode("0Mw=") == Some(bs + []);
    assert bs + [] == bs;
    assert Utf8.DecodeFirst(bs) == None;
  }

  /** Round trip: decoding the base64 encoding of the UTF-8 bytes of any text gives the text. */
  lemma DecodeRoundTrip(text: string)
    ensures DecodeBase64AuthorizationHeader(Str(Base64.Encode(Utf8.Encode(text)))) == Some(text)
  {
    Base64.DecodeEncode(Utf8.Encode(text));
    Utf8.DecodeEncode(text);
  }

  predicate IsAscii(s: string)
  {
    forall i :: 0 <= i < |s| ==> s[i] as int < 0x80
  }

  /** `decode_base64_authorization_header` as written: `b64decode` turns a `str` into bytes with the
      ASCII codec first and raises `ValueError` for any other character, and the method catches
      only `binascii.Error` and `UnicodeDecodeError`, so that exception escapes. */
  function DecodeBase64AuthorizationHeaderAsWritten(encoded: Value): (r: Result<Option<string>, Exception>)
    ensures r.Err? <==> encoded.Str? && !IsAscii(encoded.s)
    ensures r.Ok? ==> r.value == DecodeBase64AuthorizationHeader(encoded)
  {
    match encoded
    case Str(s) => if IsAscii(s) then Ok(DecodeBase64AuthorizationHeader(encoded)) else Err(ValueError)
    case _ => Ok(None)
  }

  /** The input that shows the gap: a non-ASCII credential raises instead of giving `None`. */
  lemma NonAsciiCredentialRaises()
    ensures DecodeBase64AuthorizationHeaderAsWritten(Str("é")) == Err(ValueError)
    ensures DecodeBase64AuthorizationHeader(Str("é")) == None
  {
    assert !IsAscii("é") by { assert "é"[0] as int == 0xE9; }
  }

  /** `extract_user_credentials`: the user-id before the first `:` and the password after it, or
      `(None, None)` for a non-string or a text without `:`. */
  function ExtractUserCredentials(decoded: Value): (r: (Option<string>, Option<string>))
    ensures r.0.Some? <==> r.1.Some?
    ensures r.0.Some? <==> decoded.Str? && ':' in decoded.s
    ensures r.0.Some? ==> ':' !in r.0.value && decoded.s == r.0.value + ":" + r.1.value
  {
    match decoded
    case Str(s) =>
      var parts := SplitOnce(s, ":");
      FindChar(s, ':');
      if |parts| == 2 then
        FindChar(parts[0], ':');
        (Some(parts[0]), Some(parts[1]))
      else (None, None)
    case _ => (None, None)
  }

  /** Only the first `:` separates: a user-id without `:` and any password come back apart. */
  lemma SplitCredentials(email: string, password: string)
    requires ':' !in email
    ensures ExtractUserCredentials(Str(email + ":" + password)) == (Some(email), Some(password))
  {
    var r := ExtractUserCredentials(Str(email + ":" + password));
    var s := email + ":" + password;
    assert s[|email|] == ':';
    var e, p := r.0.value, r.1.value;
    assert forall k :: 0 <= k < |email| ==> s[k] == email[k];
    assert forall k :: 0 <= k < |e| ==> s[k] == e[k];
    assert s[|e|] == ':';
    assert |e| == |email|;
    assert e == s[..|e|] == email;
    assert p == s[|e| + 1..] == password;
  }

  /** A password may itself hold `:`, since section 2 of RFC 7617 forbids a colon only in the
      user-id. */
  lemma SplitColonInPasswordExample()
    ensures ExtractUserCredentials(Str("alice:se:cret")) == (Some("alice"), Some("se:cret"))
  {
    assert "alice" + ":" + "se:cret" == "alice:se:cret";
    SplitCredentials("alice", "se:cret");
  }

  /** A decoded credential without `:` gives no pair. */
  lemma SplitNoColonExample()
    ensures ExtractUserCredentials(Str("alice")) == (None, None)
  {
    assert ':' !in "alice";
  }

  /** `user_object_from_credentials`: the first user the directory finds for the user-id, when
      both arguments are strings, the lookup succeeds with at least one user, and that user's
      password check passes; `None` otherwise. */
  function UserObjectFromCredentials(email: Value, password: Value, directory: Directory): (r: Option<PathPolicy.User>)
    ensures r.Some? <==>
      email.Str? && password.Str? && directory.search(email.s).Some? && |directory.search(email.s).value| > 0
      && directory.isValidPassword(directory.search(email.s).value[0], password.s)
    ensures r.Some? ==> r.value == directory.search(email.s).value[0]
  {
    if !email.Str? || !password.Str? then None
    else
      match directory.search(email.s)
      case None => None
      case Some(users) =>
        if users == [] then None
        else if !directory.isValidPassword(users[0], password.s) then None
        else Some(users[0])
  }

  /** `current_user`: header, then Basic payload, then decoded text, then the user-id/password
      pair, then the directory. */
  function CurrentUser(request: Option<PathPolicy.Request>, directory: Directory): (r: Option<PathPolicy.User>)
    ensures r.Some? ==> PathPolicy.AuthorizationHeader(request).Some? && Scheme <= PathPolicy.AuthorizationHeader(request).value
    ensures r.Some? ==> exists password :: directory.isValidPassword(r.value, password)
  {
    var header := PathPolicy.AuthorizationHeader(request);
    var payload := ExtractBase64AuthorizationHeader(ValueOf(header));
    var decoded := DecodeBase64AuthorizationHeader(ValueOf(payload));
    var credentials := ExtractUserCredentials(ValueOf(decoded));
    UserObjectFromCredentials(ValueOf(credentials.0), ValueOf(credentials.1), directory)
  }

  /** A stage that yields `None` ends the pipeline with `None`; when every stage succeeds the user
      is the directory's answer for the pair the last stage split off. */
  lemma CurrentUserStages(request: Option<PathPolicy.Request>, directory: Directory)
    ensures CurrentUser(request, directory).Some? ==>
      var header := PathPolicy.AuthorizationHeader(request);
      && header.Some?
      && var payload := ExtractBase64AuthorizationHeader(Str(header.value));
      && payload.Some?
      && var decoded := DecodeBase64AuthorizationHeader(Str(payload.value));
      && decoded.Some?
      && var credentials := ExtractUserCredentials(Str(decoded.value));
      && credentials.0.Some? && credentials.1.Some?
      && CurrentUser(request, directory)
         == UserObjectFromCredentials(Str(credentials.0.value), Str(credentials.1.value), directory)
    ensures
      var header := PathPolicy.AuthorizationHeader(request);
      header.Some? ==>
      var payload := ExtractBase64AuthorizationHeader(Str(header.value));
      payload.Some? ==>
      var decoded := DecodeBase64AuthorizationHeader(Str(payload.value));
      decoded.Some? ==>
      var credentials := ExtractUserCredentials(Str(decoded.value));
      credentials.0.Some? ==>
      CurrentUser(request, directory)
      == UserObjectFromCredentials(Str(credentials.0.value), Str(credentials.1.value), directory)
  {
  }

  /** End to end: a request whose `Authorization` header is `Basic ` and the base64 of the UTF-8
      bytes of `user-id:password` is resolved exactly as the directory resolves that pair. */
  lemma CurrentUserRoundTrip(request: PathPolicy.Request, email: string, password: string, directory: Directory)
    requires ':' !in email
    requires "Authorization" in request.headers
    requires request.headers["Authorization"] == Scheme + Base64.Encode(Utf8.Encode(email + ":" + password))
    ensures CurrentUser(Some(request), directory) == UserObjectFromCredentials(Str(email), Str(password), directory)
  {
    var t := Base64.Encode(Utf8.Encode(email + ":" + password));
    forall i | 0 <= i < |t|
      ensures t[i] != ' ' && !IsSpace(t[i])
    {
      assert Base64.IsDigit(t[i]) || t[i] == Base64.Pad;
    }
    NoSchemeWithoutSpace(t);
    ExtractFromBasicHeader(t);
    DecodeRoundTrip(email + ":" + password);
    SplitCredentials(email, password);
    var header := PathPolicy.AuthorizationHeader(Some(request));
    assert header == Some(Scheme + t);
    var payload := ExtractBase64AuthorizationHeader(ValueOf(header));
    assert payload == Some(t);
    var decoded := DecodeBase64AuthorizationHeader(ValueOf(payload));
    assert decoded == Some(email + ":" + password);
    var credentials := ExtractUserCredentials(ValueOf(decoded));
    assert credentials == (Some(email), Some(password));
  }

  /** `current_user` as written: the decoding stage can raise, and nothing above it catches. */
  function CurrentUserAsWritten(request: Option<PathPolicy.Request>, directory: Directory): (r: Result<Option<PathPolicy.User>, Exception>)
    ensures r.Ok? ==> r.value == CurrentUser(request, directory)
    ensures var payload := ExtractBase64AuthorizationHeader(ValueOf(PathPolicy.AuthorizationHeader(request)));
      r.Err? <==> payload.Some? && !IsAscii(payload.value)
  {
    var header := PathPolicy.AuthorizationHeader(request);
    var payload := ExtractBase64AuthorizationHeader(ValueOf(header));
    match DecodeBase64AuthorizationHeaderAsWritten(ValueOf(payload))
    case Err(e) => Err(e)
    case Ok(decoded) =>
      var credentials := ExtractUserCredentials(ValueOf(decoded));
      Ok(UserObjectFromCredentials(ValueOf(credentials.0), ValueOf(credentials.1), directory))
  }

  /** A request whose `Authorization` header is `Basic ` and a credential holding a non-ASCII
      character (and no space) makes `current_user` raise as written; the corrected pipeline
      answers `None`, so the request is refused like any other bad credential. */
  lemma NonAsciiHeaderRaises(request: PathPolicy.Request, directory: Directory, t: string)
    requires forall i :: 0 <= i < |t| ==> t[i] != ' ' && !IsSpace(t[i])
    requires !IsAscii(t)
    requires "Authorization" in request.headers && request.headers["Authorization"] == Scheme + t
    ensures CurrentUserAsWritten(Some(request), directory) == Err(ValueError)
    ensures CurrentUser(Some(request), directory) == None
  {
    HeaderPayload(request, t);
    NonAsciiNotBase64(t);
  }

  /** The Basic field of a request whose header is `Basic ` and a credential without spaces. */
  lemma HeaderPayload(request: PathPolicy.Request, t: string)
    requires forall i :: 0 <= i < |t| ==> t[i] != ' ' && !IsSpace(t[i])
    requires "Authorization" in request.headers && request.headers["Authorization"] == Scheme + t
    ensures ExtractBase64AuthorizationHeader(ValueOf(PathPolicy.AuthorizationHeader(Some(request)))) == Some(t)
  {
    NoSchemeWithoutSpace(t);
    ExtractFromBasicHeader(t);
    assert PathPolicy.AuthorizationHeader(Some(request)) == Some(Scheme + t);
  }

  /** Base64 text is ASCII, so a credential with any other character does not decode. */
  lemma NonAsciiNotBase64(t: string)
    requires !IsAscii(t)
    ensures DecodeBase64AuthorizationHeader(Str(t)) == None
  {
    var k :| 0 <= k < |t| && t[k] as int >= 0x80;
    assert !Base64.IsDigit(t[k]) && t[k] != Base64.Pad;
  }

  /** The header `Basic é` is such a request. */
  lemma NonAsciiHeaderExample(request: PathPolicy.Request, directory: Directory)
    requires "Authorization" in request.headers && request.headers["Authorization"] == "Basic é"
    ensures CurrentUserAsWritten(Some(request), directory) == Err(ValueError)
    ensures CurrentUser(Some(request), directory) == None
  {
    var t := "é";
    assert Scheme + t == "Basic é";
    assert t[0] as int == 0xE9;
    NonAsciiHeaderRaises(request, directory, t);
  }
}
