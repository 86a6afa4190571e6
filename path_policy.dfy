/**
 * The base authentication policy of the Basic-authentication API: which request
 * paths need credentials, where the credential comes from, and the no-op
 * principal lookup that concrete schemes replace.
 */
module PathPolicy {
  import opened Wrappers
  import opened PyStr

  /** The parts of an inbound request the policy looks at; header names are as the HTTP layer files them. */
  datatype Request = Request(path: string, headers: map<string, string>)

  /** A user the application knows; only its identity matters to the policy. */
  datatype User = User(id: string)

  /** An excluded-path entry exempts a path (already stripped of trailing slashes) either as a
      wildcard (`/api/v1/stat*` exempts every path starting with `/api/v1/stat`) or by equality
      once the entry's own trailing slashes are dropped. */
  predicate Exempts(entry: string, path: string)
  {
    (|entry| > 0 && entry[|entry| - 1] == '*' && entry[..|entry| - 1] <= path)
    || path == RStrip(entry, Some({'/'}))
  }

  /** The loop over the excluded paths, which returns as soon as one entry exempts the path. */
  predicate AnyExempts(entries: seq<string>, path: string)
    ensures AnyExempts(entries, path) <==> exists i :: 0 <= i < |entries| && Exempts(entries[i], path)
    decreases |entries|
  {
    if entries == [] then false
    else if Exempts(entries[0], path) then true
    else
      assert forall i :: 1 <= i < |entries| ==> entries[i] == entries[1..][i - 1];
      AnyExempts(entries[1..], path)
  }

  /** `Auth.require_auth`: whether `path` needs credentials, given `excluded` (Python's `None` is `None`). */
  function RequireAuth(path: Option<string>, excluded: Option<seq<string>>): (r: bool)
    ensures path == None || path == Some([]) ==> r
    ensures excluded == None || excluded == Some([]) ==> r
    ensures path.Some? && path.value != [] && excluded.Some? ==>
      (!r <==> exists i :: 0 <= i < |excluded.value| && Exempts(excluded.value[i], RStrip(path.value, Some({'/'}))))
  {
    if path.None? || path.value == [] then true
    else if excluded.None? || excluded.value == [] then true
    else !AnyExempts(excluded.value, RStrip(path.value, Some({'/'})))
  }

  /** `Auth.authorization_header`: the request's `Authorization` header, if there is a request and it has one. */
  function AuthorizationHeader(request: Option<Request>): (r: Option<string>)
    ensures r.Some? <==> request.Some? && "Authorization" in request.value.headers
    ensures r.Some? ==> r.value == request.value.headers["Authorization"]
  {
    match request
    case None => None
    case Some(req) => if "Authorization" in req.headers then Some(req.headers["Authorization"]) else None
  }

  /** `Auth.current_user` of the base policy: it never resolves a user. */
  function CurrentUser(request: Option<Request>): (r: Option<User>)
    ensures r == None
  {
    None
  }

  /** Appending a slash to a non-empty path never changes the decision: every trailing slash is stripped. */
  lemma TrailingSlashIgnored(p: string, excluded: Option<seq<string>>)
    requires p != []
    ensures RequireAuth(Some(p + "/"), excluded) == RequireAuth(Some(p), excluded)
  {
    assert (p + "/")[..|p|] == p;
  }

  /** An entry equal to the stripped path, up to the entry's own trailing slashes, exempts it. */
  lemma ExactEntryExempts(p: string, excluded: seq<string>, i: nat)
    requires p != [] && i < |excluded|
    requires RStrip(p, Some({'/'})) == RStrip(excluded[i], Some({'/'}))
    ensures !RequireAuth(Some(p), Some(excluded))
  {
    assert Exempts(excluded[i], RStrip(p, Some({'/'})));
  }

  /** A wildcard entry exempts every path whose stripped form starts with the entry minus its `*`. */
  lemma WildcardEntryExempts(p: string, excluded: seq<string>, i: nat)
    requires p != [] && i < |excluded|
    requires |excluded[i]| > 0 && excluded[i][|excluded[i]| - 1] == '*'
    requires excluded[i][..|excluded[i]| - 1] <= RStrip(p, Some({'/'}))
    ensures !RequireAuth(Some(p), Some(excluded))
  {
    assert Exempts(excluded[i], RStrip(p, Some({'/'})));
  }

  /** The decision depends only on which entries are present, not on their order or repetition. */
  lemma OrderIrrelevant(p: Option<string>, e1: seq<string>, e2: seq<string>)
    requires e1 != [] && e2 != []
    requires forall x :: x in e1 <==> x in e2
    ensures RequireAuth(p, Some(e1)) == RequireAuth(p, Some(e2))
  {
    if p.Some? && p.value != [] {
      var q := RStrip(p.value, Some({'/'}));
      if exists i :: 0 <= i < |e1| && Exempts(e1[i], q) {
        var i :| 0 <= i < |e1| && Exempts(e1[i], q);
        assert e1[i] in e2;
        var j :| 0 <= j < |e2| && e2[j] == e1[i];
        assert Exempts(e2[j], q);
      }
      if exists j :: 0 <= j < |e2| && Exempts(e2[j], q) {
        var j :| 0 <= j < |e2| && Exempts(e2[j], q);
        assert e2[j] in e1;
        var i :| 0 <= i < |e1| && e1[i] == e2[j];
        assert Exempts(e1[i], q);
      }
    }
  }

  /** A slash appended to an entry that is not a wildcard does not change the decision; on a
      wildcard entry it would turn the wildcard into an exact entry. */
  lemma EntryTrailingSlashIgnored(p: Option<string>, excluded: seq<string>, i: nat)
    requires i < |excluded|
    requires excluded[i] == [] || excluded[i][|excluded[i]| - 1] != '*'
    ensures RequireAuth(p, Some(excluded[i := excluded[i] + "/"])) == RequireAuth(p, Some(excluded))
  {
    var e := excluded[i];
    var e' := e + "/";
    assert e'[..|e|] == e;
    assert RStrip(e', Some({'/'})) == RStrip(e, Some({'/'}));
    if p.Some? && p.value != [] {
      var q := RStrip(p.value, Some({'/'}));
      assert Exempts(e', q) <==> Exempts(e, q);
      var ex' := excluded[i := e'];
      if exists k :: 0 <= k < |excluded| && Exempts(excluded[k], q) {
        var k :| 0 <= k < |excluded| && Exempts(excluded[k], q);
        assert Exempts(ex'[k], q);
      }
      if exists k :: 0 <= k < |ex'| && Exempts(ex'[k], q) {
        var k :| 0 <= k < |ex'| && Exempts(ex'[k], q);
        assert Exempts(excluded[k], q);
      }
    }
  }

  /** A wildcard example: `/api/v1/admin*` exempts `/api/v1/admin` and
      `/api/v1/admin/x` but not `/api/v1/adm`. */
  lemma WildcardExample()
    ensures !RequireAuth(Some("/api/v1/admin"), Some(["/api/v1/admin*"]))
    ensures !RequireAuth(Some("/api/v1/admin/x"), Some(["/api/v1/admin*"]))
    ensures RequireAuth(Some("/api/v1/adm"), Some(["/api/v1/admin*"]))
  {
    var e := "/api/v1/admin*";
    assert e[..|e| - 1] == "/api/v1/admin";
    assert RStrip("/api/v1/admin", Some({'/'})) == "/api/v1/admin";
    assert RStrip("/api/v1/admin/x", Some({'/'})) == "/api/v1/admin/x";
    assert "/api/v1/admin" <= "/api/v1/admin/x";
    assert RStrip("/api/v1/adm", Some({'/'})) == "/api/v1/adm";
    assert RStrip(e, Some({'/'})) == e;
    assert !("/api/v1/admin" <= "/api/v1/adm");
  }
}
