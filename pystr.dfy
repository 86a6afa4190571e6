/** The few methods of Python's `str` that the authentication code relies on. */
module PyStr {
  import opened Wrappers

  /** Python's `str.isspace()` for one character: the characters `str.strip()` removes by default. */
  predicate IsSpace(c: char)
  {
    || '\t' <= c <= '\r' || '\U{001C}' <= c <= ' ' || c == '\U{0085}' || c == '\U{00A0}'
    || c == '\U{1680}' || '\U{2000}' <= c <= '\U{200A}' || c == '\U{2028}' || c == '\U{2029}'
    || c == '\U{202F}' || c == '\U{205F}' || c == '\U{3000}'
  }

  /** Whether `rstrip` removes `c`: the characters of `chars` when given,
      whitespace when `chars` is `None`, as in Python. */
  predicate Strippable(c: char, chars: Option<set<char>>)
  {
    match chars
    case None => IsSpace(c)
    case Some(cs) => c in cs
  }

  /** `s.rstrip(chars)`: the longest prefix of `s` that does not end in a strippable character. */
  function RStrip(s: string, chars: Option<set<char>>): (r: string)
    ensures r <= s
    ensures r == [] || !Strippable(r[|r| - 1], chars)
    ensures forall i :: |r| <= i < |s| ==> Strippable(s[i], chars)
    decreases |s|
  {
    if |s| > 0 && Strippable(s[|s| - 1], chars) then RStrip(s[..|s| - 1], chars) else s
  }

  /** `s.strip()`: `s` without its leading and trailing whitespace. */
  function Strip(s: string): (r: string)
    ensures r == [] || (!IsSpace(r[0]) && !IsSpace(r[|r| - 1]))
    ensures exists i, j {:trigger SpaceAround(s, i, j)} :: SpaceAround(s, i, j) && r == s[i..j]
  {
    var j := SpaceStart(s, |s|);
    var i := SpaceEnd(s, 0, j);
    assert SpaceAround(s, i, j);
    s[i..j]
  }

  /** Where the whitespace run that ends at `j` starts. */
  function SpaceStart(s: string, j: nat): (e: nat)
    requires j <= |s|
    ensures e <= j && (e == 0 || !IsSpace(s[e - 1]))
    ensures forall k :: e <= k < j ==> IsSpace(s[k])
    decreases j
  {
    if j > 0 && IsSpace(s[j - 1]) then SpaceStart(s, j - 1) else j
  }

  /** Where the whitespace run that starts at `i` ends, looking no further than `j`. */
  function SpaceEnd(s: string, i: nat, j: nat): (b: nat)
    requires i <= j <= |s|
    ensures i <= b <= j && (b == j || !IsSpace(s[b]))
    ensures forall k :: i <= k < b ==> IsSpace(s[k])
    decreases j - i
  {
    if i < j && IsSpace(s[i]) then SpaceEnd(s, i + 1, j) else i
  }

  /** Everything of `s` before `i` and from `j` on is whitespace. */
  predicate SpaceAround(s: string, i: int, j: int)
  {
    && 0 <= i <= j <= |s|
    && (forall k :: 0 <= k < i ==> IsSpace(s[k]))
    && (forall k :: j <= k < |s| ==> IsSpace(s[k]))
  }

  /** Stripping leaves a string with no surrounding whitespace as it is. */
  lemma StripUnchanged(s: string)
    requires s == [] || (!IsSpace(s[0]) && !IsSpace(s[|s| - 1]))
    ensures Strip(s) == s
  {
  }

  predicate OccursAt(s: string, pat: string, i: int)
  {
    0 <= i && i + |pat| <= |s| && s[i..i + |pat|] == pat
  }

  /** `s.find(pat)`: the index of the first occurrence of `pat` in `s`, if any. */
  function Find(s: string, pat: string): (r: Option<nat>)
    ensures r.Some? ==> OccursAt(s, pat, r.value)
    ensures r.Some? ==> forall i :: 0 <= i < r.value ==> !OccursAt(s, pat, i)
    ensures r.None? ==> forall i :: 0 <= i ==> !OccursAt(s, pat, i)
    decreases |s|
  {
    if |s| < |pat| then None
    else if pat <= s then Some(0)
    else
      assert !OccursAt(s, pat, 0) by { assert s[..|pat|] == s[0..|pat|]; }
      ShiftOccurs(s, pat);
      match Find(s[1..], pat)
      case None => None
      case Some(i) => Some(i + 1)
  }

  lemma ShiftOccurs(s: string, pat: string)
    requires |s| > 0
    ensures forall i :: 1 <= i ==> (OccursAt(s, pat, i) <==> OccursAt(s[1..], pat, i - 1))
  {
    forall i | 1 <= i
      ensures OccursAt(s, pat, i) <==> OccursAt(s[1..], pat, i - 1)
    {
      if i + |pat| <= |s| {
        assert s[1..][i - 1..i - 1 + |pat|] == s[i..i + |pat|];
      }
    }
  }

  /** `s.split(sep)`: the pieces between the non-overlapping occurrences of `sep`, left to right. */
  function Split(s: string, sep: string): (r: seq<string>)
    requires sep != []
    ensures |r| >= 1
    ensures r[0] == BeforeFirst(s, sep)
    ensures Join(r, sep) == s
    ensures forall k :: 0 <= k < |r| ==> Find(r[k], sep).None?
    decreases |s|
  {
    match Find(s, sep)
    case None => [s]
    case Some(i) =>
      NoEarlierOccurrence(s, sep, i);
      var rest := Split(s[i + |sep|..], sep);
      var r := [s[..i]] + rest;
      assert r[1..] == rest;
      assert s == s[..i] + sep + s[i + |sep|..] by {
        assert s[i..i + |sep|] == sep;
        assert s == s[..i] + s[i..i + |sep|] + s[i + |sep|..];
      }
      r
  }

  /** The text of `t` before the first occurrence of `pat`, or all of `t` when there is none. */
  function BeforeFirst(t: string, pat: string): (r: string)
    ensures Find(t, pat).None? ==> r == t
    ensures Find(t, pat).Some? ==> r == t[..Find(t, pat).value]
  {
    match Find(t, pat)
    case None => t
    case Some(i) => t[..i]
  }

  /** `sep.join(pieces)`. */
  function Join(pieces: seq<string>, sep: string): string
    requires |pieces| >= 1
  {
    if |pieces| == 1 then pieces[0] else pieces[0] + sep + Join(pieces[1..], sep)
  }

  /** `s.split(sep, 1)`: at most two pieces, cut at the first occurrence of `sep`. */
  function SplitOnce(s: string, sep: string): (r: seq<string>)
    requires sep != []
    ensures 1 <= |r| <= 2
    ensures |r| == 1 <==> Find(s, sep).None?
    ensures |r| == 1 ==> r[0] == s
    ensures |r| == 2 ==> s == r[0] + sep + r[1] && Find(r[0], sep).None?
  {
    match Find(s, sep)
    case None => [s]
    case Some(i) =>
      NoEarlierOccurrence(s, sep, i);
      [s[..i], s[i + |sep|..]]
  }

  /** A prefix of `s` that ends before the first occurrence of `pat` does not contain `pat`. */
  lemma NoEarlierOccurrence(s: string, pat: string, i: nat)
    requires pat != []
    requires OccursAt(s, pat, i)
    requires forall j :: 0 <= j < i ==> !OccursAt(s, pat, j)
    ensures Find(s[..i], pat).None?
  {
    var p := s[..i];
    forall j | 0 <= j
      ensures !OccursAt(p, pat, j)
    {
      if j + |pat| <= |p| {
        assert p[j..j + |pat|] == s[j..j + |pat|];
        assert OccursAt(p, pat, j) ==> OccursAt(s, pat, j);
      }
    }
  }

  /** Looking for a single character finds it exactly when it is there. */
  lemma FindChar(s: string, c: char)
    ensures Find(s, [c]).None? <==> c !in s
  {
    if c in s {
      var i :| 0 <= i < |s| && s[i] == c;
      assert s[i..i + 1] == [c];
      assert OccursAt(s, [c], i);
    }
    if Find(s, [c]).Some? {
      var i := Find(s, [c]).value;
      assert s[i] == s[i..i + 1][0];
    }
  }

  /** A text without `pat` has no `pat` in any of its slices. */
  lemma FindInSlice(s: string, pat: string, i: nat, j: nat)
    requires i <= j <= |s|
    requires Find(s, pat).None?
    ensures Find(s[i..j], pat).None?
  {
    var t := s[i..j];
    forall k | 0 <= k
      ensures !OccursAt(t, pat, k)
    {
      if k + |pat| <= |t| {
        var u, w := t[k..k + |pat|], s[i + k..i + k + |pat|];
        assert forall m :: 0 <= m < |pat| ==> u[m] == w[m];
        assert u == w;
        assert !OccursAt(s, pat, i + k);
      }
    }
  }

  /** The text `Strip` keeps is a slice of its argument. */
  lemma StripIsSlice(s: string) returns (i: nat, j: nat)
    ensures i <= j <= |s| && Strip(s) == s[i..j]
  {
    var r := Strip(s);
    assert exists a, b :: SpaceAround(s, a, b) && r == s[a..b];
    var a, b :| SpaceAround(s, a, b) && r == s[a..b];
    i, j := a, b;
  }

  /** Stripping cannot create an occurrence of `pat`. */
  lemma StripKeepsAbsence(s: string, pat: string)
    requires Find(s, pat).None?
    ensures Find(Strip(s), pat).None?
  {
    var i, j := StripIsSlice(s);
    FindInSlice(s, pat, i, j);
  }
}
