/** bcrypt 4 as the user service calls it, seen symbolically: a digest records the salt drawn for
    it and the bytes bcrypt reads, which are the password's UTF-8 encoding and a NUL terminator
    cut to the first 72, and checking a password against a digest succeeds exactly when those
    bytes are the same. */
module Passwords {
  import Utf8

  /** bcrypt reads no more than this many bytes of a password. */
  const MaxSecretLength := 72

  /** The output of `hashpw(password.encode('utf-8'), gensalt())`. */
  datatype Digest = Digest(salt: seq<Utf8.byte>, secret: seq<Utf8.byte>)

  /** The bytes of `password` that bcrypt reads: its UTF-8 encoding followed by a NUL
      terminator, cut to 72 bytes. */
  function Secret(password: string): (r: seq<Utf8.byte>)
    ensures |r| <= MaxSecretLength
    ensures r <= Utf8.Encode(password) + [0]
    ensures WithinLimit(password) ==> r == Utf8.Encode(password) + [0]
    ensures !WithinLimit(password) ==> r == Utf8.Encode(password)[..MaxSecretLength]
  {
    var t := Utf8.Encode(password) + [0];
    if |t| <= MaxSecretLength then t else t[..MaxSecretLength]
  }

  /** A password whose whole encoding and its terminator bcrypt reads. */
  predicate WithinLimit(password: string)
  {
    |Utf8.Encode(password)| < MaxSecretLength
  }

  /** `_hash_password`, with the salt `gensalt()` drew passed in. */
  function HashPassword(password: string, salt: seq<Utf8.byte>): (d: Digest)
    ensures CheckPassword(password, d)
    ensures d.salt == salt
  {
    Digest(salt, Secret(password))
  }

  /** `checkpw(password.encode('utf-8'), digest)`: within the limit the check compares every
      byte of the encoding and the terminator, beyond it only the first 72 bytes. */
  predicate CheckPassword(password: string, d: Digest)
    ensures WithinLimit(password) ==> (CheckPassword(password, d) <==> d.secret == Utf8.Encode(password) + [0])
    ensures !WithinLimit(password) ==>
      (CheckPassword(password, d) <==> d.secret == Utf8.Encode(password)[..MaxSecretLength])
  {
    d.secret == Secret(password)
  }

  /** A digest accepts no other password when both fit within bcrypt's limit. */
  lemma OtherPasswordRejected(password: string, other: string, salt: seq<Utf8.byte>)
    requires other != password
    requires WithinLimit(password) && WithinLimit(other)
    ensures !CheckPassword(other, HashPassword(password, salt))
  {
    if CheckPassword(other, HashPassword(password, salt)) {
      var e, f := Utf8.Encode(other), Utf8.Encode(password);
      assert e + [0] == f + [0];
      assert |e| == |f|;
      assert e == (e + [0])[..|e|] && f == (f + [0])[..|f|];
      Utf8.EncodeInjective(other, password);
    }
  }

  /** Beyond the limit, a digest accepts every password that shares the first 72 bytes. */
  lemma SharedPrefixAccepted(password: string, other: string, salt: seq<Utf8.byte>)
    requires !WithinLimit(password) && !WithinLimit(other)
    requires Utf8.Encode(other)[..MaxSecretLength] == Utf8.Encode(password)[..MaxSecretLength]
    ensures CheckPassword(other, HashPassword(password, salt))
  {
  }

  /** The terminator makes a NUL at the 72nd byte invisible: a password of 71 bytes and the same
      password followed by U+0000 are accepted for one another. */
  lemma TerminatorCollision(password: string, salt: seq<Utf8.byte>)
    requires |Utf8.Encode(password)| == MaxSecretLength - 1
    ensures !WithinLimit(password + ['\0'])
    ensures CheckPassword(password + ['\0'], HashPassword(password, salt))
  {
    Utf8.EncodeAppend(password, ['\0']);
    assert Utf8.Encode(['\0']) == [0];
  }

  /** Two hashes of one password under different salts differ. */
  lemma SaltsSeparateDigests(password: string, salt1: seq<Utf8.byte>, salt2: seq<Utf8.byte>)
    requires salt1 != salt2
    ensures HashPassword(password, salt1) != HashPassword(password, salt2)
  {
  }
}
