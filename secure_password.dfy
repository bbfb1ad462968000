/**
 * Password salting, hashing and verification. The hash primitive is SHA-512
 * (FIPS 180-4, section 6.4); the model takes it as a parameter `sha` of type
 * Sha512, about which nothing is known except that it returns 64 bytes.
 */
module SecurePassword {
  import opened Models
  import opened Text

  const SaltLength: nat := 32
  const DigestLength: nat := 64

  /** A SHA-512 digest. */
  type Digest = s: seq<byte> | |s| == DigestLength witness seq(DigestLength, _ => 0)

  /** An uninterpreted SHA-512. */
  type Sha512 = seq<byte> -> Digest

  /** What C# makes of a `byte[]` operand of string concatenation: its type name. */
  const ByteArrayTypeName: string := "System.Byte[]"

  /** `RandomNumberGenerator.GetBytes`: every byte of the buffer receives an arbitrary value. */
  method FillRandom(buffer: array<byte>)
    modifies buffer
  {
    var i := 0;
    while i < buffer.Length
      invariant 0 <= i <= buffer.Length
    {
      var b :| 0 <= b < 256;
      buffer[i] := b;
      i := i + 1;
    }
  }

  /** A fresh 32-byte array of random bytes. */
  method GenerateRandomSalt() returns (salt: array<byte>)
    ensures fresh(salt) && salt.Length == SaltLength
  {
    salt := new byte[SaltLength];
    FillRandom(salt);
  }

  /** The string `password + salt` builds: the salt's bytes never enter it. */
  function SaltedPassword(password: string, salt: seq<byte>): string
  {
    password + ByteArrayTypeName
  }

  /**
   * SHA-512 over the UTF-16LE bytes of the salted password, which is the
   * same string whichever salt is passed.
   */
  function SaltAndHashPassword(sha: Sha512, password: string, salt: seq<byte>): (h: Digest)
    ensures forall other: seq<byte> :: h == sha(Utf16Le(SaltedPassword(password, other)))
  {
    sha(Utf16Le(SaltedPassword(password, salt)))
  }

  /** Which salt is passed makes no difference to the hash. */
  lemma SaltIrrelevant(sha: Sha512, password: string, salt1: seq<byte>, salt2: seq<byte>)
    ensures SaltAndHashPassword(sha, password, salt1) == SaltAndHashPassword(sha, password, salt2)
    ensures SaltAndHashPassword(sha, password, salt1) == sha(Utf16Le(password + "System.Byte[]"))
  {
  }

  /** The hash input is the password's own encoding followed by the encoding of the type name. */
  lemma HashInputLayout(password: string, salt: seq<byte>)
    ensures Utf16Le(SaltedPassword(password, salt)) == Utf16Le(password) + Utf16Le(ByteArrayTypeName)
  {
    Utf16LeAppend(password, ByteArrayTypeName);
  }

  /** Two passwords reach the hash function as the same bytes only if they are the same password. */
  lemma HashInputInjective(p: string, q: string, salt1: seq<byte>, salt2: seq<byte>)
    requires Utf16Le(SaltedPassword(p, salt1)) == Utf16Le(SaltedPassword(q, salt2))
    ensures p == q
  {
    Utf16LeInjective(SaltedPassword(p, salt1), SaltedPassword(q, salt2));
    assert p == (p + ByteArrayTypeName)[..|p|];
    assert q == (q + ByteArrayTypeName)[..|q|];
  }

  /** The length of the common prefix of two byte sequences: the index of the first mismatch. */
  function CommonPrefix(a: seq<byte>, b: seq<byte>): (k: nat)
    ensures k <= |a| && k <= |b|
    ensures forall j :: 0 <= j < k ==> a[j] == b[j]
    ensures k < |a| && k < |b| ==> a[k] != b[k]
  {
    if |a| == 0 || |b| == 0 || a[0] != b[0] then 0 else 1 + CommonPrefix(a[1..], b[1..])
  }

  /**
   * The outcome of the byte loop: Verified(true) after a full match,
   * Verified(false) at the first mismatch, IndexOutOfRange when the stored
   * hash ends before the recomputed one while every byte so far matched.
   */
  datatype Verification = Verified(matches: bool) | IndexOutOfRange

  /** The loop's outcome, stated on the two sequences. */
  function CompareHashes(newHash: seq<byte>, storedHash: seq<byte>): (v: Verification)
    ensures v == Verified(true) <==>
      |newHash| <= |storedHash| && forall i :: 0 <= i < |newHash| ==> newHash[i] == storedHash[i]
    ensures v == IndexOutOfRange <==>
      |storedHash| < |newHash| && forall i :: 0 <= i < |storedHash| ==> newHash[i] == storedHash[i]
    ensures v == Verified(false) <==>
      exists i :: 0 <= i < |newHash| && i < |storedHash| && newHash[i] != storedHash[i]
  {
    var k := CommonPrefix(newHash, storedHash);
    if k == |newHash| then Verified(true)
    else if k == |storedHash| then IndexOutOfRange
    else Verified(false)
  }

  /** The number of byte comparisons the loop completes before it returns or throws. */
  function Comparisons(newHash: seq<byte>, storedHash: seq<byte>): (c: nat)
    ensures c <= |newHash| && c <= |storedHash|
  {
    var k := CommonPrefix(newHash, storedHash);
    if k == |newHash| || k == |storedHash| then k else k + 1
  }

  /** What `VerifyPasswordHash` computes, as a function of its inputs. */
  function Verify(sha: Sha512, password: string, passwordHash: seq<byte>, passwordSalt: seq<byte>): Verification
  {
    CompareHashes(SaltAndHashPassword(sha, password, passwordSalt), passwordHash)
  }

  /**
   * Recomputes the hash and compares it index by index with the stored one,
   * returning at the first mismatch. The ghost counter records the
   * comparisons performed, the quantity an observer of the timing learns.
   */
  method VerifyPasswordHash(sha: Sha512, password: string, passwordHash: seq<byte>, passwordSalt: seq<byte>)
    returns (r: Verification, ghost comparisons: nat)
    ensures r == Verify(sha, password, passwordHash, passwordSalt)
    ensures comparisons == Comparisons(SaltAndHashPassword(sha, password, passwordSalt), passwordHash)
    ensures r == Verified(false) ==>
      var h := SaltAndHashPassword(sha, password, passwordSalt);
      comparisons == CommonPrefix(h, passwordHash) + 1 && h[comparisons - 1] != passwordHash[comparisons - 1]
    ensures r == Verified(true) ==> comparisons == DigestLength
  {
    var newHash := SaltAndHashPassword(sha, password, passwordSalt);
    comparisons := 0;
    var i := 0;
    while i < |newHash|
      invariant 0 <= i <= |newHash| && i <= |passwordHash|
      invariant comparisons == i
      invariant forall j :: 0 <= j < i ==> newHash[j] == passwordHash[j]
    {
      if i >= |passwordHash| {
        r := IndexOutOfRange;
        return;
      }
      comparisons := comparisons + 1;
      if newHash[i] != passwordHash[i] {
        r := Verified(false);
        return;
      }
      i := i + 1;
    }
    r := Verified(true);
  }

  /** A stored hash is accepted exactly when its first 64 bytes are the recomputed digest. */
  lemma VerifyAcceptsDigestPrefix(sha: Sha512, password: string, passwordHash: seq<byte>, passwordSalt: seq<byte>)
    ensures Verify(sha, password, passwordHash, passwordSalt) == Verified(true) <==>
      DigestLength <= |passwordHash| && passwordHash[..DigestLength] == SaltAndHashPassword(sha, password, passwordSalt)
  {
    var h := SaltAndHashPassword(sha, password, passwordSalt);
    if DigestLength <= |passwordHash| {
      var p := passwordHash[..DigestLength];
      assert p == h <==> forall i :: 0 <= i < DigestLength ==> h[i] == p[i];
      assert forall i :: 0 <= i < DigestLength ==> p[i] == passwordHash[i];
    }
  }

  /** A hash made from a password verifies that password. */
  lemma VerifyRoundTrip(sha: Sha512, password: string, salt: seq<byte>)
    ensures Verify(sha, password, SaltAndHashPassword(sha, password, salt), salt) == Verified(true)
  {
  }

  /** Verification succeeds even against a salt other than the one the hash was made with. */
  lemma VerifyIgnoresStoredSalt(sha: Sha512, password: string, salt: seq<byte>, otherSalt: seq<byte>)
    ensures Verify(sha, password, SaltAndHashPassword(sha, password, salt), otherSalt) == Verified(true)
  {
    SaltIrrelevant(sha, password, salt, otherSalt);
  }

  /**
   * A wrong password verifies only through a SHA-512 collision: two distinct
   * inputs with the same digest.
   */
  lemma WrongPasswordNeedsCollision(sha: Sha512, password: string, attempt: string, salt: seq<byte>, storedSalt: seq<byte>)
    requires attempt != password
    requires Verify(sha, attempt, SaltAndHashPassword(sha, password, salt), storedSalt) == Verified(true)
    ensures var x := Utf16Le(SaltedPassword(attempt, storedSalt));
      var y := Utf16Le(SaltedPassword(password, salt));
      x != y && sha(x) == sha(y)
  {
    var x := Utf16Le(SaltedPassword(attempt, storedSalt));
    var y := Utf16Le(SaltedPassword(password, salt));
    if x == y {
      HashInputInjective(attempt, password, storedSalt, salt);
    }
  }

  /** Bytes of the stored hash past the recomputed hash's length are never read. */
  lemma StoredHashTailIgnored(newHash: seq<byte>, storedHash: seq<byte>, extra: seq<byte>)
    requires |newHash| <= |storedHash|
    ensures CompareHashes(newHash, storedHash + extra) == CompareHashes(newHash, storedHash)
    ensures Comparisons(newHash, storedHash + extra) == Comparisons(newHash, storedHash)
  {
    var k := CommonPrefix(newHash, storedHash);
    assert forall j :: 0 <= j < |storedHash| ==> (storedHash + extra)[j] == storedHash[j];
    assert CommonPrefix(newHash, storedHash + extra) == k;
  }

  /** A stored hash shorter than a digest whose bytes all match makes the loop index past its end. */
  lemma TruncatedHashFaults(sha: Sha512, password: string, salt: seq<byte>, n: nat)
    requires n < DigestLength
    ensures Verify(sha, password, SaltAndHashPassword(sha, password, salt)[..n], salt) == IndexOutOfRange
  {
  }

  /**
   * The early exit leaks the position of the first mismatch: two rejected
   * stored hashes take the same number of comparisons exactly when they
   * share equally long prefixes with the recomputed hash.
   */
  lemma EarlyExitTiming(newHash: seq<byte>, stored1: seq<byte>, stored2: seq<byte>)
    requires CompareHashes(newHash, stored1) == Verified(false)
    requires CompareHashes(newHash, stored2) == Verified(false)
    ensures Comparisons(newHash, stored1) == Comparisons(newHash, stored2)
      <==> CommonPrefix(newHash, stored1) == CommonPrefix(newHash, stored2)
  {
  }
}
