/**
 * Salted password hashing (security/PasswordEncoder.java). An encoding is the
 * Base64 of a 16-byte salt followed by the digest of the salt and the
 * password's UTF-8 bytes. The digest (SHA-256 in the source) is any function
 * passed in, and the salt (from SecureRandom) is a parameter.
 */
module PasswordEncoding {
  import opened Wrappers
  import Utf8
  import Base64

  type Byte = Utf8.Byte

  /** A message digest: the bytes it computes for the bytes it is fed. */
  type Digest = seq<Byte> -> seq<Byte>

  const SaltLength: nat := 16

  /** `hash(password, salt)`: the digest updated with the salt, then with the password's UTF-8 bytes. */
  function Hash(digest: Digest, password: string, salt: seq<Byte>): seq<Byte> {
    digest(salt + Utf8.Encode(password))
  }

  /** The encoding `encode` produces for `password` with `salt`. */
  function Encoding(digest: Digest, password: string, salt: seq<Byte>): (e: string)
    requires |salt| == SaltLength
    ensures Base64.Decode(e) == Some(salt + Hash(digest, password, salt))
  {
    Base64.DecodeEncode(salt + Hash(digest, password, salt));
    Base64.Encode(salt + Hash(digest, password, salt))
  }

  /**
   * What `matches` answers: false for `null` arguments, for text that is not
   * Base64, and for fewer than 16 decoded bytes (the cases where it throws);
   * otherwise whether the bytes after the salt equal the recomputed hash.
   */
  predicate IsMatch(digest: Digest, rawPassword: Option<string>, encodedPassword: Option<string>) {
    && rawPassword.Some? && encodedPassword.Some?
    && match Base64.Decode(encodedPassword.value)
       case None => false
       case Some(combined) =>
         |combined| >= SaltLength
         && combined[SaltLength..] == Hash(digest, rawPassword.value, combined[..SaltLength])
  }

  /** `System.arraycopy(src, srcPos, dest, destPos, length)` between two different arrays. */
  method ArrayCopy(src: array<Byte>, srcPos: nat, dest: array<Byte>, destPos: nat, length: nat)
    requires src != dest
    requires srcPos + length <= src.Length && destPos + length <= dest.Length
    modifies dest
    ensures dest[..] == old(dest[..destPos]) + src[srcPos..srcPos + length] + old(dest[destPos + length..])
  {
    var i := 0;
    while i < length
      invariant 0 <= i <= length
      invariant dest[..destPos] == old(dest[..destPos])
      invariant dest[destPos..destPos + i] == src[srcPos..srcPos + i]
      invariant dest[destPos + i..] == old(dest[destPos + i..])
    {
      dest[destPos + i] := src[srcPos + i];
      i := i + 1;
      assert dest[destPos..destPos + i] == dest[destPos..destPos + i - 1] + [dest[destPos + i - 1]];
    }
    assert dest[..] == dest[..destPos] + dest[destPos..destPos + length] + dest[destPos + length..];
  }

  /** A fresh array holding `s`. */
  method ToArray(s: seq<Byte>) returns (a: array<Byte>)
    ensures fresh(a) && a[..] == s
  {
    a := new Byte[|s|](i requires 0 <= i < |s| => s[i]);
  }

  /** `encode(password)`: salt, then hash, copied into one buffer and Base64-encoded. */
  method Encode(digest: Digest, password: string, salt: seq<Byte>) returns (encoded: string)
    requires |salt| == SaltLength
    ensures encoded == Encoding(digest, password, salt)
  {
    var saltBytes := ToArray(salt);
    var hash := ToArray(Hash(digest, password, salt));
    var combined := new Byte[saltBytes.Length + hash.Length](_ => 0);
    ArrayCopy(saltBytes, 0, combined, 0, saltBytes.Length);
    ArrayCopy(hash, 0, combined, saltBytes.Length, hash.Length);
    assert combined[..] == salt + Hash(digest, password, salt);
    encoded := Base64.Encode(combined[..]);
  }

  /** `MessageDigest.isEqual`: equal length and equal bytes. */
  method IsEqual(a: array<Byte>, b: seq<Byte>) returns (equal: bool)
    ensures equal <==> a[..] == b
  {
    if a.Length != |b| {
      return false;
    }
    var i := 0;
    while i < a.Length
      invariant 0 <= i <= a.Length
      invariant a[..i] == b[..i]
    {
      if a[i] != b[i] {
        return false;
      }
      i := i + 1;
    }
    assert a[..] == a[..a.Length];
    return true;
  }

  /** `matches(rawPassword, encodedPassword)`: split the decoded bytes at 16 and compare the rest. */
  method Matches(digest: Digest, rawPassword: Option<string>, encodedPassword: Option<string>) returns (ok: bool)
    ensures ok == IsMatch(digest, rawPassword, encodedPassword)
  {
    if encodedPassword.None? {
      return false;
    }
    var decoded := Base64.Decode(encodedPassword.value);
    if decoded.None? {
      return false;
    }
    var combined := ToArray(decoded.value);
    if combined.Length < SaltLength {
      return false;
    }
    var salt := new Byte[SaltLength](_ => 0);
    var storedHash := new Byte[combined.Length - SaltLength](_ => 0);
    ArrayCopy(combined, 0, salt, 0, SaltLength);
    ArrayCopy(combined, SaltLength, storedHash, 0, storedHash.Length);
    assert salt[..] == decoded.value[..SaltLength];
    assert storedHash[..] == decoded.value[SaltLength..];
    if rawPassword.None? {
      return false;
    }
    var computedHash := Hash(digest, rawPassword.value, salt[..]);
    ok := IsEqual(storedHash, computedHash);
  }

  /** Round trip: a password matches its own encoding, whatever the salt. */
  lemma MatchesOwnEncoding(digest: Digest, password: string, salt: seq<Byte>)
    requires |salt| == SaltLength
    ensures IsMatch(digest, Some(password), Some(Encoding(digest, password, salt)))
  {
    var combined := salt + Hash(digest, password, salt);
    assert combined[..SaltLength] == salt;
    assert combined[SaltLength..] == Hash(digest, password, salt);
  }

  /** Another password matches an encoding exactly when it hashes the same under that salt. */
  lemma MatchIffSameHash(digest: Digest, candidate: string, password: string, salt: seq<Byte>)
    requires |salt| == SaltLength
    ensures IsMatch(digest, Some(candidate), Some(Encoding(digest, password, salt)))
        <==> Hash(digest, candidate, salt) == Hash(digest, password, salt)
  {
    var combined := salt + Hash(digest, password, salt);
    assert combined[..SaltLength] == salt;
    assert combined[SaltLength..] == Hash(digest, password, salt);
  }

  /** With a collision-free digest, only the encoded password itself matches. */
  lemma OnlyThePasswordMatches(digest: Digest, candidate: string, password: string, salt: seq<Byte>)
    requires |salt| == SaltLength
    requires forall m1, m2 :: digest(m1) == digest(m2) ==> m1 == m2
    ensures IsMatch(digest, Some(candidate), Some(Encoding(digest, password, salt))) <==> candidate == password
  {
    MatchIffSameHash(digest, candidate, password, salt);
    if Hash(digest, candidate, salt) == Hash(digest, password, salt) {
      var a, b := salt + Utf8.Encode(candidate), salt + Utf8.Encode(password);
      assert a == b;
      assert a[SaltLength..] == Utf8.Encode(candidate) && b[SaltLength..] == Utf8.Encode(password);
      Utf8.DecodeEncode(candidate);
      Utf8.DecodeEncode(password);
    }
  }

  /** Decoded text shorter than a salt never matches any password. */
  lemma ShortNeverMatches(digest: Digest, rawPassword: Option<string>, encoded: string)
    requires Base64.Decode(encoded).Some? && |Base64.Decode(encoded).value| < SaltLength
    ensures !IsMatch(digest, rawPassword, Some(encoded))
  {
  }
}
