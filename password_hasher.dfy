/**
 * The credential scheme of Helpers/PasswordHasher.cs. A stored credential is
 * `Base64(salt) + ":" + Base64(key)`, where the salt is 16 random nonzero bytes
 * and the key is the 32-byte PBKDF2 output (HMAC-SHA256, 100000 iterations).
 * Verification splits on ':', decodes the salt, re-derives the key and compares
 * the encoded text; every failure, thrown or not, is `false`.
 */
module PasswordHasher {
  import opened Wrappers
  import opened Base64
  import Strings

  /** The pseudorandom functions `KeyDerivationPrf` offers. */
  datatype Prf = HMACSHA1 | HMACSHA256 | HMACSHA512

  /**
   * PBKDF2 of section 5.2 of RFC 8018, as the platform's `KeyDerivation.Pbkdf2`
   * provides it: (prf, password, salt, iteration count, bytes requested) to a key
   * of exactly the requested length. Any such function may stand for it.
   */
  type Pbkdf2 = f: (Prf, string, seq<byte>, nat, nat) -> seq<byte>
    | forall prf, password, salt, iterations, n :: |f(prf, password, salt, iterations, n)| == n
    witness (prf: Prf, password: string, salt: seq<byte>, iterations: nat, n: nat) => seq(n, _ => 0)

  const SaltSize: nat := 128 / 8
  const KeySize: nat := 256 / 8
  const IterationCount: nat := 100000
  const Separator: char := ':'

  /** What `RandomNumberGenerator.GetNonZeroBytes` fills the 16-byte salt array with. */
  predicate ValidSalt(salt: seq<byte>) {
    |salt| == SaltSize && forall i :: 0 <= i < |salt| ==> salt[i] != 0
  }

  /** The one derivation both operations use: HMAC-SHA256, 100000 iterations, 32 bytes. */
  function DeriveKey(kdf: Pbkdf2, password: string, salt: seq<byte>): (key: seq<byte>)
    ensures |key| == KeySize
  {
    kdf(HMACSHA256, password, salt, IterationCount, KeySize)
  }

  /** Characters the column format `^[A-Za-z0-9+/=]+:[A-Za-z0-9+/=]+$` allows on either side. */
  predicate IsEncodedPart(s: string) {
    |s| > 0 && forall k :: 0 <= k < |s| ==> IsAlphabetChar(s[k]) || s[k] == Pad
  }

  /** `HashPassword`, with the random salt passed in: the encoded salt, ':', and the encoded key. */
  function HashPassword(kdf: Pbkdf2, password: string, salt: seq<byte>): string
    requires ValidSalt(salt)
  {
    Encode(salt) + [Separator] + Encode(DeriveKey(kdf, password, salt))
  }

  /**
   * A hash splits on ':' into exactly the encoded salt and the encoded key,
   * the salt part decodes back to the salt, and the text is always
   * 24 + 1 + 44 = 69 characters.
   */
  lemma HashSplits(kdf: Pbkdf2, password: string, salt: seq<byte>)
    requires ValidSalt(salt)
    ensures var stored := HashPassword(kdf, password, salt);
      && Strings.Split(stored, Separator) == [Encode(salt), Encode(DeriveKey(kdf, password, salt))]
      && Decode(Strings.Split(stored, Separator)[0]) == Some(salt)
      && |stored| == 69
  {
    var saltText := Encode(salt);
    var keyText := Encode(DeriveKey(kdf, password, salt));
    assert |saltText| == 24 && |keyText| == 44;
    EncodeAvoids(salt, Separator);
    EncodeAvoids(DeriveKey(kdf, password, salt), Separator);
    Strings.SplitAtSeparator(saltText, keyText, Separator);
    DecodeEncode(salt);
  }

  /**
   * `VerifyPassword`. A null stored string (`None`) throws inside the `try` and
   * so gives `false`, as do a split into other than two parts and a salt part
   * that does not decode. The key part is never decoded: it is compared as text
   * with the encoding of the re-derived key.
   */
  function VerifyPassword(kdf: Pbkdf2, password: string, storedHash: Option<string>): (ok: bool)
  {
    match storedHash
    case None => false
    case Some(stored) =>
      var parts := Strings.Split(stored, Separator);
      if |parts| != 2 then false
      else
        match Decode(parts[0])
        case None => false
        case Some(salt) => parts[1] == Encode(DeriveKey(kdf, password, salt))
  }

  /** Headline round trip: a password always verifies against its own hash. */
  lemma HashThenVerify(kdf: Pbkdf2, password: string, salt: seq<byte>)
    requires ValidSalt(salt)
    ensures VerifyPassword(kdf, password, Some(HashPassword(kdf, password, salt)))
  {
    HashSplits(kdf, password, salt);
  }

  /**
   * Another password verifies against the hash exactly when PBKDF2 gives it the
   * same key under that salt: rejection of a wrong password is as strong as the
   * derivation's collision resistance, and no weaker.
   */
  lemma {:induction false} VerifyOtherPassword(kdf: Pbkdf2, password: string, other: string, salt: seq<byte>)
    requires ValidSalt(salt)
    ensures VerifyPassword(kdf, other, Some(HashPassword(kdf, password, salt)))
        <==> DeriveKey(kdf, other, salt) == DeriveKey(kdf, password, salt)
  {
    var k1, k2 := DeriveKey(kdf, other, salt), DeriveKey(kdf, password, salt);
    HashSplits(kdf, password, salt);
    if Encode(k1) == Encode(k2) {
      DecodeEncode(k1);
      DecodeEncode(k2);
    }
  }

  /**
   * `stored` is `a + ":" + b` with the separator at `i` and in neither part,
   * `a` decodes to some salt, and `b` is, character for character, the
   * encoding of the key derived from `password` and that salt.
   */
  ghost predicate MatchesAt(kdf: Pbkdf2, password: string, stored: string, i: int) {
    && 0 <= i < |stored|
    && stored[i] == Separator
    && Separator !in stored[..i] && Separator !in stored[i + 1..]
    && Decode(stored[..i]).Some?
    && stored[i + 1..] == Encode(DeriveKey(kdf, password, Decode(stored[..i]).value))
  }

  lemma VerifyImpliesMatch(kdf: Pbkdf2, password: string, stored: string)
    requires VerifyPassword(kdf, password, Some(stored))
    ensures MatchesAt(kdf, password, stored, |Strings.Split(stored, Separator)[0]|)
  {
    var parts := Strings.Split(stored, Separator);
    var i := |parts[0]|;
    Strings.SplitTwo(stored, Separator);
    assert stored[..i] == parts[0] && stored[i + 1..] == parts[1];
  }

  lemma MatchImpliesVerify(kdf: Pbkdf2, password: string, stored: string, i: int)
    requires MatchesAt(kdf, password, stored, i)
    ensures VerifyPassword(kdf, password, Some(stored))
  {
    assert stored == stored[..i] + [Separator] + stored[i + 1..];
    Strings.SplitAtSeparator(stored[..i], stored[i + 1..], Separator);
  }

  /** A stored string verifies exactly when it matches the password at some separator. */
  lemma VerifyPasswordCharacterization(kdf: Pbkdf2, password: string, stored: string)
    ensures VerifyPassword(kdf, password, Some(stored)) <==> exists i :: MatchesAt(kdf, password, stored, i)
  {
    if VerifyPassword(kdf, password, Some(stored)) {
      VerifyImpliesMatch(kdf, password, stored);
    }
    if exists i :: MatchesAt(kdf, password, stored, i) {
      var i :| MatchesAt(kdf, password, stored, i);
      MatchImpliesVerify(kdf, password, stored, i);
    }
  }

  /** A null stored string never verifies (the exception is caught). */
  lemma VerifyRejectsNull(kdf: Pbkdf2, password: string)
    ensures !VerifyPassword(kdf, password, None)
  {
  }

  /** Zero separators, or more than one, never verify. */
  lemma VerifyRejectsSeparatorCount(kdf: Pbkdf2, password: string, stored: string)
    requires Strings.CountOf(stored, Separator) != 1
    ensures !VerifyPassword(kdf, password, Some(stored))
  {
  }

  /** One separator, but a salt part that is not base 64 (a `FormatException`): never verifies. */
  lemma VerifyRejectsUndecodableSalt(kdf: Pbkdf2, password: string, saltPart: string, keyPart: string)
    requires Separator !in saltPart && Separator !in keyPart
    requires Decode(saltPart).None?
    ensures !VerifyPassword(kdf, password, Some(saltPart + [Separator] + keyPart))
  {
    Strings.SplitAtSeparator(saltPart, keyPart, Separator);
  }

  /** The empty string has no separator and so is rejected, whatever the password. */
  lemma VerifyRejectsEmpty(kdf: Pbkdf2, password: string)
    ensures !VerifyPassword(kdf, password, Some(""))
  {
    assert Strings.Split("", Separator) == [[]];
  }

  /** The encoded salt: 22 alphabet characters and "==". */
  lemma SaltTextShape(salt: seq<byte>)
    requires |salt| == SaltSize
    ensures |Encode(salt)| == 24 && Encode(salt)[22] == Pad && Encode(salt)[23] == Pad
    ensures forall k :: 0 <= k < 22 ==> IsAlphabetChar(Encode(salt)[k])
    ensures IsEncodedPart(Encode(salt)) && Encode(salt)[21] != Pad
  {
    EncodeShape(salt);
    assert Padding(|salt|) == 2;
  }

  /** The encoded key: 43 alphabet characters and "=". */
  lemma KeyTextShape(key: seq<byte>)
    requires |key| == KeySize
    ensures |Encode(key)| == 44 && Encode(key)[43] == Pad
    ensures forall k :: 0 <= k < 43 ==> IsAlphabetChar(Encode(key)[k])
    ensures IsEncodedPart(Encode(key)) && Encode(key)[42] != Pad
  {
    EncodeShape(key);
    assert Padding(|key|) == 1;
  }

  /** A hash is the encoded salt, the separator and the encoded key, at fixed offsets. */
  lemma HashLayout(kdf: Pbkdf2, password: string, salt: seq<byte>)
    requires ValidSalt(salt)
    ensures var stored, saltText, keyText := HashPassword(kdf, password, salt), Encode(salt), Encode(DeriveKey(kdf, password, salt));
      && stored == saltText + [Separator] + keyText
      && stored[..24] == saltText && stored[24] == Separator && stored[25..] == keyText
  {
  }

  /**
   * Shape of every hash: 24 salt characters ending in "==", the separator,
   * and 44 key characters ending in a single "=", each part made of the
   * characters the stored column format allows.
   */
  lemma HashShape(kdf: Pbkdf2, password: string, salt: seq<byte>)
    requires ValidSalt(salt)
    ensures var stored := HashPassword(kdf, password, salt);
      && |stored| == 69 && stored[24] == Separator
      && IsEncodedPart(stored[..24]) && IsEncodedPart(stored[25..])
      && stored[22..24] == "==" && stored[21] != Pad
      && stored[68] == Pad && stored[67] != Pad
  {
    var key := DeriveKey(kdf, password, salt);
    var stored := HashPassword(kdf, password, salt);
    var saltText, keyText := Encode(salt), Encode(key);
    SaltTextShape(salt);
    KeyTextShape(key);
    HashLayout(kdf, password, salt);
    assert stored[21] == saltText[21] && stored[22] == saltText[22] && stored[23] == saltText[23];
    assert stored[67] == keyText[42] && stored[68] == keyText[43];
    assert stored[22..24] == [saltText[22], saltText[23]];
  }
}
