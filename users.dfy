/**
 * The `Users` record of Models/Users.cs and the constraints its attributes put
 * on a stored row: the three `[Required]` strings must not be null or blank,
 * and each `[StringLength(n)]` / `nvarchar(n)` column holds at most n characters.
 */
module UserModel {
  import opened Wrappers
  import Strings
  import Base64
  import PasswordHasher

  /** `datetime2` values, as the ticks of the platform clock. */
  type DateTime = int

  datatype User = User(
    userId: int,
    username: string,
    email: string,
    passwordHash: string,
    firstName: Option<string>,
    lastName: Option<string>,
    createdAt: DateTime,
    lastLoginAt: Option<DateTime>,
    isActive: bool)

  const UsernameMaxLength: nat := 50
  const EmailMaxLength: nat := 100
  const PasswordHashMaxLength: nat := 255
  const NameMaxLength: nat := 50

  /** `[Required]` on a string: present and not blank. */
  predicate RequiredText(s: string) {
    !Strings.IsNullOrWhiteSpace(Some(s))
  }

  /** An optional column of width `n`: absent, or at most `n` characters. */
  predicate OptionalWithin(s: Option<string>, n: nat) {
    s.None? || |s.value| <= n
  }

  /** The constraints every stored row meets. */
  predicate Valid(u: User) {
    && RequiredText(u.username) && |u.username| <= UsernameMaxLength
    && RequiredText(u.email) && |u.email| <= EmailMaxLength
    && RequiredText(u.passwordHash) && |u.passwordHash| <= PasswordHashMaxLength
    && OptionalWithin(u.firstName, NameMaxLength)
    && OptionalWithin(u.lastName, NameMaxLength)
  }

  /**
   * A record as the object initialiser builds it: the caller supplies no id
   * (the identity column assigns it on insert), `IsActive` defaults to true
   * and `LastLoginAt` is null until a login sets it.
   */
  function NewUser(username: string, email: string, passwordHash: string,
                   firstName: Option<string>, lastName: Option<string>, now: DateTime): User
  {
    User(0, username, email, passwordHash, firstName, lastName, now, None, true)
  }

  /** Every hash `HashPassword` produces fits the `PasswordHash` column and is not blank. */
  lemma HashFitsColumn(kdf: PasswordHasher.Pbkdf2, password: string, salt: seq<Base64.byte>)
    requires PasswordHasher.ValidSalt(salt)
    ensures var h := PasswordHasher.HashPassword(kdf, password, salt);
      RequiredText(h) && |h| <= PasswordHashMaxLength
  {
    var h := PasswordHasher.HashPassword(kdf, password, salt);
    PasswordHasher.HashShape(kdf, password, salt);
    assert !Strings.IsDotNetWhiteSpace(h[24]);
  }

  /** Stamping `LastLoginAt` keeps a row valid: no constrained column changes. */
  lemma StampKeepsValid(u: User, now: DateTime)
    requires Valid(u)
    ensures Valid(u.(lastLoginAt := Some(now)))
    ensures u.(lastLoginAt := Some(now)).userId == u.userId
  {
  }
}
