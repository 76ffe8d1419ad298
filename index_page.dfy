/**
 * The login page handler of Pages/Index.cshtml.cs: login, registration and
 * logout over an in-memory user table, the session and TempData. The
 * decisions each handler makes are specification functions; the handlers are
 * methods of `IndexModel` whose postconditions tie the new state to them.
 */
module IndexPage {
  import opened Wrappers
  import Strings
  import Base64
  import PasswordHasher
  import opened UserModel

  /** `Page()` re-renders the form; `RedirectToPage(name)` sends the browser on. */
  datatype ActionResult = Page | RedirectToPage(pageName: string)

  /** What `Session.SetInt32` and `Session.SetString` store. */
  datatype SessionValue = SessionInt(intValue: int) | SessionString(stringValue: string)

  const MessageKey: string := "Message"
  const MessageTypeKey: string := "MessageType"
  const ShowRegisterKey: string := "ShowRegister"
  const SuccessType: string := "success"
  const LoggedOutMessage: string := "You have been successfully logged out."
  const CreatedMessage: string := "Account created successfully! Please login with your credentials."
  const IndexPageName: string := "/Index"
  const HomePageName: string := "/HomePage"

  // ----- Login -------------------------------------------------------------

  /** The ways `OnPostLoginAsync` can end. */
  datatype LoginOutcome =
    | MissingCredentials
    | UnknownUser
    | WrongPassword
    | Deactivated
    | LoggedIn(index: nat)

  function LoginErrorMessage(o: LoginOutcome): string
    requires !o.LoggedIn?
  {
    match o
    case MissingCredentials => "Please enter both username and password"
    case UnknownUser => "Invalid username or password"
    case WrongPassword => "Invalid username or password"
    case Deactivated => "Your account has been deactivated"
  }

  /** `FirstOrDefault(u => u.Username == name)`: the first row, in table order, with that username. */
  function FindByUsername(users: seq<User>, name: string): (r: Option<nat>)
    ensures r.Some? ==> r.value < |users| && users[r.value].username == name
    ensures r.Some? ==> forall j :: 0 <= j < r.value ==> users[j].username != name
    ensures r.None? ==> forall j :: 0 <= j < |users| ==> users[j].username != name
  {
    if users == [] then None
    else if users[0].username == name then Some(0)
    else
      match FindByUsername(users[1..], name)
      case None => None
      case Some(i) => Some(i + 1)
  }

  /** The decision `OnPostLoginAsync` makes, in the order it makes it. */
  function LoginDecision(kdf: PasswordHasher.Pbkdf2, users: seq<User>,
                         username: Option<string>, password: Option<string>): (o: LoginOutcome)
    ensures o.LoggedIn? ==> o.index < |users|
  {
    if Strings.IsNullOrWhiteSpace(username) || Strings.IsNullOrWhiteSpace(password) then MissingCredentials
    else
      match FindByUsername(users, username.value)
      case None => UnknownUser
      case Some(i) =>
        if !PasswordHasher.VerifyPassword(kdf, password.value, Some(users[i].passwordHash)) then WrongPassword
        else if !users[i].isActive then Deactivated
        else LoggedIn(i)
  }

  /** Row `i` is the first row whose username is `name`. */
  predicate FirstWithUsername(users: seq<User>, name: string, i: int) {
    0 <= i < |users| && users[i].username == name
    && forall j :: 0 <= j < i ==> users[j].username != name
  }

  /** What a session holds after logging in as `u`; a null name is stored as "". */
  function SessionFor(u: User): map<string, SessionValue> {
    map[
      "UserId" := SessionInt(u.userId),
      "Username" := SessionString(u.username),
      "Email" := SessionString(u.email),
      "FirstName" := SessionString(u.firstName.GetOr("")),
      "LastName" := SessionString(u.lastName.GetOr(""))]
  }

  /** Blank input is reported before the table is consulted, and only blank input is. */
  lemma LoginMissingCredentials(kdf: PasswordHasher.Pbkdf2, users: seq<User>, username: Option<string>, password: Option<string>)
    ensures LoginDecision(kdf, users, username, password) == MissingCredentials
        <==> Strings.IsNullOrWhiteSpace(username) || Strings.IsNullOrWhiteSpace(password)
    ensures LoginDecision(kdf, users, username, password) == MissingCredentials
        ==> forall other :: LoginDecision(kdf, other, username, password) == MissingCredentials
  {
  }

  /** An unknown user is reported exactly when no row has the (untrimmed) username. */
  lemma LoginUnknownUser(kdf: PasswordHasher.Pbkdf2, users: seq<User>, username: Option<string>, password: Option<string>)
    ensures LoginDecision(kdf, users, username, password) == UnknownUser
        <==> !Strings.IsNullOrWhiteSpace(username) && !Strings.IsNullOrWhiteSpace(password)
             && forall j :: 0 <= j < |users| ==> users[j].username != username.value
  {
  }

  /**
   * Login succeeds at row `i` exactly when both inputs are non-blank, `i` is
   * the first row with that username, the password verifies against its hash
   * and the account is active.
   */
  lemma LoginSucceeds(kdf: PasswordHasher.Pbkdf2, users: seq<User>, username: Option<string>, password: Option<string>, i: nat)
    ensures LoginDecision(kdf, users, username, password) == LoggedIn(i)
        <==> && !Strings.IsNullOrWhiteSpace(username) && !Strings.IsNullOrWhiteSpace(password)
             && FirstWithUsername(users, username.value, i)
             && PasswordHasher.VerifyPassword(kdf, password.value, Some(users[i].passwordHash))
             && users[i].isActive
  {
    if !Strings.IsNullOrWhiteSpace(username) && FirstWithUsername(users, username.value, i) {
      FirstIsUnique(users, username.value, i, FindByUsername(users, username.value).value);
    }
  }

  /** "Deactivated" is reported only for the first matching row, and only once its password has verified. */
  lemma LoginDeactivated(kdf: PasswordHasher.Pbkdf2, users: seq<User>, username: Option<string>, password: Option<string>)
    ensures LoginDecision(kdf, users, username, password) == Deactivated
        <==> && !Strings.IsNullOrWhiteSpace(username) && !Strings.IsNullOrWhiteSpace(password)
             && exists i :: && FirstWithUsername(users, username.value, i)
                            && PasswordHasher.VerifyPassword(kdf, password.value, Some(users[i].passwordHash))
                            && !users[i].isActive
  {
    if !Strings.IsNullOrWhiteSpace(username) && !Strings.IsNullOrWhiteSpace(password) {
      var r := FindByUsername(users, username.value);
      if r.Some? {
        assert FirstWithUsername(users, username.value, r.value);
        forall i | FirstWithUsername(users, username.value, i)
          ensures i == r.value
        {
          FirstIsUnique(users, username.value, i, r.value);
        }
      }
    }
  }

  /** An unknown username and a wrong password leave the same message: the page does not reveal which usernames exist. */
  lemma LoginFailuresIndistinguishable(o1: LoginOutcome, o2: LoginOutcome)
    requires o1 == UnknownUser || o1 == WrongPassword
    requires o2 == UnknownUser || o2 == WrongPassword
    ensures LoginErrorMessage(o1) == LoginErrorMessage(o2) == "Invalid username or password"
  {
  }

  lemma FirstIsUnique(users: seq<User>, name: string, i: int, k: int)
    requires FirstWithUsername(users, name, i) && FirstWithUsername(users, name, k)
    ensures i == k
  {
  }

  // ----- Registration ------------------------------------------------------

  /** The bound `RegisterInputModel`; an empty or missing form field binds as null. */
  datatype RegisterInput = RegisterInput(
    username: Option<string>,
    email: Option<string>,
    firstName: Option<string>,
    lastName: Option<string>,
    password: Option<string>,
    confirmPassword: Option<string>)

  /** The checks of `OnPostRegisterAsync`, in the order they run. */
  datatype RegisterError =
    | UsernameRequired | UsernameTooShort | UsernameTooLong
    | EmailRequired | EmailInvalid
    | PasswordRequired | PasswordTooShort | PasswordWeak
    | ConfirmRequired | PasswordMismatch
    | UsernameTaken | EmailTaken

  /** The ways `OnPostRegisterAsync` can end; `SaveFailed` is the `DbUpdateException` path. */
  datatype RegisterOutcome = Rejected(error: RegisterError) | SaveFailed | Created(user: User)

  /** The position of a check in the chain. */
  function Rank(e: RegisterError): nat {
    match e
    case UsernameRequired => 0
    case UsernameTooShort => 1
    case UsernameTooLong => 2
    case EmailRequired => 3
    case EmailInvalid => 4
    case PasswordRequired => 5
    case PasswordTooShort => 6
    case PasswordWeak => 7
    case ConfirmRequired => 8
    case PasswordMismatch => 9
    case UsernameTaken => 10
    case EmailTaken => 11
  }

  function RegisterErrorMessage(e: RegisterError): string {
    match e
    case UsernameRequired => "Username is required"
    case UsernameTooShort => "Username must be at least 3 characters"
    case UsernameTooLong => "Username must be less than 50 characters"
    case EmailRequired => "Email is required"
    case EmailInvalid => "Please enter a valid email address"
    case PasswordRequired => "Password is required"
    case PasswordTooShort => "Password must be at least 6 characters"
    case PasswordWeak => "Password must contain uppercase, lowercase, number, and special character (@$!%*?&)"
    case ConfirmRequired => "Please confirm your password"
    case PasswordMismatch => "Passwords do not match"
    case UsernameTaken => "Username already exists. Please choose a different username."
    case EmailTaken => "Email already registered. Please use a different email."
  }

  /** The message a failed registration leaves; `dbError` is the database's own error text. */
  function OutcomeMessage(o: RegisterOutcome, dbError: string): string
    requires !o.Created?
  {
    if o.SaveFailed? then "Database error: " + dbError else RegisterErrorMessage(o.error)
  }

  /** The four flags of the password loop, with `char.IsUpper`/`IsLower`/`IsDigit` read as ASCII. */
  predicate ServerPasswordStrong(p: string) {
    && Strings.HasCharWhere(p, Strings.IsAsciiUpper)
    && Strings.HasCharWhere(p, Strings.IsAsciiLower)
    && Strings.HasCharWhere(p, Strings.IsAsciiDigit)
    && Strings.HasCharWhere(p, Strings.IsSpecial)
  }

  /**
   * The password strength loop: one pass over the password raising a flag
   * per character class seen.
   */
  method PasswordStrengthFlags(password: string) returns (hasUppercase: bool, hasLowercase: bool, hasNumber: bool, hasSpecial: bool)
    ensures hasUppercase <==> Strings.HasCharWhere(password, Strings.IsAsciiUpper)
    ensures hasLowercase <==> Strings.HasCharWhere(password, Strings.IsAsciiLower)
    ensures hasNumber <==> Strings.HasCharWhere(password, Strings.IsAsciiDigit)
    ensures hasSpecial <==> Strings.HasCharWhere(password, Strings.IsSpecial)
  {
    hasUppercase, hasLowercase, hasNumber, hasSpecial := false, false, false, false;
    for i := 0 to |password|
      invariant hasUppercase <==> Strings.HasCharWhere(password[..i], Strings.IsAsciiUpper)
      invariant hasLowercase <==> Strings.HasCharWhere(password[..i], Strings.IsAsciiLower)
      invariant hasNumber <==> Strings.HasCharWhere(password[..i], Strings.IsAsciiDigit)
      invariant hasSpecial <==> Strings.HasCharWhere(password[..i], Strings.IsSpecial)
    {
      var c := password[i];
      assert password[..i + 1] == password[..i] + [c];
      if Strings.IsAsciiUpper(c) { hasUppercase := true; }
      if Strings.IsAsciiLower(c) { hasLowercase := true; }
      if Strings.IsAsciiDigit(c) { hasNumber := true; }
      if Strings.IsSpecial(c) { hasSpecial := true; }
    }
    assert password[..|password|] == password;
  }

  /** Whether check `e`, taken on its own, fails; a check of a field an earlier check found null does not. */
  predicate Fails(users: seq<User>, input: RegisterInput, e: RegisterError) {
    match e
    case UsernameRequired => Strings.IsNullOrWhiteSpace(input.username)
    case UsernameTooShort => input.username.Some? && |input.username.value| < 3
    case UsernameTooLong => input.username.Some? && |input.username.value| > UsernameMaxLength
    case EmailRequired => Strings.IsNullOrWhiteSpace(input.email)
    case EmailInvalid => input.email.Some? && !('@' in input.email.value && '.' in input.email.value)
    case PasswordRequired => Strings.IsNullOrWhiteSpace(input.password)
    case PasswordTooShort => input.password.Some? && |input.password.value| < 6
    case PasswordWeak => input.password.Some? && !ServerPasswordStrong(input.password.value)
    case ConfirmRequired => Strings.IsNullOrWhiteSpace(input.confirmPassword)
    case PasswordMismatch => input.password != input.confirmPassword
    case UsernameTaken => input.username.Some? && exists j :: 0 <= j < |users| && users[j].username == input.username.value
    case EmailTaken => input.email.Some? && exists j :: 0 <= j < |users| && users[j].email == input.email.value
  }

  /** The input checks (everything before the table lookups), as the handler runs them. */
  function ValidationFailure(input: RegisterInput): (r: Option<RegisterError>)
    ensures r.None? ==> input.username.Some? && input.email.Some? && input.password.Some?
    ensures r.None? ==> !Strings.IsNullOrWhiteSpace(input.password)
  {
    if Strings.IsNullOrWhiteSpace(input.username) then Some(UsernameRequired)
    else if |input.username.value| < 3 then Some(UsernameTooShort)
    else if |input.username.value| > UsernameMaxLength then Some(UsernameTooLong)
    else if Strings.IsNullOrWhiteSpace(input.email) then Some(EmailRequired)
    else if !('@' in input.email.value) || !('.' in input.email.value) then Some(EmailInvalid)
    else if Strings.IsNullOrWhiteSpace(input.password) then Some(PasswordRequired)
    else if |input.password.value| < 6 then Some(PasswordTooShort)
    else if !ServerPasswordStrong(input.password.value) then Some(PasswordWeak)
    else if Strings.IsNullOrWhiteSpace(input.confirmPassword) then Some(ConfirmRequired)
    else if input.password.value != input.confirmPassword.value then Some(PasswordMismatch)
    else None
  }

  /** The whole chain: the input checks, then username uniqueness, then email uniqueness. */
  function FirstFailure(users: seq<User>, input: RegisterInput): (r: Option<RegisterError>)
    ensures r.None? ==> input.username.Some? && input.email.Some? && input.password.Some?
    ensures r.None? ==> !Strings.IsNullOrWhiteSpace(input.password)
  {
    match ValidationFailure(input)
    case Some(e) => Some(e)
    case None =>
      if exists j :: 0 <= j < |users| && users[j].username == input.username.value then Some(UsernameTaken)
      else if exists j :: 0 <= j < |users| && users[j].email == input.email.value then Some(EmailTaken)
      else None
  }

  /**
   * An optional name as stored: null when blank; otherwise the input with its
   * surrounding whitespace removed, which is not empty and neither starts nor
   * ends with whitespace.
   */
  function OptionalName(s: Option<string>): (r: Option<string>)
    ensures r.None? <==> Strings.IsNullOrWhiteSpace(s)
    ensures r.Some? ==> s.Some? && Strings.IsTrimOf(r.value, s.value, Strings.IsDotNetWhiteSpace)
    ensures r.Some? ==>
              && r.value != []
              && !Strings.IsDotNetWhiteSpace(r.value[0])
              && !Strings.IsDotNetWhiteSpace(r.value[|r.value| - 1])
  {
    if Strings.IsNullOrWhiteSpace(s) then None
    else
      Strings.TrimSpec(s.value, Strings.IsDotNetWhiteSpace);
      Strings.TrimNotBlank(s.value, Strings.IsDotNetWhiteSpace);
      Some(Strings.Trim(s.value, Strings.IsDotNetWhiteSpace))
  }

  /** The record the handler builds once every check has passed. */
  function NewRecord(kdf: PasswordHasher.Pbkdf2, input: RegisterInput, salt: seq<Base64.byte>, now: DateTime): User
    requires input.username.Some? && input.email.Some? && input.password.Some?
    requires PasswordHasher.ValidSalt(salt)
  {
    NewUser(
      Strings.Trim(input.username.value, Strings.IsDotNetWhiteSpace),
      Strings.Trim(input.email.value, Strings.IsDotNetWhiteSpace),
      PasswordHasher.HashPassword(kdf, input.password.value, salt),
      OptionalName(input.firstName),
      OptionalName(input.lastName),
      now)
  }

  /** The result of a registration: the first failing check, a failed save, or the new record. */
  function Register(kdf: PasswordHasher.Pbkdf2, users: seq<User>, input: RegisterInput,
                    salt: seq<Base64.byte>, now: DateTime): RegisterOutcome
    requires PasswordHasher.ValidSalt(salt)
  {
    match FirstFailure(users, input)
    case Some(e) => Rejected(e)
    case None =>
      var u := NewRecord(kdf, input, salt, now);
      if UserModel.Valid(u) then Created(u) else SaveFailed
  }

  /**
   * The first failing check alone decides: the chain stops at `e` exactly when
   * check `e` fails and every check before it passes.
   */
  lemma FirstFailureWins(users: seq<User>, input: RegisterInput, e: RegisterError)
    ensures FirstFailure(users, input) == Some(e)
        <==> Fails(users, input, e) && forall e' :: Rank(e') < Rank(e) ==> !Fails(users, input, e')
  {
    if FirstFailure(users, input) == Some(e) {
      forall e' | Rank(e') < Rank(e)
        ensures !Fails(users, input, e')
      {
      }
    }
    if Fails(users, input, e) && forall e' :: Rank(e') < Rank(e) ==> !Fails(users, input, e') {
      PassedBefore(users, input, e);
    }
  }

  lemma PassedBefore(users: seq<User>, input: RegisterInput, e: RegisterError)
    requires Fails(users, input, e) && forall e' :: Rank(e') < Rank(e) ==> !Fails(users, input, e')
    ensures FirstFailure(users, input) == Some(e)
  {
    assert !Fails(users, input, UsernameRequired) ==> input.username.Some?;
    assert !Fails(users, input, EmailRequired) ==> input.email.Some?;
    if Rank(e) <= 9 {
      ValidationStopsAt(users, input, e);
    } else {
      ValidationStopsAt(users, input, PasswordMismatch);
      if Rank(e) > 10 { assert !Fails(users, input, UsernameTaken); }
    }
  }

  /** The input checks stop at the first of them that fails, or pass when none before `PasswordMismatch` and it fail. */
  lemma ValidationStopsAt(users: seq<User>, input: RegisterInput, e: RegisterError)
    requires Rank(e) <= 9
    requires forall e' :: Rank(e') < Rank(e) ==> !Fails(users, input, e')
    ensures Fails(users, input, e) ==> ValidationFailure(input) == Some(e)
    ensures !Fails(users, input, e) && e == PasswordMismatch ==> ValidationFailure(input).None?
  {
    if Rank(e) > 0 { assert !Fails(users, input, UsernameRequired); }
    if Rank(e) > 1 { assert !Fails(users, input, UsernameTooShort); }
    if Rank(e) > 2 { assert !Fails(users, input, UsernameTooLong); }
    if Rank(e) > 3 { assert !Fails(users, input, EmailRequired); }
    if Rank(e) > 4 { assert !Fails(users, input, EmailInvalid); }
    if Rank(e) > 5 { assert !Fails(users, input, PasswordRequired); }
    if Rank(e) > 6 { assert !Fails(users, input, PasswordTooShort); }
    if Rank(e) > 7 { assert !Fails(users, input, PasswordWeak); }
    if Rank(e) > 8 { assert !Fails(users, input, ConfirmRequired); }
  }

  /** Registration gets past every check exactly when no check fails. */
  lemma NoFailureIffAllPass(users: seq<User>, input: RegisterInput)
    ensures FirstFailure(users, input).None? <==> forall e :: !Fails(users, input, e)
  {
    if FirstFailure(users, input).None? {
      forall e ensures !Fails(users, input, e) {
      }
    } else {
      FirstFailureWins(users, input, FirstFailure(users, input).value);
    }
  }

  /** The username checks pass exactly when it is non-blank and 3 to 50 characters long, untrimmed (50 is accepted). */
  lemma UsernameChecks(users: seq<User>, input: RegisterInput)
    ensures (!Fails(users, input, UsernameRequired) && !Fails(users, input, UsernameTooShort) && !Fails(users, input, UsernameTooLong))
        <==> !Strings.IsNullOrWhiteSpace(input.username) && 3 <= |input.username.value| <= 50
  {
  }

  /** The email checks pass exactly when it is non-blank and contains both '@' and '.'; its width is not checked. */
  lemma EmailChecks(users: seq<User>, input: RegisterInput)
    ensures (!Fails(users, input, EmailRequired) && !Fails(users, input, EmailInvalid))
        <==> !Strings.IsNullOrWhiteSpace(input.email) && '@' in input.email.value && '.' in input.email.value
  {
  }

  /**
   * The password checks pass exactly when it is non-blank, at least 6
   * characters long and holds an uppercase letter, a lowercase letter, a digit
   * and one of `@$!%*?&`.
   */
  lemma PasswordChecks(users: seq<User>, input: RegisterInput)
    ensures (!Fails(users, input, PasswordRequired) && !Fails(users, input, PasswordTooShort) && !Fails(users, input, PasswordWeak))
        <==> && !Strings.IsNullOrWhiteSpace(input.password) && |input.password.value| >= 6
             && (exists k :: 0 <= k < |input.password.value| && Strings.IsAsciiUpper(input.password.value[k]))
             && (exists k :: 0 <= k < |input.password.value| && Strings.IsAsciiLower(input.password.value[k]))
             && (exists k :: 0 <= k < |input.password.value| && Strings.IsAsciiDigit(input.password.value[k]))
             && (exists k :: 0 <= k < |input.password.value| && input.password.value[k] in Strings.SpecialChars)
  {
  }

  /**
   * A created record is the trimmed username and email, the names stored as
   * null when blank and trimmed otherwise, the hash of the password, active,
   * never logged in, a valid row, and made only when every check passed: in
   * particular no row had the input's untrimmed username or email.
   */
  lemma RegisteredRecord(kdf: PasswordHasher.Pbkdf2, users: seq<User>, input: RegisterInput, salt: seq<Base64.byte>, now: DateTime)
    requires PasswordHasher.ValidSalt(salt)
    requires Register(kdf, users, input, salt, now).Created?
    ensures var u := Register(kdf, users, input, salt, now).user;
      && u.isActive && u.lastLoginAt.None? && u.createdAt == now
      && u.username == Strings.Trim(input.username.value, Strings.IsDotNetWhiteSpace)
      && u.email == Strings.Trim(input.email.value, Strings.IsDotNetWhiteSpace)
      && u.firstName == OptionalName(input.firstName) && u.lastName == OptionalName(input.lastName)
      && u.passwordHash == PasswordHasher.HashPassword(kdf, input.password.value, salt)
      && UserModel.Valid(u)
      && (forall e :: !Fails(users, input, e))
      && forall j :: 0 <= j < |users| ==> users[j].username != input.username.value && users[j].email != input.email.value
  {
    NoFailureIffAllPass(users, input);
  }

  /**
   * Once every check has passed, the save fails exactly when a column the
   * handler never measures is too wide: the trimmed email over 100
   * characters, or a trimmed name over 50. The username, the hash and the
   * required columns always fit.
   */
  lemma SaveFailsOnlyOnUncheckedWidths(kdf: PasswordHasher.Pbkdf2, users: seq<User>, input: RegisterInput, salt: seq<Base64.byte>, now: DateTime)
    requires PasswordHasher.ValidSalt(salt)
    requires FirstFailure(users, input).None?
    ensures Register(kdf, users, input, salt, now) == SaveFailed
        <==> || |Strings.Trim(input.email.value, Strings.IsDotNetWhiteSpace)| > EmailMaxLength
             || !OptionalWithin(OptionalName(input.firstName), NameMaxLength)
             || !OptionalWithin(OptionalName(input.lastName), NameMaxLength)
  {
    var ws := Strings.IsDotNetWhiteSpace;
    var u := NewRecord(kdf, input, salt, now);
    assert Register(kdf, users, input, salt, now) == (if UserModel.Valid(u) then Created(u) else SaveFailed);
    Strings.TrimNotBlank(input.username.value, ws);
    Strings.TrimNotBlank(input.email.value, ws);
    UserModel.HashFitsColumn(kdf, input.password.value, salt);
    assert RequiredText(u.username) && |u.username| <= UsernameMaxLength;
    assert RequiredText(u.email) && RequiredText(u.passwordHash) && |u.passwordHash| <= PasswordHashMaxLength;
  }

  /** No two rows share a username. */
  predicate DistinctUsernames(users: seq<User>) {
    forall i, j :: 0 <= i < j < |users| ==> users[i].username != users[j].username
  }

  /** No two rows share an email. */
  predicate DistinctEmails(users: seq<User>) {
    forall i, j :: 0 <= i < j < |users| ==> users[i].email != users[j].email
  }

  /**
   * Registration keeps usernames distinct when the input username is its own
   * trim; the uniqueness query compares the untrimmed input, so this is all
   * that can be claimed.
   */
  lemma RegisterKeepsUsernamesDistinct(kdf: PasswordHasher.Pbkdf2, users: seq<User>, input: RegisterInput,
                                        salt: seq<Base64.byte>, now: DateTime, id: int)
    requires PasswordHasher.ValidSalt(salt)
    requires DistinctUsernames(users)
    requires Register(kdf, users, input, salt, now).Created?
    requires input.username.Some? && Strings.Trim(input.username.value, Strings.IsDotNetWhiteSpace) == input.username.value
    ensures DistinctUsernames(users + [Register(kdf, users, input, salt, now).user.(userId := id)])
  {
    var u := Register(kdf, users, input, salt, now).user;
    CreatedIdentity(kdf, users, input, salt, now);
    AppendDistinctUsernames(users, u.(userId := id));
  }

  /** The same for emails, when the input email is its own trim. */
  lemma RegisterKeepsEmailsDistinct(kdf: PasswordHasher.Pbkdf2, users: seq<User>, input: RegisterInput,
                                     salt: seq<Base64.byte>, now: DateTime, id: int)
    requires PasswordHasher.ValidSalt(salt)
    requires DistinctEmails(users)
    requires Register(kdf, users, input, salt, now).Created?
    requires input.email.Some? && Strings.Trim(input.email.value, Strings.IsDotNetWhiteSpace) == input.email.value
    ensures DistinctEmails(users + [Register(kdf, users, input, salt, now).user.(userId := id)])
  {
    var u := Register(kdf, users, input, salt, now).user;
    CreatedIdentity(kdf, users, input, salt, now);
    AppendDistinctEmails(users, u.(userId := id));
  }

  lemma AppendDistinctUsernames(users: seq<User>, v: User)
    requires DistinctUsernames(users)
    requires forall j :: 0 <= j < |users| ==> users[j].username != v.username
    ensures DistinctUsernames(users + [v])
  {
    var t := users + [v];
    forall i, j | 0 <= i < j < |t|
      ensures t[i].username != t[j].username
    {
      assert t[i] == users[i];
      if j < |users| { assert t[j] == users[j]; }
    }
  }

  lemma AppendDistinctEmails(users: seq<User>, v: User)
    requires DistinctEmails(users)
    requires forall j :: 0 <= j < |users| ==> users[j].email != v.email
    ensures DistinctEmails(users + [v])
  {
    var t := users + [v];
    forall i, j | 0 <= i < j < |t|
      ensures t[i].email != t[j].email
    {
      assert t[i] == users[i];
      if j < |users| { assert t[j] == users[j]; }
    }
  }

  /** The stored username and email are the trimmed inputs, and no row had the untrimmed ones. */
  lemma CreatedIdentity(kdf: PasswordHasher.Pbkdf2, users: seq<User>, input: RegisterInput, salt: seq<Base64.byte>, now: DateTime)
    requires PasswordHasher.ValidSalt(salt)
    requires Register(kdf, users, input, salt, now).Created?
    ensures input.username.Some? && input.email.Some?
    ensures Register(kdf, users, input, salt, now).user.username == Strings.Trim(input.username.value, Strings.IsDotNetWhiteSpace)
    ensures Register(kdf, users, input, salt, now).user.email == Strings.Trim(input.email.value, Strings.IsDotNetWhiteSpace)
    ensures forall j :: 0 <= j < |users| ==> users[j].username != input.username.value && users[j].email != input.email.value
  {
  }

  /** The row and the registration used by `LeadingSpaceDuplicatesUsername`. */
  function Alice(): User {
    User(1, "alice", "alice@example.com", "x", None, None, 0, None, true)
  }

  function SpacedAlice(): RegisterInput {
    RegisterInput(Some(" alice"), Some("bob@example.com"), None, None, Some("Secret1!"), Some("Secret1!"))
  }

  lemma SpacedAliceValidates()
    ensures ValidationFailure(SpacedAlice()).None?
  {
    var ws := Strings.IsDotNetWhiteSpace;
    var pw := "Secret1!";
    var email := "bob@example.com";
    assert Strings.IsAsciiUpper(pw[0]) && Strings.IsAsciiLower(pw[1]) && Strings.IsAsciiDigit(pw[6]) && Strings.IsSpecial(pw[7]);
    assert !ws(" alice"[1]) && !ws(email[0]) && !ws(pw[0]);
    assert email[3] == '@' && email[11] == '.';
  }

  lemma SpacedAliceTrims()
    ensures Strings.Trim(" alice", Strings.IsDotNetWhiteSpace) == "alice"
    ensures Strings.Trim("bob@example.com", Strings.IsDotNetWhiteSpace) == "bob@example.com"
  {
    var ws := Strings.IsDotNetWhiteSpace;
    assert Strings.LeadingCount(" alice", ws) == 1 by {
      assert " alice"[1..] == "alice";
    }
    assert " alice"[1..] == "alice";
    assert Strings.TrailingCount("alice", ws) == 0;
    Strings.TrimFixedPoint("bob@example.com", ws);
  }

  /**
   * With "alice" in the table, registering " alice" passes the uniqueness
   * check (it compares the untrimmed input) and stores a second "alice".
   */
  lemma LeadingSpaceDuplicatesUsername(kdf: PasswordHasher.Pbkdf2, salt: seq<Base64.byte>, now: DateTime)
    requires PasswordHasher.ValidSalt(salt)
    ensures Register(kdf, [Alice()], SpacedAlice(), salt, now).Created?
    ensures Register(kdf, [Alice()], SpacedAlice(), salt, now).user.username == Alice().username
  {
    var input := SpacedAlice();
    SpacedAliceValidates();
    assert " alice" != "alice" && "bob@example.com" != "alice@example.com";
    assert FirstFailure([Alice()], input).None?;
    SpacedAliceTrims();
    SaveFailsOnlyOnUncheckedWidths(kdf, [Alice()], input, salt, now);
  }

  /**
   * A newly registered user can log in with the trimmed username and the
   * password, provided no earlier row already has that username.
   */
  lemma LoginAfterRegister(kdf: PasswordHasher.Pbkdf2, users: seq<User>, input: RegisterInput,
                           salt: seq<Base64.byte>, now: DateTime, id: int)
    requires PasswordHasher.ValidSalt(salt)
    requires Register(kdf, users, input, salt, now).Created?
    requires forall j :: 0 <= j < |users| ==> users[j].username != Register(kdf, users, input, salt, now).user.username
    ensures var u := Register(kdf, users, input, salt, now).user;
      LoginDecision(kdf, users + [u.(userId := id)], Some(u.username), input.password) == LoggedIn(|users|)
  {
    var u := Register(kdf, users, input, salt, now).user;
    CreatedCredentials(kdf, users, input, salt, now);
    PasswordHasher.HashThenVerify(kdf, input.password.value, salt);
    LoginAppended(kdf, users, u.(userId := id), input.password);
  }

  /** A created row is active, has a non-blank username, and holds the hash of a non-blank password. */
  lemma CreatedCredentials(kdf: PasswordHasher.Pbkdf2, users: seq<User>, input: RegisterInput, salt: seq<Base64.byte>, now: DateTime)
    requires PasswordHasher.ValidSalt(salt)
    requires Register(kdf, users, input, salt, now).Created?
    ensures var u := Register(kdf, users, input, salt, now).user;
      && input.password.Some? && !Strings.IsNullOrWhiteSpace(input.password)
      && u.isActive && !Strings.IsNullOrWhiteSpace(Some(u.username))
      && u.passwordHash == PasswordHasher.HashPassword(kdf, input.password.value, salt)
  {
  }

  /** A row appended with a fresh username is found by that username, and logs in when its password verifies. */
  lemma LoginAppended(kdf: PasswordHasher.Pbkdf2, users: seq<User>, v: User, password: Option<string>)
    requires forall j :: 0 <= j < |users| ==> users[j].username != v.username
    requires !Strings.IsNullOrWhiteSpace(Some(v.username)) && !Strings.IsNullOrWhiteSpace(password)
    requires PasswordHasher.VerifyPassword(kdf, password.value, Some(v.passwordHash)) && v.isActive
    ensures LoginDecision(kdf, users + [v], Some(v.username), password) == LoggedIn(|users|)
  {
    var t := users + [v];
    assert forall j :: 0 <= j < |users| ==> t[j] == users[j];
    assert FirstWithUsername(t, v.username, |users|);
    LoginSucceeds(kdf, t, Some(v.username), password, |users|);
  }

  // ----- The page model ----------------------------------------------------

  /** Every row is valid, and identity values are positive, increasing and below `nextId`. */
  predicate ValidTable(users: seq<User>, nextId: int) {
    && 0 < nextId
    && (forall i :: 0 <= i < |users| ==> UserModel.Valid(users[i]))
    && (forall i :: 0 <= i < |users| ==> 0 < users[i].userId < nextId)
    && (forall i, j :: 0 <= i < j < |users| ==> users[i].userId < users[j].userId)
  }

  /** Stamping one row's `LastLoginAt` keeps the table invariant. */
  lemma StampKeepsTable(users: seq<User>, nextId: int, i: nat, now: DateTime)
    requires ValidTable(users, nextId) && i < |users|
    ensures ValidTable(users[i := users[i].(lastLoginAt := Some(now))], nextId)
  {
    StampKeepsValid(users[i], now);
  }

  /** Appending a valid row under the next identity value keeps the table invariant for the incremented counter. */
  lemma AppendKeepsTable(users: seq<User>, nextId: int, u: User)
    requires ValidTable(users, nextId) && UserModel.Valid(u)
    ensures ValidTable(users + [u.(userId := nextId)], nextId + 1)
  {
    var t := users + [u.(userId := nextId)];
    assert forall i :: 0 <= i < |users| ==> t[i] == users[i];
  }

  /** The five session writes of a login, one after another, are the session merged with `SessionFor(u)`. */
  lemma SessionWrites(m: map<string, SessionValue>, u: User)
    ensures m["UserId" := SessionInt(u.userId)]["Username" := SessionString(u.username)]["Email" := SessionString(u.email)]
             ["FirstName" := SessionString(u.firstName.GetOr(""))]["LastName" := SessionString(u.lastName.GetOr(""))]
        == m + SessionFor(u)
  {
  }

  /**
   * The handler's state: the `Users` table, the next identity value, the
   * session, TempData and the two message properties the page renders.
   * The table, the session and TempData outlive a request; the two messages
   * are plain properties of a page model that ASP.NET creates afresh for each
   * request, so every handler starts with both of them null.
   */
  class IndexModel {
    var users: seq<User>
    var nextId: int
    var session: map<string, SessionValue>
    var tempData: map<string, string>
    var errorMessage: Option<string>
    var successMessage: Option<string>

    /** The table invariant holds of the current table. */
    ghost predicate Valid()
      reads this
    {
      ValidTable(users, nextId)
    }

    /** A page model over an existing table, with a fresh session and no messages. */
    constructor(table: seq<User>, next: int)
      requires ValidTable(table, next)
      ensures Valid()
      ensures users == table && nextId == next
      ensures session == map[] && tempData == map[] && errorMessage.None? && successMessage.None?
    {
      users := table;
      nextId := next;
      session := map[];
      tempData := map[];
      errorMessage := None;
      successMessage := None;
    }

    /** `OnGet`: show a message left in TempData, as a success message when its type says so. */
    method OnGet()
      modifies this
      ensures users == old(users) && nextId == old(nextId) && session == old(session) && tempData == old(tempData)
      ensures MessageKey in tempData && MessageTypeKey in tempData && tempData[MessageTypeKey] == SuccessType
        ==> successMessage == Some(tempData[MessageKey]) && errorMessage.None?
      ensures MessageKey in tempData && !(MessageTypeKey in tempData && tempData[MessageTypeKey] == SuccessType)
        ==> errorMessage == Some(tempData[MessageKey]) && successMessage.None?
      ensures MessageKey !in tempData ==> errorMessage.None? && successMessage.None?
    {
      errorMessage, successMessage := None, None;
      if MessageKey in tempData {
        var messageType := if MessageTypeKey in tempData then Some(tempData[MessageTypeKey]) else None;
        if messageType == Some(SuccessType) {
          successMessage := Some(tempData[MessageKey]);
        } else {
          errorMessage := Some(tempData[MessageKey]);
        }
      }
    }

    /** `OnPostLogout`: the session is emptied and a success message is left for the next page. */
    method OnPostLogout() returns (result: ActionResult)
      requires Valid()
      modifies this
      ensures Valid()
      ensures session == map[]
      ensures tempData == old(tempData)[MessageKey := LoggedOutMessage][MessageTypeKey := SuccessType]
      ensures users == old(users) && nextId == old(nextId)
      ensures errorMessage.None? && successMessage.None?
      ensures result == RedirectToPage(IndexPageName)
    {
      errorMessage, successMessage := None, None;
      session := map[];
      tempData := tempData[MessageKey := LoggedOutMessage];
      tempData := tempData[MessageTypeKey := SuccessType];
      result := RedirectToPage(IndexPageName);
    }

    /**
     * `OnPostLoginAsync`, with `now` for the clock. On success only the matched
     * row changes, and only its `LastLoginAt`; the session gains that user's
     * id, username, email and names. On failure nothing but the error message
     * changes.
     */
    method OnPostLogin(kdf: PasswordHasher.Pbkdf2, username: Option<string>, password: Option<string>, now: DateTime)
      returns (result: ActionResult)
      requires Valid()
      modifies this
      ensures Valid()
      ensures nextId == old(nextId) && tempData == old(tempData) && successMessage.None?
      ensures var o := LoginDecision(kdf, old(users), username, password);
        o.LoggedIn? ==>
          var u := old(users)[o.index].(lastLoginAt := Some(now));
          && users == old(users)[o.index := u]
          && session == old(session) + SessionFor(u)
          && errorMessage.None?
          && result == RedirectToPage(HomePageName)
      ensures var o := LoginDecision(kdf, old(users), username, password);
        !o.LoggedIn? ==>
          && users == old(users) && session == old(session)
          && errorMessage == Some(LoginErrorMessage(o))
          && result == Page
    {
      errorMessage, successMessage := None, None;
      var outcome := LoginChecks(kdf, username, password);
      result := FinishLogin(outcome, now);
    }

    /** The checks of `OnPostLoginAsync` against the current table, in order. */
    method LoginChecks(kdf: PasswordHasher.Pbkdf2, username: Option<string>, password: Option<string>)
      returns (outcome: LoginOutcome)
      ensures outcome == LoginDecision(kdf, users, username, password)
    {
      if Strings.IsNullOrWhiteSpace(username) || Strings.IsNullOrWhiteSpace(password) {
        return MissingCredentials;
      }
      var found := FindByUsername(users, username.value);
      if found.None? {
        return UnknownUser;
      }
      var user := users[found.value];
      if !PasswordHasher.VerifyPassword(kdf, password.value, Some(user.passwordHash)) {
        return WrongPassword;
      }
      if !user.isActive {
        return Deactivated;
      }
      return LoggedIn(found.value);
    }

    /** What the handler does once the outcome is known: stamp the row and fill the session, or show the error. */
    method FinishLogin(outcome: LoginOutcome, now: DateTime) returns (result: ActionResult)
      requires Valid()
      requires outcome.LoggedIn? ==> outcome.index < |users|
      modifies this
      ensures Valid()
      ensures nextId == old(nextId) && tempData == old(tempData) && successMessage == old(successMessage)
      ensures outcome.LoggedIn? ==>
          var u := old(users)[outcome.index].(lastLoginAt := Some(now));
          && users == old(users)[outcome.index := u]
          && session == old(session) + SessionFor(u)
          && errorMessage == old(errorMessage)
          && result == RedirectToPage(HomePageName)
      ensures !outcome.LoggedIn? ==>
          && users == old(users) && session == old(session)
          && errorMessage == Some(LoginErrorMessage(outcome))
          && result == Page
    {
      if !outcome.LoggedIn? {
        errorMessage := Some(LoginErrorMessage(outcome));
        return Page;
      }
      var i := outcome.index;
      StampKeepsTable(users, nextId, i, now);
      var user := users[i].(lastLoginAt := Some(now));
      users := users[i := user];
      SessionWrites(session, user);
      session := session["UserId" := SessionInt(user.userId)];
      session := session["Username" := SessionString(user.username)];
      session := session["Email" := SessionString(user.email)];
      session := session["FirstName" := SessionString(user.firstName.GetOr(""))];
      session := session["LastName" := SessionString(user.lastName.GetOr(""))];
      result := RedirectToPage(HomePageName);
    }

    /** A failed check: keep the register form open and show the check's message. */
    method Reject(message: string)
      modifies this
      ensures tempData == old(tempData)[ShowRegisterKey := "true"] && errorMessage == Some(message)
      ensures users == old(users) && nextId == old(nextId) && session == old(session) && successMessage == old(successMessage)
    {
      tempData := tempData[ShowRegisterKey := "true"];
      errorMessage := Some(message);
    }

    /**
     * `OnPostRegisterAsync`, with the salt, the clock and the database's error
     * text as parameters. A registration either appends exactly the new row,
     * under the next identity value, and leaves a success message, or leaves
     * the table as it was and shows the error of the first failing check.
     */
    method OnPostRegister(kdf: PasswordHasher.Pbkdf2, input: RegisterInput, salt: seq<Base64.byte>, now: DateTime, dbError: string)
      returns (result: ActionResult)
      requires Valid()
      requires PasswordHasher.ValidSalt(salt)
      modifies this
      ensures Valid()
      ensures session == old(session) && successMessage.None?
      ensures var o := Register(kdf, old(users), input, salt, now);
        var cleared := old(tempData) - {MessageKey, MessageTypeKey};
        o.Created? ==>
          && users == old(users) + [o.user.(userId := old(nextId))]
          && nextId == old(nextId) + 1
          && tempData == (cleared - {ShowRegisterKey})[MessageKey := CreatedMessage][MessageTypeKey := SuccessType]
          && errorMessage.None?
          && result == RedirectToPage(IndexPageName)
      ensures var o := Register(kdf, old(users), input, salt, now);
        var cleared := old(tempData) - {MessageKey, MessageTypeKey};
        !o.Created? ==>
          && users == old(users) && nextId == old(nextId)
          && tempData == cleared[ShowRegisterKey := "true"]
          && errorMessage == Some(OutcomeMessage(o, dbError))
          && result == Page
    {
      errorMessage, successMessage := None, None;
      tempData := tempData - {MessageKey, MessageTypeKey};
      var outcome := RegisterChecks(kdf, input, salt, now);
      result := FinishRegister(outcome, dbError);
    }

    /** What the handler does once the outcome is known: insert and report success, or show the error. */
    method FinishRegister(outcome: RegisterOutcome, dbError: string) returns (result: ActionResult)
      requires Valid()
      requires outcome.Created? ==> UserModel.Valid(outcome.user)
      modifies this
      ensures Valid()
      ensures session == old(session) && successMessage == old(successMessage)
      ensures outcome.Created? ==>
          && users == old(users) + [outcome.user.(userId := old(nextId))]
          && nextId == old(nextId) + 1
          && tempData == (old(tempData) - {ShowRegisterKey})[MessageKey := CreatedMessage][MessageTypeKey := SuccessType]
          && errorMessage == old(errorMessage)
          && result == RedirectToPage(IndexPageName)
      ensures !outcome.Created? ==>
          && users == old(users) && nextId == old(nextId)
          && tempData == old(tempData)[ShowRegisterKey := "true"]
          && errorMessage == Some(OutcomeMessage(outcome, dbError))
          && result == Page
    {
      if !outcome.Created? {
        Reject(OutcomeMessage(outcome, dbError));
        return Page;
      }
      AppendKeepsTable(users, nextId, outcome.user);
      users := users + [outcome.user.(userId := nextId)];
      nextId := nextId + 1;
      tempData := tempData - {ShowRegisterKey};
      tempData := tempData[MessageKey := CreatedMessage];
      tempData := tempData[MessageTypeKey := SuccessType];
      result := RedirectToPage(IndexPageName);
    }

    /**
     * The checks of `OnPostRegisterAsync` against the current table, in
     * order, up to and including the save: the first failure, a failed save,
     * or the record to insert.
     */
    method RegisterChecks(kdf: PasswordHasher.Pbkdf2, input: RegisterInput, salt: seq<Base64.byte>, now: DateTime)
      returns (outcome: RegisterOutcome)
      requires PasswordHasher.ValidSalt(salt)
      ensures outcome == Register(kdf, users, input, salt, now)
      ensures outcome.Created? ==> UserModel.Valid(outcome.user)
    {
      var failure := CheckInput(input);
      if failure.Some? {
        return Rejected(failure.value);
      }
      var usernameTaken := exists j | 0 <= j < |users| :: users[j].username == input.username.value;
      if usernameTaken {
        return Rejected(UsernameTaken);
      }
      var emailTaken := exists j | 0 <= j < |users| :: users[j].email == input.email.value;
      if emailTaken {
        return Rejected(EmailTaken);
      }
      var newUser := NewRecord(kdf, input, salt, now);
      if !UserModel.Valid(newUser) {
        return SaveFailed;
      }
      return Created(newUser);
    }
  }

  /** The input checks of `OnPostRegisterAsync`, in order, with the password loop. */
  method CheckInput(input: RegisterInput) returns (failure: Option<RegisterError>)
    ensures failure == ValidationFailure(input)
  {
    if Strings.IsNullOrWhiteSpace(input.username) { return Some(UsernameRequired); }
    if |input.username.value| < 3 { return Some(UsernameTooShort); }
    if |input.username.value| > UsernameMaxLength { return Some(UsernameTooLong); }
    if Strings.IsNullOrWhiteSpace(input.email) { return Some(EmailRequired); }
    if !('@' in input.email.value) || !('.' in input.email.value) { return Some(EmailInvalid); }
    if Strings.IsNullOrWhiteSpace(input.password) { return Some(PasswordRequired); }
    if |input.password.value| < 6 { return Some(PasswordTooShort); }
    var hasUppercase, hasLowercase, hasNumber, hasSpecial := PasswordStrengthFlags(input.password.value);
    if !hasUppercase || !hasLowercase || !hasNumber || !hasSpecial { return Some(PasswordWeak); }
    if Strings.IsNullOrWhiteSpace(input.confirmPassword) { return Some(ConfirmRequired); }
    if input.password.value != input.confirmPassword.value { return Some(PasswordMismatch); }
    return None;
  }
}
