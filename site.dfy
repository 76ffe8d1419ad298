/**
 * The decisions of wwwroot/js/site.js, without the DOM work around them: the
 * email and strong-password regular expressions, the password-strength hint
 * and the confirm-match border, the login and register submit checks, and the
 * cart badge count. A form field is `None` when its element is missing (the
 * `?.value` is then `undefined`).
 */
module Site {
  import opened Wrappers
  import Strings

  /** JavaScript's `String.prototype.trim`. */
  function JsTrim(s: string): string {
    Strings.Trim(s, Strings.IsJsWhiteSpace)
  }

  /** `el?.value.trim()`. */
  function TrimmedField(v: Option<string>): Option<string> {
    match v
    case None => None
    case Some(s) => Some(JsTrim(s))
  }

  /** A field value in a boolean context: `undefined` and `""` are falsy. */
  predicate Falsy(v: Option<string>) {
    v.None? || v.value == []
  }

  // ----- isValidEmail: /^[^\s@]+@[^\s@]+\.[^\s@]+$/ --------------------------

  /** `[^\s@]`. */
  predicate EmailChar(c: char) {
    !Strings.IsJsWhiteSpace(c) && c != '@'
  }

  /** `[^\s@]*`. */
  predicate EmailChars(s: string) {
    forall k :: 0 <= k < |s| ==> EmailChar(s[k])
  }

  /** The regular expression's own reading: three non-empty runs of `[^\s@]` around '@' at `i` and '.' at `j`. */
  ghost predicate MatchesEmailRegex(e: string) {
    exists i, j :: && 0 < i && i + 1 < j && j + 1 < |e|
                   && e[i] == '@' && e[j] == '.'
                   && EmailChars(e[..i]) && EmailChars(e[i + 1..j]) && EmailChars(e[j + 1..])
  }

  /** The domain has a '.' that is neither its first nor its last character. */
  predicate HasInnerDot(d: string) {
    exists j :: 0 < j < |d| - 1 && d[j] == '.'
  }

  /**
   * `isValidEmail`: `e` is `L + "@" + D` with `L` non-empty, neither part
   * holding whitespace or '@', and `D` holding an inner '.'.
   */
  predicate IsValidEmail(e: string) {
    exists i :: && 0 < i < |e| && e[i] == '@'
                && EmailChars(e[..i]) && EmailChars(e[i + 1..]) && HasInnerDot(e[i + 1..])
  }

  lemma ValidEmailMatches(e: string, i: int)
    requires 0 < i < |e| && e[i] == '@'
    requires EmailChars(e[..i]) && EmailChars(e[i + 1..]) && HasInnerDot(e[i + 1..])
    ensures MatchesEmailRegex(e)
  {
    var d := e[i + 1..];
    var jd :| 0 < jd < |d| - 1 && d[jd] == '.';
    var j := i + 1 + jd;
    assert e[i + 1..j] == d[..jd];
    assert e[j + 1..] == d[jd + 1..];
    assert e[j] == '.';
  }

  lemma MatchedEmailValid(e: string, i: int, j: int)
    requires 0 < i && i + 1 < j && j + 1 < |e| && e[i] == '@' && e[j] == '.'
    requires EmailChars(e[..i]) && EmailChars(e[i + 1..j]) && EmailChars(e[j + 1..])
    ensures IsValidEmail(e)
  {
    var d := e[i + 1..];
    assert d == e[i + 1..j] + [e[j]] + e[j + 1..];
    assert EmailChar(e[j]);
    assert d[j - (i + 1)] == '.';
    assert HasInnerDot(d);
  }

  /** The two readings agree. */
  lemma EmailRegex(e: string)
    ensures IsValidEmail(e) <==> MatchesEmailRegex(e)
  {
    if IsValidEmail(e) {
      var i :| && 0 < i < |e| && e[i] == '@'
               && EmailChars(e[..i]) && EmailChars(e[i + 1..]) && HasInnerDot(e[i + 1..]);
      ValidEmailMatches(e, i);
    }
    if MatchesEmailRegex(e) {
      var i, j :| && 0 < i && i + 1 < j && j + 1 < |e|
                  && e[i] == '@' && e[j] == '.'
                  && EmailChars(e[..i]) && EmailChars(e[i + 1..j]) && EmailChars(e[j + 1..]);
      MatchedEmailValid(e, i, j);
    }
  }

  // ----- isStrongPassword --------------------------------------------------

  /** `[A-Za-z\d@$!%*?&]`. */
  predicate PasswordChar(c: char) {
    Strings.IsAsciiUpper(c) || Strings.IsAsciiLower(c) || Strings.IsAsciiDigit(c) || Strings.IsSpecial(c)
  }

  /** `(?=.*[x])` at the start: some character of class `x` after a run of characters that `.` matches. */
  ghost predicate Lookahead(p: string, cls: char -> bool) {
    exists k :: 0 <= k < |p| && cls(p[k]) && forall m :: 0 <= m < k ==> !Strings.IsJsLineTerminator(p[m])
  }

  /** `/^(?=.*[a-z])(?=.*[A-Z])(?=.*\d)(?=.*[@$!%*?&])[A-Za-z\d@$!%*?&]{6,}$/`, read literally. */
  ghost predicate MatchesStrongRegex(p: string) {
    && Lookahead(p, Strings.IsAsciiLower) && Lookahead(p, Strings.IsAsciiUpper)
    && Lookahead(p, Strings.IsAsciiDigit) && Lookahead(p, Strings.IsSpecial)
    && |p| >= 6 && forall k :: 0 <= k < |p| ==> PasswordChar(p[k])
  }

  /**
   * `isStrongPassword`: at least 6 characters, all from `A-Z a-z 0-9 @$!%*?&`,
   * with at least one of each of the four classes.
   */
  predicate IsStrongPassword(p: string) {
    && |p| >= 6 && (forall k :: 0 <= k < |p| ==> PasswordChar(p[k]))
    && Strings.HasCharWhere(p, Strings.IsAsciiLower) && Strings.HasCharWhere(p, Strings.IsAsciiUpper)
    && Strings.HasCharWhere(p, Strings.IsAsciiDigit) && Strings.HasCharWhere(p, Strings.IsSpecial)
  }

  /** A lookahead over text free of line terminators is just "some character of the class". */
  lemma LookaheadPlain(p: string, cls: char -> bool)
    requires forall k :: 0 <= k < |p| ==> PasswordChar(p[k])
    ensures Lookahead(p, cls) <==> Strings.HasCharWhere(p, cls)
  {
    if Strings.HasCharWhere(p, cls) {
      var k :| 0 <= k < |p| && cls(p[k]);
      assert forall m :: 0 <= m < k ==> PasswordChar(p[m]);
    }
  }

  /** The two readings agree. */
  lemma StrongPasswordRegex(p: string)
    ensures IsStrongPassword(p) <==> MatchesStrongRegex(p)
  {
    if forall k :: 0 <= k < |p| ==> PasswordChar(p[k]) {
      LookaheadPlain(p, Strings.IsAsciiLower);
      LookaheadPlain(p, Strings.IsAsciiUpper);
      LookaheadPlain(p, Strings.IsAsciiDigit);
      LookaheadPlain(p, Strings.IsSpecial);
    }
  }

  // ----- validatePasswordStrength and validatePasswordMatch ----------------

  /** The four hints `validatePasswordStrength` shows. */
  datatype StrengthHint = Requirements | TooShort | Weak | Strong

  function PasswordStrengthHint(password: string): StrengthHint {
    if |password| == 0 then Requirements
    else if |password| < 6 then TooShort
    else if !IsStrongPassword(password) then Weak
    else Strong
  }

  /** Exactly one hint applies, each for the inputs it names; "strong" is exactly `isStrongPassword`. */
  lemma StrengthHintCases(password: string)
    ensures PasswordStrengthHint(password) == Requirements <==> |password| == 0
    ensures PasswordStrengthHint(password) == TooShort <==> 0 < |password| < 6
    ensures PasswordStrengthHint(password) == Weak <==> |password| >= 6 && !IsStrongPassword(password)
    ensures PasswordStrengthHint(password) == Strong <==> IsStrongPassword(password)
  {
  }

  /** The confirm field's border: cleared, green or red; untouched when the field is missing. */
  datatype MatchBorder = Untouched | Cleared | Green | Red

  function PasswordMatchBorder(password: Option<string>, confirmPassword: Option<string>): MatchBorder {
    if confirmPassword.None? then Untouched
    else if |confirmPassword.value| == 0 then Cleared
    else if password == confirmPassword then Green
    else Red
  }

  /** Neutral for an empty confirmation, green exactly when the two agree, red otherwise. */
  lemma MatchBorderCases(password: Option<string>, confirm: string)
    ensures PasswordMatchBorder(password, Some(confirm)) == Cleared <==> confirm == []
    ensures PasswordMatchBorder(password, Some(confirm)) == Green <==> confirm != [] && password == Some(confirm)
    ensures PasswordMatchBorder(password, Some(confirm)) == Red <==> confirm != [] && password != Some(confirm)
  {
  }

  // ----- The login submit check --------------------------------------------

  /** Submit goes ahead, or is stopped with the empty fields highlighted. */
  datatype LoginSubmit = Proceed | Blocked(highlightUsername: bool, highlightPassword: bool)

  function LoginSubmitCheck(username: Option<string>, password: Option<string>): LoginSubmit {
    var u := TrimmedField(username);
    if Falsy(u) || Falsy(password) then Blocked(Falsy(u), Falsy(password)) else Proceed
  }

  /**
   * Submit is stopped exactly when the username is missing or all
   * whitespace, or the password is missing or empty; each of those fields,
   * and only those, is highlighted.
   */
  lemma LoginSubmitBlocked(username: Option<string>, password: Option<string>)
    ensures var blankName := username.None? || Strings.AllWhiteSpace(username.value, Strings.IsJsWhiteSpace);
      && (LoginSubmitCheck(username, password).Blocked? <==> blankName || Falsy(password))
      && (LoginSubmitCheck(username, password).Blocked? ==>
            LoginSubmitCheck(username, password) == Blocked(blankName, Falsy(password)))
  {
    if username.Some? {
      Strings.TrimSpec(username.value, Strings.IsJsWhiteSpace);
    }
  }

  // ----- The register submit check -----------------------------------------

  /** The ten checks of the register submit handler, in order. */
  datatype ClientCheck =
    | NeedUsername | UsernameShort | UsernameLong
    | NeedEmail | BadEmail
    | NeedPassword | PasswordShort | PasswordNotStrong
    | NeedConfirm | Mismatch

  function ClientRank(c: ClientCheck): nat {
    match c
    case NeedUsername => 0
    case UsernameShort => 1
    case UsernameLong => 2
    case NeedEmail => 3
    case BadEmail => 4
    case NeedPassword => 5
    case PasswordShort => 6
    case PasswordNotStrong => 7
    case NeedConfirm => 8
    case Mismatch => 9
  }

  function ClientAlert(c: ClientCheck): string {
    match c
    case NeedUsername => "Username is required"
    case UsernameShort => "Username must be at least 3 characters"
    case UsernameLong => "Username must be less than 50 characters"
    case NeedEmail => "Email is required"
    case BadEmail => "Please enter a valid email address"
    case NeedPassword => "Password is required"
    case PasswordShort => "Password must be at least 6 characters"
    case PasswordNotStrong => "Password must contain at least one uppercase letter, one lowercase letter, one number, and one special character"
    case NeedConfirm => "Please confirm your password"
    case Mismatch => "Passwords do not match"
  }

  /** The raw field values of the register form. */
  datatype RegisterForm = RegisterForm(
    username: Option<string>, email: Option<string>, password: Option<string>, confirmPassword: Option<string>)

  /** Whether check `c`, on its own, fails; username and email are taken trimmed. */
  predicate ClientFails(f: RegisterForm, c: ClientCheck) {
    var u, e := TrimmedField(f.username), TrimmedField(f.email);
    match c
    case NeedUsername => Falsy(u)
    case UsernameShort => u.Some? && |u.value| < 3
    case UsernameLong => u.Some? && |u.value| > 50
    case NeedEmail => Falsy(e)
    case BadEmail => e.Some? && !IsValidEmail(e.value)
    case NeedPassword => Falsy(f.password)
    case PasswordShort => f.password.Some? && |f.password.value| < 6
    case PasswordNotStrong => f.password.Some? && !IsStrongPassword(f.password.value)
    case NeedConfirm => Falsy(f.confirmPassword)
    case Mismatch => f.password != f.confirmPassword
  }

  /** The submit handler's chain: the first failing check, or `None` to let the form submit. */
  function RegisterSubmitCheck(f: RegisterForm): Option<ClientCheck> {
    var u, e := TrimmedField(f.username), TrimmedField(f.email);
    if Falsy(u) then Some(NeedUsername)
    else if |u.value| < 3 then Some(UsernameShort)
    else if |u.value| > 50 then Some(UsernameLong)
    else if Falsy(e) then Some(NeedEmail)
    else if !IsValidEmail(e.value) then Some(BadEmail)
    else if Falsy(f.password) then Some(NeedPassword)
    else if |f.password.value| < 6 then Some(PasswordShort)
    else if !IsStrongPassword(f.password.value) then Some(PasswordNotStrong)
    else if Falsy(f.confirmPassword) then Some(NeedConfirm)
    else if f.password.value != f.confirmPassword.value then Some(Mismatch)
    else None
  }

  /** The first failing check alone decides the alert. */
  lemma ClientFirstFailureWins(f: RegisterForm, c: ClientCheck)
    ensures RegisterSubmitCheck(f) == Some(c)
        <==> ClientFails(f, c) && forall c' :: ClientRank(c') < ClientRank(c) ==> !ClientFails(f, c')
  {
    if ClientFails(f, c) && forall c' :: ClientRank(c') < ClientRank(c) ==> !ClientFails(f, c') {
      ClientPassedBefore(f, c);
    }
  }

  lemma ClientPassedBefore(f: RegisterForm, c: ClientCheck)
    requires ClientFails(f, c) && forall c' :: ClientRank(c') < ClientRank(c) ==> !ClientFails(f, c')
    ensures RegisterSubmitCheck(f) == Some(c)
  {
    if ClientRank(c) > 0 { assert !ClientFails(f, NeedUsername); }
    if ClientRank(c) > 1 { assert !ClientFails(f, UsernameShort); }
    if ClientRank(c) > 2 { assert !ClientFails(f, UsernameLong); }
    if ClientRank(c) > 3 { assert !ClientFails(f, NeedEmail); }
    if ClientRank(c) > 4 { assert !ClientFails(f, BadEmail); }
    if ClientRank(c) > 5 { assert !ClientFails(f, NeedPassword); }
    if ClientRank(c) > 6 { assert !ClientFails(f, PasswordShort); }
    if ClientRank(c) > 7 { assert !ClientFails(f, PasswordNotStrong); }
    if ClientRank(c) > 8 { assert !ClientFails(f, NeedConfirm); }
  }

  /** The form submits exactly when all ten checks pass. */
  lemma ClientSubmitsIffAllPass(f: RegisterForm)
    ensures RegisterSubmitCheck(f).None? <==> forall c :: !ClientFails(f, c)
  {
    if RegisterSubmitCheck(f).Some? {
      ClientFirstFailureWins(f, RegisterSubmitCheck(f).value);
    }
  }

  /** The client's username checks pass exactly when 3 <= |trim(u)| <= 50. */
  lemma ClientUsernameChecks(f: RegisterForm)
    ensures (!ClientFails(f, NeedUsername) && !ClientFails(f, UsernameShort) && !ClientFails(f, UsernameLong))
        <==> f.username.Some? && 3 <= |JsTrim(f.username.value)| <= 50
  {
  }

  // ----- updateCartCount ---------------------------------------------------

  datatype CartItem = CartItem(quantity: int)

  /** `cart.reduce((sum, item) => sum + item.quantity, acc)`: a left fold. */
  function Reduce(items: seq<CartItem>, acc: int): int {
    if items == [] then acc else Reduce(items[1..], acc + items[0].quantity)
  }

  /** The total quantity, as a reference. */
  function Sum(items: seq<CartItem>): int {
    if items == [] then 0 else items[0].quantity + Sum(items[1..])
  }

  /** The stored cart (`JSON.parse(localStorage.getItem("cart")) || []`), counted. */
  function CartCount(stored: Option<seq<CartItem>>): int {
    Reduce(stored.GetOr([]), 0)
  }

  /** The badge's `display`. */
  datatype Display = InlineBlock | Hidden

  function BadgeDisplay(count: int): Display {
    if count > 0 then InlineBlock else Hidden
  }

  lemma {:induction false} ReduceIsSum(items: seq<CartItem>, acc: int)
    ensures Reduce(items, acc) == acc + Sum(items)
  {
    if items != [] {
      ReduceIsSum(items[1..], acc + items[0].quantity);
    }
  }

  /** The count is the sum of the quantities (nothing for a missing cart), and the badge shows exactly when it is positive. */
  lemma CartCountIsSum(stored: Option<seq<CartItem>>)
    ensures CartCount(stored) == (if stored.None? then 0 else Sum(stored.value))
    ensures BadgeDisplay(CartCount(stored)) == InlineBlock <==> CartCount(stored) > 0
  {
    ReduceIsSum(stored.GetOr([]), 0);
  }

  /** With no negative quantities, the badge shows exactly when some item has a positive quantity. */
  lemma {:induction false} BadgeShowsForPositiveItem(items: seq<CartItem>)
    requires forall k :: 0 <= k < |items| ==> items[k].quantity >= 0
    ensures Sum(items) >= 0
    ensures Sum(items) > 0 <==> exists k :: 0 <= k < |items| && items[k].quantity > 0
  {
    if items != [] {
      var tail := items[1..];
      assert forall k :: 0 <= k < |tail| ==> tail[k] == items[k + 1];
      BadgeShowsForPositiveItem(tail);
      if Sum(items) > 0 && items[0].quantity <= 0 {
        var k :| 0 <= k < |tail| && tail[k].quantity > 0;
        assert items[k + 1].quantity > 0;
      }
      if exists k :: 0 <= k < |items| && items[k].quantity > 0 {
        var k :| 0 <= k < |items| && items[k].quantity > 0;
        if k > 0 {
          assert tail[k - 1].quantity > 0;
        }
      }
    }
  }
}
