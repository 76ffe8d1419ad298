/**
 * How the browser-side checks of wwwroot/js/site.js relate to the server-side
 * checks of Pages/Index.cshtml.cs. The form posts the raw field values, so the
 * server sees the untrimmed username and email the client trimmed before
 * checking them.
 */
module ClientServer {
  import opened Wrappers
  import Strings
  import Site
  import UserModel
  import IndexPage

  /** What the server binds from a form the client let through. */
  function Posted(f: Site.RegisterForm, firstName: Option<string>, lastName: Option<string>): IndexPage.RegisterInput {
    IndexPage.RegisterInput(f.username, f.email, firstName, lastName, f.password, f.confirmPassword)
  }

  /** A password the client calls strong raises all four of the server's flags. */
  lemma StrongPasswordPassesServerLoop(p: string)
    requires Site.IsStrongPassword(p)
    ensures IndexPage.ServerPasswordStrong(p)
    ensures !Strings.IsNullOrWhiteSpace(Some(p))
  {
    assert Site.PasswordChar(p[0]);
  }

  /** A character outside both whitespace sets keeps a string from being blank. */
  lemma NotBlankWith(s: string, c: char)
    requires c in s && !Strings.IsDotNetWhiteSpace(c)
    ensures !Strings.IsNullOrWhiteSpace(Some(s))
  {
  }

  /** An email the client accepts after trimming passes both server email checks untrimmed. */
  lemma ClientEmailPassesServer(e: string)
    requires Site.IsValidEmail(Site.JsTrim(e))
    ensures !Strings.IsNullOrWhiteSpace(Some(e)) && '@' in e && '.' in e
  {
    var te := Site.JsTrim(e);
    var i :| && 0 < i < |te| && te[i] == '@'
             && Site.EmailChars(te[..i]) && Site.EmailChars(te[i + 1..]) && Site.HasInnerDot(te[i + 1..]);
    var d := te[i + 1..];
    var j :| 0 < j < |d| - 1 && d[j] == '.';
    assert te[i + 1 + j] == '.';
    Strings.TrimKeeps(e, Strings.IsJsWhiteSpace, '@');
    Strings.TrimKeeps(e, Strings.IsJsWhiteSpace, '.');
    NotBlankWith(e, '@');
  }

  /**
   * A form the client submits passes every server check of the email, the
   * password and its confirmation, and the server's minimum username length.
   */
  lemma ClientAcceptedPassesServer(f: Site.RegisterForm, users: seq<UserModel.User>,
                                   firstName: Option<string>, lastName: Option<string>)
    requires Site.RegisterSubmitCheck(f).None?
    ensures var input := Posted(f, firstName, lastName);
      && !IndexPage.Fails(users, input, IndexPage.UsernameTooShort)
      && !IndexPage.Fails(users, input, IndexPage.EmailRequired)
      && !IndexPage.Fails(users, input, IndexPage.EmailInvalid)
      && !IndexPage.Fails(users, input, IndexPage.PasswordRequired)
      && !IndexPage.Fails(users, input, IndexPage.PasswordTooShort)
      && !IndexPage.Fails(users, input, IndexPage.PasswordWeak)
      && !IndexPage.Fails(users, input, IndexPage.ConfirmRequired)
      && !IndexPage.Fails(users, input, IndexPage.PasswordMismatch)
  {
    Site.ClientSubmitsIffAllPass(f);
    assert !Site.ClientFails(f, Site.NeedUsername) && !Site.ClientFails(f, Site.UsernameShort);
    assert !Site.ClientFails(f, Site.NeedEmail) && !Site.ClientFails(f, Site.BadEmail);
    assert !Site.ClientFails(f, Site.NeedPassword) && !Site.ClientFails(f, Site.PasswordNotStrong);
    assert !Site.ClientFails(f, Site.Mismatch);
    ClientEmailPassesServer(f.email.value);
    StrongPasswordPassesServerLoop(f.password.value);
  }

  /** Three U+0085 (NEXT LINE) characters: whitespace to .NET, not to JavaScript. */
  function NextLines(): string {
    ['\U{0085}', '\U{0085}', '\U{0085}']
  }

  /**
   * The two whitespace sets differ: a username the client's checks accept
   * is blank to the server, which rejects it as missing.
   */
  lemma ClientServerUsernameGap(f: Site.RegisterForm, users: seq<UserModel.User>,
                                firstName: Option<string>, lastName: Option<string>)
    requires f.username == Some(NextLines())
    ensures !Site.ClientFails(f, Site.NeedUsername)
    ensures !Site.ClientFails(f, Site.UsernameShort) && !Site.ClientFails(f, Site.UsernameLong)
    ensures IndexPage.Fails(users, Posted(f, firstName, lastName), IndexPage.UsernameRequired)
  {
    Strings.TrimFixedPoint(NextLines(), Strings.IsJsWhiteSpace);
  }
}
