# Formanez-Bringcola login page, modelled in Dafny

The site's authentication core, modelled and proved:

- **Credential scheme** (`Helpers/PasswordHasher.cs`). A stored credential is
  `Base64(salt) + ":" + Base64(PBKDF2-HMAC-SHA256(password, salt, 100000, 32))`. The model has:
  - a concrete base 64 codec following section 4 of RFC 4648 (`Base64`);
  - `String.Split(char)` and the .NET/JavaScript whitespace and trimming rules (`Strings`);
  - `HashPassword` and `VerifyPassword` (`PasswordHasher`).
- **User record** (`Models/Users.cs`). A datatype, plus the row constraints its attributes impose (`UserModel`).
- **Login page handler** (`Pages/Index.cshtml.cs`). The page model `IndexModel` is a class. It holds:
  - the user table and the next identity value;
  - the session, TempData and the page's two messages.

  The table, the session and TempData carry over from one request to the next. The two messages do not: they are plain properties of a page model that ASP.NET builds afresh for each request. So every handler starts with both messages null.

  Its handlers are methods: `OnGet`, `OnPostLogout`, `OnPostLogin` and `OnPostRegister`.
  - `OnGet` and `OnPostLogout` state their new state directly in their postconditions.
  - `OnPostLogin` is proved against the specification function `LoginDecision`.
  - `OnPostRegister` is proved against `Register`: a fixed-order chain of checks in which the first failure wins.

  The four-flag password loop is a method with loop invariants.
- **Browser checks** (`wwwroot/js/site.js`), in module `Site`:
  - the email and strong-password regular expressions, each proved equal to a literal reading of the expression;
  - the password-strength hint and the confirm-match border;
  - the login and register submit check chains;
  - the cart badge count.

  `ClientServer` relates the client's checks to the server's.

Decisions that differ from a literal reading:

- **PBKDF2** is a parameter `kdf`. Any function whose output has the requested length may stand for it.
- **The random salt** is a parameter, with the precondition "16 nonzero bytes".
- **The clock** is a parameter `now`.
- **The database's error text** is a parameter `dbError`.
- **Null strings**, on the server and the client, are `Option<string>`: `None` is a C# null or a JavaScript `undefined`.
- **Saving a new row** fails exactly when the row breaks `UserModel.Valid`.
  - Entity Framework runs no validation at save. `[Required]` only makes a column `NOT NULL`, and a column wider than its `nvarchar(n)` is what the database refuses.
  - `UserModel.Valid` also asks the required columns to be non-blank. That is stricter than the database, but the handler's own checks make it unreachable.
  - `IndexPage.SaveFailsOnlyOnUncheckedWidths` proves that only the widths the handler never measures can make the save fail: the trimmed email and the two names.
- **Trimming is inconsistent, and the model keeps it so.** The server checks the length and uniqueness of the untrimmed username and email, but stores the trimmed values. `IndexPage.LeadingSpaceDuplicatesUsername` shows a second "alice" being stored. Uniqueness of stored usernames and emails is proved only for inputs equal to their own trim.
- **The client's register chain** has ten checks (two of them on the confirmation), and so has the model.

## Model

| member | source | states |
|---|---|---|
| Strings.IsNullOrWhiteSpace | Pages/Index.cshtml.cs:69-70 | `string.IsNullOrWhiteSpace`: null, or every character in the .NET whitespace set; its relation to trimming is given by Strings.TrimSpec |
| Strings.Trim | Pages/Index.cshtml.cs:244-247 | `String.Trim()` and JavaScript `trim()`: never longer than the input; characterised by Strings.TrimSpec |
| Strings.TrimSpec | Pages/Index.cshtml.cs:244-245 | `Trim` removes exactly the leading and trailing whitespace, keeps the rest contiguous, and yields "" exactly for a blank string |
| Strings.Split | Helpers/PasswordHasher.cs:34 | `Split(':')` gives one more part than there are separators, no part holds a separator, and joining the parts with the separator gives back the string |
| Strings.SplitAtSeparator | Helpers/PasswordHasher.cs:34-36 | `a + ":" + b`, with no separator in `a` or `b`, splits into exactly `[a, b]` |
| Strings.SplitTwo | Helpers/PasswordHasher.cs:34-36 | a string that splits into two parts is those two parts around one separator |
| Base64.DecodeSextet | Helpers/PasswordHasher.cs:38 | decoding an alphabet character is the inverse of the alphabet table |
| Base64.DecodeCharsOfChars | Helpers/PasswordHasher.cs:38 | mapping sextets to alphabet characters and back gives the sextets |
| Base64.CharsOfDecodeChars | Helpers/PasswordHasher.cs:38 | text made only of alphabet characters is re-encoded to itself |
| Base64.UnsextetsOfSextets | Helpers/PasswordHasher.cs:27 | splitting 1 to 3 bytes into 6-bit groups leaves the pad bits zero, and regrouping gives the bytes back |
| Base64.SextetsOfUnsextets | Helpers/PasswordHasher.cs:38 | 6-bit groups with zero pad bits survive regrouping into bytes and back |
| Base64.Encode | Helpers/PasswordHasher.cs:27 | `n` bytes encode to `4 * ceil(n / 3)` characters |
| Base64.QuantumShape | Helpers/PasswordHasher.cs:27 | a final quantum of `m` bytes has `m + 1` alphabet characters, then padding |
| Base64.EncodeShape | Helpers/PasswordHasher.cs:27 | an encoding is alphabet characters followed by exactly 0, 1 or 2 '=' |
| Base64.DecodeEncodeQuantum | Helpers/PasswordHasher.cs:38 | a quantum decodes to the bytes it encodes |
| Base64.EncodeDecodeQuantum | Helpers/PasswordHasher.cs:38 | a quantum that decodes is the encoding of what it decodes to, and holds three bytes unless it is the final quantum |
| Base64.Decode | Helpers/PasswordHasher.cs:38 | `Convert.FromBase64String`, read strictly; characterised by Base64.DecodeEncode and Base64.EncodeDecode |
| Base64.DecodeEncode | Helpers/PasswordHasher.cs:38 | decoding an encoding gives back the bytes, for every byte string |
| Base64.EncodeDecode | Helpers/PasswordHasher.cs:38 | every text the strict decoder accepts is the canonical encoding of its bytes |
| Base64.EncodeAvoids | Helpers/PasswordHasher.cs:27 | no encoding contains ':' (or any other character outside the alphabet and '=') |
| PasswordHasher.DeriveKey | Helpers/PasswordHasher.cs:19-24 | the derived key is 32 bytes: HMAC-SHA256, 100000 iterations, 256 / 8 bytes requested |
| PasswordHasher.HashPassword | Helpers/PasswordHasher.cs:9-28 | the stored credential for a password and salt; characterised by PasswordHasher.HashSplits, PasswordHasher.HashShape and PasswordHasher.HashThenVerify |
| PasswordHasher.HashSplits | Helpers/PasswordHasher.cs:9-27 | every hash splits on ':' into exactly the encoded salt and the encoded key, the salt part decodes back to the salt, and the text is 69 characters |
| PasswordHasher.HashThenVerify | Helpers/PasswordHasher.cs:42-49 | a password always verifies against its own hash, for every valid salt |
| PasswordHasher.VerifyOtherPassword | Helpers/PasswordHasher.cs:42-49 | another password verifies against a hash exactly when PBKDF2 gives it the same key under that salt |
| PasswordHasher.VerifyImpliesMatch | Helpers/PasswordHasher.cs:34-49 | a verifying stored string is a decodable salt part, ':', and the encoding of the re-derived key |
| PasswordHasher.MatchImpliesVerify | Helpers/PasswordHasher.cs:34-49 | such a string verifies |
| PasswordHasher.VerifyPassword | Helpers/PasswordHasher.cs:30-55 | the check of a password against a stored credential; characterised by PasswordHasher.VerifyPasswordCharacterization |
| PasswordHasher.VerifyPasswordCharacterization | Helpers/PasswordHasher.cs:30-54 | `VerifyPassword` is true exactly when the stored string is one separator between a salt part that decodes and a key part equal, as text, to the encoding of the derived key; the key part is never decoded |
| PasswordHasher.VerifyRejectsNull | Helpers/PasswordHasher.cs:32-54 | a null stored string gives false (the exception is caught) |
| PasswordHasher.VerifyRejectsSeparatorCount | Helpers/PasswordHasher.cs:34-36 | zero separators, or more than one, give false |
| PasswordHasher.VerifyRejectsUndecodableSalt | Helpers/PasswordHasher.cs:38 | one separator with a salt part that is not base 64 gives false |
| PasswordHasher.VerifyRejectsEmpty | Helpers/PasswordHasher.cs:34-36 | the empty string gives false for every password |
| PasswordHasher.SaltTextShape | Helpers/PasswordHasher.cs:12 | a 16-byte salt encodes to 22 alphabet characters and "==" |
| PasswordHasher.KeyTextShape | Helpers/PasswordHasher.cs:24 | a 32-byte key encodes to 43 alphabet characters and "=" |
| PasswordHasher.HashShape | Helpers/PasswordHasher.cs:27 | every hash is 69 characters: 24 salt characters ending in exactly "==", ':' at index 24, and 44 key characters ending in exactly one "="; both parts use only `[A-Za-z0-9+/=]` |
| UserModel.Valid | Models/Users.cs:10-46 | the row constraints of the `Users` attributes: the required text columns non-blank, and every text column within its `nvarchar(n)`; kept by UserModel.StampKeepsValid and IndexPage.AppendKeepsTable |
| UserModel.NewUser | Models/Users.cs:39-46 | a new row with `CreatedAt` the given time, no `LastLoginAt` and `IsActive` true; its fields are stated by IndexPage.RegisteredRecord |
| UserModel.HashFitsColumn | Models/Users.cs:25-28 | every hash is non-blank and fits the 255-character `PasswordHash` column |
| UserModel.StampKeepsValid | Models/Users.cs:43 | setting `LastLoginAt` keeps a row valid and keeps its id |
| IndexPage.FindByUsername | Pages/Index.cshtml.cs:77-78 | finds the first row with the username, and nothing when no row has it |
| IndexPage.LoginDecision | Pages/Index.cshtml.cs:64-98 | a successful login names a row of the table |
| IndexPage.LoginMissingCredentials | Pages/Index.cshtml.cs:69-74 | "Please enter both username and password" happens exactly for a null or blank username or password, whatever the table holds |
| IndexPage.LoginUnknownUser | Pages/Index.cshtml.cs:76-84 | the unknown-user outcome happens exactly when both inputs are non-blank and no row has the untrimmed username |
| IndexPage.LoginSucceeds | Pages/Index.cshtml.cs:76-98 | login succeeds at row `i` exactly when both inputs are non-blank, `i` is the first row with that username, the password verifies and the account is active |
| IndexPage.LoginDeactivated | Pages/Index.cshtml.cs:93-98 | "Your account has been deactivated" is reported exactly when the first matching row is inactive and its password verified |
| IndexPage.LoginFailuresIndistinguishable | Pages/Index.cshtml.cs:80-91 | an unknown username and a wrong password leave the same message |
| IndexPage.SessionFor | Pages/Index.cshtml.cs:105-109 | the five session entries of a logged-in user; tied to the handler's writes by IndexPage.SessionWrites |
| IndexPage.SessionWrites | Pages/Index.cshtml.cs:105-109 | the five session writes equal the old session overridden by the user's id, username, email and names, with a null name stored as "" |
| IndexPage.StampKeepsTable | Pages/Index.cshtml.cs:101 | stamping one row's `LastLoginAt` keeps the table invariant |
| IndexPage.AppendKeepsTable | Models/Users.cs:10-12 | inserting a valid row under the next identity value keeps identities positive and increasing |
| IndexPage.IndexModel.OnGet | Pages/Index.cshtml.cs:33-48 | a TempData message becomes the success message when its type is "success" and the error message otherwise, and the other message is null; with no TempData message both are null; nothing else changes |
| IndexPage.IndexModel.OnPostLogout | Pages/Index.cshtml.cs:51-61 | the session is empty, TempData holds the logged-out message with type "success", the table is unchanged, both messages are null, and the result redirects to "/Index" |
| IndexPage.IndexModel.OnPostLogin | Pages/Index.cshtml.cs:64-112 | on success only the matched row's `LastLoginAt` changes, the session gains that user, and the result redirects to "/HomePage" with no message; otherwise the table and session are unchanged and only the outcome's error message is shown |
| IndexPage.IndexModel.LoginChecks | Pages/Index.cshtml.cs:69-98 | the handler's checks, in order, compute `LoginDecision` on the current table |
| IndexPage.IndexModel.FinishLogin | Pages/Index.cshtml.cs:100-112 | the state after a known outcome: the stamp and session writes, or the error message |
| IndexPage.IndexModel.Reject | Pages/Index.cshtml.cs:198-201 | a failed check sets `ShowRegister` and the error message and changes nothing else |
| IndexPage.IndexModel.OnPostRegister | Pages/Index.cshtml.cs:122-282 | removes the old message from TempData, then either appends exactly the new row under the next identity value and leaves the success message in TempData with both page messages null, or leaves the table unchanged, sets `ShowRegister` and shows only the first failure's error message (or "Database error: " and the database's text) |
| IndexPage.IndexModel.RegisterChecks | Pages/Index.cshtml.cs:130-257 | the handler's checks, the record it builds and the save compute `Register` on the current table |
| IndexPage.IndexModel.FinishRegister | Pages/Index.cshtml.cs:254-282 | the state after a known outcome: insert and success message, or `ShowRegister` and the error |
| IndexPage.CheckInput | Pages/Index.cshtml.cs:130-217 | the handler's input checks, run in order with the password loop, give `ValidationFailure` |
| IndexPage.ServerPasswordStrong | Pages/Index.cshtml.cs:184-197 | all four character classes occur in the password; computed by IndexPage.PasswordStrengthFlags and implied by the client's check (ClientServer.StrongPasswordPassesServerLoop) |
| IndexPage.PasswordStrengthFlags | Pages/Index.cshtml.cs:184-195 | each of the four flags is raised exactly when the password holds a character of its class |
| IndexPage.ValidationFailure | Pages/Index.cshtml.cs:130-217 | when every input check passes, the username, email and password are present and the password is not blank |
| IndexPage.FirstFailure | Pages/Index.cshtml.cs:219-239 | the same for the whole chain, including both uniqueness queries |
| IndexPage.OptionalName | Pages/Index.cshtml.cs:246-247 | a first or last name is stored as null exactly when it is null or blank; otherwise the stored name is the input with exactly its surrounding whitespace removed, is not empty, and neither starts nor ends with whitespace |
| IndexPage.FirstFailureWins | Pages/Index.cshtml.cs:130-239 | the chain stops at check `e` exactly when `e` fails and every earlier check passes |
| IndexPage.NoFailureIffAllPass | Pages/Index.cshtml.cs:130-239 | registration gets past the checks exactly when none fails |
| IndexPage.UsernameChecks | Pages/Index.cshtml.cs:131-150 | the username passes exactly when it is non-blank and 3 to 50 characters long, untrimmed, so length 50 is accepted |
| IndexPage.EmailChecks | Pages/Index.cshtml.cs:153-166 | the email passes exactly when it is non-blank and contains both '@' and '.' |
| IndexPage.PasswordChecks | Pages/Index.cshtml.cs:169-202 | the password passes exactly when it is non-blank, at least 6 characters long, and holds an uppercase letter, a lowercase letter, a digit and one of `@$!%*?&` |
| IndexPage.NewRecord | Pages/Index.cshtml.cs:242-251 | the record built once every check has passed; its fields are stated by IndexPage.RegisteredRecord |
| IndexPage.Register | Pages/Index.cshtml.cs:219-282 | the outcome of a registration; characterised by IndexPage.FirstFailureWins, IndexPage.RegisteredRecord and IndexPage.SaveFailsOnlyOnUncheckedWidths |
| IndexPage.RegisteredRecord | Pages/Index.cshtml.cs:242-251 | a created record has the trimmed username and email, names null when blank, the password's hash, `IsActive` true, no `LastLoginAt`, and `CreatedAt` set to now; it is a valid row; and no existing row had the untrimmed username or email |
| IndexPage.CreatedIdentity | Pages/Index.cshtml.cs:220-245 | a created row stores the trimmed username and email, and no existing row had the untrimmed ones |
| IndexPage.SaveFailsOnlyOnUncheckedWidths | Pages/Index.cshtml.cs:277-282 | once every check passed, the save fails exactly when the trimmed email exceeds 100 characters or a trimmed name exceeds 50 |
| IndexPage.RegisterKeepsUsernamesDistinct | Pages/Index.cshtml.cs:220-244 | registration keeps stored usernames distinct when the input username equals its own trim |
| IndexPage.RegisterKeepsEmailsDistinct | Pages/Index.cshtml.cs:231-245 | registration keeps stored emails distinct when the input email equals its own trim |
| IndexPage.LeadingSpaceDuplicatesUsername | Pages/Index.cshtml.cs:220-244 | with "alice" in the table, registering " alice" succeeds and stores a second "alice" |
| IndexPage.LoginAfterRegister | Pages/Index.cshtml.cs:242-254 | a newly registered user logs in with the stored username and the password, when no earlier row has that username |
| Site.IsValidEmail | wwwroot/js/site.js:175-178 | `isValidEmail`; equal to the regular expression by Site.EmailRegex |
| Site.EmailRegex | wwwroot/js/site.js:175-178 | `isValidEmail(e)` holds exactly when `e` is `L@D`, where `L` is non-empty, neither part holds whitespace or '@', and `D` has a '.' that is neither its first nor its last character; this equals the regular expression read literally |
| Site.IsStrongPassword | wwwroot/js/site.js:181-185 | `isStrongPassword`; equal to the regular expression by Site.StrongPasswordRegex |
| Site.StrongPasswordRegex | wwwroot/js/site.js:181-185 | `isStrongPassword(p)` holds exactly when (1) `p` has at least 6 characters, (2) all of them are in `A-Za-z0-9@$!%*?&`, and (3) it has one character of each class; this equals the lookahead expression read literally |
| Site.PasswordStrengthHint | wwwroot/js/site.js:188-208 | the strength hint shown for a password; characterised by Site.StrengthHintCases |
| Site.StrengthHintCases | wwwroot/js/site.js:188-208 | exactly one of four hints is shown: requirements for "", too short below 6, weak when not strong, and strong exactly for a strong password |
| Site.PasswordMatchBorder | wwwroot/js/site.js:211-228 | the confirm field's border; characterised by Site.MatchBorderCases |
| Site.MatchBorderCases | wwwroot/js/site.js:211-228 | the confirm border is cleared for an empty confirmation, green exactly when it equals the password, and red otherwise |
| Site.LoginSubmitCheck | wwwroot/js/site.js:24-41 | the login form's submit decision; characterised by Site.LoginSubmitBlocked |
| Site.LoginSubmitBlocked | wwwroot/js/site.js:24-41 | submit is blocked exactly when the username is missing or all whitespace, or the password is missing or empty; exactly those fields are highlighted |
| Site.RegisterSubmitCheck | wwwroot/js/site.js:71-155 | the register form's first failing check; characterised by Site.ClientFirstFailureWins and Site.ClientSubmitsIffAllPass |
| Site.ClientFirstFailureWins | wwwroot/js/site.js:71-151 | the register alert is check `c`'s exactly when `c` fails and every earlier check passes |
| Site.ClientSubmitsIffAllPass | wwwroot/js/site.js:71-155 | the register form submits exactly when all ten checks pass |
| Site.ClientUsernameChecks | wwwroot/js/site.js:72-97 | the client's username checks pass exactly when `3 <= \|trim(u)\| <= 50` |
| Site.Reduce | wwwroot/js/site.js:350 | the `reduce` over the cart; characterised by Site.ReduceIsSum |
| Site.CartCount | wwwroot/js/site.js:349-350 | the cart count; characterised by Site.CartCountIsSum |
| Site.BadgeDisplay | wwwroot/js/site.js:355 | the badge's display; characterised by Site.CartCountIsSum and Site.BadgeShowsForPositiveItem |
| Site.ReduceIsSum | wwwroot/js/site.js:350 | the left fold from any start value is that value plus the sum of the quantities |
| Site.CartCountIsSum | wwwroot/js/site.js:348-356 | the cart count is the sum of the quantities (0 for no stored cart), and the badge is shown exactly when that count is positive |
| Site.BadgeShowsForPositiveItem | wwwroot/js/site.js:354 | with no negative quantities, the sum is non-negative and positive exactly when some item's quantity is |
| ClientServer.StrongPasswordPassesServerLoop | Pages/Index.cshtml.cs:184-202 | a password the client calls strong raises all four server flags and is not blank |
| ClientServer.ClientEmailPassesServer | Pages/Index.cshtml.cs:153-166 | an email the client accepts after trimming passes both server email checks untrimmed |
| ClientServer.ClientAcceptedPassesServer | wwwroot/js/site.js:71-155 | a form the client submits passes the server's email, password and confirmation checks, and its minimum username length |
| ClientServer.ClientServerUsernameGap | Pages/Index.cshtml.cs:131-136 | three U+0085 characters pass every client username check, yet the server rejects them as blank |

## Left out

- PBKDF2 and HMAC-SHA256 internals: a foreign library. The model takes the derivation as a parameter and relies only on the output length.
- The random number generator: the salt is a parameter. "Two hashes of one password differ" depends on randomness and is not stated.
- Constant-time comparison and timing: the model has no notion of time.
- Entity Framework, `SaveChangesAsync`, async/await and exception message texts:
  - the table is an in-memory sequence;
  - the database's error text is the parameter `dbError`.
- The "Failed to save user to database" branch (Pages/Index.cshtml.cs:270-273): `SaveChangesAsync` reports one written row when it does not throw, so the branch cannot be reached.
- IndexPage.IndexModel.OnPostLogin: does not model the "Login error: " catch (Pages/Index.cshtml.cs:114-118). Stamping `LastLoginAt` on a valid row cannot fail to save.
- IndexPage.IndexModel.OnPostRegister: does not model the generic "Error: " catch (Pages/Index.cshtml.cs:283-288). Nothing in the modelled handler throws outside the save.
- The identity counter after a failed insert: in the database it may skip a value. The model keeps `nextId`.
- Database string comparison: the username and email queries are modelled as exact, case-sensitive string equality.
  - On SQL Server, `=` ignores trailing spaces under every collation (ANSI padding). So a login as "alice " finds the "alice" row in the database, while `IndexPage.LoginDecision` gives `UnknownUser`.
  - A case-insensitive collation would also treat "Alice" and "alice" as equal.
- IndexPage.RegisterKeepsUsernamesDistinct and IndexPage.RegisterKeepsEmailsDistinct hold only for registrations that run one at a time. The uniqueness queries (Pages/Index.cshtml.cs:220-232) and the insert (line 257) are separate steps, and no unique index backs them. Two overlapping requests can both pass the queries and both store the same username or email. The model has no concurrency.
- `[EmailAddress]` on `Users.Email`: Entity Framework does not check it at save, so the model does not either.
- ASP.NET plumbing: the session's backing store, TempData's read-once lifetime, the cookie, and how `Page()` and `RedirectToPage` render.
- IndexPage.PasswordStrengthFlags: reads `char.IsUpper`, `IsLower` and `IsDigit` as ASCII `A-Z`, `a-z` and `0-9`. A non-ASCII letter or digit raises a flag in .NET but not in the model.
- UserModel.Valid: counts `nvarchar` widths and JavaScript lengths in `char`s, one per code point. A character outside the Basic Multilingual Plane takes two UTF-16 units there.
- IndexPage.ValidationFailure: the server's own `.Length` tests (Pages/Index.cshtml.cs:138, 145, 176) count one per code point, where .NET counts UTF-16 units. So a username of two characters outside the Basic Multilingual Plane is too short in the model, yet .NET measures it as 4 and accepts it. The same applies to `IndexPage.CheckInput`, `IndexPage.UsernameChecks` and `IndexPage.PasswordChecks`, and to the client's `length` checks in `Site`.
- IndexPage.FindByUsername: `FirstOrDefaultAsync` without an `OrderBy` (Pages/Index.cshtml.cs:77-78) may return any matching row. The model assumes identity order and takes the row earliest in the table. Once duplicate usernames exist (`IndexPage.LeadingSpaceDuplicatesUsername`), this choice decides which row `IndexPage.LoginSucceeds` and `IndexPage.LoginDeactivated` check.
- Base64.Decode: strict following section 4 of RFC 4648. `Convert.FromBase64String` is more lenient: it skips whitespace and accepts non-zero pad bits. So the model verifies no more stored strings than .NET does, and possibly fewer.
- DOM work in wwwroot/js/site.js: styles, classes, focus, alerts, the loading state and the injected CSS. Only the decision each handler makes is kept. A missing form element is `None`.
- `JSON.parse` of the stored cart and JavaScript number semantics: the cart is a sequence of integer quantities. A string quantity would concatenate in JavaScript and is not modelled.
- Pages/HomePage.cshtml.cs and Data/ApplicationDbContext.cs: no logic that ends up in the core, and no unique indexes.
