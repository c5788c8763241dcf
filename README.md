# Admin account registration and login, modelled in Dafny

This project models the two authentication pages of a PHP library
management system. Each page turns one form submission into one outcome
and changes the `admin_users` table and the PHP session.

- `register.php` creates a staff account. It runs a CSRF gate, then field
  validation that reports every failed rule in page order, then a username
  check and an email check against the table, and finally inserts one
  account with the role `librarian`.
- `login.php` signs a staff member in. It runs a CSRF gate and an
  emptiness check. It looks the account up by username and verifies the
  password, and it reports an unknown user and a wrong password with the
  same message. On success it writes five session fields and stamps
  `last_login` on that account.

Layout, one module per file:

- `php.dfy` (`Php`): the PHP primitives the scripts rely on. Strings are
  byte strings. `empty()` is also true for `"0"`. `strlen` counts bytes.
  The regex `/^[a-zA-Z0-9_-]+$/` has no `D` modifier, so its `$` also
  accepts one final newline. Also `??` and `implode`.
- `store.dfy` (`Store`): the `admin_users` rows, and the `SELECT ...
  fetch()` lookups, which return the first matching row. Also the
  `UPDATE ... last_login` statement and the table's integrity
  constraints: unique usernames, emails and ids, and an auto-increment
  counter.
- `security.dfy` (`Security`): the session map, and the collaborators
  whose code is not part of this model: the `Security` helper class,
  `filter_var` and `password_hash`. Each is a function-valued field of
  `Env` that the caller supplies, so every result holds whatever those
  functions compute. The bcrypt round trip (`HashRoundTrips`) is assumed
  only where a proof needs it.
- `registration.dfy` (`Registration`): the messages, the validation rules,
  `CollectErrors` (which builds the error list one append at a time, as
  the script does) and `Register`. `Register` describes one POST request
  as a function of the table, the session and the submission. The lemmas
  about `Register` state the page's promises.
- `authentication.dfy` (`Authentication`): the same for the login page,
  with `Login` and its lemmas.
- `app.dfy` (`App`): class `Site`. It holds the table, the auto-increment
  counter and the session. Its methods `Register`, `Login` and `Logout`
  update those fields in place, step by step, as the scripts do. `Register`
  and `Login` are each proved to end in exactly the state the matching
  request function describes, and to keep the table's integrity
  constraints. `Logout` is proved to empty the session; its frame leaves
  the table and the counter as they were.
  `RegisteredAccountCanLogIn` links the two pages: an account that has
  just registered can log in with the same username and password.

Database exceptions are modelled by the parameter `failAt`. It names the
first statement of the `try` block that throws, if any. A statement that
the request never reaches cannot fail. The time parameters are `now`,
which is PHP's `time()`, and `dbNow`, which is the database's `NOW()`. The
bcrypt salt is the parameter `salt`.

Behaviour of the code worth knowing:

- When the `last_login` UPDATE throws (login.php:43-44), the five session
  writes (login.php:36-40) have already run. The page then shows "An
  error occurred. Please try again." but the session holds the user's
  identity. The lemma `Authentication.LoginStoreFailure` states this.
  When an earlier statement fails, no session field is written.
- login.php never regenerates the session: a successful login keeps every
  other key, including the CSRF token.
- The role is whatever string the `role` column holds, not a closed
  enumeration. Registration always writes `librarian`.
- The password rules (length, upper case, lower case, digit, special
  character) live in `Security::validatePasswordStrength`, which is not
  part of this model. The model reports whatever list that function
  returns, in its order.

## Model

| member | source | states |
|---|---|---|
| `Php.PatternIsAnchoredMatch` | register.php:35 | the username regex accepts exactly the subjects where a non-empty run of `[a-zA-Z0-9_-]` bytes from the start ends at the end of the subject or just before a final newline |
| `Store.Find` | register.php:68-71 | the lookup returns the first row whose column equals the value; it returns none exactly when no row has that value |
| `Store.FindIffTaken` | login.php:30-32 | the lookup finds a row exactly when some row holds the value |
| `Store.FindIsOnlyMatch` | login.php:30-32 | when the table is valid (usernames, emails and ids unique), the row the lookup returns, by username or by email, is the only matching row |
| `Store.TouchLastLogin` | login.php:43-44 | the UPDATE keeps the number of rows, sets `last_login` on every row with that `user_id`, and leaves every other row unchanged |
| `Store.TouchIsOneRowUpdate` | login.php:43-44 | when the table is valid, so that `user_id` is a key, the UPDATE replaces exactly one row, the one with that id, by the same row with the new `last_login` |
| `Store.AppendPreservesValid` | register.php:68-94 | appending a row whose username, email and id are all new keeps usernames, emails and ids unique |
| `Store.TouchPreservesValid` | login.php:43-44 | stamping `last_login` keeps the table's integrity constraints |
| `Security.SignIn` | login.php:36-40 | after sign-in, the session's `user_id`, `username`, `full_name` and `role` equal the account's fields and `last_activity` equals the current time; every other key keeps its value and no other key is added |
| `Registration.UsernameErrors` | register.php:31-37 | the `elseif` chain gives at most one message: "Username is required." when the username is empty by PHP's `empty`, otherwise "must be at least 3 characters long" when it has fewer than 3 bytes, otherwise "can only contain letters, numbers, underscores, and hyphens" when it fails the pattern; none exactly when all three rules hold |
| `Registration.EmailErrors` | register.php:39-43 | "Email is required." when the email is empty, otherwise "Please enter a valid email address." when the filter rejects it; none exactly when it is non-empty and passes the filter |
| `Registration.FullNameErrors` | register.php:45-47 | "Full name is required." exactly when the full name is empty; otherwise no message |
| `Registration.PasswordErrors` | register.php:49-55 | an empty password gives "Password is required." alone; otherwise the messages are the strength check's; there are none exactly when the password is non-empty and strong |
| `Registration.MismatchErrors` | register.php:57-59 | the single message "Passwords do not match." when the two password fields differ; none exactly when they are equal |
| `Registration.ValidationPassesIff` | register.php:29-61 | the error list is empty exactly when every field rule holds and the two password fields are equal |
| `Registration.MismatchAlwaysReported` | register.php:49-59 | when the password fields differ, "Passwords do not match." is the last message, whatever the password's strength |
| `Php.ImplodeAppend` | register.php:62 | joining one more message adds the glue and that message at the end of the text |
| `Registration.MismatchShownLast` | register.php:57-62 | when the password fields differ, the error box text joined with `<br>` ends with "Passwords do not match." |
| `Registration.EmptyPasswordReportsBoth` | register.php:49-59 | an empty password with a different confirmation ends the list with "Password is required." followed by "Passwords do not match." |
| `Registration.ZeroUsernameIsMissing` | register.php:31-32 | the username "0" is reported as missing |
| `Registration.NewlineSuffixedUsernameAccepted` | register.php:33-36 | the username "ab" followed by a newline passes all three username checks, although it has only two name bytes |
| `Registration.CollectErrors` | register.php:29-59 | the list built one append at a time equals the username, email, full-name, password and mismatch messages concatenated in that order |
| `Registration.SaveAccountSucceedsIff` | register.php:64-107 | the store block inserts exactly when no statement throws and both username and email are free; it then appends one new row under the next id; otherwise the table and counter are unchanged |
| `Registration.RegisterWhenLoggedIn` | register.php:9-12 | a logged-in session is redirected, and the table and counter are unchanged |
| `Registration.RegisterRejectsBadToken` | register.php:19-20 | a missing or rejected token gives exactly the security-token error, for every table and fault, with the table unchanged |
| `Registration.RegisterReportsAllErrors` | register.php:61-62 | a non-empty error list is the outcome, whatever the table and whatever would fail; the store is not touched |
| `Registration.RegisterUsernameCheckedFirst` | register.php:68-72 | a taken username gives the duplicate-username error even when the email is also taken, and the table is unchanged |
| `Registration.RegisterDuplicateEmail` | register.php:74-79 | a free username with a taken email gives the duplicate-email error, and the table is unchanged |
| `Registration.RegisterSucceedsIff` | register.php:80-96 | registration succeeds exactly when every gate passes, no statement fails and both username and email are free; it then appends one row with the next id, the given names, the password's hash and the role `librarian` |
| `Registration.RegisterChangesStoreOnlyOnSuccess` | register.php:61-107 | every outcome other than success leaves the table and the counter unchanged |
| `Registration.RegisterStoreFailure` | register.php:64-107 | once the store is reached, a failing statement gives the generic error exactly when the request reaches that statement, and the table is unchanged |
| `Registration.RegisterPreservesValid` | register.php:68-96 | a request keeps usernames, emails and ids unique |
| `Registration.SameUsernameTwice` | register.php:68-72 | after a successful registration, a second one with the same username is a duplicate-username error |
| `Registration.SameEmailTwice` | register.php:74-79 | after a successful registration, a second one with a new username but the same email is a duplicate-email error, also when its INSERT would have failed |
| `Authentication.LoginWhenLoggedIn` | login.php:9-12 | a logged-in session is redirected, and the session and table are unchanged |
| `Authentication.LoginRejectsBadToken` | login.php:19-20 | a missing or rejected token gives exactly the security-token error, for every table and fault, with session and table unchanged |
| `Authentication.LoginMissingCredentials` | login.php:25-26 | an empty username or password (including "0") gives "Please enter both username and password." with no store access and no change |
| `Authentication.LoginDoesNotRevealWhichCheckFailed` | login.php:30-50 | an unknown username and a wrong password for a known one give the same outcome, "Invalid username or password.", and neither changes the session or the table |
| `Authentication.LoginSucceedsIff` | login.php:28-47 | login succeeds exactly when every gate passes, no statement fails and the fetched account's hash verifies the password |
| `Authentication.LoginSuccessState` | login.php:34-44 | on success, the session carries the fetched account's id, username, full name and role and the current time; other keys are kept; the table changes only by the `last_login` stamp for that id |
| `Authentication.LoginTouchesOnlyThatAccount` | login.php:43-44 | when the table is valid, so that `user_id` is a key, a successful login changes only the `last_login` of the account that logged in; no row is added or removed |
| `Authentication.LoginStoreFailure` | login.php:28-54 | once the store is reached, a failing statement gives the generic error exactly when the request reaches that statement. The table is unchanged. The session is unchanged, except when the failing statement is the `last_login` update: the five writes before it stay |
| `Authentication.LoginPreservesValid` | login.php:43-44 | a login keeps the table's integrity constraints |
| `App.Site.Register` | register.php:9-110 | the page's step-by-step run leaves the outcome, the table and the counter that `Registration.Register` describes; the session is not written; the integrity constraints are kept |
| `App.Site.Login` | login.php:9-57 | the page's step-by-step run leaves the outcome, the table and the session that `Authentication.Login` describes; the integrity constraints are kept |
| `App.Site.Logout` | logout.php:9-10 | the session is emptied |
| `App.RegisteredAccountCanLogIn` | login.php:30-40 | given that a password verifies against its own hash, an account that has just registered logs in with the same username and password, and the session's `user_id` is its new id |

## Left out

- CSRF token generation (register.php:112, login.php:59) runs after the POST branch and may write the session's token. "Session unchanged" in the contracts covers the POST branch only.
- The internals of `Security::isLoggedIn`, `verifyCSRFToken`, `sanitizeInput`, `validatePasswordStrength` and `verifyPassword`, and the internals of `filter_var` and `password_hash`. They are not part of this model, so each is an arbitrary function supplied by the caller. `isLoggedIn` is treated as a pure test of the session and the time. Any session update inside it on idle timeout is not modelled.
- The bcrypt hash is a function of the password and a salt parameter. Its round trip is a hypothesis (`HashRoundTrips`), not a result.
- Requests other than POST are not modelled. They only render the form.
- HTML rendering, `htmlspecialchars`, the success message, clearing the form fields after success (register.php:98-101), HTTP headers and `exit`. The redirects appear as the outcomes `AlreadyLoggedIn` and `LoggedIn`.
- The `?timeout` query flag (login.php:15) only affects rendering.
- `error_log` calls and exception messages. Every caught exception becomes the one generic outcome.
- SQL collation: lookups compare bytes exactly, whereas MySQL's default collation may ignore case and trailing spaces. The table schema is not part of this model. So are unique indexes that could make an INSERT throw (an INSERT failure is covered by `failAt`), auto-increment gaps after failed inserts, and columns the scripts never set.
- The check-then-insert race between concurrent registrations. Only sequential requests are modelled.
- Lookup order: the SELECTs at register.php:68 and 75 and login.php:30 have no ORDER BY, so the database may return matching rows in any order. `Store.Find` takes the first match in table order. This matters only when a value appears in two rows, which only the concurrent-registration race above can cause.
- Form fields that PHP delivers as arrays, and PDO returning ids as strings. Ids are natural numbers.
- index.php: its only authentication step is `Security::requireLogin()`, whose code is not part of this model.
