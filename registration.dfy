/** The POST branch of the account-registration page: CSRF gate, validation
    that gathers every message, username-then-email uniqueness checks, and
    the insert of one `librarian` account.  `Register` is the whole request
    as a function of the store, the session and the submission; the page
    itself is `App.Site.Register`. */
module Registration {
  import opened Php
  import opened Store
  import opened Security

  /** The fields of the submitted form; None when a field is absent. */
  datatype Form = Form(
    csrfToken: Option<Bytes>,
    fullName: Option<Bytes>,
    username: Option<Bytes>,
    email: Option<Bytes>,
    password: Option<Bytes>,
    confirmPassword: Option<Bytes>)

  /** The values the checks work on: the three text fields sanitized, the
      two password fields as submitted, absent fields read as ''. */
  datatype Input = Input(
    username: Bytes,
    email: Bytes,
    fullName: Bytes,
    password: Bytes,
    confirmPassword: Bytes)

  function Submitted(form: Form, env: Env): Input
  {
    Input(env.sanitizeInput(OrEmpty(form.username)),
          env.sanitizeInput(OrEmpty(form.email)),
          env.sanitizeInput(OrEmpty(form.fullName)),
          OrEmpty(form.password),
          OrEmpty(form.confirmPassword))
  }

  const UsernameRequired := "Username is required."
  const UsernameTooShort := "Username must be at least 3 characters long."
  const UsernameBadChars := "Username can only contain letters, numbers, underscores, and hyphens."
  const EmailRequired := "Email is required."
  const EmailInvalid := "Please enter a valid email address."
  const FullNameRequired := "Full name is required."
  const PasswordRequired := "Password is required."
  const PasswordMismatch := "Passwords do not match."
  const UsernameTakenMessage := "Username already exists. Please choose a different username."
  const EmailTakenMessage := "Email already registered. Please use a different email."
  const StoreErrorMessage := "An error occurred during registration. Please try again."

  /** What one POST request ends in. `AlreadyLoggedIn` is the redirect
      before any processing. */
  datatype Outcome =
    | AlreadyLoggedIn
    | InvalidToken
    | Invalid(errors: seq<string>)
    | DuplicateUsername
    | DuplicateEmail
    | StoreError
    | Registered(userId: nat)

  /** The text shown in the page's error box (`$error`). */
  function ErrorText(o: Outcome): string
  {
    match o
    case InvalidToken => InvalidTokenMessage
    case Invalid(errors) => Implode("<br>", errors)
    case DuplicateUsername => UsernameTakenMessage
    case DuplicateEmail => EmailTakenMessage
    case StoreError => StoreErrorMessage
    case _ => ""
  }

  /** The database statements of the `try` block, in the order they run.
      `failAt` names the one that throws, if any. */
  datatype Step = Connect | SelectUsername | SelectEmail | Insert

  /** The outcome and the table after the request. */
  datatype Result = Result(outcome: Outcome, rows: seq<Account>, nextId: nat)

  /** The username rule: present, at least 3 bytes, and matching the
      pattern `[a-zA-Z0-9_-]+`. */
  predicate ValidUsername(u: Bytes)
  {
    !Empty(u) && StrLen(u) >= 3 && MatchesUsernamePattern(u)
  }

  /** The username's message: at most one, from an `elseif` chain. */
  function UsernameErrors(u: Bytes): (r: seq<string>)
    ensures |r| <= 1
    ensures r == [] <==> ValidUsername(u)
    ensures Empty(u) ==> r == [UsernameRequired]
    ensures !Empty(u) && StrLen(u) < 3 ==> r == [UsernameTooShort]
    ensures !Empty(u) && StrLen(u) >= 3 && !MatchesUsernamePattern(u) ==> r == [UsernameBadChars]
  {
    if Empty(u) then [UsernameRequired]
    else if StrLen(u) < 3 then [UsernameTooShort]
    else if !MatchesUsernamePattern(u) then [UsernameBadChars]
    else []
  }

  function EmailErrors(e: Bytes, env: Env): (r: seq<string>)
    ensures |r| <= 1
    ensures r == [] <==> !Empty(e) && env.isValidEmail(e)
    ensures Empty(e) ==> r == [EmailRequired]
    ensures !Empty(e) && !env.isValidEmail(e) ==> r == [EmailInvalid]
  {
    if Empty(e) then [EmailRequired]
    else if !env.isValidEmail(e) then [EmailInvalid]
    else []
  }

  function FullNameErrors(f: Bytes): (r: seq<string>)
    ensures |r| <= 1
    ensures r == [] <==> !Empty(f)
    ensures Empty(f) ==> r == [FullNameRequired]
  {
    if Empty(f) then [FullNameRequired] else []
  }

  /** Either "required" alone, or every rule the strength check reports. */
  function PasswordErrors(p: Bytes, env: Env): (r: seq<string>)
    ensures r == [] <==> !Empty(p) && env.validatePasswordStrength(p) == []
    ensures Empty(p) ==> r == [PasswordRequired]
    ensures !Empty(p) ==> r == env.validatePasswordStrength(p)
  {
    if Empty(p) then [PasswordRequired] else env.validatePasswordStrength(p)
  }

  /** The strict comparison `$password !== $confirm_password`. */
  function MismatchErrors(p: Bytes, c: Bytes): (r: seq<string>)
    ensures |r| <= 1
    ensures r == [] <==> p == c
    ensures p != c ==> r == [PasswordMismatch]
  {
    if p != c then [PasswordMismatch] else []
  }

  /** Every validation message, field by field, in page order: nothing
      short-circuits. */
  function ValidationErrors(input: Input, env: Env): seq<string>
  {
    UsernameErrors(input.username)
    + EmailErrors(input.email, env)
    + FullNameErrors(input.fullName)
    + PasswordErrors(input.password, env)
    + MismatchErrors(input.password, input.confirmPassword)
  }

  /** Validation passes exactly when every field rule holds. */
  lemma ValidationPassesIff(input: Input, env: Env)
    ensures ValidationErrors(input, env) == [] <==>
      && ValidUsername(input.username)
      && !Empty(input.email) && env.isValidEmail(input.email)
      && !Empty(input.fullName)
      && !Empty(input.password) && env.validatePasswordStrength(input.password) == []
      && input.password == input.confirmPassword
  {
    var u := UsernameErrors(input.username);
    var e := EmailErrors(input.email, env);
    var f := FullNameErrors(input.fullName);
    var p := PasswordErrors(input.password, env);
    var m := MismatchErrors(input.password, input.confirmPassword);
    assert |ValidationErrors(input, env)| == |u| + |e| + |f| + |p| + |m|;
  }

  /** A mismatch is always reported, and last, whatever the password's
      strength. */
  lemma MismatchAlwaysReported(input: Input, env: Env)
    requires input.password != input.confirmPassword
    ensures var errors := ValidationErrors(input, env);
      |errors| > 0 && errors[|errors| - 1] == PasswordMismatch
  {
  }

  /** The error box joins the messages with `<br>`, so a mismatch is also
      the last line of the text the page shows. */
  lemma MismatchShownLast(input: Input, env: Env)
    requires input.password != input.confirmPassword
    ensures var text := ErrorText(Invalid(ValidationErrors(input, env)));
      |text| >= |PasswordMismatch| && text[|text| - |PasswordMismatch|..] == PasswordMismatch
  {
    var prefix := UsernameErrors(input.username) + EmailErrors(input.email, env)
      + FullNameErrors(input.fullName) + PasswordErrors(input.password, env);
    assert ValidationErrors(input, env) == prefix + [PasswordMismatch];
    if prefix != [] {
      ImplodeAppend("<br>", prefix, PasswordMismatch);
    }
  }

  /** An empty password with a different confirmation yields both
      "required" and "do not match", as the last two messages. */
  lemma EmptyPasswordReportsBoth(input: Input, env: Env)
    requires Empty(input.password) && input.password != input.confirmPassword
    ensures var errors := ValidationErrors(input, env);
      |errors| >= 2 && errors[|errors| - 2..] == [PasswordRequired, PasswordMismatch]
  {
    var prefix := UsernameErrors(input.username)
      + EmailErrors(input.email, env) + FullNameErrors(input.fullName);
    assert ValidationErrors(input, env) == prefix + [PasswordRequired, PasswordMismatch];
  }

  /** `empty("0")` is true in PHP: the username "0" is reported missing. */
  lemma ZeroUsernameIsMissing()
    ensures UsernameErrors([B('0')]) == [UsernameRequired]
  {
  }

  /** `strlen` counts the trailing newline and `$` lets it through: "ab\n"
      passes the username rule although it has only two name bytes and one
      byte outside the class. */
  lemma NewlineSuffixedUsernameAccepted()
    ensures UsernameErrors(AsciiBytes("ab\n")) == []
    ensures !AllNameBytes(AsciiBytes("ab\n"))
  {
    var u := AsciiBytes("ab\n");
    assert u == [B('a'), B('b'), B('\n')];
    assert DropFinalNewline(u) == [B('a'), B('b')];
  }

  /** Lines 29-59: the error list built one `$errors[] = ...` (or
      `array_merge`) at a time. */
  method CollectErrors(input: Input, env: Env) returns (errors: seq<string>)
    ensures errors == ValidationErrors(input, env)
  {
    errors := [];
    if Empty(input.username) {
      errors := errors + [UsernameRequired];
    } else if StrLen(input.username) < 3 {
      errors := errors + [UsernameTooShort];
    } else if !MatchesUsernamePattern(input.username) {
      errors := errors + [UsernameBadChars];
    }
    assert errors == UsernameErrors(input.username);
    if Empty(input.email) {
      errors := errors + [EmailRequired];
    } else if !env.isValidEmail(input.email) {
      errors := errors + [EmailInvalid];
    }
    assert errors == UsernameErrors(input.username) + EmailErrors(input.email, env);
    if Empty(input.fullName) {
      errors := errors + [FullNameRequired];
    }
    ghost var named := UsernameErrors(input.username) + EmailErrors(input.email, env)
      + FullNameErrors(input.fullName);
    assert errors == named;
    if Empty(input.password) {
      errors := errors + [PasswordRequired];
    } else {
      var passwordErrors := env.validatePasswordStrength(input.password);
      errors := errors + passwordErrors;
    }
    assert errors == named + PasswordErrors(input.password, env);
    if input.password != input.confirmPassword {
      errors := errors + [PasswordMismatch];
    }
  }

  /** The row the INSERT adds: the hash of the password, never the password,
      and the role 'librarian'; `last_login` starts NULL. */
  function NewAccount(id: nat, input: Input, env: Env, salt: Bytes): Account
  {
    Account(id, input.username, input.email, env.passwordHash(input.password, salt),
            input.fullName, Librarian, None)
  }

  /** The request passes the redirect, the CSRF gate and validation, so the
      `try` block against the store runs. */
  predicate ReachesStore(session: Session, now: int, form: Form, env: Env)
  {
    && !env.isLoggedIn(session, now)
    && CsrfAccepted(env, session, form.csrfToken)
    && ValidationErrors(Submitted(form, env), env) == []
  }

  /** Whether the statement `step` runs at all: the email query only after
      the username was found free, the insert only after both were. */
  predicate Reached(rows: seq<Account>, input: Input, step: Step)
  {
    match step
    case Connect => true
    case SelectUsername => true
    case SelectEmail => !Taken(rows, Username, input.username)
    case Insert => !Taken(rows, Username, input.username) && !Taken(rows, Email, input.email)
  }

  /** The `try` block against the store: the username query, the email
      query, the hash and the insert, any of which may throw. */
  function SaveAccount(rows: seq<Account>, nextId: nat, input: Input, env: Env, salt: Bytes,
                       failAt: Option<Step>): Result
  {
    if failAt == Some(Connect) || failAt == Some(SelectUsername) then
      Result(StoreError, rows, nextId)
    else if Find(rows, Username, input.username).Some? then
      Result(DuplicateUsername, rows, nextId)
    else if failAt == Some(SelectEmail) then Result(StoreError, rows, nextId)
    else if Find(rows, Email, input.email).Some? then Result(DuplicateEmail, rows, nextId)
    else if failAt == Some(Insert) then Result(StoreError, rows, nextId)
    else Result(Registered(nextId), rows + [NewAccount(nextId, input, env, salt)], nextId + 1)
  }

  /** The store block inserts exactly when no statement fails and both
      username and email are free, and otherwise changes nothing. */
  lemma SaveAccountSucceedsIff(rows: seq<Account>, nextId: nat, input: Input, env: Env,
                               salt: Bytes, failAt: Option<Step>)
    ensures var r := SaveAccount(rows, nextId, input, env, salt, failAt);
      && (r.outcome.Registered? <==>
            failAt.None? && !Taken(rows, Username, input.username) && !Taken(rows, Email, input.email))
      && (r.outcome.Registered? ==>
            && r.outcome.userId == nextId
            && r.rows == rows + [NewAccount(nextId, input, env, salt)]
            && r.nextId == nextId + 1)
      && (!r.outcome.Registered? ==> r.rows == rows && r.nextId == nextId)
  {
    FindIffTaken(rows, Username, input.username);
    FindIffTaken(rows, Email, input.email);
    if failAt.Some? {
      // each statement that can fail is one of the four the block runs
      assert failAt.value.Connect? || failAt.value.SelectUsername?
          || failAt.value.SelectEmail? || failAt.value.Insert?;
    }
  }

  /** One POST request to the registration page. */
  function Register(rows: seq<Account>, nextId: nat, session: Session, now: int,
                    form: Form, env: Env, salt: Bytes, failAt: Option<Step>): Result
  {
    if env.isLoggedIn(session, now) then Result(AlreadyLoggedIn, rows, nextId)
    else if !CsrfAccepted(env, session, form.csrfToken) then Result(InvalidToken, rows, nextId)
    else
      var input := Submitted(form, env);
      var errors := ValidationErrors(input, env);
      if errors != [] then Result(Invalid(errors), rows, nextId)
      else SaveAccount(rows, nextId, input, env, salt, failAt)
  }

  /** Already logged in: redirected, nothing read or written. */
  lemma RegisterWhenLoggedIn(rows: seq<Account>, nextId: nat, session: Session, now: int,
                             form: Form, env: Env, salt: Bytes, failAt: Option<Step>)
    requires env.isLoggedIn(session, now)
    ensures Register(rows, nextId, session, now, form, env, salt, failAt)
         == Result(AlreadyLoggedIn, rows, nextId)
  {
  }

  /** A missing or rejected token gives exactly the token error, whatever
      the other fields, the table or the store's health: nothing is
      validated, looked up or inserted. */
  lemma RegisterRejectsBadToken(rows: seq<Account>, nextId: nat, session: Session, now: int,
                                form: Form, env: Env, salt: Bytes, failAt: Option<Step>)
    requires !env.isLoggedIn(session, now)
    requires form.csrfToken.None? || !env.verifyCsrfToken(session, form.csrfToken.value)
    ensures var r := Register(rows, nextId, session, now, form, env, salt, failAt);
      r == Result(InvalidToken, rows, nextId) && ErrorText(r.outcome) == InvalidTokenMessage
  {
  }

  /** Any validation message aborts with the whole list, before the store
      is touched: the outcome is the same for every table and every store
      failure, and the table is unchanged. */
  lemma RegisterReportsAllErrors(rows: seq<Account>, nextId: nat, session: Session, now: int,
                                 form: Form, env: Env, salt: Bytes, failAt: Option<Step>)
    requires !env.isLoggedIn(session, now) && CsrfAccepted(env, session, form.csrfToken)
    requires ValidationErrors(Submitted(form, env), env) != []
    ensures Register(rows, nextId, session, now, form, env, salt, failAt)
         == Result(Invalid(ValidationErrors(Submitted(form, env), env)), rows, nextId)
  {
  }

  /** The username is checked first: a taken username is reported even if
      the email is taken too, and whatever the later statements would do. */
  lemma RegisterUsernameCheckedFirst(rows: seq<Account>, nextId: nat, session: Session, now: int,
                                     form: Form, env: Env, salt: Bytes, failAt: Option<Step>)
    requires ReachesStore(session, now, form, env)
    requires failAt != Some(Connect) && failAt != Some(SelectUsername)
    requires Taken(rows, Username, Submitted(form, env).username)
    ensures Register(rows, nextId, session, now, form, env, salt, failAt)
         == Result(DuplicateUsername, rows, nextId)
  {
  }

  /** A free username with a taken email gives the duplicate-email error and
      leaves the table as it was. */
  lemma RegisterDuplicateEmail(rows: seq<Account>, nextId: nat, session: Session, now: int,
                               form: Form, env: Env, salt: Bytes, failAt: Option<Step>)
    requires ReachesStore(session, now, form, env)
    requires failAt.None? || failAt == Some(Insert)
    requires !Taken(rows, Username, Submitted(form, env).username)
    requires Taken(rows, Email, Submitted(form, env).email)
    ensures Register(rows, nextId, session, now, form, env, salt, failAt)
         == Result(DuplicateEmail, rows, nextId)
  {
  }

  /** Registration succeeds exactly when every gate passes, no statement
      fails and both username and email are free; it then appends exactly
      one row (the given names, the hash of the password, role
      'librarian') under the next id. */
  lemma RegisterSucceedsIff(rows: seq<Account>, nextId: nat, session: Session, now: int,
                            form: Form, env: Env, salt: Bytes, failAt: Option<Step>)
    ensures var r := Register(rows, nextId, session, now, form, env, salt, failAt);
      var input := Submitted(form, env);
      r.outcome.Registered? <==>
        && ReachesStore(session, now, form, env)
        && failAt.None?
        && !Taken(rows, Username, input.username)
        && !Taken(rows, Email, input.email)
    ensures var r := Register(rows, nextId, session, now, form, env, salt, failAt);
      var input := Submitted(form, env);
      r.outcome.Registered? ==>
        && r.outcome.userId == nextId
        && r.nextId == nextId + 1
        && r.rows == rows + [Account(nextId, input.username, input.email,
                                     env.passwordHash(input.password, salt),
                                     input.fullName, Librarian, None)]
  {
    SaveAccountSucceedsIff(rows, nextId, Submitted(form, env), env, salt, failAt);
  }

  /** Every outcome but success leaves the table and the counter as they
      were. */
  lemma RegisterChangesStoreOnlyOnSuccess(rows: seq<Account>, nextId: nat, session: Session,
                                          now: int, form: Form, env: Env, salt: Bytes,
                                          failAt: Option<Step>)
    ensures var r := Register(rows, nextId, session, now, form, env, salt, failAt);
      !r.outcome.Registered? ==> r.rows == rows && r.nextId == nextId
  {
    SaveAccountSucceedsIff(rows, nextId, Submitted(form, env), env, salt, failAt);
  }

  /** Once the store is reached, a failing statement gives the generic error
      exactly when that statement runs; an earlier duplicate answer wins
      over a later failure. */
  lemma RegisterStoreFailure(rows: seq<Account>, nextId: nat, session: Session, now: int,
                             form: Form, env: Env, salt: Bytes, step: Step)
    requires ReachesStore(session, now, form, env)
    ensures var r := Register(rows, nextId, session, now, form, env, salt, Some(step));
      && (r.outcome == StoreError <==> Reached(rows, Submitted(form, env), step))
      && r.rows == rows && r.nextId == nextId
  {
  }

  /** The pre-checks make every successful registration keep usernames,
      emails and ids unique (sequential requests only). */
  lemma RegisterPreservesValid(rows: seq<Account>, nextId: nat, session: Session, now: int,
                               form: Form, env: Env, salt: Bytes, failAt: Option<Step>)
    requires Valid(rows, nextId)
    ensures var r := Register(rows, nextId, session, now, form, env, salt, failAt);
      Valid(r.rows, r.nextId)
  {
    var input := Submitted(form, env);
    var r := SaveAccount(rows, nextId, input, env, salt, failAt);
    SaveAccountSucceedsIff(rows, nextId, input, env, salt, failAt);
    if r.outcome.Registered? {
      FindIffTaken(rows, Username, input.username);
      FindIffTaken(rows, Email, input.email);
      AppendPreservesValid(rows, nextId, NewAccount(nextId, input, env, salt));
    }
  }

  /** A second registration of a username that has just been registered
      fails as a duplicate. */
  lemma SameUsernameTwice(rows: seq<Account>, nextId: nat, env: Env,
                          session1: Session, now1: int, form1: Form, salt1: Bytes,
                          session2: Session, now2: int, form2: Form, salt2: Bytes,
                          failAt2: Option<Step>)
    requires Register(rows, nextId, session1, now1, form1, env, salt1, None).outcome.Registered?
    requires ReachesStore(session2, now2, form2, env)
    requires Submitted(form2, env).username == Submitted(form1, env).username
    requires failAt2 != Some(Connect) && failAt2 != Some(SelectUsername)
    ensures var r1 := Register(rows, nextId, session1, now1, form1, env, salt1, None);
      Register(r1.rows, r1.nextId, session2, now2, form2, env, salt2, failAt2).outcome
        == DuplicateUsername
  {
    var r1 := Register(rows, nextId, session1, now1, form1, env, salt1, None);
    var first := Submitted(form1, env);
    var second := Submitted(form2, env);
    RegisterSucceedsIff(rows, nextId, session1, now1, form1, env, salt1, None);
    TakenAfterAppend(rows, NewAccount(nextId, first, env, salt1), Username, second.username);
    FindIffTaken(r1.rows, Username, second.username);
  }

  /** A second registration under a new username but an email that has
      just been registered fails as a duplicate email. */
  lemma SameEmailTwice(rows: seq<Account>, nextId: nat, env: Env,
                       session1: Session, now1: int, form1: Form, salt1: Bytes,
                       session2: Session, now2: int, form2: Form, salt2: Bytes,
                       failAt2: Option<Step>)
    requires Register(rows, nextId, session1, now1, form1, env, salt1, None).outcome.Registered?
    requires ReachesStore(session2, now2, form2, env)
    requires failAt2.None? || failAt2 == Some(Insert)
    requires Submitted(form2, env).email == Submitted(form1, env).email
    requires Submitted(form2, env).username != Submitted(form1, env).username
    requires !Taken(rows, Username, Submitted(form2, env).username)
    ensures var r1 := Register(rows, nextId, session1, now1, form1, env, salt1, None);
      Register(r1.rows, r1.nextId, session2, now2, form2, env, salt2, failAt2).outcome
        == DuplicateEmail
  {
    var r1 := Register(rows, nextId, session1, now1, form1, env, salt1, None);
    var first := Submitted(form1, env);
    var second := Submitted(form2, env);
    RegisterSucceedsIff(rows, nextId, session1, now1, form1, env, salt1, None);
    TakenAfterAppend(rows, NewAccount(nextId, first, env, salt1), Username, second.username);
    TakenAfterAppend(rows, NewAccount(nextId, first, env, salt1), Email, second.email);
    FindIffTaken(r1.rows, Username, second.username);
    FindIffTaken(r1.rows, Email, second.email);
  }
}
