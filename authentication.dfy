/** The POST branch of the login page: CSRF gate, emptiness check, lookup by
    username, password verification that answers unknown users and wrong
    passwords alike, then the five session writes and the `last_login`
    update.  `Login` is the whole request as a function of the store, the
    session and the submission; the page itself is `App.Site.Login`. */
module Authentication {
  import opened Php
  import opened Store
  import opened Security

  /** The fields of the submitted form; None when a field is absent. */
  datatype Form = Form(csrfToken: Option<Bytes>, username: Option<Bytes>, password: Option<Bytes>)

  const MissingMessage := "Please enter both username and password."
  const InvalidCredentialsMessage := "Invalid username or password."
  const StoreErrorMessage := "An error occurred. Please try again."

  /** What one POST request ends in. `AlreadyLoggedIn` is the redirect
      before any processing, `LoggedIn` the redirect after success. */
  datatype Outcome =
    | AlreadyLoggedIn
    | InvalidToken
    | MissingCredentials
    | InvalidCredentials
    | StoreError
    | LoggedIn(userId: nat)

  /** The text shown in the page's error box (`$error`). */
  function ErrorText(o: Outcome): string
  {
    match o
    case InvalidToken => InvalidTokenMessage
    case MissingCredentials => MissingMessage
    case InvalidCredentials => InvalidCredentialsMessage
    case StoreError => StoreErrorMessage
    case _ => ""
  }

  /** The database statements of the `try` block, in the order they run.
      `failAt` names the one that throws, if any. */
  datatype Step = Connect | SelectUser | UpdateLastLogin

  /** The outcome, the table and the session after the request. */
  datatype Result = Result(outcome: Outcome, rows: seq<Account>, session: Session)

  /** The sanitized username the lookup uses. */
  function Username(form: Form, env: Env): Bytes
  {
    env.sanitizeInput(OrEmpty(form.username))
  }

  /** The request passes the redirect, the CSRF gate and the emptiness
      check, so the `try` block against the store runs. */
  predicate ReachesStore(session: Session, now: int, form: Form, env: Env)
  {
    && !env.isLoggedIn(session, now)
    && CsrfAccepted(env, session, form.csrfToken)
    && !Empty(Username(form, env))
    && !Empty(OrEmpty(form.password))
  }

  /** The row the lookup fetches matches and the password verifies against
      its hash: the `if ($user && verifyPassword(...))` condition. */
  predicate CredentialsMatch(rows: seq<Account>, form: Form, env: Env)
  {
    var found := Find(rows, Store.Username, Username(form, env));
    found.Some? && env.verifyPassword(OrEmpty(form.password), rows[found.value].passwordHash)
  }

  /** One POST request to the login page; `now` is PHP's `time()` and
      `dbNow` the database's `NOW()`. */
  function Login(rows: seq<Account>, session: Session, now: int, dbNow: int,
                 form: Form, env: Env, failAt: Option<Step>): Result
  {
    if env.isLoggedIn(session, now) then Result(AlreadyLoggedIn, rows, session)
    else if !CsrfAccepted(env, session, form.csrfToken) then Result(InvalidToken, rows, session)
    else
      var username := Username(form, env);
      var password := OrEmpty(form.password);
      if Empty(username) || Empty(password) then Result(MissingCredentials, rows, session)
      else if failAt == Some(Connect) || failAt == Some(SelectUser) then
        Result(StoreError, rows, session)
      else
        match Find(rows, Store.Username, username)
        case None => Result(InvalidCredentials, rows, session)
        case Some(i) =>
          var user := rows[i];
          if !env.verifyPassword(password, user.passwordHash) then
            Result(InvalidCredentials, rows, session)
          else
            var signedIn := SignIn(session, user, now);
            if failAt == Some(UpdateLastLogin) then Result(StoreError, rows, signedIn)
            else Result(LoggedIn(user.userId), TouchLastLogin(rows, user.userId, dbNow), signedIn)
  }

  /** Already logged in: redirected, session and table untouched. */
  lemma LoginWhenLoggedIn(rows: seq<Account>, session: Session, now: int, dbNow: int,
                          form: Form, env: Env, failAt: Option<Step>)
    requires env.isLoggedIn(session, now)
    ensures Login(rows, session, now, dbNow, form, env, failAt)
         == Result(AlreadyLoggedIn, rows, session)
  {
  }

  /** A missing or rejected token gives the token error, whatever the
      table or the store's health: no lookup, no session change. */
  lemma LoginRejectsBadToken(rows: seq<Account>, session: Session, now: int, dbNow: int,
                             form: Form, env: Env, failAt: Option<Step>)
    requires !env.isLoggedIn(session, now)
    requires form.csrfToken.None? || !env.verifyCsrfToken(session, form.csrfToken.value)
    ensures var r := Login(rows, session, now, dbNow, form, env, failAt);
      r == Result(InvalidToken, rows, session) && ErrorText(r.outcome) == InvalidTokenMessage
  {
  }

  /** An empty username or password ("0" included, by PHP's `empty`) is
      answered without touching the store. */
  lemma LoginMissingCredentials(rows: seq<Account>, session: Session, now: int, dbNow: int,
                                form: Form, env: Env, failAt: Option<Step>)
    requires !env.isLoggedIn(session, now) && CsrfAccepted(env, session, form.csrfToken)
    requires Empty(Username(form, env)) || Empty(OrEmpty(form.password))
    ensures var r := Login(rows, session, now, dbNow, form, env, failAt);
      r == Result(MissingCredentials, rows, session) && ErrorText(r.outcome) == MissingMessage
  {
  }

  /** No username enumeration: an unknown username and a wrong password for
      a known one give the same outcome and the same message, and neither
      changes the session or the table. */
  lemma LoginDoesNotRevealWhichCheckFailed(
    unknown: seq<Account>, known: seq<Account>, session: Session, now: int, dbNow: int,
    form: Form, env: Env, failAt: Option<Step>)
    requires ReachesStore(session, now, form, env)
    requires failAt != Some(Connect) && failAt != Some(SelectUser)
    requires !Taken(unknown, Store.Username, Username(form, env))
    requires Taken(known, Store.Username, Username(form, env))
    requires forall j | 0 <= j < |known| && known[j].username == Username(form, env) ::
               !env.verifyPassword(OrEmpty(form.password), known[j].passwordHash)
    ensures Login(unknown, session, now, dbNow, form, env, failAt)
         == Result(InvalidCredentials, unknown, session)
    ensures Login(known, session, now, dbNow, form, env, failAt)
         == Result(InvalidCredentials, known, session)
  {
    FindIffTaken(unknown, Store.Username, Username(form, env));
  }

  /** Login succeeds exactly when every gate passes, no statement fails and
      the fetched account's hash verifies the password. */
  lemma LoginSucceedsIff(rows: seq<Account>, session: Session, now: int, dbNow: int,
                         form: Form, env: Env, failAt: Option<Step>)
    ensures Login(rows, session, now, dbNow, form, env, failAt).outcome.LoggedIn? <==>
      ReachesStore(session, now, form, env) && failAt.None? && CredentialsMatch(rows, form, env)
  {
    if failAt.Some? {
      // each statement that can fail is one of the three the request runs
      assert failAt.value.Connect? || failAt.value.SelectUser? || failAt.value.UpdateLastLogin?;
    }
  }

  /** On success the session holds the stored account's id, username, full
      name and role and the current time as `last_activity`; every other
      session key is kept; the table changes only by the `last_login` stamp
      of that account's id. */
  lemma LoginSuccessState(rows: seq<Account>, session: Session, now: int, dbNow: int,
                          form: Form, env: Env, failAt: Option<Step>)
    requires Login(rows, session, now, dbNow, form, env, failAt).outcome.LoggedIn?
    ensures var r := Login(rows, session, now, dbNow, form, env, failAt);
      var i := Find(rows, Store.Username, Username(form, env));
      && i.Some?
      && var user := rows[i.value];
      && user.username == Username(form, env)
      && r.outcome.userId == user.userId
      && r.session[UserIdKey] == Int(user.userId)
      && r.session[UsernameKey] == Text(user.username)
      && r.session[FullNameKey] == Text(user.fullName)
      && r.session[RoleKey] == Text(user.role)
      && r.session[LastActivityKey] == Int(now)
      && r.session.Keys == session.Keys + SignInKeys
      && (forall k | k in session && k !in SignInKeys :: r.session[k] == session[k])
      && r.rows == TouchLastLogin(rows, user.userId, dbNow)
  {
  }

  /** With `user_id` a key, a successful login stamps `last_login` on the
      one account that logged in and leaves every other row as it was; no
      row is added or removed. */
  lemma LoginTouchesOnlyThatAccount(rows: seq<Account>, nextId: nat, session: Session,
                                    now: int, dbNow: int, form: Form, env: Env,
                                    failAt: Option<Step>)
    requires Valid(rows, nextId)
    requires Login(rows, session, now, dbNow, form, env, failAt).outcome.LoggedIn?
    ensures var r := Login(rows, session, now, dbNow, form, env, failAt);
      var i := Find(rows, Store.Username, Username(form, env)).value;
      r.rows == rows[i := rows[i].(lastLogin := Some(dbNow))]
  {
    LoginSuccessState(rows, session, now, dbNow, form, env, failAt);
    var i := Find(rows, Store.Username, Username(form, env)).value;
    TouchIsOneRowUpdate(rows, nextId, i, dbNow);
  }

  /** Once the store is reached, a failing statement gives the generic error
      exactly when that statement runs (the update only after a successful
      verification), and the table is unchanged.  The session is unchanged
      except when the update fails: the five session writes come before it,
      so they stay. */
  lemma LoginStoreFailure(rows: seq<Account>, session: Session, now: int, dbNow: int,
                          form: Form, env: Env, step: Step)
    requires ReachesStore(session, now, form, env)
    ensures var r := Login(rows, session, now, dbNow, form, env, Some(step));
      && (r.outcome == StoreError <==> (step.UpdateLastLogin? ==> CredentialsMatch(rows, form, env)))
      && r.rows == rows
      && (step.UpdateLastLogin? && CredentialsMatch(rows, form, env) ==>
            r.session == SignIn(session, rows[Find(rows, Store.Username, Username(form, env)).value], now))
      && (!step.UpdateLastLogin? || !CredentialsMatch(rows, form, env) ==> r.session == session)
  {
  }

  /** A login keeps usernames, emails and ids unique. */
  lemma LoginPreservesValid(rows: seq<Account>, nextId: nat, session: Session, now: int,
                            dbNow: int, form: Form, env: Env, failAt: Option<Step>)
    requires Valid(rows, nextId)
    ensures Valid(Login(rows, session, now, dbNow, form, env, failAt).rows, nextId)
  {
    var r := Login(rows, session, now, dbNow, form, env, failAt);
    if r.outcome.LoggedIn? {
      TouchPreservesValid(rows, nextId, r.outcome.userId, dbNow);
    }
  }
}
