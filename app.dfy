/** The two pages as they run: each POST handler reads and updates the
    `admin_users` table and `$_SESSION` in place, step by step as the
    scripts do, and is proved to end in the state `Registration.Register`
    or `Authentication.Login` describes. */
module App {
  import opened Php
  import opened Store
  import opened Security
  import Registration
  import Authentication

  class Site {
    /** The rows of `admin_users`, in table order. */
    var users: seq<Account>
    /** The table's AUTO_INCREMENT counter for `user_id`. */
    var nextUserId: nat
    /** `$_SESSION` of the client making the request. */
    var session: Session

    /** The table's integrity constraints. */
    predicate Valid()
      reads this
    {
      Store.Valid(users, nextUserId)
    }

    constructor (users: seq<Account>, nextUserId: nat, session: Session)
      ensures this.users == users && this.nextUserId == nextUserId && this.session == session
    {
      this.users := users;
      this.nextUserId := nextUserId;
      this.session := session;
    }

    /** register.php, lines 9-12 and the POST branch (17-110). The session is
        only read. */
    method Register(form: Registration.Form, env: Env, now: int, salt: Bytes,
                    failAt: Option<Registration.Step>)
      returns (outcome: Registration.Outcome)
      modifies this`users, this`nextUserId
      ensures Registration.Result(outcome, users, nextUserId)
           == Registration.Register(old(users), old(nextUserId), session, now, form, env, salt, failAt)
      ensures old(Valid()) ==> Valid()
    {
      if Valid() {
        Registration.RegisterPreservesValid(users, nextUserId, session, now, form, env, salt, failAt);
      }
      if env.isLoggedIn(session, now) {
        outcome := Registration.AlreadyLoggedIn;
        return;
      }
      if form.csrfToken.None? || !env.verifyCsrfToken(session, form.csrfToken.value) {
        outcome := Registration.InvalidToken;
        return;
      }
      var username := env.sanitizeInput(OrEmpty(form.username));
      var email := env.sanitizeInput(OrEmpty(form.email));
      var fullName := env.sanitizeInput(OrEmpty(form.fullName));
      var password := OrEmpty(form.password);
      var confirmPassword := OrEmpty(form.confirmPassword);
      var errors := Registration.CollectErrors(
        Registration.Input(username, email, fullName, password, confirmPassword), env);
      if errors != [] {
        outcome := Registration.Invalid(errors);
        return;
      }
      // try: each statement below may throw, caught as the generic error
      if failAt == Some(Registration.Connect) || failAt == Some(Registration.SelectUsername) {
        outcome := Registration.StoreError;
        return;
      }
      if Find(users, Store.Username, username).Some? {
        outcome := Registration.DuplicateUsername;
        return;
      }
      if failAt == Some(Registration.SelectEmail) {
        outcome := Registration.StoreError;
        return;
      }
      if Find(users, Store.Email, email).Some? {
        outcome := Registration.DuplicateEmail;
        return;
      }
      var passwordHash := env.passwordHash(password, salt);
      if failAt == Some(Registration.Insert) {
        outcome := Registration.StoreError;
        return;
      }
      var id := nextUserId;
      users := users + [Account(id, username, email, passwordHash, fullName, Librarian, None)];
      nextUserId := nextUserId + 1;
      outcome := Registration.Registered(id);
    }

    /** login.php, lines 9-12 and the POST branch (17-57). */
    method Login(form: Authentication.Form, env: Env, now: int, dbNow: int,
                 failAt: Option<Authentication.Step>)
      returns (outcome: Authentication.Outcome)
      modifies this`users, this`session
      ensures Authentication.Result(outcome, users, session)
           == Authentication.Login(old(users), old(session), now, dbNow, form, env, failAt)
      ensures old(Valid()) ==> Valid()
    {
      if Valid() {
        Authentication.LoginPreservesValid(users, nextUserId, session, now, dbNow, form, env, failAt);
      }
      if env.isLoggedIn(session, now) {
        outcome := Authentication.AlreadyLoggedIn;
        return;
      }
      if form.csrfToken.None? || !env.verifyCsrfToken(session, form.csrfToken.value) {
        outcome := Authentication.InvalidToken;
        return;
      }
      var username := env.sanitizeInput(OrEmpty(form.username));
      var password := OrEmpty(form.password);
      if Empty(username) || Empty(password) {
        outcome := Authentication.MissingCredentials;
        return;
      }
      // try: each statement below may throw, caught as the generic error
      if failAt == Some(Authentication.Connect) || failAt == Some(Authentication.SelectUser) {
        outcome := Authentication.StoreError;
        return;
      }
      var found := Find(users, Store.Username, username);
      if found.Some? && env.verifyPassword(password, users[found.value].passwordHash) {
        var user := users[found.value];
        session := session[UserIdKey := Int(user.userId)];
        session := session[UsernameKey := Text(user.username)];
        session := session[FullNameKey := Text(user.fullName)];
        session := session[RoleKey := Text(user.role)];
        session := session[LastActivityKey := Int(now)];
        if failAt == Some(Authentication.UpdateLastLogin) {
          outcome := Authentication.StoreError;
          return;
        }
        users := TouchLastLogin(users, user.userId, dbNow);
        outcome := Authentication.LoggedIn(user.userId);
      } else {
        outcome := Authentication.InvalidCredentials;
      }
    }

    /** logout.php, lines 9-10: `session_unset(); session_destroy();`. */
    method Logout()
      modifies this`session
      ensures session == map[]
    {
      session := map[];
    }
  }

  /** An account that has just registered can log in with the username and
      password it registered with, given a fresh CSRF token and a session
      that is not logged in, and the session then carries its new id. */
  lemma RegisteredAccountCanLogIn(
    rows: seq<Account>, nextId: nat, env: Env,
    session1: Session, now1: int, registration: Registration.Form, salt: Bytes,
    failAt: Option<Registration.Step>,
    session2: Session, now2: int, dbNow: int, login: Authentication.Form)
    requires HashRoundTrips(env)
    requires Registration.Register(rows, nextId, session1, now1, registration, env, salt, failAt)
               .outcome.Registered?
    requires !env.isLoggedIn(session2, now2) && CsrfAccepted(env, session2, login.csrfToken)
    requires login.username == registration.username && login.password == registration.password
    ensures var reg := Registration.Register(rows, nextId, session1, now1, registration, env, salt, failAt);
      var r := Authentication.Login(reg.rows, session2, now2, dbNow, login, env, None);
      && r.outcome == Authentication.LoggedIn(nextId)
      && UserIdKey in r.session && r.session[UserIdKey] == Int(nextId)
  {
    var reg := Registration.Register(rows, nextId, session1, now1, registration, env, salt, failAt);
    var input := Registration.Submitted(registration, env);
    Registration.RegisterSucceedsIff(rows, nextId, session1, now1, registration, env, salt, failAt);
    Registration.ValidationPassesIff(input, env);
    assert Authentication.Username(login, env) == input.username;
    assert Authentication.ReachesStore(session2, now2, login, env);
    // the new row is the first, and only, one with that username
    FindIffTaken(rows, Store.Username, input.username);
    FindIffTaken(reg.rows, Store.Username, input.username);
    assert Field(reg.rows[|rows|], Store.Username) == input.username;
    assert Find(reg.rows, Store.Username, input.username) == Some(|rows|);
    // the bcrypt round trip
    assert env.verifyPassword(input.password, env.passwordHash(input.password, salt));
    assert Authentication.CredentialsMatch(reg.rows, login, env);
    Authentication.LoginSucceedsIff(reg.rows, session2, now2, dbNow, login, env, None);
    Authentication.LoginSuccessState(reg.rows, session2, now2, dbNow, login, env, None);
  }
}
