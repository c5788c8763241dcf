/** The session (`$_SESSION`) and the collaborators the two scripts call but
    whose code is not part of this model: the `Security` helper class,
    `filter_var(..., FILTER_VALIDATE_EMAIL)` and `password_hash`.  Each is an
    arbitrary function supplied by the caller, so every property proved here
    holds whatever they compute. */
module Security {
  import opened Php
  import opened Store

  /** A session value: the scripts store integers and strings. */
  datatype Value = Int(i: int) | Text(s: Bytes)

  type Session = map<string, Value>

  const UserIdKey := "user_id"
  const UsernameKey := "username"
  const FullNameKey := "full_name"
  const RoleKey := "role"
  const LastActivityKey := "last_activity"

  /** The five keys a successful login writes. */
  const SignInKeys: set<string> := {UserIdKey, UsernameKey, FullNameKey, RoleKey, LastActivityKey}

  datatype Env = Env(
    /** `Security::isLoggedIn()` for the session at a given time (idle timeout inside). */
    isLoggedIn: (Session, int) -> bool,
    /** `Security::verifyCSRFToken($token)` against the session's token. */
    verifyCsrfToken: (Session, Bytes) -> bool,
    /** `Security::sanitizeInput($value)`. */
    sanitizeInput: Bytes -> Bytes,
    /** `Security::validatePasswordStrength($password)`: the unmet rules, in order. */
    validatePasswordStrength: Bytes -> seq<string>,
    /** `Security::verifyPassword($password, $hash)`. */
    verifyPassword: (Bytes, Bytes) -> bool,
    /** `filter_var($email, FILTER_VALIDATE_EMAIL) !== false`. */
    isValidEmail: Bytes -> bool,
    /** `password_hash($password, PASSWORD_BCRYPT)` with the random salt it draws. */
    passwordHash: (Bytes, Bytes) -> Bytes)

  /** Both pages show this when the CSRF gate rejects a submission. */
  const InvalidTokenMessage := "Invalid security token. Please try again."

  /** `isset($_POST['csrf_token']) && Security::verifyCSRFToken($_POST['csrf_token'])`. */
  predicate CsrfAccepted(env: Env, session: Session, token: Option<Bytes>)
  {
    token.Some? && env.verifyCsrfToken(session, token.value)
  }

  /** The bcrypt round trip `password_verify($p, password_hash($p)) === true`
      for every salt: a property of the hashing library, taken as a
      hypothesis where a proof needs it. */
  ghost predicate HashRoundTrips(env: Env)
  {
    forall p, salt :: env.verifyPassword(p, env.passwordHash(p, salt))
  }

  /** The five `$_SESSION[...] = ...` assignments of a successful login. */
  function SignIn(session: Session, a: Account, now: int): (r: Session)
    ensures r.Keys == session.Keys + SignInKeys
    ensures r[UserIdKey] == Int(a.userId)
    ensures r[UsernameKey] == Text(a.username)
    ensures r[FullNameKey] == Text(a.fullName)
    ensures r[RoleKey] == Text(a.role)
    ensures r[LastActivityKey] == Int(now)
    ensures forall k | k in session && k !in SignInKeys :: r[k] == session[k]
  {
    session[UserIdKey := Int(a.userId)]
           [UsernameKey := Text(a.username)]
           [FullNameKey := Text(a.fullName)]
           [RoleKey := Text(a.role)]
           [LastActivityKey := Int(now)]
  }
}
