/** The entities the authenticator and the role filter read and write, the
    capabilities they are given, and the shape of their results. */
module AuthTypes {
  import opened Common

  /** A row of the users table, as far as the authenticator reads or writes it.
      `fields` holds the login columns (for example "email" and "username"). */
  datatype User = User(
    id: nat,
    fields: map<string, string>,
    passwordHash: string,
    banned: bool,
    activated: bool,
    forcePassReset: bool,
    resetHash: string)

  /** A row of the remember-me table; the table is keyed by the token's selector. */
  datatype RememberToken = RememberToken(hashedValidator: string, userId: nat)

  /** The two halves of a remember-me cookie `selector:validator`. */
  datatype RememberPair = RememberPair(selector: string, validator: string)

  /** Why a login attempt was refused, as written to the audit log. */
  datatype Reason = UserUnknown | UserBanned | UserInactive
  {
    function Text(): string
    {
      match this
      case UserUnknown => "User unknown"
      case UserBanned => "User banned"
      case UserInactive => "User inactive"
    }
  }

  /** One entry of the append-only login-attempt log. */
  datatype LoginAttempt = LoginAttempt(
    login: Option<string>,
    ipAddress: string,
    userId: Option<nat>,
    success: bool,
    reason: Reason)

  /** The translated messages the core stores or flashes, named after their
      language keys. `NotActivated` also carries the login that its
      resend-activation link names. */
  datatype Message =
    | BadAttempt               // Auth.login.bad_attempt
    | InvalidPassword          // Auth.login.invalid_password
    | UserIsBanned             // Auth.user.is_banned
    | NotActivated(resendLogin: Option<string>)  // Auth.activation.not_activated + Auth.activation.resend
    | InsufficientPermissions  // Auth.exception.insufficient_permissions

  /** Where a redirect goes: a named route (with an optional `token` query
      parameter) or a literal path. */
  datatype Location = NamedRoute(name: string, token: Option<string>) | Path(path: string)

  const LoginPage: Location := NamedRoute("login", None)
  const ErrorPage: Location := Path("/error")

  function ResetPasswordPage(resetHash: string): Location
  {
    NamedRoute("reset-password", Some(resetHash))
  }

  /** The exceptions the core raises and does not catch. */
  datatype AuthException =
    | TooManyCredentials
    | InvalidFields(field: string)
    | RedirectInterrupt(to: Location)
    | PermissionDenied(message: Message)

  /** What a call does: return a value or raise. */
  datatype Outcome<+T> = Return(value: T) | Throw(exception: AuthException)

  /** Session data the core uses: the logged-in user's id and the stored
      redirect target. */
  datatype Session = Session(loggedIn: Option<nat>, redirectUrl: Option<string>)

  /** Everything the core can observe or change. `current` and `error` are the
      authenticator's own `user` and `error` fields; `attempts` and `saves` are
      the audit log and the log of user saves; `cookieOut` is the remember-me
      cookie set on the response. */
  datatype State = State(
    users: seq<User>,
    tokens: map<string, RememberToken>,
    session: Session,
    current: Option<User>,
    error: Option<Message>,
    attempts: seq<LoginAttempt>,
    saves: seq<User>,
    cookieOut: Option<string>)

  /** The outcome of a call together with the state it leaves behind (also
      when it raises: effects before a throw persist). */
  datatype Step<+T> = Step(out: Outcome<T>, st: State)

  /** Authentication configuration. */
  datatype Config = Config(validFields: seq<string>, hashAlgorithm: string, silent: bool)

  /** The hashing capabilities, left uninterpreted: password verification,
      the rehash-needed test, the password hasher used by the user entity's
      password setter, and the SHA-256 digest. */
  datatype Crypto = Crypto(
    verify: (string, string) -> bool,
    needsRehash: (string, string) -> bool,
    hashPassword: string -> string,
    sha256: string -> string)

  datatype Env = Env(config: Config, crypto: Crypto)

  /** The parts of the current request the core reads. `reissue` is the random
      selector and validator the server draws when it reissues a remember token. */
  datatype Request = Request(
    ipAddress: string,
    url: string,
    rememberCookie: Option<string>,
    reissue: RememberPair)

  /** A flash message attached to a redirect. */
  datatype Flash = Flash(key: string, message: Message)

  /** What the role filter's `before` returns: nothing (let the request
      through) or a redirect response. */
  datatype Decision = Allow | Redirect(to: Location, flash: Option<Flash>)

  /** The credential array, keyed by field name. */
  type Credentials = map<string, string>

  /** The state a later request from a browser whose session has ended
      starts in: no logged-in id, and no authenticator user yet. */
  function EndSession(st: State): State
  {
    st.(session := st.session.(loggedIn := None), current := None)
  }
}
