/** The local authenticator: credential validation (`validate`), the login
    attempt that gates on banned and activated (`attempt`), and the session or
    remember-me check (`check`). The storage, hashing and session helpers it
    inherits are modelled only by their effect on `State`. */
module LocalAuthenticator {
  import opened Common
  import opened Php
  import opened AuthTypes

  const PasswordKey: string := "password"

  /** What `validate` returns: `false`, `true`, or the user itself. */
  datatype Validated = Rejected | Accepted | AcceptedUser(user: User)

  /** `$credentials[$key]`, or null when the key is absent. */
  function Lookup(creds: Credentials, key: string): Option<string>
  {
    if key in creds then Some(creds[key]) else None
  }

  /** The guard at the top of `validate` lets the credentials through: a
      password that is not PHP-empty, and at least one other entry. */
  predicate HasPassword(creds: Credentials)
  {
    !IsEmpty(Lookup(creds, PasswordKey)) && |creds| >= 2
  }

  lemma RemoveKeyCard(m: Credentials, k: string)
    requires k in m
    ensures |m - {k}| == |m| - 1
  {
  }

  lemma SingletonSet(s: set<string>, x: string)
    requires |s| == 1 && x in s
    ensures s == {x}
  {
    assert |s - {x}| == 0;
  }

  /** The one key left once the password is removed from a two-entry array. */
  function IdentityField(creds: Credentials): (f: string)
    requires PasswordKey in creds && |creds| == 2
    ensures f in creds && f != PasswordKey
    ensures creds.Keys == {PasswordKey, f}
  {
    RemoveKeyCard(creds, PasswordKey);
    var rest := (creds - {PasswordKey}).Keys;
    assert |rest| == 1;
    var f :| f in rest;
    SingletonSet(rest, f);
    assert creds.Keys == rest + {PasswordKey};
    f
  }

  /** The credentials pass every shape check and name an allowed field. */
  predicate Admitted(env: Env, creds: Credentials)
  {
    HasPassword(creds) && |creds| == 2 && IdentityField(creds) in env.config.validFields
  }

  /** The user row's `field` column holds `value`. */
  predicate Matches(u: User, field: string, value: string)
  {
    field in u.fields && u.fields[field] == value
  }

  /** `where([$field => $value])->first()`: the first stored user whose
      `field` column holds `value`, if any. */
  function FirstWhere(users: seq<User>, field: string, value: string): (r: Option<nat>)
    ensures r.Some? ==> r.value < |users| && Matches(users[r.value], field, value)
    ensures r.Some? ==> forall j :: 0 <= j < r.value ==> !Matches(users[j], field, value)
    ensures r.None? <==> forall j :: 0 <= j < |users| ==> !Matches(users[j], field, value)
  {
    FindFirst(users, (u: User) => Matches(u, field, value))
  }

  /** `find($id)`: the first stored user with that id, if any. */
  function FindUserById(users: seq<User>, id: nat): (r: Option<User>)
    ensures r.Some? ==> r.value in users && r.value.id == id
    ensures r.None? <==> forall j :: 0 <= j < |users| ==> users[j].id != id
  {
    match FindFirst(users, (u: User) => u.id == id)
    case None => None
    case Some(i) => Some(users[i])
  }

  /** Index of the user that admitted credentials identify, if any. */
  function Candidate(env: Env, st: State, creds: Credentials): (r: Option<nat>)
    ensures r.Some? ==> Admitted(env, creds) && r.value < |st.users|
  {
    if Admitted(env, creds) then
      var f := IdentityField(creds);
      FirstWhere(st.users, f, creds[f])
    else None
  }

  /** The credentials identify a user and the password verifies against the
      stored hash. */
  predicate PasswordVerifies(env: Env, st: State, creds: Credentials)
  {
    Candidate(env, st, creds).Some? &&
    env.crypto.verify(creds[PasswordKey], st.users[Candidate(env, st, creds).value].passwordHash)
  }

  /** The stored hash of the verified user was made under a weaker policy. */
  predicate RehashDue(env: Env, st: State, creds: Credentials)
  {
    PasswordVerifies(env, st, creds) &&
    env.crypto.needsRehash(st.users[Candidate(env, st, creds).value].passwordHash, env.config.hashAlgorithm)
  }

  /** `userModel->save($user)` for the row at index `i`. */
  function Save(st: State, i: nat, u: User): (r: State)
    requires i < |st.users|
    ensures r.users == st.users[i := u] && r.saves == st.saves + [u]
  {
    st.(users := st.users[i := u], saves := st.saves + [u])
  }

  /** Validate neither reads nor writes the session, the remember tokens, the
      authenticator's user or the audit log. */
  predicate ValidateFrame(st: State, st': State)
  {
    st'.session == st.session && st'.tokens == st.tokens && st'.current == st.current &&
    st'.attempts == st.attempts && st'.cookieOut == st.cookieOut
  }

  /** `validate($credentials, $returnUser)`. */
  function Validate(env: Env, st: State, creds: Credentials, returnUser: bool): (r: Step<Validated>)
    ensures ValidateFrame(st, r.st) && |r.st.users| == |st.users|
    // No usable password, or fewer than two entries: false, with nothing read or written.
    ensures !HasPassword(creds) ==> r == Step(Return(Rejected), st)
    // More than one entry besides the password.
    ensures r.out == Throw(TooManyCredentials) <==> HasPassword(creds) && |creds| > 2
    // The single other entry is not an allowed field; the exception names it.
    ensures r.out.Throw? && r.out.exception.InvalidFields? <==>
              HasPassword(creds) && |creds| == 2 && IdentityField(creds) !in env.config.validFields
    ensures r.out.Throw? && r.out.exception.InvalidFields? ==>
              creds.Keys == {PasswordKey, r.out.exception.field}
    ensures r.out.Throw? ==> r.st == st
    ensures r.out.Throw? ==> r.out.exception.TooManyCredentials? || r.out.exception.InvalidFields?
    // No user with that field value.
    ensures Admitted(env, creds) && Candidate(env, st, creds).None? ==>
              r == Step(Return(Rejected), st.(error := Some(BadAttempt)))
    // A user, but the password does not verify.
    ensures Candidate(env, st, creds).Some? && !PasswordVerifies(env, st, creds) ==>
              r == Step(Return(Rejected), st.(error := Some(InvalidPassword)))
    // Success exactly when the password verified; the error field is then left alone.
    ensures r.out.Return? && r.out.value != Rejected <==> PasswordVerifies(env, st, creds)
    ensures PasswordVerifies(env, st, creds) ==> r.st.error == st.error
    // The return value is the user exactly when asked for, `true` otherwise.
    ensures r.out.Return? && r.out.value.AcceptedUser? <==> returnUser && PasswordVerifies(env, st, creds)
    ensures r.out == Return(Accepted) <==> !returnUser && PasswordVerifies(env, st, creds)
    ensures r.out.Return? && r.out.value.AcceptedUser? ==>
              var i := Candidate(env, st, creds).value;
              r.out.value.user == r.st.users[i] &&
              r.out.value.user == st.users[i].(passwordHash := r.st.users[i].passwordHash)
    // At most one save, exactly when the verified user's hash is due for a rehash.
    ensures r.st.saves != st.saves <==> RehashDue(env, st, creds)
    ensures r.st.saves == st.saves ==> r.st.users == st.users
    ensures RehashDue(env, st, creds) ==>
              var i := Candidate(env, st, creds).value;
              var upgraded := st.users[i].(passwordHash := env.crypto.hashPassword(creds[PasswordKey]));
              r.st.users == st.users[i := upgraded] && r.st.saves == st.saves + [upgraded]
  {
    if IsEmpty(Lookup(creds, PasswordKey)) || |creds| < 2 then
      Step(Return(Rejected), st)
    else
      var password := creds[PasswordKey];
      var rest := creds - {PasswordKey};
      RemoveKeyCard(creds, PasswordKey);
      if |rest| > 1 then
        Step(Throw(TooManyCredentials), st)
      else
        var field := IdentityField(creds);
        if field !in env.config.validFields then
          Step(Throw(InvalidFields(field)), st)
        else
          match FirstWhere(st.users, field, rest[field])
          case None =>
            Step(Return(Rejected), st.(error := Some(BadAttempt)))
          case Some(i) =>
            var user := st.users[i];
            if !env.crypto.verify(password, user.passwordHash) then
              Step(Return(Rejected), st.(error := Some(InvalidPassword)))
            else if env.crypto.needsRehash(user.passwordHash, env.config.hashAlgorithm) then
              // The entity's password setter stores a fresh hash of the plaintext.
              var upgraded := user.(passwordHash := env.crypto.hashPassword(password));
              Step(Return(if returnUser then AcceptedUser(upgraded) else Accepted), Save(st, i, upgraded))
            else
              Step(Return(if returnUser then AcceptedUser(user) else Accepted), st)
  }

  /** After one rehash, validating again with the same plaintext succeeds
      with the same result and saves nothing, provided the hasher produces
      hashes that verify and are not themselves due for a rehash. */
  lemma RehashHappensOnce(env: Env, st: State, creds: Credentials, returnUser: bool)
    requires RehashDue(env, st, creds)
    requires env.crypto.verify(creds[PasswordKey], env.crypto.hashPassword(creds[PasswordKey]))
    requires !env.crypto.needsRehash(env.crypto.hashPassword(creds[PasswordKey]), env.config.hashAlgorithm)
    ensures var first := Validate(env, st, creds, returnUser);
            var second := Validate(env, first.st, creds, returnUser);
            second.out == first.out && second.st == first.st
  {
    var first := Validate(env, st, creds, returnUser);
    var i := Candidate(env, st, creds).value;
    var f := IdentityField(creds);
    var upgraded := st.users[i].(passwordHash := env.crypto.hashPassword(creds[PasswordKey]));
    assert first.st.users == st.users[i := upgraded];
    FindFirstUpdate(st.users, (u: User) => Matches(u, f, creds[f]), i, upgraded);
    assert Candidate(env, first.st, creds) == Some(i);
    assert first.st.users[i] == upgraded;
  }

  /** Whether the user is asked for changes only the shape of the result,
      never the effects. */
  lemma ReturnUserOnlyShapesResult(env: Env, st: State, creds: Credentials)
    ensures var asUser := Validate(env, st, creds, true);
            var asBool := Validate(env, st, creds, false);
            asUser.st == asBool.st &&
            (asBool.out == Return(Accepted) <==> asUser.out.Return? && asUser.out.value.AcceptedUser?) &&
            (asBool.out == Return(Rejected) <==> asUser.out == Return(Rejected)) &&
            (asBool.out.Throw? ==> asUser.out == asBool.out)
  {
  }

  /** Validate consults nothing but the users table: two states with the same
      users give the same outcome. */
  lemma ValidateReadsOnlyUsers(env: Env, st1: State, st2: State, creds: Credentials, returnUser: bool)
    requires st1.users == st2.users
    ensures Validate(env, st1, creds, returnUser).out == Validate(env, st2, creds, returnUser).out
    ensures Validate(env, st1, creds, returnUser).st.users == Validate(env, st2, creds, returnUser).st.users
  {
  }

  /** `$credentials['email'] ?? $credentials['username']`: the login written
      to the audit log. */
  function LoginName(creds: Credentials): (r: Option<string>)
    ensures r.None? <==> "email" !in creds && "username" !in creds
    ensures r.Some? ==> ("email" in creds && r.value == creds["email"]) ||
                        ("email" !in creds && "username" in creds && r.value == creds["username"])
  {
    if "email" in creds then Some(creds["email"]) else Lookup(creds, "username")
  }

  /** `recordLoginAttempt`: appends one entry to the audit log. */
  function RecordLoginAttempt(st: State, entry: LoginAttempt): (r: State)
    ensures r.attempts == st.attempts + [entry]
    ensures r.(attempts := st.attempts) == st
  {
    st.(attempts := st.attempts + [entry])
  }

  /** The audit entry of a refused attempt. */
  function Refusal(req: Request, creds: Credentials, userId: Option<nat>, reason: Reason): LoginAttempt
  {
    LoginAttempt(LoginName(creds), req.ipAddress, userId, false, reason)
  }

  /** The user `validate` handed back is allowed in: not banned, activated. */
  predicate AdmitsUser(v: Outcome<Validated>)
  {
    v.Return? && v.value.AcceptedUser? && !v.value.user.banned && v.value.user.activated
  }

  /** `attempt($credentials, $remember)`: certifies credentials but does not
      log the user in. `remember` is accepted and unused. */
  function Attempt(env: Env, req: Request, st: State, creds: Credentials, remember: bool): (r: Step<bool>)
    // Never logs in and never touches remember tokens.
    ensures r.st.session == st.session && r.st.tokens == st.tokens && r.st.cookieOut == st.cookieOut
    // A rehash save made by validate stays, whatever the outcome.
    ensures r.st.users == Validate(env, st, creds, true).st.users
    ensures r.st.saves == Validate(env, st, creds, true).st.saves
    // Exceptions from validate propagate, with nothing recorded.
    ensures r.out.Throw? <==> Validate(env, st, creds, true).out.Throw?
    ensures r.out.Throw? ==> r.st == st && r.out.exception == Validate(env, st, creds, true).out.exception
    // Success: a valid, unbanned, activated user; no audit entry is written.
    ensures r.out == Return(true) <==> AdmitsUser(Validate(env, st, creds, true).out)
    ensures r.out == Return(true) ==>
              r.st.attempts == st.attempts && r.st.error == st.error &&
              r.st.current == Some(Validate(env, st, creds, true).out.value.user)
    // Every refusal writes exactly one audit entry and clears the user.
    ensures r.out == Return(false) ==>
              r.st.current.None? && |r.st.attempts| == |st.attempts| + 1 &&
              r.st.attempts[..|st.attempts|] == st.attempts && !r.st.attempts[|st.attempts|].success
    // Gate order: unknown, then banned, then inactive.
    ensures Validate(env, st, creds, true).out == Return(Rejected) ==>
              r.out == Return(false) &&
              r.st.attempts == st.attempts + [Refusal(req, creds, None, UserUnknown)] &&
              r.st.attempts[|st.attempts|].reason.Text() == "User unknown" &&
              r.st.error == Validate(env, st, creds, true).st.error
    ensures var v := Validate(env, st, creds, true).out;
            v.Return? && v.value.AcceptedUser? && v.value.user.banned ==>
              r.out == Return(false) &&
              r.st.attempts == st.attempts + [Refusal(req, creds, Some(v.value.user.id), UserBanned)] &&
              r.st.attempts[|st.attempts|].reason.Text() == "User banned" &&
              r.st.error == Some(UserIsBanned)
    ensures var v := Validate(env, st, creds, true).out;
            v.Return? && v.value.AcceptedUser? && !v.value.user.banned && !v.value.user.activated ==>
              r.out == Return(false) &&
              r.st.attempts == st.attempts + [Refusal(req, creds, Some(v.value.user.id), UserInactive)] &&
              r.st.attempts[|st.attempts|].reason.Text() == "User inactive" &&
              r.st.error == Some(NotActivated(LoginName(creds)))
  {
    var v := Validate(env, st, creds, true);
    match v.out
    case Throw(e) =>
      Step(Throw(e), v.st)
    case Return(Rejected) =>
      Step(Return(false), RecordLoginAttempt(v.st, Refusal(req, creds, None, UserUnknown)).(current := None))
    case Return(Accepted) =>
      assert false;
      Step(Return(false), v.st)
    case Return(AcceptedUser(user)) =>
      if user.banned then
        var logged := RecordLoginAttempt(v.st, Refusal(req, creds, Some(user.id), UserBanned));
        Step(Return(false), logged.(error := Some(UserIsBanned), current := None))
      else if !user.activated then
        var logged := RecordLoginAttempt(v.st, Refusal(req, creds, Some(user.id), UserInactive));
        Step(Return(false), logged.(error := Some(NotActivated(LoginName(creds))), current := None))
      else
        Step(Return(true), v.st.(current := Some(user)))
  }

  /** A refused attempt refused again: when the first call saved nothing, the
      second gives the same answer for the same reason and appends a second,
      identical audit entry; neither call touches the session. */
  lemma RefusalRepeats(env: Env, req: Request, st: State, creds: Credentials, remember: bool)
    requires Attempt(env, req, st, creds, remember).out == Return(false)
    requires !RehashDue(env, st, creds)
    ensures var first := Attempt(env, req, st, creds, remember);
            var second := Attempt(env, req, first.st, creds, remember);
            second.out == Return(false) &&
            second.st.attempts == first.st.attempts + [first.st.attempts[|st.attempts|]] &&
            second.st.session == st.session
  {
    var first := Attempt(env, req, st, creds, remember);
    ValidateReadsOnlyUsers(env, st, first.st, creds, true);
  }

  /** `isLoggedIn()`: the user whose id the session holds, if that user is
      still stored. */
  function SessionUser(st: State): (r: Option<User>)
    ensures r.Some? ==> r.value in st.users && st.session.loggedIn == Some(r.value.id)
    ensures r.None? <==> st.session.loggedIn.None? ||
                         forall j :: 0 <= j < |st.users| ==> st.users[j].id != st.session.loggedIn.value
  {
    match st.session.loggedIn
    case None => None
    case Some(id) => FindUserById(st.users, id)
  }

  /** `id()`: the id of the authenticator's user, or null. */
  function Id(st: State): (r: Option<nat>)
    ensures r.Some? <==> st.current.Some?
    ensures r.Some? ==> r.value == st.current.value.id
  {
    match st.current
    case None => None
    case Some(u) => Some(u.id)
  }

  /** `login($user)`: the session and the authenticator now hold the user. */
  function Login(st: State, u: User): (r: State)
    ensures r.session == st.session.(loggedIn := Some(u.id)) && r.current == Some(u)
    ensures r.(session := st.session, current := st.current) == st
  {
    st.(session := st.session.(loggedIn := Some(u.id)), current := Some(u))
  }

  /** `refreshRemember($userId, $selector)`: the token under `selector` is
      withdrawn and a freshly drawn one is stored and set as the cookie. */
  function RefreshRemember(env: Env, st: State, userId: nat, selector: string, reissue: RememberPair): (r: State)
    ensures selector in r.tokens ==> selector == reissue.selector
    ensures reissue.selector in r.tokens &&
            r.tokens[reissue.selector] == RememberToken(env.crypto.sha256(reissue.validator), userId)
    ensures forall s :: s in st.tokens && s != selector && s != reissue.selector ==>
              s in r.tokens && r.tokens[s] == st.tokens[s]
    ensures r.tokens.Keys == (st.tokens.Keys - {selector}) + {reissue.selector}
    ensures r.cookieOut == Some(reissue.selector + ":" + reissue.validator)
    ensures r.(tokens := st.tokens, cookieOut := st.cookieOut) == st
  {
    var tokens := (st.tokens - {selector})[reissue.selector := RememberToken(env.crypto.sha256(reissue.validator), userId)];
    st.(tokens := tokens, cookieOut := Some(reissue.selector + ":" + reissue.validator))
  }

  /** `[$selector, $validator] = explode(':', $cookie)`: the selector is the
      text before the first colon and the validator the text between the
      first and the second colon; with no colon at all the validator is
      null, which the digest treats as "". */
  function ParseRemember(cookie: string): (p: RememberPair)
    ensures ':' !in p.selector && ':' !in p.validator
    ensures p.selector <= cookie
    ensures ':' in cookie ==> p.selector + ":" + p.validator <= cookie
    ensures ':' in cookie ==> var n := |p.selector| + 1 + |p.validator|; n == |cookie| || cookie[n] == ':'
    ensures ':' !in cookie ==> p == RememberPair(cookie, "")
  {
    var parts := Explode(':', cookie);
    if |parts| == 1 then
      assert cookie == parts[0];
      RememberPair(parts[0], "")
    else
      var rest := Implode(':', parts[1..]);
      assert cookie == parts[0] + [':'] + rest;
      assert parts[1..][0] == parts[1];
      ImplodeFirstPartEnds(':', parts[1..]);
      RememberPair(parts[0], parts[1])
  }

  /** A cookie written as `selector:validator` from colon-free halves parses
      back into those halves. */
  lemma RememberCookieRoundTrip(pair: RememberPair)
    requires ':' !in pair.selector && ':' !in pair.validator
    ensures ParseRemember(pair.selector + ":" + pair.validator) == pair
  {
  }

  /** Text after a second colon is not part of the validator. */
  lemma ValidatorStopsAtSecondColon(selector: string, validator: string, tail: string)
    requires ':' !in selector && ':' !in validator
    ensures ParseRemember(selector + ":" + validator + ":" + tail) == RememberPair(selector, validator)
  {
    var more := Explode(':', tail);
    var parts := [selector, validator] + more;
    assert parts[1..] == [validator] + more;
    assert parts[1..][1..] == more;
    assert Implode(':', parts[1..]) == validator + [':'] + tail;
    assert Implode(':', parts) == selector + ":" + validator + ":" + tail;
    ExplodeImplode(':', parts);
  }

  /** The cookie names a stored token whose hashed validator matches and
      whose owner is still stored. */
  predicate RememberAccepted(env: Env, req: Request, st: State)
  {
    !IsEmpty(req.rememberCookie) &&
    var p := ParseRemember(req.rememberCookie.value);
    p.selector in st.tokens &&
    st.tokens[p.selector].hashedValidator == env.crypto.sha256(p.validator) &&
    FindUserById(st.users, st.tokens[p.selector].userId).Some?
  }

  /** `check()`. */
  function Check(env: Env, req: Request, st: State): (r: Step<bool>)
    // Check never changes stored users, the audit log, the save log or the error.
    ensures r.st.users == st.users && r.st.attempts == st.attempts &&
            r.st.saves == st.saves && r.st.error == st.error
    // Logged in: the user is loaded; a forced reset raises a redirect carrying the reset hash.
    ensures SessionUser(st).Some? ==> r.st == st.(current := SessionUser(st))
    ensures r.out.Throw? <==> SessionUser(st).Some? && SessionUser(st).value.forcePassReset
    ensures r.out.Throw? ==> r.out.exception == RedirectInterrupt(ResetPasswordPage(SessionUser(st).value.resetHash))
    ensures SessionUser(st).Some? && !SessionUser(st).value.forcePassReset ==> r.out == Return(true)
    // Not logged in: success exactly when the remember cookie is accepted.
    ensures r.out == Return(false) <==> SessionUser(st).None? && !RememberAccepted(env, req, st)
    // Failure changes nothing: no login, no token refresh.
    ensures r.out == Return(false) ==> r.st == st
    // Remember-me success: the owner is logged in and the used token is replaced.
    ensures SessionUser(st).None? && r.out == Return(true) ==>
              var p := ParseRemember(req.rememberCookie.value);
              var owner := st.tokens[p.selector].userId;
              r.st.session == st.session.(loggedIn := Some(owner)) &&
              r.st.current == FindUserById(st.users, owner) &&
              r.st.tokens == (st.tokens - {p.selector})[req.reissue.selector :=
                               RememberToken(env.crypto.sha256(req.reissue.validator), owner)] &&
              r.st.cookieOut == Some(req.reissue.selector + ":" + req.reissue.validator)
  {
    match SessionUser(st)
    case Some(u) =>
      var loaded := st.(current := Some(u));
      if u.forcePassReset then
        Step(Throw(RedirectInterrupt(ResetPasswordPage(u.resetHash))), loaded)
      else
        Step(Return(true), loaded)
    case None =>
      if IsEmpty(req.rememberCookie) then
        Step(Return(false), st)
      else
        var p := ParseRemember(req.rememberCookie.value);
        var digest := env.crypto.sha256(p.validator);
        if p.selector !in st.tokens then
          Step(Return(false), st)
        else if st.tokens[p.selector].hashedValidator != digest then
          Step(Return(false), st)
        else
          match FindUserById(st.users, st.tokens[p.selector].userId)
          case None =>
            Step(Return(false), st)
          case Some(u) =>
            Step(Return(true), RefreshRemember(env, Login(st, u), u.id, p.selector, req.reissue))
  }

  /** Each remember token works once: after a remember-me login, the same
      cookie presented again (once the session has ended) is refused, as long
      as the reissued token differs from the used one. */
  lemma RememberTokenSingleUse(env: Env, req: Request, st: State)
    requires SessionUser(st).None?
    requires Check(env, req, st).out == Return(true)
    requires var p := ParseRemember(req.rememberCookie.value);
             req.reissue.selector != p.selector ||
             env.crypto.sha256(req.reissue.validator) != env.crypto.sha256(p.validator)
    ensures var next := EndSession(Check(env, req, st).st);
            Check(env, req, next) == Step(Return(false), next)
  {
  }

  /** The reissued cookie is accepted on the next request, as long as the
      freshly drawn halves contain no colon. */
  lemma ReissuedCookieAccepted(env: Env, req: Request, st: State, later: Request)
    requires SessionUser(st).None?
    requires Check(env, req, st).out == Return(true)
    requires ':' !in req.reissue.selector && ':' !in req.reissue.validator
    requires later.rememberCookie == Check(env, req, st).st.cookieOut
    ensures Check(env, later, EndSession(Check(env, req, st).st)).out == Return(true)
  {
    var after := Check(env, req, st).st;
    var next := EndSession(after);
    RememberCookieRoundTrip(req.reissue);
    assert SessionUser(next).None?;
    var owner := after.tokens[req.reissue.selector].userId;
    assert after.current.Some? && after.current.value.id == owner && after.current.value in st.users;
    assert FindUserById(next.users, owner).Some?;
    assert RememberAccepted(env, later, next);
  }

  /** A forced password reset interrupts every check until the flag is cleared. */
  lemma ForcedResetRepeats(env: Env, req: Request, st: State)
    requires SessionUser(st).Some? && SessionUser(st).value.forcePassReset
    ensures var first := Check(env, req, st);
            first.out.Throw? && Check(env, req, first.st) == first
  {
  }
}
