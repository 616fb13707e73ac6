# Session login and role gate of ci4-auth, modelled in Dafny

This project models the decision logic of the ci4-auth authentication layer
for CodeIgniter 4:

- `LocalAuthenticator::validate` checks the shape of a credential array,
  looks up one user by the single non-password field, verifies the password
  and rehashes it when the hash policy has changed.
- `LocalAuthenticator::attempt` runs `validate`, then refuses banned users
  before inactive ones. It writes one audit entry per refusal and does not
  log the user in.
- `LocalAuthenticator::check` accepts an existing session, unless the user
  must reset their password, which raises a redirect. Otherwise it falls
  back to the `selector:validator` remember-me cookie and consumes that
  token once.
- `RoleFilter::before` and `RoleFilter::after` form the route guard. Its
  outcomes are allow, redirect to login, redirect to `/error` with a flash
  message, or raise a permission error.

Everything is a pure function over an immutable `State` (module
`AuthTypes`). Each operation returns a `Step`: an `Outcome` (`Return(value)`
or `Throw(exception)`) plus the state it leaves behind. A raise keeps the
effects made before it, as PHP does. The hashing capabilities (`verify`,
`needsRehash`, the password hasher, SHA-256) are function-valued fields of
`Crypto`. The authorisation capability `inRole` is a parameter of `Before`.
The users table is a sequence in storage order. `where(...)->first()` and
`find($id)` both pick the first matching row (`Common.FindFirst`).

Modules: `Common` (option type, first-match search), `Php` (`empty()`,
`explode`, `implode`), `AuthTypes` (entities, state, results),
`LocalAuthenticator`, `RoleFilter`.

Behaviour of the code worth noting:

- A successful `attempt` writes no audit entry. Only the three refusal
  paths log (lines 59-65).
- The remember cookie is split with `explode(':')` and list destructuring.
  So the validator is the segment between the first and second colon, not
  everything after the first colon. When there is no colon, the validator is
  PHP null, and `hash('sha256', null)` hashes the empty string.
- PHP `empty()` treats the passwords `""` and `"0"` as missing.
- A banned or inactive user whose hash is due for a rehash is still saved
  with the new hash before `attempt` refuses them.

## Model

| member | source | states |
|---|---|---|
| `Common.FindFirst` | src/Authentication/LocalAuthenticator.php:161 | the first row satisfying the condition is returned, and none is returned exactly when no row satisfies it; this is the `first()` of every lookup |
| `Php.Explode` | src/Authentication/LocalAuthenticator.php:95 | `explode` yields at least one segment, no segment contains the separator, and joining the segments gives back the input |
| `Php.ExplodeImplode` | src/Authentication/LocalAuthenticator.php:95 | splitting a join of separator-free parts gives back exactly those parts |
| `Php.IsEmpty` | src/Authentication/LocalAuthenticator.php:137 | PHP `empty()` on a string entry: a missing value and the empty string are empty, a one-character string is empty exactly when it is `"0"`, and no longer string is empty. The same test guards the cookie at line 93 |
| `Php.EmptyStrings` | src/Authentication/LocalAuthenticator.php:93 | the missing value, `""` and `"0"` are empty; `"00"`, `"0.0"` and `" "` are not |
| `LocalAuthenticator.IdentityField` | src/Authentication/LocalAuthenticator.php:144-154 | once the password is removed from a two-entry array, one key remains; it is not `password`, and it is the key whose name `key()` reports |
| `LocalAuthenticator.FirstWhere` | src/Authentication/LocalAuthenticator.php:161 | `where([$field => $value])->first()` returns the first stored user whose column holds the value, or nothing when no user does |
| `LocalAuthenticator.FindUserById` | src/Authentication/LocalAuthenticator.php:107 | `find($id)` returns a stored user with that id, or nothing exactly when no stored user has it |
| `LocalAuthenticator.Validate` | src/Authentication/LocalAuthenticator.php:132-189 | PHP-empty password or fewer than 2 entries: false, with no lookup, save or exception. More than one other key: too-many-credentials, before any field check. A field outside `validFields`: invalid-fields naming that key. No user: error bad-attempt, false. Wrong password: error invalid-password, false. Success exactly when the password verifies. The user is returned iff asked for, else true. At most one save, exactly when a rehash is due. Session, tokens, audit log and `$this->user` are never touched |
| `LocalAuthenticator.Save` | src/Authentication/LocalAuthenticator.php:182-183 | `userModel->save($user)` replaces that user's row and appends the saved row to the save log |
| `LocalAuthenticator.RehashHappensOnce` | src/Authentication/LocalAuthenticator.php:181-188 | after a rehash, validating again with the same plaintext gives the same result and saves nothing. This assumes the new hash verifies and is not itself due for a rehash |
| `LocalAuthenticator.ReturnUserOnlyShapesResult` | src/Authentication/LocalAuthenticator.php:186-188 | `returnUser` changes only whether the user or `true` is returned, never the effects or whether validation succeeds |
| `LocalAuthenticator.ValidateReadsOnlyUsers` | src/Authentication/LocalAuthenticator.php:132-189 | validate consults the users table and nothing else: two states with the same users give the same outcome. It never reads the session |
| `LocalAuthenticator.LoginName` | src/Authentication/LocalAuthenticator.php:31 | the audit login is the `email` entry when present, otherwise the `username` entry, and absent exactly when neither is given |
| `LocalAuthenticator.RecordLoginAttempt` | src/Authentication/LocalAuthenticator.php:31 | recording an attempt appends exactly that entry to the audit log and changes nothing else |
| `LocalAuthenticator.Attempt` | src/Authentication/LocalAuthenticator.php:22-66 | never logs in or touches remember tokens. Exceptions from validate pass through with nothing recorded. True exactly for a returned user that is unbanned and activated, with no audit entry and `$this->user` set. Every refusal appends one entry and clears `$this->user`. Order: unknown (reason text 'User unknown', no id), then banned ('User banned', banned error), then inactive ('User inactive', resend-activation error naming the login) |
| `LocalAuthenticator.RefusalRepeats` | src/Authentication/LocalAuthenticator.php:24-57 | when a refused attempt saved nothing, repeating it is refused again. It appends a second, identical audit entry, and neither call touches the session |
| `LocalAuthenticator.SessionUser` | src/Authentication/LocalAuthenticator.php:77 | `isLoggedIn` holds exactly when the session carries an id and a stored user has that id, and then yields that user |
| `LocalAuthenticator.Id` | src/Filters/RoleFilter.php:47 | `id()` is the id of the authenticator's user, and null exactly when there is no user |
| `LocalAuthenticator.Login` | src/Authentication/LocalAuthenticator.php:111 | `login($user)` puts the user's id in the session and the user in `$this->user`, and changes nothing else |
| `LocalAuthenticator.RefreshRemember` | src/Authentication/LocalAuthenticator.php:113-116 | the used selector no longer names a token unless the reissued one reuses it. The reissued selector maps to the digest of the new validator for the same user. Other tokens are unchanged, no other selector is added, and the new cookie is set |
| `LocalAuthenticator.ParseRemember` | src/Authentication/LocalAuthenticator.php:95 | the selector is the colon-free prefix of the cookie. The validator is colon-free, follows the first colon and runs up to the next colon or the end. With no colon, the validator is empty |
| `LocalAuthenticator.RememberCookieRoundTrip` | src/Authentication/LocalAuthenticator.php:95 | a cookie written as `selector:validator` from colon-free halves parses back into those halves |
| `LocalAuthenticator.ValidatorStopsAtSecondColon` | src/Authentication/LocalAuthenticator.php:95-96 | text after a second colon is not part of the validator that gets hashed |
| `LocalAuthenticator.Check` | src/Authentication/LocalAuthenticator.php:75-119 | Logged in: the user is loaded and the result is true, or a raised redirect carrying `reset_hash` when `force_pass_reset` is set (the only way `check` raises). Otherwise false exactly when the cookie is PHP-empty, the selector is unknown, the digest differs or the owner is gone, and then nothing changes. On a full match the owner is logged in, the used token is replaced and the new cookie is set. Users, audit log, saves and error are never changed |
| `LocalAuthenticator.RememberTokenSingleUse` | src/Authentication/LocalAuthenticator.php:111-118 | after a remember-me login, presenting the same cookie again once the session has ended is refused with no effect, provided the reissued token differs |
| `LocalAuthenticator.ReissuedCookieAccepted` | src/Authentication/LocalAuthenticator.php:113-116 | the reissued cookie is accepted on the next request, provided its halves contain no colon |
| `LocalAuthenticator.ForcedResetRepeats` | src/Authentication/LocalAuthenticator.php:77-84 | a forced password reset raises the same redirect on every check until the flag is cleared |
| `RoleFilter.Before` | src/Filters/RoleFilter.php:25-58 | No roles: allow with the state untouched. A raise from check passes through. Not authenticated: store the current URL as `redirect_url` and redirect to `login`. Allow exactly when authenticated and holding one of the roles. No role in silent mode: remove `redirect_url` and redirect to `/error` with an `error` flash. No role otherwise: raise the permission error, leaving the session as check left it |
| `RoleFilter.LaterRolesIgnored` | src/Filters/RoleFilter.php:46-48 | roles after the first one the user holds are never consulted: replacing them does not change the result |
| `RoleFilter.UnauthenticatedIgnoresRoles` | src/Filters/RoleFilter.php:36-41 | when check fails or raises, the authorisation capability is not consulted: any other `inRole` gives the same result |
| `RoleFilter.GateTerminalActions` | src/Filters/RoleFilter.php:29-57 | the gate always ends in allow, redirect to login, redirect to the error page with the permission flash, the permission error, or check's forced-reset redirect |
| `RoleFilter.After` | src/Filters/RoleFilter.php:73-75 | `after` has no effect on any state |

## Left out

- Password hashing, rehash policy and SHA-256 (FIPS 180-4) are uninterpreted capabilities. `hash_equals` is plain string equality, because its constant-time property cannot be stated here.
- `AuthenticationBase` (`isLoggedIn`, `login`, `refreshRemember`, `recordLoginAttempt`, `id`, `silent`) is not part of this model. Its methods are specified only by their effect on `State`. `isLoggedIn` means the session id resolves to a stored user, and that user is loaded into `$this->user`. So the `$this->user &&` guard on line 81 always holds here.
- `login` is reduced to setting the session id and `$this->user`. Session regeneration, login events and any audit entry `login()` itself writes are left out. So the statement that `check` never changes the audit log holds for this reduction only.
- `refreshRemember` is reduced to withdrawing the used selector and storing a freshly drawn selector and validator. Their randomness is the request's `reissue` field. The cookie lifetime is left out.
- The user entity (`isBanned`, `isActivated`, the password setter) is not part of this model. Banned and activated are booleans, and the password setter stores `hashPassword(plaintext)`.
- The login model is not part of this model, so remember tokens have no expiry check.
- The audit record's timestamp is left out (a clock).
- HTTP and framework plumbing are opaque values or constants: `service('request')`, the IP lookup, `get_cookie`, `redirect()`, `route_to`, `current_url`, the `lang` strings (kept as their keys), and the HTML of the resend-activation link (kept as the login it names).
- The atomicity of the token replacement under concurrent requests is left out. This model is sequential.
- How `where($credentials)->first()` runs in the database is left out: collation, SQL errors for unknown columns, and row order beyond "storage order".
- Credential values are strings only. PHP's loose comparison in `in_array`, integer array keys and array-valued entries are not modelled.
- PHP warnings for an undefined array key are not modelled. The login written to the audit log is absent when neither `email` nor `username` is given.
- `attempt` accepts `remember` and does not use it, as in the source.
