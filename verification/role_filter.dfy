/** The role filter guarding a route: `before` lets the request through,
    redirects, or raises; `after` does nothing. */
module RoleFilter {
  import opened Common
  import opened AuthTypes
  import opened LocalAuthenticator

  /** The authorisation capability `inRole(role, userId)`, left uninterpreted. */
  type RoleCheck = (string, Option<nat>) -> bool

  /** The user holds at least one of the required roles. */
  predicate HoldsSomeRole(inRole: RoleCheck, roles: seq<string>, id: Option<nat>)
  {
    exists i :: 0 <= i < |roles| && inRole(roles[i], id)
  }

  /** `before($request, $params)` with `params` the required roles (null
      and the empty array alike). */
  function Before(env: Env, inRole: RoleCheck, req: Request, st: State, params: seq<string>): (r: Step<Decision>)
    // No roles required: let through without consulting anything.
    ensures |params| == 0 ==> r == Step(Return(Allow), st)
    // A raise from check (the forced password reset) propagates.
    ensures |params| > 0 && Check(env, req, st).out.Throw? ==>
              r == Step(Throw(Check(env, req, st).out.exception), Check(env, req, st).st)
    // Not authenticated: remember where the user was going and send them to the login page.
    ensures |params| > 0 && Check(env, req, st).out == Return(false) ==>
              var c := Check(env, req, st).st;
              r == Step(Return(Redirect(LoginPage, None)), c.(session := c.session.(redirectUrl := Some(req.url))))
    // Let through exactly when authenticated and holding one of the roles; the state is check's.
    ensures r.out == Return(Allow) <==>
              |params| == 0 ||
              (Check(env, req, st).out == Return(true) && HoldsSomeRole(inRole, params, Id(Check(env, req, st).st)))
    ensures |params| > 0 && r.out == Return(Allow) ==> r.st == Check(env, req, st).st
    // Authenticated without any role, silent: drop the stored target, redirect to the error page with a flash.
    ensures |params| > 0 && Check(env, req, st).out == Return(true) &&
            !HoldsSomeRole(inRole, params, Id(Check(env, req, st).st)) && env.config.silent ==>
              var c := Check(env, req, st).st;
              r == Step(Return(Redirect(ErrorPage, Some(Flash("error", InsufficientPermissions)))),
                        c.(session := c.session.(redirectUrl := None)))
    // Authenticated without any role, not silent: raise, leaving the session as check left it.
    ensures |params| > 0 && Check(env, req, st).out == Return(true) &&
            !HoldsSomeRole(inRole, params, Id(Check(env, req, st).st)) && !env.config.silent ==>
              r == Step(Throw(PermissionDenied(InsufficientPermissions)), Check(env, req, st).st)
  {
    if |params| == 0 then
      Step(Return(Allow), st)
    else
      var c := Check(env, req, st);
      match c.out
      case Throw(e) =>
        Step(Throw(e), c.st)
      case Return(authenticated) =>
        if !authenticated then
          Step(Return(Redirect(LoginPage, None)), c.st.(session := c.st.session.(redirectUrl := Some(req.url))))
        else
          var id := Id(c.st);
          if FindFirst(params, (role: string) => inRole(role, id)).Some? then
            Step(Return(Allow), c.st)
          else if env.config.silent then
            Step(Return(Redirect(ErrorPage, Some(Flash("error", InsufficientPermissions)))),
                 c.st.(session := c.st.session.(redirectUrl := None)))
          else
            Step(Throw(PermissionDenied(InsufficientPermissions)), c.st)
  }

  /** Roles after the first one the user holds are never consulted: replacing
      them changes nothing. */
  lemma LaterRolesIgnored(env: Env, inRole: RoleCheck, req: Request, st: State,
                          params: seq<string>, k: nat, others: seq<string>)
    requires k < |params|
    requires Check(env, req, st).out == Return(true)
    requires inRole(params[k], Id(Check(env, req, st).st))
    ensures Before(env, inRole, req, st, params) == Before(env, inRole, req, st, params[..k + 1] + others)
  {
    var params' := params[..k + 1] + others;
    assert params'[k] == params[k];
  }

  /** When check fails or raises, the authorisation capability is never
      consulted: any other one gives the same result. */
  lemma UnauthenticatedIgnoresRoles(env: Env, inRole: RoleCheck, otherRoles: RoleCheck,
                                    req: Request, st: State, params: seq<string>)
    requires Check(env, req, st).out != Return(true)
    ensures Before(env, inRole, req, st, params) == Before(env, otherRoles, req, st, params)
  {
  }

  /** The gate ends in one of its terminal actions: let through, redirect to
      the login page, redirect to the error page, raise the permission error,
      or pass on check's forced-reset redirect. */
  lemma GateTerminalActions(env: Env, inRole: RoleCheck, req: Request, st: State, params: seq<string>)
    ensures var r := Before(env, inRole, req, st, params);
            (r.out == Return(Allow)) ||
            (r.out == Return(Redirect(LoginPage, None))) ||
            (r.out == Return(Redirect(ErrorPage, Some(Flash("error", InsufficientPermissions))))) ||
            (r.out == Throw(PermissionDenied(InsufficientPermissions))) ||
            (r.out.Throw? && r.out.exception.RedirectInterrupt?)
  {
  }

  /** `after($request, $response, $arguments)`: no effect on any state. */
  function After(st: State): (r: State)
    ensures r == st
  {
    st
  }
}
