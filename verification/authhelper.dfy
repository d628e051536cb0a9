/**
 `AuthHelper.UserHasAnyAcceptedScopes(context, acceptedScopes)`: the OAuth 2.0 scope
 check run by the web API before it serves a request (scope strings as in section 3.3
 of RFC 6749: space-delimited, case-sensitive tokens).

 The C# method returns nothing and reports through exceptions and through the
 response it mutates; here one call is a pure function from the arguments to a
 `Call`: the way the method ended (`Outcome`) and the context as it is afterwards.
 The `lock (context)` blocks only serialise access to the context and are not modelled.
 */
module AuthHelper {
  import opened Wrappers
  import opened Text
  import opened Linq
  import opened Claims

  /** `ClaimConstants.Scp`: the scope claim of the Microsoft identity platform. */
  const ScpClaimType: string := "scp"
  /** `ClaimConstants.Scope`: the name the JWT handler's inbound claim mapping gives to `scp`. */
  const ScopeClaimType: string := "http://schemas.microsoft.com/identity/claims/scope"

  /** `(int)HttpStatusCode.Unauthorized` and `(int)HttpStatusCode.Forbidden`. */
  const StatusUnauthorized: int := 401
  const StatusForbidden: int := 403

  const UnauthenticatedMessage: string :=
    "IDW10204: The user is unauthenticated. The HttpContext does not contain any claims."
  const ForbiddenPrefix: string := "IDW10203: The 'scope' or 'scp' claim does not contain scopes '"
  const ForbiddenSuffix: string := "' or was not found. "

  /** The parts of `HttpResponse` the check touches: status code, text written, whether
      the response has started (headers sent, so the status can no longer be set) and
      whether it has been completed. */
  datatype Response = Response(statusCode: int, body: string, hasStarted: bool, completed: bool)

  /** A response nobody has written to yet (ASP.NET Core starts every response at 200). */
  const Untouched: Response := Response(200, "", false, false)

  /** `HttpContext`: the user (a null reference is `None`) and the response. */
  datatype HttpContext = HttpContext(user: Option<Principal>, response: Response)

  /** How the call ends. `Unauthenticated` and `Forbidden` are both an `UnauthorizedAccessException`
      carrying `message`; `StatusAfterStart` is the `InvalidOperationException` the status
      setter throws once the response has started; `NullReference` is the runtime's
      exception for dereferencing null. */
  datatype Outcome =
    | Authorized
    | ArgumentNull(paramName: string)
    | Unauthenticated(message: string)
    | Forbidden(message: string)
    | StatusAfterStart
    | NullReference

  /** One invocation: its outcome and the context afterwards (`None` when none was passed). */
  datatype Call = Call(outcome: Outcome, context: Option<HttpContext>)

  /** The scope claim the check consults: the first `scp` claim, or, only when there is
      none at all, the first claim of the fallback type. */
  function SelectScopeClaim(user: Principal): (r: Option<Claim>)
    ensures r.Some? ==> r.value in user.claims
    ensures r.Some? ==> HasType(r.value, ScpClaimType) ||
                        (HasType(r.value, ScopeClaimType) &&
                         forall j :: 0 <= j < |user.claims| ==> !HasType(user.claims[j], ScpClaimType))
    ensures r.None? <==> forall j :: 0 <= j < |user.claims| ==>
                           !HasType(user.claims[j], ScpClaimType) && !HasType(user.claims[j], ScopeClaimType)
    ensures r.Some? ==> exists i :: 0 <= i < |user.claims| && user.claims[i] == r.value &&
                          forall j :: 0 <= j < i ==>
                            !HasType(user.claims[j], if HasType(r.value, ScpClaimType) then ScpClaimType else ScopeClaimType)
  {
    var scp := FindFirst(user, ScpClaimType);
    if scp.None? then FindFirst(user, ScopeClaimType) else scp
  }

  /** A scope claim value grants access when one of its space-separated tokens equals
      one of the accepted scopes exactly. */
  predicate ScopesSatisfied(value: string, accepted: seq<string>)
  {
    exists i, j :: 0 <= i < |SplitOn(value, ' ')| && 0 <= j < |accepted| && SplitOn(value, ' ')[i] == accepted[j]
  }

  /** `scopeClaim.Value.Split(' ').Intersect(acceptedScopes).Any()` is `ScopesSatisfied`. */
  function HasAcceptedScope(value: string, accepted: seq<string>): (b: bool)
    ensures b <==> ScopesSatisfied(value, accepted)
  {
    IntersectAny(SplitOn(value, ' '), accepted);
    |Intersect(SplitOn(value, ' '), accepted)| > 0
  }

  /** The user holds a scope claim and that claim grants one of the accepted scopes. */
  predicate Granted(user: Principal, accepted: seq<string>)
  {
    match SelectScopeClaim(user)
    case None => false
    case Some(c) => ScopesSatisfied(c.value, accepted)
  }

  /** The text of the 403 body and exception: the accepted scopes comma-joined in the given order. */
  function ForbiddenMessage(accepted: seq<string>): (m: string)
    ensures |m| >= |ForbiddenPrefix| + |ForbiddenSuffix|
    ensures m[..|ForbiddenPrefix|] == ForbiddenPrefix
    ensures m[|m| - |ForbiddenSuffix|..] == ForbiddenSuffix
  {
    ForbiddenPrefix + Join(",", accepted) + ForbiddenSuffix
  }

  /** The message lists the accepted scopes faithfully: when no scope contains a comma,
      splitting the text between prefix and suffix on ',' gives back exactly the
      accepted scopes, in order and with repetitions. */
  lemma ForbiddenMessageListsScopes(accepted: seq<string>)
    requires |accepted| >= 1
    requires forall k :: 0 <= k < |accepted| ==> ',' !in accepted[k]
    ensures var m := ForbiddenMessage(accepted);
            SplitOn(m[|ForbiddenPrefix|..|m| - |ForbiddenSuffix|], ',') == accepted
  {
    var m := ForbiddenMessage(accepted);
    assert m[|ForbiddenPrefix|..|m| - |ForbiddenSuffix|] == Join([','], accepted);
    SplitJoin(accepted, ',');
  }

  /** The claims are present and non-empty (AuthHelper.cs line 32, negated). */
  predicate HasClaims(user: Option<Principal>)
  {
    user.Some? && |user.value.claims| > 0
  }

  /** Lines 34-39: set 401, which throws instead when the response has already started. */
  function RejectUnauthenticated(ctx: HttpContext): (r: Call)
    ensures r.context.Some? && r.context.value.user == ctx.user
    ensures ctx.response.hasStarted ==> r == Call(StatusAfterStart, Some(ctx))
    ensures !ctx.response.hasStarted ==>
              r.outcome == Unauthenticated(UnauthenticatedMessage) &&
              r.context.value.response == ctx.response.(statusCode := StatusUnauthorized)
  {
    if ctx.response.hasStarted then Call(StatusAfterStart, Some(ctx))
    else
      Call(Unauthenticated(UnauthenticatedMessage),
           Some(ctx.(response := ctx.response.(statusCode := StatusUnauthorized))))
  }

  /** Lines 41-65: the scope decision for a user whose claims are non-empty. */
  function CheckScopes(ctx: HttpContext, user: Principal, accepted: seq<string>): (r: Call)
    ensures r.outcome.Authorized? <==> Granted(user, accepted)
    ensures r.outcome.Authorized? ==> r.context == Some(ctx)
    ensures !r.outcome.Authorized? && ctx.response.hasStarted ==> r == Call(StatusAfterStart, Some(ctx))
    ensures !r.outcome.Authorized? && !ctx.response.hasStarted ==>
              r.outcome == Forbidden(ForbiddenMessage(accepted)) &&
              r.context == Some(ctx.(response := Response(StatusForbidden, ctx.response.body + ForbiddenMessage(accepted), true, true)))
  {
    var scopeClaim := SelectScopeClaim(user);
    if scopeClaim.None? || !HasAcceptedScope(scopeClaim.value.value, accepted) then
      var message := ForbiddenMessage(accepted);
      if ctx.response.hasStarted then Call(StatusAfterStart, Some(ctx))
      else
        Call(Forbidden(message),
             Some(ctx.(response := Response(StatusForbidden, ctx.response.body + message, true, true))))
    else
      Call(Authorized, Some(ctx))
  }

  /** The check with the null-user test of line 32 in effect: a null user, like an empty
      claim set, is unauthenticated. */
  function UserHasAnyAcceptedScopes(context: Option<HttpContext>, acceptedScopes: Option<seq<string>>): (r: Call)
    // argument checks come first, `acceptedScopes` before `context`, and touch nothing
    ensures acceptedScopes.None? ==> r == Call(ArgumentNull("acceptedScopes"), context)
    ensures acceptedScopes.Some? && context.None? ==> r == Call(ArgumentNull("context"), None)
    ensures r.outcome.ArgumentNull? <==> acceptedScopes.None? || context.None?
    // only the response can change
    ensures context.Some? ==> r.context.Some? && r.context.value.user == context.value.user
    // 401: no user or no claims; only the status code changes
    ensures r.outcome.Unauthenticated? <==>
              acceptedScopes.Some? && context.Some? && !HasClaims(context.value.user) &&
              !context.value.response.hasStarted
    ensures r.outcome.Unauthenticated? ==>
              r.outcome.message == UnauthenticatedMessage &&
              r.context.value.response == context.value.response.(statusCode := StatusUnauthorized)
    // admitted exactly when the selected scope claim grants an accepted scope; nothing changes
    ensures r.outcome.Authorized? <==>
              acceptedScopes.Some? && context.Some? && HasClaims(context.value.user) &&
              Granted(context.value.user.value, acceptedScopes.value)
    ensures r.outcome.Authorized? ==> r.context == context
    // 403 otherwise: status, the message written to the body, response started and completed
    ensures r.outcome.Forbidden? <==>
              acceptedScopes.Some? && context.Some? && HasClaims(context.value.user) &&
              !Granted(context.value.user.value, acceptedScopes.value) &&
              !context.value.response.hasStarted
    ensures r.outcome.Forbidden? ==>
              r.outcome.message == ForbiddenMessage(acceptedScopes.value) &&
              r.context.value.response ==
                Response(StatusForbidden, context.value.response.body + r.outcome.message, true, true)
    // a rejection on a response that has already started fails in the status setter
    ensures r.outcome.StatusAfterStart? <==>
              acceptedScopes.Some? && context.Some? && context.value.response.hasStarted &&
              !(HasClaims(context.value.user) && Granted(context.value.user.value, acceptedScopes.value))
    ensures r.outcome.StatusAfterStart? ==> r.context == context
    ensures !r.outcome.NullReference?
  {
    if acceptedScopes.None? then Call(ArgumentNull("acceptedScopes"), context)
    else if context.None? then Call(ArgumentNull("context"), None)
    else
      var ctx := context.value;
      if !HasClaims(ctx.user) then RejectUnauthenticated(ctx)
      else CheckScopes(ctx, ctx.user.value, acceptedScopes.value)
  }

  /** The method as written: line 29 reads `user.Claims` before line 32 asks whether `user`
      is null, so a null user ends in a NullReferenceException instead of a 401. */
  function UserHasAnyAcceptedScopesAsWritten(context: Option<HttpContext>, acceptedScopes: Option<seq<string>>): (r: Call)
    ensures acceptedScopes.Some? && context.Some? && context.value.user.None? ==>
              r.outcome == NullReference && r.context == context
    ensures acceptedScopes.None? || context.None? || context.value.user.Some? ==>
              r == UserHasAnyAcceptedScopes(context, acceptedScopes)
  {
    if acceptedScopes.None? then Call(ArgumentNull("acceptedScopes"), context)
    else if context.None? then Call(ArgumentNull("context"), None)
    else
      var ctx := context.value;
      match ctx.user
      case None => Call(NullReference, context)
      case Some(user) =>
        if |user.claims| == 0 then RejectUnauthenticated(ctx)
        else
          CheckScopes(ctx, user, acceptedScopes.value)
  }
}
