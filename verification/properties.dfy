/**
 Properties of `AuthHelper.UserHasAnyAcceptedScopes` that relate several calls or
 pin down one class of inputs: claim precedence, order insensitivity, the
 empty accepted-scope list, the response left by each outcome, and worked cases.
 */
module ScopeProperties {
  import opened Wrappers
  import opened Text
  import opened Claims
  import opened Linq
  import opened AuthHelper

  /** The first `scp` claim alone decides: claims before it are of other types, and
      neither later `scp` claims nor any fallback-type claim can change the decision. */
  lemma ScpClaimTakesPrecedence(response: Response, pre: seq<Claim>, c: Claim, post: seq<Claim>, accepted: seq<string>)
    requires forall j :: 0 <= j < |pre| ==> !HasType(pre[j], ScpClaimType)
    requires HasType(c, ScpClaimType)
    ensures var ctx := HttpContext(Some(Principal(pre + [c] + post)), response);
            UserHasAnyAcceptedScopes(Some(ctx), Some(accepted)).outcome ==
              if ScopesSatisfied(c.value, accepted) then Authorized
              else if response.hasStarted then StatusAfterStart
              else Forbidden(ForbiddenMessage(accepted))
  {
    FindFirstAt(pre, c, post, ScpClaimType);
    assert SelectScopeClaim(Principal(pre + [c] + post)) == Some(c);
  }

  /** The fallback claim type is consulted only when no claim of type `scp` exists;
      then its first occurrence decides. */
  lemma FallbackClaimWhenNoScp(response: Response, pre: seq<Claim>, c: Claim, post: seq<Claim>, accepted: seq<string>)
    requires forall j :: 0 <= j < |pre + [c] + post| ==> !HasType((pre + [c] + post)[j], ScpClaimType)
    requires forall j :: 0 <= j < |pre| ==> !HasType(pre[j], ScopeClaimType)
    requires HasType(c, ScopeClaimType)
    ensures var ctx := HttpContext(Some(Principal(pre + [c] + post)), response);
            UserHasAnyAcceptedScopes(Some(ctx), Some(accepted)).outcome ==
              if ScopesSatisfied(c.value, accepted) then Authorized
              else if response.hasStarted then StatusAfterStart
              else Forbidden(ForbiddenMessage(accepted))
  {
    FindFirstAt(pre, c, post, ScopeClaimType);
    assert FindFirst(Principal(pre + [c] + post), ScpClaimType) == None;
  }

  /** With a non-empty claim set and no accepted scopes the request is always refused:
      with 403 and a message naming an empty scope list, or, on a response that has
      already started, by the status setter throwing. */
  lemma EmptyAcceptedScopesForbidden(ctx: HttpContext)
    requires HasClaims(ctx.user)
    ensures var r := UserHasAnyAcceptedScopes(Some(ctx), Some([]));
            !ctx.response.hasStarted ==>
              r.outcome == Forbidden(ForbiddenPrefix + ForbiddenSuffix) &&
              r.context.value.response.statusCode == StatusForbidden
    ensures var r := UserHasAnyAcceptedScopes(Some(ctx), Some([]));
            ctx.response.hasStarted ==> r == Call(StatusAfterStart, Some(ctx))
  {
  }

  /** Reordering or duplicating the accepted scopes never changes whether access is granted. */
  lemma AcceptedScopesOrderIrrelevant(ctx: HttpContext, a1: seq<string>, a2: seq<string>)
    requires forall x :: x in a1 <==> x in a2
    ensures UserHasAnyAcceptedScopes(Some(ctx), Some(a1)).outcome.Authorized? <==>
            UserHasAnyAcceptedScopes(Some(ctx), Some(a2)).outcome.Authorized?
  {
    if HasClaims(ctx.user) {
      match SelectScopeClaim(ctx.user.value)
      case None =>
      case Some(c) => SatisfiedDependsOnlyOnSets(c.value, a1, c.value, a2);
    }
  }

  /** `ScopesSatisfied` sees only the set of tokens and the set of accepted scopes. */
  lemma SatisfiedDependsOnlyOnSets(v1: string, a1: seq<string>, v2: string, a2: seq<string>)
    requires forall t :: t in SplitOn(v1, ' ') <==> t in SplitOn(v2, ' ')
    requires forall x :: x in a1 <==> x in a2
    ensures ScopesSatisfied(v1, a1) <==> ScopesSatisfied(v2, a2)
  {
    IntersectAnyDependsOnlyOnSets(SplitOn(v1, ' '), a1, SplitOn(v2, ' '), a2);
    assert HasAcceptedScope(v1, a1) == HasAcceptedScope(v2, a2);
  }

  /** Rewriting the value of any one claim to a value with the same set of space-separated
      tokens (reordered or repeated) never changes whether access is granted. */
  lemma ScopeTokenOrderIrrelevant(response: Response, claims: seq<Claim>, i: nat, v: string, accepted: seq<string>)
    requires i < |claims|
    requires forall t :: t in SplitOn(claims[i].value, ' ') <==> t in SplitOn(v, ' ')
    ensures var claims' := claims[i := Claim(claims[i].claimType, v)];
            UserHasAnyAcceptedScopes(Some(HttpContext(Some(Principal(claims)), response)), Some(accepted)).outcome.Authorized?
            <==>
            UserHasAnyAcceptedScopes(Some(HttpContext(Some(Principal(claims')), response)), Some(accepted)).outcome.Authorized?
  {
    var claims' := claims[i := Claim(claims[i].claimType, v)];
    IndexOfFirstDependsOnlyOnTypes(claims, claims', ScpClaimType);
    IndexOfFirstDependsOnlyOnTypes(claims, claims', ScopeClaimType);
    var s, s' := SelectScopeClaim(Principal(claims)), SelectScopeClaim(Principal(claims'));
    assert s.None? <==> s'.None?;
    if s.Some? {
      var k := if IndexOfFirst(claims, ScpClaimType).Some? then IndexOfFirst(claims, ScpClaimType).value
               else IndexOfFirst(claims, ScopeClaimType).value;
      assert s == Some(claims[k]) && s' == Some(claims'[k]);
      if k == i {
        SatisfiedDependsOnlyOnSets(claims[i].value, accepted, v, accepted);
      }
    }
  }

  /** On a fresh response, a refusal leaves exactly the message as the body, status 403,
      and the response completed. */
  lemma ForbiddenResponseCarriesMessage(user: Principal, accepted: seq<string>)
    requires |user.claims| > 0 && !Granted(user, accepted)
    ensures var r := UserHasAnyAcceptedScopes(Some(HttpContext(Some(user), Untouched)), Some(accepted));
            r.outcome.Forbidden? &&
            r.context.value.response == Response(StatusForbidden, r.outcome.message, true, true)
  {
  }

  /** On a fresh response, an empty claim set yields 401 with no body and no completion. */
  lemma UnauthenticatedResponseHasNoBody(accepted: seq<string>)
    ensures var r := UserHasAnyAcceptedScopes(Some(HttpContext(Some(Principal([])), Untouched)), Some(accepted));
            r.outcome == Unauthenticated(UnauthenticatedMessage) &&
            r.context.value.response == Response(StatusUnauthorized, "", false, false)
  {
  }

  /** Calling the check again on the context it left behind repeats its outcome, except
      after a refusal with 403: that refusal started the response, so the second call's
      attempt to set 403 again throws and leaves the context as it was. */
  lemma RepeatedCallSameOutcome(context: Option<HttpContext>, accepted: Option<seq<string>>)
    ensures var r1 := UserHasAnyAcceptedScopes(context, accepted);
            var r2 := UserHasAnyAcceptedScopes(r1.context, accepted);
            (!r1.outcome.Forbidden? ==> r2 == r1) &&
            (r1.outcome.Forbidden? ==> r2 == Call(StatusAfterStart, r1.context))
  {
  }

  /** A user whose `scp` claim lists `read write` is refused for `admin` with status 403,
      and the message names the refused scope. */
  lemma ScpExampleForbidden()
    ensures var ctx := HttpContext(Some(Principal([Claim("scp", "read write")])), Untouched);
            var r := UserHasAnyAcceptedScopes(Some(ctx), Some(["admin"]));
            r.outcome == Forbidden(ForbiddenPrefix + "admin" + ForbiddenSuffix) &&
            r.context.value.response == Response(403, r.outcome.message, true, true)
  {
    var user := Principal([Claim("scp", "read write")]);
    ReadWriteDoesNotGrantAdmin();
    ForbiddenResponseCarriesMessage(user, ["admin"]);
    assert ForbiddenMessage(["admin"]) == ForbiddenPrefix + "admin" + ForbiddenSuffix by {
      assert Join(",", ["admin"]) == "admin";
    }
  }

  /** The tokens `read` and `write` of the example's `scp` claim do not include `admin`. */
  lemma ReadWriteDoesNotGrantAdmin()
    ensures !Granted(Principal([Claim("scp", "read write")]), ["admin"])
  {
    var user := Principal([Claim("scp", "read write")]);
    assert SelectScopeClaim(user) == Some(user.claims[0]);
    SplitJoin(["read", "write"], ' ');
    assert Join([' '], ["read", "write"]) == "read write";
  }

  /** With no `scp` claim, the fallback claim decides: `write` is granted. */
  lemma FallbackExampleAuthorized()
    ensures var ctx := HttpContext(Some(Principal([Claim("name", "Ada"), Claim(ScopeClaimType, "write")])), Untouched);
            UserHasAnyAcceptedScopes(Some(ctx), Some(["read", "write"])).outcome == Authorized
  {
    var claims := [Claim("name", "Ada"), Claim(ScopeClaimType, "write")];
    assert !HasType(claims[0], ScpClaimType) && !HasType(claims[1], ScpClaimType);
    assert !HasType(claims[0], ScopeClaimType);
    FindFirstAt([claims[0]], claims[1], [], ScopeClaimType);
    assert [claims[0]] + [claims[1]] + [] == claims;
    SplitWithoutSeparator("write", ' ');
    assert SplitOn("write", ' ')[0] == ["read", "write"][1];
  }

  /** Claim types are matched ignoring case, so an `SCP` claim is the `scp` claim. */
  lemma UpperCaseScpClaimAccepted()
    ensures var ctx := HttpContext(Some(Principal([Claim("SCP", "read")])), Untouched);
            UserHasAnyAcceptedScopes(Some(ctx), Some(["read"])).outcome == Authorized
  {
    var claims := [Claim("SCP", "read")];
    assert HasType(claims[0], ScpClaimType);
    assert SelectScopeClaim(Principal(claims)) == Some(claims[0]);
    SplitWithoutSeparator("read", ' ');
    assert SplitOn("read", ' ')[0] == ["read"][0];
  }

  /** `Split(' ')` keeps empty tokens: a doubled space yields an empty token, which
      matches an accepted scope that is itself empty. */
  lemma EmptyTokenMatchesEmptyScope()
    ensures var ctx := HttpContext(Some(Principal([Claim("scp", "a  b")])), Untouched);
            UserHasAnyAcceptedScopes(Some(ctx), Some([""])).outcome == Authorized
  {
    var claims := [Claim("scp", "a  b")];
    assert SelectScopeClaim(Principal(claims)) == Some(claims[0]);
    SplitJoin(["a", "", "b"], ' ');
    assert Join([' '], ["a", "", "b"]) == "a  b";
    assert SplitOn("a  b", ' ')[1] == [""][0];
  }

  /** The null-user test of line 32 is dead code: as written, a null user never reaches
      it and the call ends in a NullReferenceException; the corrected check answers 401. */
  lemma NullUserNeverUnauthenticatedAsWritten(response: Response, accepted: seq<string>)
    ensures var ctx := Some(HttpContext(None, response));
            UserHasAnyAcceptedScopesAsWritten(ctx, Some(accepted)).outcome == NullReference &&
            UserHasAnyAcceptedScopes(ctx, Some(accepted)).outcome ==
              if response.hasStarted then StatusAfterStart else Unauthenticated(UnauthenticatedMessage)
  {
  }
}
