# Scope check of the minimal B2C web API, in Dafny

The web API guards its endpoint with an OAuth 2.0 scope check,
`AuthHelper.UserHasAnyAcceptedScopes(context, acceptedScopes)`. The check takes the
scope claim of the authenticated user. It splits that claim's value on single
spaces, as the space-delimited, case-sensitive scope strings of section 3.3 of
RFC 6749 require. It admits the request when a token equals one of the accepted
scopes. Otherwise it rejects the request:
- 401 when the user has no claims;
- 403, with a diagnostic body and a completed response, when no accepted scope is granted.

The decision has four outcomes:
- `ArgumentNullException` when an argument is null;
- `UnauthorizedAccessException` after setting 401;
- `UnauthorizedAccessException` after setting 403, writing the message and completing the response;
- a normal return that leaves the response alone.

## How the model is built

- `wrappers.dfy` (`Wrappers`): `Option`, used for every reference that may be null.
- `text.dfy` (`Text`): .NET `Split(' ')`, which keeps empty segments, and
  `string.Join`. It also proves both round trips between them, plus ordinal
  case-insensitive comparison.
- `linq.dfy` (`Linq`): `Enumerable.Intersect`, meaning the distinct elements of the
  first sequence that also occur in the second. It relates `.Any()` on the result to
  an independent "shares an element" statement.
- `claims.dfy` (`Claims`): `Claim`, `Principal` and `ClaimsPrincipal.FindFirst`.
- `authhelper.dfy` (`AuthHelper`): the check itself.
  - One call is a pure function returning a `Call`: the `Outcome` and the context afterwards.
  - The response is a record of status code, body and completion.
  - Every postcondition about admitting a request is stated through `Granted` and
    `ScopesSatisfied`. These are quantified definitions that do not use `Intersect`.
- `properties.dfy` (`ScopeProperties`): claim precedence, order insensitivity,
  the empty scope list, the response each outcome leaves, repeated calls, and worked cases.

Decisions taken from the code and the .NET libraries it calls:
- **Claim-type lookup ignores case.** `ClaimsPrincipal.FindFirst(string)` compares claim
  types with `StringComparison.OrdinalIgnoreCase`, so an `SCP` claim counts as the `scp` claim.
- **Name of the fallback claim.** The fallback is `ClaimConstants.Scope` from
  Microsoft.Identity.Web, which is not part of this model. In that library the constant
  is the URI `http://schemas.microsoft.com/identity/claims/scope`, which is what the JWT
  handler's inbound claim mapping turns `scp` into. The model uses that URI and not the
  short name `scope` that is sometimes given for it. No proof depends on its spelling
  beyond its differing from `scp`.
- **The fallback is consulted only when there is no `scp` claim at all.** An `scp` claim
  that fails to match is final (line 47).
- **`WriteAsync` appends to whatever the response already holds.** On a fresh response,
  the body is exactly the message. Writing also starts the response.
- **The status can only be set before the response starts.** Once it has started,
  ASP.NET Core's status setter throws `InvalidOperationException`. `Response` carries a
  `hasStarted` flag, and the outcome `StatusAfterStart` stands for that exception on
  line 36 or line 58.

## Model

| member | source | states |
|---|---|---|
| Text.SplitOnSegments | AuthHelper.cs:52 | `Split(' ')` yields one more segment than the value has spaces, and no segment contains a space, so empty segments are kept |
| Text.JoinSplit | AuthHelper.cs:52 | joining the segments of `Split(c)` with `c` rebuilds the original value exactly: splitting loses nothing |
| Text.SplitJoin | AuthHelper.cs:54 | splitting `string.Join(c, xs)` on `c` gives back `xs`, provided `xs` is non-empty and no element contains `c` |
| Linq.IntersectWith | AuthHelper.cs:52 | streaming `Intersect` yields exactly the elements of the first sequence still pending, each once |
| Linq.Intersect | AuthHelper.cs:52 | `first.Intersect(second)` holds exactly the common elements, without duplicates |
| Linq.IntersectAny | AuthHelper.cs:52 | `Intersect(...).Any()` holds iff some element of the first sequence equals some element of the second |
| Linq.IntersectAnyDependsOnlyOnSets | AuthHelper.cs:52 | whether the intersection is empty depends only on the element sets, not on order or repetition |
| Claims.IndexOfFirst | AuthHelper.cs:44 | returns the position of a claim of the type with no earlier claim of that type, or none when no claim has the type |
| Claims.FindFirst | AuthHelper.cs:44-50 | `FindFirst` is null iff no claim has the type; otherwise it is the earliest claim of that type |
| Claims.FindFirstAt | AuthHelper.cs:44-50 | the first claim of a type is found whatever follows it |
| Claims.IndexOfFirstDependsOnlyOnTypes | AuthHelper.cs:44-50 | the lookup reads only claim types, so changing claim values never moves the selected position |
| AuthHelper.SelectScopeClaim | AuthHelper.cs:43-50 | the selected claim is one of the user's claims. It has type `scp`, or it has the fallback type and no claim has type `scp`. No earlier claim has its type, so it is the first such claim. It is absent iff no claim has either type |
| AuthHelper.HasAcceptedScope | AuthHelper.cs:52 | `Split(' ').Intersect(acceptedScopes).Any()` holds iff some token of the value equals some accepted scope, case-sensitively |
| AuthHelper.ForbiddenMessage | AuthHelper.cs:54 | the 403 message starts with the fixed `IDW10203` prefix and ends with the fixed suffix |
| AuthHelper.ForbiddenMessageListsScopes | AuthHelper.cs:54 | the text between prefix and suffix, split on commas, gives back the accepted scopes in the order given |
| AuthHelper.RejectUnauthenticated | AuthHelper.cs:34-39 | on a response that has not started, only the status changes, to 401, and the outcome carries the `IDW10204` message. On a started response the status setter throws and nothing changes |
| AuthHelper.CheckScopes | AuthHelper.cs:41-65 | with claims present, the request is admitted iff `Granted`, with the context untouched. Otherwise, on a response that has not started, the outcome is `Forbidden(message)`: the status is 403, the message is appended to the body, and the response is started and completed. On a started response the status setter throws and nothing changes |
| AuthHelper.UserHasAnyAcceptedScopes | AuthHelper.cs:10-66 | a null `acceptedScopes` is reported before a null `context`, and neither case touches anything. Admitted iff there are claims and `Granted`, with the context unchanged. Every other case is a rejection. If the response has not started: 401 with the `IDW10204` message when there is no user or no claim, where only the status changes; otherwise 403 with the message. If the response has already started, the status setter throws and the context is unchanged. The user is never changed |
| AuthHelper.UserHasAnyAcceptedScopesAsWritten | AuthHelper.cs:26-32 | as written, a null user ends in a `NullReferenceException` with the context untouched. Every other input behaves as the corrected check |
| ScopeProperties.ScpClaimTakesPrecedence | AuthHelper.cs:44-58 | when an `scp` claim exists, only the first one decides. Earlier claims of other types, later `scp` claims and fallback-type claims anywhere have no effect, even when the `scp` claim does not match |
| ScopeProperties.FallbackClaimWhenNoScp | AuthHelper.cs:46-58 | with no `scp` claim, the first claim of the fallback type decides |
| ScopeProperties.EmptyAcceptedScopesForbidden | AuthHelper.cs:52-58 | with claims present and no accepted scopes, the request is always rejected: 403 with a message naming an empty list, or the status setter's exception on a started response |
| ScopeProperties.AcceptedScopesOrderIrrelevant | AuthHelper.cs:52 | permuting or duplicating the accepted scopes never changes whether the request is admitted |
| ScopeProperties.SatisfiedDependsOnlyOnSets | AuthHelper.cs:52 | a scope match depends only on the set of tokens and the set of accepted scopes |
| ScopeProperties.ScopeTokenOrderIrrelevant | AuthHelper.cs:44-52 | rewriting any claim's value to one with the same token set, reordered or repeated, never changes whether the request is admitted |
| ScopeProperties.ForbiddenResponseCarriesMessage | AuthHelper.cs:54-63 | on a fresh response, a refusal leaves status 403, the message as the whole body, and a completed response |
| ScopeProperties.UnauthenticatedResponseHasNoBody | AuthHelper.cs:32-39 | on a fresh response, an empty claim set yields status 401 and the exact `IDW10204` message. No body is written and the response is not completed |
| ScopeProperties.RepeatedCallSameOutcome | AuthHelper.cs:10-63 | calling the check again on the context it returned gives the same call result, except after a 403. The 403 started the response, so the second call's status setter throws and the context is left as it was |
| ScopeProperties.ScpExampleForbidden | AuthHelper.cs:52-63 | an `scp` claim of `read write` is refused for `admin` with 403, and the message names `admin` |
| ScopeProperties.FallbackExampleAuthorized | AuthHelper.cs:46-52 | with no `scp` claim, a fallback claim of `write` admits a request accepting `read` or `write` |
| ScopeProperties.UpperCaseScpClaimAccepted | AuthHelper.cs:44 | a claim typed `SCP` is found as the `scp` claim |
| ScopeProperties.EmptyTokenMatchesEmptyScope | AuthHelper.cs:52 | a doubled space produces an empty token, which matches an accepted scope `""` |
| ScopeProperties.NullUserNeverUnauthenticatedAsWritten | AuthHelper.cs:28-39 | for a null user, the code as written throws `NullReferenceException`, while the corrected check answers 401, or throws in the status setter on a started response |

## Findings

| source | as written | input that shows it | evidently intended | confidence | as-written member | corrected member |
|---|---|---|---|---|---|---|
| AuthHelper.cs:28-32 | `user.Claims` is read on line 29, before line 32 tests `user == null`, so the null test can never succeed | a context whose `User` is null, with non-null `acceptedScopes` | a null user is unauthenticated: 401 and `IDW10204` | not executed; the ordering is certain, but ASP.NET Core's default `HttpContext` never returns a null `User`, so the input needs a custom context | AuthHelper.UserHasAnyAcceptedScopesAsWritten | AuthHelper.UserHasAnyAcceptedScopes |

`ScopeProperties.NullUserNeverUnauthenticatedAsWritten` shows the discrepancy. The
rest of the model uses the corrected check.

## Left out

- The `lock (context)` blocks (lines 26-30, 34-37, 56-61) only serialise access to the
  shared context. Calls are modelled one at a time, so there is nothing for them to do.
- `WriteAsync` and `CompleteAsync` are asynchronous and are not awaited. They are
  modelled as taking effect at once: the body gets the message and the response is
  completed. Encoding the body to bytes is not modelled.
- Whether a response has started is an input flag. The model does not track what
  outside the check starts a response, such as middleware flushing headers.
- `userClaims == null` on line 32 cannot happen: `ClaimsPrincipal.Claims` never returns
  null. Only a null user and an empty claim sequence are modelled.
- A `ClaimsPrincipal` holds several identities. The model flattens their claims in
  identity order, which is the order `Claims` and `FindFirst` both use.
- Claim-type comparison folds only ASCII letters. Non-ASCII case mappings of
  `OrdinalIgnoreCase` are not modelled.
- Null elements of `acceptedScopes` are not modelled: every element is a string. For a
  null element, `string.Join` would write nothing.
- `string.Format(CultureInfo.InvariantCulture, ...)` with one string argument is plain
  concatenation. Culture is not modelled.
- Token validation and claim population by the JWT bearer middleware and
  Microsoft.Identity.Web are library code. The claims are an input.
- Program.cs is hosting and plumbing:
  - dependency injection, CORS, HTTPS redirection and the middleware order;
  - the weather payload, which uses the clock and a random generator;
  - its endpoint calls the library's `VerifyUserHasAnyAcceptedScope`, which is not part of this model.
