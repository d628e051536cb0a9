/**
 Claims and the principal that carries them (`System.Security.Claims`).
 A `ClaimsPrincipal` may hold several identities; `Principal.claims` is the
 concatenation of their claims in identity order, which is the order in which
 both `ClaimsPrincipal.Claims` and `ClaimsPrincipal.FindFirst` visit them.
 */
module Claims {
  import opened Wrappers
  import opened Text

  /** One typed assertion about the user, e.g. `Claim("scp", "read write")`. */
  datatype Claim = Claim(claimType: string, value: string)

  /** The authenticated user: an ordered claim sequence in which types may repeat. */
  datatype Principal = Principal(claims: seq<Claim>)

  /** `FindFirst` compares claim types ordinally, ignoring case. */
  predicate HasType(c: Claim, claimType: string)
  {
    EqualsIgnoreCase(c.claimType, claimType)
  }

  /** Position of the first claim of the given type, if any. */
  function IndexOfFirst(claims: seq<Claim>, claimType: string): (r: Option<nat>)
    ensures r.Some? ==> r.value < |claims| && HasType(claims[r.value], claimType)
    ensures r.Some? ==> forall j :: 0 <= j < r.value ==> !HasType(claims[j], claimType)
    ensures r.None? ==> forall j :: 0 <= j < |claims| ==> !HasType(claims[j], claimType)
  {
    if |claims| == 0 then None
    else if HasType(claims[0], claimType) then Some(0)
    else
      match IndexOfFirst(claims[1..], claimType)
      case None => None
      case Some(k) => Some(k + 1)
  }

  /** `user.FindFirst(claimType)`: the earliest claim of that type, or null. */
  function FindFirst(user: Principal, claimType: string): (r: Option<Claim>)
    ensures r.None? <==> forall j :: 0 <= j < |user.claims| ==> !HasType(user.claims[j], claimType)
    ensures r.Some? ==> exists i :: 0 <= i < |user.claims| && user.claims[i] == r.value
                                 && HasType(r.value, claimType)
                                 && forall j :: 0 <= j < i ==> !HasType(user.claims[j], claimType)
  {
    match IndexOfFirst(user.claims, claimType)
    case None => None
    case Some(i) => Some(user.claims[i])
  }

  /** Once the first claim of a type is reached, neither later claims nor the claims before it of other types matter. */
  lemma FindFirstAt(pre: seq<Claim>, c: Claim, post: seq<Claim>, claimType: string)
    requires forall j :: 0 <= j < |pre| ==> !HasType(pre[j], claimType)
    requires HasType(c, claimType)
    ensures FindFirst(Principal(pre + [c] + post), claimType) == Some(c)
  {
    var claims := pre + [c] + post;
    assert claims[|pre|] == c;
    assert forall j :: 0 <= j < |pre| ==> claims[j] == pre[j];
  }

  /** Two claim sequences with the same types position by position find the same position. */
  lemma IndexOfFirstDependsOnlyOnTypes(a: seq<Claim>, b: seq<Claim>, claimType: string)
    requires |a| == |b|
    requires forall j :: 0 <= j < |a| ==> a[j].claimType == b[j].claimType
    ensures IndexOfFirst(a, claimType) == IndexOfFirst(b, claimType)
  {
  }
}
