/** `ClaimsPrincipalExtensions`: finding claims of a given type in a claim list,
    comparing the type names ordinally and, by default, ignoring case. */
module ClaimExtensions {
  import opened Runtime
  import Linq
  import Options

  /** A claim: its type name and its value (never null). */
  datatype Claim = Claim(claimType: string, value: string)

  /** The two ordinal `StringComparison` modes. */
  datatype StringComparison = Ordinal | OrdinalIgnoreCase

  /** The principal, reduced to the claims it carries. */
  datatype ClaimsPrincipal = ClaimsPrincipal(claims: seq<Claim>)

  /** `ClaimTypes.NameIdentifier`. */
  const NameIdentifier: string := "http://schemas.xmlsoap.org/ws/2005/05/identity/claims/nameidentifier"

  /** Upper-casing of one character, for the ASCII letters. */
  function ToUpper(c: char): char {
    if 'a' <= c <= 'z' then (c as int - 32) as char else c
  }

  /** `a.Equals(b, comparison)`. */
  predicate StringEquals(a: string, b: string, comparison: StringComparison) {
    match comparison
    case Ordinal => a == b
    case OrdinalIgnoreCase => |a| == |b| && forall i :: 0 <= i < |a| ==> ToUpper(a[i]) == ToUpper(b[i])
  }

  /** Both comparisons are equivalence relations, and ordinal equality implies
      case-insensitive equality. */
  lemma StringEqualsIsEquivalence(a: string, b: string, c: string, comparison: StringComparison)
    ensures StringEquals(a, a, comparison)
    ensures StringEquals(a, b, comparison) ==> StringEquals(b, a, comparison)
    ensures StringEquals(a, b, comparison) && StringEquals(b, c, comparison) ==> StringEquals(a, c, comparison)
    ensures StringEquals(a, b, Ordinal) ==> StringEquals(a, b, OrdinalIgnoreCase)
  {
  }

  /** The filter `GetClaims` applies: the claim's type equals `claimType` under `comparison`. */
  function OfType(claimType: string, comparison: StringComparison): Claim -> bool {
    (c: Claim) => StringEquals(c.claimType, claimType, comparison)
  }

  /** `GetClaims`: the claims of the given type, in their original order. */
  function GetClaims(claims: seq<Claim>, claimType: string, comparison: StringComparison := OrdinalIgnoreCase): (r: seq<Claim>)
    ensures |r| <= |claims|
    ensures forall i :: 0 <= i < |r| ==> r[i] in claims && StringEquals(r[i].claimType, claimType, comparison)
    ensures forall c :: c in claims && StringEquals(c.claimType, claimType, comparison) ==> c in r
  {
    Linq.Where(claims, OfType(claimType, comparison))
  }

  /** `GetClaims` works claim by claim: it keeps the order of its input. */
  lemma GetClaimsInOrder(a: seq<Claim>, b: seq<Claim>, claimType: string, comparison: StringComparison)
    ensures GetClaims(a + b, claimType, comparison) == GetClaims(a, claimType, comparison) + GetClaims(b, claimType, comparison)
  {
    Linq.WhereAppend(a, b, OfType(claimType, comparison));
  }

  /** `GetClaim`: the value of the first claim of the given type, None when there
      is none (the null from `FirstOrDefault` converts to None). */
  function GetClaim(claims: seq<Claim>, claimType: string, comparison: StringComparison := OrdinalIgnoreCase): (r: Options.Option<string>)
    ensures r.None? <==> forall i :: 0 <= i < |claims| ==> !StringEquals(claims[i].claimType, claimType, comparison)
    ensures r.Some? ==> exists k :: Linq.FirstMatchAt(claims, OfType(claimType, comparison), k) && claims[k].value == r.value
  {
    Linq.WhereEmpty(claims, OfType(claimType, comparison));
    Linq.WhereHead(claims, OfType(claimType, comparison));
    Options.FromNullable(Linq.FirstOrDefault(Linq.Select(GetClaims(claims, claimType, comparison), (c: Claim) => c.value)))
  }

  /** `GetUserId`: the value of the principal's first name-identifier claim,
      whatever the case of its type name. */
  function GetUserId(principal: ClaimsPrincipal): (r: Options.Option<string>)
    ensures r.None? <==> forall i :: 0 <= i < |principal.claims| ==>
      !StringEquals(principal.claims[i].claimType, NameIdentifier, OrdinalIgnoreCase)
    ensures r.Some? ==>
      exists k :: 0 <= k < |principal.claims| &&
        StringEquals(principal.claims[k].claimType, NameIdentifier, OrdinalIgnoreCase) &&
        (forall j :: 0 <= j < k ==> !StringEquals(principal.claims[j].claimType, NameIdentifier, OrdinalIgnoreCase)) &&
        principal.claims[k].value == r.value
  {
    GetClaim(principal.claims, NameIdentifier)
  }
}
