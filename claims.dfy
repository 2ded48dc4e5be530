/**
 * `GetUserIdFromClaims`, identical in the file and the profile controller:
 * the caller's user id is the first "uid" claim parsed as an `int`, and 0
 * when there is no such claim.
 */
module Claims {

  import opened Wrappers
  import opened Models
  import Seqs
  import Text

  const UidClaim: string := "uid"

  /**
   * `ClaimsPrincipal.FindFirst(type)?.Value`: the value of the first claim
   * whose type equals `claimType` ignoring case.
   */
  function FindFirst(claims: seq<Claim>, claimType: string): (r: Option<string>)
    ensures r.None? <==> forall i :: 0 <= i < |claims| ==> !Text.EqualsIgnoreCase(claims[i].claimType, claimType)
    ensures r.Some? ==>
      exists i :: 0 <= i < |claims| && Text.EqualsIgnoreCase(claims[i].claimType, claimType) && claims[i].value == r.value
    ensures forall i :: 0 <= i < |claims| && Text.EqualsIgnoreCase(claims[i].claimType, claimType) &&
                        (forall j :: 0 <= j < i ==> !Text.EqualsIgnoreCase(claims[j].claimType, claimType))
                        ==> r == Some(claims[i].value)
  {
    match Seqs.IndexWhere(claims, (c: Claim) => Text.EqualsIgnoreCase(c.claimType, claimType))
    case None => None
    case Some(i) => Some(claims[i].value)
  }

  /**
   * The caller's user id: `Some(0)` when the principal has no "uid" claim, the
   * parsed claim otherwise, and `None` when `int.Parse` would throw.
   */
  function UserIdFromClaims(claims: seq<Claim>): (r: Option<int>)
    ensures (forall i :: 0 <= i < |claims| ==> !Text.EqualsIgnoreCase(claims[i].claimType, UidClaim)) ==> r == Some(0)
    ensures r.Some? && r.value != 0 ==>
      exists i :: 0 <= i < |claims| && Text.EqualsIgnoreCase(claims[i].claimType, UidClaim)
                  && Text.ParseInt32(claims[i].value) == r
    ensures forall i :: 0 <= i < |claims| && Text.EqualsIgnoreCase(claims[i].claimType, UidClaim) &&
                        (forall j :: 0 <= j < i ==> !Text.EqualsIgnoreCase(claims[j].claimType, UidClaim))
                        ==> r == Text.ParseInt32(claims[i].value)
                            && (!Text.IsIntegerText(claims[i].value) ==> r.None?)
  {
    match FindFirst(claims, UidClaim)
    case None => Some(0)
    case Some(v) => Text.ParseInt32(v)
  }

  /** A "uid" claim is found whatever the case of its type. */
  lemma UidTypeIgnoresCase()
    ensures UserIdFromClaims([Claim("UID", "7")]) == Some(7)
  {
    var claims := [Claim("UID", "7")];
    assert Text.EqualsIgnoreCase(claims[0].claimType, UidClaim);
    assert Text.ParseInt32("7") == Some(7);
  }

  /** The caller presented a usable, non-zero user id. */
  predicate Authenticated(claims: seq<Claim>)
  {
    var uid := UserIdFromClaims(claims);
    uid.Some? && uid.value != 0
  }

  function CallerId(claims: seq<Claim>): int
    requires Authenticated(claims)
  {
    UserIdFromClaims(claims).value
  }
}
