/**
 * The token service's statable parts: the claim list a token carries, its
 * expiry, and the recovery of the caller's id from the NameIdentifier claim.
 * Signing and serialising the JSON Web Token are not modelled.
 */
module SecureToken {
  import opened Wrappers
  import opened Models
  import opened NumberParsing
  import opened Search

  const NameIdentifierClaimType: string := "http://schemas.xmlsoap.org/ws/2005/05/identity/claims/nameidentifier"
  const NameClaimType: string := "http://schemas.xmlsoap.org/ws/2005/05/identity/claims/name"
  const EmailClaimType: string := "http://schemas.xmlsoap.org/ws/2005/05/identity/claims/emailaddress"
  const HmacSha512Signature: string := "http://www.w3.org/2001/04/xmldsig-more#hmac-sha512"

  /** `DateTime.AddDays(1)` adds 86 400 000 milliseconds of 10 000 ticks each. */
  const TicksPerDay: int := 864_000_000_000

  datatype Claim = Claim(claimType: string, value: string)

  /** The unsigned content of a token: its subject claims, expiry and signing algorithm. */
  datatype TokenDescriptor = TokenDescriptor(subject: seq<Claim>, expires: Ticks, signingAlgorithm: string)

  /** `DateTime.AddDays` throws when the result falls outside the representable range. */
  datatype TokenError = ArgumentOutOfRange

  /** The claims `CreateToken` puts in a token, in order. */
  function TokenClaims(user: User): seq<Claim>
  {
    [ Claim(NameIdentifierClaimType, FormatInt(user.id)),
      Claim(NameClaimType, user.username),
      Claim(EmailClaimType, user.email) ]
  }

  /**
   * `ClaimsPrincipal.FindFirstValue`: the value of the first claim of the
   * given type, or null. .NET compares claim types ignoring case; here they
   * are compared exactly. The three claim types a token carries differ in
   * length, so no statement about issued tokens depends on the difference.
   */
  function FindFirstValue(claims: seq<Claim>, claimType: string): (r: Option<string>)
    ensures r.None? <==> forall i :: 0 <= i < |claims| ==> claims[i].claimType != claimType
    ensures r.Some? ==> exists i :: (0 <= i < |claims| && claims[i].claimType == claimType
      && claims[i].value == r.value && forall j :: 0 <= j < i ==> claims[j].claimType != claimType)
  {
    match FirstIndex(claims, (c: Claim) => c.claimType == claimType)
    case None => None
    case Some(i) => Some(claims[i].value)
  }

  /** The expiry `DateTime.Now.AddDays(1)` gives for issuance at `now`. */
  function TokenExpiry(now: Ticks): (r: Result<Ticks, TokenError>)
    ensures r.Success? <==> now + TicksPerDay <= MaxTicks
    ensures r.Success? ==> r.value - now == 24 * 60 * 60 * 10_000_000
  {
    if now + TicksPerDay <= MaxTicks then Success(now + TicksPerDay) else Failure(ArgumentOutOfRange)
  }

  /** `CreateToken` before signing: the user's profile claims, one day of validity, HMAC-SHA512. */
  function CreateToken(user: User, now: Ticks): (r: Result<TokenDescriptor, TokenError>)
    ensures r.Success? <==> now + TicksPerDay <= MaxTicks
    ensures r.Failure? ==> r.error == ArgumentOutOfRange
    ensures r.Success? ==>
      && r.value.subject == TokenClaims(user)
      && r.value.expires == now + TicksPerDay
      && r.value.signingAlgorithm == HmacSha512Signature
  {
    match TokenExpiry(now)
    case Failure(e) => Failure(e)
    case Success(expires) => Success(TokenDescriptor(TokenClaims(user), expires, HmacSha512Signature))
  }

  /**
   * `GetUserId`: the NameIdentifier claim parsed as an Int32, or -1 when the
   * claim is missing, malformed or out of range (every exception is caught).
   */
  function GetUserId(claim: Option<string>): (id: int)
    ensures claim.None? ==> id == -1
    ensures claim.Some? && ParseInteger(claim.value).Some? && IsInt32(ParseInteger(claim.value).value)
      ==> id == ParseInteger(claim.value).value
    ensures claim.Some? && ParseInteger(claim.value).None? ==> id == -1
    ensures claim.Some? && ParseInteger(claim.value).Some? && !IsInt32(ParseInteger(claim.value).value)
      ==> id == -1
    ensures IsInt32(id)
  {
    match Int32Parse(claim)
    case Success(v) => v
    case Failure(_) => -1
  }

  /** Every Int32 written out by `ToString` is read back by `GetUserId`. */
  lemma GetUserIdRoundTrip(id: int)
    requires IsInt32(id)
    ensures GetUserId(Some(FormatInt(id))) == id
  {
    ParseFormatRoundTrip(id);
  }

  /** A claim holding any character other than white space, a sign or a digit yields the sentinel. */
  lemma ForeignCharacterYieldsSentinel(claim: string, i: nat)
    requires i < |claim| && !IsNumberChar(claim[i])
    ensures GetUserId(Some(claim)) == -1
  {
  }

  /** A token issued for a user identifies that user to `GetUserId`. */
  lemma IssuedTokenIdentifiesUser(user: User, now: Ticks)
    requires IsInt32(user.id)
    requires CreateToken(user, now).Success?
    ensures GetUserId(FindFirstValue(CreateToken(user, now).value.subject, NameIdentifierClaimType)) == user.id
  {
    GetUserIdRoundTrip(user.id);
  }

  /**
   * A token reveals nothing about the password: users that agree on id,
   * username and email receive the same token whatever their hash and salt.
   */
  lemma TokenOmitsPasswordData(u1: User, u2: User, now: Ticks)
    requires u1.id == u2.id && u1.username == u2.username && u1.email == u2.email
    ensures CreateToken(u1, now) == CreateToken(u2, now)
  {
  }

  /** The claims are NameIdentifier, Name and Email, in that order, and carry the user's profile. */
  lemma TokenClaimsShape(user: User)
    ensures var cs := TokenClaims(user);
      |cs| == 3
      && FindFirstValue(cs, NameIdentifierClaimType) == Some(FormatInt(user.id))
      && FindFirstValue(cs, NameClaimType) == Some(user.username)
      && FindFirstValue(cs, EmailClaimType) == Some(user.email)
  {
    assert |NameIdentifierClaimType| != |NameClaimType|;
    assert |NameIdentifierClaimType| != |EmailClaimType|;
    assert |NameClaimType| != |EmailClaimType|;
    var cs := TokenClaims(user);
    assert cs[1].claimType == NameClaimType && cs[2].claimType == EmailClaimType;
  }
}
