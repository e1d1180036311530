/** Request authentication (src/middleware/auth.ts): the short-circuit chain of
    `authMiddleware` and the memoised key set of `getJwks`. Token verification
    (`jwtVerify` with the remote key set) is foreign code: its outcome is an
    input. The environment variables are read once, into an `AuthConfig`. */
module Auth {
  import opened Wrappers
  import JsString
  import Validate

  /** ADMIN_BEARER_TOKEN, KEYCLOAK_ISSUER_URL, KEYCLOAK_AUDIENCE and
      KEYCLOAK_ENFORCE_AUDIENCE, each unset (`None`) or a string. */
  datatype AuthConfig = AuthConfig(
    adminBearerToken: Option<string>,
    issuerUrl: Option<string>,
    audience: Option<string>,
    enforceAudience: Option<string>)

  /** The `aud` claim: absent, one audience, or an array of them. */
  datatype Aud = NoAud | AudOne(value: string) | AudMany(values: seq<string>)

  /** The claims the middleware reads; a string claim is `None` when absent. */
  datatype Claims = Claims(email: Option<string>, preferredUsername: Option<string>, sub: Option<string>, aud: Aud)

  /** What `jwtVerify` (with `getJwks`) yields: any throw, or a verified payload. */
  datatype Verification = VerifyFailed | Verified(claims: Claims)

  /** What the middleware leaves on the request for the handlers. */
  datatype Decision = Decision(isAdmin: bool, userEmail: Option<string>)

  /** The middleware either answers the request itself or passes it on. */
  datatype AuthOutcome = Reject(status: nat, error: string) | Allow(decision: Decision)

  const BEARER: string := "Bearer "

  /** An optional setting or claim that is set and non-empty (truthy in JavaScript). */
  predicate Present(s: Option<string>) {
    s.Some? && s.value != ""
  }

  /** The token: what follows 'Bearer ', trimmed. */
  function BearerToken(auth: string): string
    requires JsString.StartsWith(auth, BEARER)
  {
    JsString.Trim(auth[|BEARER|..])
  }

  /** A header that starts with exactly 'Bearer '. */
  predicate HasBearer(header: Option<string>) {
    header.Some? && JsString.StartsWith(header.value, BEARER)
  }

  /** The admin bypass applies: an admin token is configured, non-empty, and equal to the token. */
  predicate AdminMatches(cfg: AuthConfig, token: string) {
    Present(cfg.adminBearerToken) && token == cfg.adminBearerToken.value
  }

  /** The audience check is on: enforcement is exactly 'true' and an audience is configured. */
  predicate AudienceEnforced(cfg: AuthConfig) {
    cfg.enforceAudience == Some("true") && Present(cfg.audience)
  }

  /** An array `aud` must contain the audience, a single one must equal it. */
  predicate AudienceOk(aud: Aud, audience: string) {
    match aud
    case NoAud => false
    case AudOne(a) => a == audience
    case AudMany(xs) => audience in xs
  }

  /** `payload.email || payload.preferred_username || payload.sub`. */
  function Identity(c: Claims): Option<string> {
    if Present(c.email) then c.email
    else if Present(c.preferredUsername) then c.preferredUsername
    else if Present(c.sub) then c.sub
    else None
  }

  /** `authMiddleware`. */
  function Authenticate(header: Option<string>, cfg: AuthConfig, verify: Verification): AuthOutcome {
    if !HasBearer(header) then Reject(401, "Missing Bearer token")
    else if AdminMatches(cfg, BearerToken(header.value)) then Allow(Decision(true, None))
    else if !Present(cfg.issuerUrl) then Reject(500, "OIDC not configured")
    else match verify
      case VerifyFailed => Reject(401, "Invalid token")
      case Verified(claims) =>
        if AudienceEnforced(cfg) && !AudienceOk(claims.aud, cfg.audience.value) then Reject(401, "Invalid audience")
        else match Identity(claims)
          case None => Reject(403, "Email claim required")
          case Some(id) => Allow(Decision(false, Some(id)))
  }

  /** Whether the chain reaches `jwtVerify`. */
  predicate NeedsVerification(header: Option<string>, cfg: AuthConfig) {
    HasBearer(header) && !AdminMatches(cfg, BearerToken(header.value)) && Present(cfg.issuerUrl)
  }

  /** The decisions the middleware hands on: the admin bypass with no identity,
      or a verified non-admin with a non-empty identity. */
  predicate MiddlewareShaped(d: Decision) {
    (d.isAdmin && d.userEmail.None?) || (!d.isAdmin && Present(d.userEmail))
  }

  /** Verification is consulted only when the chain gets that far: before it,
      the outcome does not depend on it. */
  lemma VerifyOnlyWhenNeeded(header: Option<string>, cfg: AuthConfig, v1: Verification, v2: Verification)
    requires !NeedsVerification(header, cfg)
    ensures Authenticate(header, cfg, v1) == Authenticate(header, cfg, v2)
    ensures Authenticate(header, cfg, v1).Reject? ==> Authenticate(header, cfg, v1).status in {401, 500}
  {
  }

  /** A missing header, or one not starting with exactly 'Bearer ', is a 401. */
  lemma MissingBearer(header: Option<string>, cfg: AuthConfig, verify: Verification)
    requires header.None? || !JsString.StartsWith(header.value, BEARER)
    ensures Authenticate(header, cfg, verify) == Reject(401, "Missing Bearer token")
  {
  }

  /** The admin bypass is granted exactly for a bearer whose trimmed token equals
      a configured, non-empty admin token; an unset or empty admin token never matches. */
  lemma AdminBypassIff(header: Option<string>, cfg: AuthConfig, verify: Verification)
    ensures Authenticate(header, cfg, verify) == Allow(Decision(true, None))
        <==> HasBearer(header) && Present(cfg.adminBearerToken)
             && BearerToken(header.value) == cfg.adminBearerToken.value
    ensures !Present(cfg.adminBearerToken) ==>
      !(Authenticate(header, cfg, verify).Allow? && Authenticate(header, cfg, verify).decision.isAdmin)
  {
  }

  /** A token that is not the admin's, with no issuer configured, is a 500;
      with one configured, a failed verification is a 401. */
  lemma OidcFailures(header: Option<string>, cfg: AuthConfig)
    requires HasBearer(header) && !AdminMatches(cfg, BearerToken(header.value))
    ensures !Present(cfg.issuerUrl) ==>
      forall v :: Authenticate(header, cfg, v) == Reject(500, "OIDC not configured")
    ensures Present(cfg.issuerUrl) ==> Authenticate(header, cfg, VerifyFailed) == Reject(401, "Invalid token")
  {
  }

  /** For a verified token, 'Invalid audience' is answered exactly when the check
      is on and the claim misses the audience. */
  lemma AudienceRule(header: Option<string>, cfg: AuthConfig, claims: Claims)
    requires NeedsVerification(header, cfg)
    ensures Authenticate(header, cfg, Verified(claims)) == Reject(401, "Invalid audience")
        <==> AudienceEnforced(cfg) && !AudienceOk(claims.aud, cfg.audience.value)
  {
  }

  /** The audience check on each form of the claim. */
  lemma AudienceExamples(audience: string, other: string)
    requires audience != other
    ensures AudienceOk(AudMany([other, audience]), audience)
    ensures !AudienceOk(AudMany([other]), audience)
    ensures AudienceOk(AudOne(audience), audience)
    ensures !AudienceOk(AudOne(other), audience)
    ensures !AudienceOk(NoAud, audience)
  {
    assert [other, audience][1] == audience;
  }

  /** The identity is the first non-empty claim of email, preferred_username and
      sub, and there is none exactly when all three are absent or empty. */
  lemma IdentityFallback(c: Claims)
    ensures Identity(c).None? <==> !Present(c.email) && !Present(c.preferredUsername) && !Present(c.sub)
    ensures Identity(c).Some? ==> Identity(c).value != ""
    ensures Present(c.email) ==> Identity(c) == c.email
    ensures !Present(c.email) && Present(c.preferredUsername) ==> Identity(c) == c.preferredUsername
    ensures !Present(c.email) && !Present(c.preferredUsername) ==> Identity(c) == (if Present(c.sub) then c.sub else None)
  {
  }

  /** A verified, audience-accepted token without an identity is a 403; with
      one, the request goes on as a non-admin with that identity. */
  lemma IdentityDecides(header: Option<string>, cfg: AuthConfig, claims: Claims)
    requires NeedsVerification(header, cfg)
    requires !AudienceEnforced(cfg) || AudienceOk(claims.aud, cfg.audience.value)
    ensures Identity(claims).None? ==> Authenticate(header, cfg, Verified(claims)) == Reject(403, "Email claim required")
    ensures Identity(claims).Some? ==>
      Authenticate(header, cfg, Verified(claims)) == Allow(Decision(false, Identity(claims)))
  {
  }

  /** Every decision the middleware passes on has one of the two shapes, and
      every refusal is a 401, 403 or 500. */
  lemma OutcomeShapes(header: Option<string>, cfg: AuthConfig, verify: Verification)
    ensures Authenticate(header, cfg, verify).Allow? ==> MiddlewareShaped(Authenticate(header, cfg, verify).decision)
    ensures Authenticate(header, cfg, verify).Reject? ==> Authenticate(header, cfg, verify).status in {401, 403, 500}
  {
    if NeedsVerification(header, cfg) && verify.Verified? {
      IdentityFallback(verify.claims);
    }
  }

  /** The key set `createRemoteJWKSet` builds from a URL. */
  datatype KeySet = RemoteKeySet(url: string)

  const CERTS_PATH: string := "/protocol/openid-connect/certs"

  /** `issuer.replace(/\/$/, '')`: one trailing slash removed, if there is one. */
  function StripTrailingSlash(issuer: string): string {
    if |issuer| > 0 && issuer[|issuer| - 1] == '/' then issuer[..|issuer| - 1] else issuer
  }

  /** The JWKS endpoint of an issuer. */
  function CertsUrl(issuer: string): string {
    StripTrailingSlash(issuer) + CERTS_PATH
  }

  /** Exactly one trailing slash is dropped: for an issuer not ending in '/', the
      URL is the same with or without one appended, and a second slash stays. */
  lemma CertsUrlSlash(issuer: string)
    ensures CertsUrl(issuer + "/") == issuer + CERTS_PATH
    ensures (|issuer| == 0 || issuer[|issuer| - 1] != '/') ==> CertsUrl(issuer) == CertsUrl(issuer + "/")
    ensures CertsUrl(issuer + "//") == issuer + "/" + CERTS_PATH
  {
    assert (issuer + "/")[..|issuer|] == issuer;
    assert (issuer + "//")[..|issuer| + 1] == issuer + "/";
  }

  /** The result of one `getJwks()` call and the memo afterwards. */
  datatype JwksStep = JwksStep(result: Result<KeySet>, memo: Option<KeySet>)

  /** `getJwks()` given the issuer, the memo, and the URL parser (`new URL` may throw). */
  function GetJwksSpec(issuer: Option<string>, memo: Option<KeySet>, parse: Validate.UrlParser): JwksStep {
    if !Present(issuer) then JwksStep(Failure("KEYCLOAK_ISSUER_URL not configured"), memo)
    else if memo.Some? then JwksStep(Success(memo.value), memo)
    else if parse(CertsUrl(issuer.value)).None? then JwksStep(Failure("Invalid URL"), memo)
    else
      var ks := RemoteKeySet(CertsUrl(issuer.value));
      JwksStep(Success(ks), Some(ks))
  }

  /** Memoisation: once a call succeeds, every later call returns the same key
      set and leaves the memo alone; the first success builds it from the
      certificate URL. */
  lemma JwksMemoised(issuer: Option<string>, memo: Option<KeySet>, parse: Validate.UrlParser)
    ensures var s1 := GetJwksSpec(issuer, memo, parse);
      var s2 := GetJwksSpec(issuer, s1.memo, parse);
      && (s1.result.Success? ==> s2 == JwksStep(s1.result, s1.memo) && s1.memo == Some(s1.result.value))
      && (s1.result.Success? && memo.None? ==> s1.result.value.url == CertsUrl(issuer.value))
      && (!Present(issuer) <==> s1.result == Failure("KEYCLOAK_ISSUER_URL not configured"))
      && (memo.Some? ==> s1.memo == memo)
  {
  }

  /** The module-level `jwks` memo over the issuer read at load time. */
  class JwksCache {
    const issuer: Option<string>
    var jwks: Option<KeySet>

    constructor (issuer: Option<string>)
      ensures this.issuer == issuer && jwks == None
    {
      this.issuer := issuer;
      jwks := None;
    }

    /** `getJwks()`. */
    method GetJwks(parse: Validate.UrlParser) returns (r: Result<KeySet>)
      modifies this
      ensures JwksStep(r, jwks) == GetJwksSpec(issuer, old(jwks), parse)
    {
      if !Present(issuer) {
        return Failure("KEYCLOAK_ISSUER_URL not configured");
      }
      if jwks.None? {
        var url := CertsUrl(issuer.value);
        if parse(url).None? {
          return Failure("Invalid URL");
        }
        jwks := Some(RemoteKeySet(url));
      }
      r := Success(jwks.value);
    }
  }
}
