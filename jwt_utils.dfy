/** The token utilities of the gateway: checking a JWT and renewing it on
    expiry, reading its subject and its role list, and looking up the
    signing secret in the secret service's reply.

    The JWT library's verdict on a token (signature, structure, expiry under
    the current key and clock) enters as a `ParseOutcome`; the blocking HTTP
    exchange with the renewal service enters as the oracle `exchange`, from
    the request actually sent to the response received (None: no response).
    A Java `null` is `None`; a thrown exception is `Raised`. */
module JwtUtils {
  import opened Wrappers
  import opened Strings

  /** Scheme prefix of a bearer credential in the Authorization header,
      `Authorization: Bearer <token>` (section 2.1 of RFC 6750). */
  const BearerPrefix: string := "Bearer "

  /** Number of leading characters the renewal path drops from the returned
      Authorization header value. */
  const PrefixLength: nat := 7

  /** Separator the role list is joined with. */
  const Comma: string := ","

  /** The value of the custom AUTHORITIES claim: missing, a JSON array of
      role names, or some other JSON value. */
  datatype Authorities = Absent | Listed(roles: seq<string>) | NotAList

  /** The parts of a verified claim set the gateway reads: the `sub` claim
      (section 4.1.2 of RFC 7519) and the AUTHORITIES claim. */
  datatype Claims = Claims(subject: Option<string>, authorities: Authorities)

  /** Why the JWT library refused a token: the categories `parseToken`
      catches, and the exceptions of the library that none of its catch
      clauses handles. */
  datatype Rejection =
    | ExpiredJwt        // the exp claim lies in the past
    | SecurityFailure   // the signature does not verify under the key
    | MalformedJwt      // not a well-formed compact JWS
    | UnsupportedJwt    // a token form other than a signed claims JWS
    | IllegalArgument   // a null, empty or blank token
    | PrematureJwt      // the nbf claim lies in the future
    | OtherJwt          // any other JwtException, such as a base64url decoding error

  /** The JWT library's verdict on one token under one key at one moment. */
  datatype ParseOutcome = Valid(claims: Claims) | Rejected(reason: Rejection)

  /** The Java exceptions the utilities can let escape. `JwtException`
      stands for the library's own exception classes; the library refuses an
      illegal argument with `java.lang.IllegalArgumentException`, which is
      not one of them (see ThrownBy). */
  datatype Thrown =
    | JwtException(reason: Rejection)
    | NullPointerException
    | IndexOutOfBoundsException
    | StringIndexOutOfBoundsException
    | IllegalArgumentException
    | ClassCastException

  /** A Java call that either returns a value or throws. */
  datatype Outcome<T> = Returned(value: T) | Raised(thrown: Thrown)

  /** The exception the JWT library throws for `reason`: an illegal
      argument is Java's IllegalArgumentException, every other refusal one
      of the library's JwtException classes. */
  function ThrownBy(reason: Rejection): (e: Thrown)
    ensures e == IllegalArgumentException <==> reason == IllegalArgument
    ensures reason != IllegalArgument ==> e.JwtException? && e.reason == reason
  {
    if reason == IllegalArgument then IllegalArgumentException else JwtException(reason)
  }

  /** An outbound GET: the target URL and the Authorization header sent. */
  datatype Request = Request(url: string, authorization: string)

  /** A renewal response as the gateway reads it: the values of its
      Authorization header, or None when the header is missing. */
  datatype Response = Response(authorization: Option<seq<string>>)

  /** What the secret service's JSON reply `block` yields at `body.secret`:
      a null reply is refused with IllegalArgumentException, a missing
      `body` object is dereferenced as null, and a missing `secret` is
      returned as null. */
  function GetJwtSecret(block: Option<map<string, map<string, string>>>): (r: Outcome<Option<string>>)
    ensures r == Raised(IllegalArgumentException) <==> block.None?
    ensures r == Raised(NullPointerException) <==> block.Some? && "body" !in block.value
    ensures r == Returned(None) <==> block.Some? && "body" in block.value && "secret" !in block.value["body"]
    ensures block.Some? && "body" in block.value && "secret" in block.value["body"] ==>
              r == Returned(Some(block.value["body"]["secret"]))
  {
    match block
    case None => Raised(IllegalArgumentException)
    case Some(json) =>
      if "body" !in json then Raised(NullPointerException)
      else if "secret" !in json["body"] then Returned(None)
      else Returned(Some(json["body"]["secret"]))
  }

  /** The Authorization header value Spring's `setBearerAuth` writes for
      `token`: the bearer prefix, whose length is the 7 the renewal path
      strips, followed by the token. */
  function BearerAuth(token: string): (h: string)
    ensures |h| == PrefixLength + |token|
    ensures h[..PrefixLength] == BearerPrefix && h[PrefixLength..] == token
  {
    BearerPrefix + token
  }

  /** The renewal request for `jwt`: a GET to the renewal URL carrying the
      expired token as its bearer credential. */
  function RenewalRequest(jwt: string, refreshRequestUrl: string): (q: Request)
    ensures q.url == refreshRequestUrl
    ensures |q.authorization| >= PrefixLength && q.authorization[..PrefixLength] == BearerPrefix
    ensures |q.authorization| >= PrefixLength && q.authorization[PrefixLength..] == jwt
  {
    Request(refreshRequestUrl, BearerAuth(jwt))
  }

  /** Renewal of an expired token: no response at all fails the non-null
      check, a missing Authorization header gives null, an empty header list
      fails `get(0)`, a first value shorter than 7 characters fails
      `substring(7)`, and otherwise the result is that first value without
      its first 7 characters. */
  function RequestRenewToken(jwt: string, refreshRequestUrl: string, exchange: Request -> Option<Response>): (r: Outcome<Option<string>>)
    ensures var response := exchange(RenewalRequest(jwt, refreshRequestUrl));
      && (r == Raised(NullPointerException) <==> response.None?)
      && (r == Returned(None) <==> response == Some(Response(None)))
      && (r == Raised(IndexOutOfBoundsException) <==> response == Some(Response(Some([]))))
      && (r == Raised(StringIndexOutOfBoundsException) <==>
            response.Some? && response.value.authorization.Some? &&
            |response.value.authorization.value| > 0 &&
            |response.value.authorization.value[0]| < PrefixLength)
      && (r.Returned? && r.value.Some? ==>
            response.Some? && response.value.authorization.Some? &&
            |response.value.authorization.value| > 0 &&
            var first := response.value.authorization.value[0];
            |first| == PrefixLength + |r.value.value| && first[PrefixLength..] == r.value.value)
      && (response.Some? && response.value.authorization.Some? &&
          |response.value.authorization.value| > 0 &&
          |response.value.authorization.value[0]| >= PrefixLength ==>
            r == Returned(Some(response.value.authorization.value[0][PrefixLength..])))
  {
    match exchange(RenewalRequest(jwt, refreshRequestUrl))
    case None => Raised(NullPointerException)
    case Some(response) =>
      match response.authorization
      case None => Returned(None)
      case Some(values) =>
        if |values| == 0 then Raised(IndexOutOfBoundsException)
        else
          match Substring(values[0], PrefixLength, |values[0]|)
          case None => Raised(StringIndexOutOfBoundsException)
          case Some(token) => Returned(Some(token))
  }

  /** Checking a token: a valid token comes back as it is, an expired one is
      handed to renewal, the signature, structure, form and argument failures
      give null, and a not-yet-valid token or any other library exception,
      which no catch clause handles, propagates. */
  function ParseToken(token: string, parsed: ParseOutcome, refreshRequestUrl: string, exchange: Request -> Option<Response>): (r: Outcome<Option<string>>)
    ensures parsed.Valid? ==> r == Returned(Some(token))
    ensures parsed == Rejected(ExpiredJwt) ==> r == RequestRenewToken(token, refreshRequestUrl, exchange)
    ensures parsed.Rejected? && parsed.reason in {SecurityFailure, MalformedJwt, UnsupportedJwt, IllegalArgument} ==>
              r == Returned(None)
    ensures parsed.Rejected? && parsed.reason in {PrematureJwt, OtherJwt} ==>
              r == Raised(JwtException(parsed.reason))
  {
    match parsed
    case Valid(_) => Returned(Some(token))
    case Rejected(ExpiredJwt) => RequestRenewToken(token, refreshRequestUrl, exchange)
    case Rejected(SecurityFailure) => Returned(None)
    case Rejected(MalformedJwt) => Returned(None)
    case Rejected(UnsupportedJwt) => Returned(None)
    case Rejected(IllegalArgument) => Returned(None)
    case Rejected(PrematureJwt) => Raised(JwtException(PrematureJwt))
    case Rejected(OtherJwt) => Raised(JwtException(OtherJwt))
  }

  /** The verified claim set of a token; any refusal propagates as the JWT
      library's exception. */
  function GetClaims(parsed: ParseOutcome): (r: Outcome<Claims>)
    ensures r.Returned? <==> parsed.Valid?
    ensures parsed.Valid? ==> r.value == parsed.claims
    ensures parsed.Rejected? ==> r.thrown == ThrownBy(parsed.reason)
  {
    match parsed
    case Valid(claims) => Returned(claims)
    case Rejected(reason) => Raised(ThrownBy(reason))
  }

  /** The subject of a verified token (null when it has no `sub` claim); a
      refused token, expired ones included, propagates the exception. */
  function GetEmail(parsed: ParseOutcome): (r: Outcome<Option<string>>)
    ensures r.Returned? <==> parsed.Valid?
    ensures parsed.Valid? ==> r.value == parsed.claims.subject
    ensures parsed.Rejected? ==> r.thrown == ThrownBy(parsed.reason)
  {
    match GetClaims(parsed)
    case Returned(claims) => Returned(claims.subject)
    case Raised(e) => Raised(e)
  }

  /** The role list of a verified token as one comma-separated string,
      built by appending each role and a comma and then cutting off the last
      character. A missing claim is iterated as null, a non-list claim fails
      the cast, and an empty list makes the final cut `substring(0, -1)`. */
  method GetRoles(parsed: ParseOutcome) returns (r: Outcome<string>)
    ensures !parsed.Valid? ==> r == Raised(ThrownBy(parsed.reason))
    ensures parsed.Valid? && parsed.claims.authorities == Absent ==> r == Raised(NullPointerException)
    ensures parsed.Valid? && parsed.claims.authorities == NotAList ==> r == Raised(ClassCastException)
    ensures parsed.Valid? && parsed.claims.authorities == Listed([]) ==> r == Raised(StringIndexOutOfBoundsException)
    ensures parsed.Valid? && parsed.claims.authorities.Listed? && |parsed.claims.authorities.roles| > 0 ==>
              r == Returned(Join(parsed.claims.authorities.roles, Comma))
  {
    var claims := GetClaims(parsed);
    if claims.Raised? {
      return Raised(claims.thrown);
    }
    match claims.value.authorities {
      case Absent =>
        return Raised(NullPointerException);
      case NotAList =>
        return Raised(ClassCastException);
      case Listed(roles) =>
        var sb: string := "";
        for i := 0 to |roles|
          invariant sb == Terminated(roles[..i], Comma)
        {
          assert roles[..i + 1][..i] == roles[..i];
          sb := sb + roles[i] + Comma;
        }
        assert roles[..|roles|] == roles;
        match Substring(sb, 0, |sb| - 1) {
          case None =>
            r := Raised(StringIndexOutOfBoundsException);
          case Some(joined) =>
            if |roles| > 0 {
              TerminatedIsJoinThenSep(roles, Comma);
            }
            r := Returned(joined);
        }
    }
  }

  /** The role header as evidently intended: the roles joined by commas for
      every list, so that zero roles give "" instead of an exception, and the
      same string the builder-and-trim code produces whenever that code
      returns. */
  function Roles(parsed: ParseOutcome): (r: Outcome<string>)
    ensures !parsed.Valid? ==> r == Raised(ThrownBy(parsed.reason))
    ensures parsed.Valid? && parsed.claims.authorities == Absent ==> r == Raised(NullPointerException)
    ensures parsed.Valid? && parsed.claims.authorities == NotAList ==> r == Raised(ClassCastException)
    ensures parsed.Valid? && parsed.claims.authorities == Listed([]) ==> r == Returned("")
    ensures parsed.Valid? && parsed.claims.authorities.Listed? && |parsed.claims.authorities.roles| > 0 ==>
              r.Returned? && r.value + Comma == Terminated(parsed.claims.authorities.roles, Comma)
  {
    match GetClaims(parsed)
    case Raised(e) => Raised(e)
    case Returned(claims) =>
      match claims.authorities
      case Absent => Raised(NullPointerException)
      case NotAList => Raised(ClassCastException)
      case Listed(roles) =>
        if |roles| > 0 then
          TerminatedIsJoinThenSep(roles, Comma);
          Returned(Join(roles, Comma))
        else
          Returned("")
  }

  /** Zero roles leave the builder empty, and cutting its last character off
      is out of range: the exception the written code throws. */
  lemma EmptyAuthoritiesTrimFails()
    ensures var sb := Terminated([], Comma); Substring(sb, 0, |sb| - 1) == None
  {
  }

  /** Renewal is reached only on expiry: for every other outcome, a valid
      token included, the result does not depend on the renewal service at
      all. */
  lemma OnlyExpiryRenews(token: string, parsed: ParseOutcome, url: string,
                         exchange1: Request -> Option<Response>, exchange2: Request -> Option<Response>)
    requires parsed != Rejected(ExpiredJwt)
    ensures ParseToken(token, parsed, url, exchange1) == ParseToken(token, parsed, url, exchange2)
  {
  }

  /** On expiry the renewal service is consulted exactly about the bearer
      request for this token and URL: two services that agree on that one
      request give the same result. */
  lemma RenewalSeesOnlyBearerRequest(token: string, url: string,
                                     exchange1: Request -> Option<Response>, exchange2: Request -> Option<Response>)
    requires exchange1(Request(url, BearerPrefix + token)) == exchange2(Request(url, BearerPrefix + token))
    ensures ParseToken(token, Rejected(ExpiredJwt), url, exchange1) == ParseToken(token, Rejected(ExpiredJwt), url, exchange2)
  {
  }

  /** A token comes back exactly when the parse succeeded and it is the
      caller's token, or the token expired and renewal produced it. */
  lemma ParseTokenReturnsToken(token: string, parsed: ParseOutcome, url: string,
                               exchange: Request -> Option<Response>, t: string)
    ensures ParseToken(token, parsed, url, exchange) == Returned(Some(t)) <==>
              (parsed.Valid? && t == token) ||
              (parsed == Rejected(ExpiredJwt) && RequestRenewToken(token, url, exchange) == Returned(Some(t)))
  {
  }

  /** The caller is thrown at only on expiry (by renewal) or by a refusal
      no catch clause handles: every caught refusal is swallowed. */
  lemma ParseTokenRaisesOnlyWhenUncaught(token: string, parsed: ParseOutcome, url: string,
                                         exchange: Request -> Option<Response>)
    ensures ParseToken(token, parsed, url, exchange).Raised? ==>
              parsed.Rejected? && parsed.reason in {ExpiredJwt, PrematureJwt, OtherJwt}
  {
  }

  /** A renewal service answering `Authorization: Bearer <t>` first yields
      `t`. */
  lemma RenewalStripsBearer(jwt: string, url: string, exchange: Request -> Option<Response>,
                            t: string, more: seq<string>)
    requires exchange(RenewalRequest(jwt, url)) == Some(Response(Some([BearerAuth(t)] + more)))
    ensures RequestRenewToken(jwt, url, exchange) == Returned(Some(t))
  {
  }

  /** The strip undoes `setBearerAuth`: a service that echoes the request's
      Authorization header gives back the token that was sent. */
  lemma RenewalEchoRoundTrip(jwt: string, url: string, exchange: Request -> Option<Response>)
    requires forall q: Request :: exchange(q) == Some(Response(Some([q.authorization])))
    ensures RequestRenewToken(jwt, url, exchange) == Returned(Some(jwt))
  {
  }

  /** The role header of a verified token with comma-free roles splits back
      into exactly those roles, in order. */
  lemma {:induction false} RolesSplitBack(parsed: ParseOutcome)
    requires parsed.Valid? && parsed.claims.authorities.Listed?
    requires |parsed.claims.authorities.roles| > 0
    requires forall i :: 0 <= i < |parsed.claims.authorities.roles| ==> ',' !in parsed.claims.authorities.roles[i]
    ensures Roles(parsed).Returned? && Split(Roles(parsed).value, ',') == parsed.claims.authorities.roles
  {
    SplitJoin(parsed.claims.authorities.roles, ',');
  }

  /** The role header of a verified token with n >= 1 roles is as long as
      the roles together plus the n - 1 commas between them. */
  lemma {:induction false} RolesLength(parsed: ParseOutcome)
    requires parsed.Valid? && parsed.claims.authorities.Listed?
    requires |parsed.claims.authorities.roles| > 0
    ensures Roles(parsed).Returned?
    ensures |Roles(parsed).value| == TotalLength(parsed.claims.authorities.roles) + |parsed.claims.authorities.roles| - 1
  {
    JoinLength(parsed.claims.authorities.roles, Comma);
  }
}
