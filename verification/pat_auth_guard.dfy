/** The personal-access-token guard of the REST API: the token is taken from an
    `Authorization: Bearer <token>` header, looked up, and accepted while it has not expired.
    The token store and the clock are parameters: `lookup` stands for the token service and
    `nowIso` for the current instant, written the way the guard writes it. */
module PatAuthGuard {
  import opened Wrappers
  import opened Strings

  const BearerScheme: string := "Bearer"

  /** The stored token as the guard sees it: the ISO-8601 text of its expiry, or none for a
      token that never expires. */
  datatype AccessToken = AccessToken(expiresOn: Option<string>)

  datatype GuardError =
    | AccessTokensInvalid   // `ACCESS_TOKENS_INVALID`
    | AccessTokensExpired   // `ACCESS_TOKENS_EXPIRED`

  /** The token of the header: the second space-separated word when the first one is exactly
      `Bearer`. A missing header, another scheme or a lone `Bearer` give none. */
  function ExtractTokenFromHeader(authorization: Option<string>): (token: Option<string>)
    ensures authorization.None? ==> token.None?
    ensures token.Some? ==> ' ' !in token.value
    ensures token.Some? ==>
              authorization.value == BearerScheme + " " + token.value
              || StartsWith(authorization.value, BearerScheme + " " + token.value + " ")
    ensures authorization.Some? ==>
              var words := Split(authorization.value, ' ');
              token == if |words| >= 2 && words[0] == BearerScheme then Some(words[1]) else None
  {
    if authorization.None? then None
    else
      var words := Split(authorization.value, ' ');
      if |words| == 2 && words[0] == BearerScheme then
        JoinTwo(words, " ");
        Some(words[1])
      else if |words| > 2 && words[0] == BearerScheme then
        JoinMore(words, " ");
        Some(words[1])
      else None
  }

  /** The header a client sends, `Bearer <token>`, gives back its token when the token holds no space. */
  lemma ExtractBearerToken(token: string)
    requires ' ' !in token
    ensures ExtractTokenFromHeader(Some(BearerScheme + " " + token)) == Some(token)
  {
    var parts := [BearerScheme, token];
    JoinTwo(parts, " ");
    SplitJoin(parts, ' ');
  }

  /** `canActivate`: an empty or missing token and an unknown token are invalid; a token with no
      expiry is always accepted; any other is accepted while its expiry text sorts after the
      current instant's, and expired from that instant on. The guard never answers `false`. */
  function CanActivate(authorization: Option<string>, lookup: string -> Option<AccessToken>, nowIso: string)
    : (r: Result<bool, GuardError>)
    ensures r != Success(false)
    ensures var token := ExtractTokenFromHeader(authorization);
            token.None? || token.value == "" ==> r == Failure(AccessTokensInvalid)
    ensures r == Failure(AccessTokensExpired) ==>
              var token := ExtractTokenFromHeader(authorization).value;
              lookup(token).Some? && lookup(token).value.expiresOn.Some?
              && !Less(nowIso, lookup(token).value.expiresOn.value)
    ensures var token := ExtractTokenFromHeader(authorization);
            token.Some? && token.value != "" && lookup(token.value).None? ==> r == Failure(AccessTokensInvalid)
    ensures var token := ExtractTokenFromHeader(authorization);
            token.Some? && token.value != "" && lookup(token.value) == Some(AccessToken(None)) ==> r == Success(true)
    ensures var token := ExtractTokenFromHeader(authorization);
            token.Some? && token.value != "" && lookup(token.value).Some? && lookup(token.value).value.expiresOn.Some? ==>
              var expiresOn := lookup(token.value).value.expiresOn.value;
              (r == Success(true) <==> Less(nowIso, expiresOn))
              && (!Less(nowIso, expiresOn) ==> r == Failure(AccessTokensExpired))
  {
    var token := ExtractTokenFromHeader(authorization);
    if token.None? || token.value == "" then Failure(AccessTokensInvalid)
    else
      match lookup(token.value)
      case None => Failure(AccessTokensInvalid)
      case Some(accessToken) =>
        if accessToken.expiresOn.None? then Success(true)
        else if Less(nowIso, accessToken.expiresOn.value) then Success(true)
        else Failure(AccessTokensExpired)
  }

  /** A known bearer token is let through exactly when it never expires or expires after now. */
  lemma CanActivateBearer(token: string, lookup: string -> Option<AccessToken>, nowIso: string)
    requires token != "" && ' ' !in token
    ensures var r := CanActivate(Some(BearerScheme + " " + token), lookup, nowIso);
            (r == Success(true) <==>
               lookup(token).Some?
               && (lookup(token).value.expiresOn.None? || Less(nowIso, lookup(token).value.expiresOn.value)))
            && (lookup(token).None? ==> r == Failure(AccessTokensInvalid))
  {
    ExtractBearerToken(token);
  }

  /** A token is already expired at the instant its expiry names. */
  lemma ExpiredAtExpiry(authorization: Option<string>, lookup: string -> Option<AccessToken>, expiresOn: string)
    requires ExtractTokenFromHeader(authorization).Some?
    requires ExtractTokenFromHeader(authorization).value != ""
    requires lookup(ExtractTokenFromHeader(authorization).value) == Some(AccessToken(Some(expiresOn)))
    ensures CanActivate(authorization, lookup, expiresOn) == Failure(AccessTokensExpired)
  {
    LessIrreflexive(expiresOn);
  }

  /** Acceptance only ends: a request let through at some instant would have been let through
      at every earlier instant, and one refused as expired stays refused later on. */
  lemma AcceptanceMonotone(authorization: Option<string>, lookup: string -> Option<AccessToken>, earlier: string, later: string)
    requires Less(earlier, later)
    ensures CanActivate(authorization, lookup, later).Success? ==> CanActivate(authorization, lookup, earlier).Success?
    ensures CanActivate(authorization, lookup, earlier) == Failure(AccessTokensExpired) ==>
              CanActivate(authorization, lookup, later) == Failure(AccessTokensExpired)
  {
    var token := ExtractTokenFromHeader(authorization);
    if token.Some? && token.value != "" && lookup(token.value).Some? && lookup(token.value).value.expiresOn.Some? {
      var expiresOn := lookup(token.value).value.expiresOn.value;
      if Less(later, expiresOn) {
        LessTransitive(earlier, later, expiresOn);
      }
    }
  }
}
