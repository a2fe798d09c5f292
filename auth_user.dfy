/** Player identity: the Steam login that turns a verified SteamID64 into an
    account id and a signed token, the `X-User-Token` extractor that turns
    the token back into a user, and the permission guard of `/protected`.
    Signing, verifying and the Steam OpenID exchange are oracles passed in;
    the clock is the current time in whole seconds. */
module AuthUser {
  import opened Http

  /** The SteamID64 of account 0 in the public universe; account ids are
      offsets from it. */
  const STEAMID64_BASE: u64 := 76561197960265728

  /** A login token is valid for two hours. */
  const TOKEN_LIFETIME_SECONDS: int := 2 * 60 * 60

  const VERIFICATION_FAILED := "Verification failed"
  const STEAM_OOPSIE := "Steam oopsie, please send help"
  const ENCODE_FAILED := "Failed to encode token"
  const FORBIDDEN := "forbidden"
  const HEADER_MISSING := "X-User-Token header missing"
  const HEADER_NOT_ASCII := "X-User-Token must be ASCII"
  const HEADER_INVALID := "X-User-Token is invalid"

  datatype Permission = ViewBans | ViewMaps

  /** The token payload: the account id, its permissions and the expiry as a
      Unix timestamp. */
  datatype Claims = Claims(userId: u64, permissions: seq<Permission>, exp: int)

  /** The authenticated player a request carries. */
  datatype User = User(id: u64, permissions: seq<Permission>)

  datatype AuthUserResponse = AuthUserResponse(playerId: u64, token: seq<byte>)

  /** What the Steam OpenID check answers for the callback's query string. */
  datatype OpenIdOutcome = Verified(steamId64: u64) | VerificationFailed

  /** Signs claims into a token, or fails. */
  type Encoder = Claims -> Option<seq<byte>>

  /** Checks a token's signature and expiry and reads its claims, or fails. */
  type Decoder = seq<byte> -> Option<Claims>

  /** The account id of a SteamID64: defined only above the base, so the
      subtraction never wraps, and then at least 1. */
  function AccountId(steamId64: u64): (r: Option<u64>)
    ensures r.Some? <==> steamId64 > STEAMID64_BASE
    ensures r.Some? ==> 1 <= r.value && r.value + STEAMID64_BASE == steamId64
  {
    if steamId64 <= STEAMID64_BASE then None else Some(steamId64 - STEAMID64_BASE)
  }

  /** Adding the base back recovers the SteamID64 of every account id. */
  lemma AccountIdRoundTrip(userId: u64)
    requires 1 <= userId && userId + STEAMID64_BASE < 0x1_0000_0000_0000_0000
    ensures AccountId(userId + STEAMID64_BASE) == Some(userId)
  {
  }

  /** A concrete SteamID64 and its account id. */
  lemma AccountIdExample()
    ensures AccountId(76561198000000001) == Some(39734273)
    ensures AccountId(STEAMID64_BASE) == None
  {
  }

  /** The claims issued at login time `now`. */
  function IssuedClaims(userId: u64, now: int): (c: Claims)
    ensures c.userId == userId && c.permissions == []
    ensures c.exp - now == TOKEN_LIFETIME_SECONDS
  {
    Claims(userId, [], now + TOKEN_LIFETIME_SECONDS)
  }

  /** The Steam login callback. */
  function SteamAuthVerify(outcome: OpenIdOutcome, now: int, encode: Encoder): (r: Result<AuthUserResponse, HttpError>)
    ensures outcome.VerificationFailed? ==> r == Failure(Unauthorized(VERIFICATION_FAILED))
    ensures outcome.Verified? && outcome.steamId64 <= STEAMID64_BASE ==>
              r == Failure(InternalServerError(STEAM_OOPSIE))
    ensures outcome.Verified? && outcome.steamId64 > STEAMID64_BASE
              && encode(IssuedClaims(outcome.steamId64 - STEAMID64_BASE, now)).None? ==>
              r == Failure(InternalServerError(ENCODE_FAILED))
    ensures outcome.Verified? && outcome.steamId64 > STEAMID64_BASE
              && encode(IssuedClaims(outcome.steamId64 - STEAMID64_BASE, now)).Some? ==>
              r == Success(AuthUserResponse(outcome.steamId64 - STEAMID64_BASE,
                                            encode(IssuedClaims(outcome.steamId64 - STEAMID64_BASE, now)).value))
    ensures r.Success? ==>
              outcome.Verified?
              && r.value.playerId >= 1
              && r.value.playerId + STEAMID64_BASE == outcome.steamId64
              && encode(IssuedClaims(r.value.playerId, now)) == Some(r.value.token)
  {
    match outcome
    case VerificationFailed => Failure(Unauthorized(VERIFICATION_FAILED))
    case Verified(steamId64) =>
      match AccountId(steamId64)
      case None => Failure(InternalServerError(STEAM_OOPSIE))
      case Some(userId) =>
        match encode(IssuedClaims(userId, now))
        case None => Failure(InternalServerError(ENCODE_FAILED))
        case Some(token) => Success(AuthUserResponse(userId, token))
  }

  /** Whether a permission list holds `p`. */
  function Contains(ps: seq<Permission>, p: Permission): (r: bool)
    ensures r <==> p in ps
  {
    if ps == [] then false
    else ps[0] == p || Contains(ps[1..], p)
  }

  function HasPermission(user: User, p: Permission): (r: bool)
    ensures r <==> exists i :: 0 <= i < |user.permissions| && user.permissions[i] == p
  {
    Contains(user.permissions, p)
  }

  /** Passes when the condition holds, otherwise answers 403. */
  function UserGuard(condition: bool): (r: Result<(), HttpError>)
    ensures r.Success? <==> condition
    ensures r.Failure? ==> r.error == Forbidden(FORBIDDEN) && r.error.Status() == 403
  {
    if condition then Success(()) else Failure(Forbidden(FORBIDDEN))
  }

  /** `/protected`: the user's permissions, for users who may view bans. */
  function GetProtected(user: User): (r: Result<seq<Permission>, HttpError>)
    ensures r.Success? <==> ViewBans in user.permissions
    ensures r.Success? ==> r.value == user.permissions
    ensures r.Failure? ==> r.error == Forbidden(FORBIDDEN)
  {
    match UserGuard(HasPermission(user, ViewBans))
    case Failure(e) => Failure(e)
    case Success(_) => Success(user.permissions)
  }

  /** The `X-User-Token` extractor: presence, then text, then the token. */
  function UserFromRequest(header: Option<seq<byte>>, decode: Decoder): (r: Result<User, HttpError>)
    ensures header.None? ==> r == Failure(BadRequest(HEADER_MISSING))
    ensures header.Some? && HeaderToStr(header.value).None? ==> r == Failure(BadRequest(HEADER_NOT_ASCII))
    ensures header.Some? && HeaderToStr(header.value).Some? && decode(header.value).None? ==>
              r == Failure(Unauthorized(HEADER_INVALID))
    ensures header.Some? && HeaderToStr(header.value).Some? && decode(header.value).Some? ==>
              r == Success(User(decode(header.value).value.userId, decode(header.value).value.permissions))
    ensures r.Success? ==>
              header.Some?
              && (forall i :: 0 <= i < |header.value| ==> IsVisibleAscii(header.value[i]))
              && decode(header.value).Some?
              && r.value == User(decode(header.value).value.userId, decode(header.value).value.permissions)
  {
    match header
    case None => Failure(BadRequest(HEADER_MISSING))
    case Some(value) =>
      match HeaderToStr(value)
      case None => Failure(BadRequest(HEADER_NOT_ASCII))
      case Some(token) =>
        match decode(token)
        case None => Failure(Unauthorized(HEADER_INVALID))
        case Some(claims) => Success(User(claims.userId, claims.permissions))
  }

  /** The two header checks come first: a 400 does not depend on the decoder. */
  lemma HeaderChecksPrecedeDecode(header: Option<seq<byte>>, decode1: Decoder, decode2: Decoder)
    requires UserFromRequest(header, decode1).Failure?
    requires UserFromRequest(header, decode1).error.BadRequest?
    ensures UserFromRequest(header, decode2) == UserFromRequest(header, decode1)
  {
  }

  /** A request to `/protected`: the extractor, then the handler. */
  function ProtectedRequest(header: Option<seq<byte>>, decode: Decoder): (r: Result<seq<Permission>, HttpError>)
    ensures r.Success? <==>
              UserFromRequest(header, decode).Success?
              && ViewBans in UserFromRequest(header, decode).value.permissions
    ensures r.Success? ==> r.value == UserFromRequest(header, decode).value.permissions
    ensures r.Failure? ==>
              if UserFromRequest(header, decode).Failure? then r.error == UserFromRequest(header, decode).error
              else r.error == Forbidden(FORBIDDEN)
  {
    match UserFromRequest(header, decode)
    case Failure(e) => Failure(e)
    case Success(user) => GetProtected(user)
  }

  /** The decoder accepts every token the encoder issued, with its claims, and
      tokens are header-safe text. */
  ghost predicate Inverse(encode: Encoder, decode: Decoder) {
    forall c: Claims, t: seq<byte> {:trigger encode(c), decode(t)} ::
      encode(c) == Some(t) ==>
        decode(t) == Some(c) && forall i :: 0 <= i < |t| ==> IsVisibleAscii(t[i])
  }

  /** A token from a successful login, presented while still accepted, yields
      the same player with no permissions, and so `/protected` refuses it. */
  lemma FreshLoginIsForbidden(outcome: OpenIdOutcome, now: int, encode: Encoder, decode: Decoder)
    requires Inverse(encode, decode)
    requires SteamAuthVerify(outcome, now, encode).Success?
    ensures UserFromRequest(Some(SteamAuthVerify(outcome, now, encode).value.token), decode)
            == Success(User(SteamAuthVerify(outcome, now, encode).value.playerId, []))
    ensures ProtectedRequest(Some(SteamAuthVerify(outcome, now, encode).value.token), decode)
            == Failure(Forbidden(FORBIDDEN))
  {
    var resp := SteamAuthVerify(outcome, now, encode).value;
    var claims := IssuedClaims(resp.playerId, now);
    assert encode(claims) == Some(resp.token);
    assert decode(resp.token) == Some(claims);
  }
}
