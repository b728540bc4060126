/** `optionalAuth` and `requireAuth` (src/middleware/auth.js:23-74): read the bearer token,
    verify it, take the subject, record `req.auth`, look the user up into `req.user`, and end
    in `next()`, `next(e)` or a 401 response. */
module AuthMiddleware {
  import opened Common
  import opened Tokens
  import opened Bearer

  /** `req.auth`. */
  datatype AuthContext = AuthContext(userId: string, tokenPayload: Json)

  /** A row of the users table, as `attachUser` selects it. */
  datatype UserRow = UserRow(columns: map<string, Json>)

  /** What `attachUser`'s query does for a user id. */
  datatype Lookup = Found(row: UserRow) | NoRow | QueryFailed(error: string)

  /** `req.user`: absent until `attachUser` assigns `rows[0] ?? null`. */
  datatype UserSlot = Unset | NullUser | User(row: UserRow)

  /** How the handler ends: `next()`, `next(e)`, or `res.status(401).json({ error: reason })`. */
  datatype Response = Next | NextWithError(error: string) | Unauthorized(reason: string)

  /** What the handlers read besides the request: the token primitives, the signing secret,
      the clock, and the users table. */
  datatype Env = Env(hmac: Hmac, json: JsonCodec, secret: string, nowMs: int, lookup: string -> Lookup)

  /** The request fields the handlers read and write. */
  class Request {
    const authorization: Arg
    var auth: Option<AuthContext>
    var user: UserSlot

    constructor (authorization: Arg)
      ensures this.authorization == authorization && auth == None && user == Unset
    {
      this.authorization := authorization;
      auth := None;
      user := Unset;
    }
  }

  /** `verified.payload?.sub`, kept only when it is a non-empty string. */
  function Subject(payload: Json): (sub: Option<string>)
    ensures sub.Some? <==>
      payload.JObject? && "sub" in payload.fields && payload.fields["sub"].JString? &&
      payload.fields["sub"].s != ""
    ensures sub.Some? ==> sub.value != "" && payload.fields["sub"] == JString(sub.value)
  {
    if payload.JObject? && "sub" in payload.fields && payload.fields["sub"].JString? &&
       |payload.fields["sub"].s| != 0
    then Some(payload.fields["sub"].s)
    else None
  }

  /** The token's verdict as the handlers obtain it. */
  function Verdict(env: Env, token: string): Verified
  {
    VerifyToken(env.hmac, env.json, Str(token), env.secret, env.nowMs)
  }

  /** The response and the final `req.auth` and `req.user`. */
  datatype Handled = Handled(response: Response, auth: Option<AuthContext>, user: UserSlot)

  /** What `optionalAuth` does to a request whose fields start as `auth` and `user`. */
  function OptionalAuthSpec(env: Env, authorization: Arg, auth: Option<AuthContext>, user: UserSlot)
    : Handled
  {
    var token := GetTokenFromRequest(authorization);
    if token.None? || token.value == "" then Handled(Next, auth, user)
    else
      match Verdict(env, token.value)
      case Fail(_) => Handled(Next, auth, user)
      case Ok(payload) =>
        match Subject(payload)
        case None => Handled(Next, auth, user)
        case Some(userId) =>
          var ctx := Some(AuthContext(userId, payload));
          match env.lookup(userId)
          case QueryFailed(e) => Handled(NextWithError(e), ctx, user)
          case NoRow => Handled(Next, ctx, NullUser)
          case Found(row) => Handled(Next, ctx, User(row))
  }

  /** What `requireAuth` does to a request whose fields start as `auth` and `user`. */
  function RequireAuthSpec(env: Env, authorization: Arg, auth: Option<AuthContext>, user: UserSlot)
    : Handled
  {
    var token := GetTokenFromRequest(authorization);
    if token.None? || token.value == "" then Handled(Unauthorized("missing_auth"), auth, user)
    else
      match Verdict(env, token.value)
      case Fail(e) => Handled(Unauthorized(ErrorCode(e)), auth, user)
      case Ok(payload) =>
        match Subject(payload)
        case None => Handled(Unauthorized("invalid_auth"), auth, user)
        case Some(userId) =>
          var ctx := Some(AuthContext(userId, payload));
          match env.lookup(userId)
          case QueryFailed(e) => Handled(NextWithError(e), ctx, user)
          case NoRow => Handled(Unauthorized("user_not_found"), ctx, NullUser)
          case Found(row) => Handled(Next, ctx, User(row))
  }

  /** `optionalAuth`, step by step on the request object. */
  method OptionalAuth(req: Request, env: Env) returns (res: Response)
    modifies req
    ensures Handled(res, req.auth, req.user)
         == OptionalAuthSpec(env, req.authorization, old(req.auth), old(req.user))
  {
    var token := GetTokenFromRequest(req.authorization);
    if token.None? || token.value == "" {
      return Next;
    }
    var verified := Verdict(env, token.value);
    if verified.Fail? {
      return Next;
    }
    var userId := Subject(verified.payload);
    if userId.None? {
      return Next;
    }
    req.auth := Some(AuthContext(userId.value, verified.payload));
    var rows := env.lookup(userId.value);
    if rows.QueryFailed? {
      return NextWithError(rows.error);
    }
    req.user := if rows.Found? then User(rows.row) else NullUser;
    return Next;
  }

  /** `requireAuth`, step by step on the request object. */
  method RequireAuth(req: Request, env: Env) returns (res: Response)
    modifies req
    ensures Handled(res, req.auth, req.user)
         == RequireAuthSpec(env, req.authorization, old(req.auth), old(req.user))
  {
    var token := GetTokenFromRequest(req.authorization);
    if token.None? || token.value == "" {
      return Unauthorized("missing_auth");
    }
    var verified := Verdict(env, token.value);
    if verified.Fail? {
      return Unauthorized(ErrorCode(verified.error));
    }
    var userId := Subject(verified.payload);
    if userId.None? {
      return Unauthorized("invalid_auth");
    }
    req.auth := Some(AuthContext(userId.value, verified.payload));
    var rows := env.lookup(userId.value);
    if rows.QueryFailed? {
      return NextWithError(rows.error);
    }
    req.user := if rows.Found? then User(rows.row) else NullUser;
    if !req.user.User? {
      return Unauthorized("user_not_found");
    }
    return Next;
  }

  /** `req.auth` is only ever written with a verified token's payload and its own `sub`,
      which is a non-empty string; otherwise it keeps what it held. */
  predicate AuthFromToken(env: Env, authorization: Arg, before: Option<AuthContext>, after: Option<AuthContext>)
  {
    after == before ||
    (after.Some? &&
     GetTokenFromRequest(authorization).Some? &&
     Verdict(env, GetTokenFromRequest(authorization).value) == Ok(after.value.tokenPayload) &&
     Subject(after.value.tokenPayload) == Some(after.value.userId) &&
     after.value.userId != "")
  }

  /** The `req.auth` both handlers leave behind: the context of a verified token with a usable
      `sub`, or else the value it held. */
  function AuthAfter(env: Env, authorization: Arg, auth: Option<AuthContext>): Option<AuthContext>
  {
    var token := GetTokenFromRequest(authorization);
    if token.None? || token.value == "" then auth
    else
      var verdict := Verdict(env, token.value);
      if verdict.Fail? then auth
      else
        var sub := Subject(verdict.payload);
        if sub.None? then auth else Some(AuthContext(sub.value, verdict.payload))
  }

  /** A set `req.auth` carries the verified payload and its subject. */
  lemma AuthCarriesSubject(env: Env, authorization: Arg, auth: Option<AuthContext>)
    ensures AuthFromToken(env, authorization, auth, AuthAfter(env, authorization, auth))
  {
  }

  /** `optionalAuth` leaves `req.auth` as `AuthAfter` says. */
  lemma OptionalAuthSetsAuth(env: Env, authorization: Arg, auth: Option<AuthContext>, user: UserSlot)
    ensures OptionalAuthSpec(env, authorization, auth, user).auth == AuthAfter(env, authorization, auth)
  {
  }

  /** `requireAuth` leaves `req.auth` as `AuthAfter` says. */
  lemma RequireAuthSetsAuth(env: Env, authorization: Arg, auth: Option<AuthContext>, user: UserSlot)
    ensures RequireAuthSpec(env, authorization, auth, user).auth == AuthAfter(env, authorization, auth)
  {
  }

  /** `optionalAuth` never answers 401. Without a token, with a failed verification, or
      without a usable `sub`, it calls `next()` and leaves the request as it was; a lookup
      failure is the only error it forwards. */
  lemma OptionalAuthOutcomes(env: Env, authorization: Arg, auth: Option<AuthContext>, user: UserSlot)
    ensures var h := OptionalAuthSpec(env, authorization, auth, user);
      var token := GetTokenFromRequest(authorization);
      !h.response.Unauthorized? &&
      ((token.None? || Verdict(env, token.value).Fail? || Subject(Verdict(env, token.value).payload).None?)
         ==> h == Handled(Next, auth, user)) &&
      (h.response.NextWithError? ==>
         token.Some? && Verdict(env, token.value).Ok? &&
         var sub := Subject(Verdict(env, token.value).payload);
         sub.Some? && env.lookup(sub.value) == QueryFailed(h.response.error))
  {
  }

  /** `requireAuth` answers 401 `missing_auth` without a token, 401 with the verifier's own
      reason when verification fails, 401 `invalid_auth` without a usable `sub`, and 401
      `user_not_found` when the lookup finds no row; a lookup failure goes to `next(e)`. */
  lemma RequireAuthOutcomes(env: Env, authorization: Arg, auth: Option<AuthContext>, user: UserSlot)
    ensures var h := RequireAuthSpec(env, authorization, auth, user);
      var token := GetTokenFromRequest(authorization);
      (token.None? ==> h == Handled(Unauthorized("missing_auth"), auth, user)) &&
      (token.Some? ==>
        var verdict := Verdict(env, token.value);
        (verdict.Fail? ==> h == Handled(Unauthorized(ErrorCode(verdict.error)), auth, user)) &&
        (verdict.Ok? ==>
          var sub := Subject(verdict.payload);
          (sub.None? ==> h == Handled(Unauthorized("invalid_auth"), auth, user)) &&
          (sub.Some? ==>
            (env.lookup(sub.value).NoRow? ==> h.response == Unauthorized("user_not_found")) &&
            (env.lookup(sub.value).QueryFailed? ==>
               h.response == NextWithError(env.lookup(sub.value).error)))))
  {
  }

  /** `requireAuth` lets a request through with `next()` exactly when the token verified,
      its `sub` is a non-empty string and the user row was found; the request then carries
      that subject and that row. */
  lemma RequireAuthPassesOnlyKnownUsers(env: Env, authorization: Arg, auth: Option<AuthContext>, user: UserSlot)
    ensures var h := RequireAuthSpec(env, authorization, auth, user);
      var token := GetTokenFromRequest(authorization);
      h.response == Next <==>
        token.Some? && Verdict(env, token.value).Ok? &&
        var payload := Verdict(env, token.value).payload;
        Subject(payload).Some? && env.lookup(Subject(payload).value).Found? &&
        h.auth == Some(AuthContext(Subject(payload).value, payload)) &&
        h.user == User(env.lookup(Subject(payload).value).row)
  {
  }

  /** A lookup failure is never turned into a 401: both handlers pass it on as `next(e)`. */
  lemma LookupFailureForwarded(env: Env, authorization: Arg, auth: Option<AuthContext>, user: UserSlot)
    ensures OptionalAuthSpec(env, authorization, auth, user).response.NextWithError?
        <==> RequireAuthSpec(env, authorization, auth, user).response.NextWithError?
    ensures RequireAuthSpec(env, authorization, auth, user).response.NextWithError? ==>
      var token := GetTokenFromRequest(authorization).value;
      var sub := Subject(Verdict(env, token).payload).value;
      env.lookup(sub).QueryFailed?
  {
  }
}
