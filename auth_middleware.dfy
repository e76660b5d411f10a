/** The request gate: `requireAuth` turns the Authorization header into verified claims
    attached to the request, and `requireManager` is the role check meant for reviewer-only
    routes. Verifying a token's signature and expiry is a parameter. */
module AuthMiddleware {
  import opened Wrappers
  import opened Text
  import opened Http
  import opened UserModel
  import AuthController

  const MsgAuthRequired := "Authentication required"
  const MsgInvalidToken := "Invalid or expired token"
  const MsgManagerRequired := "Manager access required"
  const BearerPrefix := "Bearer "

  /** The decoded payload of a token: the claims it carries, each possibly absent. */
  datatype Claims = Claims(id: Option<Id>, employeeId: Option<string>, name: Option<string>, role: Option<string>)

  /** What `jwt.verify(token, secret)` does with a token: returns its payload, or throws
      because the signature does not match (or no key is configured), the token has
      expired, or it is not a token at all. */
  datatype Verification = Verified(claims: Claims) | BadSignature | Expired | Malformed

  /** `header?.replace('Bearer ', '')`: an absent header gives no token; otherwise the first
      occurrence of "Bearer ", wherever it is, is removed, and a header without one is
      taken whole. */
  function ExtractToken(header: Option<string>): (t: Option<string>)
    ensures header.None? <==> t.None?
    ensures header.Some? && (forall j :: !OccursAt(header.value, BearerPrefix, j)) ==> t == header
    ensures forall i :: header.Some? && OccursAt(header.value, BearerPrefix, i)
                        && (forall j :: 0 <= j < i ==> !OccursAt(header.value, BearerPrefix, j))
                        ==> t == Some(header.value[..i] + header.value[i + |BearerPrefix|..])
  {
    match header
    case None => None
    case Some(h) =>
      var r := ReplaceFirst(h, BearerPrefix, "");
      assert forall i :: OccursAt(h, BearerPrefix, i) ==> h[..i] + "" + h[i + |BearerPrefix|..] == h[..i] + h[i + |BearerPrefix|..];
      Some(r)
  }

  /** `requireAuth`: 401 "Authentication required" without a non-empty token, 401 "Invalid
      or expired token" whenever verification fails for any reason, and otherwise the
      claims to attach as `req.user`. */
  function Authenticate(header: Option<string>, verify: string -> Verification): (r: Response<Claims>)
    ensures var t := ExtractToken(header);
            (t.None? || t.value == "") ==> r == Unauthorized(MsgAuthRequired)
    ensures var t := ExtractToken(header);
            (t.Some? && t.value != "" && !verify(t.value).Verified?) ==> r == Unauthorized(MsgInvalidToken)
    ensures r.Ok? <==> var t := ExtractToken(header);
                       t.Some? && t.value != "" && verify(t.value).Verified?
    ensures r.Ok? ==> verify(ExtractToken(header).value) == Verified(r.value)
    ensures r.Ok? || r.Unauthorized?
  {
    var t := ExtractToken(header);
    if t.None? || t.value == "" then Unauthorized(MsgAuthRequired)
    else
      match verify(t.value)
      case Verified(claims) => Ok(claims)
      case _ => Unauthorized(MsgInvalidToken)
  }

  /** A header of exactly "Bearer " carries an empty token and is refused before any
      verification. */
  lemma BareBearerIsRefused(verify: string -> Verification)
    ensures Authenticate(Some(BearerPrefix), verify) == Unauthorized(MsgAuthRequired)
  {
    BearerHeaderGivesToken("");
    assert BearerPrefix + "" == BearerPrefix;
  }

  /** The usual header "Bearer <token>" hands `<token>` to the verifier. */
  lemma BearerHeaderGivesToken(token: string)
    ensures ExtractToken(Some(BearerPrefix + token)) == Some(token)
  {
    ReplaceFirstAtFront(BearerPrefix, token);
  }

  /** The reason a verification fails never shows: a bad signature, an expired token and a
      malformed one get the same response. */
  lemma FailuresLookAlike(header: Option<string>, verify1: string -> Verification, verify2: string -> Verification)
    requires ExtractToken(header).Some? && ExtractToken(header).value != ""
    requires !verify1(ExtractToken(header).value).Verified? && !verify2(ExtractToken(header).value).Verified?
    ensures Authenticate(header, verify1) == Authenticate(header, verify2) == Unauthorized(MsgInvalidToken)
  {
  }

  /** An incoming request: its Authorization header and the identity attached to it. */
  class Request {
    const authorization: Option<string>
    var user: Option<Claims>

    constructor (authorization: Option<string>)
      ensures this.authorization == authorization && user.None?
    {
      this.authorization := authorization;
      user := None;
    }

    /** `requireAuth(req, res, next)`: `next` is called exactly when `r` is `Ok`, and only then
        is `req.user` set, to the verified claims. */
    method RequireAuth(verify: string -> Verification) returns (r: Response<Claims>)
      modifies this
      ensures r == Authenticate(authorization, verify)
      ensures user == if r.Ok? then Some(r.value) else old(user)
    {
      var token := ExtractToken(authorization);
      if token.None? || token.value == "" {
        return Unauthorized(MsgAuthRequired);
      }
      var decoded := verify(token.value);
      if !decoded.Verified? {
        return Unauthorized(MsgInvalidToken);
      }
      user := Some(decoded.claims);
      r := Ok(decoded.claims);
    }
  }

  /** `requireManager` as written: it lets through exactly the roles "employee" and "admin",
      and answers 403 to every other role, "manager" included, and to a missing one. */
  function RequireManager(user: Claims): (r: Response<()>)
    ensures r.Ok? <==> user.role == Some(RoleName(Employee)) || user.role == Some(RoleName(Admin))
    ensures !r.Ok? ==> r == Forbidden(MsgManagerRequired)
  {
    if user.role != Some("employee") && user.role != Some("admin") then Forbidden(MsgManagerRequired)
    else Ok(())
  }

  /** The gate as its message promises: managers and admins pass, everyone else gets 403. */
  function RequireManagerIntended(user: Claims): (r: Response<()>)
    ensures r.Ok? <==> user.role == Some(RoleName(Manager)) || user.role == Some(RoleName(Admin))
    ensures !r.Ok? ==> r == Forbidden(MsgManagerRequired)
  {
    if user.role != Some("manager") && user.role != Some("admin") then Forbidden(MsgManagerRequired)
    else Ok(())
  }

  /** As written, a manager is refused and an employee admitted: the opposite of what the
      intended gate does for both. */
  lemma ManagerGateInverted(user: Claims)
    requires user.role == Some(RoleName(Manager)) || user.role == Some(RoleName(Employee))
    ensures RequireManager(user).Ok? != RequireManagerIntended(user).Ok?
  {
  }

  /** The claims of a token made by `createToken`: only `_id` is set. */
  function ClaimsOf(t: AuthController.Token): Claims {
    Claims(Some(t.subject), None, None, None)
  }

  /** Tokens from login and register carry no role, so the gate refuses every one of them,
      and so would the intended gate. */
  lemma IssuedTokensLackRole(t: AuthController.Token)
    ensures RequireManager(ClaimsOf(t)) == Forbidden(MsgManagerRequired)
    ensures RequireManagerIntended(ClaimsOf(t)) == Forbidden(MsgManagerRequired)
  {
  }
}
