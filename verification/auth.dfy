/**
 * The request-authorization middlewares as decisions: each takes the request and the
 * results of the calls it makes (token verification, user or resource lookup) and
 * either passes the request on, possibly with a user or resource attached, or rejects
 * it with a status and the error text of the JSON body `{ success: false, error }`.
 *
 * `verify` stands for `jwt.verify` with the server secret: None when it throws
 * (bad signature, malformed, expired). `findUser` stands for
 * `User.findById(id).select('-password')`, so a found record carries no password.
 */
module Auth {
  import opened Common
  import opened Text
  import opened UserModel

  /** The payload of a session token: the user's id and the role at signing time. */
  datatype Claims = Claims(id: Id, role: Role)

  /** A database lookup: a document, no document, or a thrown error. */
  datatype Lookup<T> = Found(value: T) | NotFound | Threw

  /** A document subject to the ownership check; `author` is its owner's id when recorded. */
  datatype Resource = Resource(id: Id, author: Option<Id>)

  /**
   * The parts of a request the middlewares read and write: the `Authorization` header,
   * the `token` cookie, and the `user` and `resource` they attach.
   */
  datatype Request = Request(
    authorization: Option<string>,
    tokenCookie: Option<string>,
    user: Option<User>,
    resource: Option<Resource>)

  /** `next()` with the request as it now stands, or a response ending the chain. */
  datatype Outcome = Next(request: Request) | Reject(status: nat, error: string)

  const NotAuthorizedRoute: string := "Not authorized to access this route"
  const AccountNotActive: string := "Account is not active"
  const ResourceNotFound: string := "Resource not found"
  const NotAuthorizedResource: string := "Not authorized to access this resource"
  const ServerError: string := "Server error"

  /** The text around the role's name in `authorize`'s 403 message. */
  const RoleDeniedPrefix: string := "User role '"
  const RoleDeniedSuffix: string := "' is not authorized to access this route"

  function RoleNotAuthorized(role: Role): string {
    RoleDeniedPrefix + RoleName(role) + RoleDeniedSuffix
  }

  /** The role-denial message names the role: different roles give different messages. */
  lemma RoleNotAuthorizedNamesRole(a: Role, b: Role)
    requires RoleNotAuthorized(a) == RoleNotAuthorized(b)
    ensures a == b
  {
    assert |RoleNotAuthorized(a)| == |RoleName(a)| + 51;
    assert |RoleNotAuthorized(b)| == |RoleName(b)| + 51;
  }

  /** `getSignedJwtToken`: the token asserts the user's id and current role. */
  function IssueClaims(u: User): (c: Claims)
    ensures c.id == u.id && c.role == u.role
  {
    Claims(u.id, u.role)
  }

  /** `header.split(' ')[1]`: the second space-separated field, if the header has one. */
  function SecondField(h: string): (r: Option<string>)
    ensures r.Some? <==> ' ' in h
    ensures r.Some? ==> ' ' !in r.value
    ensures r.Some? ==> var rest := h[IndexOf(h, ' ') + 1..];
                        r.value <= rest && (|r.value| == |rest| || rest[|r.value|] == ' ')
  {
    var parts := SplitOnChar(h, ' ');
    SplitOnCharSeparates(h, ' ');
    if |parts| >= 2 then
      SplitOnCharSecondPiece(h, ' ');
      Some(parts[1])
    else None
  }

  predicate IsBearerHeader(authorization: Option<string>) {
    authorization.Some? && "Bearer" <= authorization.value
  }

  /** A JavaScript string value is truthy when it is present and not empty. */
  function Truthy(s: Option<string>): Option<string> {
    if s.Some? && s.value != [] then s else None
  }

  /**
   * The extraction rule `protect` and `optionalAuth` share: a header starting with
   * "Bearer" supplies the token as its second space-separated field, and only when there
   * is no such header is the `token` cookie read. An empty token counts as none.
   */
  function ExtractToken(req: Request): (r: Option<string>)
    ensures r.Some? ==> r.value != []
    ensures r.Some? && IsBearerHeader(req.authorization) ==> ' ' !in r.value
    ensures IsBearerHeader(req.authorization) ==> r == Truthy(SecondField(req.authorization.value))
    ensures !IsBearerHeader(req.authorization) ==> r == Truthy(req.tokenCookie)
  {
    if IsBearerHeader(req.authorization) then Truthy(SecondField(req.authorization.value))
    else Truthy(req.tokenCookie)
  }

  /** A header `Bearer <t>` yields `t` for any space-free, non-empty `t`, whatever the cookie holds. */
  lemma BearerRoundTrip(t: string, cookie: Option<string>, user: Option<User>, res: Option<Resource>)
    requires t != [] && ' ' !in t
    ensures ExtractToken(Request(Some("Bearer " + t), cookie, user, res)) == Some(t)
  {
    var h := "Bearer " + t;
    assert h == "Bearer" + [' '] + t;
    assert "Bearer" <= h;
    SplitOnCharAtFirst("Bearer", ' ', t);
    SplitOnCharAbsent(t, ' ');
  }

  /** A header of just "Bearer" yields no token, and the cookie is not consulted. */
  lemma BareBearerHidesCookie(cookie: Option<string>, user: Option<User>, res: Option<Resource>)
    ensures ExtractToken(Request(Some("Bearer"), cookie, user, res)) == None
  {
    assert "Bearer" <= "Bearer";
  }

  /** With a Bearer header present, the cookie never matters. */
  lemma HeaderTakesPrecedence(req: Request, cookie: Option<string>)
    requires IsBearerHeader(req.authorization)
    ensures ExtractToken(req.(tokenCookie := cookie)) == ExtractToken(req)
  {
  }

  /**
   * `protect`: a request passes only with a token that verifies, naming a user that
   * exists and is active; that freshly loaded user, not the token's role claim, is
   * attached. Every rejection is a 401, and "Account is not active" is given exactly
   * when the user was found but is not active.
   */
  function Protect(req: Request, verify: string -> Option<Claims>, findUser: Id -> Lookup<User>): (r: Outcome)
    ensures ExtractToken(req).None? ==> r == Reject(401, NotAuthorizedRoute)
    ensures r.Reject? ==> r.status == 401 && (r.error == NotAuthorizedRoute || r.error == AccountNotActive)
    ensures r.Next? <==>
              && ExtractToken(req).Some?
              && verify(ExtractToken(req).value).Some?
              && findUser(verify(ExtractToken(req).value).value.id).Found?
              && findUser(verify(ExtractToken(req).value).value.id).value.status == Active
    ensures r.Next? ==>
              r.request == req.(user := Some(findUser(verify(ExtractToken(req).value).value.id).value))
    ensures r.Reject? && r.error == AccountNotActive <==>
              && ExtractToken(req).Some?
              && verify(ExtractToken(req).value).Some?
              && findUser(verify(ExtractToken(req).value).value.id).Found?
              && findUser(verify(ExtractToken(req).value).value.id).value.status != Active
  {
    match ExtractToken(req)
    case None => Reject(401, NotAuthorizedRoute)
    case Some(token) =>
      match verify(token)
      case None => Reject(401, NotAuthorizedRoute)
      case Some(claims) =>
        match findUser(claims.id)
        case Threw => Reject(401, NotAuthorizedRoute)
        case NotFound => Reject(401, NotAuthorizedRoute)
        case Found(u) =>
          if u.status != Active then Reject(401, AccountNotActive)
          else Next(req.(user := Some(u)))
  }

  /**
   * `authorize(...roles)`: without an attached user, 401; with a role outside the
   * permitted set, 403 naming the role; otherwise the request passes untouched.
   */
  function Authorize(roles: set<Role>, req: Request): (r: Outcome)
    ensures r.Next? <==> req.user.Some? && req.user.value.role in roles
    ensures r.Next? ==> r.request == req
    ensures req.user.None? ==> r == Reject(401, NotAuthorizedRoute)
    ensures req.user.Some? && req.user.value.role !in roles ==>
              r == Reject(403, RoleNotAuthorized(req.user.value.role))
  {
    if req.user.None? then Reject(401, NotAuthorizedRoute)
    else if req.user.value.role !in roles then Reject(403, RoleNotAuthorized(req.user.value.role))
    else Next(req)
  }

  /**
   * `optionalAuth`: never rejects. A user is attached exactly when the token verifies
   * and names an existing, active user; otherwise the request passes unchanged.
   */
  function OptionalAuth(req: Request, verify: string -> Option<Claims>, findUser: Id -> Lookup<User>): (r: Outcome)
    ensures r.Next?
    ensures r.request == req.(user := r.request.user)
    ensures r.request.user != req.user ==> r.request.user.Some? && r.request.user.value.status == Active
  {
    match ExtractToken(req)
    case None => Next(req)
    case Some(token) =>
      match verify(token)
      case None => Next(req)
      case Some(claims) =>
        match findUser(claims.id)
        case Found(u) => if u.status == Active then Next(req.(user := Some(u))) else Next(req)
        case _ => Next(req)
  }

  /**
   * Optional authentication is required authentication with every rejection turned
   * into passing the request on unchanged.
   */
  lemma OptionalAuthIsLenientProtect(req: Request, verify: string -> Option<Claims>, findUser: Id -> Lookup<User>)
    ensures Protect(req, verify, findUser).Next? ==> OptionalAuth(req, verify, findUser) == Protect(req, verify, findUser)
    ensures Protect(req, verify, findUser).Reject? ==> OptionalAuth(req, verify, findUser) == Next(req)
  {
  }

  /**
   * `checkOwnership`: the resource is loaded first and a missing one is a 404 whoever
   * asks; an admin then always passes; anyone else is refused with 403 when the resource
   * records an author other than them. Every pass attaches the resource. A failed lookup,
   * or a request with no user attached (reading its role throws), is a 500.
   */
  function CheckOwnership(req: Request, found: Lookup<Resource>): (r: Outcome)
    ensures found.NotFound? ==> r == Reject(404, ResourceNotFound)
    ensures found.Threw? ==> r == Reject(500, ServerError)
    ensures found.Found? && req.user.None? ==> r == Reject(500, ServerError)
    ensures r == Reject(404, ResourceNotFound) <==> found.NotFound?
    ensures r.Next? <==>
              && found.Found?
              && req.user.Some?
              && (req.user.value.role == Admin
                  || found.value.author.None?
                  || found.value.author.value == req.user.value.id)
    ensures r.Next? ==> r.request == req.(resource := Some(found.value))
    ensures r.Reject? && r.status == 403 <==>
              && found.Found?
              && req.user.Some?
              && req.user.value.role != Admin
              && found.value.author.Some?
              && found.value.author.value != req.user.value.id
    ensures r.Reject? ==> r in {Reject(404, ResourceNotFound), Reject(403, NotAuthorizedResource), Reject(500, ServerError)}
  {
    match found
    case Threw => Reject(500, ServerError)
    case NotFound => Reject(404, ResourceNotFound)
    case Found(res) =>
      if req.user.None? then Reject(500, ServerError)
      else if req.user.value.role == Admin then Next(req.(resource := Some(res)))
      else if res.author.Some? && res.author.value != req.user.value.id then
        Reject(403, NotAuthorizedResource)
      else Next(req.(resource := Some(res)))
  }

  /** Runs the next middleware only when the previous one passed the request on. */
  function AndThen(o: Outcome, next: Request -> Outcome): Outcome {
    match o
    case Next(req) => next(req)
    case Reject(_, _) => o
  }

  /**
   * Behind `protect`, `checkOwnership` always has a user to judge: a 500 then comes only
   * from a failed lookup, and whether the request passes depends on the loaded user's
   * role and id, never on the token's claims.
   */
  lemma ProtectedOwnership(req: Request, verify: string -> Option<Claims>,
                           findUser: Id -> Lookup<User>, found: Lookup<Resource>)
    ensures var p := Protect(req, verify, findUser);
            var r := AndThen(p, q => CheckOwnership(q, found));
            && (p.Reject? ==> r == p)
            && (p.Next? ==> (r == Reject(500, ServerError) <==> found.Threw?))
            && (p.Next? && found.Found? ==>
                  var u := p.request.user.value;
                  (r.Next? <==> u.role == Admin || found.value.author.None? || found.value.author.value == u.id))
  {
  }

  /** A route guarded by `protect, authorize(...roles)`. */
  function ProtectedRoute(roles: set<Role>, req: Request, verify: string -> Option<Claims>,
                          findUser: Id -> Lookup<User>): Outcome {
    AndThen(Protect(req, verify, findUser), r => Authorize(roles, r))
  }

  /**
   * Behind `protect`, `authorize` never answers 401, and the role it judges is the one
   * loaded from the store: the token's role claim plays no part.
   */
  lemma ProtectedRouteUsesStoredRole(roles: set<Role>, req: Request, verify: string -> Option<Claims>,
                                     findUser: Id -> Lookup<User>)
    ensures var r := ProtectedRoute(roles, req, verify, findUser);
            && (Protect(req, verify, findUser).Reject? ==> r == Protect(req, verify, findUser))
            && (Protect(req, verify, findUser).Next? ==>
                  var u := Protect(req, verify, findUser).request.user.value;
                  && r.Next? == (u.role in roles)
                  && (r.Reject? ==> r == Reject(403, RoleNotAuthorized(u.role))))
  {
  }

  /** Two tokens naming the same user id are treated alike, whatever roles they claim. */
  lemma RoleClaimIgnored(roles: set<Role>, req: Request, v1: string -> Option<Claims>,
                         v2: string -> Option<Claims>, findUser: Id -> Lookup<User>)
    requires ExtractToken(req).Some?
    requires v1(ExtractToken(req).value).Some? && v2(ExtractToken(req).value).Some?
    requires v1(ExtractToken(req).value).value.id == v2(ExtractToken(req).value).value.id
    ensures ProtectedRoute(roles, req, v1, findUser) == ProtectedRoute(roles, req, v2, findUser)
  {
  }

  /**
   * A token signed while its user was an author still verifies after the user is
   * demoted, but the author-or-admin routes refuse it with 403 naming the role 'user'.
   */
  lemma DemotedAuthorRefused(req: Request, before: User, after: User,
                             verify: string -> Option<Claims>, findUser: Id -> Lookup<User>)
    requires before.role == Author && after.role == Regular
    requires after.id == before.id && after.status == Active
    requires ExtractToken(req).Some? && verify(ExtractToken(req).value) == Some(IssueClaims(before))
    requires findUser(before.id) == Found(after)
    ensures ProtectedRoute({Admin, Author}, req, verify, findUser)
            == Reject(403, RoleDeniedPrefix + "user" + RoleDeniedSuffix)
  {
  }

  /** A request with neither header nor cookie is refused with the standard 401. */
  lemma NoCredentialsRefused(user: Option<User>, res: Option<Resource>,
                             verify: string -> Option<Claims>, findUser: Id -> Lookup<User>)
    ensures Protect(Request(None, None, user, res), verify, findUser) == Reject(401, NotAuthorizedRoute)
  {
  }
}
