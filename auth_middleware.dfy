/**
 * The access guards of middleware/auth.js: `auth` resolves the session
 * cookie to an account, `admin` and `superAdmin` test the resolved role.
 */
module AuthMiddleware {
  import opened Base
  import opened UserModel

  /** Why `auth` answered 401; the three messages it can send. */
  datatype AuthFailure =
    | AuthorizationRequired   // no token cookie
    | InvalidToken            // no account holds this session
    | NotAuthorized           // the token did not verify

  /** `req.token` and `req.user` after `auth` calls `next()`, or the 401. */
  datatype AuthResult = Authenticated(token: string, user: UserDoc) | Rejected(reason: AuthFailure)
  {
    function Status(): int {
      if Authenticated? then 200 else 401
    }
  }

  /** The answer of a role guard: continue with `next()`, or 403 with a message. */
  datatype Guard = Next | Forbidden(message: string)

  predicate HoldsToken(tokens: seq<Session>, token: string) {
    exists k :: 0 <= k < |tokens| && tokens[k].token == token
  }

  /** The query `{ _id, 'tokens.token': token, role: { $in: staff } }` matches this account. */
  predicate AcceptsSession(u: UserDoc, id: Id, token: string) {
    u.id == id && HoldsToken(u.tokens, token) && u.role in StaffRoles
  }

  /** `User.findOne` with that query: the first matching account. */
  function FindSession(docs: seq<UserDoc>, id: Id, token: string): (r: Option<nat>)
    ensures r.Some? ==> r.value < |docs| && AcceptsSession(docs[r.value], id, token)
    ensures r.None? ==> forall k :: 0 <= k < |docs| ==> !AcceptsSession(docs[k], id, token)
  {
    if docs == [] then None
    else if AcceptsSession(docs[0], id, token) then Some(0)
    else match FindSession(docs[1..], id, token)
      case None => None
      case Some(k) => Some(k + 1)
  }

  /**
   * `auth`. `cookie` is `req.cookies.token`; `verify` is `jwt.verify`,
   * `None` where it throws, otherwise the `id` of the payload.
   */
  function Authenticate(docs: seq<UserDoc>, cookie: Option<string>, verify: string -> Option<Id>): (r: AuthResult)
    ensures r.Authenticated? <==>
              cookie.Some? && cookie.value != [] && verify(cookie.value).Some?
              && exists k :: 0 <= k < |docs| && AcceptsSession(docs[k], verify(cookie.value).value, cookie.value)
    ensures r.Authenticated? ==>
              r.token == cookie.value && r.user in docs && AcceptsSession(r.user, verify(cookie.value).value, r.token)
    ensures r == Rejected(AuthorizationRequired) <==> cookie.None? || cookie.value == []
    ensures r == Rejected(NotAuthorized) <==> cookie.Some? && cookie.value != [] && verify(cookie.value).None?
    ensures r.Status() in {200, 401}
  {
    if cookie.None? || cookie.value == [] then Rejected(AuthorizationRequired)
    else match verify(cookie.value)
      case None => Rejected(NotAuthorized)
      case Some(id) =>
        match FindSession(docs, id, cookie.value)
          case None => Rejected(InvalidToken)
          case Some(k) => Authenticated(cookie.value, docs[k])
  }

  /** `admin`: any staff role passes; `role` is `req.user?.role`. */
  function Admin(role: Option<string>): (g: Guard)
    ensures g.Next? <==> role.Some? && role.value in StaffRoles
  {
    if role.Some? && role.value in StaffRoles then Next else Forbidden("Admin privileges required")
  }

  /** `superAdmin`: only the role `superAdmin` passes. */
  function SuperAdmin(role: string): (g: Guard)
    ensures g.Next? <==> role == "superAdmin"
    ensures g.Forbidden? ==> g.message == "Super admin privileges required"
  {
    if role != "superAdmin" then Forbidden("Super admin privileges required") else Next
  }

  /** Both checks use one role set, so every request `auth` lets through also passes `admin`. */
  lemma AuthenticatedPassesAdmin(docs: seq<UserDoc>, cookie: Option<string>, verify: string -> Option<Id>)
    ensures Authenticate(docs, cookie, verify).Authenticated? ==>
              Admin(Some(Authenticate(docs, cookie, verify).user.role)) == Next
  {
  }
}
