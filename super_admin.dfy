/**
 * The standalone guard of middleware/superAdmin.js: the same single role
 * comparison as the `superAdmin` export of middleware/auth.js.
 */
module SuperAdminGuard {
  import opened Base
  import opened UserModel
  import AuthMiddleware

  /** The parts of the request the guard sees: what `auth` stored. */
  datatype Request = Request(user: UserDoc, token: string)

  /** Continue with the request as it came, or answer 403. */
  datatype Decision = Proceed(req: Request) | Deny(status: int, message: string)

  function Check(req: Request): (d: Decision)
    ensures d.Proceed? <==> req.user.role == "superAdmin"
    ensures d.Proceed? ==> d.req == req
    ensures d.Deny? ==> d.status == 403 && d.message == "Super admin privileges required"
  {
    if req.user.role != "superAdmin" then Deny(403, "Super admin privileges required") else Proceed(req)
  }

  /** `admin` and `moderator` are refused. */
  lemma LowerStaffRefused(req: Request)
    requires req.user.role in {"admin", "moderator"}
    ensures Check(req) == Deny(403, "Super admin privileges required")
  {
  }

  /** For every role it decides as the `superAdmin` of middleware/auth.js does. */
  lemma AgreesWithAuthModule(req: Request)
    ensures Check(req).Proceed? <==> AuthMiddleware.SuperAdmin(req.user.role).Next?
    ensures Check(req).Deny? ==> AuthMiddleware.SuperAdmin(req.user.role) == AuthMiddleware.Forbidden(Check(req).message)
  {
  }
}
