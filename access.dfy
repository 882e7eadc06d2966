/** The caller the authentication middleware attaches to a request, and the
    role and ownership checks the routes apply to it. */
module Access {
  import opened Common
  import opened UserModel

  /** `req.user`: its id, its role and, for a teacher, its assigned classes. */
  datatype Caller = Caller(id: Id, role: Role, assignedClasses: seq<Id>)

  /** The check of the `requireAdmin` middleware. */
  predicate IsAdmin(c: Caller)
  {
    c.role == Admin
  }

  /** `req.user.role !== 'admin' && req.user._id.toString() !== id` is refused. */
  predicate AdminOrSelf(c: Caller, id: Id)
  {
    c.role == Admin || c.id == id
  }

  /** The text `requireAdmin` answers with. That middleware is not part of this
      model; only the 403 status is relied on. */
  const AdminRequired := "Admin access required"

  const AccessDenied := "Access denied"
}
