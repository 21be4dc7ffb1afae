/** The `role:` route middleware: admit a request only for a user whose role is listed. */
module RoleMiddleware {
  import opened Wrappers

  /** The authenticated user, as far as the gate looks at it. */
  datatype AuthUser = AuthUser(id: int, role: string)

  /** Either the request goes on to the next handler, or it is answered here. */
  datatype Response = PassToNext | Forbidden(status: int, message: string)

  const ForbiddenMessage := "You are not authorized to perform this action."

  /** `forbiddenResponse`. */
  function ForbiddenResponse(): (r: Response)
    ensures r.Forbidden? && r.status == 403 && r.message == ForbiddenMessage
  {
    Forbidden(403, ForbiddenMessage)
  }

  /**
   * `handle`. An empty role list admits every request, authenticated or not;
   * otherwise the user must exist and its role must equal, character for
   * character, one of the listed roles.
   */
  function Handle(user: Option<AuthUser>, roles: seq<string>): (r: Response)
    ensures r == PassToNext || r == ForbiddenResponse()
    ensures |roles| == 0 ==> r == PassToNext
    ensures |roles| > 0 && user.None? ==> r == ForbiddenResponse()
    ensures user.Some? ==> (r == PassToNext <==> |roles| == 0 || user.value.role in roles)
  {
    if |roles| == 0 then PassToNext
    else if user.None? || user.value.role !in roles then ForbiddenResponse()
    else PassToNext
  }

  /** The decision depends on which roles are listed, not on their order or repetition. */
  lemma OnlyMembershipMatters(user: Option<AuthUser>, roles: seq<string>, roles': seq<string>)
    requires forall x :: x in roles <==> x in roles'
    ensures Handle(user, roles) == Handle(user, roles')
  {
    if |roles| > 0 {
      assert roles[0] in roles';
    }
    if |roles'| > 0 {
      assert roles'[0] in roles;
    }
  }

  /** Role comparison is case-sensitive: `admin` does not pass a gate for `Admin`. */
  lemma RoleMatchIsCaseSensitive(id: int)
    ensures Handle(Some(AuthUser(id, "admin")), ["Admin"]) == ForbiddenResponse()
    ensures Handle(Some(AuthUser(id, "Admin")), ["Admin"]) == PassToNext
  {
  }
}
