/** HTTP responses and the role guard `verifyRole` that every
    role-restricted route runs before its handler. */
module Access {

  /** What a handler sends back: a status with a plain-text body, or a
      redirect to another path. */
  datatype Response = Status(code: int, message: string) | Redirect(location: string)

  /** An optional request or session value, with JavaScript truthiness:
      `undefined`/`null` and the empty string are false. */
  datatype Value = Absent | Text(s: string)

  predicate Truthy(v: Value) {
    v.Text? && v.s != ""
  }

  const UnauthorizedMessage := "Unauthorized: Please log in."
  const ForbiddenMessage := "Forbidden: Access denied."

  /** The outcome of the guard: the request is answered with an error
      status, or the guard calls `next` and the handler runs. */
  datatype Guard = Deny(response: Response) | Next

  /** `verifyRole(requiredRole, errorMessage)` applied to a session whose
      `role` field is `role`. */
  function VerifyRole(requiredRole: string, errorMessage: Value, role: Value): (g: Guard)
    ensures g == Deny(Status(401, UnauthorizedMessage)) <==> !Truthy(role)
    ensures g.Deny? && g.response.Status? && g.response.code == 403 <==> Truthy(role) && role.s != requiredRole
    ensures g.Next? <==> Truthy(role) && role.s == requiredRole
  {
    if !Truthy(role) then Deny(Status(401, UnauthorizedMessage))
    else if role.s != requiredRole then
      Deny(Status(403, if Truthy(errorMessage) then errorMessage.s else ForbiddenMessage))
    else Next
  }

  /** Exactly one of the three outcomes happens, and a denial is always
      one of the two error statuses. */
  lemma GuardOutcomesExclusive(requiredRole: string, errorMessage: Value, role: Value)
    ensures var g := VerifyRole(requiredRole, errorMessage, role);
      (g.Next? && Truthy(role) && role.s == requiredRole)
      || (g == Deny(Status(401, UnauthorizedMessage)) && !Truthy(role))
      || (g.Deny? && g.response.Status? && g.response.code == 403 && Truthy(role) && role.s != requiredRole)
  {
  }

  /** A 403 carries the route's own message when it has a non-empty one,
      and the default message otherwise. */
  lemma ForbiddenMessageChoice(requiredRole: string, errorMessage: Value, role: Value)
    requires Truthy(role) && role.s != requiredRole
    ensures VerifyRole(requiredRole, errorMessage, role)
         == Deny(Status(403, if Truthy(errorMessage) then errorMessage.s else ForbiddenMessage))
  {
  }

  /** The guard lets a request through exactly when the session holds the
      required role; a route requiring the empty role admits nobody, as an
      empty role is falsy. */
  lemma GuardAdmitsOnlyRequiredRole(requiredRole: string, errorMessage: Value, role: Value)
    ensures VerifyRole(requiredRole, errorMessage, role).Next?
        <==> role == Text(requiredRole) && requiredRole != ""
  {
  }
}
