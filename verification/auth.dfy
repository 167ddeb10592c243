/** The authentication gate in front of every task route.

    The auth service's "who holds this token" call is a parameter: a
    function from the token to its reply. The scoped client built from the
    token is not modelled; what passes the gate is the caller's identity. */
module Auth {
  import opened Options
  import opened Store
  import opened Header
  import opened Http

  datatype User = User(id: UserId, email: string)

  /** What `auth.getUser(token)` gives back: an error and/or a user, or a
      thrown exception. */
  datatype AuthReply = Reply(error: Option<string>, user: Option<User>) | Threw

  /** Either the request goes on with a caller, or it is answered here. */
  datatype Gate = Admit(caller: User) | Deny(response: Response)

  /** The reply that lets a request through: no error, and a user. */
  predicate Accepts(reply: AuthReply, u: User) {
    reply == Reply(None, Some(u))
  }

  /** `authMiddleware`. */
  function Authenticate(header: Option<string>, whoIs: string -> AuthReply): (g: Gate)
    ensures BearerToken(header).None? ==> g == Deny(Error(Unauthorized, TokenRequired))
    ensures forall u :: g == Admit(u) <==> BearerToken(header).Some? && Accepts(whoIs(BearerToken(header).value), u)
    ensures g.Deny? && g.response.status == InternalError ==>
              BearerToken(header).Some? && whoIs(BearerToken(header).value) == Threw
    ensures BearerToken(header).Some? && whoIs(BearerToken(header).value) == Threw ==>
              g == Deny(Error(InternalError, AuthFailure))
    ensures g.Deny? ==> g.response.status in {Unauthorized, InternalError}
  {
    match BearerToken(header)
    case None => Deny(Error(Unauthorized, TokenRequired))
    case Some(token) =>
      match whoIs(token)
      case Threw => Deny(Error(InternalError, AuthFailure))
      case Reply(error, user) =>
        if error.Some? || user.None? then Deny(Error(Unauthorized, TokenInvalid))
        else Admit(user.value)
  }

  /** Without a token the auth service is not asked: the outcome is the same
      whatever it would have answered. */
  lemma NoLookupWithoutToken(header: Option<string>, whoIs: string -> AuthReply, whoIs': string -> AuthReply)
    requires BearerToken(header).None?
    ensures Authenticate(header, whoIs) == Authenticate(header, whoIs')
    ensures Authenticate(header, whoIs) == Deny(Error(Unauthorized, TokenRequired))
  {
  }

  /** With a token, only the service's answer for that token matters. */
  lemma OnlyTheTokenIsLookedUp(header: Option<string>, whoIs: string -> AuthReply, whoIs': string -> AuthReply)
    requires BearerToken(header).Some?
    requires whoIs(BearerToken(header).value) == whoIs'(BearerToken(header).value)
    ensures Authenticate(header, whoIs) == Authenticate(header, whoIs')
  {
  }

  /** An error from the service, or no user, is a 401 "Token inválido.",
      even when a user came back alongside the error. */
  lemma RejectedToken(header: Option<string>, whoIs: string -> AuthReply)
    requires BearerToken(header).Some?
    requires whoIs(BearerToken(header).value).Reply?
    requires whoIs(BearerToken(header).value).error.Some? || whoIs(BearerToken(header).value).user.None?
    ensures Authenticate(header, whoIs) == Deny(Error(Unauthorized, TokenInvalid))
  {
  }
}
