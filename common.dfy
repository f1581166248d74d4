/** Values shared by every part of the backend: optional values, results that
    carry an HTTP error, and the four role names of the membership hierarchy. */
module Common {

  datatype Option<T> = None | Some(value: T)

  /** Why a request was refused; each reason maps to one HTTP status code. */
  datatype Reason =
    | InvalidScheme            // credentials not of the bearer scheme
    | InvalidToken             // bad signature or expired token
    | MissingClaim(field: string)
    | MalformedClaims          // owner token without a user_id claim (uncaught KeyError)
    | OutOfScope               // actor outside the target company/team/project
    | InvalidRole              // requested role is not one of the four role names
    | CannotAssign             // requested role is not the child of the actor's role
    | NotPrivileged            // actor holds none of owner, admin, manager
    | OwnerExists              // an owner row already exists for the project
    | AlreadyMember            // the membership key is already taken
    | MembershipNotFound
    | OwnerPermanent           // the owner row can never be removed
    | CannotRemove             // target role is not the child of the actor's role
    | UserExists               // signup with a taken email or user_id
    | BadCredentials           // unknown email or wrong password
    | NoProjectAccess          // login without a membership for the project
    | AccessDenied             // upload gate refused the principal
  {
    function Status(): (code: nat)
      ensures 400 <= code < 600
      // the one server error is the owner token without a user_id
      ensures code == 500 <==> this == MalformedClaims
      // authentication failures, token or password, are 401
      ensures code == 401 <==> this.InvalidScheme? || this.InvalidToken? || this.MissingClaim?
                               || this == BadCredentials
      ensures code == 404 <==> this == MembershipNotFound
      // malformed requests and conflicts with stored rows are 400; every other refusal is 403
      ensures code == 400 <==> this in {InvalidRole, OwnerExists, AlreadyMember, UserExists}
      ensures code in {400, 401, 403, 404, 500}
    {
      match this
      case InvalidScheme | InvalidToken | MissingClaim(_) | BadCredentials => 401
      case MalformedClaims => 500
      case InvalidRole | OwnerExists | AlreadyMember | UserExists => 400
      case MembershipNotFound => 404
      case OutOfScope | CannotAssign | NotPrivileged | OwnerPermanent | CannotRemove
        | NoProjectAccess | AccessDenied => 403
    }
  }

  datatype Result<T> = Ok(value: T) | Err(reason: Reason)

  const OWNER: string := "owner"
  const ADMIN: string := "admin"
  const MANAGER: string := "manager"
  const MEMBER: string := "member"

  /** The roles `add_member` accepts as a request. */
  const ValidRoles: seq<string> := [OWNER, ADMIN, MANAGER, MEMBER]
}
