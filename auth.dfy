/** Turning a bearer token into the authenticated principal (`get_current_user`).
    Verifying the token's signature and expiry is the JWT library's job; it is a
    parameter `decode` that yields the claims or nothing. */
module Auth {
  import opened Common

  const BEARER: string := "bearer"

  /** The decoded token payload; a claim the token does not carry is `None`. */
  datatype Claims = Claims(userId: Option<string>, companyId: Option<string>,
                           teamId: Option<string>, projectId: Option<string>,
                           roles: Option<seq<string>>, exp: Option<int>)

  /** The `Authorization` header, split into scheme and token. */
  datatype Credentials = Credentials(scheme: string, token: string)

  /** The principal; an owner carries no scope at all. */
  datatype User = User(userId: string, teamId: Option<string>, projectId: Option<string>,
                       companyId: Option<string>, roles: seq<string>)

  /** Scope fields of a principal, all present or all absent. */
  predicate Scoped(u: User) {
    u.companyId.Some? && u.teamId.Some? && u.projectId.Some?
  }

  predicate Unscoped(u: User) {
    u.companyId.None? && u.teamId.None? && u.projectId.None?
  }

  /** ASCII lower-casing, as `str.lower` does on ASCII text. */
  function LowerChar(c: char): (r: char) {
    if 'A' <= c <= 'Z' then (c as int + 32) as char else c
  }

  function Lower(s: string): (r: string) {
    seq(|s|, i requires 0 <= i < |s| => LowerChar(s[i]))
  }

  /** `payload.get("roles", [])`. */
  function RolesOf(p: Claims): (r: seq<string>) {
    if p.roles.Some? then p.roles.value else []
  }

  /** The claims a non-owner token must carry, in the order they are checked. */
  const RequiredFields: seq<string> := ["user_id", "team_id", "project_id", "company_id"]

  /** `name in payload`, for the claims that can be required. */
  predicate HasClaim(p: Claims, name: string) {
    if name == "user_id" then p.userId.Some?
    else if name == "team_id" then p.teamId.Some?
    else if name == "project_id" then p.projectId.Some?
    else if name == "company_id" then p.companyId.Some?
    else false
  }

  /** The first of `fields` that the payload lacks, if any. */
  function FirstMissing(p: Claims, fields: seq<string>): (r: Option<string>)
    ensures r.None? <==> forall i :: 0 <= i < |fields| ==> HasClaim(p, fields[i])
    ensures r.Some? ==> exists i :: 0 <= i < |fields| && fields[i] == r.value
                                    && !HasClaim(p, fields[i])
                                    && forall j :: 0 <= j < i ==> HasClaim(p, fields[j])
  {
    if |fields| == 0 then None
    else if !HasClaim(p, fields[0]) then Some(fields[0])
    else
      var r := FirstMissing(p, fields[1..]);
      if r.Some? then
        ghost var i :| 0 <= i < |fields[1..]| && fields[1..][i] == r.value
                       && !HasClaim(p, fields[1..][i])
                       && forall j :: 0 <= j < i ==> HasClaim(p, fields[1..][j]);
        assert fields[i + 1] == r.value;
        r
      else
        r
  }

  /** The principal built from decoded claims (the body of the `try` block). */
  function Principal(p: Claims): (r: Result<User>)
    // every principal is either the unscoped owner or fully scoped without the owner role
    ensures r.Ok? ==> (OWNER in r.value.roles <==> Unscoped(r.value))
    ensures r.Ok? ==> (OWNER !in r.value.roles <==> Scoped(r.value))
    // the owner test runs first, whatever else the payload holds
    ensures OWNER in RolesOf(p) && p.userId.Some? ==>
              r == Ok(User(p.userId.value, None, None, None, [OWNER]))
    ensures OWNER in RolesOf(p) && p.userId.None? ==> r == Err(MalformedClaims)
    // a non-owner token must carry all four fields, copied verbatim
    ensures OWNER !in RolesOf(p) ==>
              (r.Ok? <==> forall i :: 0 <= i < |RequiredFields| ==> HasClaim(p, RequiredFields[i]))
    ensures OWNER !in RolesOf(p) && r.Ok? ==>
              p.userId.Some? && r.value == User(p.userId.value, p.teamId, p.projectId, p.companyId, RolesOf(p))
    ensures OWNER !in RolesOf(p) && r.Err? ==>
              exists i :: 0 <= i < |RequiredFields| && r.reason == MissingClaim(RequiredFields[i])
                          && !HasClaim(p, RequiredFields[i])
                          && forall j :: 0 <= j < i ==> HasClaim(p, RequiredFields[j])
  {
    if OWNER in RolesOf(p) then
      if p.userId.None? then Err(MalformedClaims)
      else Ok(User(p.userId.value, None, None, None, [OWNER]))
    else
      match FirstMissing(p, RequiredFields)
      case Some(f) => Err(MissingClaim(f))
      case None =>
        assert HasClaim(p, RequiredFields[0]) && HasClaim(p, RequiredFields[1]);
        assert HasClaim(p, RequiredFields[2]) && HasClaim(p, RequiredFields[3]);
        Ok(User(p.userId.value, p.teamId, p.projectId, p.companyId, RolesOf(p)))
  }

  /** `get_current_user`: scheme check, then decode, then `Principal`. */
  function GetCurrentUser(creds: Credentials, decode: string -> Option<Claims>): (r: Result<User>)
    ensures Lower(creds.scheme) != BEARER ==> r == Err(InvalidScheme)
    ensures Lower(creds.scheme) == BEARER && decode(creds.token).None? ==> r == Err(InvalidToken)
    ensures Lower(creds.scheme) == BEARER && decode(creds.token).Some? ==>
              r == Principal(decode(creds.token).value)
    ensures r.Ok? ==> Lower(creds.scheme) == BEARER && decode(creds.token).Some?
  {
    if Lower(creds.scheme) != BEARER then Err(InvalidScheme)
    else match decode(creds.token)
      case None => Err(InvalidToken)
      case Some(p) => Principal(p)
  }

  /** The scheme comparison ignores case. */
  lemma SchemeIgnoresCase()
    ensures Lower("Bearer") == BEARER && Lower("BEARER") == BEARER && Lower("bearer") == BEARER
    ensures Lower("Basic") != BEARER
  {
    assert Lower("Basic")[0] == 'b';
  }
}
