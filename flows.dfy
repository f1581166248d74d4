/** Facts that hold across the handlers: what the principals that
    `get_current_user` can produce are able to do in `add_member`,
    `remove_member` and `check_access`, and what a token issued by `login`
    turns into. */
module Flows {
  import opened Common
  import opened Store
  import opened Auth
  import opened Access
  import opened Gate
  import opened Login

  /** An owner principal carries no scope, so it fails the exact-scope check
      for every target: the owner branches of add and remove are unreachable. */
  lemma OwnerPrincipalOutOfScope(creds: Credentials, decode: string -> Option<Claims>,
                                 rows: set<Membership>, userId: string, companyId: string,
                                 teamId: string, projectId: string, role: string)
    requires GetCurrentUser(creds, decode).Ok?
    requires OWNER in GetCurrentUser(creds, decode).value.roles
    ensures var u := GetCurrentUser(creds, decode).value;
            && AddDecision(rows, u, userId, companyId, teamId, projectId, role) == Err(OutOfScope)
            && RemoveDecision(rows, u, userId, companyId, teamId, projectId) == Err(OutOfScope)
  {
    var u := GetCurrentUser(creds, decode).value;
    assert Unscoped(u);
  }

  /** Through the real principal, every row `add_member` inserts is a manager
      or a member row: the owner-exists guard is never reached and no admin
      row is ever created by this path. */
  lemma RealPrincipalsAddOnlyManagersAndMembers(creds: Credentials,
                                                decode: string -> Option<Claims>,
                                                rows: set<Membership>, userId: string,
                                                companyId: string, teamId: string,
                                                projectId: string, role: string)
    requires GetCurrentUser(creds, decode).Ok?
    ensures var r := AddDecision(rows, GetCurrentUser(creds, decode).value, userId, companyId,
                                 teamId, projectId, role);
            && r != Err(OwnerExists)
            && (r.Ok? ==> r.value == MANAGER || r.value == MEMBER)
  {
    var u := GetCurrentUser(creds, decode).value;
    if OWNER in u.roles {
      OwnerPrincipalOutOfScope(creds, decode, rows, userId, companyId, teamId, projectId, role);
    }
  }

  /** A token issued by `login` and decoded intact yields a principal at the
      requested scope with the one stored role. `login` reads its membership
      from the SQL table (`sqlRows`) and `check_access` from the MongoDB
      collection (`mongoRows`): unless the role is owner, the principal passes
      the upload gate as long as every SQL key is also a MongoDB key. */
  lemma LoginTokenAuthenticates(users: set<Account>, sqlRows: set<Membership>,
                                mongoRows: set<Membership>, req: LoginRequest, now: int,
                                checkpw: (string, string) -> bool,
                                encode: Claims -> string, decode: string -> Option<Claims>)
    requires AccountsUnique(users) && KeysUnique(sqlRows)
    requires LoginClaims(users, sqlRows, req, now, checkpw).Ok?
    requires var claims := LoginClaims(users, sqlRows, req, now, checkpw).value;
             decode(encode(claims)) == Some(claims)
    requires KeySet(sqlRows) <= KeySet(mongoRows)
    ensures var claims := LoginClaims(users, sqlRows, req, now, checkpw).value;
            var u := GetCurrentUser(Credentials("Bearer", encode(claims)), decode);
            && u.Ok?
            && u.value.userId == claims.userId.value
            && u.value.roles == claims.roles.value
            && |u.value.roles| == 1
            && (u.value.roles == [OWNER] ==> Unscoped(u.value))
            && (u.value.roles != [OWNER] ==>
                  && u.value.companyId == Some(req.companyId)
                  && u.value.teamId == Some(req.teamId)
                  && u.value.projectId == Some(req.projectId)
                  && CheckAccess(mongoRows, u.value) == Ok(()))
  {
    var claims := LoginClaims(users, sqlRows, req, now, checkpw).value;
    assert Lower("Bearer") == BEARER;
    var a, m :| a in users && a.email == req.email && checkpw(req.password, a.passwordHash)
                && m in sqlRows
                && m.Key() == MemberKey(a.userId, req.companyId, req.teamId, req.projectId)
                && claims == Claims(Some(a.userId), Some(req.companyId), Some(req.teamId),
                                    Some(req.projectId), Some([m.role]), Some(now + TOKEN_LIFETIME));
    var u := GetCurrentUser(Credentials("Bearer", encode(claims)), decode);
    if m.role != OWNER {
      assert OWNER !in RolesOf(claims);
      assert forall i :: 0 <= i < |RequiredFields| ==> HasClaim(claims, RequiredFields[i]);
      assert m.Key() in KeySet(mongoRows);
      var n :| n in mongoRows && n.Key() == m.Key();
      assert MatchesPrincipal(n, u.value);
    }
  }

  /** The converse for the stores as the handlers leave them: `add_member`
      writes only the SQL table and nothing writes the MongoDB collection, so a
      manager or member who logs in is refused at the upload gate whenever the
      collection lacks its key, in particular when it is empty. */
  lemma LoginTokenRefusedWithoutMongoRow(users: set<Account>, sqlRows: set<Membership>,
                                         mongoRows: set<Membership>, req: LoginRequest, now: int,
                                         checkpw: (string, string) -> bool,
                                         encode: Claims -> string,
                                         decode: string -> Option<Claims>)
    requires AccountsUnique(users) && KeysUnique(sqlRows)
    requires LoginClaims(users, sqlRows, req, now, checkpw).Ok?
    requires var claims := LoginClaims(users, sqlRows, req, now, checkpw).value;
             decode(encode(claims)) == Some(claims)
    requires var claims := LoginClaims(users, sqlRows, req, now, checkpw).value;
             !KeyTaken(mongoRows, MemberKey(claims.userId.value, req.companyId, req.teamId, req.projectId))
    ensures var claims := LoginClaims(users, sqlRows, req, now, checkpw).value;
            var u := GetCurrentUser(Credentials("Bearer", encode(claims)), decode);
            && u.Ok?
            && (ADMIN !in u.value.roles && OWNER !in u.value.roles ==>
                  CheckAccess(mongoRows, u.value) == Err(AccessDenied))
  {
    var claims := LoginClaims(users, sqlRows, req, now, checkpw).value;
    LoginTokenAuthenticates(users, sqlRows, sqlRows, req, now, checkpw, encode, decode);
  }
}
