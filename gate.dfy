/** The upload gate (`check_access`): owners and admins pass outright, anyone
    else needs a membership row at exactly its own user and scope. */
module Gate {
  import opened Common
  import opened Store
  import opened Auth

  /** The `find_one` filter: every key field equal to the principal's. A
      principal field that is absent matches no stored row. */
  predicate MatchesPrincipal(m: Membership, user: User) {
    && m.userId == user.userId
    && Some(m.companyId) == user.companyId
    && Some(m.teamId) == user.teamId
    && Some(m.projectId) == user.projectId
  }

  function CheckAccess(memberships: set<Membership>, user: User): (r: Result<()>)
    ensures ADMIN in user.roles || OWNER in user.roles ==> r == Ok(())
    ensures r.Ok? <==> || ADMIN in user.roles || OWNER in user.roles
                       || (Scoped(user)
                           && KeyTaken(memberships, MemberKey(user.userId, user.companyId.value,
                                                              user.teamId.value, user.projectId.value)))
    ensures r.Err? ==> r.reason == AccessDenied
  {
    if ADMIN in user.roles || OWNER in user.roles then Ok(())
    else if exists m :: m in memberships && MatchesPrincipal(m, user) then Ok(())
    else Err(AccessDenied)
  }

  /** The keys present in a table. */
  function KeySet(rows: set<Membership>): (r: set<MemberKey>) {
    set m | m in rows :: m.Key()
  }

  /** The role stored on the matching row is never consulted: two tables with
      the same keys give the same answer. */
  lemma RoleNotConsulted(rows1: set<Membership>, rows2: set<Membership>, user: User)
    requires KeySet(rows1) == KeySet(rows2)
    ensures CheckAccess(rows1, user) == CheckAccess(rows2, user)
  {
    if CheckAccess(rows1, user).Ok? && ADMIN !in user.roles && OWNER !in user.roles {
      var m :| m in rows1 && MatchesPrincipal(m, user);
      assert m.Key() in KeySet(rows2);
      var n :| n in rows2 && n.Key() == m.Key();
      assert MatchesPrincipal(n, user);
    }
    if CheckAccess(rows2, user).Ok? && ADMIN !in user.roles && OWNER !in user.roles {
      var n :| n in rows2 && MatchesPrincipal(n, user);
      assert n.Key() in KeySet(rows1);
      var m :| m in rows1 && m.Key() == n.Key();
      assert MatchesPrincipal(m, user);
    }
  }
}
