/** Granting and revoking memberships (`/add-member`, `/remove-member`).
    The role chain is owner -> admin -> manager -> member: an actor may add or
    remove only the immediate child of the highest of owner, admin, manager it
    holds, and only inside its own exact (company, team, project) scope. */
module Access {
  import opened Common
  import opened Store
  import opened Auth

  /** `ensure_same_scope`: the actor must sit in exactly the target scope. */
  function EnsureSameScope(current: User, companyId: string, teamId: string,
                           projectId: string): (r: Result<()>)
    ensures r.Ok? <==> current.companyId == Some(companyId) && current.teamId == Some(teamId)
                       && current.projectId == Some(projectId)
    ensures r.Err? ==> r.reason == OutOfScope
    ensures !Scoped(current) ==> r == Err(OutOfScope)
  {
    if current.companyId != Some(companyId) || current.teamId != Some(teamId)
       || current.projectId != Some(projectId)
    then Err(OutOfScope)
    else Ok(())
  }

  /** Position of a role in the chain; -1 for a string that is no role. */
  function Rank(role: string): (r: int) {
    if role == OWNER then 3
    else if role == ADMIN then 2
    else if role == MANAGER then 1
    else if role == MEMBER then 0
    else -1
  }

  /** The hierarchy edges owner -> admin, admin -> manager, manager -> member. */
  predicate IsChild(parent: string, child: string) {
    Rank(parent) >= 1 && Rank(child) == Rank(parent) - 1
  }

  /** The one role an actor may add or remove: the child of the highest
      managing role it holds (owner before admin before manager). */
  function ChildRole(roles: seq<string>): (r: Option<string>)
    ensures r.Some? <==> exists h :: h in roles && Rank(h) >= 1
    ensures r.Some? ==> exists h :: h in roles && IsChild(h, r.value)
                                    && forall g :: g in roles ==> Rank(g) <= Rank(h)
    ensures r.Some? ==> r.value != OWNER
  {
    if OWNER in roles then Some(ADMIN)
    else if ADMIN in roles then Some(MANAGER)
    else if MANAGER in roles then Some(MEMBER)
    else None
  }

  /** True iff an owner row exists for this exact company/team/project. */
  predicate OwnerRowExists(rows: set<Membership>, companyId: string, teamId: string,
                           projectId: string)
  {
    exists m :: m in rows && m.companyId == companyId && m.teamId == teamId
                && m.projectId == projectId && m.role == OWNER
  }

  /** The owner rows of a table. */
  function OwnerRows(rows: set<Membership>): (r: set<Membership>) {
    set m | m in rows && m.role == OWNER
  }

  /** What `add_member` decides: the role to insert, or why it refuses. */
  function AddDecision(rows: set<Membership>, current: User, userId: string, companyId: string,
                       teamId: string, projectId: string, role: string): (r: Result<string>)
    // the checks run in order: scope, role name, privilege
    ensures EnsureSameScope(current, companyId, teamId, projectId).Err? ==> r == Err(OutOfScope)
    ensures EnsureSameScope(current, companyId, teamId, projectId).Ok? && role !in ValidRoles ==>
              r == Err(InvalidRole)
    ensures (&& EnsureSameScope(current, companyId, teamId, projectId).Ok? && role in ValidRoles
             && forall h :: h in current.roles ==> Rank(h) < 1) ==> r == Err(NotPrivileged)
    // an accepted role is the requested one and the child of the actor's highest role
    ensures r.Ok? ==> r.value == role && ChildRole(current.roles) == Some(role) && role != OWNER
    ensures r.Ok? ==> EnsureSameScope(current, companyId, teamId, projectId).Ok?
    // the per-project owner guard applies to owner actors only
    ensures r.Ok? && OWNER in current.roles ==>
              !OwnerRowExists(rows, companyId, teamId, projectId)
    ensures r == Err(OwnerExists) ==> OWNER in current.roles
    // a taken key is never inserted again
    ensures KeyTaken(rows, MemberKey(userId, companyId, teamId, projectId)) ==> r.Err?
    // a role other than the actor's child role is refused (403)
    ensures (&& EnsureSameScope(current, companyId, teamId, projectId).Ok? && role in ValidRoles
             && ChildRole(current.roles).Some? && ChildRole(current.roles) != Some(role))
            ==> r == Err(CannotAssign)
    // an owner actor is refused while the project has an owner row (400)
    ensures (&& EnsureSameScope(current, companyId, teamId, projectId).Ok?
             && ChildRole(current.roles) == Some(role) && OWNER in current.roles
             && OwnerRowExists(rows, companyId, teamId, projectId))
            ==> r == Err(OwnerExists)
    // past the role checks, a taken key is refused as a duplicate (400)
    ensures (&& EnsureSameScope(current, companyId, teamId, projectId).Ok?
             && ChildRole(current.roles) == Some(role)
             && (OWNER in current.roles ==> !OwnerRowExists(rows, companyId, teamId, projectId))
             && KeyTaken(rows, MemberKey(userId, companyId, teamId, projectId)))
            ==> r == Err(AlreadyMember)
    // and when every check passes the requested role is accepted
    ensures (&& EnsureSameScope(current, companyId, teamId, projectId).Ok?
             && ChildRole(current.roles) == Some(role)
             && (OWNER in current.roles ==> !OwnerRowExists(rows, companyId, teamId, projectId))
             && !KeyTaken(rows, MemberKey(userId, companyId, teamId, projectId)))
            ==> r == Ok(role)
  {
    if EnsureSameScope(current, companyId, teamId, projectId).Err? then Err(OutOfScope)
    else if role !in ValidRoles then Err(InvalidRole)
    else match ChildRole(current.roles)
      case None => Err(NotPrivileged)
      case Some(child) =>
        if role != child then Err(CannotAssign)
        else if OWNER in current.roles && OwnerRowExists(rows, companyId, teamId, projectId) then
          Err(OwnerExists)
        else if KeyTaken(rows, MemberKey(userId, companyId, teamId, projectId)) then
          Err(AlreadyMember)
        else Ok(role)
  }

  /** `add_member`: check, then insert one row. */
  method AddMember(db: Database, current: User, userId: string, companyId: string,
                   teamId: string, projectId: string, role: string) returns (r: Result<string>)
    requires db.Valid()
    modifies db
    ensures db.Valid()
    ensures r == AddDecision(old(db.memberships), current, userId, companyId, teamId, projectId, role)
    ensures db.memberships == if r.Ok? then old(db.memberships) + {Membership(userId, companyId, teamId, projectId, role)}
                              else old(db.memberships)
    ensures db.users == old(db.users)
  {
    var scope := EnsureSameScope(current, companyId, teamId, projectId);
    if scope.Err? {
      return Err(scope.reason);
    }
    if role !in ValidRoles {
      return Err(InvalidRole);
    }
    var userRoles := current.roles;
    var assignedRole;
    if OWNER in userRoles {
      if role != ADMIN {
        return Err(CannotAssign);
      }
      assignedRole := ADMIN;
      var existingOwner := OwnerRowExists(db.memberships, companyId, teamId, projectId);
      if existingOwner {
        return Err(OwnerExists);
      }
    } else if ADMIN in userRoles {
      if role != MANAGER {
        return Err(CannotAssign);
      }
      assignedRole := MANAGER;
    } else if MANAGER in userRoles {
      if role != MEMBER {
        return Err(CannotAssign);
      }
      assignedRole := MEMBER;
    } else {
      return Err(NotPrivileged);
    }
    var key := MemberKey(userId, companyId, teamId, projectId);
    var existing := KeyTaken(db.memberships, key);
    if existing {
      return Err(AlreadyMember);
    }
    var row := Membership(userId, companyId, teamId, projectId, assignedRole);
    assert row.Key() == key;
    db.memberships := db.memberships + {row};
    r := Ok(assignedRole);
  }

  /** What `remove_member` decides: the row to delete, or why it refuses. */
  ghost function RemoveDecision(rows: set<Membership>, current: User, userId: string,
                                companyId: string, teamId: string, projectId: string)
    : (r: Result<Membership>)
    // the checks run in order: scope, privilege, existence, owner, hierarchy
    ensures EnsureSameScope(current, companyId, teamId, projectId).Err? ==> r == Err(OutOfScope)
    ensures (&& EnsureSameScope(current, companyId, teamId, projectId).Ok?
             && forall h :: h in current.roles ==> Rank(h) < 1) ==> r == Err(NotPrivileged)
    ensures EnsureSameScope(current, companyId, teamId, projectId).Ok?
            && ChildRole(current.roles).Some?
            && !KeyTaken(rows, MemberKey(userId, companyId, teamId, projectId)) ==>
              r == Err(MembershipNotFound)
    // a removed row has the target key and the child role of the actor's highest role
    ensures r.Ok? ==> r.value in rows && r.value.Key() == MemberKey(userId, companyId, teamId, projectId)
    ensures r.Ok? ==> r.value.role != OWNER && ChildRole(current.roles) == Some(r.value.role)
    // past scope and privilege, the row at the target key decides: an owner
    // row is permanent, a row of the actor's child role is removed, any other
    // row is refused
    ensures (&& KeysUnique(rows) && EnsureSameScope(current, companyId, teamId, projectId).Ok?
             && ChildRole(current.roles).Some?) ==>
              forall m :: (m in rows && m.Key() == MemberKey(userId, companyId, teamId, projectId)
                           && m.role == OWNER) ==> r == Err(OwnerPermanent)
    ensures (KeysUnique(rows) && EnsureSameScope(current, companyId, teamId, projectId).Ok?) ==>
              forall m :: (&& m in rows && m.Key() == MemberKey(userId, companyId, teamId, projectId)
                           && m.role != OWNER && ChildRole(current.roles) == Some(m.role)) ==> r == Ok(m)
    ensures (&& KeysUnique(rows) && EnsureSameScope(current, companyId, teamId, projectId).Ok?
             && ChildRole(current.roles).Some?) ==>
              forall m :: (&& m in rows && m.Key() == MemberKey(userId, companyId, teamId, projectId)
                           && m.role != OWNER && ChildRole(current.roles) != Some(m.role))
                          ==> r == Err(CannotRemove)
  {
    var key := MemberKey(userId, companyId, teamId, projectId);
    if EnsureSameScope(current, companyId, teamId, projectId).Err? then Err(OutOfScope)
    else if ChildRole(current.roles).None? then Err(NotPrivileged)
    else if !KeyTaken(rows, key) then Err(MembershipNotFound)
    else
      var target :| target in rows && target.Key() == key;
      if target.role == OWNER then Err(OwnerPermanent)
      else if Some(target.role) != ChildRole(current.roles) then Err(CannotRemove)
      else Ok(target)
  }

  /** `remove_member`: check, then delete the row with the target key. */
  method RemoveMember(db: Database, current: User, userId: string, companyId: string,
                      teamId: string, projectId: string) returns (r: Result<Membership>)
    requires db.Valid()
    modifies db
    ensures db.Valid()
    ensures r == RemoveDecision(old(db.memberships), current, userId, companyId, teamId, projectId)
    ensures db.memberships == if r.Ok? then old(db.memberships) - {r.value} else old(db.memberships)
    ensures db.users == old(db.users)
  {
    var scope := EnsureSameScope(current, companyId, teamId, projectId);
    if scope.Err? {
      return Err(scope.reason);
    }
    var userRoles := current.roles;
    if OWNER !in userRoles && ADMIN !in userRoles && MANAGER !in userRoles {
      return Err(NotPrivileged);
    }
    var key := MemberKey(userId, companyId, teamId, projectId);
    var found := KeyTaken(db.memberships, key);
    if !found {
      return Err(MembershipNotFound);
    }
    var target :| target in db.memberships && target.Key() == key;
    var targetRole := target.role;
    if targetRole == OWNER {
      return Err(OwnerPermanent);
    }
    if OWNER in userRoles {
      if targetRole != ADMIN {
        return Err(CannotRemove);
      }
    } else if ADMIN in userRoles {
      if targetRole != MANAGER {
        return Err(CannotRemove);
      }
    } else if MANAGER in userRoles {
      if targetRole != MEMBER {
        return Err(CannotRemove);
      }
    }
    ghost var before := db.memberships;
    db.memberships := set m | m in db.memberships && m.Key() != key;
    assert db.memberships == before - {target};
    r := Ok(target);
  }

  /** A successful add keeps the key unique and creates no owner row. */
  lemma AddKeepsInvariants(rows: set<Membership>, current: User, userId: string,
                           companyId: string, teamId: string, projectId: string, role: string)
    requires KeysUnique(rows)
    requires AddDecision(rows, current, userId, companyId, teamId, projectId, role).Ok?
    ensures KeysUnique(rows + {Membership(userId, companyId, teamId, projectId, role)})
    ensures OwnerRows(rows + {Membership(userId, companyId, teamId, projectId, role)}) == OwnerRows(rows)
  {
    var row := Membership(userId, companyId, teamId, projectId, role);
    assert !KeyTaken(rows, row.Key());
    assert row !in OwnerRows(rows + {row});
  }

  /** A successful removal keeps the key unique and never removes an owner row. */
  lemma RemoveKeepsInvariants(rows: set<Membership>, current: User, userId: string,
                              companyId: string, teamId: string, projectId: string)
    requires KeysUnique(rows)
    requires RemoveDecision(rows, current, userId, companyId, teamId, projectId).Ok?
    ensures var gone := RemoveDecision(rows, current, userId, companyId, teamId, projectId).value;
            KeysUnique(rows - {gone}) && OwnerRows(rows - {gone}) == OwnerRows(rows)
  {
  }

  /** Adding the same membership twice: the second call finds the key taken. */
  lemma AddTwiceRejected(rows: set<Membership>, current: User, userId: string,
                         companyId: string, teamId: string, projectId: string, role: string)
    requires AddDecision(rows, current, userId, companyId, teamId, projectId, role).Ok?
    ensures AddDecision(rows + {Membership(userId, companyId, teamId, projectId, role)}, current,
                        userId, companyId, teamId, projectId, role) == Err(AlreadyMember)
  {
    var row := Membership(userId, companyId, teamId, projectId, role);
    assert row.Key() == MemberKey(userId, companyId, teamId, projectId);
    assert OwnerRowExists(rows + {row}, companyId, teamId, projectId)
           == OwnerRowExists(rows, companyId, teamId, projectId);
  }

  /** The actor that added a membership may remove it again, which restores the table. */
  lemma AddThenRemove(rows: set<Membership>, current: User, userId: string,
                      companyId: string, teamId: string, projectId: string, role: string)
    requires KeysUnique(rows)
    requires AddDecision(rows, current, userId, companyId, teamId, projectId, role).Ok?
    ensures var row := Membership(userId, companyId, teamId, projectId, role);
            && RemoveDecision(rows + {row}, current, userId, companyId, teamId, projectId) == Ok(row)
            && (rows + {row}) - {row} == rows
  {
    var row := Membership(userId, companyId, teamId, projectId, role);
    assert row.Key() == MemberKey(userId, companyId, teamId, projectId);
    assert !KeyTaken(rows, row.Key());
    assert KeyTaken(rows + {row}, row.Key());
    AddKeepsInvariants(rows, current, userId, companyId, teamId, projectId, role);
  }
}
