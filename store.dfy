/** The two tables the handlers read and write: `users` (accounts created by
    signup) and `memberships` (one role per user per exact project scope). */
module Store {

  /** The composite key of a membership: a user inside one exact scope. */
  datatype MemberKey = MemberKey(userId: string, companyId: string, teamId: string, projectId: string)

  /** A row of `memberships`: "this user holds this role inside this exact scope". */
  datatype Membership = Membership(userId: string, companyId: string, teamId: string,
                                   projectId: string, role: string)
  {
    function Key(): (k: MemberKey) {
      MemberKey(userId, companyId, teamId, projectId)
    }
  }

  /** A row of `users`; the generated surrogate `id` column is not modelled. */
  datatype Account = Account(userId: string, email: string, passwordHash: string)

  /** The unique index on (user_id, company_id, team_id, project_id). */
  ghost predicate KeysUnique(rows: set<Membership>) {
    forall a, b :: a in rows && b in rows && a.Key() == b.Key() ==> a == b
  }

  /** The unique indexes on users.email and users.user_id. */
  ghost predicate AccountsUnique(users: set<Account>) {
    && (forall a, b :: a in users && b in users && a.email == b.email ==> a == b)
    && (forall a, b :: a in users && b in users && a.userId == b.userId ==> a == b)
  }

  /** True iff some row has key `k` (the duplicate / existence queries). */
  predicate KeyTaken(rows: set<Membership>, k: MemberKey) {
    exists m :: m in rows && m.Key() == k
  }

  /** The database behind one session: both tables, with their unique indexes. */
  class Database {
    var users: set<Account>
    var memberships: set<Membership>

    /** Empty tables. */
    constructor()
      ensures Valid() && users == {} && memberships == {}
    {
      users := {};
      memberships := {};
    }

    ghost predicate Valid()
      reads this
    {
      KeysUnique(memberships) && AccountsUnique(users)
    }
  }
}
