/** Accounts and sessions (`/signup`, `/login`). Password hashing and token
    signing are the bcrypt and JWT libraries' job: they are parameters here
    (`hashpw`, `checkpw`, `encode`), and the random salt of a new hash is an input. */
module Login {
  import opened Common
  import opened Store
  import opened Auth

  datatype SignupRequest = SignupRequest(email: string, password: string, userId: string)

  datatype LoginRequest = LoginRequest(email: string, password: string, companyId: string,
                                       teamId: string, projectId: string)

  datatype TokenResponse = TokenResponse(accessToken: string, tokenType: string)

  /** Lifetime of an issued token: twelve hours, in seconds. */
  const TOKEN_LIFETIME: int := 12 * 60 * 60

  /** True iff an account already uses this email or this user_id. */
  predicate Conflicts(users: set<Account>, email: string, userId: string) {
    exists a :: a in users && (a.email == email || a.userId == userId)
  }

  /** `signup`: refuse a taken email or user_id, otherwise insert one account. */
  method Signup(db: Database, req: SignupRequest, salt: string,
                hashpw: (string, string) -> string) returns (r: Result<Account>)
    requires db.Valid()
    modifies db
    ensures db.Valid()
    ensures r.Err? <==> Conflicts(old(db.users), req.email, req.userId)
    ensures r.Err? ==> r.reason == UserExists
    ensures r.Ok? ==> r.value == Account(req.userId, req.email, hashpw(req.password, salt))
    ensures db.users == if r.Ok? then old(db.users) + {r.value} else old(db.users)
    ensures db.memberships == old(db.memberships)
  {
    var existing := Conflicts(db.users, req.email, req.userId);
    if existing {
      return Err(UserExists);
    }
    var pwdHash := hashpw(req.password, salt);
    var account := Account(req.userId, req.email, pwdHash);
    db.users := db.users + {account};
    r := Ok(account);
  }

  /** True iff some account has this email and the password checks against its hash. */
  predicate PasswordMatches(users: set<Account>, req: LoginRequest,
                            checkpw: (string, string) -> bool)
  {
    exists a :: a in users && a.email == req.email && checkpw(req.password, a.passwordHash)
  }

  /** The claims `login` signs: look the account up by email, check the
      password, then look the membership up by its exact key. */
  ghost function LoginClaims(users: set<Account>, memberships: set<Membership>,
                             req: LoginRequest, now: int,
                             checkpw: (string, string) -> bool): (r: Result<Claims>)
    requires AccountsUnique(users) && KeysUnique(memberships)
    // unknown email and wrong password are the same refusal
    ensures r == Err(BadCredentials) <==> !PasswordMatches(users, req, checkpw)
    ensures r == Err(NoProjectAccess) <==>
              exists a :: a in users && a.email == req.email && checkpw(req.password, a.passwordHash)
                          && !KeyTaken(memberships, MemberKey(a.userId, req.companyId, req.teamId, req.projectId))
    ensures r.Err? ==> r.reason in {BadCredentials, NoProjectAccess}
    // the claims carry the requested scope, the one stored role and a 12-hour expiry
    ensures r.Ok? ==>
              exists a, m :: a in users && a.email == req.email && checkpw(req.password, a.passwordHash)
                             && m in memberships
                             && m.Key() == MemberKey(a.userId, req.companyId, req.teamId, req.projectId)
                             && r.value == Claims(Some(a.userId), Some(req.companyId), Some(req.teamId),
                                                  Some(req.projectId), Some([m.role]),
                                                  Some(now + TOKEN_LIFETIME))
  {
    if !exists a :: a in users && a.email == req.email then Err(BadCredentials)
    else
      var row :| row in users && row.email == req.email;
      if !checkpw(req.password, row.passwordHash) then Err(BadCredentials)
      else
        var key := MemberKey(row.userId, req.companyId, req.teamId, req.projectId);
        if !KeyTaken(memberships, key) then Err(NoProjectAccess)
        else
          var membership :| membership in memberships && membership.Key() == key;
          Ok(Claims(Some(row.userId), Some(req.companyId), Some(req.teamId), Some(req.projectId),
                    Some([membership.role]), Some(now + TOKEN_LIFETIME)))
  }

  /** `login`: the signed claims as a bearer token. */
  ghost function Login(users: set<Account>, memberships: set<Membership>, req: LoginRequest,
                       now: int, checkpw: (string, string) -> bool,
                       encode: Claims -> string): (r: Result<TokenResponse>)
    requires AccountsUnique(users) && KeysUnique(memberships)
    ensures r.Ok? <==> LoginClaims(users, memberships, req, now, checkpw).Ok?
    ensures r.Ok? ==> r.value == TokenResponse(encode(LoginClaims(users, memberships, req, now, checkpw).value),
                                               BEARER)
    ensures r.Err? ==> r.reason == LoginClaims(users, memberships, req, now, checkpw).reason
  {
    match LoginClaims(users, memberships, req, now, checkpw)
    case Err(reason) => Err(reason)
    case Ok(claims) => Ok(TokenResponse(encode(claims), BEARER))
  }

  /** Signing up grants no access: right after signup, login reaches the
      membership lookup and succeeds only through a membership that already
      named this user_id. */
  lemma SignupThenLogin(users: set<Account>, memberships: set<Membership>, req: SignupRequest,
                        salt: string, hashpw: (string, string) -> string,
                        checkpw: (string, string) -> bool,
                        companyId: string, teamId: string, projectId: string, now: int)
    requires AccountsUnique(users) && KeysUnique(memberships)
    requires !Conflicts(users, req.email, req.userId)
    requires checkpw(req.password, hashpw(req.password, salt))
    ensures var added := users + {Account(req.userId, req.email, hashpw(req.password, salt))};
            var login := LoginRequest(req.email, req.password, companyId, teamId, projectId);
            && AccountsUnique(added)
            && (LoginClaims(added, memberships, login, now, checkpw).Ok?
                <==> KeyTaken(memberships, MemberKey(req.userId, companyId, teamId, projectId)))
  {
    var account := Account(req.userId, req.email, hashpw(req.password, salt));
    var added := users + {account};
    var login := LoginRequest(req.email, req.password, companyId, teamId, projectId);
    assert AccountsUnique(added);
    assert forall a :: a in added && a.email == req.email ==> a == account;
    assert PasswordMatches(added, login, checkpw);
  }
}
