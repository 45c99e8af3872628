/**
 * The identity store the account workflow runs against: the framework's
 * UserManager and RoleManager over the user, membership and role tables.
 * Its state is a `Db` value; every call is appended to a log together with
 * its outcome, and whether a call succeeds, fails with error descriptions
 * or throws is decided by an oracle the store is created with. Password
 * hashing, token generation and validation belong to the framework and
 * are abstracted: passwords are stored as given, tokens come from a
 * function of the call number.
 */
module Identity {
  import opened Wrappers
  import opened Linq

  type UserId = string
  type RoleName = string

  /** ApplicationUser: the identity fields plus the optional line manager. */
  datatype User = User(
    id: UserId,
    userName: string,
    email: string,
    phoneNumber: string,
    jobTitle: string,
    managerId: Option<UserId>)

  /** A call on the store, with the arguments the workflow passes. */
  datatype Call =
    | Create(user: User, password: string)
    | FindByName(userName: string)
    | FindById(userId: UserId)
    | Update(user: User)
    | Delete(userId: UserId)
    | GetRoles(userId: UserId)
    | AddToRoles(userId: UserId, roles: seq<RoleName>)
    | RemoveFromRoles(userId: UserId, roles: seq<RoleName>)
    | CheckPassword(userId: UserId, password: string)
    | AccessFailed(userId: UserId)
    | GeneratePasswordResetToken(userId: UserId)
    | ResetPassword(userId: UserId, token: string, newPassword: string)
    | ChangePassword(userId: UserId, currentPassword: string, newPassword: string)
    | CreateRole(roleName: RoleName)

  /** How a call ended: an IdentityResult that succeeded, one that failed with error descriptions, or an exception. */
  datatype Outcome = Succeeded | Failed(errors: seq<string>) | Threw

  /** One entry of the call log. */
  datatype Step = Step(call: Call, outcome: Outcome)

  /** Error descriptions the store itself produces when it refuses a call. */
  const DuplicateUserName: string := "DuplicateUserName"
  const DuplicateRoleName: string := "DuplicateRoleName"
  const ConcurrencyFailure: string := "ConcurrencyFailure"
  const PasswordMismatch: string := "PasswordMismatch"
  const UserAlreadyInRole: string := "UserAlreadyInRole"

  /**
   * The outcome of a state-changing call: what the oracle decided, except
   * that a call the oracle lets through is still refused with `refusal`'s
   * errors when it would break the store's own rules.
   */
  function Settle(decided: Outcome, refusal: Option<seq<string>>): (o: Outcome)
    ensures o.Threw? <==> decided.Threw?
    ensures o.Succeeded? <==> decided.Succeeded? && refusal.None?
    ensures o.Failed? && decided.Succeeded? ==> o.errors == refusal.value
  {
    if decided.Succeeded? && refusal.Some? then Failed(refusal.value) else decided
  }

  /** The outcome of a call that only reads: it returns, or it throws. */
  function Answer(decided: Outcome): (o: Outcome)
    ensures o.Threw? <==> decided.Threw?
    ensures !o.Failed?
  {
    if decided.Threw? then Threw else Succeeded
  }

  /**
   * AddToRolesAsync's checks, name by name in the order given: the first
   * name the user already holds (`held`) fails the call with
   * UserAlreadyInRole, and the first one missing from the role table
   * (`known`) makes it throw. Succeeded means every name passed.
   */
  function RoleCheck(names: seq<RoleName>, held: seq<RoleName>, known: set<RoleName>): (o: Outcome)
    ensures o.Succeeded? <==> forall n :: n in names ==> n !in held && n in known
    ensures o.Failed? ==> o.errors == [UserAlreadyInRole] && exists n :: n in names && n in held
    ensures o.Threw? ==> exists n :: n in names && n !in known
    decreases |names|
  {
    if names == [] then Succeeded
    else if names[0] in held then Failed([UserAlreadyInRole])
    else if names[0] !in known then Threw
    else
      var rest := RoleCheck(names[1..], held, known);
      assert forall n :: n in names <==> n == names[0] || n in names[1..];
      rest
  }

  /** The name index lists exactly the users' names, each pointing at its user. */
  predicate Indexed(users: map<UserId, User>, byName: map<string, UserId>) {
    && (forall id :: id in users ==> users[id].userName in byName && byName[users[id].userName] == id)
    && (forall n :: n in byName ==> byName[n] in users && users[byName[n]].userName == n)
  }

  /** Filing a user under a free id and a free name keeps the index. */
  lemma IndexedInsert(users: map<UserId, User>, byName: map<string, UserId>, u: User)
    requires Indexed(users, byName) && u.id !in users && u.userName !in byName
    ensures Indexed(users[u.id := u], byName[u.userName := u.id])
  {
  }

  /** Replacing a user's record, with a name nobody else has, keeps the index. */
  lemma IndexedReplace(users: map<UserId, User>, byName: map<string, UserId>, u: User)
    requires Indexed(users, byName) && u.id in users && (u.userName in byName ==> byName[u.userName] == u.id)
    ensures Indexed(users[u.id := u], (byName - {users[u.id].userName})[u.userName := u.id])
  {
  }

  /** Removing a user and its name keeps the index. */
  lemma IndexedRemove(users: map<UserId, User>, byName: map<string, UserId>, id: UserId)
    requires Indexed(users, byName) && id in users
    ensures Indexed(users - {id}, byName - {users[id].userName})
  {
  }

  /**
   * The store's tables: users by id, the user-name index, each user's role
   * names, stored passwords, failed-access counters and the role table.
   */
  datatype Db = Db(
    users: map<UserId, User>,
    byName: map<string, UserId>,
    roles: map<UserId, seq<RoleName>>,
    passwords: map<UserId, string>,
    failedAccess: map<UserId, nat>,
    roleNames: set<RoleName>)
  {
    /**
     * Every table is keyed by the same users, a user is filed under its own
     * id, the name index lists exactly the users' names, each pointing at
     * its user (so user names are unique), nobody holds a role twice, and
     * every role held is in the role table.
     */
    ghost predicate Valid() {
      && (forall id :: id in roles <==> id in users)
      && (forall id :: id in passwords <==> id in users)
      && (forall id :: id in failedAccess <==> id in users)
      && (forall id :: id in users ==> users[id].id == id)
      && Indexed(users, byName)
      && (forall id :: id in roles ==> NoDups(roles[id]))
      && (forall id, n :: id in roles && n in roles[id] ==> n in roleNames)
    }

    /** Every name is in the role table. */
    predicate HasRoles(names: seq<RoleName>) {
      forall n :: n in names ==> n in roleNames
    }

    /** Some user has this user name. */
    predicate HasUserNamed(name: string) {
      name in byName
    }

    /** Some user other than `except` already has this user name. */
    predicate NameTaken(name: string, except: UserId) {
      name in byName && byName[name] != except
    }

    /** A new user with no roles and no failed attempts. */
    function Insert(u: User, password: string): (d: Db)
      requires Valid() && u.id !in users && !NameTaken(u.userName, u.id)
      ensures d.Valid()
      ensures d.users == users[u.id := u] && d.roles[u.id] == [] && d.roleNames == roleNames
    {
      IndexedInsert(users, byName, u);
      this.(users := users[u.id := u], byName := byName[u.userName := u.id], roles := roles[u.id := []],
            passwords := passwords[u.id := password], failedAccess := failedAccess[u.id := 0])
    }

    /** The user's record replaced; memberships, password and counter kept. */
    function Replace(u: User): (d: Db)
      requires Valid() && u.id in users && !NameTaken(u.userName, u.id)
      ensures d.Valid()
      ensures d.users == users[u.id := u] && d.roles == roles
    {
      IndexedReplace(users, byName, u);
      this.(users := users[u.id := u], byName := (byName - {users[u.id].userName})[u.userName := u.id])
    }

    /** The user and every row that belongs to it removed. */
    function Remove(id: UserId): (d: Db)
      requires Valid()
      ensures d.Valid()
      ensures d.users == users - {id} && d.roles == roles - {id}
      ensures d.passwords == passwords - {id} && d.failedAccess == failedAccess - {id} && d.roleNames == roleNames
    {
      var names := if id in users then IndexedRemove(users, byName, id); byName - {users[id].userName} else byName;
      this.(users := users - {id}, byName := names, roles := roles - {id},
            passwords := passwords - {id}, failedAccess := failedAccess - {id})
    }

    /** The named roles granted: those the user lacks are appended, once each. */
    function Grant(id: UserId, names: seq<RoleName>): (d: Db)
      requires Valid() && id in users && HasRoles(names)
      ensures d.Valid()
      ensures d.users == users && d.roleNames == roleNames
      ensures forall other :: other in roles && other != id ==> d.roles[other] == roles[other]
      ensures Members(d.roles[id]) == Members(roles[id]) + Members(names)
    {
      var added := Except(names, roles[id]);
      NoDupsAppend(roles[id], added);
      MembersAppend(roles[id], added);
      assert forall n :: n in roles[id] + added ==> n in Members(roles[id]) || n in Members(names);
      this.(roles := roles[id := roles[id] + added])
    }

    /** The named roles withdrawn; the rest keep their order. */
    function Revoke(id: UserId, names: seq<RoleName>): (d: Db)
      requires Valid() && id in users
      ensures d.Valid()
      ensures d.users == users && d.roleNames == roleNames
      ensures forall other :: other in roles && other != id ==> d.roles[other] == roles[other]
      ensures Members(d.roles[id]) == Members(roles[id]) - Members(names)
    {
      var kept := Without(roles[id], Members(names));
      assert forall n :: n in kept ==> n in Members(kept);
      this.(roles := roles[id := kept])
    }

    /** A new stored password. */
    function SetPassword(id: UserId, password: string): (d: Db)
      requires Valid() && id in users
      ensures d.Valid()
      ensures d.users == users && d.roles == roles && id in d.passwords && d.passwords[id] == password
    {
      this.(passwords := passwords[id := password])
    }

    /** One more failed access attempt counted. */
    function CountFailure(id: UserId): (d: Db)
      requires Valid() && id in users
      ensures d.Valid()
      ensures d.users == users && d.roles == roles && d.passwords == passwords && d.roleNames == roleNames
      ensures id in d.failedAccess && d.failedAccess[id] == failedAccess[id] + 1
      ensures forall other :: other in users && other != id ==> d.failedAccess[other] == failedAccess[other]
    {
      this.(failedAccess := failedAccess[id := failedAccess[id] + 1])
    }
  }

  lemma UpdateThenRemove<K, V>(m: map<K, V>, k: K, v: V)
    requires k !in m
    ensures m[k := v] - {k} == m
  {
  }

  /** Deleting a user just inserted gives the tables back as they were. */
  lemma InsertThenRemove(d: Db, u: User, password: string)
    requires d.Valid() && u.id !in d.users && !d.NameTaken(u.userName, u.id)
    ensures d.Insert(u, password).Remove(u.id) == d
  {
    UpdateThenRemove(d.users, u.id, u);
    UpdateThenRemove(d.byName, u.userName, u.id);
    UpdateThenRemove(d.roles, u.id, []);
    UpdateThenRemove(d.passwords, u.id, password);
    UpdateThenRemove(d.failedAccess, u.id, 0);
  }

  lemma MembersAppend<T>(a: seq<T>, b: seq<T>)
    ensures Members(a + b) == Members(a) + Members(b)
  {
    assert forall x :: x in a + b <==> x in a || x in b;
  }

  lemma NoDupsAppend<T>(a: seq<T>, b: seq<T>)
    requires NoDups(a) && NoDups(b) && Members(a) !! Members(b)
    ensures NoDups(a + b)
  {
    forall i, j | 0 <= i < j < |a + b| ensures (a + b)[i] != (a + b)[j] {
      if i < |a| && j >= |a| {
        assert (a + b)[i] in Members(a) && (a + b)[j] in Members(b);
      }
    }
  }

  /**
   * The store. `decide(n, c)` is the oracle's verdict on call `c` when it is
   * the `n`-th call in the log; `supportsLockout` is the manager's
   * SupportsUserLockout flag; `issueToken(n)` is the reset token the `n`-th
   * call hands out.
   */
  class IdentityStore {
    var db: Db
    var log: seq<Step>
    const decide: (nat, Call) -> Outcome
    const supportsLockout: bool
    const issueToken: nat -> string

    constructor (initial: Db, decide: (nat, Call) -> Outcome, supportsLockout: bool, issueToken: nat -> string)
      requires initial.Valid()
      ensures db == initial && log == []
      ensures this.decide == decide && this.supportsLockout == supportsLockout && this.issueToken == issueToken
    {
      this.db := initial;
      this.log := [];
      this.decide := decide;
      this.supportsLockout := supportsLockout;
      this.issueToken := issueToken;
    }

    /** The oracle's verdict on `c` as the next call. */
    function Next(c: Call): Outcome
      reads this
    {
      decide(|log|, c)
    }

    /**
     * CreateAsync(user, password): refused with DuplicateUserName when
     * another user has the name; otherwise an id already in the table makes
     * the save throw.
     */
    method Create(u: User, password: string) returns (o: Outcome)
      requires db.Valid()
      modifies this
      ensures db.Valid()
      ensures o == if old(db).NameTaken(u.userName, u.id) then Settle(old(Next(Call.Create(u, password))), Some([DuplicateUserName]))
        else if u.id in old(db.users) then Threw
        else old(Next(Call.Create(u, password)))
      ensures log == old(log) + [Step(Call.Create(u, password), o)]
      ensures db == if o.Succeeded? then old(db).Insert(u, password) else old(db)
    {
      var c := Call.Create(u, password);
      o := if db.NameTaken(u.userName, u.id) then Settle(Next(c), Some([DuplicateUserName]))
        else if u.id in db.users then Threw
        else Next(c);
      if o.Succeeded? {
        db := db.Insert(u, password);
      }
      log := log + [Step(c, o)];
    }

    /** FindByNameAsync(name): the user with that name, or null. */
    method FindByName(name: string) returns (o: Outcome, found: Option<User>)
      requires db.Valid()
      modifies this`log
      ensures o == Answer(old(Next(Call.FindByName(name))))
      ensures log == old(log) + [Step(Call.FindByName(name), o)]
      ensures o.Threw? ==> found == None
      ensures o.Succeeded? ==> (found.Some? <==> db.HasUserNamed(name))
      ensures found.Some? ==>
        found.value.id in db.users && db.users[found.value.id] == found.value && found.value.userName == name
    {
      var c := Call.FindByName(name);
      o := Answer(Next(c));
      found := if o.Succeeded? && name in db.byName then Some(db.users[db.byName[name]]) else None;
      log := log + [Step(c, o)];
    }

    /** FindByIdAsync(id): the user with that id, or null. */
    method FindById(id: UserId) returns (o: Outcome, found: Option<User>)
      requires db.Valid()
      modifies this`log
      ensures o == Answer(old(Next(Call.FindById(id))))
      ensures log == old(log) + [Step(Call.FindById(id), o)]
      ensures found == if o.Succeeded? && id in db.users then Some(db.users[id]) else None
    {
      var c := Call.FindById(id);
      o := Answer(Next(c));
      found := if o.Succeeded? && id in db.users then Some(db.users[id]) else None;
      log := log + [Step(c, o)];
    }

    /** UpdateAsync(user): refused for an unknown user or a user name someone else has. */
    method Update(u: User) returns (o: Outcome)
      requires db.Valid()
      modifies this
      ensures db.Valid()
      ensures o == Settle(old(Next(Call.Update(u))),
        if u.id !in old(db.users) then Some([ConcurrencyFailure])
        else if old(db).NameTaken(u.userName, u.id) then Some([DuplicateUserName]) else None)
      ensures log == old(log) + [Step(Call.Update(u), o)]
      ensures o.Succeeded? ==> u.id in old(db.users) && !old(db).NameTaken(u.userName, u.id)
      ensures db == if o.Succeeded? then old(db).Replace(u) else old(db)
    {
      var c := Call.Update(u);
      o := Settle(Next(c),
        if u.id !in db.users then Some([ConcurrencyFailure])
        else if db.NameTaken(u.userName, u.id) then Some([DuplicateUserName]) else None);
      if o.Succeeded? {
        db := db.Replace(u);
      }
      log := log + [Step(c, o)];
    }

    /** DeleteAsync(user): refused for an unknown user. */
    method Delete(id: UserId) returns (o: Outcome)
      requires db.Valid()
      modifies this
      ensures db.Valid()
      ensures o == Settle(old(Next(Call.Delete(id))), if id !in old(db.users) then Some([ConcurrencyFailure]) else None)
      ensures log == old(log) + [Step(Call.Delete(id), o)]
      ensures db == if o.Succeeded? then old(db).Remove(id) else old(db)
    {
      var c := Call.Delete(id);
      o := Settle(Next(c), if id !in db.users then Some([ConcurrencyFailure]) else None);
      if o.Succeeded? {
        db := db.Remove(id);
      }
      log := log + [Step(c, o)];
    }

    /** GetRolesAsync(user): the user's role names, in the order they were granted. */
    method GetRoles(id: UserId) returns (o: Outcome, names: seq<RoleName>)
      requires db.Valid()
      modifies this`log
      ensures o == Answer(old(Next(Call.GetRoles(id))))
      ensures log == old(log) + [Step(Call.GetRoles(id), o)]
      ensures names == if o.Succeeded? && id in db.roles then db.roles[id] else []
    {
      var c := Call.GetRoles(id);
      o := Answer(Next(c));
      names := if o.Succeeded? && id in db.roles then db.roles[id] else [];
      log := log + [Step(c, o)];
    }

    /**
     * AddToRolesAsync(user, names): the names are checked first, see
     * `RoleCheck`; a call that passes them is refused for an unknown user.
     */
    method AddToRoles(id: UserId, names: seq<RoleName>) returns (o: Outcome)
      requires db.Valid()
      modifies this
      ensures db.Valid()
      ensures o == var check := RoleCheck(names, if id in old(db.roles) then old(db.roles[id]) else [], old(db.roleNames));
        if check.Threw? then Threw
        else Settle(old(Next(Call.AddToRoles(id, names))),
          if id !in old(db.users) then Some([ConcurrencyFailure]) else if check.Failed? then Some(check.errors) else None)
      ensures log == old(log) + [Step(Call.AddToRoles(id, names), o)]
      ensures db == if o.Succeeded? then old(db).Grant(id, names) else old(db)
    {
      var c := Call.AddToRoles(id, names);
      var check := RoleCheck(names, if id in db.roles then db.roles[id] else [], db.roleNames);
      o := if check.Threw? then Threw
        else Settle(Next(c), if id !in db.users then Some([ConcurrencyFailure]) else if check.Failed? then Some(check.errors) else None);
      if o.Succeeded? {
        db := db.Grant(id, names);
      }
      log := log + [Step(c, o)];
    }

    /** RemoveFromRolesAsync(user, names): refused for an unknown user. */
    method RemoveFromRoles(id: UserId, names: seq<RoleName>) returns (o: Outcome)
      requires db.Valid()
      modifies this
      ensures db.Valid()
      ensures o == Settle(old(Next(Call.RemoveFromRoles(id, names))), if id !in old(db.users) then Some([ConcurrencyFailure]) else None)
      ensures log == old(log) + [Step(Call.RemoveFromRoles(id, names), o)]
      ensures db == if o.Succeeded? then old(db).Revoke(id, names) else old(db)
    {
      var c := Call.RemoveFromRoles(id, names);
      o := Settle(Next(c), if id !in db.users then Some([ConcurrencyFailure]) else None);
      if o.Succeeded? {
        db := db.Revoke(id, names);
      }
      log := log + [Step(c, o)];
    }

    /** CheckPasswordAsync(user, password): whether the stored password is the given one. */
    method CheckPassword(id: UserId, password: string) returns (o: Outcome, ok: bool)
      requires db.Valid()
      modifies this`log
      ensures o == Answer(old(Next(Call.CheckPassword(id, password))))
      ensures log == old(log) + [Step(Call.CheckPassword(id, password), o)]
      ensures ok <==> o.Succeeded? && id in db.passwords && db.passwords[id] == password
    {
      var c := Call.CheckPassword(id, password);
      o := Answer(Next(c));
      ok := o.Succeeded? && id in db.passwords && db.passwords[id] == password;
      log := log + [Step(c, o)];
    }

    /**
     * AccessFailedAsync(user): counts a failed attempt; refused for an
     * unknown user. Whether it throws is the store's decision, like any
     * other call; the stock UserManager is the store that always throws
     * NotSupportedException here when it has no lockout support.
     */
    method AccessFailed(id: UserId) returns (o: Outcome)
      requires db.Valid()
      modifies this
      ensures db.Valid()
      ensures o == Settle(old(Next(Call.AccessFailed(id))), if id !in old(db.users) then Some([ConcurrencyFailure]) else None)
      ensures log == old(log) + [Step(Call.AccessFailed(id), o)]
      ensures db == if o.Succeeded? then old(db).CountFailure(id) else old(db)
    {
      var c := Call.AccessFailed(id);
      o := Settle(Next(c), if id !in db.users then Some([ConcurrencyFailure]) else None);
      if o.Succeeded? {
        db := db.CountFailure(id);
      }
      log := log + [Step(c, o)];
    }

    /** GeneratePasswordResetTokenAsync(user): a fresh token. */
    method GeneratePasswordResetToken(id: UserId) returns (o: Outcome, token: string)
      requires db.Valid()
      modifies this`log
      ensures o == Answer(old(Next(Call.GeneratePasswordResetToken(id))))
      ensures log == old(log) + [Step(Call.GeneratePasswordResetToken(id), o)]
      ensures token == issueToken(|old(log)|)
    {
      var c := Call.GeneratePasswordResetToken(id);
      o := Answer(Next(c));
      token := issueToken(|log|);
      log := log + [Step(c, o)];
    }

    /** ResetPasswordAsync(user, token, password): the oracle judges the token and the password rules. */
    method ResetPassword(id: UserId, token: string, newPassword: string) returns (o: Outcome)
      requires db.Valid()
      modifies this
      ensures db.Valid()
      ensures o == Settle(old(Next(Call.ResetPassword(id, token, newPassword))), if id !in old(db.users) then Some([ConcurrencyFailure]) else None)
      ensures log == old(log) + [Step(Call.ResetPassword(id, token, newPassword), o)]
      ensures db == if o.Succeeded? then old(db).SetPassword(id, newPassword) else old(db)
    {
      var c := Call.ResetPassword(id, token, newPassword);
      o := Settle(Next(c), if id !in db.users then Some([ConcurrencyFailure]) else None);
      if o.Succeeded? {
        db := db.SetPassword(id, newPassword);
      }
      log := log + [Step(c, o)];
    }

    /** ChangePasswordAsync(user, current, new): refused for an unknown user or a wrong current password. */
    method ChangePassword(id: UserId, currentPassword: string, newPassword: string) returns (o: Outcome)
      requires db.Valid()
      modifies this
      ensures db.Valid()
      ensures o == Settle(old(Next(Call.ChangePassword(id, currentPassword, newPassword))),
        if id !in old(db.users) then Some([ConcurrencyFailure])
        else if old(db.passwords[id]) != currentPassword then Some([PasswordMismatch]) else None)
      ensures log == old(log) + [Step(Call.ChangePassword(id, currentPassword, newPassword), o)]
      ensures db == if o.Succeeded? then old(db).SetPassword(id, newPassword) else old(db)
    {
      var c := Call.ChangePassword(id, currentPassword, newPassword);
      o := Settle(Next(c),
        if id !in db.users then Some([ConcurrencyFailure])
        else if db.passwords[id] != currentPassword then Some([PasswordMismatch]) else None);
      if o.Succeeded? {
        db := db.SetPassword(id, newPassword);
      }
      log := log + [Step(c, o)];
    }

    /** RoleManager.CreateAsync(role): refused when the name is taken. */
    method CreateRole(name: RoleName) returns (o: Outcome)
      requires db.Valid()
      modifies this
      ensures db.Valid()
      ensures o == Settle(old(Next(Call.CreateRole(name))), if name in old(db.roleNames) then Some([DuplicateRoleName]) else None)
      ensures log == old(log) + [Step(Call.CreateRole(name), o)]
      ensures db == if o.Succeeded? then old(db).(roleNames := old(db.roleNames) + {name}) else old(db)
    {
      var c := Call.CreateRole(name);
      o := Settle(Next(c), if name in db.roleNames then Some([DuplicateRoleName]) else None);
      if o.Succeeded? {
        db := db.(roleNames := db.roleNames + {name});
      }
      log := log + [Step(c, o)];
    }
  }
}
