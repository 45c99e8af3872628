/**
 * AccountManager (Weekday.Data/AccountManager.cs): the provisioning
 * workflow that creates, updates and deletes users and their role
 * memberships through the identity store, with a compensating delete when
 * role assignment fails during creation, and the read-side joins of users
 * to role names.
 */
module Accounts {
  import opened Wrappers
  import opened Linq
  import opened Paging
  import opened Identity

  type RoleId = string

  /** IdentityRole: a role row. */
  datatype Role = Role(id: RoleId, name: RoleName)

  /** A user as the database context returns it: the user and the role ids of its membership rows. */
  datatype UserRow = UserRow(user: User, roleIds: seq<RoleId>)

  /** A result handed back to the caller, or an exception propagating out of the operation. */
  datatype Raisable<T> = Value(value: T) | Raised

  /** The `(bool Succeeded, string[] Errors)` tuple. */
  datatype OpResult = OpResult(succeeded: bool, errors: seq<string>)

  /**
   * The mapping every operation applies to an IdentityResult: success with
   * no errors, or failure with the error descriptions; an exception
   * propagates.
   */
  function Report(o: Outcome): (r: Raisable<OpResult>)
    ensures r.Raised? <==> o.Threw?
    ensures o.Succeeded? ==> r == Value(OpResult(true, []))
    ensures o.Failed? ==> r == Value(OpResult(false, o.errors))
  {
    match o
    case Succeeded => Value(OpResult(true, []))
    case Failed(errors) => Value(OpResult(false, errors))
    case Threw => Raised
  }

  // ---------------------------------------------------------------------
  // Role reconciliation of UpdateUserAsync
  // ---------------------------------------------------------------------

  /** `userRoles.Except(roles)`: the current roles that are not requested, once each. */
  function RolesToRemove(current: seq<RoleName>, requested: seq<RoleName>): (r: seq<RoleName>)
    ensures Members(r) == Members(current) - Members(requested)
    ensures NoDups(r)
  {
    Except(current, requested)
  }

  /** `roles.Except(userRoles).Distinct()`: the requested roles the user lacks, once each. */
  function RolesToAdd(current: seq<RoleName>, requested: seq<RoleName>): (r: seq<RoleName>)
    ensures Members(r) == Members(requested) - Members(current)
    ensures NoDups(r)
  {
    Distinct(Except(requested, current))
  }

  /** A sequence has no members exactly when it is empty. */
  lemma EmptyMembers<T>(s: seq<T>)
    ensures Members(s) == {} <==> s == []
  {
    if s != [] {
      assert s[0] in Members(s);
    }
  }

  /**
   * Removing the roles to remove and adding the roles to add turns the
   * current roles into exactly the requested ones. A removal is needed
   * exactly when the user holds a role not requested, an addition exactly
   * when a requested role is missing.
   */
  lemma ReconcileReachesRequested(current: seq<RoleName>, requested: seq<RoleName>)
    ensures (Members(current) - Members(RolesToRemove(current, requested))) + Members(RolesToAdd(current, requested))
            == Members(requested)
    ensures RolesToRemove(current, requested) == [] <==> Members(current) <= Members(requested)
    ensures RolesToAdd(current, requested) == [] <==> Members(requested) <= Members(current)
  {
    EmptyMembers(RolesToRemove(current, requested));
    EmptyMembers(RolesToAdd(current, requested));
  }

  // ---------------------------------------------------------------------
  // Read side: users joined with role names
  // ---------------------------------------------------------------------

  /** `roles.Where(r => ids.Contains(r.Id)).Select(r => r.Name)`: names of the listed roles whose id is among `ids`, in the roles' order. */
  function NamesFor(roles: seq<Role>, ids: seq<RoleId>): (r: seq<RoleName>)
    ensures |r| <= |roles|
    ensures forall n :: n in r <==> exists k :: 0 <= k < |roles| && roles[k].id in ids && roles[k].name == n
    decreases |roles|
  {
    if roles == [] then []
    else
      var rest := NamesFor(roles[1..], ids);
      assert forall k :: 1 <= k < |roles| ==> roles[k] == roles[1..][k - 1];
      if roles[0].id in ids then [roles[0].name] + rest else rest
  }

  /** `users.SelectMany(u => u.Roles.Select(r => r.RoleId))`: every membership's role id, user by user. */
  function RoleIdsOf(rows: seq<UserRow>): (r: seq<RoleId>)
    ensures forall i, x :: 0 <= i < |rows| && x in rows[i].roleIds ==> x in r
    ensures forall x :: x in r ==> exists i :: 0 <= i < |rows| && x in rows[i].roleIds
    decreases |rows|
  {
    if rows == [] then []
    else
      var rest := RoleIdsOf(rows[1..]);
      assert forall i :: 1 <= i < |rows| ==> rows[i] == rows[1..][i - 1];
      rows[0].roleIds + rest
  }

  /** What a role query filtered by ids returns: the rows of the role table whose id is listed, in table order. */
  function RolesWithIds(table: seq<Role>, ids: seq<RoleId>): (r: seq<Role>)
    ensures forall t :: t in r <==> t in table && t.id in ids
    decreases |table|
  {
    if table == [] then []
    else
      var rest := RolesWithIds(table[1..], ids);
      assert forall t :: t in table <==> t == table[0] || t in table[1..];
      if table[0].id in ids then [table[0]] + rest else rest
  }

  /**
   * GetUserAndRolesAsync(userId): `found` is what GetUserById returned and
   * `filterRoles` is FilterRoles; an unknown user gives null, a known one is
   * paired with the role names FilterRoles gives for its membership ids.
   */
  function GetUserAndRoles(found: Option<UserRow>, filterRoles: seq<RoleId> -> seq<RoleName>): (r: Option<(UserRow, seq<RoleName>)>)
    ensures r.None? <==> found.None?
    ensures r.Some? ==> r.value.0 == found.value && r.value.1 == filterRoles(found.value.roleIds)
  {
    if found.None? then None
    else Some((found.value, filterRoles(found.value.roleIds)))
  }

  /**
   * When FilterRoles gives the names of the role-table rows whose ids it is
   * given, a found user is paired with exactly the names of the roles it is
   * a member of.
   */
  lemma UserAndRolesJoin(found: Option<UserRow>, table: seq<Role>, filterRoles: seq<RoleId> -> seq<RoleName>)
    requires forall ids :: filterRoles(ids) == NamesFor(table, ids)
    ensures var r := GetUserAndRoles(found, filterRoles);
      r.Some? ==> forall n :: n in r.value.1 <==> exists t :: t in table && t.id in found.value.roleIds && t.name == n
  {
    if found.Some? {
      var ids := found.value.roleIds;
      forall n | n in NamesFor(table, ids)
        ensures exists t :: t in table && t.id in ids && t.name == n
      {
        var k :| 0 <= k < |table| && table[k].id in ids && table[k].name == n;
        assert table[k] in table;
      }
      forall t | t in table && t.id in ids
        ensures t.name in NamesFor(table, ids)
      {
        var k :| 0 <= k < |table| && table[k] == t;
      }
    }
  }

  /**
   * GetUsersAndRolesAsync(page, pageSize): `users` is what GetUsers
   * returned, `getRoleFiltered` is GetRoleFiltered. The page of users is
   * cut with the -1 sentinels, the roles of all its memberships are fetched
   * at once, and each user is paired with the names of those roles whose id
   * is among its own memberships.
   */
  function GetUsersAndRoles(users: seq<UserRow>, getRoleFiltered: seq<RoleId> -> seq<Role>, page: Int32, pageSize: Int32): seq<(UserRow, seq<RoleName>)> {
    var usersQuery := Page(users, page, pageSize);
    var roles := getRoleFiltered(RoleIdsOf(usersQuery));
    seq(|usersQuery|, i requires 0 <= i < |usersQuery| => (usersQuery[i], NamesFor(roles, usersQuery[i].roleIds)))
  }

  /** The users listed are the page `Window` selects out of GetUsers' order, one entry per user. */
  lemma UsersAndRolesArePaged(users: seq<UserRow>, getRoleFiltered: seq<RoleId> -> seq<Role>, page: Int32, pageSize: Int32)
    ensures var r := GetUsersAndRoles(users, getRoleFiltered, page, pageSize);
      var w := Window(|users|, page, pageSize);
      && |r| == w.1 - w.0
      && forall i :: 0 <= i < |r| ==> r[i].0 == users[w.0 + i]
  {
    PageIsWindow(users, page, pageSize);
  }

  /**
   * When GetRoleFiltered returns the role-table rows whose ids it is given,
   * each listed user is paired with exactly the names of the roles whose id
   * is among that user's memberships.
   */
  lemma UsersAndRolesJoin(users: seq<UserRow>, table: seq<Role>, getRoleFiltered: seq<RoleId> -> seq<Role>, page: Int32, pageSize: Int32)
    requires forall ids :: getRoleFiltered(ids) == RolesWithIds(table, ids)
    ensures var r := GetUsersAndRoles(users, getRoleFiltered, page, pageSize);
      forall i, n :: 0 <= i < |r| ==>
        (n in r[i].1 <==> exists t :: t in table && t.id in r[i].0.roleIds && t.name == n)
  {
    var usersQuery := Page(users, page, pageSize);
    var ids := RoleIdsOf(usersQuery);
    var roles := getRoleFiltered(ids);
    var r := GetUsersAndRoles(users, getRoleFiltered, page, pageSize);
    forall i | 0 <= i < |r|
      ensures forall n :: n in r[i].1 <==> exists t :: t in table && t.id in r[i].0.roleIds && t.name == n
    {
      var u := usersQuery[i];
      assert r[i] == (u, NamesFor(roles, u.roleIds));
      NamesOfFetchedRoles(table, ids, u.roleIds);
    }
  }

  /**
   * Naming, out of the roles fetched for the ids `all`, those whose id is
   * among `own` gives the names of the table's roles with an id in `own`,
   * as long as every id in `own` was fetched.
   */
  lemma NamesOfFetchedRoles(table: seq<Role>, all: seq<RoleId>, own: seq<RoleId>)
    requires forall x :: x in own ==> x in all
    ensures forall n :: n in NamesFor(RolesWithIds(table, all), own) <==> exists t :: t in table && t.id in own && t.name == n
  {
    var roles := RolesWithIds(table, all);
    forall n | n in NamesFor(roles, own)
      ensures exists t :: t in table && t.id in own && t.name == n
    {
      var k :| 0 <= k < |roles| && roles[k].id in own && roles[k].name == n;
      assert roles[k] in roles;
    }
    forall t | t in table && t.id in own
      ensures t.name in NamesFor(roles, own)
    {
      assert t in roles;
      var k :| 0 <= k < |roles| && roles[k] == t;
    }
  }

  // ---------------------------------------------------------------------
  // The workflow
  // ---------------------------------------------------------------------

  /**
   * What the end of CreateUserAsync does to the user it has just created,
   * from tables `d` to tables `e`, with store calls `steps` and result `r`.
   * `roles == None` is a null list, on which `Distinct()` throws before any
   * call; the catch block deletes the user and raises again. Otherwise the
   * distinct requested roles are added; when that fails the user is
   * deleted and the addition's errors are reported, unless the delete
   * throws.
   */
  ghost predicate AssignedOrUndone(d: Db, e: Db, user: User, roles: Option<seq<RoleName>>, steps: seq<Step>, r: Raisable<OpResult>)
    requires d.Valid() && user.id in d.users
  {
    if roles.None? then
      && |steps| == 1 && steps[0].call == Call.Delete(user.id) && r == Raised
      && e == (if steps[0].outcome.Succeeded? then d.Remove(user.id) else d)
    else
      && |steps| >= 1 && steps[0].call == Call.AddToRoles(user.id, Distinct(roles.value))
      && if steps[0].outcome.Succeeded? then
           && |steps| == 1 && r == Value(OpResult(true, []))
           && d.HasRoles(Distinct(roles.value)) && e == d.Grant(user.id, Distinct(roles.value))
         else
           && |steps| == 2 && steps[1].call == Call.Delete(user.id)
           && e == (if steps[1].outcome.Succeeded? then d.Remove(user.id) else d)
           && r == (if steps[0].outcome.Failed? && !steps[1].outcome.Threw? then Value(OpResult(false, steps[0].outcome.errors)) else Raised)
  }

  /**
   * The rest of CreateUserAsync once the user `user` is in tables `d`: the
   * user is fetched again by name, and when that throws the new user stays
   * without roles; otherwise the fetched user is given its roles or deleted
   * again.
   */
  ghost predicate FetchedAndAssigned(d: Db, e: Db, user: User, roles: Option<seq<RoleName>>, steps: seq<Step>, r: Raisable<OpResult>)
    requires d.Valid() && user.id in d.users
  {
    && |steps| >= 1 && steps[0].call == Call.FindByName(user.userName)
    && if steps[0].outcome.Threw? then
         |steps| == 1 && r == Raised && e == d
       else
         AssignedOrUndone(d, e, user, roles, steps[1..], r)
  }

  /**
   * What CreateUserAsync does from tables `d`: the store creates the user,
   * or its result is passed through; then the rest of the run goes on from
   * the tables with the new user.
   */
  ghost predicate CreateUserRun(d: Db, e: Db, user: User, roles: Option<seq<RoleName>>, password: string, steps: seq<Step>, r: Raisable<OpResult>)
    requires d.Valid()
  {
    && |steps| >= 1 && steps[0].call == Call.Create(user, password)
    && if !steps[0].outcome.Succeeded? then
         |steps| == 1 && r == Report(steps[0].outcome) && e == d
       else
         && user.id !in d.users && !d.NameTaken(user.userName, user.id)
         && FetchedAndAssigned(d.Insert(user, password), e, user, roles, steps[1..], r)
  }

  /** The only successful run of the try block: the roles are given. */
  lemma AssignedSuccess(d: Db, e: Db, user: User, roles: Option<seq<RoleName>>, steps: seq<Step>, r: Raisable<OpResult>)
    requires d.Valid() && user.id in d.users && AssignedOrUndone(d, e, user, roles, steps, r)
    requires r == Value(OpResult(true, []))
    ensures roles.Some? && d.HasRoles(Distinct(roles.value)) && e == d.Grant(user.id, Distinct(roles.value))
  {
  }

  /** CreateUserAsync succeeds only by adding the user with exactly the requested roles, each once. */
  lemma CreateUserSuccess(d: Db, e: Db, user: User, roles: Option<seq<RoleName>>, password: string, steps: seq<Step>, r: Raisable<OpResult>)
    requires d.Valid() && CreateUserRun(d, e, user, roles, password, steps, r)
    requires r == Value(OpResult(true, []))
    ensures roles.Some? && user.id !in d.users
    ensures forall n :: n in roles.value ==> n in d.roleNames
    ensures e.users == d.users[user.id := user]
    ensures user.id in e.roles && Members(e.roles[user.id]) == Members(roles.value) && NoDups(e.roles[user.id])
    ensures forall id :: id in d.users ==> id in e.roles && e.roles[id] == d.roles[id]
    ensures |steps| == 3 && steps[2].call == Call.AddToRoles(user.id, Distinct(roles.value))
  {
    assert steps[0].outcome.Succeeded? && !steps[1].outcome.Threw?;
    assert steps[1..][1..] == steps[2..];
    AssignedSuccess(d.Insert(user, password), e, user, roles, steps[2..], r);
    GrantToNewUser(d, user, password, roles.value);
    GrantToNewUserFrame(d, user, password, Distinct(roles.value));
    KnownWhenDistinctKnown(d.Insert(user, password), roles.value);
  }

  /** An unsuccessful try block ends with the compensating delete. */
  lemma AssignedFailure(d: Db, e: Db, user: User, roles: Option<seq<RoleName>>, steps: seq<Step>, r: Raisable<OpResult>)
    requires d.Valid() && user.id in d.users && AssignedOrUndone(d, e, user, roles, steps, r)
    requires r != Value(OpResult(true, []))
    ensures steps != [] && steps[|steps| - 1].call == Call.Delete(user.id)
    ensures e == if steps[|steps| - 1].outcome.Succeeded? then d.Remove(user.id) else d
  {
  }

  /** A create the store refuses is the only call; its errors are reported and the tables are as they were. */
  lemma CreateUserRefused(d: Db, e: Db, user: User, roles: Option<seq<RoleName>>, password: string, steps: seq<Step>, r: Raisable<OpResult>)
    requires d.Valid() && CreateUserRun(d, e, user, roles, password, steps, r)
    requires !steps[0].outcome.Succeeded?
    ensures |steps| == 1 && e == d
    ensures r == if steps[0].outcome.Failed? then Value(OpResult(false, steps[0].outcome.errors)) else Raised
  {
  }

  /** The rest of a CreateUserAsync that does not succeed leaves the tables as they were exactly when its last call is a delete that succeeds. */
  lemma CreatedThenUndone(d: Db, e: Db, user: User, roles: Option<seq<RoleName>>, password: string, steps: seq<Step>, r: Raisable<OpResult>)
    requires d.Valid() && user.id !in d.users && !d.NameTaken(user.userName, user.id)
    requires FetchedAndAssigned(d.Insert(user, password), e, user, roles, steps, r)
    requires r != Value(OpResult(true, []))
    ensures var last := steps[|steps| - 1];
      e == if last.call == Call.Delete(user.id) && last.outcome.Succeeded? then d else d.Insert(user, password)
  {
    var inserted := d.Insert(user, password);
    if !steps[0].outcome.Threw? {
      var rest := steps[1..];
      AssignedFailure(inserted, e, user, roles, rest, r);
      InsertThenRemove(d, user, password);
      assert steps[|steps| - 1] == rest[|rest| - 1];
      assert e == if rest[|rest| - 1].outcome.Succeeded? then d else inserted;
    }
  }

  /**
   * A CreateUserAsync that does not succeed once the user was created: the
   * tables are as they were exactly when the run ends with a delete of that
   * user that succeeds, and otherwise the new user stays, without roles.
   */
  lemma CreateUserFailure(d: Db, e: Db, user: User, roles: Option<seq<RoleName>>, password: string, steps: seq<Step>, r: Raisable<OpResult>)
    requires d.Valid() && CreateUserRun(d, e, user, roles, password, steps, r)
    requires steps[0].outcome.Succeeded? && r != Value(OpResult(true, []))
    ensures user.id !in d.users && !d.NameTaken(user.userName, user.id)
    ensures var last := steps[|steps| - 1];
      e == if last.call == Call.Delete(user.id) && last.outcome.Succeeded? then d else d.Insert(user, password)
  {
    var rest := steps[1..];
    CreatedThenUndone(d, e, user, roles, password, rest, r);
    assert rest[|rest| - 1] == steps[|steps| - 1];
  }

  /** The addition step of UpdateUserAsync: made only when some roles are to come. */
  ghost predicate RolesAdded(d: Db, e: Db, id: UserId, toAdd: seq<RoleName>, steps: seq<Step>, r: Raisable<OpResult>)
    requires d.Valid() && id in d.users
  {
    if toAdd == [] then
      steps == [] && r == Value(OpResult(true, [])) && e == d
    else
      && |steps| == 1 && steps[0].call == Call.AddToRoles(id, toAdd)
      && r == Report(steps[0].outcome)
      && if steps[0].outcome.Succeeded? then d.HasRoles(toAdd) && e == d.Grant(id, toAdd) else e == d
  }

  /**
   * The role reconciliation of UpdateUserAsync from tables `d`, given the
   * roles `current` it read: the removal, when some are to go, and its
   * failure ends the update; then the addition, when some are to come.
   */
  ghost predicate Reconciled(d: Db, e: Db, id: UserId, current: seq<RoleName>, requested: seq<RoleName>, steps: seq<Step>, r: Raisable<OpResult>)
    requires d.Valid() && id in d.users
  {
    var toRemove := RolesToRemove(current, requested);
    var toAdd := RolesToAdd(current, requested);
    if toRemove == [] then
      RolesAdded(d, e, id, toAdd, steps, r)
    else
      && |steps| >= 1 && steps[0].call == Call.RemoveFromRoles(id, toRemove)
      && if steps[0].outcome.Succeeded? then
           RolesAdded(d.Revoke(id, toRemove), e, id, toAdd, steps[1..], r)
         else
           |steps| == 1 && r == Report(steps[0].outcome) && e == d
  }

  /**
   * The role half of UpdateUserAsync(user, roles) from tables `d`, in which
   * the user record is already updated: nothing with a null role list;
   * otherwise the user's roles are read and reconciled.
   */
  ghost predicate RolesUpdated(d: Db, e: Db, id: UserId, roles: Option<seq<RoleName>>, steps: seq<Step>, r: Raisable<OpResult>)
    requires d.Valid() && id in d.users
  {
    if roles.None? then
      steps == [] && r == Value(OpResult(true, [])) && e == d
    else
      && |steps| >= 1 && steps[0].call == Call.GetRoles(id)
      && if steps[0].outcome.Threw? then
           |steps| == 1 && r == Raised && e == d
         else
           Reconciled(d, e, id, d.roles[id], roles.value, steps[1..], r)
  }

  /**
   * What UpdateUserAsync(user, roles) does from tables `d`: the store's
   * update, whose failure is passed through; then the role half from the
   * updated tables.
   */
  ghost predicate UpdateUserRun(d: Db, e: Db, user: User, roles: Option<seq<RoleName>>, steps: seq<Step>, r: Raisable<OpResult>)
    requires d.Valid()
  {
    && |steps| >= 1 && steps[0].call == Call.Update(user)
    && if !steps[0].outcome.Succeeded? then
         |steps| == 1 && r == Report(steps[0].outcome) && e == d
       else
         && user.id in d.users && !d.NameTaken(user.userName, user.id)
         && RolesUpdated(d.Replace(user), e, user.id, roles, steps[1..], r)
  }

  /** The addition step changes only the user's own role list, and on success adds the listed roles to it. */
  lemma RolesAddedFacts(d: Db, e: Db, id: UserId, toAdd: seq<RoleName>, steps: seq<Step>, r: Raisable<OpResult>)
    requires d.Valid() && id in d.users && RolesAdded(d, e, id, toAdd, steps, r)
    ensures e.Valid() && e.users == d.users
    ensures forall other :: other in d.users && other != id ==> e.roles[other] == d.roles[other]
    ensures r == Value(OpResult(true, [])) ==> Members(e.roles[id]) == Members(d.roles[id]) + Members(toAdd)
  {
    if toAdd == [] {
      assert Members(toAdd) == {};
    }
  }

  /** Whatever its outcome, the reconciliation keeps the tables valid, the user records as they were and other users' roles untouched. */
  lemma ReconciledFrame(d: Db, e: Db, id: UserId, current: seq<RoleName>, requested: seq<RoleName>, steps: seq<Step>, r: Raisable<OpResult>)
    requires d.Valid() && id in d.users && Reconciled(d, e, id, current, requested, steps, r)
    ensures e.Valid() && e.users == d.users
    ensures forall other :: other in d.users && other != id ==> e.roles[other] == d.roles[other]
  {
    var toRemove := RolesToRemove(current, requested);
    var toAdd := RolesToAdd(current, requested);
    if toRemove == [] {
      RolesAddedFacts(d, e, id, toAdd, steps, r);
    } else if steps[0].outcome.Succeeded? {
      RolesAddedFacts(d.Revoke(id, toRemove), e, id, toAdd, steps[1..], r);
    }
  }

  /** A successful reconciliation leaves the user holding exactly the requested roles, each once. */
  lemma ReconciledSuccess(d: Db, e: Db, id: UserId, requested: seq<RoleName>, steps: seq<Step>, r: Raisable<OpResult>)
    requires d.Valid() && id in d.users && Reconciled(d, e, id, d.roles[id], requested, steps, r)
    requires r == Value(OpResult(true, []))
    ensures id in e.roles && Members(e.roles[id]) == Members(requested) && NoDups(e.roles[id])
  {
    var current := d.roles[id];
    var toRemove := RolesToRemove(current, requested);
    var toAdd := RolesToAdd(current, requested);
    ReconciledFrame(d, e, id, current, requested, steps, r);
    ReconcileReachesRequested(current, requested);
    if toRemove == [] {
      RolesAddedFacts(d, e, id, toAdd, steps, r);
    } else {
      RolesAddedFacts(d.Revoke(id, toRemove), e, id, toAdd, steps[1..], r);
    }
  }

  /**
   * A reconciliation that does not succeed stops at the first refused call:
   * a refused removal is the only call and changes nothing; a refused
   * addition comes last and leaves the removal in place.
   */
  lemma ReconciledFailure(d: Db, e: Db, id: UserId, current: seq<RoleName>, requested: seq<RoleName>, steps: seq<Step>, r: Raisable<OpResult>)
    requires d.Valid() && id in d.users && Reconciled(d, e, id, current, requested, steps, r)
    requires r != Value(OpResult(true, []))
    ensures steps != [] && !steps[|steps| - 1].outcome.Succeeded? && r == Report(steps[|steps| - 1].outcome)
    ensures steps[|steps| - 1].call.RemoveFromRoles? ==> |steps| == 1
    ensures e == if |steps| == 1 then d else d.Revoke(id, RolesToRemove(current, requested))
  {
    var toRemove := RolesToRemove(current, requested);
    var toAdd := RolesToAdd(current, requested);
    if toRemove == [] {
      AddedFailure(d, e, id, toAdd, steps, r);
    } else if steps[0].outcome.Succeeded? {
      var rest := steps[1..];
      AddedFailure(d.Revoke(id, toRemove), e, id, toAdd, rest, r);
      assert |steps| == 2 && steps[1] == rest[0];
    } else {
      assert |steps| == 1;
    }
  }

  /** A refused addition step is a single AddToRolesAsync call whose result is passed through, and it changes nothing. */
  lemma AddedFailure(d: Db, e: Db, id: UserId, toAdd: seq<RoleName>, steps: seq<Step>, r: Raisable<OpResult>)
    requires d.Valid() && id in d.users && RolesAdded(d, e, id, toAdd, steps, r)
    requires r != Value(OpResult(true, []))
    ensures |steps| == 1 && steps[0].call == Call.AddToRoles(id, toAdd)
    ensures !steps[0].outcome.Succeeded? && r == Report(steps[0].outcome) && e == d
  {
  }

  /** With a null role list, UpdateUserAsync makes the update call only and leaves every membership as it was. */
  lemma UpdateUserWithoutRoles(d: Db, e: Db, user: User, steps: seq<Step>, r: Raisable<OpResult>)
    requires d.Valid() && UpdateUserRun(d, e, user, None, steps, r)
    ensures |steps| == 1 && steps[0].call == Call.Update(user)
    ensures e.roles == d.roles
  {
  }

  /**
   * UpdateUserAsync succeeds only with the user's record replaced and, when
   * a role list was given, exactly those roles held, each once; without a
   * list the memberships are untouched. Other users' roles never change.
   */
  lemma UpdateUserSuccess(d: Db, e: Db, user: User, roles: Option<seq<RoleName>>, steps: seq<Step>, r: Raisable<OpResult>)
    requires d.Valid() && UpdateUserRun(d, e, user, roles, steps, r)
    requires r == Value(OpResult(true, []))
    ensures user.id in d.users && e.Valid() && e.users == d.users[user.id := user]
    ensures roles.None? ==> e.roles == d.roles
    ensures roles.Some? ==> Members(e.roles[user.id]) == Members(roles.value) && NoDups(e.roles[user.id])
    ensures forall other :: other in d.users && other != user.id ==> e.roles[other] == d.roles[other]
  {
    if roles.Some? {
      var rest := steps[1..];
      assert steps[0].outcome.Succeeded? && !rest[0].outcome.Threw?;
      var replaced := d.Replace(user);
      ReconciledFrame(replaced, e, user.id, replaced.roles[user.id], roles.value, rest[1..], r);
      ReconciledSuccess(replaced, e, user.id, roles.value, rest[1..], r);
    }
  }

  /**
   * When the user already holds exactly the requested roles, UpdateUserAsync
   * reads them and changes no membership: the update and the read are the
   * only calls made, no role is added or removed.
   */
  lemma UpdateUserUnchangedRoles(d: Db, e: Db, user: User, roles: Option<seq<RoleName>>, steps: seq<Step>, r: Raisable<OpResult>)
    requires d.Valid() && UpdateUserRun(d, e, user, roles, steps, r)
    requires roles.Some? && user.id in d.users && Members(d.roles[user.id]) == Members(roles.value)
    ensures |steps| <= 2 && steps[0].call == Call.Update(user)
    ensures steps[0].outcome.Succeeded? ==> |steps| == 2 && steps[1].call == Call.GetRoles(user.id)
    ensures r == if !steps[0].outcome.Succeeded? then Report(steps[0].outcome)
                 else if steps[1].outcome.Threw? then Raised
                 else Value(OpResult(true, []))
    ensures e.roles == d.roles
  {
    if steps[0].outcome.Succeeded? {
      UnchangedRolesRead(d.Replace(user), e, user.id, roles, steps[1..], r);
    }
  }

  /** The role half of UpdateUserAsync for a user already holding exactly the requested roles: one read, and nothing changes. */
  lemma UnchangedRolesRead(d: Db, e: Db, id: UserId, roles: Option<seq<RoleName>>, steps: seq<Step>, r: Raisable<OpResult>)
    requires d.Valid() && id in d.users && RolesUpdated(d, e, id, roles, steps, r)
    requires roles.Some? && Members(d.roles[id]) == Members(roles.value)
    ensures |steps| == 1 && steps[0].call == Call.GetRoles(id) && e == d
    ensures r == if steps[0].outcome.Threw? then Raised else Value(OpResult(true, []))
  {
    if !steps[0].outcome.Threw? {
      ReconcileReachesRequested(d.roles[id], roles.value);
    }
  }

  /**
   * What CheckPasswordAsync(user, password) does from tables `d`: a wrong
   * password is reported as false, except that when the store does not
   * support lockout AccessFailedAsync is called first, and an exception it
   * throws escapes instead.
   */
  ghost predicate CheckPasswordRun(d: Db, e: Db, supportsLockout: bool, user: User, password: string, steps: seq<Step>, r: Raisable<bool>)
    requires d.Valid()
  {
    && |steps| >= 1 && steps[0].call == Call.CheckPassword(user.id, password)
    && if steps[0].outcome.Threw? then
         |steps| == 1 && r == Raised && e == d
       else if user.id in d.passwords && d.passwords[user.id] == password then
         |steps| == 1 && r == Value(true) && e == d
       else if supportsLockout then
         |steps| == 1 && r == Value(false) && e == d
       else
         && |steps| == 2 && steps[1].call == Call.AccessFailed(user.id)
         && r == (if steps[1].outcome.Threw? then Raised else Value(false))
         && (steps[1].outcome.Succeeded? ==> user.id in d.users)
         && e == (if steps[1].outcome.Succeeded? then d.CountFailure(user.id) else d)
  }

  /**
   * CheckPasswordAsync answers true exactly when the stored password
   * matches, and false exactly when it does not and no call threw.
   * AccessFailedAsync is called, once and as the last call, exactly for a
   * wrong password without lockout support; the tables change only by the
   * one failure it counts when it succeeds.
   */
  lemma CheckPasswordVerdict(d: Db, e: Db, supportsLockout: bool, user: User, password: string, steps: seq<Step>, r: Raisable<bool>)
    requires d.Valid() && CheckPasswordRun(d, e, supportsLockout, user, password, steps, r)
    requires !steps[0].outcome.Threw?
    ensures r == Value(true) <==> user.id in d.passwords && d.passwords[user.id] == password
    ensures r == Value(false) <==> !(user.id in d.passwords && d.passwords[user.id] == password) && !steps[|steps| - 1].outcome.Threw?
    ensures r == Raised <==> steps[|steps| - 1].outcome.Threw?
    ensures (exists i :: 0 <= i < |steps| && steps[i].call == Call.AccessFailed(user.id)) <==>
      !supportsLockout && !(user.id in d.passwords && d.passwords[user.id] == password)
    ensures !supportsLockout && !(user.id in d.passwords && d.passwords[user.id] == password) ==>
      |steps| == 2 && steps[1].call == Call.AccessFailed(user.id)
    ensures steps[|steps| - 1] == Step(Call.AccessFailed(user.id), Succeeded) ==> user.id in d.users
    ensures e == if steps[|steps| - 1] == Step(Call.AccessFailed(user.id), Succeeded) then d.CountFailure(user.id) else d
  {
    if supportsLockout || (user.id in d.passwords && d.passwords[user.id] == password) {
      assert |steps| == 1;
    } else {
      assert steps[1].call == Call.AccessFailed(user.id);
    }
  }

  /**
   * What ResetPasswordAsync(user, newPassword) does from tables `d`: a reset
   * token is generated and handed to the reset, whose result is passed
   * through. `token` is the token the store issues for that call.
   */
  ghost predicate ResetPasswordRun(d: Db, e: Db, token: string, user: User, newPassword: string, steps: seq<Step>, r: Raisable<OpResult>)
    requires d.Valid()
  {
    && |steps| >= 1 && steps[0].call == Call.GeneratePasswordResetToken(user.id)
    && if steps[0].outcome.Threw? then
         |steps| == 1 && r == Raised && e == d
       else
         && |steps| == 2 && steps[1].call == Call.ResetPassword(user.id, token, newPassword)
         && r == Report(steps[1].outcome)
         && (steps[1].outcome.Succeeded? ==> user.id in d.users)
         && e == (if steps[1].outcome.Succeeded? then d.SetPassword(user.id, newPassword) else d)
  }

  /**
   * What UpdatePasswordAsync(user, current, new) does from tables `d`: the
   * store's change, which succeeds only for a known user whose stored
   * password is `currentPassword`, passed through.
   */
  ghost predicate UpdatePasswordRun(d: Db, e: Db, user: User, currentPassword: string, newPassword: string, steps: seq<Step>, r: Raisable<OpResult>)
    requires d.Valid()
  {
    && |steps| == 1 && steps[0].call == Call.ChangePassword(user.id, currentPassword, newPassword)
    && r == Report(steps[0].outcome)
    && (steps[0].outcome.Succeeded? ==> user.id in d.users && d.passwords[user.id] == currentPassword)
    && e == (if steps[0].outcome.Succeeded? then d.SetPassword(user.id, newPassword) else d)
  }

  /**
   * After a successful ResetPasswordAsync or UpdatePasswordAsync, checking
   * the new password (when the check does not throw) answers true and
   * counts no failure.
   */
  lemma NewPasswordChecks(d: Db, e: Db, user: User, newPassword: string, steps: seq<Step>, r: Raisable<OpResult>,
                          e2: Db, supportsLockout: bool, steps2: seq<Step>, r2: Raisable<bool>)
    requires d.Valid()
    requires (exists token :: ResetPasswordRun(d, e, token, user, newPassword, steps, r))
          || (exists current :: UpdatePasswordRun(d, e, user, current, newPassword, steps, r))
    requires r == Value(OpResult(true, []))
    requires e.Valid() && CheckPasswordRun(e, e2, supportsLockout, user, newPassword, steps2, r2)
    requires !steps2[0].outcome.Threw?
    ensures r2 == Value(true) && e2 == e && |steps2| == 1
  {
    NewPasswordStored(d, e, user, newPassword, steps, r);
    StoredPasswordChecks(e, e2, supportsLockout, user, newPassword, steps2, r2);
  }

  /** A successful ResetPasswordAsync or UpdatePasswordAsync stores the new password for the user. */
  lemma NewPasswordStored(d: Db, e: Db, user: User, newPassword: string, steps: seq<Step>, r: Raisable<OpResult>)
    requires d.Valid()
    requires (exists token :: ResetPasswordRun(d, e, token, user, newPassword, steps, r))
          || (exists current :: UpdatePasswordRun(d, e, user, current, newPassword, steps, r))
    requires r == Value(OpResult(true, []))
    ensures user.id in e.passwords && e.passwords[user.id] == newPassword
  {
    if exists token :: ResetPasswordRun(d, e, token, user, newPassword, steps, r) {
      var token :| ResetPasswordRun(d, e, token, user, newPassword, steps, r);
      assert steps[1].outcome.Succeeded?;
    } else {
      var current :| UpdatePasswordRun(d, e, user, current, newPassword, steps, r);
      assert steps[0].outcome.Succeeded?;
    }
  }

  /** Checking the password that is stored answers true (when the check does not throw) and changes nothing. */
  lemma StoredPasswordChecks(e: Db, e2: Db, supportsLockout: bool, user: User, password: string, steps: seq<Step>, r: Raisable<bool>)
    requires e.Valid() && user.id in e.passwords && e.passwords[user.id] == password
    requires CheckPasswordRun(e, e2, supportsLockout, user, password, steps, r)
    requires !steps[0].outcome.Threw?
    ensures r == Value(true) && e2 == e && |steps| == 1
  {
  }

  /** The role table holds every requested role once it holds each of the distinct ones. */
  lemma KnownWhenDistinctKnown(d: Db, names: seq<RoleName>)
    requires d.HasRoles(Distinct(names))
    ensures d.HasRoles(names)
  {
    assert forall n :: n in names ==> n in Members(Distinct(names));
  }

  /** A new user, granted the distinct requested roles, holds exactly those, each once. */
  lemma GrantToNewUser(d: Db, user: User, password: string, requested: seq<RoleName>)
    requires d.Valid() && user.id !in d.users && !d.NameTaken(user.userName, user.id) && d.HasRoles(Distinct(requested))
    ensures var g := d.Insert(user, password).Grant(user.id, Distinct(requested));
      user.id in g.roles && Members(g.roles[user.id]) == Members(requested) && NoDups(g.roles[user.id])
  {
    assert Members(d.Insert(user, password).roles[user.id]) == {};
  }

  /** Creating a user and granting it roles adds its record and leaves every other user's roles as they were. */
  lemma GrantToNewUserFrame(d: Db, user: User, password: string, names: seq<RoleName>)
    requires d.Valid() && user.id !in d.users && !d.NameTaken(user.userName, user.id) && d.HasRoles(names)
    ensures var g := d.Insert(user, password).Grant(user.id, names);
      && g.users == d.users[user.id := user]
      && forall id :: id in d.users ==> id in g.roles && g.roles[id] == d.roles[id]
  {
    var inserted := d.Insert(user, password);
    assert forall id :: id in d.users ==> inserted.roles[id] == d.roles[id];
  }

  lemma AppendAssociates<T>(a: seq<T>, b: seq<T>, c: seq<T>)
    ensures (a + b) + c == a + (b + c)
  {
  }

  /** AccountManager over the identity store. */
  class AccountManager {
    const store: IdentityStore

    constructor (store: IdentityStore)
      ensures this.store == store
    {
      this.store := store;
    }

    /** CreateRoleAsync(role): the role manager's result, passed through. */
    method CreateRole(name: RoleName) returns (r: Raisable<OpResult>, ghost steps: seq<Step>)
      requires store.db.Valid()
      modifies store
      ensures store.db.Valid()
      ensures store.log == old(store.log) + steps
      ensures |steps| == 1 && steps[0].call == Call.CreateRole(name)
      ensures r == Report(steps[0].outcome)
      ensures store.db == if steps[0].outcome.Succeeded? then old(store.db).(roleNames := old(store.db.roleNames) + {name}) else old(store.db)
    {
      var o := store.CreateRole(name);
      steps := [Step(Call.CreateRole(name), o)];
      r := Report(o);
    }

    /** DeleteUserAsync(user): the store's delete, its success flag and errors passed through. */
    method DeleteUser(user: User) returns (r: Raisable<OpResult>, ghost steps: seq<Step>)
      requires store.db.Valid()
      modifies store
      ensures store.db.Valid()
      ensures store.log == old(store.log) + steps
      ensures |steps| == 1 && steps[0].call == Call.Delete(user.id)
      ensures r == Report(steps[0].outcome)
      ensures store.db == if steps[0].outcome.Succeeded? then old(store.db).Remove(user.id) else old(store.db)
    {
      var o := store.Delete(user.id);
      steps := [Step(Call.Delete(user.id), o)];
      r := Report(o);
    }

    /** DeleteUserAsync(userId): an unknown id is a success without a delete call. */
    method DeleteUserById(id: UserId) returns (r: Raisable<OpResult>, ghost steps: seq<Step>)
      requires store.db.Valid()
      modifies store
      ensures store.db.Valid()
      ensures store.log == old(store.log) + steps
      ensures |steps| >= 1 && steps[0].call == Call.FindById(id)
      ensures steps[0].outcome.Threw? ==> |steps| == 1 && r == Raised && store.db == old(store.db)
      ensures steps[0].outcome.Succeeded? && id !in old(store.db.users) ==>
        |steps| == 1 && r == Value(OpResult(true, [])) && store.db == old(store.db)
      ensures steps[0].outcome.Succeeded? && id in old(store.db.users) ==>
        && |steps| == 2 && steps[1].call == Call.Delete(id)
        && r == Report(steps[1].outcome)
        && store.db == if steps[1].outcome.Succeeded? then old(store.db).Remove(id) else old(store.db)
    {
      var o, found := store.FindById(id);
      steps := [Step(Call.FindById(id), o)];
      if o.Threw? {
        return Raised, steps;
      }
      if found.Some? {
        ghost var more;
        r, more := DeleteUser(found.value);
        AppendAssociates(old(store.log), steps, more);
        steps := steps + more;
        return;
      }
      r := Value(OpResult(true, []));
    }

    /**
     * The end of CreateUserAsync's try block and its catch, on the user the
     * store has just created and fetched again.
     */
    method AssignRolesOrUndo(user: User, roles: Option<seq<RoleName>>) returns (r: Raisable<OpResult>, ghost steps: seq<Step>)
      requires store.db.Valid() && user.id in store.db.users
      modifies store
      ensures store.db.Valid()
      ensures store.log == old(store.log) + steps
      ensures AssignedOrUndone(old(store.db), store.db, user, roles, steps, r)
    {
      if roles.None? {
        r, steps := DeleteUser(user);
        return Raised, steps;
      }
      var added := store.AddToRoles(user.id, Distinct(roles.value));
      steps := [Step(Call.AddToRoles(user.id, Distinct(roles.value)), added)];
      if added.Succeeded? {
        return Value(OpResult(true, [])), steps;
      }
      var deleted;
      ghost var more;
      deleted, more := DeleteUser(user);
      AppendAssociates(old(store.log), steps, more);
      steps := steps + more;
      if added.Threw? || deleted.Raised? {
        return Raised, steps;
      }
      r := Value(OpResult(false, added.errors));
    }

    /** CreateUserAsync(user, roles, password). */
    method CreateUser(user: User, roles: Option<seq<RoleName>>, password: string) returns (r: Raisable<OpResult>, ghost steps: seq<Step>)
      requires store.db.Valid()
      modifies store
      ensures store.db.Valid()
      ensures store.log == old(store.log) + steps
      ensures CreateUserRun(old(store.db), store.db, user, roles, password, steps, r)
    {
      var created := store.Create(user, password);
      steps := [Step(Call.Create(user, password), created)];
      if !created.Succeeded? {
        return Report(created), steps;
      }
      ghost var more;
      r, more := FetchAndAssign(user, roles);
      AppendAssociates(old(store.log), steps, more);
      steps := steps + more;
      assert steps[1..] == more;
    }

    /** The rest of CreateUserAsync: fetch the new user by name, then give it its roles or undo it. */
    method FetchAndAssign(user: User, roles: Option<seq<RoleName>>) returns (r: Raisable<OpResult>, ghost steps: seq<Step>)
      requires store.db.Valid() && user.id in store.db.users && store.db.users[user.id] == user
      modifies store
      ensures store.db.Valid()
      ensures store.log == old(store.log) + steps
      ensures FetchedAndAssigned(old(store.db), store.db, user, roles, steps, r)
    {
      var fetched, found := store.FindByName(user.userName);
      steps := [Step(Call.FindByName(user.userName), fetched)];
      if fetched.Threw? {
        return Raised, steps;
      }
      assert found.value == user;
      ghost var more;
      r, more := AssignRolesOrUndo(found.value, roles);
      AppendAssociates(old(store.log), steps, more);
      steps := steps + more;
      assert steps[1..] == more;
    }

    /** The addition step of UpdateUserAsync's reconciliation. */
    method AddRoles(id: UserId, toAdd: seq<RoleName>) returns (r: Raisable<OpResult>, ghost steps: seq<Step>)
      requires store.db.Valid() && id in store.db.users
      modifies store
      ensures store.db.Valid()
      ensures store.log == old(store.log) + steps
      ensures RolesAdded(old(store.db), store.db, id, toAdd, steps, r)
    {
      if toAdd == [] {
        return Value(OpResult(true, [])), [];
      }
      var added := store.AddToRoles(id, toAdd);
      steps := [Step(Call.AddToRoles(id, toAdd), added)];
      r := Report(added);
    }

    /** The role reconciliation of UpdateUserAsync, given the roles it read. */
    method ReconcileRoles(id: UserId, current: seq<RoleName>, requested: seq<RoleName>) returns (r: Raisable<OpResult>, ghost steps: seq<Step>)
      requires store.db.Valid() && id in store.db.users
      modifies store
      ensures store.db.Valid()
      ensures store.log == old(store.log) + steps
      ensures Reconciled(old(store.db), store.db, id, current, requested, steps, r)
    {
      var rolesToRemove := RolesToRemove(current, requested);
      var rolesToAdd := RolesToAdd(current, requested);
      steps := [];
      if rolesToRemove != [] {
        var removed := store.RemoveFromRoles(id, rolesToRemove);
        steps := [Step(Call.RemoveFromRoles(id, rolesToRemove), removed)];
        if !removed.Succeeded? {
          return Report(removed), steps;
        }
      }
      ghost var more;
      r, more := AddRoles(id, rolesToAdd);
      AppendAssociates(old(store.log), steps, more);
      steps := steps + more;
      assert steps[|steps| - |more|..] == more;
    }

    /** UpdateUserAsync(user, roles); `roles == None` is a null list. */
    method UpdateUserWithRoles(user: User, roles: Option<seq<RoleName>>) returns (r: Raisable<OpResult>, ghost steps: seq<Step>)
      requires store.db.Valid()
      modifies store
      ensures store.db.Valid()
      ensures store.log == old(store.log) + steps
      ensures UpdateUserRun(old(store.db), store.db, user, roles, steps, r)
    {
      var updated := store.Update(user);
      steps := [Step(Call.Update(user), updated)];
      if !updated.Succeeded? {
        return Report(updated), steps;
      }
      ghost var more;
      r, more := UpdateRoles(user.id, roles);
      AppendAssociates(old(store.log), steps, more);
      steps := steps + more;
      assert steps[1..] == more;
    }

    /** The role half of UpdateUserAsync(user, roles), after the update succeeded. */
    method UpdateRoles(id: UserId, roles: Option<seq<RoleName>>) returns (r: Raisable<OpResult>, ghost steps: seq<Step>)
      requires store.db.Valid() && id in store.db.users
      modifies store
      ensures store.db.Valid()
      ensures store.log == old(store.log) + steps
      ensures RolesUpdated(old(store.db), store.db, id, roles, steps, r)
    {
      if roles.None? {
        return Value(OpResult(true, [])), [];
      }
      var read, userRoles := store.GetRoles(id);
      steps := [Step(Call.GetRoles(id), read)];
      if read.Threw? {
        return Raised, steps;
      }
      ghost var more;
      r, more := ReconcileRoles(id, userRoles, roles.value);
      AppendAssociates(old(store.log), steps, more);
      steps := steps + more;
      assert steps[1..] == more;
    }

    /** UpdateUserAsync(user): the update without touching roles. */
    method UpdateUser(user: User) returns (r: Raisable<OpResult>, ghost steps: seq<Step>)
      requires store.db.Valid()
      modifies store
      ensures store.db.Valid()
      ensures store.log == old(store.log) + steps
      ensures UpdateUserRun(old(store.db), store.db, user, None, steps, r)
    {
      r, steps := UpdateUserWithRoles(user, None);
    }

    /** CheckPasswordAsync(user, password). */
    method CheckPassword(user: User, password: string) returns (r: Raisable<bool>, ghost steps: seq<Step>)
      requires store.db.Valid()
      modifies store
      ensures store.db.Valid()
      ensures store.log == old(store.log) + steps
      ensures CheckPasswordRun(old(store.db), store.db, store.supportsLockout, user, password, steps, r)
    {
      var checked, ok := store.CheckPassword(user.id, password);
      steps := [Step(Call.CheckPassword(user.id, password), checked)];
      if checked.Threw? {
        return Raised, steps;
      }
      r := Value(ok);
      if !ok && !store.supportsLockout {
        var failed := store.AccessFailed(user.id);
        steps := steps + [Step(Call.AccessFailed(user.id), failed)];
        if failed.Threw? {
          r := Raised;
        }
      }
    }

    /** ResetPasswordAsync(user, newPassword). */
    method ResetPassword(user: User, newPassword: string) returns (r: Raisable<OpResult>, ghost steps: seq<Step>)
      requires store.db.Valid()
      modifies store
      ensures store.db.Valid()
      ensures store.log == old(store.log) + steps
      ensures ResetPasswordRun(old(store.db), store.db, store.issueToken(|old(store.log)|), user, newPassword, steps, r)
    {
      var generated, resetToken := store.GeneratePasswordResetToken(user.id);
      steps := [Step(Call.GeneratePasswordResetToken(user.id), generated)];
      if generated.Threw? {
        return Raised, steps;
      }
      var reset := store.ResetPassword(user.id, resetToken, newPassword);
      AppendAssociates(old(store.log), steps, [Step(Call.ResetPassword(user.id, resetToken, newPassword), reset)]);
      steps := steps + [Step(Call.ResetPassword(user.id, resetToken, newPassword), reset)];
      r := Report(reset);
    }

    /** UpdatePasswordAsync(user, currentPassword, newPassword). */
    method UpdatePassword(user: User, currentPassword: string, newPassword: string) returns (r: Raisable<OpResult>, ghost steps: seq<Step>)
      requires store.db.Valid()
      modifies store
      ensures store.db.Valid()
      ensures store.log == old(store.log) + steps
      ensures UpdatePasswordRun(old(store.db), store.db, user, currentPassword, newPassword, steps, r)
    {
      var changed := store.ChangePassword(user.id, currentPassword, newPassword);
      steps := [Step(Call.ChangePassword(user.id, currentPassword, newPassword), changed)];
      r := Report(changed);
    }
  }
}
