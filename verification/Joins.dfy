/** The join of users with roles loses and repeats nothing: every user has exactly one role. */
module Joins {
  import opened Tables
  import opened Schema
  import opened Statements
  import opened Api
  import opened Seeding
  import opened Runs
  import opened Invariants

  /** Every user's role_id matches exactly one role. */
  ghost predicate OneRoleEach(users: seq<User>, roles: seq<Role>) {
    forall i | 0 <= i < |users| :: |Select(roles, With(RoleId, users[i].roleId))| == 1
  }

  lemma IntactOneRoleEach(users: seq<User>, roles: seq<Role>)
    requires RolesIntact(roles) && Refers(users, UserRoleId, KeysOf(roles, RoleId))
    ensures OneRoleEach(users, roles)
  {
    forall i | 0 <= i < |users|
      ensures |Select(roles, With(RoleId, users[i].roleId))| == 1
    {
      Lookup(roles, RoleId, UserRoleId(users[i]));
    }
  }

  /** The row is the user with the role it names. */
  ghost predicate Joined(row: (User, Role), u: User, roles: seq<Role>) {
    row.0 == u && row.1 in roles && row.1.id == u.roleId
  }

  lemma JoinLast(users: seq<User>, roles: seq<Role>)
    requires users != [] && OneRoleEach(users, roles)
    ensures exists row :: Joined(row, users[|users| - 1], roles)
                          && JoinRoles(users, roles) == JoinRoles(users[..|users| - 1], roles) + [row]
  {
    var u := users[|users| - 1];
    var own := Select(roles, With(RoleId, u.roleId));
    SelectHas(roles, With(RoleId, u.roleId), own[0]);
    assert Paired(u, own) == [(u, own[0])];
    assert Joined((u, own[0]), u, roles);
  }

  lemma {:induction false} JoinEach(users: seq<User>, roles: seq<Role>)
    requires OneRoleEach(users, roles)
    ensures |JoinRoles(users, roles)| == |users|
    ensures forall i | 0 <= i < |users| :: Joined(JoinRoles(users, roles)[i], users[i], roles)
  {
    if users != [] {
      JoinEach(users[..|users| - 1], roles);
      JoinLast(users, roles);
    }
  }

  lemma JoinTotal(users: seq<User>, roles: seq<Role>)
    requires RolesIntact(roles) && Refers(users, UserRoleId, KeysOf(roles, RoleId))
    ensures |JoinRoles(users, roles)| == |users|
    ensures forall i | 0 <= i < |users| :: Joined(JoinRoles(users, roles)[i], users[i], roles)
  {
    IntactOneRoleEach(users, roles);
    JoinEach(users, roles);
  }

  /** A lookup of users by a unique column, joined: the row and its role, or nothing. */
  lemma JoinedLookup<K>(db: Db, key: User -> K, k: K)
    requires Integrity(db) && Unique(db.users, key)
    ensures var r := One(JoinRoles(Select(db.users, With(key, k)), db.roles));
            && (r.Success? <==> k in KeysOf(db.users, key))
            && (r.Failure? ==> r.error == NoRows)
            && (r.Success? ==> r.value.0 in db.users && key(r.value.0) == k
                               && r.value.1 in db.roles && r.value.1.id == r.value.0.roleId)
  {
    Lookup(db.users, key, k);
    if u :| u in db.users && key(u) == k {
      JoinedRow(db, u);
      assert Select(db.users, With(key, k)) == [u];
    } else {
      assert Select(db.users, With(key, k)) == [];
    }
  }

  lemma JoinedRow(db: Db, u: User)
    requires Integrity(db) && u in db.users
    ensures var rows := JoinRoles([u], db.roles);
            |rows| == 1 && rows[0].0 == u && rows[0].1 in db.roles && rows[0].1.id == u.roleId
  {
    var i :| 0 <= i < |db.users| && db.users[i] == u;
    assert UserRoleId(db.users[i]) in KeysOf(db.roles, RoleId);
    JoinTotal([u], db.roles);
  }

  /** GET /v1/users/{id} finds every row of `users`, and only those, with the role the row names. */
  lemma GetUserFindsAll(seed: Seed, calls: seq<Call>, sched: seq<nat>, id: Uuid)
    requires DistinctIds(seed) && Schedule(calls, sched)
    ensures var db := Run(calls, SeedDb(seed), sched).db; var r := Statements.GetUser(db, id);
            && (r.Success? <==> id in KeysOf(db.users, UserId))
            && (r.Success? ==> r.value.0 in db.users && r.value.0.id == id
                               && r.value.1 in db.roles && r.value.1.id == r.value.0.roleId)
  {
    SeededRunIntact(seed, calls, sched);
    JoinedLookup(Run(calls, SeedDb(seed), sched).db, UserId, id);
  }

  /** In every reachable store the join has as many rows as CountUsers counts, one per user. */
  lemma JoinMatchesCount(seed: Seed, calls: seq<Call>, sched: seq<nat>)
    requires DistinctIds(seed) && Schedule(calls, sched)
    ensures var db := Run(calls, SeedDb(seed), sched).db;
            |JoinRoles(db.users, db.roles)| == CountUsers(db)
            && forall i | 0 <= i < CountUsers(db) :: JoinRoles(db.users, db.roles)[i].0 == db.users[i]
  {
    SeededRunIntact(seed, calls, sched);
    var db := Run(calls, SeedDb(seed), sched).db;
    JoinTotal(db.users, db.roles);
  }
}
