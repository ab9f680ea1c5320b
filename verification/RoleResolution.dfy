/** A role read in one statement is still right when a later statement uses it, whatever other
    requests did in between. */
module RoleResolution {
  import opened Tables
  import opened Schema
  import opened Statements
  import opened Api
  import opened Handlers
  import opened Runs
  import opened Linearizability
  import opened Invariants

  /** The role slug a request to write a user asks for. */
  function AskedRole(r: Request): Option<string> {
    match r
    case CreateUserRequest(Some(b)) => Some(b.role)
    case ReplaceUserRequest(_, Some(b)) => Some(b.role)
    case UpdateUserRequest(_, Some(b)) => b.role
    case _ => None
  }

  predicate WritesUser(r: Request) {
    r.CreateUserRequest? || r.UpdateUserRequest? || r.ReplaceUserRequest?
  }

  ghost predicate IsAsked(c: Call, role: Role, roles: seq<Role>) {
    role in roles && (AskedRole(c.request).Some? ==> role.slug == AskedRole(c.request).value)
  }

  /** Everything a request in progress, or its answer, says about a role is true of `user_roles`. */
  ghost predicate RoleRight(c: Call, pc: Pc, roles: seq<Role>) {
    match pc
    case RoleKnown(role) => AskedRole(c.request) == Some(role.slug) && role in roles
    case Written(u) => exists role :: IsAsked(c, role, roles) && role.id == u.roleId
    case Done(Response(_, UserBody(a))) =>
      WritesUser(c.request) ==> exists role :: IsAsked(c, role, roles) && a.role == ToApiRole(role)
    case _ => true
  }

  lemma FoundRole(db: Db, slug: string, role: Role)
    requires GetRoleBySlug(db, slug) == Success(role)
    ensures role in db.roles && role.slug == slug
  {
    SelectHas(db.roles, With(RoleSlug, slug), role);
  }

  lemma PatchRoleRight(c: Call, id: Uuid, b: UserUpdate, role: Option<Role>, db: Db)
    requires Integrity(db) && c.request == UpdateUserRequest(id, Some(b))
    requires role.None? <==> b.role.None?
    requires role.Some? ==> role.value in db.roles && b.role == Some(role.value.slug)
    ensures RoleRight(c, PatchUser(c, id, b, if role.Some? then Some(role.value.id) else None, db).1, db.roles)
  {
    var pc := PatchUser(c, id, b, if role.Some? then Some(role.value.id) else None, db).1;
    if pc.Written? {
      if role.Some? {
        assert IsAsked(c, role.value, db.roles);
      } else {
        var r :| r in db.roles && r.id == pc.user.roleId;
        assert IsAsked(c, r, db.roles);
      }
    }
  }

  lemma WholeBodyRoleRight(c: Call, b: UserCreate, pc: Pc, db: Db)
    requires c.request == CreateUserRequest(Some(b)) || (c.request.ReplaceUserRequest? && c.request.newUser == Some(b))
    requires Fits(c, pc) && RoleRight(c, pc, db.roles)
    ensures RoleRight(c, Step(c, pc, db).1, db.roles)
  {
    if pc.Start? && GetRoleBySlug(db, b.role).Success? {
      FoundRole(db, b.role, GetRoleBySlug(db, b.role).value);
    } else if pc.RoleKnown? {
      assert IsAsked(c, pc.role, db.roles);
    }
  }

  lemma PartialBodyRoleRight(c: Call, id: Uuid, b: UserUpdate, pc: Pc, db: Db)
    requires Integrity(db) && c.request == UpdateUserRequest(id, Some(b))
    requires Fits(c, pc) && RoleRight(c, pc, db.roles)
    ensures RoleRight(c, Step(c, pc, db).1, db.roles)
  {
    if pc.Start? {
      if b.role.None? {
        PatchRoleRight(c, id, b, None, db);
      } else if GetRoleBySlug(db, b.role.value).Success? {
        FoundRole(db, b.role.value, GetRoleBySlug(db, b.role.value).value);
      }
    } else if pc.RoleKnown? {
      PatchRoleRight(c, id, b, Some(pc.role), db);
    } else if pc.Written? {
      var role :| IsAsked(c, role, db.roles) && role.id == pc.user.roleId;
      RoleById(db, role);
    }
  }

  lemma StepRoleRight(c: Call, pc: Pc, db: Db)
    requires Integrity(db) && Fits(c, pc) && RoleRight(c, pc, db.roles)
    ensures RoleRight(c, Step(c, pc, db).1, db.roles)
  {
    if !WritesUser(c.request) {
      if !pc.Done? {
        StepProgress(c, pc, db);
      }
    } else {
      match c.request
      case CreateUserRequest(Some(b)) => WholeBodyRoleRight(c, b, pc, db);
      case ReplaceUserRequest(_, Some(b)) => WholeBodyRoleRight(c, b, pc, db);
      case UpdateUserRequest(id, Some(b)) => PartialBodyRoleRight(c, id, b, pc, db);
      case _ =>
    }
  }

  lemma RoleById(db: Db, role: Role)
    requires RolesIntact(db.roles) && role in db.roles
    ensures GetRole(db, role.id) == Success(role)
  {
    Lookup(db.roles, RoleId, role.id);
  }

  /** Role resolution is stable in every run; in particular the fallback of userWithRole, a role with
      nothing but its id, is never reached. */
  lemma {:induction false} RolesStable(calls: seq<Call>, db0: Db, sched: seq<nat>)
    requires Integrity(db0) && Schedule(calls, sched)
    ensures var s := Run(calls, db0, sched);
            && s.db.roles == db0.roles
            && forall i | 0 <= i < |calls| ::
                 && RoleRight(calls[i], s.pcs[i], db0.roles)
                 && (s.pcs[i].Written? ==> GetRole(s.db, s.pcs[i].user.roleId).Success?)
  {
    var s' := Run(calls, db0, sched);
    if sched != [] {
      var before, i := sched[..|sched| - 1], sched[|sched| - 1];
      RolesStable(calls, db0, before);
      RunIntact(calls, db0, before);
      RunProper(calls, db0, before);
      var s := Run(calls, db0, before);
      RolesFixed(calls[i], s.pcs[i], s.db);
      StepRoleRight(calls[i], s.pcs[i], s.db);
    }
    forall i | 0 <= i < |calls| && s'.pcs[i].Written?
      ensures GetRole(s'.db, s'.pcs[i].user.roleId).Success?
    {
      var role :| IsAsked(calls[i], role, db0.roles) && role.id == s'.pcs[i].user.roleId;
      RoleById(s'.db, role);
    }
  }
}
