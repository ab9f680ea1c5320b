/** The rows the migration inserts. */
module Seeding {
  import opened Tables
  import opened Schema

  const ADMIN_SCOPES := ["post:read", "post:create", "post:edit", "post:delete", "post:list",
                         "comment:read", "comment:create", "comment:edit", "comment:delete",
                         "users:read", "users:create", "users:edit", "users:delete"]
  const EDITOR_SCOPES := ["post:read", "post:create", "post:list", "post:edit:me", "post:delete:me",
                          "comment:read", "comment:create", "comment:edit:me", "comment:delete:me", "users:read"]
  const READER_SCOPES := ["post:read", "post:list", "comment:read", "comment:create", "comment:edit:me",
                          "users:read:me"]

  function SeedRoles(): seq<Role> {
    [Role(1, "admin", ADMIN_SCOPES), Role(2, "editor", EDITOR_SCOPES), Role(3, "reader", READER_SCOPES),
     Role(4, "norole", [])]
  }

  /** What the database draws for one seeded user: its id and bcrypt's own salt. */
  datatype Draw = Draw(id: Uuid, nonce: nat)

  datatype Seed = Seed(admin: Draw, editor: Draw, reader: Draw, norole: Draw, now: int)

  predicate DistinctIds(s: Seed) {
    s.admin.id != s.editor.id && s.admin.id != s.reader.id && s.admin.id != s.norole.id &&
    s.editor.id != s.reader.id && s.editor.id != s.norole.id && s.reader.id != s.norole.id
  }

  function SeedUser(d: Draw, now: int, slug: string, first: string, roleId: Uuid): User {
    var salt := slug + "-seed-salt";
    User(d.id, slug + "@example.com", Bcrypt(slug + salt, d.nonce), salt, first, "User", None, None, roleId, now, now)
  }

  function SeedUsers(s: Seed): seq<User> {
    [SeedUser(s.admin, s.now, "admin", "Admin", 1), SeedUser(s.editor, s.now, "editor", "Editor", 2),
     SeedUser(s.reader, s.now, "reader", "Reader", 3), SeedUser(s.norole, s.now, "norole", "NoRole", 4)]
  }

  function SeedDb(s: Seed): Db {
    Db(SeedRoles(), SeedUsers(s), [], [])
  }

  lemma SeedRolesIntact()
    ensures RolesIntact(SeedRoles())
  {
    var roles := SeedRoles();
    forall i, j | 0 <= i < j < |roles|
      ensures RoleSlug(roles[i]) != RoleSlug(roles[j])
    {
      assert roles[i].slug[0] != roles[j].slug[0];
    }
  }

  lemma SeedUsersIntact(s: Seed)
    requires DistinctIds(s)
    ensures UsersIntact(SeedUsers(s), SeedRoles())
  {
    var users, roles := SeedUsers(s), SeedRoles();
    forall i, j | 0 <= i < j < |users|
      ensures UserEmail(users[i]) != UserEmail(users[j])
    {
      assert users[i].email[0] != users[j].email[0];
    }
    forall i | 0 <= i < |users|
      ensures users[i].roleId in KeysOf(roles, RoleId)
    {
      assert RoleId(roles[i]) == users[i].roleId;
    }
  }

  lemma SeedIntact(s: Seed)
    requires DistinctIds(s)
    ensures Integrity(SeedDb(s))
  {
    SeedRolesIntact();
    SeedUsersIntact(s);
  }

  // ---- who may do what --------------------------------------------------------

  /** Which of the three roles with scopes has this one. */
  predicate Grants(scope: string, admin: bool, editor: bool, reader: bool) {
    && admin == (scope in ADMIN_SCOPES) && editor == (scope in EDITOR_SCOPES) && reader == (scope in READER_SCOPES)
  }

  /** All three read posts and comments, and comment. */
  lemma ReadingScopes()
    ensures Grants("post:read", true, true, true)
    ensures Grants("post:list", true, true, true)
    ensures Grants("comment:read", true, true, true)
    ensures Grants("comment:create", true, true, true)
  {
    assert ADMIN_SCOPES[0] == "post:read" && EDITOR_SCOPES[0] == "post:read";
    assert READER_SCOPES[0] == "post:read" && ADMIN_SCOPES[4] == "post:list";
    assert EDITOR_SCOPES[2] == "post:list" && READER_SCOPES[1] == "post:list";
    assert ADMIN_SCOPES[5] == "comment:read" && EDITOR_SCOPES[5] == "comment:read";
    assert READER_SCOPES[2] == "comment:read" && ADMIN_SCOPES[6] == "comment:create";
    assert EDITOR_SCOPES[6] == "comment:create" && READER_SCOPES[3] == "comment:create";
  }

  /** Admin and editor also write posts and read users. */
  lemma WritingScopes()
    ensures Grants("post:create", true, true, false)
    ensures Grants("users:read", true, true, false)
  {
    assert ADMIN_SCOPES[1] == "post:create" && EDITOR_SCOPES[1] == "post:create";
    assert ADMIN_SCOPES[9] == "users:read" && EDITOR_SCOPES[9] == "users:read";
  }

  /** Only the admin changes what is not its own. */
  lemma ManagingScopes()
    ensures Grants("post:edit", true, false, false)
    ensures Grants("post:delete", true, false, false)
    ensures Grants("comment:edit", true, false, false)
  {
    assert ADMIN_SCOPES[2] == "post:edit" && ADMIN_SCOPES[3] == "post:delete";
    assert ADMIN_SCOPES[7] == "comment:edit";
  }

  /** Nor do they delete comments of others or manage users. */
  lemma UserScopes()
    ensures Grants("comment:delete", true, false, false)
    ensures Grants("users:create", true, false, false)
    ensures Grants("users:edit", true, false, false)
    ensures Grants("users:delete", true, false, false)
  {
    assert ADMIN_SCOPES[8] == "comment:delete" && ADMIN_SCOPES[10] == "users:create";
    assert ADMIN_SCOPES[11] == "users:edit" && ADMIN_SCOPES[12] == "users:delete";
  }

  /** The others have a scope for what is their own. */
  lemma OwnPostScopes()
    ensures Grants("post:edit:me", false, true, false)
    ensures Grants("post:delete:me", false, true, false)
    ensures Grants("users:read:me", false, false, true)
  {
    assert EDITOR_SCOPES[3] == "post:edit:me" && EDITOR_SCOPES[4] == "post:delete:me";
    assert READER_SCOPES[5] == "users:read:me";
  }

  lemma OwnCommentScopes()
    ensures Grants("comment:edit:me", false, true, true)
    ensures Grants("comment:delete:me", false, true, false)
  {
    assert EDITOR_SCOPES[7] == "comment:edit:me" && READER_SCOPES[4] == "comment:edit:me";
    assert EDITOR_SCOPES[8] == "comment:delete:me";
  }
}
