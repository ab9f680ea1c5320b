/** The handlers as they are written, over a mutable store. Each is proved to leave the store and give
    the answer of its step program run without interruption. */
module Servers {
  import opened Tables
  import opened Schema
  import opened Statements
  import opened Pagination
  import opened Slugs
  import opened Api
  import opened Handlers
  import opened Stores

  lemma Advance(c: Call, pc: Pc, db: Db, pc': Pc, db': Db)
    requires Fits(c, pc) && !pc.Done? && Step(c, pc, db) == (db', pc')
    ensures Fits(c, pc') && Finish(c, pc, db) == Finish(c, pc', db')
  {
    StepProgress(c, pc, db);
  }

  /** The slice of API values a list handler fills from its rows. */
  method MapRows<R, A(0)>(rows: seq<R>, convert: R -> A) returns (data: array<A>)
    ensures fresh(data) && data.Length == |rows|
    ensures forall i | 0 <= i < |rows| :: data[i] == convert(rows[i])
  {
    data := new A[|rows|];
    for i := 0 to |rows|
      invariant forall j | 0 <= j < i :: data[j] == convert(rows[j])
    {
      data[i] := convert(rows[i]);
    }
  }

  class Server {
    const store: Store

    constructor (s: Store)
      ensures store == s
    {
      store := s;
    }

    // ---- login ----

    method Login(c: Call) returns (r: Response)
      requires store.Valid() && c.request.LoginRequest?
      ensures Atomic(c, store.Contents()) == (store.Contents(), r)
    {
      var body := c.request.login;
      Advance(c, Start, store.Contents(), Done(Handlers.Login(c, body, store.Contents())), store.Contents());
      if body.None? || body.value.password.None? {
        return Response(422, Message("email and password are required"));
      }
      var row := store.GetUserByEmail(body.value.email);
      if row.Failure? {
        var e := row.error;
        return if IsNotFound(e) then Response(401, Message("invalid credentials")) else InternalError(e);
      }
      var (user, role) := row.value;
      if !Verifies(user.passwordHash, body.value.password.value, user.passwordSalt) {
        return Response(401, Message("invalid credentials"));
      }
      if c.inputs.signFails {
        return Response(500, Fault(Signing));
      }
      var exp := c.inputs.now + TOKEN_TTL;
      var claims := Claims(ISSUER, user.id, role.slug, role.scopes, c.inputs.now, exp, c.inputs.tokenId);
      r := Response(200, TokenBody(claims, exp, ToApiUser(user, role)));
    }

    // ---- users ----

    method ListUsers(c: Call) returns (r: Response)
      requires store.Valid() && c.request.ListUsersRequest?
      ensures Atomic(c, store.Contents()) == (store.Contents(), r)
    {
      ghost var db := store.Contents();
      var w := Paginate(c.request.page, c.request.perPage);
      var rows := store.ListUsers(w.limit, w.offset);
      if rows.Failure? {
        Advance(c, Start, db, Done(InternalError(rows.error)), db);
        return InternalError(rows.error);
      }
      var total := store.CountUsers();
      var data := MapRows(rows.value, (row: (User, Role)) => ToApiUser(row.0, row.1));
      r := Response(200, UsersBody(data[..], Meta(total, w.page, w.perPage)));
      assert data[..] == ToApiUsers(rows.value);
      Advance(c, Start, db, UsersRead(rows.value), db);
      Advance(c, UsersRead(rows.value), db, Done(r), db);
    }

    method CreateUser(c: Call) returns (r: Response)
      requires store.Valid() && c.request.CreateUserRequest?
      modifies store
      ensures store.Valid()
      ensures Atomic(c, old(store.Contents())) == (store.Contents(), r)
    {
      ghost var db := store.Contents();
      var body := c.request.newUser;
      if body.None? || !HasPassword(body.value.password) {
        r := Response(422, Message("password is required"));
        Advance(c, Start, db, Done(r), db);
        return;
      }
      var b := body.value;
      var role := store.GetRoleBySlug(b.role);
      if role.Failure? {
        var e := role.error;
        r := if IsNotFound(e) then Response(422, Message("unknown role")) else InternalError(e);
        Advance(c, Start, db, Done(r), db);
        return;
      }
      var hash := HashPassword(b.password.value, c.inputs);
      if hash.None? {
        r := Response(500, Fault(Hashing));
        Advance(c, Start, db, Done(r), db);
        return;
      }
      Advance(c, Start, db, RoleKnown(role.value), db);
      var columns := UserColumnsOf(b, hash.value, c.inputs.salt, role.value);
      var created := store.CreateUser(NewUser(c.inputs.newId, columns, c.inputs.now));
      if created.Failure? {
        r := if IsUniqueViolation(created.error) then Response(409, Message("email already exists"))
             else InternalError(created.error);
      } else {
        r := Response(201, UserBody(ToApiUser(created.value, role.value)));
      }
      Advance(c, RoleKnown(role.value), db, Done(r), store.Contents());
    }

    method GetUser(c: Call) returns (r: Response)
      requires store.Valid() && c.request.GetUserRequest?
      ensures Atomic(c, store.Contents()) == (store.Contents(), r)
    {
      var row := store.GetUser(c.request.id);
      if row.Failure? {
        var e := row.error;
        r := if IsNotFound(e) then Response(404, Message("user not found")) else InternalError(e);
      } else {
        r := Response(200, UserBody(ToApiUser(row.value.0, row.value.1)));
      }
      Advance(c, Start, store.Contents(), Done(r), store.Contents());
    }

    /** The parameters of the UPDATE are filled in one by one. */
    method UpdateUser(c: Call) returns (r: Response)
      requires store.Valid() && c.request.UpdateUserRequest?
      modifies store
      ensures store.Valid()
      ensures Atomic(c, old(store.Contents())) == (store.Contents(), r)
    {
      ghost var db := store.Contents();
      if c.request.update.None? {
        r := Response(400, Message("empty body"));
        Advance(c, Start, db, Done(r), db);
        return;
      }
      var b := c.request.update.value;
      var params := UserPatch(None, None, None, b.firstName, b.lastName, b.avatarUrl, b.bio, None);
      if b.email.Some? {
        params := params.(email := b.email);
      }
      if HasPassword(b.password) {
        var hash := HashPassword(b.password.value, c.inputs);
        if hash.None? {
          r := Response(500, Fault(Hashing));
          Advance(c, Start, db, Done(r), db);
          return;
        }
        params := params.(passwordHash := hash, passwordSalt := Some(c.inputs.salt));
      }
      ghost var pc := Start;
      if b.role.Some? {
        var role := store.GetRoleBySlug(b.role.value);
        if role.Failure? {
          var e := role.error;
          r := if IsNotFound(e) then Response(422, Message("unknown role")) else InternalError(e);
          Advance(c, Start, db, Done(r), db);
          return;
        }
        params := params.(roleId := Some(role.value.id));
        pc := RoleKnown(role.value);
        Advance(c, Start, db, pc, db);
      }
      r := ApplyPatch(c, b, params, pc);
    }

    /** The UPDATE and the answer of UpdateUser. */
    method ApplyPatch(c: Call, b: UserUpdate, params: UserPatch, ghost pc: Pc) returns (r: Response)
      requires store.Valid() && c.request.UpdateUserRequest? && c.request.update == Some(b)
      requires HasPassword(b.password) ==> !c.inputs.hashFails
      requires if b.role.None? then pc.Start? else pc.RoleKnown?
      requires var hash := if HasPassword(b.password) then HashPassword(b.password.value, c.inputs) else None;
               params == PatchOf(b, hash, c.inputs.salt, if pc.RoleKnown? then Some(pc.role.id) else None)
      modifies store
      ensures store.Valid()
      ensures Finish(c, pc, old(store.Contents())) == (store.Contents(), r)
    {
      ghost var db := store.Contents();
      var updated := store.UpdateUser(c.request.id, params, c.inputs.now);
      ghost var db' := store.Contents();
      if updated.Failure? {
        r := UserWriteError(updated.error);
        Advance(c, pc, db, Done(r), db');
        return;
      }
      Advance(c, pc, db, Written(updated.value), db');
      var user := UserWithRole(updated.value);
      r := Response(200, UserBody(user));
      Advance(c, Written(updated.value), db', Done(r), db');
    }

    /** A stored row is shown with its own role; a role with nothing but an id only stands for one that
        is not there. */
    method UserWithRole(u: User) returns (user: ApiUser)
      requires store.Valid()
      ensures user == Handlers.UserWithRole(store.Contents(), u)
      ensures if u.roleId in KeysOf(store.roles, RoleId)
              then exists role :: role in store.roles && role.id == u.roleId && user == ToApiUser(u, role)
              else user == ToApiUser(u, Role(u.roleId, "", []))
      ensures u in store.users ==> u.roleId in KeysOf(store.roles, RoleId)
    {
      assert u in store.users ==> UserRoleId(u) in KeysOf(store.roles, RoleId);
      Lookup(store.roles, RoleId, u.roleId);
      var role := store.GetRole(u.roleId);
      if role.Failure? {
        return ToApiUser(u, Role(u.roleId, "", []));
      }
      user := ToApiUser(u, role.value);
    }

    method ReplaceUser(c: Call) returns (r: Response)
      requires store.Valid() && c.request.ReplaceUserRequest?
      modifies store
      ensures store.Valid()
      ensures Atomic(c, old(store.Contents())) == (store.Contents(), r)
    {
      ghost var db := store.Contents();
      var body := c.request.newUser;
      if body.None? || !HasPassword(body.value.password) {
        r := Response(422, Message("password is required"));
        Advance(c, Start, db, Done(r), db);
        return;
      }
      var b := body.value;
      var role := store.GetRoleBySlug(b.role);
      if role.Failure? {
        var e := role.error;
        r := if IsNotFound(e) then Response(422, Message("unknown role")) else InternalError(e);
        Advance(c, Start, db, Done(r), db);
        return;
      }
      var hash := HashPassword(b.password.value, c.inputs);
      if hash.None? {
        r := Response(500, Fault(Hashing));
        Advance(c, Start, db, Done(r), db);
        return;
      }
      Advance(c, Start, db, RoleKnown(role.value), db);
      var columns := UserColumnsOf(b, hash.value, c.inputs.salt, role.value);
      var updated := store.ReplaceUser(c.request.id, columns, c.inputs.now);
      r := if updated.Failure? then UserWriteError(updated.error)
           else Response(200, UserBody(ToApiUser(updated.value, role.value)));
      Advance(c, RoleKnown(role.value), db, Done(r), store.Contents());
    }

    method DeleteUser(c: Call) returns (r: Response)
      requires store.Valid() && c.request.DeleteUserRequest?
      modifies store
      ensures store.Valid()
      ensures Atomic(c, old(store.Contents())) == (store.Contents(), r)
    {
      ghost var db := store.Contents();
      store.DeleteUser(c.request.id);
      r := Response(204, Empty);
      Advance(c, Start, db, Done(r), store.Contents());
    }

    // ---- posts ----

    method ListPosts(c: Call) returns (r: Response)
      requires store.Valid() && c.request.ListPostsRequest?
      ensures Atomic(c, store.Contents()) == (store.Contents(), r)
    {
      ghost var db := store.Contents();
      var w := Paginate(c.request.page, c.request.perPage);
      var rows := store.ListPosts(c.request.filter, w.limit, w.offset);
      if rows.Failure? {
        r := InternalError(rows.error);
        Advance(c, Start, db, Done(r), db);
        return;
      }
      Advance(c, Start, db, PostsRead(rows.value), db);
      var total := store.CountPosts(c.request.filter);
      var data := MapRows(rows.value, (row: (Post, nat)) => ToApiPost(row.0, row.1));
      assert data[..] == ToApiPosts(rows.value);
      match total {
        case Success(n) => r := Response(200, PostsBody(data[..], Meta(n, w.page, w.perPage)));
        case Failure(e) => r := InternalError(e);
      }
      Advance(c, PostsRead(rows.value), db, Done(r), db);
    }

    method CreatePost(c: Call) returns (r: Response)
      requires store.Valid() && c.request.CreatePostRequest?
      modifies store
      ensures store.Valid()
      ensures Atomic(c, old(store.Contents())) == (store.Contents(), r)
    {
      ghost var db := store.Contents();
      if c.identity.None? {
        r := Response(401, Message("authentication required"));
      } else if c.request.newPost.None? {
        r := Response(400, Message("empty body"));
      } else {
        var b := c.request.newPost.value;
        var slug := Slugify(b.title, c.inputs.suffix);
        var columns := PostColumns(b.title, slug, b.content, b.excerpt, b.status.GetOr("draft"),
                                   b.categories.GetOr([]), b.tags.GetOr([]));
        var created := store.CreatePost(NewPost(c.inputs.newId, c.identity.value, columns, c.inputs.now));
        r := if created.Failure? then InternalError(created.error)
             else Response(201, PostBody(ToApiPost(created.value, 0)));
      }
      Advance(c, Start, db, Done(r), store.Contents());
    }

    method GetPost(c: Call) returns (r: Response)
      requires store.Valid() && c.request.GetPostRequest?
      ensures Atomic(c, store.Contents()) == (store.Contents(), r)
    {
      var row := store.GetPost(c.request.id);
      if row.Failure? {
        var e := row.error;
        r := if IsNotFound(e) then Response(404, Message("post not found")) else InternalError(e);
      } else {
        r := Response(200, PostBody(ToApiPost(row.value.0, row.value.1)));
      }
      Advance(c, Start, store.Contents(), Done(r), store.Contents());
    }

    method ReplacePost(c: Call) returns (r: Response)
      requires store.Valid() && c.request.ReplacePostRequest?
      modifies store
      ensures store.Valid()
      ensures Atomic(c, old(store.Contents())) == (store.Contents(), r)
    {
      ghost var db := store.Contents();
      if c.request.newPost.None? {
        r := Response(400, Message("empty body"));
      } else {
        var b := c.request.newPost.value;
        var slug := Slugify(b.title, c.inputs.suffix);
        var columns := PostColumns(b.title, slug, b.content, b.excerpt, b.status.GetOr("draft"),
                                   b.categories.GetOr([]), b.tags.GetOr([]));
        var updated := store.ReplacePost(c.request.id, columns, c.inputs.now);
        if updated.Failure? {
          var e := updated.error;
          r := if IsNotFound(e) then Response(404, Message("post not found"))
               else InternalError(e);
        } else {
          r := Response(200, PostBody(ToApiPost(updated.value, 0)));
        }
      }
      Advance(c, Start, db, Done(r), store.Contents());
    }

    method DeletePost(c: Call) returns (r: Response)
      requires store.Valid() && c.request.DeletePostRequest?
      modifies store
      ensures store.Valid()
      ensures Atomic(c, old(store.Contents())) == (store.Contents(), r)
    {
      ghost var db := store.Contents();
      store.DeletePost(c.request.id);
      r := Response(204, Empty);
      Advance(c, Start, db, Done(r), store.Contents());
    }

    // ---- comments ----

    /** The post is read first, so that a missing post is not an empty list. */
    method ListComments(c: Call) returns (r: Response)
      requires store.Valid() && c.request.ListCommentsRequest?
      ensures Atomic(c, store.Contents()) == (store.Contents(), r)
    {
      ghost var db := store.Contents();
      var post := store.GetPost(c.request.postId);
      if post.Failure? {
        var e := post.error;
        r := if IsNotFound(e) then Response(404, Message("post not found")) else InternalError(e);
        Advance(c, Start, db, Done(r), db);
        return;
      }
      Advance(c, Start, db, PostSeen, db);
      var w := Paginate(c.request.page, c.request.perPage);
      var rows := store.ListComments(c.request.postId, w.limit, w.offset);
      if rows.Failure? {
        r := InternalError(rows.error);
        Advance(c, PostSeen, db, Done(r), db);
        return;
      }
      Advance(c, PostSeen, db, CommentsRead(rows.value), db);
      var total := store.CountComments(c.request.postId);
      var data := MapRows(rows.value, (row: Comment) => ToApiComment(row));
      assert data[..] == ToApiComments(rows.value);
      r := Response(200, CommentsBody(data[..], Meta(total, w.page, w.perPage)));
      Advance(c, CommentsRead(rows.value), db, Done(r), db);
    }

    method CreateComment(c: Call) returns (r: Response)
      requires store.Valid() && c.request.CreateCommentRequest?
      modifies store
      ensures store.Valid()
      ensures Atomic(c, old(store.Contents())) == (store.Contents(), r)
    {
      ghost var db := store.Contents();
      if c.identity.None? {
        r := Response(401, Message("authentication required"));
      } else if c.request.content.None? {
        r := Response(400, Message("empty body"));
      } else {
        var now := c.inputs.now;
        var created := store.CreateComment(
          Comment(c.inputs.newId, c.request.postId, c.identity.value, c.request.content.value, now, now));
        if created.Failure? {
          r := if IsUniqueViolation(created.error) then Response(404, Message("post not found"))
               else InternalError(created.error);
        } else {
          r := Response(201, CommentBody(ToApiComment(created.value)));
        }
      }
      Advance(c, Start, db, Done(r), store.Contents());
    }

    method UpdateComment(c: Call) returns (r: Response)
      requires store.Valid() && c.request.UpdateCommentRequest?
      modifies store
      ensures store.Valid()
      ensures Atomic(c, old(store.Contents())) == (store.Contents(), r)
    {
      ghost var db := store.Contents();
      if c.request.content.None? {
        r := Response(400, Message("empty body"));
      } else {
        var updated := store.UpdateComment(c.request.commentId, c.request.content.value, c.inputs.now);
        if updated.Failure? {
          var e := updated.error;
          r := if IsNotFound(e) then Response(404, Message("comment not found"))
               else InternalError(e);
        } else {
          r := Response(200, CommentBody(ToApiComment(updated.value)));
        }
      }
      Advance(c, Start, db, Done(r), store.Contents());
    }

    method DeleteComment(c: Call) returns (r: Response)
      requires store.Valid() && c.request.DeleteCommentRequest?
      modifies store
      ensures store.Valid()
      ensures Atomic(c, old(store.Contents())) == (store.Contents(), r)
    {
      ghost var db := store.Contents();
      store.DeleteComment(c.request.commentId);
      r := Response(204, Empty);
      Advance(c, Start, db, Done(r), store.Contents());
    }
  }
}
