# Verified model of the sample API

A Dafny model of the blog API in `sample-api/` and of the scenario runner in `testing/run.sh`, with
proofs about them. `dafny verify dfyconfig.toml` checks everything.

The core is the store (four tables with unique keys, foreign keys and cascading deletes) and the
request handlers above it. No handler opens a transaction: a handler is a short program of one to
three SQL statements, each atomic, and steps of any number of requests interleave freely.

| file | contents |
|---|---|
| `Tables`, `Schema`, `Seeding` | rows, tables as sequences, constraints, the rows the migration inserts |
| `Statements`, `Constraints`, `Cascade` | what each SQL statement does, and why that is what the schema says |
| `Store` | the same statements as methods that search and rewrite mutable tables |
| `Api`, `Handlers`, `Server` | requests and answers, handlers as step programs, handlers as methods |
| `Runs`, `Linearizability`, `ListReads`, `ListMoments` | interleavings, the order in which they can be understood, and what the list endpoints answer in them |
| `Invariants`, `RoleResolution`, `CommentCounts`, `Joins` | what every reachable store satisfies |
| `Shown` | answers field by field against the stored rows, and the order of lists |
| `Credentials`, `PartialUpdates`, `Answers` | log-ins, PATCH and PUT, every answer with its condition, and later reads |
| `Pagination`, `Sorting`, `Paging`, `PageRange` | 32-bit offsets, ordering, pages, pages out of range |
| `Slugs` | `slugify` |
| `Shutdown` | `server.Run` |
| `Substitution`, `Scenarios` | `subst` on one template, and the store file it reads |
| `Tokens` | base64url, JWT assembly, the Bearer header |

## Conventions

- Fresh UUIDs, the clock, salts, bcrypt's own nonce, slug suffixes, and whether hashing or signing
  fails are inputs of each request (`Api.Inputs`). Nothing assumes that the ids or suffixes a request
  draws are new: collisions are answered as the code answers them. Only the four ids the migration
  draws are taken to differ, or it would have failed.
- A bcrypt hash is symbolic: it verifies a password with a salt exactly when their concatenation is
  the string that was hashed.
- A SQL statement is atomic; it fails with a PostgreSQL code or with no rows. On an insert, key
  conflicts are reported before missing references. Rows with equal `created_at` keep table order.
- A step of a handler ends with a SQL statement. `Atomic` is a handler's program without interruption;
  every method of `Servers.Server` is proved equal to it.
- In `Linearizability` and `Credentials` the deciding statement of a request is its write, or the last
  read its answer depends on; only the read of a written row's role comes after it.

## Where the code differs from its own words

- `sample-api/pkg/openapi/comment.go:59` says a missing post surfaces as a unique violation. It is a
  foreign-key violation, so it is a 500; the 404 is given exactly when the drawn comment id is already
  in use (`Answers.CreatedComment`, `Answers.MissingPostIsNot404`).
- `sample-api/pkg/openapi/post.go:147-148` says the suffix guarantees a unique slug. Two slugs agree
  exactly when base and suffix do, and the insert then fails with a 500 (`Slugs.SlugInjective`,
  `Answers.CreatedPost`).
- PUT on a post reports no comments; that is right exactly when it has none (`Answers.ReplacedPost`).
- PUT and DELETE of a comment ignore the post in the path, and a DELETE of an absent row is a 204.
- PATCH hashes before it resolves the role, PUT after, which shows when both fail
  (`PartialUpdates.FullPatchIsPut`).
- A page whose offset does not fit in 32 bits is a 500 when the remaining bits read as negative, and
  otherwise a 200 with the rows at another offset: page 1073741825 of four has the posts of page 1
  (`PageRange.EveryPostsPage`, `PageRange.FarPageIsFirst`).
- A list endpoint reads rows and total in two statements. It answers as at the moment its rows were read
  exactly when the count was the same at both (for comments, and the post was still there;
  `ListReads.UsersPageExact`, `ListReads.CommentsPageExact`), and as at any other moment exactly when
  rows and count were then what it read (`ListMoments.UsersPageMoments`). It can give a page no store
  has (`ListReads.UsersPageTorn`).
- A variable captured twice in a scenario keeps its first value (`Substitution.RecaptureIgnored`), and a
  captured value of several lines keeps its first line and makes bindings of the others
  (`Scenarios.ReadManyLines`, `Scenarios.TwoLinesSplit`).
- Replacing variables one after the other is replacing them all at once for some templates only, and
  exactly which can be read off the template (`Substitution.SubstitutionExact`).
- PUT on a post with a slug in use is a 500, not a 409 (`Answers.PutPostStatus`).

## Model

| member | source | states |
|---|---|---|
| Linearizability.Linearizable | sample-api/pkg/openapi/user.go:34-198 | At every moment of every interleaving of any requests, the store is the one reached by running the decided requests one at a time, each once, in the order of their deciding statements; every answer given outside the list endpoints is the one that sequence gives. |
| Linearizability.RealTimeOrder | sample-api/pkg/openapi/user.go:87-136 | A request answered before another began comes before it in that order. |
| Linearizability.RolesFixed | sample-api/pkg/db/query.sql.go:266-288 | No step of any handler writes `user_roles`. |
| Runs.RunProgress | sample-api/pkg/openapi/user.go:13-30 | In every interleaving, where a request stands depends on the others only through the stores it saw at its own steps. |
| ListReads.UsersPageExact | sample-api/pkg/openapi/user.go:13-30 | In every interleaving a users page has the rows of its first read and the total of its second; it is the answer of the first moment if and only if the number of users was the same at both, or the offset was refused. |
| ListReads.PostsPageExact | sample-api/pkg/openapi/post.go:15-42 | The same for posts, with the number of posts the filter selects; a bad status is refused at once. |
| ListReads.CommentsPageExact | sample-api/pkg/openapi/comment.go:11-40 | The same for comments, which take three reads: the answer is that of the moment the rows were read if and only if the post was still there then and the count the same at the last read. |
| ListMoments.UsersPageMoments | sample-api/pkg/openapi/user.go:13-30 | In every interleaving a users page is the answer of a moment of the run if and only if the rows were then those of its first read and the count that of its second: so of the second read exactly if the rows agree, and of some moment between the reads exactly if one of them had both. |
| ListMoments.PostsPageMoments | sample-api/pkg/openapi/post.go:15-42 | The same for posts; a refused filter or offset is the answer of every moment. |
| ListMoments.CommentsPageMoments | sample-api/pkg/openapi/comment.go:11-40 | The same for comments, where the post must also be there at that moment, between the first read and the third. |
| ListReads.UsersPageTorn | sample-api/pkg/openapi/user.go:16-29 | A concrete interleaving with a delete whose users page is the answer of no store at all. |
| ListReads.PostsPageTorn | sample-api/pkg/openapi/post.go:17-41 | One whose posts page is the answer of no store at all. |
| ListReads.CommentsPageTorn | sample-api/pkg/openapi/comment.go:20-39 | One whose comments page is the answer of no store at all. |
| ListReads.DeletedPostListed | sample-api/pkg/openapi/comment.go:12-39 | One in which the post goes after the first read: a 200 with an empty page, which the request alone gets in no store of the run. |
| Handlers.StepProgress | sample-api/pkg/openapi/user.go:87-136 | Each step of a request brings it nearer to its answer, independently of other requests: three statements at most. |
| Invariants.SeededRunIntact | sample-api/pkg/db/migrations/000001_init_schema.up.sql:7-81 | From the seed, every store in every interleaving has unique ids, emails and slugs, an existing role for each user, author for each post, post and author for each comment, and only the three statuses. |
| Invariants.RunIntact | sample-api/pkg/db/migrations/000001_init_schema.up.sql:7-51 | The same from any store that satisfies the constraints. |
| Seeding.SeedIntact | sample-api/pkg/db/migrations/000001_init_schema.up.sql:57-81 | The seeded rows satisfy every constraint whenever the drawn user ids differ. |
| Seeding.UserScopes | sample-api/pkg/db/migrations/000001_init_schema.up.sql:57-71 | Only the admin role manages users and deletes comments of others. |
| Seeding.OwnPostScopes | sample-api/pkg/db/migrations/000001_init_schema.up.sql:57-71 | Only the editor role has the scopes for its own posts, and only the reader role that for reading itself. |
| Constraints.CreateUserIffIntact | sample-api/pkg/db/migrations/000001_init_schema.up.sql:13-25 | INSERT of a user succeeds if and only if the table it would leave satisfies every constraint. |
| Constraints.ChangeUserIffIntact | sample-api/pkg/db/query.sql.go:592-688 | UPDATE of a user succeeds if and only if the row exists and the table it would leave satisfies every constraint. |
| Constraints.CreatePostIffIntact | sample-api/pkg/db/migrations/000001_init_schema.up.sql:28-40 | INSERT of a post succeeds if and only if the result satisfies every constraint, the enum included. |
| Constraints.ReplacePostIffIntact | sample-api/pkg/db/query.sql.go:539-551 | UPDATE of a post succeeds if and only if the row exists and the result satisfies every constraint. |
| Constraints.CreateCommentIffIntact | sample-api/pkg/db/migrations/000001_init_schema.up.sql:44-51 | INSERT of a comment succeeds if and only if the result satisfies every constraint. |
| Constraints.UpdateCommentIntact | sample-api/pkg/db/query.sql.go:648-654 | UPDATE of a comment succeeds if and only if it exists, and keeps every constraint. |
| Constraints.DeleteCommentIntact | sample-api/pkg/db/query.sql.go:188-190 | Deleting a comment keeps every constraint. |
| Constraints.DeleteUserIntact | sample-api/pkg/db/query.sql.go:206-208 | Deleting a user with its cascades keeps every constraint. |
| Constraints.DeletePostIntact | sample-api/pkg/db/query.sql.go:197-199 | Deleting a post with its cascade keeps every constraint. |
| Cascade.DeleteUserExact | sample-api/pkg/db/migrations/000001_init_schema.up.sql:30-47 | Deleting a user leaves, unchanged and in order, exactly the users, posts and comments that do not depend on it: not by it, not on its posts. |
| Cascade.CascadeConfluence | sample-api/pkg/db/migrations/000001_init_schema.up.sql:28-51 | Take out the user row and then dangling rows one by one in any order: when none is left, the store is the one DELETE gives. |
| Cascade.CascadeLength | sample-api/pkg/db/migrations/000001_init_schema.up.sql:28-51 | Such a sequence takes at most as many steps as there are dependents, and exactly as many if and only if nothing dangles at its end. |
| Cascade.PostCascadeConfluence | sample-api/pkg/db/migrations/000001_init_schema.up.sql:44-47 | The same confluence for deleting a post and its comments. |
| Stores.Store.constructor | sample-api/pkg/db/migrations/000001_init_schema.up.sql:57-81 | The migration leaves the seeded store, with every constraint satisfied. |
| Stores.Store.CreateUser | sample-api/pkg/db/query.sql.go:137-186 | Scans for id, email and role, appends or reports the code; new state and result are those of the statement; constraints kept. |
| Stores.Store.ChangeUser | sample-api/pkg/db/query.sql.go:592-730 | UPDATE of one row by scanning, with the email and role checks; new state and result as specified. |
| Stores.Store.UpdateUser | sample-api/pkg/db/query.sql.go:675-730 | The COALESCE update: NULL leaves a column as it is. |
| Stores.Store.ReplaceUser | sample-api/pkg/db/query.sql.go:592-646 | The full update. |
| Stores.Store.DeleteUser | sample-api/pkg/db/query.sql.go:206-213 | Removes the row, then its posts, then comments on them and by it; the state is the specified one. |
| Stores.Store.CreatePost | sample-api/pkg/db/query.sql.go:85-135 | INSERT of a post with the enum, id, slug and author checks. |
| Stores.Store.ReplacePost | sample-api/pkg/db/query.sql.go:539-590 | UPDATE of a post with the enum and slug checks. |
| Stores.Store.DeletePost | sample-api/pkg/db/query.sql.go:197-204 | Removes the post and its comments. |
| Stores.Store.CreateComment | sample-api/pkg/db/query.sql.go:57-83 | INSERT of a comment with the id, post and author checks. |
| Stores.Store.UpdateComment | sample-api/pkg/db/query.sql.go:648-673 | UPDATE of one comment. |
| Stores.Store.ListPosts | sample-api/pkg/db/query.sql.go:398-460 | Filters, orders, skips, limits and counts comments in loops; the creation times of the rows never rise; bad status and negative offset are errors. |
| Stores.Store.ListUsers | sample-api/pkg/db/query.sql.go:486-537 | The joined window of users, by loops; creation times never rise. |
| Stores.Store.ListComments | sample-api/pkg/db/query.sql.go:358-396 | The window of a post's comments, by loops; creation times never fall. |
| Stores.Store.GetUserByEmail | sample-api/pkg/db/query.sql.go:324-356 | The joined row with the email, or no rows. |
| Stores.Store.GetUser | sample-api/pkg/db/query.sql.go:290-322 | The joined row with the id, or no rows. |
| Stores.Store.GetRole | sample-api/pkg/db/query.sql.go:266-277 | The role with the id, or no rows. |
| Stores.Store.GetRoleBySlug | sample-api/pkg/db/query.sql.go:279-288 | The role with the slug, or no rows. |
| Stores.Store.GetPost | sample-api/pkg/db/query.sql.go:233-264 | The post with its number of comments, or no rows. |
| Stores.Store.CountComments | sample-api/pkg/db/query.sql.go:14-23 | Counts the comments of a post, in a loop. |
| Stores.Store.CountPosts | sample-api/pkg/db/query.sql.go:25-44 | Counts the posts a filter selects; a bad status is an error. |
| Stores.Store.DeleteComment | sample-api/pkg/db/query.sql.go:188-195 | Removes one comment. |
| Servers.Server.CreateUser | sample-api/pkg/openapi/user.go:34-70 | Leaves the store and gives the answer of the handler's step program run without interruption. |
| Servers.Server.UpdateUser | sample-api/pkg/openapi/user.go:87-136 | Leaves the store and gives the answer of the handler's step program run without interruption, with the parameters filled field by field. |
| Servers.Server.ReplaceUser | sample-api/pkg/openapi/user.go:140-180 | Leaves the store and gives the answer of the handler's step program run without interruption. |
| Servers.Server.DeleteUser | sample-api/pkg/openapi/user.go:184-189 | Leaves the store and gives the answer of the handler's step program run without interruption. |
| Servers.Server.ListUsers | sample-api/pkg/openapi/user.go:13-30 | Leaves the store and gives the answer of the handler's step program run without interruption, with the page filled row by row. |
| Servers.Server.Login | sample-api/pkg/openapi/auth.go:14-42 | Leaves the store and gives the answer of the handler's step program run without interruption. |
| Servers.Server.ListPosts | sample-api/pkg/openapi/post.go:15-42 | Leaves the store and gives the answer of the handler's step program run without interruption, with the page filled row by row. |
| Servers.Server.CreatePost | sample-api/pkg/openapi/post.go:46-70 | Leaves the store and gives the answer of the handler's step program run without interruption, with the slug computed by the pipeline. |
| Servers.Server.ReplacePost | sample-api/pkg/openapi/post.go:87-111 | Leaves the store and gives the answer of the handler's step program run without interruption. |
| Servers.Server.ListComments | sample-api/pkg/openapi/comment.go:11-40 | Leaves the store and gives the answer of the handler's step program run without interruption, with the post read first and the page filled row by row. |
| Servers.Server.CreateComment | sample-api/pkg/openapi/comment.go:44-66 | Leaves the store and gives the answer of the handler's step program run without interruption. |
| Servers.Server.UpdateComment | sample-api/pkg/openapi/comment.go:70-85 | Leaves the store and gives the answer of the handler's step program run without interruption. |
| Servers.Server.GetUser | sample-api/pkg/openapi/user.go:74-83 | Leaves the store and gives the answer of the handler's step program run without interruption. |
| Servers.Server.GetPost | sample-api/pkg/openapi/post.go:74-83 | Leaves the store and gives the answer of the handler's step program run without interruption. |
| Servers.Server.DeletePost | sample-api/pkg/openapi/post.go:115-120 | Leaves the store and gives the answer of the handler's step program run without interruption. |
| Servers.Server.DeleteComment | sample-api/pkg/openapi/comment.go:89-94 | Leaves the store and gives the answer of the handler's step program run without interruption. |
| Servers.Server.UserWithRole | sample-api/pkg/openapi/user.go:192-198 | A stored row is shown with its own role, never the fallback; the fallback, a role with nothing but its id, is for a role that is not there. |
| Shown.GetUserShows | sample-api/pkg/openapi/mapping.go:87-108 | GET of a user shows id, email, names, avatar, bio and both times of its row, and id, slug and scopes of the role that row refers to; without the row a 404. |
| Shown.GetPostShows | sample-api/pkg/openapi/mapping.go:110-126 | GET of a post shows every column of its row and the number of comments on it; without the row a 404. |
| Shown.UsersPageShows | sample-api/pkg/openapi/user.go:24-29 | Every user on any page is a stored row with its own role, field by field; creation times never rise. |
| Shown.PostsPageShows | sample-api/pkg/openapi/post.go:37-41 | Every post on any page is a stored row that matches the filter, field by field, with its number of comments; creation times never rise. |
| Shown.CommentsPageShows | sample-api/pkg/openapi/comment.go:35-39 | Every comment on any page is a stored row of the post, field by field; creation times never fall. |
| Shown.FilterAccepted | sample-api/pkg/db/migrations/000001_init_schema.up.sql:5 | A filter with a status other than draft, published or archived is a 500. |
| Shown.EnumAccepted | sample-api/pkg/openapi/post.go:15-42 | A filter with one of the three, and a page in range, is a 200. |
| Invariants.AuthorshipPermanent | sample-api/pkg/openapi/post.go:46-111 | Over every run, every post and comment was there at the start, or was made by a request carrying its author's identity, with the same id, author, post and creation time. |
| Invariants.PostLife | sample-api/pkg/db/query.sql.go:539-551 | From any moment of a run on, a post that stays in the store keeps its author and creation time. |
| Invariants.CommentLife | sample-api/pkg/db/query.sql.go:648-654 | The same for a comment's post, author and creation time. |
| Invariants.StoredSlugs | sample-api/pkg/openapi/post.go:143-156 | In every reachable store all slugs differ, and each is hyphen-joined words ending in eight hex digits whose rest is the base of the post's current title. |
| RoleResolution.RolesStable | sample-api/pkg/openapi/user.go:40-69 | In every run a role a request has read, or shows in its answer, is a row of `user_roles` with the slug asked for; the role of a row it has written can still be read, so the fallback of `userWithRole` is never reached. |
| Answers.RoleShown | sample-api/pkg/openapi/user.go:125-136 | In every run a request that wrote a user answers the row it left at its turn with the role that very row names, also when a PATCH names none. |
| Joins.JoinMatchesCount | sample-api/pkg/db/query.sql.go:46-48 | In every reachable store the join of users and roles has one row per user, as many as CountUsers. |
| Joins.GetUserFindsAll | sample-api/pkg/db/query.sql.go:290-295 | GetUser finds exactly the rows of `users`, each with the role it names. |
| CommentCounts.CommentsConserved | sample-api/pkg/db/query.sql.go:233-239 | In every reachable store the comment counts of all posts sum to the number of comments. |
| Credentials.LoginStatus | sample-api/pkg/openapi/auth.go:14-42 | Every status of a log-in at any moment of any run: 422 without a body or a password, 401 when no user has that email with that password as last set, 500 when one has and signing fails, else 200. |
| Credentials.LoginIncomplete | sample-api/pkg/openapi/auth.go:15-17 | Without a body or a password the answer is the 422, in every store. |
| Credentials.LoginAfterAnyRun | sample-api/pkg/openapi/auth.go:14-42 | At any moment of any run from the seed, a log-in is a 200 for a user exactly when the requests that have taken effect left that user with that email and that password as the last one set, a 401 exactly when they left no such user. |
| Credentials.LoginAfterAnswers | sample-api/pkg/openapi/auth.go:14-42 | Once every request that has taken effect is answered, the answers actually given decide who can log in. |
| Credentials.LoginDuringRun | sample-api/pkg/openapi/auth.go:19-29 | A log-in that is itself one of the interleaved requests is a 200 exactly when what took effect before it left that email and password. |
| Credentials.LoginToken | sample-api/pkg/openapi/auth.go:31-41 | The token is issued by `sample-api` under the drawn id, names the user and carries slug and scopes of its role, for one hour. |
| Credentials.SeededToken | sample-api/pkg/db/migrations/000001_init_schema.up.sql:75-81 | Each seeded user logs in with its role's slug as password; the token carries that role, the answer its name. |
| Credentials.PatchAgrees | sample-api/pkg/openapi/user.go:104-113 | A PATCH writes hash and salt as a pair or not at all, so the stored pair always belongs to the last password. |
| PartialUpdates.PatchesCompose | sample-api/pkg/db/query.sql.go:675-688 | Two successful PATCHes have the effect and the last answer of one with the later value of each field. |
| PartialUpdates.PatchSequence | sample-api/pkg/openapi/user.go:87-135 | So do any number of them. |
| PartialUpdates.PatchedRow | sample-api/pkg/db/query.sql.go:675-688 | A PATCH leaves in every column the value sent or the one that was there; an absent or empty password leaves hash and salt, any other sets both; all other rows stay. |
| PartialUpdates.UpdateKeepsIdentity | sample-api/pkg/db/query.sql.go:592-688 | PATCH and PUT keep every id and creation time, and all other rows. |
| PartialUpdates.FullPatchIsPut | sample-api/pkg/openapi/user.go:140-179 | A PATCH with every field set does and answers what PUT does, if and only if not both hashing fails and the role is unknown. |
| Answers.DoubleFailureDiffers | sample-api/pkg/openapi/user.go:104-123 | A request with both failures: a 500 from PATCH, a 422 from PUT. |
| Answers.CreateStatus | sample-api/pkg/openapi/user.go:34-70 | Every answer of POST on users: 422 for a password that is absent or empty, 422 for an unknown role, 500 when hashing fails, 409 for an email or id in use, else 201. |
| Answers.CreatedUser | sample-api/pkg/openapi/user.go:34-70 | Exactly when creation is a 201 and when a 409; the answer repeats the body and is what GET returns next. |
| Answers.PatchedUser | sample-api/pkg/openapi/user.go:125-135 | A PATCH answers what GET returns next. |
| Answers.ReplacedUser | sample-api/pkg/openapi/user.go:159-179 | A PUT answers its own body and what GET returns next. |
| Answers.PutStatus | sample-api/pkg/openapi/user.go:140-180 | Every answer of PUT on a user: 422 for a password that is absent or empty or for an unknown role, 500, 404, 409 or 200, and the exact condition of each. |
| Answers.PatchStatus | sample-api/pkg/openapi/user.go:87-136 | Every answer of PATCH on a user, 500, 422, 404, 409 or 200, and the exact condition of each. |
| Answers.ReadUserStatus | sample-api/pkg/openapi/user.go:74-83 | GET of a user is a 200 if the row exists, otherwise a 404. |
| Answers.ReadPostStatus | sample-api/pkg/openapi/post.go:74-83 | GET of a post is a 200 if the row exists, otherwise a 404. |
| Answers.ListCommentsStatus | sample-api/pkg/openapi/comment.go:11-18 | A list of comments is a 404 exactly when the post is missing. |
| Answers.CreatedPost | sample-api/pkg/openapi/post.go:46-70 | Exactly when creation is a 201, a 500 otherwise; the answer repeats the body and is what GET returns next. |
| Answers.SecondPostRefused | sample-api/pkg/openapi/post.go:147-156 | After a successful post, another with the same title and suffix is a 500, in every store. |
| Answers.SameSlugIs500 | sample-api/pkg/openapi/post.go:60-66 | Two such requests, the first a 201 and the second a 500. |
| Answers.PutPostStatus | sample-api/pkg/openapi/post.go:87-111 | Every status of PUT on a post, 500, 404 or 200, and the exact condition of each; only a 200 changes the store. |
| Answers.PutHidesComment | sample-api/pkg/openapi/post.go:87-111 | A post with one comment: PUT reports none, the GET after it one. |
| Answers.ReplacedPost | sample-api/pkg/openapi/post.go:87-111 | A PUT that succeeds repeats the body; its comment count of 0 is what GET reports exactly when the post has no comments. |
| Answers.CreatedComment | sample-api/pkg/openapi/comment.go:44-66 | Exactly when creation is a 201, a 404 (the drawn id is in use) or a 500 (post or author missing). |
| Answers.MissingPostIsNot404 | sample-api/pkg/openapi/comment.go:58-63 | A concrete missing post answered 500. |
| Answers.UpdatedComment | sample-api/pkg/openapi/comment.go:70-85 | A PUT finds the comment by its id alone and changes its content and time and nothing else. |
| Answers.DeletedUser | sample-api/pkg/openapi/user.go:184-189 | DELETE is a 204 whether or not the user is there, leaves it absent, and does nothing the second time. |
| Answers.DeletedPost | sample-api/pkg/openapi/post.go:115-120 | The same for a post. |
| Answers.DeletedComment | sample-api/pkg/openapi/comment.go:89-94 | The same for a comment, whatever post the path names; all other comments stay. |
| Answers.Unauthenticated | sample-api/pkg/openapi/server.go:49-71 | Posts and comments are refused with a 401, and nothing changes, exactly when the header carries no usable token: a Bearer prefix, three parts, the first two decodable, a subject. |
| Answers.NoBody | sample-api/pkg/openapi/user.go:87-91 | A write without a body changes nothing: a 422 for POST and PUT of a user, a 400 for the others. |
| Answers.PostedBySubject | sample-api/pkg/openapi/post.go:46-56 | A post made with a minted token is by the subject of its payload. |
| Pagination.Paginate | sample-api/pkg/openapi/mapping.go:21-41 | The page asked for or 1, the size asked for up to 100 or 20, and the offset is the mathematical one exactly when page-1 is at most (2^31-1)/per_page rounded down. |
| Pagination.SafePages | sample-api/pkg/openapi/mapping.go:28-41 | No page up to 21474837 wraps for any page size; the next one does for 100 per page. |
| Sorting.OrderByOrdered | sample-api/pkg/db/query.sql.go:406-407 | ORDER BY gives an ordered sequence. |
| Sorting.OrderByKeeps | sample-api/pkg/db/query.sql.go:406-407 | ORDER BY loses and repeats no row. |
| Paging.PostPagesPartition | sample-api/pkg/openapi/post.go:15-42 | In a fixed store, for every filter and page size, the pages that cover the total, one after the other, give every matching post once, with its comment count, each created no earlier than the next. |
| Paging.PostPageTotal | sample-api/pkg/openapi/post.go:32-41 | Every page reports the number of matching posts as total, and a page is empty exactly when the pages before it cover the total. |
| Pagination.KeptWindow | sample-api/pkg/openapi/mapping.go:28-41 | For every page and size, the offset is the true one modulo 2^32, read as signed; it is the true one exactly when page-1 is at most (2^31-1)/per_page rounded down. |
| PageRange.EveryPostsPage | sample-api/pkg/openapi/post.go:15-42 | For every page number and size: the page asked for if the offset fits; else a 500 if the kept 32 bits are negative, else the rows at the kept offset. Right exactly if the offset fits, or the kept one is not negative and not below the total. |
| PageRange.FarPageIsFirst | sample-api/pkg/openapi/mapping.go:40 | Page 1073741825 of four is answered with the posts of page 1, which is right only if there are none. |
| PageRange.EveryUsersPage | sample-api/pkg/openapi/user.go:13-30 | The same for every page of users. |
| PageRange.EveryCommentsPage | sample-api/pkg/openapi/comment.go:11-40 | The same for every page of the comments of a post. |
| Paging.UserPagesPartition | sample-api/pkg/openapi/user.go:13-30 | The pages of users give each user once with its role, CountUsers of them, each created no earlier than the next. |
| Paging.CommentPagesPartition | sample-api/pkg/openapi/comment.go:11-40 | The comment pages of a post give each comment once, as many as the post's comment count, each created no later than the next. |
| Slugs.Slugify | sample-api/pkg/openapi/post.go:149-156 | The lower-case, regex and trim pipeline gives the words of the title joined by hyphens, or `post`, and the suffix. |
| Slugs.BaseIgnoresCase | sample-api/pkg/openapi/post.go:150 | Titles that agree up to the case of ASCII letters have the same base. |
| Slugs.RunIsWord | sample-api/pkg/openapi/post.go:149-151 | A run of [A-Za-z0-9] in the title is one word of the base, as long and in lower case, between the words of what stands on its two sides. |
| Slugs.NoLetters | sample-api/pkg/openapi/post.go:152-154 | A title without letters and digits gives `post` and the suffix. |
| Slugs.TwoWords | sample-api/pkg/openapi/post.go:149-156 | Two words in any case with a space between them give both in lower case, a hyphen, and the suffix. |
| Slugs.CollapseJoin | sample-api/pkg/openapi/post.go:150 | Collapsing other characters to hyphens gives the joined words with at most one hyphen at either end. |
| Slugs.Trim | sample-api/pkg/openapi/post.go:151 | Takes off all hyphens at both ends and nothing else. |
| Slugs.WordsSplit | sample-api/pkg/openapi/post.go:145 | The words of a text split at any other character: with WordsOfWord, all there is to say about them. |
| Slugs.WordsOfWord | sample-api/pkg/openapi/post.go:145 | A run of [a-z0-9] is one word. |
| Slugs.SlugWords | sample-api/pkg/openapi/post.go:149-156 | A slug is hyphen-joined words: those of the base, then the suffix. |
| Slugs.BaseIdempotent | sample-api/pkg/openapi/post.go:149-154 | The base of a base is that base. |
| Slugs.SlugInjective | sample-api/pkg/openapi/post.go:147-156 | Dropping nine characters gives the base; two slugs are equal exactly when base and suffix are. |
| Shutdown.SendsNeverBlock | sample-api/pkg/server/server.go:26-33 | In every interleaving no send on the channel blocks, even after Run has returned. |
| Shutdown.ReturnedResult | sample-api/pkg/server/server.go:36-52 | A nil result means a cancellation, any other is an error a server produced, the first that was sent; each server has been shut down exactly once, the public one first. |
| Shutdown.TraceBounded | sample-api/pkg/server/server.go:22-53 | Every event lowers a measure; there are at most nine. |
| Shutdown.TriggeredRunReturns | sample-api/pkg/server/server.go:36-53 | After a failure or a cancellation some step of the program is possible until Run has returned. |
| Shutdown.UntriggeredRunWaits | sample-api/pkg/server/server.go:36-42 | Without either, Run stays at the select. |
| Shutdown.Execute | sample-api/pkg/server/server.go:22-53 | The routines' own code, under any schedule, is in the state the protocol says: a goroutine with an error finds room in the channel, a triggered run has returned or can go on, and what is returned is the first error sent, or nil after a cancellation, with both servers shut down once. |
| Substitution.SubstitutionExact | testing/run.sh:66-73 | For every template: one after the other is the same as all at once, for all stores with literal keys and plain values, if and only if no choice of variables to leave empty puts two braces together that open a run of key characters and placeholders closed by two braces. |
| Substitution.SubstitutionSimultaneous | testing/run.sh:66-73 | For keys without braces, tabs, newlines or wildcards, values without braces or `&`, and every safe template, replacing one variable after the other is replacing all at once. |
| Substitution.TemplateSafe | testing/run.sh:70 | A template without `{{` outside placeholders is safe. |
| Substitution.LoneBracesSafe | testing/run.sh:70 | `{{` alone is safe without being of that form. |
| Substitution.HalvesMeet | testing/run.sh:70 | Templates that are not safe though their only doubled braces are a placeholder's own: the empty value of the variable joins the single braces on its two sides. |
| Substitution.KeylessSkipped | testing/run.sh:69 | Lines without a key change no substitution. |
| Substitution.SubstitutionByFirstValue | testing/run.sh:66-73 | Only the first value of each key counts. |
| Substitution.SubstitutionUnordered | testing/run.sh:66-73 | With distinct keys the order of the store does not matter. |
| Substitution.RecaptureIgnored | testing/run.sh:66-73 | A further binding of a bound variable changes no substitution in a safe template. |
| Scenarios.ReadBack | testing/run.sh:187 | What is appended for a binding is read back as that binding and nothing else exactly when its value has no newline and neither starts nor ends with a tab. |
| Scenarios.TabsLost | testing/run.sh:68 | Of a value on one line, the tabs at its ends are lost and nothing else. |
| Scenarios.ReadManyLines | testing/run.sh:68 | A value of several lines binds its key to the first and leaves the rest to be read as bindings of their own. |
| Scenarios.TwoLinesSplit | testing/run.sh:186-187 | Every value of two words on two lines makes two bindings. |
| Scenarios.StoreReadsBack | testing/run.sh:66-73 | A store of any captures reads back as captured if and only if each of its values does. |
| Scenarios.Scenario.Capture | testing/run.sh:183-188 | For any value and any name a line can hold, a capture adds to the store what its text reads as, which is its binding exactly when the value can be stored; an empty name is skipped. |
| Scenarios.Scenario.Subst | testing/run.sh:66-73 | The loop over the lines of the store renders a safe template in one pass, with the store as it reads, and with the captures as made when all of them can be stored. |
| Substitution.DoubledBracesDiffer | testing/run.sh:70 | For every template with a placeholder nested in doubled braces, and every value that completes a key other than the nested one, the two differ. |
| Tokens.DecodeEncode | testing/run.sh:95 | Base64url without padding decodes to the bytes it was made from. |
| Tokens.EncodeDecode | testing/run.sh:95 | What decodes encodes back to itself exactly when its unused bits are zero. |
| Tokens.SplitMinted | testing/run.sh:98-104 | A minted token splits at its dots into three parts that decode to header, payload and the signature over the first two. |
| Tokens.MintedThroughBearer | sample-api/pkg/openapi/server.go:65-71 | A minted token passes through the Bearer header unchanged. |
| Tokens.PaddedToken | sample-api/pkg/openapi/server.go:65-71 | Blanks around the token in the header do not change the identity. |
| Tokens.IdentityOfMinted | sample-api/pkg/openapi/server.go:49-63 | The identity is the subject of the minted payload, whatever the signature; without the Bearer prefix there is none. |

## Left out

- Linearizable: the answers of the three list endpoints, which read more than once; `ListReads` says exactly when each is the answer of one moment, with a torn run for each.
- LoginAfterAnyRun: bcrypt is collision-free here. A hashing failure is an input of the request, for any reason: golang.org/x/crypto refuses more than 72 bytes, and with a salt of 60 that makes every password of more than 12 bytes a 500.
- Slugify: characters whose lower case is outside [a-z0-9] stand for themselves, which the pipeline cannot tell; the UUID behind the suffix is eight given hex digits.
- Scenarios.Scenario.Subst: does not model a store whose keys hold wildcards or whose values hold `&`, for the same reason as the next line.
- SubstitutionSimultaneous: `&` in values, which newer shells expand, is excluded rather than modelled, as are patterns with wildcards.
- PostPagesPartition: rows with equal `created_at` keep table order, one of the orders PostgreSQL may give; pages of a changing store are not related.
- Unauthenticated: Go skips CR and LF inside base64url, the model refuses them; net/http lets no such header value in.
- IdentityOfMinted: JSON and UUID parsing of the claims are one unspecified function.
- TriggeredRunReturns: that the scheduler eventually takes a possible step; Shutdown itself always returns, as its timeout ensures.
- The Rego policy, the generated decoding and routing code, configuration, health probes, logging and the Kubernetes files.
- PostgreSQL beyond the meaning of these statements: faults other than constraint and parameter errors, NUL bytes in text, 64-bit limits of counts.
- The salt generator's panic when bcrypt fails on the current time, and signing of tokens beyond its claims.
- The scenario runner's use of curl and jq, its expectations and its summary; the scenario files.
