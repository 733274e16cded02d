# TaskY backend: handlers, middleware and their stores, in Dafny

TaskY is a to-do service. An Express server with a Prisma database keeps
users and their tasks. This project models its request handlers
(`taskController.ts`, `userController.ts`, `authController.ts`) and its two
middlewares (`middleware/auth.ts`, `middleware/upload.ts`), and proves what
they guarantee.

How the model is built:

- **Stores.** The Prisma tables are classes that own a `seq` of rows:
  `TaskStore.TaskTable` and `UserStore.UserTable`. Each keeps a `Valid()`
  invariant: ids are distinct, and for users so are usernames and e-mail
  addresses. `updateMany` is `TaskStore.UpdateWhere`. It applies a `Patch`
  to every row that matches a `Where` filter, and `MatchCount` is the
  count it returns. A duplicate key is refused the way the database
  refuses it, and the handler then answers 500.
- **Handlers.** Each handler is a method or function that returns
  `written`, the list of every status code the handler writes, in order.
  The client sees the first one. A handler that writes a status and does
  not `return` shows up as a list of two, so the model keeps the
  fall-throughs the source has:
  - `completeTasks` writes 404 and then 200 when no task matches;
  - `registerUser` writes 409 and then still tries to create the user,
    which the unique columns refuse (500);
  - `loginUser` writes 400 for missing credentials and then still looks the
    user up and compares the password.
- **bcrypt and jsonwebtoken.** These are values of the datatypes
  `Crypto.Hasher` and `Crypto.Jwt`. Each has a `Sound()` predicate: a hash
  compares equal to its password, and a signed token is a non-empty word
  that verifies to its own claims. Lemmas that need these facts take them
  as preconditions.
- **Unset filter values.** The model assumes that Prisma drops a `where`
  field whose value is `undefined`, so in `loginUser` a missing identifier
  matches every user (see "## Left out"). The client gets the 400 written first. A missing
  password then reaches `bcrypt.compare`. If some row was found, bcrypt
  throws and the second write is 500; with no row the second write is 401.
- **Node's `path`.** `basename` and `extname` are modelled in `NodePath`,
  because the avatar file names depend on them.
- **Routes.** `routes/tasks.ts` registers `GET /:id` (line 22) before
  `GET /completed` and `GET /deleted` (lines 28-29). Under Express's
  first-match routing, those two listings are therefore answered by
  `getTaskById`, with the id `"completed"` or `"deleted"`.
  `GetCompletedTasks` and `GetDeletedTasks` model the handlers themselves.

In three places the code does less than its messages and names suggest,
and the model follows the code:

- Registration with a taken name does not stop at the conflict.
- A wrong current password does not leave the stored password alone
  (see Findings).
- A rejected or oversized upload is not a 400 or 413 from the handler. It
  is an error that multer passes on to Express.

## Model

| member | source | states |
|---|---|---|
| TaskStore.Apply | src/controllers/taskController.ts:91-95 | each `data` patch writes its own columns and `lastUpdated`, and never touches id, owner or creation date |
| TaskStore.UpdateWhere | src/controllers/taskController.ts:120-129 | `updateMany` patches exactly the matching rows, keeps the others, keeps every row's id and owner, and keeps ids distinct |
| TaskStore.MatchCount | src/controllers/taskController.ts:120-135 | the count `updateMany` reports is zero exactly when no row matches the filter |
| TaskStore.NoMatchNoChange | src/controllers/taskController.ts:120-135 | an update whose filter matches nothing leaves every row as it was |
| TaskStore.MatchCountAtMostOne | src/controllers/taskController.ts:86-101 | with distinct task ids, a filter that names an id matches at most one row |
| TaskStore.TaskTable.Create | src/controllers/taskController.ts:25-33 | `task.create` appends the row, or refuses a duplicate id and leaves the table unchanged |
| TaskStore.TaskTable.UpdateMany | src/controllers/taskController.ts:120-131 | the new rows are the old rows with the patch applied to exactly the matching ones, and the count of matches is returned |
| TaskController.CreateTask | src/controllers/taskController.ts:10-38 | 401 without a user, 400 without a title or description, 500 on an id clash, otherwise 201 and the table gains exactly one active, unfinished task owned by the caller |
| TaskController.UpdateTask | src/controllers/taskController.ts:70-108 | 401 without a user, 400 without a title or description, 404 when the caller owns no task with that id, otherwise 200 with only that task's text and timestamp changed |
| TaskController.UpdateOwned | src/controllers/taskController.ts:120-135 | the `updateMany`-then-count shape of delete, restore, complete and reopen: the table becomes `UpdateWhere` of the old rows, and the result says whether any row matched |
| TaskController.DeleteTask | src/controllers/taskController.ts:110-140 | moves the caller's task to the trash (any other task is unchanged) and answers 200, or 404 when none matches |
| TaskController.RestoreTasks | src/controllers/taskController.ts:142-173 | clears the trashed flag of the caller's trashed task with that id, or answers 404 when no trashed task matches |
| TaskController.CompleteTasks | src/controllers/taskController.ts:200-232 | marks the caller's task completed; when nothing matches it writes 404 and then 200, as the code does |
| TaskController.IncompleteTask | src/controllers/taskController.ts:234-267 | marks the caller's task not completed, or 404 |
| TaskController.DeleteIsIdempotent | src/controllers/taskController.ts:120-135 | a second delete, at any later time, leaves the same rows as a single delete at that time, and still finds the task |
| TaskController.RestoreNeedsTrashedTask | src/controllers/taskController.ts:152-168 | restoring a task that is not in the trash changes nothing and counts zero |
| TaskController.DeleteThenRestore | src/controllers/taskController.ts:120-168 | deleting and then restoring an untrashed task gives back the original rows except for the timestamp |
| TaskController.CompleteThenIncomplete | src/controllers/taskController.ts:210-260 | completing and then reopening an open task gives back the original rows except for the timestamp |
| TaskController.FindOwned | src/controllers/taskController.ts:50-55 | `findUnique` by id and owner returns a row that matches both, or none exists |
| TaskController.GetTaskById | src/controllers/taskController.ts:40-68 | 401 without a user; 200 exactly when the caller owns a task with that id, and then the task returned is the row the lookup finds; otherwise 404 with no task |
| TaskController.GetTaskByIdSeesOnlyOwnTasks | src/controllers/taskController.ts:50-60 | a task that getTaskById returns always belongs to the caller |
| TaskController.FindOwnedSeesOnlyOwnRows | src/controllers/taskController.ts:50-55 | the lookup's result depends only on the caller's own rows |
| TaskController.ForeignTaskIsNotFound | src/controllers/taskController.ts:50-60 | asking for another user's task id answers 404, exactly as for an id that does not exist |
| TaskController.Select | src/controllers/taskController.ts:183-188 | keeps exactly the rows of one owner in one view, and the result is a sub-multiset of the rows |
| TaskController.InsertNewestFirst | src/controllers/taskController.ts:189 | inserting into a newest-first list keeps it newest-first and adds exactly one element |
| TaskController.SortNewestFirst | src/controllers/taskController.ts:189 | the result is ordered by creation date, newest first, and is a permutation of the input |
| TaskController.ListView | src/controllers/taskController.ts:183-191 | a listing is the owner's rows of that view, newest first, and nothing else |
| TaskController.GetActiveTasks | src/controllers/taskController.ts:174-198 | 401 without a user; otherwise 200 with exactly the caller's open, untrashed tasks, newest first |
| TaskController.GetCompletedTasks | src/controllers/taskController.ts:269-293 | 401 without a user; otherwise 200 with exactly the caller's completed, untrashed tasks, newest first |
| TaskController.GetDeletedTasks | src/controllers/taskController.ts:295-318 | 401 without a user; otherwise 200 with exactly the caller's trashed tasks, newest first |
| TaskController.ViewsSplitOwnedRows | src/controllers/taskController.ts:183-311 | each owned row lies in exactly one view, so the three selections add up to the owner's rows |
| TaskController.ListingsPartitionOwnedTasks | src/controllers/taskController.ts:174-318 | the active, completed and trash listings are pairwise disjoint and together hold every task of the caller, each once |
| TaskController.CreatedTaskIsActive | src/controllers/taskController.ts:25-33 | a task just created shows up in the caller's active listing |
| TaskController.DeleteAndRestoreMoveBetweenLists | src/controllers/taskController.ts:120-168 | after a delete the task is in the trash listing and not the active one; after a restore, the reverse |
| UserStore.IndexOfId | src/controllers/userController.ts:19-21 | finds the position of the user with that id, or reports that there is none |
| UserStore.FindById | src/controllers/userController.ts:19-21 | `findUnique` by id returns the stored user with that id, or none exists |
| UserStore.Merge | src/controllers/userController.ts:60-63 | `value || undefined`: a truthy value replaces the column, anything else keeps it, so a filled column is never blanked |
| UserStore.ApplyPatch | src/controllers/userController.ts:59-64 | id and join date never change; only the password update writes the password and it writes nothing else; the other updates stamp `lastUpdate` |
| UserStore.SameKeysFit | src/controllers/userController.ts:101-105 | a patch that keeps id, username and e-mail keeps the uniqueness of every column |
| UserStore.UserTable.Create | src/controllers/authController.ts:31-39 | appends the user, or refuses one that clashes on id, username or e-mail and changes nothing |
| UserStore.UserTable.Update | src/controllers/userController.ts:57-76 | patches exactly the user with that id and returns it, or refuses (missing user or clashing key) and changes nothing |
| UserController.ProfileOf | src/controllers/userController.ts:22-31 | the `select`: every column of the row but the password |
| UserController.ProfileHidesOnlyPassword | src/controllers/userController.ts:22-31 | two rows give the same profile exactly when they differ at most in the password |
| UserController.WithAvatarUrl | src/controllers/userController.ts:78-80 | a set avatar `name` becomes exactly `/uploads/avatars/` + `name`, whose base name is `name` again; an unset or empty avatar and every other field are left as they are |
| UserController.AvatarUrlNamesFile | src/controllers/userController.ts:118-120 | the public avatar path ends in the stored file name |
| UserController.WithAvatarLiteral | src/controllers/userController.ts:37-39 | a set avatar is replaced by one fixed string that does not depend on the user |
| UserController.GetUserProfile | src/controllers/userController.ts:11-45 | 401 without a user, 404 for an unknown id, otherwise 200 with the user's profile without the password; a set avatar is replaced by the literal text, and an unset or empty one is returned as stored |
| UserController.ProfileAvatarIsNotInterpolated | src/controllers/userController.ts:37-39 | any two users with avatars get the same avatar string, so it does not name their file |
| UserController.GetUserProfileInterpolated | src/controllers/userController.ts:37-39 | with the template literal, a set avatar comes back as `/uploads/avatars/` + its name, whose base name is the stored file; an unset or empty one is returned as stored |
| UserController.ProfileMergeIsIdempotent | src/controllers/userController.ts:59-64 | sending the same profile update twice stores the same fields as sending it once |
| UserController.UpdateUserProfile | src/controllers/userController.ts:47-86 | 401 without a user; 500 and no change when the update is refused (missing row or a clashing username or e-mail); otherwise 200, only the given fields change, and the reply has the avatar path and no password |
| UserController.UploadUserAvatar | src/controllers/userController.ts:88-126 | 401 / 400 without a file / 500 for a missing user; otherwise 200 and the avatar becomes the base name of the stored path |
| AuthController.Taken | src/controllers/authController.ts:17-21 | a row found by the e-mail-or-username filter means the table refuses any new user with that username and e-mail |
| AuthController.RegisterUser | src/controllers/authController.ts:9-51 | 400 without a required field; for a taken username or e-mail, 409 then 500 and no change; otherwise 201 and one new user with the hashed password |
| AuthController.IdentifiedBy | src/controllers/authController.ts:61-65 | a row matches the login filter when the identifier is its username or e-mail, and every row matches when the identifier is absent |
| AuthController.FindByIdentifier | src/controllers/authController.ts:61-65 | returns the first user in store order whose username or e-mail is the identifier (any user when it is missing), or none exists; the database promises no order among several matches |
| AuthController.FindAppended | src/controllers/authController.ts:61-65 | appending a user that no earlier user matches makes the lookup find that user |
| AuthController.SessionView | src/controllers/authController.ts:77-84 | the login reply's `user`: id, username, e-mail, names and avatar of the row, and not the password hash |
| AuthController.LoginUser | src/controllers/authController.ts:53-90 | missing credentials write 400 and the handler carries on. With both credentials, the right password for the first user the lookup finds gives 200, a token signed for that user's id, and a session view without the password; anything else gives the one 401. A missing password with a row found writes 400 then 500. When only the identifier is missing, the second write is still the outcome of comparing the password with the first row's hash |
| AuthController.LoginFailuresLookAlike | src/controllers/authController.ts:66-81 | an unknown identifier and a known one with a wrong password give identical replies |
| AuthController.RegisteredUserCanLogIn | src/controllers/authController.ts:29-85 | a user just registered, with a sound hasher, can log in with the same password and gets 200 |
| AuthController.RegisteredUserCanLogInByEmail | src/controllers/authController.ts:29-85 | a user just registered, with a sound hasher, can log in with their e-mail address and the same password and gets 200 |
| AuthController.LoginTokenPassesGate | src/controllers/authController.ts:71-85 | the token a login hands out passes the auth middleware for the same user id |
| AuthController.LogoutUser | src/controllers/authController.ts:92-94 | logout always answers 200 and changes nothing |
| AuthController.UpdatePassword | src/controllers/authController.ts:96-129 | as written: a wrong current password writes 401 and still stores the new hash |
| AuthController.UpdatePasswordChecked | src/controllers/authController.ts:111-124 | exactly one status: 400 or 500 as before; the right current password stores the new hash and answers 200; a wrong one or a missing row answers 401 and changes nothing |
| AuthMiddleware.Split | src/middleware/auth.ts:16 | JavaScript `split`: at least one piece, no piece contains the separator |
| AuthMiddleware.JoinSplit | src/middleware/auth.ts:16 | joining the pieces with the separator gives back the header |
| AuthMiddleware.SplitWord | src/middleware/auth.ts:16 | a string without the separator splits into itself |
| AuthMiddleware.SplitAtFirst | src/middleware/auth.ts:16 | splitting `a + sep + b` gives `a` followed by the pieces of `b` |
| AuthMiddleware.ExtractToken | src/middleware/auth.ts:15-16 | the token is the second space-separated word of the header, or there is none |
| AuthMiddleware.Gate | src/middleware/auth.ts:10-33 | 401 exactly when there is no token; a token that verifies is always admitted with its decoded user id; one that does not verify gets 403 |
| AuthMiddleware.HeaderWithoutSpaceIsRejected | src/middleware/auth.ts:15-21 | a header with no space is rejected with 401 |
| AuthMiddleware.TokenIsSecondWord | src/middleware/auth.ts:16 | in `scheme token rest` the extracted token is `token` |
| AuthMiddleware.DoubleSpaceIsRejected | src/middleware/auth.ts:16-21 | `Bearer` followed by two spaces gives an empty token and 401 |
| AuthMiddleware.SignedTokenIsAdmitted | src/middleware/auth.ts:23-28 | `Bearer` plus a signed token admits the user it was signed for |
| AuthMiddleware.AuthenticateToken | src/middleware/auth.ts:10-33 | sets the request's user id and calls the next handler exactly when admitted; otherwise writes the gate's status and does not call it |
| NodePath.Basename | src/controllers/userController.ts:101 | the base name has no slash |
| NodePath.BasenameOfJoin | src/controllers/userController.ts:101 | the base name of `dir/name` is `name` when `name` has no slash |
| NodePath.BasenameOfName | src/middleware/upload.ts:14 | a name without a slash is its own base name |
| NodePath.ExtName | src/middleware/upload.ts:14 | `path.extname`: a suffix of the base name that is one `.` segment, and empty exactly when the base name has no `.`, its only `.` is the first character, or it is `..` |
| NodePath.ExtNameOfDottedName | src/middleware/upload.ts:14 | the extension of `stem.ext` is `.ext` when the stem is a plain name |
| NodePath.ExtNameWithoutDot | src/middleware/upload.ts:14 | a name without a dot has no extension |
| NodePath.ExtNameOfDotFile | src/middleware/upload.ts:14 | a name whose only dot is its first character has no extension |
| UploadMiddleware.MaxAvatarIsFiveMebibytes | src/middleware/upload.ts:34 | the size limit is 5,242,880 bytes |
| UploadMiddleware.FileFilter | src/middleware/upload.ts:19-29 | a file is accepted exactly when its MIME type starts with `image/` |
| UploadMiddleware.FileFilterAcceptsImages | src/middleware/upload.ts:24-28 | every `image/...` type is accepted and every type not starting with `image/` is refused |
| UploadMiddleware.StorageName | src/middleware/upload.ts:13-15 | the computed name is the user id followed by `path.extname` of the original name, which is empty or one `.` segment |
| UploadMiddleware.StorageNameExamples | src/middleware/upload.ts:14-15 | `stem.ext` gives `<id>.ext`, and a dot file `.ext` gives the bare id |
| UploadMiddleware.StoredPath | src/controllers/userController.ts:101 | multer's `file.path` starts with the destination, and its base name is the file name when that name is a plain one (normalised destinations only) |
| UploadMiddleware.AvatarNameAsWritten | src/middleware/upload.ts:11-17 | as written, the stored file keeps multer's generated name, whatever the user id |
| UploadMiddleware.AsWrittenNameIsNotTheUsers | src/middleware/upload.ts:11-17 | the stored avatar name differs from the intended `<id><ext>` whenever the generated name does |
| UploadMiddleware.AvatarNameIntended | src/middleware/upload.ts:11-17 | with the name given as file name, the stored avatar is the user id plus the original extension |
| UploadMiddleware.IntendedNamesAreDistinct | src/middleware/upload.ts:15 | two different user ids of the same length (as UUIDs are) never get the same avatar file name |

## Left out

- `src/index.ts` and the route files are server plumbing: there is no listening, no JSON parsing and no router. The route-order effect is described above.
- `async`/`await`, console logging and the message texts of JSON replies are not modelled. A reply is its status list plus the data fields a property needs.
- Express's behaviour when a handler writes twice (the second write throws once headers are sent) is not modelled: `written` lists every write the code attempts.
- Clocks are a `now` parameter and generated ids a `newId` parameter. A duplicate `newId` is a database refusal (500).
- bcrypt salts and cost factor, the JWT secret, token expiry and algorithms are not modelled. They appear only through the `Hasher` and `Jwt` values.
- AuthMiddleware.Gate: a token that verifies but whose payload has no `userId` is not modelled, because `Claims` always carries one.
- Database failures other than the ones the model derives (duplicate keys, a missing row in `update`, bcrypt given no password) are not modelled: 500 from a broken connection is outside the model.
- The Prisma schema is not part of this model. The tables assume it makes task and user ids, usernames and e-mail addresses unique. A new task has no `lastUpdated`, and `lastUpdate` of a new user is the registration time.
- UserStore.UserTable.Update: the password change does not stamp `lastUpdate`, as the code passes no such field.
- TaskController.SortNewestFirst: ties on the creation date keep store order. The database promises no order for ties, so the model is one admissible answer.
- UploadMiddleware.AvatarNameAsWritten: assumes the directory named `<userId><ext>` already exists under the working directory. multer creates a destination directory only when `destination` is a string, not a callback, so without that directory the write fails, the error goes to Express, and `uploadUserAvatar` never runs. That failure path is not modelled.
- Request body fields are `Option<string>`: a truthy value that is not a string (`title: 5`) cannot be expressed. The code would let it past the 400 checks, and Prisma's type validation would then throw (500). That path is not modelled.
- AuthController.FindByIdentifier: `findFirst` has no `orderBy`. When an identifier is one user's username and another user's e-mail address (the unique columns and the registration check both allow this), the database may return either row. The model takes the first in store order.
- AuthController.IdentifiedBy: that a missing identifier matches every row is an assumption about how Prisma treats `undefined` inside an `OR`. If instead such an `OR` matches nothing, the second write on that path is always 401 and no token is made. The client sees the 400 either way.
- UploadMiddleware.StoredPath: `path.join` normalises the path; the model concatenates with `/`, which agrees only for destinations without a trailing `/` and without `.` or `..` segments.
- multer itself is not modelled: writing the file, its random name (a `generated` parameter), creating the upload directory (`upload.ts:7-9`), and enforcing the size limit (only the constant is modelled). A refused file becomes an error passed to Express's error handler, and that path is not modelled.
- The password is never re-validated for strength or length, because the code does not do so either.

## Findings

| source | as written | input that shows it | evidently intended | confidence | as-written member | corrected member |
|---|---|---|---|---|---|---|
| src/controllers/authController.ts:113-122 | after a failed password check it writes 401 with no `return`, then hashes and stores the new password and writes 200 | an existing user, `currentPassword` that does not match the stored hash, any `newPassword`: the password is replaced | stop after 401 and leave the stored password unchanged | high, not executed | AuthController.UpdatePassword | AuthController.UpdatePasswordChecked |
| src/controllers/userController.ts:37-39 | the avatar path is built in single quotes, so `${user.avatar}` is not interpolated | a user whose avatar is `u1.png` gets the avatar `/uploads/avatars/${user.avatar}` | a template literal giving `/uploads/avatars/u1.png`, as the other two handlers build it | high, not executed | UserController.ProfileAvatarIsNotInterpolated | UserController.GetUserProfileInterpolated |
| src/middleware/upload.ts:11-17 | the `<userId><ext>` name is passed as the destination directory, and no `filename` callback is given | user `u1` uploads `me.png`: if a directory `u1.png` exists under the working directory, the file is saved there under multer's random name and the avatar stored is that random name; otherwise the write fails and the handler never runs | store the file as `u1.png` in the avatars directory | medium, not executed | UploadMiddleware.AvatarNameAsWritten | UploadMiddleware.AvatarNameIntended |
